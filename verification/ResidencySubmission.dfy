/** Submissions: which heaps are paged in, and what a successful
    ExecuteCommandLists guarantees. */
module ResidencySubmission {
  import opened Sets
  import opened ResidencySpec
  import opened ResidencyInvariant
  import opened ResidencyOperations

  ghost function PendingOf(p: Plan): set<HeapId> { ToSet(p.local) + ToSet(p.nonLocal) }

  ghost predicate TouchedOk(s: State, id: HeapId) {
    id in s.heaps && InCache(s, id) && s.heaps[id].lastUsed == s.fence.current && s.heaps[id].locks == 0
  }

  /** The heaps to page in are distinct, of the right segment, and among the touched ones. */
  ghost predicate PlanOk(p: Plan) {
    && InvIn(p.s, PendingOf(p), {}) && Distinct(p.local) && Distinct(p.nonLocal)
    && (forall id {:trigger Known(p.s, Local, id)} :: id in p.local ==> Known(p.s, Local, id))
    && (forall id {:trigger Known(p.s, NonLocal, id)} :: id in p.nonLocal ==> Known(p.s, NonLocal, id))
    && (forall id {:trigger TouchedOk(p.s, id)} :: id in p.touched ==> TouchedOk(p.s, id))
    && PendingOf(p) <= ToSet(p.touched)
  }

  /** Collecting changes nothing but the last-used fence of heaps, and their place in the cache. */
  ghost predicate Collected(s: State, s': State) {
    && s'.heaps.Keys == s.heaps.Keys && s'.fence == s.fence && s'.stats == s.stats && s'.log == s.log
    && forall id {:trigger s'.heaps[id]} :: id in s.heaps ==>
         s'.heaps[id] == s.heaps[id].(lastUsed := s'.heaps[id].lastUsed)
  }

  lemma TouchCaches(s: State, id: HeapId, s': State)
    requires CacheOk(s, Local) && CacheOk(s, NonLocal) && id in s.heaps && s' == Touch(s, id)
    ensures CacheOk(s', Local) && CacheOk(s', NonLocal)
    ensures forall x :: InCache(s', x) <==> InCache(s, x) || x == id
  {
    var s1 := Unlink(s, id).(heaps := s.heaps[id := s.heaps[id].(lastUsed := s.fence.current)]);
    UnlinkCaches(s, id, s1);
    InsertCaches(s1, id);
  }

  lemma TouchOk(s: State, id: HeapId, pend: set<HeapId>, s': State)
    requires InvIn(s, pend, {}) && id in s.heaps && s' == Touch(s, id)
    requires s.heaps[id].locks == 0 && s.heaps[id].lastUsed != s.fence.current
    ensures id !in pend
    ensures InvIn(s', if InCache(s, id) then pend else pend + {id}, {})
  {
    var pend' := if InCache(s, id) then pend else pend + {id};
    assert HeapOk(s, pend, {}, id);
    TouchCaches(s, id, s');
    forall x | x in s'.heaps
      ensures HeapOk(s', pend', {}, x)
    {
      assert HeapOk(s, pend, {}, x);
    }
  }

  lemma TouchPlan(p: Plan, id: HeapId, p': Plan)
    requires PlanOk(p) && id in p.s.heaps && p' == CollectOne(p, id)
    requires p.s.heaps[id].locks == 0 && p.s.heaps[id].lastUsed != p.s.fence.current
    ensures PlanOk(p')
  {
    var s, h := p.s, p.s.heaps[id];
    TouchOk(s, id, PendingOf(p), p'.s);
    TouchCaches(s, id, p'.s);
    assert PendingOf(p') == if InCache(s, id) then PendingOf(p) else PendingOf(p) + {id};
    if !InCache(s, id) {
      DistinctSnoc(if h.segment == Local then p.local else p.nonLocal, id);
    }
    forall x | x in p'.touched
      ensures TouchedOk(p'.s, x)
    {
      if x != id { assert TouchedOk(s, x); }
    }
    forall x | x in p'.local
      ensures Known(p'.s, Local, x)
    {
      if x != id { assert Known(s, Local, x); }
    }
    forall x | x in p'.nonLocal
      ensures Known(p'.s, NonLocal, x)
    {
      if x != id { assert Known(s, NonLocal, x); }
    }
  }

  /** Collecting the heaps of a submission keeps the plan in order. */
  lemma {:induction false} CollectOk(p: Plan, ids: seq<HeapId>, r: Plan)
    requires PlanOk(p) && (forall id :: id in ids ==> id in p.s.heaps) && r == Collect(p, ids)
    ensures PlanOk(r)
    decreases |ids|
  {
    if ids != [] {
      var id, p' := ids[0], CollectOne(p, ids[0]);
      if p.s.heaps[id].locks == 0 && p.s.heaps[id].lastUsed != p.s.fence.current {
        TouchPlan(p, id, p');
      }
      CollectOk(p', ids[1..], r);
    }
  }

  lemma CollectOneFrame(p: Plan, id: HeapId, p': Plan)
    requires id in p.s.heaps && p' == CollectOne(p, id)
    ensures Collected(p.s, p'.s) && ToSet(p.touched) <= ToSet(p'.touched)
    ensures forall x :: x in p.s.heaps && x != id ==> p'.s.heaps[x] == p.s.heaps[x]
    ensures p.s.heaps[id].locks > 0 || p.s.heaps[id].lastUsed == p.s.fence.current || id in p'.touched
  {
  }

  lemma CollectedTwice(s: State, s1: State, s2: State)
    requires Collected(s, s1) && Collected(s1, s2)
    ensures Collected(s, s2)
  {
    forall id | id in s.heaps
      ensures s2.heaps[id] == s.heaps[id].(lastUsed := s2.heaps[id].lastUsed)
    {
      assert s1.heaps[id] == s.heaps[id].(lastUsed := s1.heaps[id].lastUsed);
    }
  }

  lemma {:induction false} CollectFrame(p: Plan, ids: seq<HeapId>, r: Plan)
    requires (forall id :: id in ids ==> id in p.s.heaps) && r == Collect(p, ids)
    ensures Collected(p.s, r.s) && ToSet(p.touched) <= ToSet(r.touched)
    decreases |ids|
  {
    if ids != [] {
      var p' := CollectOne(p, ids[0]);
      CollectOneFrame(p, ids[0], p');
      CollectFrame(p', ids[1..], r);
      CollectedTwice(p.s, p'.s, r.s);
    }
  }

  /** Every listed heap that is unlocked and not used by this submission yet gets touched;
      a repeated one is skipped. */
  lemma {:induction false} CollectTouches(p: Plan, ids: seq<HeapId>, r: Plan, x: HeapId)
    requires (forall id :: id in ids ==> id in p.s.heaps) && r == Collect(p, ids) && x in ids
    requires p.s.heaps[x].locks == 0 && p.s.heaps[x].lastUsed != p.s.fence.current
    ensures x in r.touched
    decreases |ids|
  {
    var p' := CollectOne(p, ids[0]);
    CollectOneFrame(p, ids[0], p');
    CollectFrame(p', ids[1..], r);
    if x == ids[0] {
      assert x in ToSet(p'.touched);
    } else {
      CollectTouches(p', ids[1..], r, x);
    }
  }

  // ----- Paging in

  lemma {:induction false} MarkResidentHeaps(s: State, ids: seq<HeapId>, r: State)
    requires r == MarkResident(s, ids) && forall id :: id in ids ==> id in s.heaps
    ensures r == s.(heaps := r.heaps) && r.heaps.Keys == s.heaps.Keys
    ensures forall x {:trigger r.heaps[x]} :: x in s.heaps ==>
      r.heaps[x] == if x in ids then s.heaps[x].(status := Resident) else s.heaps[x]
    decreases |ids|
  {
    if ids != [] {
      MarkResidentHeaps(SetStatus(s, ids[0], Resident), ids[1..], r);
    }
  }

  /** One device call that makes distinct heaps resident, none of which is. */
  lemma {:induction false} MakeCallsOk(log: seq<Call>, ids: seq<HeapId>)
    requires LogOk(log) && Distinct(ids) && forall id :: id in ids ==> Count(log, id) == 0
    ensures LogOk(log + MakeCalls(ids))
    ensures forall x :: Count(log + MakeCalls(ids), x) == Count(log, x) + if x in ids then 1 else 0
    decreases |ids|
  {
    if ids == [] {
      assert log + MakeCalls(ids) == log;
    } else {
      var c := MadeResident(ids[0]);
      DistinctTail(ids);
      LogAppend(log, c);
      forall x
        ensures Count(log + [c], x) == Count(log, x) + if x == ids[0] then 1 else 0
      {
        CountAppend(log, c, x);
      }
      MakeCallsOk(log + [c], ids[1..]);
      assert log + MakeCalls(ids) == (log + [c]) + MakeCalls(ids[1..]);
    }
  }

  /** After paging in `ids` and marking all touched heaps resident, the invariant
      holds exactly if `ids` are all the heaps that were pending. */
  lemma PagedIn(s: State, pend: set<HeapId>, ids: seq<HeapId>, touched: seq<HeapId>, r: State)
    requires InvIn(s, pend, {}) && Distinct(ids) && ToSet(ids) <= pend <= ToSet(touched)
    requires forall id {:trigger TouchedOk(s, id)} :: id in touched ==> TouchedOk(s, id)
    requires r == MarkResident(s.(log := s.log + MakeCalls(ids)), touched)
    ensures Inv(r) <==> pend <= ToSet(ids)
    ensures r.fence == s.fence && r.local == s.local && r.nonLocal == s.nonLocal && r.stats == s.stats
    ensures r.heaps.Keys == s.heaps.Keys
    ensures forall x {:trigger r.heaps[x]} :: x in s.heaps ==>
      r.heaps[x] == if x in touched then s.heaps[x].(status := Resident) else s.heaps[x]
  {
    var s1 := s.(log := s.log + MakeCalls(ids));
    forall id | id in touched
      ensures id in s.heaps
    {
      assert TouchedOk(s, id);
    }
    MarkResidentHeaps(s1, touched, r);
    forall id | id in ids
      ensures Count(s.log, id) == 0
    {
      assert id in ToSet(ids);
      assert HeapOk(s, pend, {}, id);
    }
    MakeCallsOk(s.log, ids);
    SameCaches(s, r);
    forall x | x in r.heaps
      ensures HeapOk(r, {}, {}, x) <==> x !in pend || x in ids
    {
      PagedHeap(s, pend, ids, touched, r, x);
    }
    if !(pend <= ToSet(ids)) {
      var x :| x in pend && x !in ToSet(ids);
      assert !HeapOk(r, {}, {}, x);
    }
  }

  lemma PagedHeap(s: State, pend: set<HeapId>, ids: seq<HeapId>, touched: seq<HeapId>, r: State, x: HeapId)
    requires InvIn(s, pend, {}) && ToSet(ids) <= pend <= ToSet(touched) && x in s.heaps && x in r.heaps
    requires x in touched ==> TouchedOk(s, x)
    requires r.heaps[x] == if x in touched then s.heaps[x].(status := Resident) else s.heaps[x]
    requires r.fence == s.fence && r.local == s.local && r.nonLocal == s.nonLocal
    requires Count(r.log, x) == Count(s.log, x) + if x in ids then 1 else 0
    ensures HeapOk(r, {}, {}, x) <==> x !in pend || x in ids
  {
    assert HeapOk(s, pend, {}, x);
    assert x in ids ==> x in ToSet(ids);
    assert x in pend ==> x in ToSet(touched);
  }

  // ----- The whole submission

  /** Eviction keeps the heaps of the submission in the cache. */
  lemma TouchedKept(s: State, s1: State, g: Segment, id: HeapId)
    requires EvictsFrom(s, s1, g) && TouchedOk(s, id)
    ensures TouchedOk(s1, id)
  {
    assert HeapKept(s, s1, g, id);
  }

  lemma {:induction false} SizePositive(s: State, ids: seq<HeapId>)
    requires forall id :: id in ids ==> id in s.heaps && s.heaps[id].size > 0
    ensures SizeOf(s, ids) > 0 <==> ids != []
  {
    if ids != [] {
      SizePositive(s, ids[1..]);
    }
  }

  lemma PlanSizes(p: Plan)
    requires PlanOk(p)
    ensures SizeOf(p.s, p.local) > 0 <==> p.local != []
    ensures SizeOf(p.s, p.nonLocal) > 0 <==> p.nonLocal != []
  {
    forall id | id in p.local + p.nonLocal
      ensures id in p.s.heaps && p.s.heaps[id].size > 0
    {
      assert id in PendingOf(p);
      assert HeapOk(p.s, PendingOf(p), {}, id);
    }
    SizePositive(p.s, p.local);
    SizePositive(p.s, p.nonLocal);
  }

  ghost function PlanOf(s: State, ids: seq<HeapId>): Plan
    requires forall id :: id in ids ==> id in s.heaps
  {
    Collect(Plan(s, [], [], []), ids)
  }

  /** The submission pages in heaps of at most one segment. */
  ghost predicate OneSegment(s: State, ids: seq<HeapId>)
    requires forall id :: id in ids ==> id in s.heaps
  {
    PlanOf(s, ids).local == [] || PlanOf(s, ids).nonLocal == []
  }

  lemma PlanOfOk(s: State, ids: seq<HeapId>)
    requires Inv(s) && forall id :: id in ids ==> id in s.heaps
    ensures PlanOk(PlanOf(s, ids)) && Collected(s, PlanOf(s, ids).s)
  {
    var p := Plan(s, [], [], []);
    assert PendingOf(p) == {};
    CollectOk(p, ids, PlanOf(s, ids));
    CollectFrame(p, ids, PlanOf(s, ids));
  }

  lemma {:induction false} CollectMarksTouched(p: Plan, ids: seq<HeapId>, r: Plan, x: HeapId)
    requires (forall id :: id in ids ==> id in p.s.heaps) && r == Collect(p, ids) && x in p.s.heaps
    ensures x in r.s.heaps
    ensures r.s.heaps[x].lastUsed == p.s.heaps[x].lastUsed || x in r.touched
    decreases |ids|
  {
    if ids != [] {
      var p' := CollectOne(p, ids[0]);
      CollectOneFrame(p, ids[0], p');
      CollectFrame(p', ids[1..], r);
      CollectMarksTouched(p', ids[1..], r, x);
      assert x in p'.touched ==> x in ToSet(p'.touched);
    }
  }

  /** Only listed heaps are touched. */
  lemma {:induction false} CollectTouchesListed(p: Plan, ids: seq<HeapId>, r: Plan, x: HeapId)
    requires (forall id :: id in ids ==> id in p.s.heaps) && r == Collect(p, ids) && x in r.touched
    ensures x in p.touched || x in ids
    decreases |ids|
  {
    if ids != [] {
      var p' := CollectOne(p, ids[0]);
      CollectOneFrame(p, ids[0], p');
      CollectTouchesListed(p', ids[1..], r, x);
    }
  }

  /** After preparing a submission, exactly the listed unlocked heaps carry its fence value. */
  lemma PreparedUse(s: State, ids: seq<HeapId>, x: HeapId)
    requires Inv(s) && (forall id :: id in ids ==> id in s.heaps) && x in s.heaps
    ensures var p := PlanOf(s, ids);
            && x in p.s.heaps && s.heaps[x].lastUsed <= p.s.heaps[x].lastUsed
            && (x in ids && s.heaps[x].locks == 0 ==> p.s.heaps[x].lastUsed == s.fence.current)
  {
    var p0, p := Plan(s, [], [], []), PlanOf(s, ids);
    PlanOfOk(s, ids);
    CollectMarksTouched(p0, ids, p, x);
    assert HeapOk(s, {}, {}, x);
    if x in ids && s.heaps[x].locks == 0 && s.heaps[x].lastUsed != s.fence.current {
      CollectTouches(p0, ids, p, x);
    }
    assert x in p.touched ==> TouchedOk(p.s, x);
  }

  /** What a successful submission has done before it signals: `s1` is the state in
      which the last paging attempt was made, `paged` the heaps it paged in. */
  ghost predicate Submitted(s: State, ids: seq<HeapId>, s1: State, paged: seq<HeapId>, r: State)
    requires forall id :: id in ids ==> id in s.heaps
  {
    var p := PlanOf(s, ids);
    && (paged == if p.local != [] then p.local else p.nonLocal)
    && InvIn(s1, PendingOf(p), {})
    && EvictsFrom(p.s, s1, if p.local != [] then Local else NonLocal) && LogGrows(p.s, s1)
    && r == MarkResident(s1.(log := s1.log + MakeCalls(paged)), p.touched)
  }

  lemma ExecuteSteps(s: State, ids: seq<HeapId>, signal: bool, evictSize: nat, env: Env)
    returns (s1: State, paged: seq<HeapId>, r: State)
    requires Inv(s) && forall id :: id in ids ==> id in s.heaps
    requires Execute(s, ids, signal, evictSize, env).1 == OK
    ensures Submitted(s, ids, s1, paged, r)
    ensures Execute(s, ids, signal, evictSize, env).0 == if signal then SignalFor(r, ExecutedCall(s, ids)) else r
  {
    var p := PlanOf(s, ids);
    PlanOfOk(s, ids);
    PlanSizes(p);
    if p.local != [] {
      paged := p.local;
      s1 := MakeResidentOk(p.s, Local, SizeOf(p.s, p.local), paged, evictSize, env, PendingOf(p));
    } else if p.nonLocal != [] {
      paged := p.nonLocal;
      s1 := MakeResidentOk(p.s, NonLocal, SizeOf(p.s, p.nonLocal), paged, evictSize, env, PendingOf(p));
    } else {
      paged, s1 := [], p.s;
      EvictsNothing(p.s, NonLocal);
      assert s1.log + MakeCalls(paged) == s1.log;
    }
    r := MarkResident(s1.(log := s1.log + MakeCalls(paged)), p.touched);
  }

  /** Which heaps a successful submission leaves pending: none, exactly if it pages in one segment. */
  lemma SubmittedOk(s: State, ids: seq<HeapId>, s1: State, paged: seq<HeapId>, r: State)
    requires Inv(s) && (forall id :: id in ids ==> id in s.heaps) && Submitted(s, ids, s1, paged, r)
    ensures var p := PlanOf(s, ids);
            && (Inv(r) <==> OneSegment(s, ids))
            && (!OneSegment(s, ids) ==> Inaccurate(r))
            && r.fence.current == s.fence.current && r.fence.lastSignaled == s.fence.lastSignaled && FenceOk(r.fence)
            && forall id :: id in p.touched ==> TouchedOk(r, id) && r.heaps[id].status == Resident
  {
    var p := PlanOf(s, ids);
    PlanOfOk(s, ids);
    forall id | id in p.touched
      ensures TouchedOk(s1, id)
    {
      assert TouchedOk(p.s, id);
      TouchedKept(p.s, s1, if p.local != [] then Local else NonLocal, id);
    }
    assert ToSet(paged) <= PendingOf(p);
    PagedIn(s1, PendingOf(p), paged, p.touched, r);
    SegmentsDisjoint(p);
    if !OneSegment(s, ids) {
      StillPending(s1, PendingOf(p), paged, p.touched, r, p.nonLocal[0]);
    }
  }

  lemma SegmentsDisjoint(p: Plan)
    requires PlanOk(p)
    ensures p.local != [] ==> (PendingOf(p) <= ToSet(p.local) <==> p.nonLocal == [])
    ensures p.local == [] ==> PendingOf(p) == ToSet(p.nonLocal)
    ensures p.nonLocal != [] ==> p.nonLocal[0] in PendingOf(p) && p.nonLocal[0] !in p.local
  {
    if p.nonLocal != [] {
      var x := p.nonLocal[0];
      assert x in p.nonLocal;
      assert Known(p.s, NonLocal, x);
      assert x in p.local ==> Known(p.s, Local, x);
      assert x in PendingOf(p) && x !in ToSet(p.local);
    }
  }

  /** Some heap is recorded as resident although the device has not made it resident. */
  ghost predicate Inaccurate(s: State) {
    exists id :: id in s.heaps && s.heaps[id].status == Resident && Count(s.log, id) == 0
  }

  lemma InaccurateIsBad(s: State)
    requires Inaccurate(s)
    ensures !Inv(s)
  {
    var id :| id in s.heaps && s.heaps[id].status == Resident && Count(s.log, id) == 0;
    assert !HeapOk(s, {}, {}, id);
  }

  lemma StillPending(s: State, pend: set<HeapId>, ids: seq<HeapId>, touched: seq<HeapId>, r: State, x: HeapId)
    requires InvIn(s, pend, {}) && Distinct(ids) && ToSet(ids) <= pend <= ToSet(touched)
    requires forall id {:trigger TouchedOk(s, id)} :: id in touched ==> TouchedOk(s, id)
    requires r == MarkResident(s.(log := s.log + MakeCalls(ids)), touched)
    requires x in pend && x !in ids
    ensures Inaccurate(r)
  {
    PagedIn(s, pend, ids, touched, r);
    assert HeapOk(s, pend, {}, x);
    forall id | id in ids
      ensures Count(s.log, id) == 0
    {
      assert id in ToSet(ids);
      assert HeapOk(s, pend, {}, id);
    }
    MakeCallsOk(s.log, ids);
    assert x in ToSet(touched);
    assert x in touched && r.heaps[x].status == Resident;
    forall id | id in touched
      ensures id in s.heaps
    {
      assert TouchedOk(s, id);
    }
    MarkResidentHeaps(s.(log := s.log + MakeCalls(ids)), touched, r);
  }

  lemma SignalOk(s: State, c: Call)
    requires FenceOk(s.fence) && c.Executed? && c.unlocked <= c.listed
    ensures Inv(s) ==> Inv(SignalFor(s, c))
    ensures forall id :: Count(SignalFor(s, c).log, id) == Count(s.log, id)
  {
    var s' := SignalFor(s, c);
    forall id
      ensures Count(s'.log, id) == Count(s.log, id)
    {
      CountAppend(s.log, c, id);
    }
    if Inv(s) {
      LogAppend(s.log, c);
      SameCaches(s, s');
      forall x | x in s'.heaps
        ensures HeapOk(s', {}, {}, x)
      {
        assert HeapOk(s, {}, {}, x);
      }
    }
  }

  /** A successful submission keeps the invariant exactly if the heaps it has to
      page in belong to one segment. */
  lemma ExecuteExact(s: State, ids: seq<HeapId>, signal: bool, evictSize: nat, env: Env)
    requires Inv(s) && forall id :: id in ids ==> id in s.heaps
    requires Execute(s, ids, signal, evictSize, env).1 == OK
    ensures Inv(Execute(s, ids, signal, evictSize, env).0) <==> OneSegment(s, ids)
  {
    var s1, paged, r := ExecuteSteps(s, ids, signal, evictSize, env);
    var s' := Execute(s, ids, signal, evictSize, env).0;
    SubmittedOk(s, ids, s1, paged, r);
    SignalOk(r, ExecutedCall(s, ids));
    if !OneSegment(s, ids) {
      var id :| id in r.heaps && r.heaps[id].status == Resident && Count(r.log, id) == 0;
      assert Inaccurate(s');
      InaccurateIsBad(s');
    }
  }

  /** An eviction before `s1` waited for the fence value of its heap, which is not
      that of a submission that has not been signaled. */
  lemma OwnNotEvicted(s: State, s1: State, pend: set<HeapId>, id: HeapId, k: nat)
    requires InvIn(s1, pend, {}) && LogGrows(s, s1) && s1.fence.current == s.fence.current
    requires id in s.heaps && s.heaps[id].lastUsed == s.fence.current
    requires |s.log| <= k < |s1.log| && s1.log[k].Evicted?
    ensures s1.log[k].id != id
  {
    assert Recorded(s, s1, s1.log[k]) && EntryOk(s1.log, k, s1.log[k]);
  }

  lemma SuccessKeepsOwnHeaps(s: State, ids: seq<HeapId>, signal: bool, evictSize: nat, env: Env, id: HeapId, k: nat,
                             s': State)
    requires Inv(s) && (forall x :: x in ids ==> x in s.heaps) && id in ids && s.heaps[id].locks == 0
    requires Execute(s, ids, signal, evictSize, env) == (s', OK)
    requires |s.log| <= k < |s'.log| && s'.log[k].Evicted?
    ensures s'.log[k].id != id
  {
    var p := PlanOf(s, ids);
    var s1, paged, r := ExecuteSteps(s, ids, signal, evictSize, env);
    PlanOfOk(s, ids);
    PreparedUse(s, ids, id);
    SubmittedLog(p, s1, paged, r);
    NoLaterEviction(s1.log, paged, ExecutedCall(s, ids), s'.log, k);
    OwnNotEvicted(p.s, s1, PendingOf(p), id, k);
  }

  lemma NoLaterEviction(log: seq<Call>, paged: seq<HeapId>, c: Call, log': seq<Call>, k: nat)
    requires c.Executed? && (log' == log + MakeCalls(paged) || log' == log + MakeCalls(paged) + [c])
    requires k < |log'| && log'[k].Evicted?
    ensures k < |log| && log'[k] == log[k]
  {
  }

  /** No submission, successful or not, evicts a heap that it lists and finds unlocked. */
  lemma SubmissionKeepsOwnHeaps(s: State, ids: seq<HeapId>, signal: bool, evictSize: nat, env: Env, id: HeapId, k: nat,
                                s': State)
    requires Inv(s) && (forall x :: x in ids ==> x in s.heaps) && id in ids && s.heaps[id].locks == 0
    requires s' == Execute(s, ids, signal, evictSize, env).0 && |s.log| <= k < |s'.log| && s'.log[k].Evicted?
    ensures s'.log[k].id != id
  {
    if Execute(s, ids, signal, evictSize, env).1 == OK {
      SuccessKeepsOwnHeaps(s, ids, signal, evictSize, env, id, k, s');
    } else {
      var p := PlanOf(s, ids);
      var g, paged, s1 := FailedSteps(s, ids, signal, evictSize, env);
      PlanOfOk(s, ids);
      PreparedUse(s, ids, id);
      OwnNotEvicted(p.s, s1, PendingOf(p), id, k);
    }
  }

  lemma SubmittedLog(p: Plan, s1: State, paged: seq<HeapId>, r: State)
    requires PlanOk(p) && s1.heaps.Keys == p.s.heaps.Keys
    requires r == MarkResident(s1.(log := s1.log + MakeCalls(paged)), p.touched)
    ensures r.log == s1.log + MakeCalls(paged)
  {
    forall id | id in p.touched
      ensures id in s1.heaps
    {
      assert TouchedOk(p.s, id);
    }
    MarkResidentHeaps(s1.(log := s1.log + MakeCalls(paged)), p.touched, r);
  }

  /** Every unlocked listed heap, repeated or not, ends up in the cache and
      resident; eviction for the submission never takes it out. */
  lemma ExecuteGuarantee(s: State, ids: seq<HeapId>, signal: bool, evictSize: nat, env: Env, id: HeapId)
    requires Inv(s) && (forall x :: x in ids ==> x in s.heaps) && OneSegment(s, ids)
    requires Execute(s, ids, signal, evictSize, env).1 == OK
    requires id in ids && s.heaps[id].locks == 0 && s.heaps[id].lastUsed != s.fence.current
    ensures var s' := Execute(s, ids, signal, evictSize, env).0;
            && id in s'.heaps && InCache(s', id) && s'.heaps[id].status == Resident
            && s'.heaps[id].lastUsed == s.fence.current && Count(s'.log, id) == 1
            && forall k: nat {:trigger s'.log[k]} ::
               |s.log| <= k < |s'.log| && s'.log[k].Evicted? ==> s'.log[k].id != id
  {
    var s1, paged, r := ExecuteSteps(s, ids, signal, evictSize, env);
    var s' := Execute(s, ids, signal, evictSize, env).0;
    SubmittedOk(s, ids, s1, paged, r);
    CollectTouches(Plan(s, [], [], []), ids, PlanOf(s, ids), id);
    assert TouchedOk(r, id);
    assert HeapOk(r, {}, {}, id);
    SignalOk(r, ExecutedCall(s, ids));
    forall k: nat | |s.log| <= k < |s'.log| && s'.log[k].Evicted?
      ensures s'.log[k].id != id
    {
      SuccessKeepsOwnHeaps(s, ids, signal, evictSize, env, id, k, s');
    }
  }

  /** What a failed submission has done: `s1` is the state after the last attempt. */
  lemma FailedSteps(s: State, ids: seq<HeapId>, signal: bool, evictSize: nat, env: Env)
    returns (g: Segment, paged: seq<HeapId>, s1: State)
    requires Inv(s) && forall id :: id in ids ==> id in s.heaps
    requires Execute(s, ids, signal, evictSize, env).1 != OK
    ensures var p := PlanOf(s, ids);
            && paged == (if p.local != [] then p.local else p.nonLocal) && paged != []
            && InvIn(s1, PendingOf(p), {}) && EvictsFrom(p.s, s1, g) && LogGrows(p.s, s1)
    ensures Execute(s, ids, signal, evictSize, env).0 == s1
  {
    var p := PlanOf(s, ids);
    PlanOfOk(s, ids);
    PlanSizes(p);
    g, paged := if p.local != [] then Local else NonLocal, if p.local != [] then p.local else p.nonLocal;
    s1 := MakeResidentOk(p.s, g, SizeOf(p.s, paged), paged, evictSize, env, PendingOf(p));
  }

  /** A submission that fails always leaves the invariant broken: a heap that it
      listed stays linked in the cache although it is not resident. */
  lemma FailedSubmissionBreaks(s: State, ids: seq<HeapId>, signal: bool, evictSize: nat, env: Env)
    returns (id: HeapId)
    requires Inv(s) && forall id :: id in ids ==> id in s.heaps
    requires Execute(s, ids, signal, evictSize, env).1 != OK
    ensures var s' := Execute(s, ids, signal, evictSize, env).0;
            && id in ids && id in s'.heaps && InCache(s', id)
            && s'.heaps[id].status != Resident && Count(s'.log, id) == 0 && !Inv(s')
  {
    var p := PlanOf(s, ids);
    var g, paged, s1 := FailedSteps(s, ids, signal, evictSize, env);
    id := paged[0];
    PlanOfOk(s, ids);
    assert id in PendingOf(p) && id in ToSet(p.touched);
    CollectTouchesListed(Plan(s, [], [], []), ids, p, id);
    assert HeapOk(s1, PendingOf(p), {}, id);
    assert !HeapOk(s1, {}, {}, id);
  }

  /** The heap has to be paged in by a submission that lists it. */
  ghost predicate NeedsPaging(s: State, id: HeapId)
    requires id in s.heaps
  {
    s.heaps[id].locks == 0 && s.heaps[id].lastUsed != s.fence.current && !InCache(s, id)
  }

  ghost predicate Needs(s: State, ids: seq<HeapId>, id: HeapId, g: Segment)
    requires id in s.heaps
  {
    id in ids && NeedsPaging(s, id) && s.heaps[id].segment == g
  }

  lemma NeedsStep(p: Plan, ids: seq<HeapId>, p': Plan, x: HeapId)
    requires PlanOk(p) && ids != [] && ids[0] in p.s.heaps && p' == CollectOne(p, ids[0]) && x in p.s.heaps
    ensures x in p'.s.heaps
    ensures x in p'.local || Needs(p'.s, ids[1..], x, Local) <==> x in p.local || Needs(p.s, ids, x, Local)
    ensures x in p'.nonLocal || Needs(p'.s, ids[1..], x, NonLocal) <==> x in p.nonLocal || Needs(p.s, ids, x, NonLocal)
  {
    var id := ids[0];
    CollectOneFrame(p, id, p');
    assert x in ids <==> x == id || x in ids[1..];
    if p.s.heaps[id].locks == 0 && p.s.heaps[id].lastUsed != p.s.fence.current {
      TouchCaches(p.s, id, p'.s);
    }
  }

  /** The heaps to page in, by segment: those collected before and those that need it. */
  lemma {:induction false} CollectNeeds(p: Plan, ids: seq<HeapId>, r: Plan, x: HeapId)
    requires PlanOk(p) && (forall id :: id in ids ==> id in p.s.heaps) && r == Collect(p, ids) && x in p.s.heaps
    ensures x in r.local <==> x in p.local || Needs(p.s, ids, x, Local)
    ensures x in r.nonLocal <==> x in p.nonLocal || Needs(p.s, ids, x, NonLocal)
    decreases |ids|
  {
    if ids != [] {
      var id, p' := ids[0], CollectOne(p, ids[0]);
      CollectOneFrame(p, id, p');
      if p.s.heaps[id].locks == 0 && p.s.heaps[id].lastUsed != p.s.fence.current {
        TouchPlan(p, id, p');
      }
      NeedsStep(p, ids, p', x);
      CollectNeeds(p', ids[1..], r, x);
    }
  }

  /** The submission pages in one segment exactly when no two listed heaps that
      have to be paged in lie in different segments. */
  lemma OneSegmentMeaning(s: State, ids: seq<HeapId>)
    requires Inv(s) && forall id :: id in ids ==> id in s.heaps
    ensures OneSegment(s, ids) <==>
            forall x, y :: x in ids && y in ids && NeedsPaging(s, x) && NeedsPaging(s, y) ==>
              s.heaps[x].segment == s.heaps[y].segment
  {
    var p0, p := Plan(s, [], [], []), PlanOf(s, ids);
    assert PendingOf(p0) == {};
    PlanOfOk(s, ids);
    forall x | x in s.heaps
      ensures x in p.local <==> Needs(s, ids, x, Local)
      ensures x in p.nonLocal <==> Needs(s, ids, x, NonLocal)
    {
      CollectNeeds(p0, ids, p, x);
    }
    if p.local != [] && p.nonLocal != [] {
      assert Known(p.s, Local, p.local[0]) && Known(p.s, NonLocal, p.nonLocal[0]);
      assert Needs(s, ids, p.local[0], Local) && Needs(s, ids, p.nonLocal[0], NonLocal);
    }
    forall x | x in ids && NeedsPaging(s, x)
      ensures x in p.local || x in p.nonLocal
    {
    }
  }
}
