/** When paging in succeeds: the attempts that are made and the evictions between them. */
module ResidencyPaging {
  import opened Sets
  import opened Options
  import opened ResidencySpec
  import opened ResidencyInvariant
  import opened ResidencyOperations
  import opened ResidencySubmission
  import opened ResidencyTheorems
  import opened ResidencyRuns
  import opened ResidencyLocks

  // ----- Attempts

  /** The state in which attempt `k` is made, if the ones before it fail and each is
      followed by an eviction. */
  ghost function AttemptState(s: State, g: Segment, evictSize: nat, env: Env, k: nat): State {
    if k == 0 then s
    else Evict(AttemptState(s, g, evictSize, env, k - 1), g, evictSize, env.info(k), env.reached).0
  }

  /** An eviction of `bytes` takes something out: there is a budget and a shortfall,
      and the least recently used heap is not in use. */
  ghost predicate CanEvict(s: State, g: Segment, bytes: nat, info: Info) {
    && Shortfall(bytes, info) > 0 && Cache(s, g) != []
    && Cache(s, g)[0] in s.heaps && s.heaps[Cache(s, g)[0]].lastUsed != s.fence.current
  }

  /** Attempt `k` is made: all before it fail, and after each of them something can be evicted. */
  ghost predicate ComesTo(s: State, g: Segment, evictSize: nat, env: Env, k: nat) {
    forall j: nat {:trigger env.succeeds(j)} :: j < k ==>
      !env.succeeds(j) && CanEvict(AttemptState(s, g, evictSize, env, j), g, evictSize, env.info(j + 1))
  }

  /** An eviction reports bytes exactly if it can take something out, and then it does. */
  lemma EvictFrees(s: State, g: Segment, bytes: nat, info: Info, reached: nat -> nat, pend: set<HeapId>)
    requires InvIn(s, pend, {})
    ensures var (s', evicted) := Evict(s, g, bytes, info, reached);
            && (evicted.Some? && evicted.value > 0 <==> CanEvict(s, g, bytes, info))
            && (CanEvict(s, g, bytes, info) ==> |Cache(s', g)| < |Cache(s, g)|)
            && (!CanEvict(s, g, bytes, info) ==> Cache(s', g) == Cache(s, g))
  {
    var need, c := Shortfall(bytes, info), Cache(s, g);
    if need > 0 {
      var k := VictimsFound(s, g, need);
      EvictForm(s, g, bytes, info, reached, k);
      VictimCountMeaning(s, c, need, 0);
      if c != [] {
        CacheKnows(s, g, c[0]);
        assert HeapOk(s, pend, {}, c[0]);
        assert PrefixSize(s, c, 0) == 0 && PrefixSize(s, c, 1) > 0;
        if k > 0 {
          PrefixGrows(s, c, 1, k);
          assert !EvictionStops(s, c, need, 0);
        }
      }
    }
  }

  lemma ComesToNext(s: State, g: Segment, evictSize: nat, env: Env, k: nat)
    requires ComesTo(s, g, evictSize, env, k) && !env.succeeds(k)
    requires CanEvict(AttemptState(s, g, evictSize, env, k), g, evictSize, env.info(k + 1))
    ensures ComesTo(s, g, evictSize, env, k + 1)
  {
  }

  lemma RetryStep(s: State, g: Segment, ids: seq<HeapId>, evictSize: nat, env: Env, k: nat, s': State,
                  evicted: Option<nat>)
    requires (s', evicted) == Evict(s, g, evictSize, env.info(k + 1), env.reached)
    ensures Retry(s, g, ids, evictSize, env, k) ==
              if env.succeeds(k) then (s.(log := s.log + MakeCalls(ids)), true)
              else if evicted.Some? && evicted.value > 0 then Retry(s', g, ids, evictSize, env, k + 1)
              else (s', false)
  {
  }

  lemma {:induction false} RetryEndsFrom(s: State, g: Segment, ids: seq<HeapId>, evictSize: nat, env: Env,
                                         pend: set<HeapId>, k: nat, sk: State) returns (n: nat)
    requires InvIn(sk, pend, {}) && sk == AttemptState(s, g, evictSize, env, k) && ComesTo(s, g, evictSize, env, k)
    ensures ComesTo(s, g, evictSize, env, n)
    ensures RetryResult(s, g, ids, evictSize, env, n, Retry(sk, g, ids, evictSize, env, k))
    decreases |Cache(sk, g)|
  {
    var s', evicted := Evict(sk, g, evictSize, env.info(k + 1), env.reached).0,
                       Evict(sk, g, evictSize, env.info(k + 1), env.reached).1;
    EvictFrees(sk, g, evictSize, env.info(k + 1), env.reached, pend);
    RetryStep(sk, g, ids, evictSize, env, k, s', evicted);
    n := k;
    if !env.succeeds(k) && CanEvict(sk, g, evictSize, env.info(k + 1)) {
      EvictOk(sk, g, evictSize, env.info(k + 1), pend, env.reached, s');
      ComesToNext(s, g, evictSize, env, k);
      n := RetryEndsFrom(s, g, ids, evictSize, env, pend, k + 1, s');
    }
  }

  /** What is left after attempt `n`, the last one. */
  ghost predicate RetryResult(s: State, g: Segment, ids: seq<HeapId>, evictSize: nat, env: Env, n: nat,
                              r: (State, bool)) {
    var sn := AttemptState(s, g, evictSize, env, n);
    if env.succeeds(n) then r == (sn.(log := sn.log + MakeCalls(ids)), true)
    else !r.1 && !CanEvict(sn, g, evictSize, env.info(n + 1)) && r.0 == AttemptState(s, g, evictSize, env, n + 1)
  }

  /** There is an attempt that is made and succeeds. */
  ghost predicate Succeeds(s: State, g: Segment, evictSize: nat, env: Env) {
    exists k: nat :: ComesTo(s, g, evictSize, env, k) && env.succeeds(k)
  }

  /** Paging in first evicts to make room for what is paged in. It succeeds exactly
      if some attempt succeeds before an eviction after a failed one takes nothing
      out; the state is then that of the attempt, with one call to the device. */
  lemma MakeResidentIff(s: State, g: Segment, size: nat, ids: seq<HeapId>, evictSize: nat, env: Env, pend: set<HeapId>,
                        s0: State) returns (n: nat)
    requires InvIn(s, pend, {}) && s0 == Evict(s, g, size, env.info(0), env.reached).0
    ensures ComesTo(s0, g, evictSize, env, n)
    ensures RetryResult(s0, g, ids, evictSize, env, n, MakeResident(s, g, size, ids, evictSize, env))
    ensures MakeResident(s, g, size, ids, evictSize, env).1 <==> Succeeds(s0, g, evictSize, env)
  {
    EvictOk(s, g, size, env.info(0), pend, env.reached, s0);
    n := RetryEndsFrom(s0, g, ids, evictSize, env, pend, 0, s0);
    if k: nat :| ComesTo(s0, g, evictSize, env, k) && env.succeeds(k) {
      OneLast(s0, g, evictSize, env, n, k);
    }
  }

  lemma OneLast(s: State, g: Segment, evictSize: nat, env: Env, n: nat, k: nat)
    requires ComesTo(s, g, evictSize, env, n) && ComesTo(s, g, evictSize, env, k) && env.succeeds(k)
    requires env.succeeds(n) || !CanEvict(AttemptState(s, g, evictSize, env, n), g, evictSize, env.info(n + 1))
    ensures n == k
  {
  }

  // ----- Locks and submissions

  /** A lock succeeds exactly if the heap is cached, or locked already, or can be paged in. */
  lemma LockSucceedsIff(s: State, id: HeapId, evictSize: nat, env: Env)
    requires Inv(s) && id in s.heaps
    ensures var h := s.heaps[id];
            LockHeap(s, id, evictSize, env).1 == OK <==>
            InCache(s, id) || h.locks > 0 ||
            Succeeds(Evict(s, h.segment, h.size, env.info(0), env.reached).0, h.segment, evictSize, env)
  {
    var h := s.heaps[id];
    if !InCache(s, id) && h.locks == 0 {
      var (s1, ok) := MakeResident(s, h.segment, h.size, [id], evictSize, env);
      MakeResidentLocks(s, h.segment, h.size, [id], evictSize, env, s1);
      LockOutcome(s, id, evictSize, env, s1, ok);
      var n := MakeResidentIff(s, h.segment, h.size, [id], evictSize, env, {},
                               Evict(s, h.segment, h.size, env.info(0), env.reached).0);
    }
  }

  /** The heaps of a segment that a submission has to page in. */
  ghost function NeededSet(s: State, ids: seq<HeapId>, g: Segment): set<HeapId>
    requires forall id :: id in ids ==> id in s.heaps
  {
    set x | x in ids && Needs(s, ids, x, g)
  }

  lemma NeededSetsOf(s: State, ids: seq<HeapId>)
    requires Inv(s) && forall id :: id in ids ==> id in s.heaps
    ensures ToSet(PlanOf(s, ids).local) == NeededSet(s, ids, Local)
    ensures ToSet(PlanOf(s, ids).nonLocal) == NeededSet(s, ids, NonLocal)
  {
    var p0, p := Plan(s, [], [], []), PlanOf(s, ids);
    assert PendingOf(p0) == {};
    PlanOfOk(s, ids);
    forall x | x in s.heaps
      ensures x in p.local <==> Needs(s, ids, x, Local)
      ensures x in p.nonLocal <==> Needs(s, ids, x, NonLocal)
    {
      CollectNeeds(p0, ids, p, x);
    }
    forall x | x in p.local || x in p.nonLocal
      ensures x in s.heaps
    {
      assert x in p.local ==> Known(p.s, Local, x);
      assert x in p.nonLocal ==> Known(p.s, NonLocal, x);
    }
  }

  lemma {:induction false} SizeOfSet(s: State, c: seq<HeapId>)
    requires Distinct(c) && forall id :: id in c ==> id in s.heaps
    ensures ToSet(c) <= s.heaps.Keys && SizeOf(s, c) == Bytes(s.heaps, ToSet(c))
  {
    if c != [] {
      DistinctTail(c);
      SizeOfSet(s, c[1..]);
      BytesWithout(s.heaps, ToSet(c), c[0]);
      assert ToSet(c) - {c[0]} == ToSet(c[1..]);
    }
  }

  /** What has to be paged in, each heap counted once however often it is listed. */
  lemma NeededBytes(s: State, ids: seq<HeapId>, g: Segment, c: seq<HeapId>)
    requires Inv(s) && forall id :: id in ids ==> id in s.heaps
    requires c == if g == Local then PlanOf(s, ids).local else PlanOf(s, ids).nonLocal
    ensures SizeOf(PlanOf(s, ids).s, c) == Bytes(s.heaps, NeededSet(s, ids, g))
  {
    var p := PlanOf(s, ids);
    PlanOfOk(s, ids);
    NeededSetsOf(s, ids);
    forall id | id in c
      ensures id in p.s.heaps
    {
      assert id in ToSet(c);
    }
    SizeOfSet(p.s, c);
    BytesSame(s.heaps, p.s.heaps, ToSet(c));
  }

  /** A submission pages in the local heaps that need it, or else the others. It
      succeeds exactly if there are none or paging them in does, after making room
      for all of them. */
  lemma ExecuteSucceedsIff(s: State, ids: seq<HeapId>, signal: bool, evictSize: nat, env: Env, g: Segment, size: nat)
    requires Inv(s) && forall id :: id in ids ==> id in s.heaps
    requires g == if NeededSet(s, ids, Local) != {} then Local else NonLocal
    requires size == Bytes(s.heaps, NeededSet(s, ids, g))
    ensures Execute(s, ids, signal, evictSize, env).1 ==
              if NeededSet(s, ids, g) == {} ||
                 Succeeds(Evict(PlanOf(s, ids).s, g, size, env.info(0), env.reached).0, g, evictSize, env)
              then OK else OutOfMemory
  {
    var p := PlanOf(s, ids);
    var c := if g == Local then p.local else p.nonLocal;
    PlanOfOk(s, ids);
    PlanSizes(p);
    NeededSetsOf(s, ids);
    NeededBytes(s, ids, g, c);
    EmptySet(p.local);
    EmptySet(p.nonLocal);
    if c != [] {
      var n := MakeResidentIff(p.s, g, size, c, evictSize, env, PendingOf(p),
                               Evict(p.s, g, size, env.info(0), env.reached).0);
    }
    ExecuteOutcome(s, ids, signal, evictSize, env, g, c, size);
  }

  lemma EmptySet(c: seq<HeapId>)
    ensures ToSet(c) == {} <==> c == []
  {
    assert c != [] ==> c[0] in ToSet(c);
  }

  lemma ExecuteOutcome(s: State, ids: seq<HeapId>, signal: bool, evictSize: nat, env: Env, g: Segment, c: seq<HeapId>,
                       size: nat)
    requires forall id :: id in ids ==> id in s.heaps
    requires var p := PlanOf(s, ids);
             && g == (if p.local != [] then Local else NonLocal) && c == (if g == Local then p.local else p.nonLocal)
             && (SizeOf(p.s, p.local) > 0 <==> p.local != []) && (SizeOf(p.s, p.nonLocal) > 0 <==> p.nonLocal != [])
             && size == SizeOf(p.s, c)
    ensures Execute(s, ids, signal, evictSize, env).1 ==
              if c == [] || MakeResident(PlanOf(s, ids).s, g, size, c, evictSize, env).1 then OK else OutOfMemory
  {
  }

  /** The queue takes exactly one residency list; other calls change nothing. */
  lemma ExecuteListsOutcome(s: State, lists: seq<seq<HeapId>>, signal: bool, evictSize: nat, env: Env)
    requires forall l, id :: l in lists && id in l ==> id in s.heaps
    ensures var (s', o) := ExecuteLists(s, lists, signal, evictSize, env);
            && (o == InvalidArg <==> lists == []) && (o == NotImplemented <==> |lists| > 1)
            && (|lists| != 1 ==> s' == s)
            && (|lists| == 1 ==>
                  (s', o) == Execute(s, lists[0], signal, evictSize, env) && (o == OK || o == OutOfMemory))
  {
  }
}
