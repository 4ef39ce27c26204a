/** Exactly which submissions the next eviction of a heap waits for. */
module ResidencyExact {
  import opened Sets
  import opened Options
  import opened ResidencySpec
  import opened ResidencyInvariant
  import opened ResidencyOperations
  import opened ResidencySubmission
  import opened ResidencyTheorems
  import opened ResidencyRuns
  import opened ResidencyTracking

  // ----- A heap's fence value is that of a submission that tracked it

  ghost predicate FromSubmission(s: State, id: HeapId)
    requires id in s.heaps
  {
    s.heaps[id].lastUsed == 0 ||
    exists i: nat :: Tracks(s.log, i, id) && s.log[i].value == s.heaps[id].lastUsed
  }

  ghost predicate UseOk(s: State) {
    forall id {:trigger FromSubmission(s, id)} :: id in s.heaps ==> FromSubmission(s, id)
  }

  /** The log grows, and every fence value is old, initial, or that of a tracking submission. */
  lemma StepUseOk(s: State, s': State)
    requires UseOk(s) && s.log <= s'.log
    requires forall id {:trigger s'.heaps[id]} :: id in s'.heaps ==>
               || (id in s.heaps && s'.heaps[id].lastUsed == s.heaps[id].lastUsed)
               || FromSubmission(s', id)
    ensures UseOk(s')
  {
    forall id | id in s'.heaps
      ensures FromSubmission(s', id)
    {
      if id in s.heaps && s'.heaps[id].lastUsed == s.heaps[id].lastUsed != 0 {
        assert FromSubmission(s, id);
        var i: nat :| Tracks(s.log, i, id) && s.log[i].value == s.heaps[id].lastUsed;
        assert Tracks(s'.log, i, id);
      }
    }
  }

  lemma LockUseOk(s: State, id: HeapId, evictSize: nat, env: Env, s': State)
    requires Inv(s) && UseOk(s) && id in s.heaps && s' == LockHeap(s, id, evictSize, env).0
    ensures UseOk(s')
  {
    var h := s.heaps[id];
    if !InCache(s, id) && h.locks == 0 {
      var s1 := MakeResidentOk(s, h.segment, h.size, [id], evictSize, env, {});
      EvictsSameUse(s, s1, h.segment);
      StepUseOk(s, s1);
      var (s2, ok) := MakeResident(s, h.segment, h.size, [id], evictSize, env);
      if ok {
        LockPagedForm(s, id, evictSize, env, s2, s');
        LockPagedLog(s, id, evictSize, env, s2, s');
        StepUseOk(s1, s');
      }
    } else {
      StepUseOk(s, s');
    }
  }

  /** A heap whose fence value the submission changed was listed, unlocked, and
      carries the value of the submission. */
  lemma PreparedFrom(s: State, ids: seq<HeapId>, x: HeapId)
    requires Inv(s) && (forall id :: id in ids ==> id in s.heaps) && x in s.heaps
    ensures var p := PlanOf(s, ids);
            && x in p.s.heaps
            && (|| p.s.heaps[x].lastUsed == s.heaps[x].lastUsed
                || (x in ids && s.heaps[x].locks == 0 && p.s.heaps[x].lastUsed == s.fence.current))
  {
    var p0, p := Plan(s, [], [], []), PlanOf(s, ids);
    PlanOfOk(s, ids);
    CollectMarksTouched(p0, ids, p, x);
    if x in p.touched {
      assert TouchedOk(p.s, x);
      CollectTouchesListed(p0, ids, p, x);
      assert p.s.heaps[x] == s.heaps[x].(lastUsed := p.s.heaps[x].lastUsed);
    }
  }

  lemma ExecuteUseOk(s: State, ids: seq<HeapId>, evictSize: nat, env: Env, s': State)
    requires Inv(s) && UseOk(s) && (forall id :: id in ids ==> id in s.heaps)
    requires Execute(s, ids, true, evictSize, env) == (s', OK)
    ensures UseOk(s')
  {
    var s1, paged, r := ExecuteSteps(s, ids, true, evictSize, env);
    var c := ExecutedCall(s, ids);
    SubmittedUse(s, ids, s1, paged, r);
    assert s'.log == r.log + [c] && s'.heaps == r.heaps;
    forall x | x in s'.heaps && s'.heaps[x].lastUsed != s.heaps[x].lastUsed
      ensures FromSubmission(s', x)
    {
      assert s'.log[|r.log|] == c && Tracks(s'.log, |r.log|, x);
    }
    StepUseOk(s, s');
  }

  lemma SubmittedUse(s: State, ids: seq<HeapId>, s1: State, paged: seq<HeapId>, r: State)
    requires Inv(s) && (forall id :: id in ids ==> id in s.heaps) && Submitted(s, ids, s1, paged, r)
    ensures r.heaps.Keys == s.heaps.Keys && s.log <= r.log
    ensures forall x {:trigger r.heaps[x]} :: x in s.heaps ==>
              || r.heaps[x].lastUsed == s.heaps[x].lastUsed
              || (x in ids && s.heaps[x].locks == 0 && r.heaps[x].lastUsed == s.fence.current)
  {
    var p := PlanOf(s, ids);
    PlanOfOk(s, ids);
    EvictsSameUse(p.s, s1, if p.local != [] then Local else NonLocal);
    TouchedAreHeaps(p, s1);
    MarkResidentHeaps(s1.(log := s1.log + MakeCalls(paged)), p.touched, r);
    forall x | x in s.heaps
      ensures || r.heaps[x].lastUsed == s.heaps[x].lastUsed
              || (x in ids && s.heaps[x].locks == 0 && r.heaps[x].lastUsed == s.fence.current)
    {
      PreparedFrom(s, ids, x);
      assert s1.heaps[x].lastUsed == p.s.heaps[x].lastUsed;
    }
  }

  lemma OpUseOk(s: State, op: Op, evictSize: nat, env: Env, s': State)
    requires Inv(s) && UseOk(s) && Legal(s, op, evictSize, env) && s' == Step(s, op, evictSize, env)
    requires op.Submit? ==> op.signal
    ensures UseOk(s')
  {
    match op
    case Create(_, _, _, _) => StepUseOk(s, s');
    case Destroy(_) => StepUseOk(s, s');
    case Lock(id) => LockUseOk(s, id, evictSize, env, s');
    case Unlock(_) => StepUseOk(s, s');
    case Submit(ids, _) => ExecuteUseOk(s, ids, evictSize, env, s');
    case Ensure(g, bytes) =>
      EvictOk(s, g, bytes, env.info(0), {}, env.reached, s');
      EvictsSameUse(s, s', g);
      StepUseOk(s, s');
    case Gpu(_) => StepUseOk(s, s');
  }

  lemma {:induction false} RunUseOk(s: State, ops: seq<Op>, evictSize: nat, envs: nat -> Env, s': State)
    requires Inv(s) && UseOk(s) && Reaches(s, ops, evictSize, envs, s')
    requires forall op :: op in ops && op.Submit? ==> op.signal
    ensures UseOk(s')
    decreases |ops|
  {
    if ops != [] {
      var s1 := Step(s, ops[0], evictSize, envs(|ops|));
      StepInv(s, ops[0], evictSize, envs(|ops|), s1);
      OpUseOk(s, ops[0], evictSize, envs(|ops|), s1);
      RunUseOk(s1, ops[1..], evictSize, envs, s');
    }
  }

  // ----- What an eviction waits for

  /** When the first `k` heaps have been taken out, the GPU has reached the fence
      value of each of them, and if it gets no further than it has to, it is where
      it was or at one of these values. */
  ghost predicate ReachedFor(s: State, g: Segment, k: nat, reached: nat -> nat, completed: nat)
    requires Victims(s, g, k)
  {
    var c := Cache(s, g);
    && s.fence.completed <= completed
    && (forall m: nat {:trigger c[m]} :: m < k ==> s.heaps[c[m]].lastUsed <= completed)
    && ((forall n :: reached(n) == 0) ==>
          completed == s.fence.completed || exists m: nat :: m < k && completed == s.heaps[c[m]].lastUsed)
  }

  lemma TakeHeadTime(s: State, g: Segment, reached: nat -> nat, s': State)
    requires Cache(s, g) != [] && Cache(s, g)[0] in s.heaps && s' == TakeHead(s, g, reached)
    requires s.fence.lastCompleted <= s.fence.completed
    ensures s'.fence.lastCompleted <= s'.fence.completed && s.fence.completed <= s'.fence.completed
    ensures s.log <= s'.log && forall j :: |s.log| <= j < |s'.log| ==> s'.log[j].Waited?
    ensures s.heaps[Cache(s, g)[0]].lastUsed <= s'.fence.completed
    ensures (forall n :: reached(n) == 0) ==>
              s'.fence.completed == s.fence.completed || s'.fence.completed == s.heaps[Cache(s, g)[0]].lastUsed
  {
  }

  lemma {:induction false} TakeHeadsTime(s: State, g: Segment, k: nat, reached: nat -> nat, r: State)
    requires Victims(s, g, k) && s.fence.lastCompleted <= s.fence.completed && r == TakeHeads(s, g, k, reached)
    ensures ReachedFor(s, g, k, reached, r.fence.completed) && r.fence.lastCompleted <= r.fence.completed
    ensures s.log <= r.log && forall j :: |s.log| <= j < |r.log| ==> r.log[j].Waited?
  {
    if k > 0 {
      var c, r1 := Cache(s, g), TakeHeads(s, g, k - 1, reached);
      TakeHeadsTime(s, g, k - 1, reached, r1);
      TakeHeadsGrows(s, g, k - 1, reached, r1);
      assert Cache(r1, g)[0] == c[k - 1] && r1.heaps[c[k - 1]].lastUsed == s.heaps[c[k - 1]].lastUsed;
      TakeHeadTime(r1, g, reached, r);
      StillReached(s, g, k, reached, r1.fence.completed, r.fence.completed);
    }
  }

  lemma StillReached(s: State, g: Segment, k: nat, reached: nat -> nat, before: nat, after: nat)
    requires k > 0 && Victims(s, g, k) && ReachedFor(s, g, k - 1, reached, before)
    requires before <= after && s.heaps[Cache(s, g)[k - 1]].lastUsed <= after
    requires (forall n :: reached(n) == 0) ==> after == before || after == s.heaps[Cache(s, g)[k - 1]].lastUsed
    ensures ReachedFor(s, g, k, reached, after)
  {
  }

  /** How far the GPU is when the first `k` heaps are handed to the device. */
  ghost function TimeOf(s: State, g: Segment, k: nat, reached: nat -> nat): nat
    requires k <= |Cache(s, g)|
  {
    TakeHeads(s, g, k, reached).fence.completed
  }

  lemma BatchEntries(r: State, batch: seq<HeapId>, s': State)
    requires s' == EvictBatch(r, batch) && forall id :: id in batch ==> id in r.heaps
    ensures |s'.log| == |r.log| + |batch|
    ensures forall i: nat {:trigger s'.log[i]} :: i < |r.log| ==> s'.log[i] == r.log[i]
    ensures forall i: nat {:trigger batch[i]} :: i < |batch| ==>
              var c := s'.log[|r.log| + i]; c.Evicted? && c.id == batch[i] && c.completed == r.fence.completed
  {
    forall i: nat | i < |batch|
      ensures s'.log[|r.log| + i] == EvictCall(r, batch[i])
    {
    }
  }

  lemma EntryInBatch(s: State, r: State, batch: seq<HeapId>, s': State, j: nat) returns (m: nat)
    requires s' == EvictBatch(r, batch) && (forall id :: id in batch ==> id in r.heaps) && |s.log| <= j < |s'.log|
    requires s'.log[j].Evicted? && forall i {:trigger r.log[i]} :: |s.log| <= i < |r.log| ==> r.log[i].Waited?
    ensures m < |batch| && s'.log[j].id == batch[m] && s'.log[j].completed == r.fence.completed
  {
    BatchEntries(r, batch, s');
    m := j - |r.log|;
    assert s'.log[|r.log| + m].id == batch[m];
  }

  /** Every entry of the batch is recorded with that value. */
  lemma EvictedEntry(s: State, g: Segment, k: nat, reached: nat -> nat, s': State, j: nat) returns (m: nat)
    requires Victims(s, g, k) && s.fence.lastCompleted <= s.fence.completed && s' == EvictHeads(s, g, k, reached)
    requires |s.log| <= j < |s'.log| && s'.log[j].Evicted?
    ensures m < k && s'.log[j].id == Cache(s, g)[m] && s'.log[j].completed == TimeOf(s, g, k, reached)
  {
    var r, batch := TakeHeads(s, g, k, reached), Cache(s, g)[..k];
    TakeHeadsTime(s, g, k, reached, r);
    m := EntryInBatch(s, r, batch, s', j);
    assert batch[m] == Cache(s, g)[m];
  }

  /** Every heap of the batch has an entry. */
  lemma EntryOfVictim(s: State, g: Segment, k: nat, reached: nat -> nat, s': State, m: nat) returns (j: nat)
    requires Victims(s, g, k) && s.fence.lastCompleted <= s.fence.completed && s' == EvictHeads(s, g, k, reached)
    requires m < k
    ensures |s.log| <= j < |s'.log| && s'.log[j].Evicted?
    ensures s'.log[j].id == Cache(s, g)[m] && s'.log[j].completed == TimeOf(s, g, k, reached)
  {
    var r, batch := TakeHeads(s, g, k, reached), Cache(s, g)[..k];
    TakeHeadsTime(s, g, k, reached, r);
    BatchEntries(r, batch, s');
    j := |r.log| + m;
    assert batch[m] == Cache(s, g)[m];
  }

  /** Whatever this eviction evicts of the heap, it does after the GPU has reached `v`. */
  ghost predicate EvictsAfter(s: State, g: Segment, bytes: nat, info: Info, reached: nat -> nat, id: HeapId, v: nat) {
    var s' := Evict(s, g, bytes, info, reached).0;
    forall k: nat {:trigger s'.log[k]} :: |s.log| <= k < |s'.log| && s'.log[k].Evicted? && s'.log[k].id == id ==>
      v <= s'.log[k].completed
  }

  /** The GPU has reached `v`, or some submission with a value from `v` on tracked
      the heap at place `n` of the cache or one that is evicted before it. */
  ghost predicate InUseUntil(s: State, g: Segment, n: nat, v: nat)
    requires n < |Cache(s, g)|
  {
    v <= s.fence.completed ||
    exists m: nat, i: nat :: m <= n && Tracks(s.log, i, Cache(s, g)[m]) && v <= s.log[i].value
  }

  lemma WaitsIfInUse(s: State, g: Segment, n: nat, v: nat, bytes: nat, info: Info, reached: nat -> nat)
    requires Inv(s) && TrackOk(s) && n < |Cache(s, g)| && InUseUntil(s, g, n, v)
    ensures EvictsAfter(s, g, bytes, info, reached, Cache(s, g)[n], v)
  {
    var s' := Evict(s, g, bytes, info, reached).0;
    if Shortfall(bytes, info) > 0 {
      var k := VictimsFound(s, g, Shortfall(bytes, info));
      EvictForm(s, g, bytes, info, reached, k);
      forall j: nat | |s.log| <= j < |s'.log| && s'.log[j].Evicted? && s'.log[j].id == Cache(s, g)[n]
        ensures v <= s'.log[j].completed
      {
        EntryInUse(s, g, n, v, k, reached, s', j);
      }
    }
  }

  lemma EntryInUse(s: State, g: Segment, n: nat, v: nat, k: nat, reached: nat -> nat, s': State, j: nat)
    requires Inv(s) && TrackOk(s) && n < |Cache(s, g)| && InUseUntil(s, g, n, v)
    requires Victims(s, g, k) && s' == EvictHeads(s, g, k, reached)
    requires |s.log| <= j < |s'.log| && s'.log[j].Evicted? && s'.log[j].id == Cache(s, g)[n]
    ensures v <= s'.log[j].completed
  {
    var m := EvictedEntry(s, g, k, reached, s', j);
    DistinctIndex(Cache(s, g), m, n);
    TakeHeadsTime(s, g, k, reached, TakeHeads(s, g, k, reached));
    ReachedInUse(s, g, n, v, k, reached, TimeOf(s, g, k, reached));
  }

  lemma ReachedInUse(s: State, g: Segment, n: nat, v: nat, k: nat, reached: nat -> nat, completed: nat)
    requires Inv(s) && TrackOk(s) && n < |Cache(s, g)| && InUseUntil(s, g, n, v)
    requires n < k && Victims(s, g, k) && ReachedFor(s, g, k, reached, completed)
    ensures v <= completed
  {
    var c := Cache(s, g);
    if v > s.fence.completed {
      var m: nat, i: nat :| m <= n && Tracks(s.log, i, c[m]) && v <= s.log[i].value;
      assert Remembers(s, i, c[m]);
      assert s.heaps[c[m]].lastUsed <= completed;
    }
  }

  /** A shortfall that ends the eviction just after place `n`. */
  lemma EvictsUpTo(s: State, g: Segment, n: nat, bytes: nat)
    requires Inv(s) && Settled(s) && n < |Cache(s, g)| && bytes == PrefixSize(s, Cache(s, g), n) + 1
    ensures VictimCount(s, Cache(s, g), bytes, 0) == n + 1 && Victims(s, g, n + 1)
  {
    var c, k := Cache(s, g), VictimCount(s, Cache(s, g), bytes, 0);
    forall i: nat | i <= n
      ensures c[i] in s.heaps && !EvictionStops(s, c, bytes, i)
    {
      CacheKnows(s, g, c[i]);
      PrefixGrows(s, c, i, n);
    }
    assert HeapOk(s, {}, {}, c[n]);
    assert EvictionStops(s, c, bytes, n + 1);
    VictimCountMeaning(s, c, bytes, 0);
  }

  lemma EvictsAfterAt(s: State, g: Segment, bytes: nat, info: Info, reached: nat -> nat, id: HeapId, v: nat,
                      s': State, j: nat)
    requires EvictsAfter(s, g, bytes, info, reached, id, v) && s' == Evict(s, g, bytes, info, reached).0
    requires |s.log| <= j < |s'.log| && s'.log[j].Evicted? && s'.log[j].id == id
    ensures v <= s'.log[j].completed
  {
  }

  /** The value the GPU has reached when exactly the heaps up to place `n` are evicted. */
  lemma LeastTime(s: State, g: Segment, n: nat, bytes: nat, idle: nat -> nat, v: nat)
    requires n < |Cache(s, g)| && Victims(s, g, n + 1) && s.fence.lastCompleted <= s.fence.completed
    requires bytes > 0 && VictimCount(s, Cache(s, g), bytes, 0) == n + 1
    requires EvictsAfter(s, g, bytes, Info(1, 1), idle, Cache(s, g)[n], v)
    ensures v <= TimeOf(s, g, n + 1, idle)
  {
    var s' := EvictHeads(s, g, n + 1, idle);
    EvictForm(s, g, bytes, Info(1, 1), idle, n + 1);
    var j := EntryOfVictim(s, g, n + 1, idle, s', n);
    EvictsAfterAt(s, g, bytes, Info(1, 1), idle, Cache(s, g)[n], v, s', j);
  }

  lemma InUseAt(s: State, g: Segment, n: nat, idle: nat -> nat, completed: nat, v: nat)
    requires UseOk(s) && n < |Cache(s, g)| && Victims(s, g, n + 1) && v <= completed
    requires ReachedFor(s, g, n + 1, idle, completed) && forall x :: idle(x) == 0
    ensures InUseUntil(s, g, n, v)
  {
    var c := Cache(s, g);
    if v > s.fence.completed {
      var m: nat :| m < n + 1 && completed == s.heaps[c[m]].lastUsed;
      assert FromSubmission(s, c[m]);
    }
  }

  lemma InUseIfWaitsIdle(s: State, g: Segment, n: nat, v: nat, bytes: nat, idle: nat -> nat)
    requires Inv(s) && UseOk(s) && Settled(s) && n < |Cache(s, g)| && bytes == PrefixSize(s, Cache(s, g), n) + 1
    requires EvictsAfter(s, g, bytes, Info(1, 1), idle, Cache(s, g)[n], v) && forall x :: idle(x) == 0
    ensures InUseUntil(s, g, n, v)
  {
    EvictsUpTo(s, g, n, bytes);
    LeastTime(s, g, n, bytes, idle, v);
    TakeHeadsTime(s, g, n + 1, idle, TakeHeads(s, g, n + 1, idle));
    InUseAt(s, g, n, idle, TimeOf(s, g, n + 1, idle), v);
  }

  lemma InUseIfWaits(s: State, g: Segment, n: nat, v: nat)
    requires Inv(s) && UseOk(s) && Settled(s) && n < |Cache(s, g)|
    requires forall bytes: nat, info, reached: nat -> nat :: EvictsAfter(s, g, bytes, info, reached, Cache(s, g)[n], v)
    ensures InUseUntil(s, g, n, v)
  {
    var bytes, idle := PrefixSize(s, Cache(s, g), n) + 1, _ => 0;
    assert EvictsAfter(s, g, bytes, Info(1, 1), idle, Cache(s, g)[n], v);
    InUseIfWaitsIdle(s, g, n, v, bytes, idle);
  }

  /** Over every run in which every submission signals its fence: the next eviction
      of a cached heap comes after the GPU has reached `v`, whatever the budget and
      however fast the GPU, exactly if the GPU has reached `v` already, or some
      submission that signaled a value from `v` on found this heap unlocked, or a
      heap less recently used. */
  lemma NextEvictionWaitsIff(fence: nat, ops: seq<Op>, evictSize: nat, envs: nat -> Env, s: State,
                             g: Segment, n: nat, v: nat)
    requires Reaches(Initial(fence), ops, evictSize, envs, s) && n < |Cache(s, g)|
    requires forall op :: op in ops && op.Submit? ==> op.signal
    ensures (forall bytes: nat, info, reached: nat -> nat :: EvictsAfter(s, g, bytes, info, reached, Cache(s, g)[n], v))
            <==> InUseUntil(s, g, n, v)
  {
    InitialOk(fence);
    InitialTrackOk(fence);
    RunTrackOk(Initial(fence), ops, evictSize, envs, s);
    RunUseOk(Initial(fence), ops, evictSize, envs, s);
    RunSettled(Initial(fence), ops, evictSize, envs, s);
    if InUseUntil(s, g, n, v) {
      forall bytes: nat, info, reached: nat -> nat
        ensures EvictsAfter(s, g, bytes, info, reached, Cache(s, g)[n], v)
      {
        WaitsIfInUse(s, g, n, v, bytes, info, reached);
      }
    }
    if forall bytes: nat, info, reached: nat -> nat :: EvictsAfter(s, g, bytes, info, reached, Cache(s, g)[n], v) {
      InUseIfWaits(s, g, n, v);
    }
  }
}
