/** Evictions and the submissions that use the evicted heaps, over every run. */
module ResidencyTracking {
  import opened ResidencySpec
  import opened ResidencyInvariant
  import opened ResidencyOperations
  import opened ResidencySubmission
  import opened ResidencyTheorems
  import opened ResidencyRuns

  // ----- Invariant

  /** Submission `j` listed the heap while it was not locked. */
  ghost predicate Tracks(log: seq<Call>, j: nat, id: HeapId) {
    j < |log| && log[j].Executed? && id in log[j].unlocked
  }

  /** A heap remembers a fence value at least as late as every submission that tracked it. */
  ghost predicate Remembers(s: State, j: nat, id: HeapId) {
    Tracks(s.log, j, id) && id in s.heaps ==> s.log[j].value <= s.heaps[id].lastUsed
  }

  /** Eviction `k` waited for submission `j` if that tracked the heap. */
  ghost predicate WaitedFor(log: seq<Call>, j: nat, k: nat) {
    j < k < |log| && log[k].Evicted? && Tracks(log, j, log[k].id) ==> log[j].value <= log[k].lastUsed
  }

  /** The fence only advances between an unlock and a later eviction. */
  ghost predicate Advances(log: seq<Call>, i: nat, k: nat) {
    i < k < |log| && log[k].Evicted? && log[i].Unlocked? ==> log[i].completed <= log[k].completed
  }

  ghost predicate Past(s: State, i: nat) {
    i < |s.log| && s.log[i].Unlocked? ==> s.log[i].completed <= s.fence.completed
  }

  ghost predicate TrackOk(s: State) {
    && (forall j: nat, id {:trigger Remembers(s, j, id)} :: Remembers(s, j, id))
    && (forall j: nat, k: nat {:trigger WaitedFor(s.log, j, k)} :: WaitedFor(s.log, j, k))
    && (forall i: nat, k: nat {:trigger Advances(s.log, i, k)} :: Advances(s.log, i, k))
    && (forall i: nat {:trigger Past(s, i)} :: Past(s, i))
  }

  // ----- Steps that keep it

  /** Evicting and paging in: heaps keep their fence values, and the log grows. */
  lemma GrowsTrackOk(s: State, s': State)
    requires TrackOk(s) && SameUse(s, s') && LogGrows(s, s')
    ensures TrackOk(s')
  {
    var n := |s.log|;
    forall j: nat, id
      ensures Remembers(s', j, id)
    {
      assert Remembers(s, j, id);
      assert n <= j < |s'.log| ==> Recorded(s, s', s'.log[j]);
    }
    forall j: nat, k: nat
      ensures WaitedFor(s'.log, j, k)
    {
      GrowsWaited(s, s', j, k);
    }
    forall i: nat, k: nat
      ensures Advances(s'.log, i, k)
    {
      assert Advances(s.log, i, k) && Past(s, i);
      assert n <= i < |s'.log| ==> Recorded(s, s', s'.log[i]);
      assert n <= k < |s'.log| ==> Recorded(s, s', s'.log[k]);
    }
    forall i: nat
      ensures Past(s', i)
    {
      assert Past(s, i);
      assert n <= i < |s'.log| ==> Recorded(s, s', s'.log[i]);
    }
  }

  lemma GrowsWaited(s: State, s': State, j: nat, k: nat)
    requires TrackOk(s) && SameUse(s, s') && LogGrows(s, s')
    ensures WaitedFor(s'.log, j, k)
  {
    var n := |s.log|;
    if j < k < |s'.log| && s'.log[k].Evicted? && Tracks(s'.log, j, s'.log[k].id) {
      assert n <= j ==> Recorded(s, s', s'.log[j]);
      assert s'.log[j] == s.log[j];
      if k < n {
        assert s'.log[k] == s.log[k];
        assert WaitedFor(s.log, j, k);
      } else {
        assert Recorded(s, s', s'.log[k]);
        assert Remembers(s, j, s'.log[k].id);
      }
    }
  }

  /** A step that records nothing and lets fence values only advance. */
  lemma SilentTrackOk(s: State, s': State)
    requires TrackOk(s) && s'.log == s.log && s.fence.completed <= s'.fence.completed && s'.heaps.Keys <= s.heaps.Keys
    requires forall id {:trigger s'.heaps[id]} :: id in s'.heaps ==> s.heaps[id].lastUsed <= s'.heaps[id].lastUsed
    ensures TrackOk(s')
  {
    forall j: nat, id
      ensures Remembers(s', j, id)
    {
      assert Remembers(s, j, id);
    }
    forall i: nat
      ensures Past(s', i)
    {
      assert Past(s, i);
    }
  }

  /** Recording one call that is not an eviction. */
  lemma RecordTrackOk(s: State, c: Call, s': State)
    requires TrackOk(s) && s'.log == s.log + [c] && !c.Evicted? && s.fence.completed <= s'.fence.completed
    requires forall id {:trigger s'.heaps[id]} ::
             id in s'.heaps && id in s.heaps ==> s.heaps[id].lastUsed <= s'.heaps[id].lastUsed
    requires forall id, j: nat {:trigger Tracks(s.log, j, id)} ::
             id in s'.heaps && id !in s.heaps ==> !Tracks(s.log, j, id)
    requires c.Executed? ==> forall id :: id in c.unlocked && id in s'.heaps ==> c.value <= s'.heaps[id].lastUsed
    requires c.Unlocked? ==> c.completed <= s'.fence.completed
    ensures TrackOk(s')
  {
    var n := |s.log|;
    forall j: nat, id
      ensures Remembers(s', j, id)
    {
      assert Remembers(s, j, id);
      assert j < n ==> (Tracks(s'.log, j, id) <==> Tracks(s.log, j, id));
    }
    forall j: nat, k: nat
      ensures WaitedFor(s'.log, j, k)
    {
      assert WaitedFor(s.log, j, k);
    }
    forall i: nat, k: nat
      ensures Advances(s'.log, i, k)
    {
      assert Advances(s.log, i, k);
    }
    forall i: nat
      ensures Past(s', i)
    {
      assert Past(s, i);
    }
  }

  // ----- Every operation keeps it

  lemma CreateTrackOk(s: State, id: HeapId, size: nat, g: Segment, status: Status, s': State)
    requires TrackOk(s) && Unused(s, id) && s' == CreateHeap(s, id, size, g, status)
    ensures TrackOk(s')
  {
    forall j: nat
      ensures !Tracks(s.log, j, id)
    {
      assert j < |s.log| ==> !Mentions(s.log[j], id);
    }
    RecordTrackOk(s, Created(id, status == Resident), s');
  }

  /** Paging heaps in after an eviction. */
  lemma PagedTrackOk(s: State, ids: seq<HeapId>, s': State)
    requires TrackOk(s) && s'.log == s.log + MakeCalls(ids) && s'.fence == s.fence && SameUse(s, s')
    ensures TrackOk(s')
  {
    forall k: nat | |s.log| <= k < |s'.log|
      ensures Recorded(s, s', s'.log[k])
    {
      assert s'.log[k] == MadeResident(ids[k - |s.log|]);
    }
    GrowsTrackOk(s, s');
  }

  lemma LockTrackOk(s: State, id: HeapId, evictSize: nat, env: Env, s': State)
    requires Inv(s) && TrackOk(s) && id in s.heaps && s' == LockHeap(s, id, evictSize, env).0
    ensures TrackOk(s')
  {
    var h := s.heaps[id];
    if !InCache(s, id) && h.locks == 0 {
      var s1 := MakeResidentOk(s, h.segment, h.size, [id], evictSize, env, {});
      EvictsSameUse(s, s1, h.segment);
      GrowsTrackOk(s, s1);
      var (s2, ok) := MakeResident(s, h.segment, h.size, [id], evictSize, env);
      if ok {
        PagedTrackOk(s1, [id], s2);
        LockPagedForm(s, id, evictSize, env, s2, s');
        LockPagedLog(s, id, evictSize, env, s2, s');
        SilentTrackOk(s2, s');
      }
    } else {
      SilentTrackOk(s, s');
    }
  }

  lemma LockPagedLog(s: State, id: HeapId, evictSize: nat, env: Env, s2: State, s': State)
    requires id in s.heaps && !InCache(s, id) && s.heaps[id].locks == 0 && s' == LockHeap(s, id, evictSize, env).0
    requires MakeResident(s, s.heaps[id].segment, s.heaps[id].size, [id], evictSize, env) == (s2, true) &&
             id in s2.heaps
    ensures s'.log == s2.log && s'.fence == s2.fence
  {
  }

  lemma UnlockTrackOk(s: State, id: HeapId, s': State)
    requires TrackOk(s) && id in s.heaps && s' == UnlockHeap(s, id).0
    ensures TrackOk(s')
  {
    if s'.log == s.log {
      SilentTrackOk(s, s');
    } else {
      RecordTrackOk(s, Unlocked(id, s.fence.completed), s');
    }
  }

  /** The state before the signal: every listed unlocked heap carries the current value. */
  lemma SubmittedTrackOk(s: State, ids: seq<HeapId>, s1: State, paged: seq<HeapId>, r: State)
    requires Inv(s) && TrackOk(s) && (forall id :: id in ids ==> id in s.heaps) && Submitted(s, ids, s1, paged, r)
    ensures TrackOk(r) && r.heaps.Keys == s.heaps.Keys
    ensures forall x :: x in ids && s.heaps[x].locks == 0 ==> r.heaps[x].lastUsed == s.fence.current
  {
    var p := PlanOf(s, ids);
    PlanOfOk(s, ids);
    forall x | x in s.heaps
      ensures s.heaps[x].lastUsed <= p.s.heaps[x].lastUsed
      ensures x in ids && s.heaps[x].locks == 0 ==> p.s.heaps[x].lastUsed == s.fence.current
    {
      PreparedUse(s, ids, x);
    }
    SilentTrackOk(s, p.s);
    EvictsSameUse(p.s, s1, if p.local != [] then Local else NonLocal);
    GrowsTrackOk(p.s, s1);
    TouchedAreHeaps(p, s1);
    MarkResidentHeaps(s1.(log := s1.log + MakeCalls(paged)), p.touched, r);
    PagedTrackOk(s1, paged, r);
  }

  lemma TouchedAreHeaps(p: Plan, s1: State)
    requires PlanOk(p) && s1.heaps.Keys == p.s.heaps.Keys
    ensures forall id :: id in p.touched ==> id in s1.heaps
  {
    forall id | id in p.touched
      ensures id in s1.heaps
    {
      assert TouchedOk(p.s, id);
    }
  }

  lemma ExecuteTrackOk(s: State, ids: seq<HeapId>, signal: bool, evictSize: nat, env: Env, s': State)
    requires Inv(s) && TrackOk(s) && (forall id :: id in ids ==> id in s.heaps)
    requires Execute(s, ids, signal, evictSize, env) == (s', OK)
    ensures TrackOk(s')
  {
    var s1, paged, r := ExecuteSteps(s, ids, signal, evictSize, env);
    SubmittedTrackOk(s, ids, s1, paged, r);
    if signal {
      RecordTrackOk(r, ExecutedCall(s, ids), s');
    }
  }

  lemma StepTrackOk(s: State, op: Op, evictSize: nat, env: Env, s': State)
    requires Inv(s) && TrackOk(s) && Legal(s, op, evictSize, env) && s' == Step(s, op, evictSize, env)
    ensures TrackOk(s')
  {
    match op
    case Create(id, size, g, status) => CreateTrackOk(s, id, size, g, status, s');
    case Destroy(id) => SilentTrackOk(s, s');
    case Lock(id) => LockTrackOk(s, id, evictSize, env, s');
    case Unlock(id) => UnlockTrackOk(s, id, s');
    case Submit(ids, signal) => ExecuteTrackOk(s, ids, signal, evictSize, env, s');
    case Ensure(g, bytes) =>
      EvictOk(s, g, bytes, env.info(0), {}, env.reached, s');
      EvictsSameUse(s, s', g);
      GrowsTrackOk(s, s');
    case Gpu(completed) => SilentTrackOk(s, s');
  }

  lemma {:induction false} RunTrackOk(s: State, ops: seq<Op>, evictSize: nat, envs: nat -> Env, s': State)
    requires Inv(s) && StatsOk(s) && TrackOk(s) && Reaches(s, ops, evictSize, envs, s')
    ensures TrackOk(s')
    decreases |ops|
  {
    if ops != [] {
      var s1 := Step(s, ops[0], evictSize, envs(|ops|));
      StepInv(s, ops[0], evictSize, envs(|ops|), s1);
      StepStats(s, ops[0], evictSize, envs(|ops|), s1);
      StepTrackOk(s, ops[0], evictSize, envs(|ops|), s1);
      RunTrackOk(s1, ops[1..], evictSize, envs, s');
    }
  }

  // ----- What it means

  /** The heap's last lock was dropped after submission `j`, when the GPU had reached `value`. */
  ghost predicate UnlockedAfter(log: seq<Call>, j: nat, k: nat, id: HeapId, value: nat) {
    exists i: nat :: j < i < k && i < |log| && log[i].Unlocked? && log[i].id == id && value <= log[i].completed
  }

  /** Over every run, a heap is evicted only after the GPU has completed every
      earlier submission that listed it: those that found it unlocked, and those
      that had completed when its last lock was dropped. */
  lemma EvictedAfterUse(fence: nat, ops: seq<Op>, evictSize: nat, envs: nat -> Env, s: State, j: nat, k: nat)
    requires Reaches(Initial(fence), ops, evictSize, envs, s)
    requires j < k < |s.log| && s.log[j].Executed? && s.log[k].Evicted? && s.log[k].id in s.log[j].listed
    requires s.log[k].id in s.log[j].unlocked || UnlockedAfter(s.log, j, k, s.log[k].id, s.log[j].value)
    ensures s.log[j].value <= s.log[k].completed
  {
    InitialOk(fence);
    InitialTrackOk(fence);
    ReachableInv(Initial(fence), ops, evictSize, envs, s);
    RunTrackOk(Initial(fence), ops, evictSize, envs, s);
    if s.log[k].id in s.log[j].unlocked {
      assert Tracks(s.log, j, s.log[k].id) && WaitedFor(s.log, j, k);
      assert EntryOk(s.log, k, s.log[k]);
    } else {
      var i: nat :| j < i < k && i < |s.log| && s.log[i].Unlocked? && s.log[i].id == s.log[k].id
                    && s.log[j].value <= s.log[i].completed;
      assert Advances(s.log, i, k);
    }
  }

  lemma InitialTrackOk(fence: nat)
    ensures TrackOk(Initial(fence))
  {
    var s := Initial(fence);
    forall j: nat, id
      ensures Remembers(s, j, id)
    {
    }
  }
}
