/** Locks are counted, and a heap that is locked is never evicted, over every run. */
module ResidencyLocks {
  import opened ResidencySpec
  import opened ResidencyInvariant
  import opened ResidencyOperations
  import opened ResidencySubmission
  import opened ResidencyRuns
  import opened ResidencyTracking

  /** The locks of one heap change by `d`, and all other locks stay. */
  ghost predicate LocksChange(s: State, s': State, id: HeapId, d: int) {
    && s'.heaps.Keys == s.heaps.Keys && id in s.heaps
    && forall x {:trigger s'.heaps[x]} :: x in s.heaps ==>
         s'.heaps[x].locks == s.heaps[x].locks + if x == id then d else 0
  }

  // ----- One call

  /** A successful lock adds exactly one lock of that heap and takes it out of the
      cache; it can only fail for a heap that has to be paged in. */
  lemma LockCounts(s: State, id: HeapId, evictSize: nat, env: Env, s': State, o: Outcome)
    requires Inv(s) && id in s.heaps && (s', o) == LockHeap(s, id, evictSize, env)
    ensures o == OK ==> LocksChange(s, s', id, 1) && !InCache(s', id) && s'.heaps[id].status == Resident
    ensures o != OK ==> o == OutOfMemory && LocksChange(s, s', id, 0) && !InCache(s, id) && s.heaps[id].locks == 0
  {
    var h := s.heaps[id];
    LockOk(s, id, evictSize, env, s');
    if !InCache(s, id) && h.locks == 0 {
      var (s1, ok) := MakeResident(s, h.segment, h.size, [id], evictSize, env);
      MakeResidentLocks(s, h.segment, h.size, [id], evictSize, env, s1);
      LockOutcome(s, id, evictSize, env, s1, ok);
      if ok {
        LockPagedForm(s, id, evictSize, env, s1, s');
      }
    }
    if o == OK {
      assert HeapOk(s', {}, {}, id);
    }
  }

  lemma LockOutcome(s: State, id: HeapId, evictSize: nat, env: Env, s1: State, ok: bool)
    requires id in s.heaps && !InCache(s, id) && s.heaps[id].locks == 0 && id in s1.heaps
    requires MakeResident(s, s.heaps[id].segment, s.heaps[id].size, [id], evictSize, env) == (s1, ok)
    ensures LockHeap(s, id, evictSize, env).1 == if ok then OK else OutOfMemory
    ensures !ok ==> LockHeap(s, id, evictSize, env).0 == s1
  {
  }

  /** A successful unlock takes exactly one lock of that heap away; it succeeds
      exactly if the heap is locked. With its last lock the heap enters its cache at
      the most recently used end, otherwise the caches stay as they are. */
  lemma UnlockCounts(s: State, id: HeapId, s': State, o: Outcome)
    requires Inv(s) && id in s.heaps && (s', o) == UnlockHeap(s, id)
    ensures o == OK <==> s.heaps[id].locks > 0
    ensures o == OK ==> LocksChange(s, s', id, -1) && s'.heaps[id].lastUsed == s.heaps[id].lastUsed
    ensures o != OK ==> o == Fail && s' == s
    ensures s.heaps[id].locks == 1 ==>
              var g := s.heaps[id].segment;
              Cache(s', g) == Cache(s, g) + [id] && Cache(s', Other(g)) == Cache(s, Other(g))
    ensures s.heaps[id].locks != 1 ==> s'.local == s.local && s'.nonLocal == s.nonLocal
  {
    assert HeapOk(s, {}, {}, id);
  }

  // ----- Over a run

  ghost function LocksOf(s: State, id: HeapId): nat {
    if id in s.heaps then s.heaps[id].locks else 0
  }

  /** One more for a lock of the heap that succeeds, one less for an unlock that does. */
  ghost function LockDelta(s: State, op: Op, evictSize: nat, env: Env, id: HeapId): int
    requires Legal(s, op, evictSize, env)
  {
    match op
    case Lock(x) => if x == id && LockHeap(s, x, evictSize, env).1 == OK then 1 else 0
    case Unlock(x) => if x == id && UnlockHeap(s, x).1 == OK then -1 else 0
    case Create(_, _, _, _) => 0
    case Destroy(_) => 0
    case Submit(_, _) => 0
    case Ensure(_, _) => 0
    case Gpu(_) => 0
  }

  /** The successful locks of a heap less its successful unlocks, over a run. */
  ghost function LockBalance(s: State, ops: seq<Op>, evictSize: nat, envs: nat -> Env, id: HeapId): int
    decreases |ops|
  {
    if ops == [] || !Legal(s, ops[0], evictSize, envs(|ops|)) then 0
    else
      LockDelta(s, ops[0], evictSize, envs(|ops|), id)
      + LockBalance(Step(s, ops[0], evictSize, envs(|ops|)), ops[1..], evictSize, envs, id)
  }

  lemma StepLocks(s: State, op: Op, evictSize: nat, env: Env, s': State, id: HeapId)
    requires Inv(s) && Legal(s, op, evictSize, env) && s' == Step(s, op, evictSize, env)
    ensures LocksOf(s', id) == LocksOf(s, id) + LockDelta(s, op, evictSize, env, id)
  {
    match op
    case Create(_, _, _, _) =>
    case Destroy(_) =>
    case Gpu(_) =>
    case Lock(x) => LockCounts(s, x, evictSize, env, s', LockHeap(s, x, evictSize, env).1);
    case Unlock(x) => UnlockCounts(s, x, s', UnlockHeap(s, x).1);
    case Submit(ids, signal) =>
      var s1, paged, r := ExecuteSteps(s, ids, signal, evictSize, env);
      SubmittedLocks(s, ids, s1, paged, r);
    case Ensure(g, bytes) =>
      EvictOk(s, g, bytes, env.info(0), {}, env.reached, s');
      EvictsKeepsLocks(s, s', g);
  }

  lemma {:induction false} RunLocksFrom(s: State, ops: seq<Op>, evictSize: nat, envs: nat -> Env, s': State, id: HeapId)
    requires Inv(s) && Reaches(s, ops, evictSize, envs, s')
    ensures Inv(s') && LocksOf(s', id) == LocksOf(s, id) + LockBalance(s, ops, evictSize, envs, id)
    decreases |ops|
  {
    if ops != [] {
      var s1 := Step(s, ops[0], evictSize, envs(|ops|));
      StepInv(s, ops[0], evictSize, envs(|ops|), s1);
      StepLocks(s, ops[0], evictSize, envs(|ops|), s1, id);
      RunLocksFrom(s1, ops[1..], evictSize, envs, s', id);
    }
  }

  /** Over every run, a heap has as many locks as it was successfully locked more
      often than unlocked. */
  lemma RunLocks(fence: nat, ops: seq<Op>, evictSize: nat, envs: nat -> Env, s: State, id: HeapId)
    requires Reaches(Initial(fence), ops, evictSize, envs, s)
    ensures LocksOf(s, id) == LockBalance(Initial(fence), ops, evictSize, envs, id)
  {
    InitialOk(fence);
    RunLocksFrom(Initial(fence), ops, evictSize, envs, s, id);
  }

  // ----- Evictions

  /** What a call evicts was known and had, before the call, the locks recorded. */
  lemma StepEvicts(s: State, op: Op, evictSize: nat, env: Env, s': State, k: nat)
    requires Inv(s) && Legal(s, op, evictSize, env) && s' == Step(s, op, evictSize, env)
    requires |s.log| <= k < |s'.log| && s'.log[k].Evicted?
    ensures s'.log[k].id in s.heaps && s'.log[k].locks == s.heaps[s'.log[k].id].locks
  {
    match op
    case Create(_, _, _, _) =>
    case Destroy(_) =>
    case Gpu(_) =>
    case Unlock(_) =>
    case Lock(x) => LockEvicts(s, x, evictSize, env, s', k);
    case Submit(ids, signal) => SubmitEvicts(s, ids, signal, evictSize, env, s', k);
    case Ensure(g, bytes) =>
      EvictOk(s, g, bytes, env.info(0), {}, env.reached, s');
      assert Recorded(s, s', s'.log[k]);
  }

  lemma LockEvicts(s: State, id: HeapId, evictSize: nat, env: Env, s': State, k: nat)
    requires Inv(s) && id in s.heaps && s' == LockHeap(s, id, evictSize, env).0
    requires |s.log| <= k < |s'.log| && s'.log[k].Evicted?
    ensures s'.log[k].id in s.heaps && s'.log[k].locks == s.heaps[s'.log[k].id].locks
  {
    var h := s.heaps[id];
    if !InCache(s, id) && h.locks == 0 {
      var s1 := MakeResidentOk(s, h.segment, h.size, [id], evictSize, env, {});
      var (s2, ok) := MakeResident(s, h.segment, h.size, [id], evictSize, env);
      EvictsSameUse(s, s1, h.segment);
      LockOutcome(s, id, evictSize, env, s2, ok);
      if ok {
        LockPagedLog(s, id, evictSize, env, s2, s');
      }
      assert k < |s1.log| && s'.log[k] == s1.log[k];
      assert Recorded(s, s1, s1.log[k]);
    }
  }

  lemma SubmitEvicts(s: State, ids: seq<HeapId>, signal: bool, evictSize: nat, env: Env, s': State, k: nat)
    requires Inv(s) && (forall id :: id in ids ==> id in s.heaps) && Execute(s, ids, signal, evictSize, env) == (s', OK)
    requires |s.log| <= k < |s'.log| && s'.log[k].Evicted?
    ensures s'.log[k].id in s.heaps && s'.log[k].locks == s.heaps[s'.log[k].id].locks
  {
    var p := PlanOf(s, ids);
    var s1, paged, r := ExecuteSteps(s, ids, signal, evictSize, env);
    PlanOfOk(s, ids);
    SubmittedLog(p, s1, paged, r);
    NoLaterEviction(s1.log, paged, ExecutedCall(s, ids), s'.log, k);
    assert Recorded(p.s, s1, s1.log[k]);
    assert p.s.heaps[s1.log[k].id].locks == s.heaps[s1.log[k].id].locks;
  }

  /** Over every run, a call evicts a heap only when the heap was successfully
      unlocked as often as it was locked before. */
  lemma NeverEvictsLocked(fence: nat, ops: seq<Op>, evictSize: nat, envs: nat -> Env, s: State,
                          op: Op, env: Env, s': State, k: nat)
    requires Reaches(Initial(fence), ops, evictSize, envs, s)
    requires Legal(s, op, evictSize, env) && s' == Step(s, op, evictSize, env)
    requires |s.log| <= k < |s'.log| && s'.log[k].Evicted?
    ensures LockBalance(Initial(fence), ops, evictSize, envs, s'.log[k].id) == 0
  {
    InitialOk(fence);
    RunLocksFrom(Initial(fence), ops, evictSize, envs, s, s'.log[k].id);
    StepInv(s, op, evictSize, env, s');
    StepEvicts(s, op, evictSize, env, s', k);
    assert EntryOk(s'.log, k, s'.log[k]);
  }
}
