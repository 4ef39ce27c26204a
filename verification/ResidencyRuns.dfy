/** Statistics and safety over every run of the residency manager. */
module ResidencyRuns {
  import opened Sets
  import opened ResidencySpec
  import opened ResidencyInvariant
  import opened ResidencyOperations
  import opened ResidencySubmission
  import opened ResidencyTheorems

  // ----- Number and bytes of sets of heaps

  ghost function Bytes(heaps: map<HeapId, Heap>, ids: set<HeapId>): int
    requires ids <= heaps.Keys
  {
    if ids == {} then 0 else var id := Pick(ids); Bytes(heaps, ids - {id}) + heaps[id].size
  }

  lemma {:induction false} BytesWithout(heaps: map<HeapId, Heap>, ids: set<HeapId>, id: HeapId)
    requires ids <= heaps.Keys && id in ids
    ensures Bytes(heaps, ids) == Bytes(heaps, ids - {id}) + heaps[id].size
    decreases |ids|
  {
    var q := Pick(ids);
    if id != q {
      BytesWithout(heaps, ids - {q}, id);
      BytesWithout(heaps, ids - {id}, q);
      assert ids - {q} - {id} == ids - {id} - {q};
    }
  }

  lemma {:induction false} BytesUnion(heaps: map<HeapId, Heap>, a: set<HeapId>, b: set<HeapId>)
    requires a <= heaps.Keys && b <= heaps.Keys && a !! b
    ensures Bytes(heaps, a + b) == Bytes(heaps, a) + Bytes(heaps, b)
    decreases |b|
  {
    if b == {} {
      assert a + b == a;
    } else {
      var id := Pick(b);
      BytesUnion(heaps, a, b - {id});
      assert (a + b) - {id} == a + (b - {id});
      BytesWithout(heaps, a + b, id);
    }
  }

  lemma {:induction false} BytesSame(heaps: map<HeapId, Heap>, heaps': map<HeapId, Heap>, ids: set<HeapId>)
    requires ids <= heaps.Keys && ids <= heaps'.Keys
    requires forall id :: id in ids ==> heaps'[id].size == heaps[id].size
    ensures Bytes(heaps', ids) == Bytes(heaps, ids)
    decreases |ids|
  {
    if ids != {} {
      BytesSame(heaps, heaps', ids - {Pick(ids)});
    }
  }

  /** How many heaps these are, and their bytes. */
  ghost function Tally(heaps: map<HeapId, Heap>, ids: set<HeapId>): Stats
    requires ids <= heaps.Keys
  {
    Stats(|ids|, Bytes(heaps, ids))
  }

  function Plus(a: Stats, b: Stats): Stats { Stats(a.count + b.count, a.usage + b.usage) }

  lemma TallyWith(heaps: map<HeapId, Heap>, t: set<HeapId>, id: HeapId, t': set<HeapId>)
    requires t <= heaps.Keys && id in heaps && id !in t && t' == t + {id}
    ensures Tally(heaps, t') == Plus(Tally(heaps, t), Stats(1, heaps[id].size))
  {
    BytesWithout(heaps, t', id);
    assert t' - {id} == t;
  }

  lemma TallyUnion(heaps: map<HeapId, Heap>, a: set<HeapId>, b: set<HeapId>, c: set<HeapId>)
    requires a <= heaps.Keys && b <= heaps.Keys && a !! b && c == a + b
    ensures Tally(heaps, c) == Plus(Tally(heaps, a), Tally(heaps, b))
  {
    BytesUnion(heaps, a, b);
  }

  // ----- Statistics

  ghost function LockedSet(s: State): set<HeapId> {
    set id | id in s.heaps && s.heaps[id].locks > 0
  }

  ghost function ResidentSet(s: State): set<HeapId> {
    set id | id in s.heaps && s.heaps[id].status == Resident
  }

  /** The manager's own statistics account for exactly the locked heaps. */
  ghost predicate StatsOk(s: State) {
    s.stats == Tally(s.heaps, LockedSet(s))
  }

  ghost function Prefix(c: seq<HeapId>, k: nat): set<HeapId>
    requires k <= |c|
  {
    if k == 0 then {} else Prefix(c, k - 1) + {c[k - 1]}
  }

  lemma {:induction false} PrefixMeaning(c: seq<HeapId>, k: nat, id: HeapId)
    requires k <= |c|
    ensures id in Prefix(c, k) <==> exists i :: 0 <= i < k && c[i] == id
  {
    if k > 0 {
      PrefixMeaning(c, k - 1, id);
    }
  }

  lemma PrefixIsNew(c: seq<HeapId>, k: nat)
    requires Distinct(c) && k < |c|
    ensures c[k] !in Prefix(c, k)
  {
    PrefixMeaning(c, k, c[k]);
  }

  lemma PrefixWhole(c: seq<HeapId>)
    ensures Prefix(c, |c|) == ToSet(c)
  {
    forall id
      ensures id in Prefix(c, |c|) <==> id in c
    {
      PrefixMeaning(c, |c|, id);
    }
  }

  lemma {:induction false} CacheStatsMeaning(s: State, c: seq<HeapId>, k: nat)
    requires k <= |c| && Distinct(c)
    requires forall i :: 0 <= i < |c| ==> c[i] in s.heaps && s.heaps[c[i]].status == Resident
    ensures Prefix(c, k) <= s.heaps.Keys && CacheStats(s, c, k) == Tally(s.heaps, Prefix(c, k))
  {
    if k > 0 {
      CacheStatsMeaning(s, c, k - 1);
      PrefixIsNew(c, k - 1);
      TallyWith(s.heaps, Prefix(c, k - 1), c[k - 1], Prefix(c, k));
    }
  }

  lemma CacheTotals(s: State, g: Segment, c: seq<HeapId>)
    requires Inv(s) && c == Cache(s, g)
    ensures ToSet(c) <= s.heaps.Keys && CacheStats(s, c, |c|) == Tally(s.heaps, ToSet(c))
  {
    forall i | 0 <= i < |c|
      ensures c[i] in s.heaps && s.heaps[c[i]].status == Resident
    {
      CacheKnows(s, g, c[i]);
      assert HeapOk(s, {}, {}, c[i]);
    }
    CacheStatsMeaning(s, c, |c|);
    PrefixWhole(c);
  }

  /** A resident heap is locked or in one cache, and only one of the three. */
  lemma ResidentSplit(s: State, k: set<HeapId>, l: set<HeapId>, n: set<HeapId>)
    requires Inv(s) && k == LockedSet(s) && l == ToSet(s.local) && n == ToSet(s.nonLocal)
    ensures ResidentSet(s) == k + (l + n) && l !! n && k !! l + n
  {
    forall id | id in s.heaps
      ensures id in ResidentSet(s) <==> id in k || id in l || id in n
      ensures !(id in l && id in n) && !(id in k && (id in l || id in n))
    {
      assert HeapOk(s, {}, {}, id);
      if id in s.local { CacheKnows(s, Local, id); }
      if id in s.nonLocal { CacheKnows(s, NonLocal, id); }
    }
    forall id | id in s.local || id in s.nonLocal
      ensures id in s.heaps
    {
      if id in s.local { CacheKnows(s, Local, id); } else { CacheKnows(s, NonLocal, id); }
    }
  }

  lemma TallyThree(heaps: map<HeapId, Heap>, k: set<HeapId>, l: set<HeapId>, n: set<HeapId>, ln: set<HeapId>)
    requires k <= heaps.Keys && l <= heaps.Keys && n <= heaps.Keys && l !! n && ln == l + n && k !! ln
    ensures Tally(heaps, k + ln) == Plus(Tally(heaps, k), Plus(Tally(heaps, l), Tally(heaps, n)))
  {
    TallyUnion(heaps, l, n, ln);
    TallyUnion(heaps, k, ln, k + ln);
  }

  lemma StatsOfThree(s: State, k: Stats, l: Stats, n: Stats)
    requires s.stats == k && CacheStats(s, s.local, |s.local|) == l && CacheStats(s, s.nonLocal, |s.nonLocal|) == n
    ensures GetStats(s) == Plus(k, Plus(l, n))
  {
  }

  /** The cached heaps count the same in what is reported and in what is resident. */
  lemma ReportForm(s: State) returns (cached: Stats)
    requires Inv(s)
    ensures GetStats(s) == Plus(s.stats, cached)
    ensures Tally(s.heaps, ResidentSet(s)) == Plus(Tally(s.heaps, LockedSet(s)), cached)
  {
    var k, l, n := LockedSet(s), ToSet(s.local), ToSet(s.nonLocal);
    CacheTotals(s, Local, s.local);
    CacheTotals(s, NonLocal, s.nonLocal);
    ResidentSplit(s, k, l, n);
    TallyThree(s.heaps, k, l, n, l + n);
    StatsOfThree(s, s.stats, Tally(s.heaps, l), Tally(s.heaps, n));
    cached := Plus(Tally(s.heaps, l), Tally(s.heaps, n));
  }

  lemma PlusCancels(a: Stats, b: Stats, c: Stats)
    ensures Plus(a, c) == Plus(b, c) <==> a == b
  {
  }

  /** The reported statistics are the number and total size of the resident heaps,
      each counted once, whether it is locked or cached, exactly if the manager's
      own statistics account for the locked ones. */
  lemma GetStatsMeaning(s: State)
    requires Inv(s)
    ensures GetStats(s) == Tally(s.heaps, ResidentSet(s)) <==> StatsOk(s)
  {
    var cached := ReportForm(s);
    PlusCancels(s.stats, Tally(s.heaps, LockedSet(s)), cached);
  }

  /** Operations that lock and unlock nothing leave the statistics alone. */
  lemma StatsFrame(s: State, s': State)
    requires StatsOk(s) && s'.stats == s.stats && LockedSet(s') == LockedSet(s)
    requires forall id :: id in LockedSet(s) ==> s'.heaps[id].size == s.heaps[id].size
    ensures StatsOk(s')
  {
    BytesSame(s.heaps, s'.heaps, LockedSet(s));
  }

  /** The same heaps, as large and locked as often as before. */
  ghost predicate LocksKept(s: State, s': State) {
    && s'.stats == s.stats && s'.heaps.Keys == s.heaps.Keys
    && forall id {:trigger s'.heaps[id]} :: id in s.heaps ==>
         s'.heaps[id].locks == s.heaps[id].locks && s'.heaps[id].size == s.heaps[id].size
  }

  lemma LocksKeptStats(s: State, s': State)
    requires StatsOk(s) && LocksKept(s, s')
    ensures StatsOk(s')
  {
    assert LockedSet(s') == LockedSet(s);
    StatsFrame(s, s');
  }

  lemma StatsLock(s: State, s': State, id: HeapId)
    requires StatsOk(s) && id in s.heaps && s.heaps[id].locks == 0
    requires s'.stats == Stats(s.stats.count + 1, s.stats.usage + s.heaps[id].size)
    requires LockedSet(s') == LockedSet(s) + {id}
    requires forall x :: x in LockedSet(s') ==> x in s.heaps && s'.heaps[x].size == s.heaps[x].size
    ensures StatsOk(s')
  {
    TallyWith(s'.heaps, LockedSet(s), id, LockedSet(s'));
    BytesSame(s.heaps, s'.heaps, LockedSet(s));
  }

  lemma StatsUnlock(s: State, s': State, id: HeapId)
    requires StatsOk(s) && id in LockedSet(s)
    requires s'.stats == Stats(s.stats.count - 1, s.stats.usage - s.heaps[id].size)
    requires LockedSet(s') == LockedSet(s) - {id}
    requires forall x :: x in LockedSet(s') ==> s'.heaps[x].size == s.heaps[x].size
    ensures StatsOk(s')
  {
    assert LockedSet(s) == LockedSet(s') + {id};
    TallyWith(s.heaps, LockedSet(s'), id, LockedSet(s));
    BytesSame(s.heaps, s'.heaps, LockedSet(s'));
  }

  /** Eviction neither locks nor unlocks. */
  lemma EvictsKeepsLocks(s: State, s': State, g: Segment)
    requires EvictsFrom(s, s', g)
    ensures LocksKept(s, s')
  {
    forall id | id in s.heaps
      ensures s'.heaps[id].locks == s.heaps[id].locks && s'.heaps[id].size == s.heaps[id].size
    {
      assert HeapKept(s, s', g, id);
    }
  }

  lemma MakeResidentLocks(s: State, g: Segment, size: nat, ids: seq<HeapId>, evictSize: nat, env: Env, s': State)
    requires Inv(s) && s' == MakeResident(s, g, size, ids, evictSize, env).0
    ensures LocksKept(s, s')
  {
    var s1 := MakeResidentOk(s, g, size, ids, evictSize, env, {});
    EvictsKeepsLocks(s, s1, g);
  }

  lemma LocksOne(s: State, s': State, id: HeapId)
    requires StatsOk(s) && id in s.heaps && id in s'.heaps && s'.heaps == s.heaps[id := s'.heaps[id]]
    requires s.heaps[id].locks == 0 && s'.heaps[id].locks > 0 && s'.heaps[id].size == s.heaps[id].size
    requires s'.stats == Stats(s.stats.count + 1, s.stats.usage + s.heaps[id].size)
    ensures StatsOk(s')
  {
    LockedGrows(s, s', id);
    StatsLock(s, s', id);
  }

  lemma LockPagedStats(s: State, id: HeapId, evictSize: nat, env: Env, s': State)
    requires Inv(s) && StatsOk(s) && id in s.heaps && s' == LockHeap(s, id, evictSize, env).0
    requires !InCache(s, id) && s.heaps[id].locks == 0
    ensures StatsOk(s')
  {
    var h := s.heaps[id];
    var (s1, ok) := MakeResident(s, h.segment, h.size, [id], evictSize, env);
    MakeResidentLocks(s, h.segment, h.size, [id], evictSize, env, s1);
    LocksKeptStats(s, s1);
    if ok {
      LockPagedForm(s, id, evictSize, env, s1, s');
      LocksOne(s1, s', id);
    }
  }

  lemma LockPagedForm(s: State, id: HeapId, evictSize: nat, env: Env, s2: State, s': State)
    requires id in s.heaps && !InCache(s, id) && s.heaps[id].locks == 0 && s' == LockHeap(s, id, evictSize, env).0
    requires id in s2.heaps
    requires MakeResident(s, s.heaps[id].segment, s.heaps[id].size, [id], evictSize, env) == (s2, true)
    ensures s'.heaps == s2.heaps[id := s2.heaps[id].(status := Resident, locks := s2.heaps[id].locks + 1)]
    ensures s'.stats == Stats(s2.stats.count + 1, s2.stats.usage + s.heaps[id].size)
  {
  }

  lemma LockedGrows(s: State, s': State, id: HeapId)
    requires id in s.heaps && id in s'.heaps && s'.heaps == s.heaps[id := s'.heaps[id]] && s'.heaps[id].locks > 0
    ensures LockedSet(s') == LockedSet(s) + {id}
  {
  }

  lemma LockStats(s: State, id: HeapId, evictSize: nat, env: Env, s': State)
    requires Inv(s) && StatsOk(s) && id in s.heaps && s' == LockHeap(s, id, evictSize, env).0
    ensures StatsOk(s')
  {
    if !InCache(s, id) && s.heaps[id].locks == 0 {
      LockPagedStats(s, id, evictSize, env, s');
    } else if InCache(s, id) {
      assert HeapOk(s, {}, {}, id);
      LocksOne(s, s', id);
    } else {
      LockedGrows(s, s', id);
      assert LockedSet(s') == LockedSet(s);
      StatsFrame(s, s');
    }
  }

  lemma UnlockStats(s: State, id: HeapId, s': State)
    requires Inv(s) && StatsOk(s) && id in s.heaps && s' == UnlockHeap(s, id).0
    ensures StatsOk(s')
  {
    var h := s.heaps[id];
    if h.locks == 0 || InCache(s, id) {
    } else if h.locks > 1 {
      assert LockedSet(s') == LockedSet(s);
      StatsFrame(s, s');
    } else {
      assert LockedSet(s') == LockedSet(s) - {id};
      StatsUnlock(s, s', id);
    }
  }

  lemma LocksKeptTwice(s: State, s1: State, s2: State)
    requires LocksKept(s, s1) && LocksKept(s1, s2)
    ensures LocksKept(s, s2)
  {
  }

  lemma SubmittedLocks(s: State, ids: seq<HeapId>, s1: State, paged: seq<HeapId>, r: State)
    requires Inv(s) && (forall id :: id in ids ==> id in s.heaps) && Submitted(s, ids, s1, paged, r)
    ensures LocksKept(s, r)
  {
    var p := PlanOf(s, ids);
    PlanOfOk(s, ids);
    assert LocksKept(s, p.s);
    var g := if p.local != [] then Local else NonLocal;
    EvictsKeepsLocks(p.s, s1, g);
    LocksKeptTwice(s, p.s, s1);
    forall id | id in p.touched
      ensures TouchedOk(s1, id)
    {
      assert TouchedOk(p.s, id);
      TouchedKept(p.s, s1, g, id);
    }
    assert ToSet(paged) <= PendingOf(p);
    PagedIn(s1, PendingOf(p), paged, p.touched, r);
    LocksKeptTwice(s, s1, r);
  }

  /** Destroying a heap keeps the manager's statistics exact exactly when it is not locked. */
  lemma DestroyStats(s: State, id: HeapId)
    requires StatsOk(s) && id in s.heaps
    ensures StatsOk(DestroyHeap(s, id)) <==> s.heaps[id].locks == 0
  {
    var s' := DestroyHeap(s, id);
    if s.heaps[id].locks == 0 {
      assert LockedSet(s') == LockedSet(s);
      StatsFrame(s, s');
    } else {
      assert LockedSet(s') == LockedSet(s) - {id};
    }
  }

  /** So what is reported after destroying a heap is right exactly when it was not locked. */
  lemma DestroyStatsExact(s: State, id: HeapId)
    requires Inv(s) && StatsOk(s) && id in s.heaps
    ensures var s' := DestroyHeap(s, id);
            GetStats(s') == Tally(s'.heaps, ResidentSet(s')) <==> s.heaps[id].locks == 0
  {
    DestroyOk(s, id, DestroyHeap(s, id));
    DestroyStats(s, id);
    GetStatsMeaning(DestroyHeap(s, id));
  }

  // ----- Runs

  datatype Op =
    | Create(id: HeapId, size: nat, segment: Segment, status: Status)
    | Destroy(id: HeapId)
    | Lock(id: HeapId)
    | Unlock(id: HeapId)
    | Submit(ids: seq<HeapId>, signal: bool)
    | Ensure(segment: Segment, bytes: nat)
    | Gpu(completed: nat)

  /** Heaps are created resident or untracked and destroyed unlocked; a
      submission pages in one segment, and a run ends with one that fails. */
  ghost predicate Legal(s: State, op: Op, evictSize: nat, env: Env) {
    match op
    case Create(id, size, _, status) => Unused(s, id) && size > 0 && status != Pending
    case Destroy(id) => id in s.heaps && s.heaps[id].locks == 0
    case Lock(id) => id in s.heaps
    case Unlock(id) => id in s.heaps
    case Submit(ids, signal) =>
      && (forall id :: id in ids ==> id in s.heaps) && OneSegment(s, ids)
      && Execute(s, ids, signal, evictSize, env).1 == OK
    case Ensure(_, _) => true
    case Gpu(completed) => s.fence.completed <= completed <= s.fence.lastSignaled
  }

  ghost function Step(s: State, op: Op, evictSize: nat, env: Env): State
    requires Legal(s, op, evictSize, env)
  {
    match op
    case Create(id, size, g, status) => CreateHeap(s, id, size, g, status)
    case Destroy(id) => DestroyHeap(s, id)
    case Lock(id) => LockHeap(s, id, evictSize, env).0
    case Unlock(id) => UnlockHeap(s, id).0
    case Submit(ids, signal) => Execute(s, ids, signal, evictSize, env).0
    case Ensure(g, bytes) => EnsureInBudget(s, g, bytes, env).0
    case Gpu(completed) => s.(fence := s.fence.(completed := completed))
  }

  lemma StepInv(s: State, op: Op, evictSize: nat, env: Env, s': State)
    requires Inv(s) && Legal(s, op, evictSize, env) && s' == Step(s, op, evictSize, env)
    ensures Inv(s')
  {
    match op
    case Create(id, size, g, status) => CreateExact(s, id, size, g, status);
    case Destroy(id) => DestroyOk(s, id, s');
    case Lock(id) => LockOk(s, id, evictSize, env, s');
    case Unlock(id) => UnlockOk(s, id, s');
    case Submit(ids, signal) => ExecuteExact(s, ids, signal, evictSize, env);
    case Ensure(g, bytes) => EvictOk(s, g, bytes, env.info(0), {}, env.reached, s');
    case Gpu(completed) => GpuProgressOk(s, completed);
  }

  lemma StepStats(s: State, op: Op, evictSize: nat, env: Env, s': State)
    requires Inv(s) && StatsOk(s) && Legal(s, op, evictSize, env) && s' == Step(s, op, evictSize, env)
    ensures StatsOk(s')
  {
    match op
    case Create(id, size, g, status) =>
      assert LockedSet(s') == LockedSet(s);
      StatsFrame(s, s');
    case Destroy(id) =>
      assert LockedSet(s') == LockedSet(s);
      StatsFrame(s, s');
    case Lock(id) => LockStats(s, id, evictSize, env, s');
    case Unlock(id) => UnlockStats(s, id, s');
    case Submit(ids, signal) =>
      var s1, paged, r := ExecuteSteps(s, ids, signal, evictSize, env);
      SubmittedLocks(s, ids, s1, paged, r);
      LocksKeptStats(s, s');
    case Ensure(g, bytes) =>
      EvictOk(s, g, bytes, env.info(0), {}, env.reached, s');
      EvictsKeepsLocks(s, s', g);
      LocksKeptStats(s, s');
    case Gpu(completed) =>
      assert LockedSet(s') == LockedSet(s);
      StatsFrame(s, s');
  }

  function Initial(fence: nat): State {
    State(map[], [], [], Fence(fence + 1, fence, fence, fence), Stats(0, 0), [])
  }

  /** `s'` is reached from `s` by legal calls, the k-th in environment `envs(k)`. */
  ghost predicate Reaches(s: State, ops: seq<Op>, evictSize: nat, envs: nat -> Env, s': State)
    decreases |ops|
  {
    if ops == [] then s' == s
    else Legal(s, ops[0], evictSize, envs(|ops|)) &&
         Reaches(Step(s, ops[0], evictSize, envs(|ops|)), ops[1..], evictSize, envs, s')
  }

  lemma {:induction false} ReachableInv(s: State, ops: seq<Op>, evictSize: nat, envs: nat -> Env, s': State)
    requires Inv(s) && StatsOk(s) && Reaches(s, ops, evictSize, envs, s')
    ensures Inv(s') && StatsOk(s')
    decreases |ops|
  {
    if ops != [] {
      var s1 := Step(s, ops[0], evictSize, envs(|ops|));
      StepInv(s, ops[0], evictSize, envs(|ops|), s1);
      StepStats(s, ops[0], evictSize, envs(|ops|), s1);
      ReachableInv(s1, ops[1..], evictSize, envs, s');
    }
  }

  lemma InitialOk(fence: nat)
    ensures Inv(Initial(fence)) && StatsOk(Initial(fence))
  {
    assert LockedSet(Initial(fence)) == {};
  }

  /** Safety over every run. A heap is passed to the device's Evict only when it is
      resident and unlocked and the fence has reached its last-used value; the fence
      is waited on only for values already signaled; MakeResident and Evict alternate
      for every heap; and the statistics are exact. */
  lemma RunSafety(fence: nat, ops: seq<Op>, evictSize: nat, envs: nat -> Env, s: State, k: nat)
    requires Reaches(Initial(fence), ops, evictSize, envs, s) && k < |s.log|
    ensures match s.log[k]
            case Evicted(id, locks, lastUsed, completed) =>
              CountTo(s.log, k, id) == 1 && locks == 0 && lastUsed <= completed
            case Waited(value, signaled) => value <= signaled
            case MadeResident(id) => CountTo(s.log, k, id) == 0
            case Created(id, _) => CountTo(s.log, k, id) == 0
            case Executed(_, listed, unlocked) => unlocked <= listed
            case Unlocked(_, _) => true
    ensures forall id :: CountTo(s.log, k, id) == 0 || CountTo(s.log, k, id) == 1
    ensures forall id :: id in s.heaps ==> (Count(s.log, id) == 1 <==> s.heaps[id].status == Resident)
    ensures GetStats(s) == Tally(s.heaps, ResidentSet(s))
  {
    InitialOk(fence);
    ReachableInv(Initial(fence), ops, evictSize, envs, s);
    assert EntryOk(s.log, k, s.log[k]);
    forall id
      ensures CountTo(s.log, k, id) == 0 || CountTo(s.log, k, id) == 1
    {
      CountIsZeroOrOne(s.log, k, id);
    }
    forall id | id in s.heaps
      ensures Count(s.log, id) == 1 <==> s.heaps[id].status == Resident
    {
      assert HeapOk(s, {}, {}, id);
    }
    GetStatsMeaning(s);
  }

  /** If every submission signals its fence, no heap is left marked with an unsignaled value. */
  lemma StepSettled(s: State, op: Op, evictSize: nat, env: Env, s': State)
    requires Inv(s) && StatsOk(s) && Settled(s) && Legal(s, op, evictSize, env) && s' == Step(s, op, evictSize, env)
    requires op.Submit? ==> op.signal
    ensures Settled(s')
  {
    match op
    case Create(_, _, _, _) =>
    case Destroy(_) =>
    case Unlock(_) =>
    case Gpu(_) =>
    case Lock(id) =>
      if !InCache(s, id) && s.heaps[id].locks == 0 {
        var s1 := MakeResidentOk(s, s.heaps[id].segment, s.heaps[id].size, [id], evictSize, env, {});
        EvictsKeepsSettled(s, s1, s.heaps[id].segment);
      }
    case Ensure(g, bytes) =>
      EvictOk(s, g, bytes, env.info(0), {}, env.reached, s');
      EvictsKeepsSettled(s, s', g);
    case Submit(ids, signal) =>
      var s1, paged, r := ExecuteSteps(s, ids, signal, evictSize, env);
      SubmittedOk(s, ids, s1, paged, r);
      forall id | id in s'.heaps
        ensures s'.heaps[id].lastUsed != s'.fence.current
      {
        assert HeapOk(r, {}, {}, id);
      }
  }

  lemma EvictsKeepsSettled(s: State, s1: State, g: Segment)
    requires Settled(s) && EvictsFrom(s, s1, g)
    ensures Settled(s1)
  {
    forall id | id in s1.heaps
      ensures s1.heaps[id].lastUsed != s1.fence.current
    {
      assert HeapKept(s, s1, g, id);
    }
  }

  lemma {:induction false} RunSettled(s: State, ops: seq<Op>, evictSize: nat, envs: nat -> Env, s': State)
    requires Inv(s) && StatsOk(s) && Settled(s) && Reaches(s, ops, evictSize, envs, s')
    requires forall op :: op in ops && op.Submit? ==> op.signal
    ensures Inv(s') && Settled(s')
    decreases |ops|
  {
    if ops != [] {
      var s1 := Step(s, ops[0], evictSize, envs(|ops|));
      StepInv(s, ops[0], evictSize, envs(|ops|), s1);
      StepStats(s, ops[0], evictSize, envs(|ops|), s1);
      StepSettled(s, ops[0], evictSize, envs(|ops|), s1);
      RunSettled(s1, ops[1..], evictSize, envs, s');
    }
  }
}
