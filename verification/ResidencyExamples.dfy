/** Concrete runs of the residency manager that show where its guarantees end. */
module ResidencyExamples {
  import opened ResidencySpec
  import opened ResidencyInvariant
  import opened ResidencyOperations
  import opened ResidencySubmission
  import opened ResidencyRuns

  /** A device that is full: a budget of 10 bytes, all of them used. */
  const Full := Env(_ => Info(10, 10), _ => true, _ => 0)

  lemma ReachesCons(s: State, op: Op, ops: seq<Op>, evictSize: nat, envs: nat -> Env, s1: State, s': State)
    requires Legal(s, op, evictSize, envs(|ops| + 1)) && s1 == Step(s, op, evictSize, envs(|ops| + 1))
    requires Reaches(s1, ops, evictSize, envs, s')
    ensures Reaches(s, [op] + ops, evictSize, envs, s')
  {
    var all := [op] + ops;
    assert all[0] == op && all[1..] == ops && |all| == |ops| + 1;
    assert Reaches(Step(s, all[0], evictSize, envs(|all|)), all[1..], evictSize, envs, s');
  }

  /** Evicting the only heap of a cache, which no submission in preparation uses. */
  lemma EvictOnly(s: State, g: Segment, id: HeapId, h: Heap)
    requires Cache(s, g) == [id] && id in s.heaps && s.heaps[id] == h && h.size == 10
    requires h.lastUsed <= s.fence.lastCompleted && h.lastUsed != s.fence.current
    ensures EnsureInBudget(s, g, 20, Full).0.log == s.log + [Evicted(id, h.locks, h.lastUsed, s.fence.completed)]
  {
    var s1 := TakeHeads(s, g, 1, Full.reached);
    assert TakeHeads(s, g, 0, Full.reached) == s;
    assert PrefixSize(s, [id], 0) == 0 && PrefixSize(s, [id], 1) == 10;
    assert VictimCount(s, [id], 20, 1) == 1;
    assert VictimCount(s, [id], 20, 0) == 1;
    EvictForm(s, g, 20, Info(10, 10), Full.reached, 1);
    assert Cache(s, g)[..1] == [id];
    assert s1.heaps[id] == h.(status := Pending) && s1.fence == s.fence && s1.log == s.log;
    assert EvictBatch(s1, [id]).log == s.log + [EvictCall(s1, id)];
  }

  // ----- A locked heap is not tracked

  /** A submission of one locked heap pages nothing in and marks nothing. */
  lemma SubmitLocked(s: State, h: Heap)
    requires s.heaps == map[0 := h] && h.locks > 0
    ensures Execute(s, [0], true, 0, Full) == (SignalFor(s, ExecutedCall(s, [0])), OK)
    ensures ExecutedCall(s, [0]) == Executed(s.fence.current, {0}, {}) && OneSegment(s, [0])
  {
    var p := Plan(s, [], [], []);
    assert CollectOne(p, 0) == p && [0][1..] == [];
    assert Collect(p, [0]) == Collect(p, []) == p;
    assert PageIn(p, 0, Full) == (s, true) && MarkResident(s, []) == s;
  }

  lemma LockCached(s: State, h: Heap, s': State)
    requires s.heaps == map[0 := h] && s.local == [0] && s.nonLocal == [] && h.status == Resident
    requires s' == State(map[0 := h.(locks := h.locks + 1)], [], [], s.fence,
                         Stats(s.stats.count + 1, s.stats.usage + h.size), s.log)
    ensures LockHeap(s, 0, 0, Full) == (s', OK)
  {
    assert Without([0], 0) == Without([0][1..], 0) == [];
    assert s.heaps[0 := h.(locks := h.locks + 1)] == s'.heaps;
  }

  lemma UnlockOnly(s: State, h: Heap, s': State)
    requires s.heaps == map[0 := h] && s.local == [] && s.nonLocal == [] && h.locks == 1 && h.segment == Local
    requires s' == State(map[0 := h.(locks := 0)], [0], [], s.fence, Stats(s.stats.count - 1, s.stats.usage - h.size),
                         s.log + [Unlocked(0, s.fence.completed)])
    ensures UnlockHeap(s, 0) == (s', OK)
  {
    assert s.heaps[0 := h.(locks := 0)] == s'.heaps && [] + [0] == [0];
  }

  /** Unlocking and evicting the heap, after the submission and before its completion. */
  lemma UnlockAndEvict(s: State, h: Heap) returns (s': State)
    requires s.heaps == map[0 := h] && s.local == [] && s.nonLocal == []
    requires h == Heap(10, Local, 1, 0, Resident) && s.fence == Fence(2, 1, 0, 0)
    ensures Reaches(s, [Unlock(0)] + [Ensure(Local, 20)], 0, _ => Full, s')
    ensures s'.log == s.log + [Unlocked(0, 0)] + [Evicted(0, 0, 0, 0)]
  {
    var envs: nat -> Env := _ => Full;
    var s1 := State(map[0 := h.(locks := 0)], [0], [], s.fence, Stats(s.stats.count - 1, s.stats.usage - h.size),
                    s.log + [Unlocked(0, 0)]);
    UnlockOnly(s, h, s1);
    EvictOnly(s1, Local, 0, h.(locks := 0));
    s' := EnsureInBudget(s1, Local, 20, Full).0;
    ReachesCons(s1, Ensure(Local, 20), [], 0, envs, s', s');
    assert [Ensure(Local, 20)] + [] == [Ensure(Local, 20)];
    ReachesCons(s, Unlock(0), [Ensure(Local, 20)], 0, envs, s1, s');
  }

  lemma LockAndSubmit(s1: State, h: Heap, s3: State, ops: seq<Op>, s': State)
    requires h == Heap(10, Local, 0, 0, Resident)
    requires s1 == State(map[0 := h], [0], [], Fence(1, 0, 0, 0), Stats(0, 0), s1.log)
    requires s3 == State(map[0 := h.(locks := 1)], [], [], Fence(2, 1, 0, 0), Stats(1, 10),
                         s1.log + [Executed(1, {0}, {})])
    requires Reaches(s3, ops, 0, _ => Full, s')
    ensures Reaches(s1, [Lock(0)] + ([Submit([0], true)] + ops), 0, _ => Full, s')
  {
    var envs: nat -> Env := _ => Full;
    var s2 := State(map[0 := h.(locks := 1)], [], [], s1.fence, Stats(1, 10), s1.log);
    SubmitLocked(s2, h.(locks := 1));
    ReachesCons(s2, Submit([0], true), ops, 0, envs, s3, s');
    LockCached(s1, h, s2);
    ReachesCons(s1, Lock(0), [Submit([0], true)] + ops, 0, envs, s2, s');
  }

  /** A legal run in which a heap is evicted while the GPU still uses it: the heap
      was locked when the submission listed it, so the submission left no mark on
      it, and it was unlocked before the submission completed. */
  lemma LockedHeapEvictedInUse(start: State) returns (ops: seq<Op>, s: State)
    requires start == Initial(0)
    ensures Reaches(start, ops, 0, _ => Full, s)
    ensures s.log == [Created(0, true), Executed(1, {0}, {}), Unlocked(0, 0), Evicted(0, 0, 0, 0)]
  {
    var h := Heap(10, Local, 0, 0, Resident);
    var s1 := State(map[0 := h], [0], [], start.fence, Stats(0, 0), [Created(0, true)]);
    var s3 := State(map[0 := h.(locks := 1)], [], [], Fence(2, 1, 0, 0), Stats(1, 10), s1.log + [Executed(1, {0}, {})]);
    s := UnlockAndEvict(s3, h.(locks := 1));
    var rest := [Unlock(0)] + [Ensure(Local, 20)];
    LockAndSubmit(s1, h, s3, rest, s);
    ops := CreateAnd(start, s1, h, [Lock(0)] + ([Submit([0], true)] + rest), s);
  }

  lemma CreateAnd(s0: State, s1: State, h: Heap, rest: seq<Op>, s: State) returns (ops: seq<Op>)
    requires s0 == Initial(0) && h == Heap(10, Local, 0, 0, Resident)
    requires s1 == State(map[0 := h], [0], [], s0.fence, Stats(0, 0), [Created(0, true)])
    requires Reaches(s1, rest, 0, _ => Full, s)
    ensures Reaches(s0, ops, 0, _ => Full, s)
  {
    CreateFirst(s0, s1, h);
    ops := [Create(0, 10, Local, Resident)] + rest;
    ReachesCons(s0, Create(0, 10, Local, Resident), rest, 0, _ => Full, s1, s);
  }

  lemma CreateFirst(s: State, s': State, h: Heap)
    requires s == Initial(0) && h == Heap(10, Local, 0, 0, Resident)
    requires s' == State(map[0 := h], [0], [], s.fence, Stats(0, 0), [Created(0, true)])
    ensures CreateHeap(s, 0, 10, Local, Resident) == s' && Legal(s, Create(0, 10, Local, Resident), 0, Full)
  {
    assert s.heaps[0 := h] == s'.heaps && [] + [0] == [0];
  }

  // ----- Heaps that are evicted without being resident

  /** A heap created not resident enters the cache, and the next eviction hands it
      to the device although it is not resident. */
  lemma UnresidentHeapEvicted() returns (s: State)
    ensures s == CreateHeap(Initial(0), 0, 10, Local, Pending)
    ensures EnsureInBudget(s, Local, 20, Full).0.log == [Created(0, false), Evicted(0, 0, 0, 0)]
    ensures CountTo([Created(0, false), Evicted(0, 0, 0, 0)], 1, 0) == 0
  {
    s := CreateHeap(Initial(0), 0, 10, Local, Pending);
    assert s.local == [] + [0] == [0];
    EvictOnly(s, Local, 0, Heap(10, Local, 0, 0, Pending));
    assert [Created(0, false)] + [Evicted(0, 0, 0, 0)] == [Created(0, false), Evicted(0, 0, 0, 0)];
    assert CountTo([Created(0, false), Evicted(0, 0, 0, 0)], 0, 0) == 0;
  }

  /** Two heaps, one per segment, neither resident nor tracked. */
  const Two := State(map[0 := Heap(10, Local, 0, 0, Unknown), 1 := Heap(10, NonLocal, 0, 0, Unknown)], [], [],
                     Fence(1, 0, 0, 0), Stats(0, 0), [Created(0, false), Created(1, false)])

  /** An untracked heap of 10 bytes. */
  const One := State(map[0 := Heap(10, Local, 0, 0, Unknown)], [], [], Fence(1, 0, 0, 0), Stats(0, 0),
                     [Created(0, false)])

  lemma OneCreated(start: State, env: Env)
    requires start == Initial(0)
    ensures Legal(start, Create(0, 10, Local, Unknown), 0, env)
    ensures Step(start, Create(0, 10, Local, Unknown), 0, env) == One
  {
    assert start.heaps[0 := Heap(10, Local, 0, 0, Unknown)] == One.heaps;
  }

  lemma TwoCreated(start: State, env: Env) returns (ops: seq<Op>)
    requires start == Initial(0)
    ensures Reaches(start, ops, 0, _ => env, Two)
  {
    var envs: nat -> Env := _ => env;
    var c := Create(1, 10, NonLocal, Unknown);
    assert Unused(One, 1);
    assert CreateHeap(One, 1, 10, NonLocal, Unknown).heaps == Two.heaps;
    assert Legal(One, c, 0, env) && Step(One, c, 0, env) == Two;
    ReachesCons(One, c, [], 0, envs, Two, Two);
    OneCreated(start, env);
    ReachesCons(start, Create(0, 10, Local, Unknown), [c] + [], 0, envs, One, Two);
    ops := [Create(0, 10, Local, Unknown)] + ([c] + []);
  }

  /** A device without a budget: nothing is evicted, and every paging attempt succeeds. */
  const Idle := Env(_ => Info(0, 0), _ => true, _ => 0)

  /** What the first loop of a submission of both collects. */
  lemma BothCollected(p: Plan)
    requires p == Collect(Plan(Two, [], [], []), [0, 1])
    ensures p.local == [0] && p.nonLocal == [1] && p.touched == [0, 1]
    ensures p.s == Two.(heaps := map[0 := Heap(10, Local, 0, 1, Unknown), 1 := Heap(10, NonLocal, 0, 1, Unknown)],
                        local := [0], nonLocal := [1])
  {
    var p0 := Plan(Two, [], [], []);
    var p1, p2 := CollectOne(p0, 0), CollectOne(CollectOne(p0, 0), 1);
    assert Without([], 0) == [] && Without([], 1) == [];
    assert p1.s.heaps == map[0 := Heap(10, Local, 0, 1, Unknown), 1 := Heap(10, NonLocal, 0, 0, Unknown)];
    assert p1 == Plan(p1.s, [0], [], [0]) && p1.s.local == [0] && p1.s.nonLocal == [];
    assert Without([0], 1) == [0];
    assert p2 == Plan(p2.s, [0], [1], [0, 1]) && p2.s.local == [0] && p2.s.nonLocal == [1];
    assert [0, 1][1..] == [1] && [1][1..] == [];
    assert Collect(p0, [0, 1]) == Collect(p1, [1]) == Collect(p2, []) == p2;
  }

  lemma BothUnlocked()
    ensures ExecutedCall(Two, [0, 1]) == Executed(1, {0, 1}, {0, 1})
  {
  }

  lemma LocalPagedIn(p: Plan, s1: State)
    requires p.local == [0] && p.s.local == [0] && p.s.heaps.Keys == {0, 1}
    requires p.s.heaps[0] == Heap(10, Local, 0, 1, Unknown) && p.s.fence == Two.fence
    requires s1 == p.s.(log := p.s.log + [MadeResident(0)])
    ensures PageIn(p, 0, Idle) == (s1, true)
  {
    assert SizeOf(p.s, [0][1..]) == 0 && SizeOf(p.s, [0]) == 10;
    assert MakeCalls([0]) == [MadeResident(0)];
    assert Retry(p.s, Local, [0], 0, Idle, 0) == (s1, true);
  }

  /** A submission of both pages in only the local heap but marks both resident. */
  lemma OneOfTwoPagedIn() returns (s: State)
    ensures Execute(Two, [0, 1], true, 0, Idle) == (s, OK)
    ensures s.local == [0] && s.nonLocal == [1] && s.fence == Fence(2, 1, 0, 0)
    ensures s.heaps.Keys == {0, 1} && s.heaps[1] == Heap(10, NonLocal, 0, 1, Resident)
    ensures s.log == Two.log + [MadeResident(0)] + [Executed(1, {0, 1}, {0, 1})]
  {
    var p := Collect(Plan(Two, [], [], []), [0, 1]);
    BothCollected(p);
    var s1 := p.s.(log := p.s.log + [MadeResident(0)]);
    LocalPagedIn(p, s1);
    var s2 := MarkResident(s1, [0, 1]);
    MarkResidentHeaps(s1, [0, 1], s2);
    BothUnlocked();
    s := SignalFor(s2, Executed(1, {0, 1}, {0, 1}));
  }

  /** So the other heap is evicted, once the GPU is done, without being resident. */
  lemma OtherSegmentEvicted(start: State) returns (ops: seq<Op>, s: State)
    requires start == Initial(0)
    ensures Reaches(start, ops, 0, _ => Idle, Two)
    ensures Execute(Two, [0, 1], true, 0, Idle) == (s, OK)
    ensures var done := s.(fence := Fence(2, 1, 1, 1));
            EnsureInBudget(done, NonLocal, 20, Full).0.log == s.log + [Evicted(1, 0, 1, 1)]
    ensures CountTo(s.log + [Evicted(1, 0, 1, 1)], |s.log|, 1) == 0
  {
    ops := TwoCreated(start, Idle);
    s := EvictedAfterBoth();
  }

  lemma EvictedAfterBoth() returns (s: State)
    ensures Execute(Two, [0, 1], true, 0, Idle) == (s, OK)
    ensures var done := s.(fence := Fence(2, 1, 1, 1));
            EnsureInBudget(done, NonLocal, 20, Full).0.log == s.log + [Evicted(1, 0, 1, 1)]
    ensures CountTo(s.log + [Evicted(1, 0, 1, 1)], |s.log|, 1) == 0
  {
    s := OneOfTwoPagedIn();
    EvictOnly(s.(fence := Fence(2, 1, 1, 1)), NonLocal, 1, s.heaps[1]);
    NotMadeResident(s.log + [Evicted(1, 0, 1, 1)]);
  }

  lemma NotMadeResident(log: seq<Call>)
    requires |log| == 5 && log[..4] == Two.log + [MadeResident(0)] + [Executed(1, {0, 1}, {0, 1})]
    ensures CountTo(log, 4, 1) == 0
  {
    assert log[0] == log[..4][0] && log[1] == log[..4][1] && log[2] == log[..4][2] && log[3] == log[..4][3];
    assert CountTo(log, 0, 1) == 0 && CountTo(log, 1, 1) == 0;
    assert CountTo(log, 2, 1) == 0 && CountTo(log, 3, 1) == 0;
  }

  // ----- A failed submission

  /** A device without a budget on which every paging attempt fails. */
  const Broken := Env(_ => Info(0, 0), _ => false, _ => 0)

  /** A submission that cannot page its heap in leaves it in the cache, not resident. */
  lemma FailedSubmissionLeavesHeap(start: State) returns (ops: seq<Op>, s: State)
    requires start == Initial(0)
    ensures Reaches(start, ops, 0, _ => Broken, One)
    ensures Execute(One, [0], true, 0, Broken) == (s, OutOfMemory)
    ensures s.local == [0] && s.heaps == map[0 := Heap(10, Local, 0, 1, Unknown)] && s.log == [Created(0, false)]
    ensures Count(s.log, 0) == 0
  {
    OneCreated(start, Broken);
    ReachesCons(start, Create(0, 10, Local, Unknown), [], 0, _ => Broken, One, One);
    ops := [Create(0, 10, Local, Unknown)] + [];
    s := OnlyCollected();
    assert CountTo(s.log, 0, 0) == 0;
    assert SizeOf(s, [0][1..]) == 0 && SizeOf(s, [0]) == 10;
    assert Retry(s, Local, [0], 0, Broken, 0) == (s, false);
  }

  lemma OnlyCollected() returns (s: State)
    ensures Collect(Plan(One, [], [], []), [0]) == Plan(s, [0], [], [0])
    ensures s == One.(heaps := map[0 := Heap(10, Local, 0, 1, Unknown)], local := [0])
  {
    var p0 := Plan(One, [], [], []);
    var p := CollectOne(p0, 0);
    s := p.s;
    assert Without([], 0) == [] && [] + [0] == [0] && [0][1..] == [];
    assert s.heaps == map[0 := Heap(10, Local, 0, 1, Unknown)];
    assert Collect(p0, [0]) == Collect(p, []) == p;
  }

  // ----- A locked heap is destroyed

  /** After destroying a locked heap the statistics report it although no heap is left. */
  lemma LockedHeapDestroyed(start: State) returns (ops: seq<Op>, s: State)
    requires start == Initial(0)
    ensures Reaches(start, ops, 0, _ => Full, s) && s.heaps.Keys == {0} && s.heaps[0].locks == 1
    ensures DestroyHeap(s, 0).heaps == map[] && GetStats(DestroyHeap(s, 0)) == Stats(1, 10)
  {
    var h := Heap(10, Local, 0, 0, Resident);
    var s1 := State(map[0 := h], [0], [], start.fence, Stats(0, 0), [Created(0, true)]);
    s := State(map[0 := h.(locks := 1)], [], [], s1.fence, Stats(1, 10), s1.log);
    LockCached(s1, h, s);
    ReachesCons(s1, Lock(0), [], 0, _ => Full, s, s);
    ops := CreateAnd(start, s1, h, [Lock(0)] + [], s);
    assert Without([], 0) == [];
    assert DestroyHeap(s, 0).local == [] && DestroyHeap(s, 0).nonLocal == [];
  }
}
