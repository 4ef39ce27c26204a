/** Every operation of the residency manager keeps the invariant. */
module ResidencyOperations {
  import opened Sets
  import opened ResidencySpec
  import opened ResidencyInvariant

  // ----- Linking and unlinking

  lemma DistinctCons(id: HeapId, c: seq<HeapId>)
    requires Distinct(c) && id !in c
    ensures Distinct([id] + c)
  {
    var t := [id] + c;
    forall i: nat, j: nat | i < j < |t|
      ensures t[i] != t[j]
    {
      assert i > 0 ==> c[i - 1] != c[j - 1];
      assert c[j - 1] in c;
    }
  }

  lemma {:induction false} WithoutMembers(c: seq<HeapId>, id: HeapId)
    requires Distinct(c)
    ensures Distinct(Without(c, id)) && forall x :: x in Without(c, id) <==> x in c && x != id
  {
    if c != [] {
      DistinctTail(c);
      WithoutMembers(c[1..], id);
      if c[0] != id {
        DistinctCons(c[0], Without(c[1..], id));
      }
    }
  }

  /** The caches of `s'` are those of `s` without `id`. */
  lemma UnlinkCaches(s: State, id: HeapId, s': State)
    requires CacheOk(s, Local) && CacheOk(s, NonLocal)
    requires s'.local == Without(s.local, id) && s'.nonLocal == Without(s.nonLocal, id)
    requires forall x :: x in s.heaps && x != id ==> x in s'.heaps && s'.heaps[x].segment == s.heaps[x].segment
    ensures CacheOk(s', Local) && CacheOk(s', NonLocal)
    ensures forall x :: InCache(s', x) <==> InCache(s, x) && x != id
  {
    WithoutMembers(s.local, id);
    WithoutMembers(s.nonLocal, id);
    forall g: Segment, x | x in Cache(s', g)
      ensures Known(s', g, x)
    {
      assert Known(s, g, x);
    }
  }

  /** The caches of `Insert(s, id)` are those of `s` with `id` at the end of its own. */
  lemma InsertCaches(s: State, id: HeapId)
    requires CacheOk(s, Local) && CacheOk(s, NonLocal) && id in s.heaps && !InCache(s, id)
    ensures CacheOk(Insert(s, id), Local) && CacheOk(Insert(s, id), NonLocal)
    ensures forall x :: InCache(Insert(s, id), x) <==> InCache(s, x) || x == id
  {
    var s', h := Insert(s, id), s.heaps[id].segment;
    DistinctSnoc(Cache(s, h), id);
    forall g: Segment, x | x in Cache(s', g)
      ensures Known(s', g, x)
    {
      if x != id {
        assert Known(s, g, x);
      }
    }
  }

  /** Changing heaps without changing segments keeps the caches in order. */
  lemma SameCaches(s: State, s': State)
    requires CacheOk(s, Local) && CacheOk(s, NonLocal) && s'.local == s.local && s'.nonLocal == s.nonLocal
    requires forall x :: x in s.heaps ==> x in s'.heaps && s'.heaps[x].segment == s.heaps[x].segment
    ensures CacheOk(s', Local) && CacheOk(s', NonLocal)
  {
    CacheSame(s, Local, s');
    CacheSame(s, NonLocal, s');
  }

  // ----- Creation and destruction

  ghost predicate Mentions(c: Call, id: HeapId) {
    match c
    case Created(x, _) => x == id
    case MadeResident(x) => x == id
    case Evicted(x, _, _, _) => x == id
    case Waited(_, _) => false
    case Executed(_, listed, unlocked) => id in listed || id in unlocked
    case Unlocked(x, _) => x == id
  }

  /** A new heap has a new identity: no heap that existed before had it. */
  ghost predicate Unused(s: State, id: HeapId) {
    id !in s.heaps && forall k: nat {:trigger s.log[k]} :: k < |s.log| ==> !Mentions(s.log[k], id)
  }

  lemma {:induction false} UnusedCount(log: seq<Call>, id: HeapId, k: nat)
    requires k <= |log| && forall i: nat {:trigger log[i]} :: i < |log| ==> !Mentions(log[i], id)
    ensures CountTo(log, k, id) == 0
  {
    if k > 0 {
      UnusedCount(log, id, k - 1);
      assert !Mentions(log[k - 1], id);
    }
  }

  lemma NotCached(s: State, id: HeapId)
    requires CacheOk(s, Local) && CacheOk(s, NonLocal) && id !in s.heaps
    ensures !InCache(s, id)
  {
    if id in s.local { CacheKnows(s, Local, id); }
    if id in s.nonLocal { CacheKnows(s, NonLocal, id); }
  }

  lemma CreateCaches(s: State, id: HeapId, size: nat, g: Segment, status: Status, s': State)
    requires Inv(s) && Unused(s, id) && s' == CreateHeap(s, id, size, g, status)
    ensures CacheOk(s', Local) && CacheOk(s', NonLocal)
    ensures forall x :: InCache(s', x) <==> InCache(s, x) || (x == id && status != Unknown)
  {
    var s1 := s.(heaps := s.heaps[id := Heap(size, g, 0, 0, status)], log := s.log + [Created(id, status == Resident)]);
    NotCached(s, id);
    SameCaches(s, s1);
    if status != Unknown {
      InsertCaches(s1, id);
    }
  }

  /** Creating a heap keeps the invariant exactly unless the heap is created
      not resident: such a heap enters the cache while it is not resident. */
  lemma CreateExact(s: State, id: HeapId, size: nat, g: Segment, status: Status)
    requires Inv(s) && Unused(s, id) && size > 0
    ensures Inv(CreateHeap(s, id, size, g, status)) <==> status != Pending
  {
    var s' := CreateHeap(s, id, size, g, status);
    var c := Created(id, status == Resident);
    CreateCaches(s, id, size, g, status, s');
    NotCached(s, id);
    UnusedCount(s.log, id, |s.log|);
    CountAppend(s.log, c, id);
    if status == Pending {
      assert InCache(s', id) && !(s'.heaps[id].status == Resident);
      assert !HeapOk(s', {}, {}, id);
    } else {
      LogAppend(s.log, c);
      forall x | x in s'.heaps
        ensures HeapOk(s', {}, {}, x)
      {
        CountAppend(s.log, c, x);
        if x != id { assert HeapOk(s, {}, {}, x); }
      }
    }
  }

  lemma DestroyOk(s: State, id: HeapId, s': State)
    requires Inv(s) && id in s.heaps && s' == DestroyHeap(s, id)
    ensures Inv(s')
  {
    UnlinkCaches(s, id, s');
    forall x | x in s'.heaps
      ensures HeapOk(s', {}, {}, x)
    {
      assert HeapOk(s, {}, {}, x);
    }
  }

  /** A heap that is created resident or unresident enters its cache at the most
      recently used end; an untracked one enters none. */
  lemma CreatedLast(s: State, id: HeapId, size: nat, g: Segment, status: Status)
    requires id !in s.heaps
    ensures var s' := CreateHeap(s, id, size, g, status);
            && Cache(s', g) == (if status == Unknown then Cache(s, g) else Cache(s, g) + [id])
            && Cache(s', Other(g)) == Cache(s, Other(g)) && s'.heaps == s.heaps[id := Heap(size, g, 0, 0, status)]
  {
  }

  // ----- Locking

  lemma LockCachedOk(s: State, id: HeapId, s': State)
    requires Inv(s) && id in s.heaps && InCache(s, id)
    requires s'.heaps == s.heaps[id := s.heaps[id].(locks := s.heaps[id].locks + 1)]
    requires s'.local == Without(s.local, id) && s'.nonLocal == Without(s.nonLocal, id)
    requires s'.fence == s.fence && s'.log == s.log
    ensures Inv(s')
  {
    UnlinkCaches(s, id, s');
    forall x | x in s'.heaps
      ensures HeapOk(s', {}, {}, x)
    {
      assert HeapOk(s, {}, {}, x);
    }
  }

  lemma LockAgainOk(s: State, id: HeapId, s': State)
    requires Inv(s) && id in s.heaps && s.heaps[id].locks > 0 && s' == AddLock(s, id)
    ensures Inv(s')
  {
    SameCaches(s, s');
    forall x | x in s'.heaps
      ensures HeapOk(s', {}, {}, x)
    {
      assert HeapOk(s, {}, {}, x);
    }
  }

  /** A heap that is neither cached nor locked is paged in and locked. */
  lemma LockPagedOk(s: State, id: HeapId, s': State)
    requires Inv(s) && id in s.heaps && !InCache(s, id) && s.heaps[id].locks == 0
    requires s'.heaps == s.heaps[id := s.heaps[id].(status := Resident, locks := 1)]
    requires s'.local == s.local && s'.nonLocal == s.nonLocal && s'.fence == s.fence
    requires s'.log == s.log + MakeCalls([id])
    ensures Inv(s')
  {
    var c := MadeResident(id);
    assert MakeCalls([id]) == [c];
    assert HeapOk(s, {}, {}, id);
    LogAppend(s.log, c);
    SameCaches(s, s');
    forall x | x in s'.heaps
      ensures HeapOk(s', {}, {}, x)
    {
      assert HeapOk(s, {}, {}, x);
      CountAppend(s.log, c, x);
    }
  }

  /** Locking keeps the invariant, whether or not the heap can be paged in. */
  lemma LockOk(s: State, id: HeapId, evictSize: nat, env: Env, s': State)
    requires Inv(s) && id in s.heaps && s' == LockHeap(s, id, evictSize, env).0
    ensures Inv(s')
  {
    var h := s.heaps[id];
    if !InCache(s, id) && h.locks == 0 {
      var s1 := MakeResidentOk(s, h.segment, h.size, [id], evictSize, env, {});
      assert HeapKept(s, s1, h.segment, id);
      var (r, ok) := MakeResident(s, h.segment, h.size, [id], evictSize, env);
      if ok {
        LockPagedOk(s1, id, s');
      }
    } else if InCache(s, id) {
      LockCachedOk(s, id, s');
    } else {
      LockAgainOk(s, id, s');
    }
  }

  lemma UnlockLastOk(s: State, id: HeapId, s': State)
    requires Inv(s) && id in s.heaps && s.heaps[id].locks == 1 && !InCache(s, id)
    requires s' == UnlockHeap(s, id).0
    ensures Inv(s')
  {
    var c := Unlocked(id, s.fence.completed);
    var s1 := s.(heaps := s.heaps[id := s.heaps[id].(locks := 0)], log := s.log + [c]);
    LogAppend(s.log, c);
    SameCaches(s, s1);
    InsertCaches(s1, id);
    SameCaches(Insert(s1, id), s');
    forall x | x in s'.heaps
      ensures HeapOk(s', {}, {}, x)
    {
      assert HeapOk(s, {}, {}, x);
      CountAppend(s.log, c, x);
    }
  }

  lemma UnlockOk(s: State, id: HeapId, s': State)
    requires Inv(s) && id in s.heaps && s' == UnlockHeap(s, id).0
    ensures Inv(s')
  {
    var h := s.heaps[id];
    if h.locks == 0 || InCache(s, id) {
    } else if h.locks > 1 {
      SameCaches(s, s');
      forall x | x in s'.heaps
        ensures HeapOk(s', {}, {}, x)
      {
        assert HeapOk(s, {}, {}, x);
      }
    } else {
      UnlockLastOk(s, id, s');
    }
  }

  /** The GPU may reach any signaled fence value at any time. */
  lemma GpuProgressOk(s: State, completed: nat)
    requires Inv(s) && s.fence.completed <= completed <= s.fence.lastSignaled
    ensures Inv(s.(fence := s.fence.(completed := completed)))
  {
    var s' := s.(fence := s.fence.(completed := completed));
    SameCaches(s, s');
    forall x | x in s'.heaps
      ensures HeapOk(s', {}, {}, x)
    {
      assert HeapOk(s, {}, {}, x);
    }
  }
}
