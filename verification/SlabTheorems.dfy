/** What the slab allocator guarantees over every run. */
module SlabTheorems {
  import opened Options
  import opened Math
  import opened StableLists
  import opened SlabBlocks
  import opened SlabSizing
  import opened SlabSpec
  import opened SlabOperations
  import opened SlabSystem
  import opened SlabAllocation

  /** Through any moves between the lists, a block in use finds the one current
      copy of its slab: no other place stores a slab with that table index, the
      copy names its own place, and it is in the full list exactly when full. */
  lemma LiveBlockFindsItsSlab(g: Config, s: State, h: Handle, p: Place)
    requires Inv(g, s) && h in s.live
    ensures h.cache < |s.caches| && h.slab < |s.caches[h.cache].slabs|
    ensures var c := s.caches[h.cache]; var slab := Resolve(c, h.slab);
            && slab.Some? && slab.value.indexInCache == h.slab && slab.value.indexInList == c.slabs[h.slab].index
            && (c.slabs[h.slab].full <==> slab.value.used == slab.value.blocks.count)
            && IsLive(slab.value.blocks, h.block) && slab.value.range.Some?
            && (SlabAt(c, p).Some? && SlabAt(c, p).value.indexInCache == h.slab <==> p == c.slabs[h.slab])
  {
    LookupIsHome(g, s, h);
    assert CacheInv(g, s.caches, h.cache);
    var c := s.caches[h.cache];
    assert EntryOk(c, h.slab) && ContentOk(g, SizeAt(g, h.cache), c, h.slab);
    if SlabAt(c, p).Some? && SlabAt(c, p).value.indexInCache == h.slab {
      assert HomeOk(c, p);
    }
  }

  /** Every stored slab, wherever it is: in the list that fits its state, holding
      memory exactly while a block is in use, and counting those blocks. */
  lemma StoredSlabOk(g: Config, s: State, i: nat, p: Place)
    requires Inv(g, s) && i < |s.caches| && SlabAt(s.caches[i], p).Some?
    ensures var slab := SlabAt(s.caches[i], p).value;
            && (p.full <==> slab.used == slab.blocks.count)
            && (slab.range.Some? <==> slab.used > 0) && (slab.range.Some? ==> slab.range.value.size == SizeAt(g, i))
            && slab.used == |LiveSlots(slab.blocks)| && slab.blocks.count == SizeAt(g, i) / g.blockSize > 0
            && slab.indexInList == p.index && Resolve(s.caches[i], slab.indexInCache) == Some(slab)
            && forall b: nat :: b in LiveSlots(slab.blocks) <==> Handle(i, slab.indexInCache, b) in s.live
  {
    var c := s.caches[i];
    assert CacheInv(g, s.caches, i);
    HomeOf(c, p);
    var slab := SlabAt(c, p).value;
    assert ContentOk(g, SizeAt(g, i), c, slab.indexInCache);
    LiveCount(slab.blocks);
    forall b: nat
      ensures IsLive(slab.blocks, b) <==> Handle(i, slab.indexInCache, b) in s.live
    {
      assert LiveHandle(s.caches, Handle(i, slab.indexInCache, b)) <==> Handle(i, slab.indexInCache, b) in s.live;
    }
  }

  /** The bytes of a block in use. */
  ghost function BlockRange(g: Config, s: State, h: Handle): Range
    requires RangeOf(s.caches, h.cache, h.slab).Some?
  {
    var r := RangeOf(s.caches, h.cache, h.slab).value;
    Range(r.memory, r.offset + h.block * g.blockSize, g.blockSize)
  }

  lemma BlockFits(b: nat, n: nat, size: nat)
    requires n > 0 && b < size / n
    ensures b * n + n <= size
  {
    MulMonotone(b + 1, size / n, n);
    assert (b + 1) * n == b * n + n;
  }

  /** A block in use lies inside the bytes of its slab. */
  lemma LiveBlockInside(g: Config, s: State, h: Handle)
    requires Inv(g, s) && h in s.live
    ensures RangeOf(s.caches, h.cache, h.slab).Some?
    ensures var r, b := RangeOf(s.caches, h.cache, h.slab).value, BlockRange(g, s, h);
            b.memory == r.memory && r.offset <= b.offset && b.offset + b.size <= r.offset + r.size
  {
    var size := LiveSlotBelowCount(g, s, h);
    BlockFits(h.block, g.blockSize, size);
  }

  lemma LiveSlotBelowCount(g: Config, s: State, h: Handle) returns (size: nat)
    requires Inv(g, s) && h in s.live
    ensures g.blockSize > 0 && h.block < size / g.blockSize
    ensures RangeOf(s.caches, h.cache, h.slab).Some? && RangeOf(s.caches, h.cache, h.slab).value.size == size
  {
    LookupIsHome(g, s, h);
    assert CacheInv(g, s.caches, h.cache);
    size := SizeAt(g, h.cache);
    assert ContentOk(g, size, s.caches[h.cache], h.slab);
  }

  /** Two blocks in use never share a byte. */
  lemma LiveBlocksApart(g: Config, s: State, x: Handle, y: Handle)
    requires Inv(g, s) && x in s.live && y in s.live && x != y
    ensures RangeOf(s.caches, x.cache, x.slab).Some? && RangeOf(s.caches, y.cache, y.slab).Some?
    ensures Apart(BlockRange(g, s, x), BlockRange(g, s, y))
  {
    LiveBlockInside(g, s, x);
    LiveBlockInside(g, s, y);
    if x.cache == y.cache && x.slab == y.slab {
      BlocksApart(x.block, y.block, g.blockSize);
    } else {
      assert SlabsApart(s.caches, x.cache, x.slab, y.cache, y.slab);
    }
  }

  lemma BlocksApart(a: nat, b: nat, n: nat)
    requires a != b
    ensures a * n + n <= b * n || b * n + n <= a * n
  {
    assert (a + 1) * n == a * n + n && (b + 1) * n == b * n + n;
    if a < b {
      MulMonotone(a + 1, b, n);
    } else {
      MulMonotone(b + 1, a, n);
    }
  }

  /** An allocator with no block in use holds no memory. */
  lemma NoLiveNoMemory(g: Config, s: State, i: nat, k: nat)
    requires Inv(g, s) && s.live == {}
    ensures RangeOf(s.caches, i, k).None?
  {
    if i < |s.caches| && Resolve(s.caches[i], k).Some? {
      assert CacheInv(g, s.caches, i);
      StoredSlabOk(g, s, i, s.caches[i].slabs[k]);
      var slab := Resolve(s.caches[i], k).value;
      assert LiveSlots(slab.blocks) == {};
    }
  }

  /** With memory available, a request up to the block size is refused exactly when
      its alignment does not divide the block size or the slab it would need is
      larger than the largest slab. */
  lemma RefusedOnlyForSize(g: Config, s: State, a: Ask, source: Source)
    requires Inv(g, s) && a.alignment > 0 && Carvable(g, a) && a.size <= g.blockSize && SourceOk(s.caches, source)
    requires forall n: nat :: source(n).Some?
    requires var n := NewSlabSize(FitFor(g, a.size), BaseSize(g, s.lastUsed));
             n > 0 && a.available >= n && a.available >= NewSlabSize(FitFor(g, a.size), Max(1, Grown(g, n)))
    ensures TryAllocate(g, s, a, source).1.Some? <==>
            && IsAligned(g.blockSize, a.alignment)
            && NewSlabSize(FitFor(g, a.size), BaseSize(g, s.lastUsed)) <= g.maxSlabSize
  {
    var n := NewSlabSize(FitFor(g, a.size), BaseSize(g, s.lastUsed));
    assert ComputeSlabSize(g, s.caches, a.size, BaseSize(g, s.lastUsed), a.available) == Some(n);
    if n <= g.maxSlabSize {
      var s1 := SizedState(g, s, a, n);
      GrownIsLarger(g, n);
      assert NextSize(g, s1.caches, s.lastUsed, n, a).Some?;
      NextSizeOk(g, s1.caches, s.lastUsed, n, a);
      var p := Prepare(g, s1.caches, s.lastUsed, n, a);
      var s2 := s1.(caches := p.value.0);
      PreparedState(g, s1, n, a, p.value.0, p.value.1);
      KeepsTwice(s.caches, s1.caches, s2.caches);
      SourceStillOk(s.caches, s2.caches, source);
      var (s', r) := TakeBlockOf(g, s2, p.value.1, a, source);
      TakeBlockOfOk(g, s2, p.value.1, a, source, s', r);
    }
  }

  /** With memory available, a served request never uses smaller slabs than the
      request served before it. */
  lemma SlabSizesGrow(g: Config, s: State, a: Ask, source: Source, s': State, r: Allocation)
    requires Inv(g, s) && a.alignment > 0 && Carvable(g, a) && (s', Some(r)) == TryAllocate(g, s, a, source)
    requires a.size <= g.blockSize && a.available >= NewSlabSize(FitFor(g, a.size), BaseSize(g, s.lastUsed))
    ensures s.lastUsed <= s'.lastUsed <= g.maxSlabSize && g.minSlabSize <= s'.lastUsed && IsPowerOfTwo(s'.lastUsed)
  {
    var n := NewSlabSize(FitFor(g, a.size), BaseSize(g, s.lastUsed));
    NewSlabSizeMeaning(FitFor(g, a.size), BaseSize(g, s.lastUsed), g.slabAlignment);
    var s1 := SizedState(g, s, a, n);
    var p := Prepare(g, s1.caches, s.lastUsed, n, a);
    if s1.caches[IndexFor(g, n)].free == [] {
      NextSizeOk(g, s1.caches, s.lastUsed, n, a);
    }
    PreparedState(g, s1, n, a, p.value.0, p.value.1);
  }

  // ----- Runs

  datatype Op = Alloc(ask: Ask, source: Source) | Free(handle: Handle)

  ghost predicate Legal(g: Config, s: State, op: Op) {
    && Inv(g, s)
    && match op
       case Alloc(a, source) => a.alignment > 0 && Carvable(g, a) && SourceOk(s.caches, source)
       case Free(h) => h in s.live
  }

  ghost function Step(g: Config, s: State, op: Op): State
    requires Legal(g, s, op)
  {
    match op
    case Alloc(a, source) => TryAllocate(g, s, a, source).0
    case Free(h) => Deallocate(g, s, h).0
  }

  const Initial := State([], 0, 0, 0, {})

  lemma InitialInv(g: Config)
    requires ConfigOk(g)
    ensures Inv(g, Initial)
  {
    forall i: nat, k: nat, j: nat, l: nat
      ensures SlabsApart([], i, k, j, l)
    {
    }
  }

  /** `s'` is reached from `s` by these calls, each legal in its turn. */
  ghost predicate Reaches(g: Config, s: State, ops: seq<Op>, s': State)
    decreases |ops|
  {
    if ops == [] then s' == s
    else Legal(g, s, ops[0]) && Reaches(g, Step(g, s, ops[0]), ops[1..], s')
  }

  lemma StepInv(g: Config, s: State, op: Op, s': State)
    requires Legal(g, s, op) && s' == Step(g, s, op)
    ensures Inv(g, s')
    ensures forall h: Handle :: h in s.live && op != Free(h) ==>
      h in s'.live && RangeOf(s'.caches, h.cache, h.slab) == RangeOf(s.caches, h.cache, h.slab)
  {
    match op
    case Alloc(a, source) => AllocStep(g, s, a, source, s');
    case Free(h) => FreeStep(g, s, h, s');
  }

  lemma AllocStep(g: Config, s: State, a: Ask, source: Source, s': State)
    requires Legal(g, s, Alloc(a, source)) && s' == TryAllocate(g, s, a, source).0
    ensures Inv(g, s')
    ensures forall h: Handle :: h in s.live ==>
      h in s'.live && RangeOf(s'.caches, h.cache, h.slab) == RangeOf(s.caches, h.cache, h.slab)
  {
    TryAllocateOk(g, s, a, source, s', TryAllocate(g, s, a, source).1);
    forall h: Handle | h in s.live
      ensures h in s'.live && RangeOf(s'.caches, h.cache, h.slab) == RangeOf(s.caches, h.cache, h.slab)
    {
      LiveBlockInside(g, s, h);
    }
  }

  lemma FreeStep(g: Config, s: State, f: Handle, s': State)
    requires Legal(g, s, Free(f)) && s' == Deallocate(g, s, f).0
    ensures Inv(g, s')
    ensures forall h: Handle :: h in s.live && h != f ==>
      h in s'.live && RangeOf(s'.caches, h.cache, h.slab) == RangeOf(s.caches, h.cache, h.slab)
  {
    var freed := Deallocate(g, s, f).1;
    DeallocateOk(g, s, f, s', freed);
    forall h: Handle | h in s.live && h != f
      ensures h in s'.live && RangeOf(s'.caches, h.cache, h.slab) == RangeOf(s.caches, h.cache, h.slab)
    {
      assert freed.Some? ==> !(h.cache == f.cache && h.slab == f.slab);
    }
  }

  /** In every reachable state the invariant holds, and a block that was handed
      out and not freed since still lies in the same bytes of the same memory. */
  lemma {:induction false} RunKeeps(g: Config, s: State, ops: seq<Op>, s': State, h: Handle)
    requires Inv(g, s) && h in s.live && Reaches(g, s, ops, s') && forall i :: 0 <= i < |ops| ==> ops[i] != Free(h)
    ensures Inv(g, s') && h in s'.live
    ensures RangeOf(s.caches, h.cache, h.slab).Some? && RangeOf(s'.caches, h.cache, h.slab).Some?
    ensures BlockRange(g, s', h) == BlockRange(g, s, h)
    decreases |ops|
  {
    LiveBlockInside(g, s, h);
    if ops != [] {
      var s1 := Step(g, s, ops[0]);
      StepInv(g, s, ops[0], s1);
      RunKeeps(g, s1, ops[1..], s', h);
    }
  }

  lemma {:induction false} RunInv(g: Config, s: State, ops: seq<Op>, s': State)
    requires Inv(g, s) && Reaches(g, s, ops, s')
    ensures Inv(g, s')
    decreases |ops|
  {
    if ops != [] {
      var s1 := Step(g, s, ops[0]);
      StepInv(g, s, ops[0], s1);
      RunInv(g, s1, ops[1..], s');
    }
  }
}
