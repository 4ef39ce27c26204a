/** Allocating from and returning to the slab allocator, and what every call keeps. */
module SlabAllocation {
  import opened Options
  import opened Math
  import opened StableLists
  import opened SlabBlocks
  import opened SlabSizing
  import opened SlabSpec
  import opened SlabOperations
  import opened SlabSystem

  function BaseSize(g: Config, lastUsed: nat): nat { Max(g.minSlabSize, lastUsed) }

  function Grown(g: Config, size: nat): nat
    requires g.growthDen > 0
  {
    size * g.growthNum / g.growthDen
  }

  lemma GrownIsLarger(g: Config, size: nat)
    requires ConfigOk(g)
    ensures size <= Grown(g, size)
  {
    MulMonotone(g.growthDen, g.growthNum, size);
    var q, r := Grown(g, size), size * g.growthNum % g.growthDen;
    assert size * g.growthNum == q * g.growthDen + r;
    assert (q + 1) * g.growthDen == q * g.growthDen + g.growthDen;
    if q < size {
      MulMonotone(q + 1, size, g.growthDen);
    }
  }

  /** The size for a new slab: larger than `n` only once enough slabs of size `n` are full. */
  function NextSize(g: Config, cs: seq<Cache>, lastUsed: nat, n: nat, a: Ask): Option<nat>
    requires ConfigOk(g) && a.size <= g.blockSize && n > 0 && IndexFor(g, n) < |cs|
  {
    if lastUsed == 0 then Some(n)
    else
      GrownIsLarger(g, n);
      var m := ComputeSlabSize(g, cs, a.size, Grown(g, n), a.available);
      if m.None? then None
      else
        var m1 := if m.value > g.maxSlabSize then n else m.value;
        var m2 := if Occupied(cs[IndexFor(g, n)].full) < m1 / n then n else m1;
        Some(if m2 > n then m2 else n)
  }

  lemma NextSizeOk(g: Config, cs: seq<Cache>, lastUsed: nat, n: nat, a: Ask)
    requires ConfigOk(g) && CachesOk(g, cs) && Carvable(g, a) && a.size <= g.blockSize
    requires SlabSize(g, n) && IndexFor(g, n) < |cs|
    requires NextSize(g, cs, lastUsed, n, a).Some?
    ensures SlabSize(g, NextSize(g, cs, lastUsed, n, a).value) && n <= NextSize(g, cs, lastUsed, n, a).value
  {
    if lastUsed > 0 {
      GrownIsLarger(g, n);
      ComputeSlabSizeOk(g, cs, a, Grown(g, n));
    }
  }

  // ----- A slab to take a block from

  /** The caches and slab size to take from: the last free slab, or a new one. */
  function Prepare(g: Config, cs: seq<Cache>, lastUsed: nat, n: nat, a: Ask): Option<(seq<Cache>, nat)>
    requires ConfigOk(g) && a.size <= g.blockSize && n > 0 && IndexFor(g, n) < |cs|
  {
    if cs[IndexFor(g, n)].free != [] then Some((cs, n))
    else
      var m := NextSize(g, cs, lastUsed, n, a);
      if m.None? || m.value == 0 then None
      else Some((WithNewSlab(g, cs, m.value), m.value))
  }

  function WithNewSlab(g: Config, cs: seq<Cache>, size: nat): seq<Cache>
    requires ConfigOk(g) && size > 0
  {
    var i := IndexFor(g, size);
    var cs1 := EnsureCache(cs, i);
    cs1[i := AddSlab(cs1[i], Quotient(size, g.blockSize))]
  }

  lemma AddSlabKeeps(g: Config, cs: seq<Cache>, i: nat, size: nat, cs': seq<Cache>)
    requires ConfigOk(g) && CachesOk(g, cs) && i < |cs| && size == SizeAt(g, i) && size / g.blockSize > 0
    requires cs' == cs[i := AddSlab(cs[i], size / g.blockSize)]
    ensures CachesOk(g, cs') && Keeps(cs, cs') && cs'[i].free != []
  {
    assert CacheInv(g, cs, i);
    AddSlabOk(g, size, cs[i], cs'[i]);
    PutCacheOk(g, cs, i, cs'[i], cs');
    AddedKeepsUse(cs[i], cs'[i]);
    forall h
      ensures LiveHandle(cs', h) <==> LiveHandle(cs, h)
    {
    }
  }

  lemma AddedKeepsUse(c: Cache, c': Cache)
    requires |c'.slabs| == |c.slabs| + 1 && OthersKept(c, c', |c.slabs|)
    requires RangeAt(c', |c.slabs|).None? && forall b :: !LiveAt(c', |c.slabs|, b)
    ensures forall k: nat :: RangeAt(c', k) == RangeAt(c, k)
    ensures forall k: nat, b :: LiveAt(c', k, b) <==> LiveAt(c, k, b)
  {
    forall k: nat
      ensures RangeAt(c', k) == RangeAt(c, k) && forall b :: LiveAt(c', k, b) <==> LiveAt(c, k, b)
    {
      assert k < |c.slabs| ==> Resolve(c', k) == Resolve(c, k);
      assert k > |c.slabs| ==> Resolve(c', k) == Resolve(c, k);
    }
  }

  lemma PrepareOk(g: Config, cs: seq<Cache>, lastUsed: nat, n: nat, a: Ask, cs': seq<Cache>, n': nat)
    requires ConfigOk(g) && CachesOk(g, cs) && Carvable(g, a) && a.size <= g.blockSize
    requires SlabSize(g, n) && IndexFor(g, n) < |cs| && Prepare(g, cs, lastUsed, n, a) == Some((cs', n'))
    ensures CachesOk(g, cs') && Keeps(cs, cs') && SlabSize(g, n')
    ensures IndexFor(g, n') < |cs'| && cs'[IndexFor(g, n')].free != [] && SizeAt(g, IndexFor(g, n')) == n'
  {
    if cs[IndexFor(g, n)].free != [] {
      SizeOfIndex(g, n);
    } else {
      NextSizeOk(g, cs, lastUsed, n, a);
      SizeOfIndex(g, n');
      var i := IndexFor(g, n');
      var cs1 := EnsureCache(cs, i);
      EnsureCacheOk(g, cs, i, cs1);
      FitsOnce(g.blockSize, n');
      AddSlabKeeps(g, cs1, i, n', cs');
      KeepsTwice(cs, cs1, cs');
    }
  }

  // ----- Allocating

  function ToAllocation(g: Config, i: nat, t: Taken, size: nat): Allocation {
    Allocation(Handle(i, t.slab, t.block), t.range.memory, t.range.offset + t.block * g.blockSize, size)
  }

  /** Takes a block from the last free slab of size `n`. */
  function TakeBlockOf(g: Config, s: State, n: nat, a: Ask, source: Source): (State, Option<Allocation>)
    requires ConfigOk(g) && a.alignment > 0 && n > 0 && IndexFor(g, n) < |s.caches|
    requires Shape(s.caches[IndexFor(g, n)]) && s.caches[IndexFor(g, n)].free != []
  {
    if !IsAligned(g.blockSize, a.alignment) then (s, None)
    else
      var i := IndexFor(g, n);
      var (c, t) := TakeFrom(s.caches[i], source(n));
      var s1 := s.(caches := s.caches[i := c]);
      if t.None? then (s1, None)
      else
        var r := ToAllocation(g, i, t.value, a.size);
        (State(s1.caches, n, s.usedCount + 1, s.usedBytes + g.blockSize, s.live + {r.handle}), Some(r))
  }

  /** What the next allocator promises: memory of the size asked for, apart from
      all memory that it handed out before. */
  ghost predicate SourceOk(cs: seq<Cache>, source: Source) {
    forall n: nat {:trigger source(n)} :: source(n).Some? ==>
      source(n).value.size == n
      && forall i: nat, k: nat {:trigger RangeOf(cs, i, k)} :: RangeOf(cs, i, k).Some? ==>
           Apart(RangeOf(cs, i, k).value, source(n).value) && Apart(source(n).value, RangeOf(cs, i, k).value)
  }

  /** Bytes of a live block: inside the slab it is a block of. */
  ghost predicate Inside(g: Config, cs: seq<Cache>, r: Allocation) {
    var range := RangeOf(cs, r.handle.cache, r.handle.slab);
    && range.Some? && range.value.memory == r.memory
    && r.offset == range.value.offset + r.handle.block * g.blockSize
  }

  /** One more block in use, the others as they were. */
  ghost predicate Allocates(g: Config, s: State, s': State, r: Allocation) {
    && r.handle !in s.live && s'.live == s.live + {r.handle} && Inside(g, s'.caches, r)
    && forall i: nat, k: nat {:trigger RangeOf(s'.caches, i, k)} ::
         RangeOf(s.caches, i, k).Some? ==> RangeOf(s'.caches, i, k) == RangeOf(s.caches, i, k)
  }

  ghost predicate FromSource(source: Source, r: Option<Range>) {
    exists n: nat :: source(n) == r
  }

  /** Memory that a slab did not hold before comes from the next allocator. */
  ghost predicate GrowsFrom(cs: seq<Cache>, cs': seq<Cache>, source: Source) {
    forall i: nat, k: nat {:trigger RangeOf(cs', i, k)} ::
      RangeOf(cs', i, k).None? || RangeOf(cs', i, k) == RangeOf(cs, i, k) || FromSource(source, RangeOf(cs', i, k))
  }

  /** The state apart from slabs that were added for later. */
  ghost predicate Unchanged(s: State, s': State) {
    Keeps(s.caches, s'.caches) && s' == s.(caches := s'.caches)
  }

  lemma UnchangedOk(g: Config, s: State, s': State)
    requires Inv(g, s) && Unchanged(s, s') && CachesOk(g, s'.caches)
    ensures Inv(g, s')
  {
    forall i: nat, k: nat, j: nat, l: nat
      ensures SlabsApart(s'.caches, i, k, j, l)
    {
      assert SlabsApart(s.caches, i, k, j, l);
      assert RangeOf(s'.caches, i, k) == RangeOf(s.caches, i, k) && RangeOf(s'.caches, j, l) == RangeOf(s.caches, j, l);
    }
  }

  /** How a change of one cache shows in all of them. */
  lemma PutCacheView(cs: seq<Cache>, i: nat, c: Cache, cs': seq<Cache>)
    requires i < |cs| && cs' == cs[i := c]
    ensures forall j: nat, k: nat {:trigger RangeOf(cs', j, k)} ::
              RangeOf(cs', j, k) == if j == i then RangeAt(c, k) else RangeOf(cs, j, k)
    ensures forall h {:trigger LiveHandle(cs', h)} ::
              LiveHandle(cs', h) <==> if h.cache == i then LiveAt(c, h.slab, h.block) else LiveHandle(cs, h)
  {
  }

  /** Entries past the table resolve to nothing. */
  lemma TakesOneView(c: Cache, c': Cache, grant: Option<Range>, t: Taken)
    requires TakesOne(c, c', grant, t)
    ensures forall k: nat {:trigger RangeAt(c', k)} ::
              RangeAt(c', k) == if k == t.slab then Some(t.range) else RangeAt(c, k)
    ensures RangeAt(c, t.slab) == Some(t.range) || (RangeAt(c, t.slab).None? && grant == Some(t.range))
    ensures forall k: nat, b {:trigger LiveAt(c', k, b)} :: LiveAt(c', k, b) <==>
            LiveAt(c, k, b) || (k == t.slab && b == t.block)
  {
    forall k: nat | k != t.slab
      ensures Resolve(c', k) == Resolve(c, k)
    {
      assert k < |c.slabs| ==> Resolve(c', k) == Resolve(c, k);
    }
  }

  lemma TakeBlockOfOk(g: Config, s: State, n: nat, a: Ask, source: Source, s': State, r: Option<Allocation>)
    requires Inv(g, s) && a.alignment > 0 && SlabSize(g, n) && SourceOk(s.caches, source)
    requires IndexFor(g, n) < |s.caches| && SizeAt(g, IndexFor(g, n)) == n && s.caches[IndexFor(g, n)].free != []
    requires Shape(s.caches[IndexFor(g, n)]) && (s', r) == TakeBlockOf(g, s, n, a, source)
    ensures Inv(g, s') && if r.Some? then Allocates(g, s, s', r.value) else Unchanged(s, s')
    ensures GrowsFrom(s.caches, s'.caches, source)
    ensures r.Some? <==>
              IsAligned(g.blockSize, a.alignment) && (BackHasMemory(s.caches[IndexFor(g, n)]) || source(n).Some?)
    ensures r.Some? ==> s'.lastUsed == n && r.value.handle.cache == IndexFor(g, n)
  {
    if !IsAligned(g.blockSize, a.alignment) {
      return;
    }
    var i := IndexFor(g, n);
    var c := s.caches[i];
    assert CacheInv(g, s.caches, i);
    var (c', t) := TakeFrom(c, source(n));
    BackIsSlab(c);
    TakeFromOk(g, n, c, source(n), c', t);
    PutCacheOk(g, s.caches, i, c', s'.caches);
    PutCacheView(s.caches, i, c', s'.caches);
    if t.Some? {
      TakesOneView(c, c', source(n), t.value);
      TakeInv(g, s, i, n, t.value, source, s', r.value);
    } else {
      SameUseView(c, c');
      UnchangedOk(g, s, s');
    }
  }

  lemma SameUseView(c: Cache, c': Cache)
    requires SameUse(c, c')
    ensures forall k: nat {:trigger RangeAt(c', k)} :: RangeAt(c', k) == RangeAt(c, k)
    ensures forall k: nat, b {:trigger LiveAt(c', k, b)} :: LiveAt(c', k, b) <==> LiveAt(c, k, b)
  {
    forall k: nat
      ensures RangeAt(c', k) == RangeAt(c, k) && forall b :: LiveAt(c', k, b) <==> LiveAt(c, k, b)
    {
      if k < |c.slabs| {
        assert Resolve(c', k) == Resolve(c', k);
      }
    }
  }

  lemma TakeInv(g: Config, s: State, i: nat, n: nat, t: Taken, source: Source, s': State, r: Allocation)
    requires Inv(g, s) && SourceOk(s.caches, source) && i < |s.caches| && CachesOk(g, s'.caches)
    requires r == ToAllocation(g, i, t, r.size)
    requires s' == State(s'.caches, n, s.usedCount + 1, s.usedBytes + g.blockSize, s.live + {r.handle})
    requires forall j: nat, k: nat {:trigger RangeOf(s'.caches, j, k)} ::
               RangeOf(s'.caches, j, k) == if (j, k) == (i, t.slab) then Some(t.range) else RangeOf(s.caches, j, k)
    requires RangeOf(s.caches, i, t.slab) == Some(t.range) ||
             (RangeOf(s.caches, i, t.slab).None? && source(n) == Some(t.range))
    requires forall h {:trigger LiveHandle(s'.caches, h)} :: LiveHandle(s'.caches, h) <==>
             LiveHandle(s.caches, h) || h == r.handle
    requires !LiveHandle(s.caches, r.handle)
    ensures Inv(g, s') && Allocates(g, s, s', r) && GrowsFrom(s.caches, s'.caches, source)
  {
    assert source(n) == Some(t.range) ==> FromSource(source, Some(t.range));
    forall i: nat, k: nat, j: nat, l: nat
      ensures SlabsApart(s'.caches, i, k, j, l)
    {
      assert SlabsApart(s.caches, i, k, j, l);
    }
    assert |s'.live| == |s.live| + 1;
    assert (|s.live| + 1) * g.blockSize == |s.live| * g.blockSize + g.blockSize;
  }

  function TryAllocate(g: Config, s: State, a: Ask, source: Source): (State, Option<Allocation>)
    requires Inv(g, s) && a.alignment > 0 && Carvable(g, a)
  {
    if a.size > g.blockSize then (s, None)
    else
      var n := ComputeSlabSize(g, s.caches, a.size, BaseSize(g, s.lastUsed), a.available);
      if n.None? || n.value > g.maxSlabSize then (s, None)
      else
        var s1 := SizedState(g, s, a, n.value);
        var p := Prepare(g, s1.caches, s.lastUsed, n.value, a);
        if p.None? then (s1, None)
        else
          PreparedState(g, s1, n.value, a, p.value.0, p.value.1);
          TakeBlockOf(g, s1.(caches := p.value.0), p.value.1, a, source)
  }

  /** The state in which the cache for slabs of size `n` exists. */
  function SizedState(g: Config, s: State, a: Ask, n: nat): (s1: State)
    requires Inv(g, s) && Carvable(g, a) && a.size <= g.blockSize && n <= g.maxSlabSize
    requires ComputeSlabSize(g, s.caches, a.size, BaseSize(g, s.lastUsed), a.available) == Some(n)
    ensures Inv(g, s1) && Unchanged(s, s1) && SlabSize(g, n) && IndexFor(g, n) < |s1.caches|
  {
    ComputeSlabSizeOk(g, s.caches, a, BaseSize(g, s.lastUsed));
    SizeOfIndex(g, n);
    var s1 := s.(caches := EnsureCache(s.caches, IndexFor(g, n)));
    EnsureCacheOk(g, s.caches, IndexFor(g, n), s1.caches);
    UnchangedOk(g, s, s1);
    s1
  }

  lemma PreparedState(g: Config, s: State, n: nat, a: Ask, cs: seq<Cache>, n': nat)
    requires Inv(g, s) && Carvable(g, a) && a.size <= g.blockSize && SlabSize(g, n) && IndexFor(g, n) < |s.caches|
    requires Prepare(g, s.caches, s.lastUsed, n, a) == Some((cs, n'))
    ensures Inv(g, s.(caches := cs)) && Unchanged(s, s.(caches := cs)) && SlabSize(g, n')
    ensures IndexFor(g, n') < |cs| && SizeAt(g, IndexFor(g, n')) == n' && cs[IndexFor(g, n')].free != [] &&
            Shape(cs[IndexFor(g, n')])
  {
    PrepareOk(g, s.caches, s.lastUsed, n, a, cs, n');
    UnchangedOk(g, s, s.(caches := cs));
    assert CacheInv(g, cs, IndexFor(g, n'));
  }

  /** A request is served with a block that was free, or nothing changes hands. It
      is served if a slab size is found and the next allocator has memory. */
  lemma TryAllocateOk(g: Config, s: State, a: Ask, source: Source, s': State, r: Option<Allocation>)
    requires Inv(g, s) && a.alignment > 0 && Carvable(g, a) && SourceOk(s.caches, source)
    requires (s', r) == TryAllocate(g, s, a, source)
    ensures Inv(g, s') && if r.Some? then Allocates(g, s, s', r.value) && r.value.size == a.size else Unchanged(s, s')
    ensures GrowsFrom(s.caches, s'.caches, source)
  {
    if a.size <= g.blockSize {
      var n := ComputeSlabSize(g, s.caches, a.size, BaseSize(g, s.lastUsed), a.available);
      if n.Some? && n.value <= g.maxSlabSize {
        var s1 := SizedState(g, s, a, n.value);
        var p := Prepare(g, s1.caches, s.lastUsed, n.value, a);
        if p.Some? {
          var s2 := s1.(caches := p.value.0);
          PreparedState(g, s1, n.value, a, p.value.0, p.value.1);
          KeepsTwice(s.caches, s1.caches, s2.caches);
          SourceStillOk(s.caches, s2.caches, source);
          TakeBlockOfOk(g, s2, p.value.1, a, source, s', r);
          ThroughUnchanged(g, s, s2, s', r, source);
        }
      }
    }
  }

  lemma SourceStillOk(cs: seq<Cache>, cs': seq<Cache>, source: Source)
    requires SourceOk(cs, source) && Keeps(cs, cs')
    ensures SourceOk(cs', source)
  {
    forall n: nat, i: nat, k: nat | source(n).Some? && RangeOf(cs', i, k).Some?
      ensures Apart(RangeOf(cs', i, k).value, source(n).value) && Apart(source(n).value, RangeOf(cs', i, k).value)
    {
      assert RangeOf(cs', i, k) == RangeOf(cs, i, k);
    }
  }

  lemma ThroughUnchanged(g: Config, s: State, s1: State, s': State, r: Option<Allocation>, source: Source)
    requires Unchanged(s, s1) && GrowsFrom(s1.caches, s'.caches, source)
    requires if r.Some? then Allocates(g, s1, s', r.value) else Unchanged(s1, s')
    ensures if r.Some? then Allocates(g, s, s', r.value) else Unchanged(s, s')
    ensures GrowsFrom(s.caches, s'.caches, source)
  {
    forall i: nat, k: nat
      ensures RangeOf(s1.caches, i, k) == RangeOf(s.caches, i, k)
    {
    }
    if r.None? {
      KeepsTwice(s.caches, s1.caches, s'.caches);
    } else {
      forall i: nat, k: nat | RangeOf(s.caches, i, k).Some?
        ensures RangeOf(s'.caches, i, k) == RangeOf(s.caches, i, k)
      {
        assert RangeOf(s1.caches, i, k) == RangeOf(s.caches, i, k);
      }
    }
  }

  // ----- Returning

  /** The cache that deallocation looks up, by the size of the slab's memory. */
  function LookupCache(g: Config, cs: seq<Cache>, h: Handle): nat
    requires ConfigOk(g) && h.cache < |cs| && Resolve(cs[h.cache], h.slab).Some?
    requires var r := Resolve(cs[h.cache], h.slab).value.range; r.Some? && r.value.size > 0
  {
    IndexFor(g, Resolve(cs[h.cache], h.slab).value.range.value.size)
  }

  /** Deallocation finds the slab with its memory, in the cache it lives in. */
  lemma LookupIsHome(g: Config, s: State, h: Handle)
    requires Inv(g, s) && h in s.live
    ensures h.cache < |s.caches| && Shape(s.caches[h.cache]) && h.slab < |s.caches[h.cache].slabs|
    ensures LiveAt(s.caches[h.cache], h.slab, h.block)
    ensures var slab := Resolve(s.caches[h.cache], h.slab).value;
            slab.used > 0 && slab.range.Some? && slab.range.value.size > 0 && h.block < slab.blocks.count
    ensures LookupCache(g, s.caches, h) == h.cache
  {
    assert LiveHandle(s.caches, h);
    assert CacheInv(g, s.caches, h.cache);
    var c := s.caches[h.cache];
    assert ContentOk(g, SizeAt(g, h.cache), c, h.slab);
    LiveMeansUsed(Resolve(c, h.slab).value.blocks, h.block);
    IndexOfSize(g, h.cache);
  }

  /** The second result is the memory handed back to the next allocator. */
  function Deallocate(g: Config, s: State, h: Handle): (State, Option<Range>)
    requires Inv(g, s) && h in s.live
  {
    LookupIsHome(g, s, h);
    var i := LookupCache(g, s.caches, h);
    var (c, freed) := ReturnTo(s.caches[i], h.slab, h.block);
    (State(s.caches[i := c], s.lastUsed, s.usedCount - 1, s.usedBytes - g.blockSize, s.live - {h}), freed)
  }

  /** One block less in use; the slab hands its memory back exactly when this was
      its last block; all other memory stays where it is. */
  ghost predicate Frees(s: State, s': State, h: Handle, freed: Option<Range>) {
    && s'.live == s.live - {h}
    && (freed.Some? <==> forall x: Handle :: x in s.live && x.cache == h.cache && x.slab == h.slab ==> x == h)
    && (freed.Some? ==> freed == RangeOf(s.caches, h.cache, h.slab))
    && forall i: nat, k: nat {:trigger RangeOf(s'.caches, i, k)} :: RangeOf(s'.caches, i, k) ==
         if freed.Some? && (i, k) == (h.cache, h.slab) then None else RangeOf(s.caches, i, k)
  }

  lemma ReturnsOneView(c: Cache, c': Cache, k: nat, b: nat, freed: Option<Range>)
    requires ReturnsOne(c, c', k, b, freed)
    ensures forall j: nat {:trigger RangeAt(c', j)} ::
              RangeAt(c', j) == if j == k && freed.Some? then None else RangeAt(c, j)
    ensures forall j: nat, x {:trigger LiveAt(c', j, x)} :: LiveAt(c', j, x) <==> LiveAt(c, j, x) && !(j == k && x == b)
  {
    forall j: nat | j != k
      ensures Resolve(c', j) == Resolve(c, j)
    {
      assert j < |c.slabs| ==> Resolve(c', j) == Resolve(c, j);
    }
  }

  lemma DeallocateOk(g: Config, s: State, h: Handle, s': State, freed: Option<Range>)
    requires Inv(g, s) && h in s.live && (s', freed) == Deallocate(g, s, h)
    ensures Inv(g, s') && Frees(s, s', h, freed) && s'.lastUsed == s.lastUsed
  {
    LookupIsHome(g, s, h);
    var i := h.cache;
    assert CacheInv(g, s.caches, i);
    var c := s.caches[i];
    var c' := s'.caches[i];
    ReturnToOk(g, SizeAt(g, i), c, h.slab, h.block, c', freed);
    PutCacheOk(g, s.caches, i, c', s'.caches);
    PutCacheView(s.caches, i, c', s'.caches);
    ReturnsOneView(c, c', h.slab, h.block, freed);
    FreesInv(g, s, h, s', freed);
    LastBlock(g, s, h);
  }

  /** The blocks in use of a slab, seen from its cache and from all handles. */
  lemma LastBlock(g: Config, s: State, h: Handle)
    requires Inv(g, s) && h in s.live && h.cache < |s.caches|
    ensures (forall x :: LiveAt(s.caches[h.cache], h.slab, x) <==> x == h.block)
      <==> (forall x: Handle :: x in s.live && x.cache == h.cache && x.slab == h.slab ==> x == h)
  {
    assert LiveHandle(s.caches, h);
    forall b
      ensures LiveAt(s.caches[h.cache], h.slab, b) <==> Handle(h.cache, h.slab, b) in s.live
    {
      assert LiveHandle(s.caches, Handle(h.cache, h.slab, b)) <==> Handle(h.cache, h.slab, b) in s.live;
    }
  }

  lemma FreesInv(g: Config, s: State, h: Handle, s': State, freed: Option<Range>)
    requires Inv(g, s) && h in s.live && CachesOk(g, s'.caches)
    requires s' == State(s'.caches, s.lastUsed, s.usedCount - 1, s.usedBytes - g.blockSize, s.live - {h})
    requires forall i: nat, k: nat {:trigger RangeOf(s'.caches, i, k)} ::
               RangeOf(s'.caches, i, k).None? || RangeOf(s'.caches, i, k) == RangeOf(s.caches, i, k)
    requires forall x {:trigger LiveHandle(s'.caches, x)} :: LiveHandle(s'.caches, x) <==>
             LiveHandle(s.caches, x) && x != h
    ensures Inv(g, s')
  {
    forall i: nat, k: nat, j: nat, l: nat
      ensures SlabsApart(s'.caches, i, k, j, l)
    {
      assert SlabsApart(s.caches, i, k, j, l);
      assert RangeOf(s'.caches, i, k).None? || RangeOf(s'.caches, i, k) == RangeOf(s.caches, i, k);
      assert RangeOf(s'.caches, j, l).None? || RangeOf(s'.caches, j, l) == RangeOf(s.caches, j, l);
    }
    assert |s'.live| == |s.live| - 1;
    assert (|s.live| - 1) * g.blockSize == |s.live| * g.blockSize - g.blockSize;
  }
}
