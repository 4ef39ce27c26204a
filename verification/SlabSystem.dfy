/** The slab allocator over all slab sizes: TryAllocateMemory and DeallocateMemory of
    src/gpgmm/common/SlabMemoryAllocator.cpp as functions on values. */
module SlabSystem {
  import opened Options
  import opened Math
  import opened StableLists
  import opened SlabBlocks
  import opened SlabSizing
  import opened SlabSpec
  import opened SlabOperations

  /** A block in use, found through entry `slab` of the table of cache `cache`. */
  datatype Handle = Handle(cache: nat, slab: nat, block: nat)

  datatype Allocation = Allocation(handle: Handle, memory: nat, offset: nat, size: nat)

  datatype State = State(caches: seq<Cache>, lastUsed: nat, usedCount: int, usedBytes: int, live: set<Handle>)

  /** A request; `available` is how much the caller lets new memory take. */
  datatype Ask = Ask(size: nat, alignment: nat, available: nat)

  /** The next allocator: memory of exactly the size asked for, or none. */
  type Source = nat -> Option<Range>

  // ----- Caches by slab size

  function IndexFor(g: Config, size: nat): nat
    requires g.maxSlabSize > 0 && size > 0
  {
    if Log2(size) <= Log2(g.maxSlabSize) then Log2(g.maxSlabSize) - Log2(size) else 0
  }

  function SizeAt(g: Config, i: nat): (r: nat)
    requires g.maxSlabSize > 0
    ensures r > 0
  {
    if i <= Log2(g.maxSlabSize) then Pow2(Log2(g.maxSlabSize) - i) else 1
  }

  /** A slab size and its cache determine each other. */
  lemma SizeOfIndex(g: Config, size: nat)
    requires ConfigOk(g) && IsPowerOfTwo(size) && size <= g.maxSlabSize
    ensures IndexFor(g, size) <= Log2(g.maxSlabSize) && SizeAt(g, IndexFor(g, size)) == size
  {
    PowerOfTwoMeaning(size);
    Log2Monotone(size, g.maxSlabSize);
  }

  lemma IndexOfPower(g: Config, k: nat)
    requires g.maxSlabSize > 0 && k <= Log2(g.maxSlabSize)
    ensures IndexFor(g, Pow2(k)) == Log2(g.maxSlabSize) - k
  {
    Log2Pow2(k);
  }

  lemma IndexOfSize(g: Config, i: nat)
    requires ConfigOk(g) && i <= Log2(g.maxSlabSize)
    ensures IndexFor(g, SizeAt(g, i)) == i && IsPowerOfTwo(SizeAt(g, i)) && SizeAt(g, i) <= g.maxSlabSize
  {
    var t := Log2(g.maxSlabSize);
    IndexOfPower(g, t - i);
    Pow2IsPowerOfTwo(t - i);
    Pow2Monotone(t - i, t);
  }

  function EnsureCache(cs: seq<Cache>, i: nat): (r: seq<Cache>)
    ensures |r| == if i < |cs| then |cs| else i + 1
  {
    if i < |cs| then cs else cs + seq(i + 1 - |cs|, _ => EmptyCache)
  }

  // ----- Invariant

  ghost predicate CacheInv(g: Config, cs: seq<Cache>, i: nat)
    requires ConfigOk(g) && i < |cs|
  {
    CacheOk(g, SizeAt(g, i), cs[i])
  }

  ghost predicate CachesOk(g: Config, cs: seq<Cache>)
    requires ConfigOk(g)
  {
    && |cs| <= Log2(g.maxSlabSize) + 1
    && forall i: nat {:trigger CacheInv(g, cs, i)} :: i < |cs| ==> CacheInv(g, cs, i)
  }

  ghost predicate LiveHandle(cs: seq<Cache>, h: Handle) {
    h.cache < |cs| && LiveAt(cs[h.cache], h.slab, h.block)
  }

  ghost function RangeOf(cs: seq<Cache>, i: nat, k: nat): Option<Range> {
    if i < |cs| then RangeAt(cs[i], k) else None
  }

  predicate Apart(a: Range, b: Range) {
    a.memory != b.memory || a.offset + a.size <= b.offset || b.offset + b.size <= a.offset
  }

  ghost predicate SlabsApart(cs: seq<Cache>, i: nat, k: nat, j: nat, l: nat) {
    (i, k) != (j, l) && RangeOf(cs, i, k).Some? && RangeOf(cs, j, l).Some? ==>
      Apart(RangeOf(cs, i, k).value, RangeOf(cs, j, l).value)
  }

  /** Slabs hold disjoint bytes. */
  ghost predicate RangesOk(cs: seq<Cache>) {
    forall i: nat, k: nat, j: nat, l: nat {:trigger SlabsApart(cs, i, k, j, l)} :: SlabsApart(cs, i, k, j, l)
  }

  ghost predicate Inv(g: Config, s: State) {
    && ConfigOk(g) && CachesOk(g, s.caches) && RangesOk(s.caches)
    && (forall h {:trigger LiveHandle(s.caches, h)} :: h in s.live <==> LiveHandle(s.caches, h))
    && s.usedCount == |s.live| && s.usedBytes == |s.live| * g.blockSize
  }

  /** No block and no memory changes hands. */
  ghost predicate Keeps(cs: seq<Cache>, cs': seq<Cache>) {
    && (forall i: nat, k: nat {:trigger RangeOf(cs', i, k)} :: RangeOf(cs', i, k) == RangeOf(cs, i, k))
    && (forall h {:trigger LiveHandle(cs', h)} :: LiveHandle(cs', h) <==> LiveHandle(cs, h))
  }

  lemma KeepsTwice(a: seq<Cache>, b: seq<Cache>, c: seq<Cache>)
    requires Keeps(a, b) && Keeps(b, c)
    ensures Keeps(a, c)
  {
    forall i: nat, k: nat
      ensures RangeOf(c, i, k) == RangeOf(a, i, k)
    {
      assert RangeOf(c, i, k) == RangeOf(b, i, k);
    }
    forall h
      ensures LiveHandle(c, h) <==> LiveHandle(a, h)
    {
      assert LiveHandle(c, h) <==> LiveHandle(b, h);
    }
  }

  lemma EnsureCacheOk(g: Config, cs: seq<Cache>, i: nat, cs': seq<Cache>)
    requires ConfigOk(g) && CachesOk(g, cs) && i <= Log2(g.maxSlabSize) && cs' == EnsureCache(cs, i)
    ensures CachesOk(g, cs') && i < |cs'| && Keeps(cs, cs') && |cs| <= |cs'|
    ensures forall j: nat :: j < |cs'| ==> cs'[j] == if j < |cs| then cs[j] else EmptyCache
  {
    forall j: nat | j < |cs'|
      ensures CacheInv(g, cs', j)
    {
      assert j < |cs| ==> CacheInv(g, cs, j);
    }
  }

  /** Replacing one cache by one in order. */
  lemma PutCacheOk(g: Config, cs: seq<Cache>, i: nat, c: Cache, cs': seq<Cache>)
    requires ConfigOk(g) && CachesOk(g, cs) && i < |cs| && CacheOk(g, SizeAt(g, i), c) && cs' == cs[i := c]
    ensures CachesOk(g, cs')
  {
    forall j: nat | j < |cs'|
      ensures CacheInv(g, cs', j)
    {
      assert j != i ==> CacheInv(g, cs, j);
    }
  }

  // ----- Slab sizes

  function FitFor(g: Config, size: nat): Fit { Fit(size, g.blockSize, g.limitNum, g.limitDen) }

  /** The memory size of the last free slab of a cache, if it has memory of that size. */
  function Reusable(c: Cache, size: nat): Option<nat> {
    if c.free == [] || c.free[|c.free| - 1].None? then None
    else
      var r := c.free[|c.free| - 1].value.range;
      if r.Some? && r.value.size >= size then Some(r.value.size) else None
  }

  /** The first reusable slab from cache `i` on, larger sizes first. */
  function FindFree(cs: seq<Cache>, size: nat, i: nat): Option<nat>
    requires i <= |cs|
    decreases |cs| - i
  {
    if i == |cs| then None
    else if Reusable(cs[i], size).Some? then Reusable(cs[i], size)
    else FindFree(cs, size, i + 1)
  }

  function ComputeSlabSize(g: Config, cs: seq<Cache>, size: nat, base: nat, available: nat): Option<nat>
    requires ConfigOk(g) && size <= g.blockSize && base > 0
  {
    var n := NewSlabSize(FitFor(g, size), base);
    if available < n then FindFree(cs, size, 0) else Some(n)
  }

  /** A size that a slab of this allocator can have. */
  ghost predicate SlabSize(g: Config, n: nat)
    requires ConfigOk(g)
  {
    IsPowerOfTwo(n) && g.blockSize <= n <= g.maxSlabSize
  }

  /** Every power of two that is acceptable for requests of `size` holds a block. */
  ghost predicate HoldsBlock(g: Config, size: nat)
    requires size <= g.blockSize
  {
    forall r: nat {:trigger Acceptable(FitFor(g, size), r)} ::
      IsPowerOfTwo(r) && Acceptable(FitFor(g, size), r) ==> g.blockSize <= r
  }

  /** The slabs that a request may lead to have blocks, as the source asserts of all slabs. */
  ghost predicate Carvable(g: Config, a: Ask) { a.size <= g.blockSize ==> HoldsBlock(g, a.size) }

  /** A block size that is the request rounded up to its alignment is carvable,
      with a fragmentation limit below one. */
  lemma RoundedIsCarvable(g: Config, a: Ask)
    requires ConfigOk(g) && g.limitNum < g.limitDen && IsPowerOfTwo(a.alignment) &&
             g.blockSize == AlignTo(a.size, a.alignment)
    ensures Carvable(g, a) && IsAligned(g.blockSize, a.alignment)
  {
    AlignToMeaning(a.size, a.alignment);
    IsAlignedMeaning(g.blockSize, a.alignment);
    forall r: nat | IsPowerOfTwo(r) && Acceptable(FitFor(g, a.size), r)
      ensures g.blockSize <= r
    {
      SlabHoldsABlock(FitFor(g, a.size), a.alignment, r);
    }
  }

  /** With a limit of one it need not be: a slab of 32 bytes is acceptable for a
      request of 32 bytes whose block has 64. */
  lemma LimitOneIsTooHigh() returns (g: Config, a: Ask)
    ensures ConfigOk(g) && g.limitNum == g.limitDen && IsPowerOfTwo(a.alignment)
    ensures g.blockSize == AlignTo(a.size, a.alignment) && !Carvable(g, a)
    ensures NewSlabSize(FitFor(g, a.size), 1) < g.blockSize
  {
    g, a := Config(64, 64, 1, 1, 1, 1, 1, 1), Ask(32, 64, 0);
    var f := FitFor(g, 32);
    assert Doubled(f, 32) == 32 && Doubled(f, 16) == 32 && Doubled(f, 8) == 32;
    assert Doubled(f, 4) == 32 && Doubled(f, 2) == 32 && Doubled(f, 1) == 32;
  }

  /** The condition is exact: otherwise some slab would be smaller than a block. */
  lemma CarvableIff(g: Config, size: nat)
    requires ConfigOk(g) && size <= g.blockSize
    ensures HoldsBlock(g, size) <==> forall base: nat :: base > 0 ==> g.blockSize <= NewSlabSize(FitFor(g, size), base)
  {
    var f := FitFor(g, size);
    Pow2IsPowerOfTwo(0);
    forall base: nat | base > 0
      ensures IsPowerOfTwo(NewSlabSize(f, base)) && Acceptable(f, NewSlabSize(f, base))
    {
      NewSlabSizeMeaning(f, base, 1);
    }
    forall r: nat | IsPowerOfTwo(r) && Acceptable(f, r)
      ensures NewSlabSize(f, r) == r
    {
      NextOfPower(r);
    }
  }

  /** The size of a slab to reuse is that of its cache, and it is at least what was asked for. */
  lemma {:induction false} FindFreeOk(g: Config, cs: seq<Cache>, size: nat, i: nat)
    requires ConfigOk(g) && CachesOk(g, cs) && i <= |cs| && FindFree(cs, size, i).Some?
    ensures var n := FindFree(cs, size, i).value;
            && SlabSize(g, n) && n >= size && IndexFor(g, n) < |cs| && cs[IndexFor(g, n)].free != []
    decreases |cs| - i
  {
    if Reusable(cs[i], size).Some? {
      ReusableOk(g, cs, size, i);
    } else {
      FindFreeOk(g, cs, size, i + 1);
    }
  }

  lemma ReusableOk(g: Config, cs: seq<Cache>, size: nat, i: nat)
    requires ConfigOk(g) && CachesOk(g, cs) && i < |cs| && Reusable(cs[i], size).Some?
    ensures var n := Reusable(cs[i], size).value;
            SlabSize(g, n) && n >= size && IndexFor(g, n) == i && cs[i].free != []
  {
    assert CacheInv(g, cs, i);
    var c := cs[i];
    HomeOf(c, BackPlace(c));
    var slab := SlabAt(c, BackPlace(c)).value;
    assert ContentOk(g, SizeAt(g, i), c, slab.indexInCache);
    IndexOfSize(g, i);
    FitsOnce(g.blockSize, SizeAt(g, i));
  }

  lemma FitsOnce(d: nat, n: nat)
    requires d > 0
    ensures n / d > 0 <==> d <= n
  {
    if d <= n {
      DivModUnique(n, d, n / d, n % d);
    } else {
      DivModUnique(n, d, 0, n);
    }
  }

  /** Whatever its base, the chosen size holds a block; it can only be too large. */
  lemma ComputeSlabSizeOk(g: Config, cs: seq<Cache>, a: Ask, base: nat)
    requires ConfigOk(g) && CachesOk(g, cs) && Carvable(g, a) && a.size <= g.blockSize && base > 0
    requires ComputeSlabSize(g, cs, a.size, base, a.available).Some?
    ensures var n := ComputeSlabSize(g, cs, a.size, base, a.available).value;
            IsPowerOfTwo(n) && (n <= g.maxSlabSize ==> SlabSize(g, n))
  {
    var f := FitFor(g, a.size);
    var n := NewSlabSize(f, base);
    if a.available < n {
      FindFreeOk(g, cs, a.size, 0);
    } else {
      Pow2IsPowerOfTwo(0);
      NewSlabSizeMeaning(f, base, 1);
    }
  }

  /** With memory available, the chosen size is a power of two not below the base,
      within the fragmentation limit and aligned. */
  lemma ComputeSlabSizeMeaning(g: Config, cs: seq<Cache>, size: nat, base: nat, available: nat)
    requires ConfigOk(g) && size <= g.blockSize && base >= g.slabAlignment > 0
    requires available >= NewSlabSize(FitFor(g, size), base)
    ensures ComputeSlabSize(g, cs, size, base, available).Some?
    ensures var n := ComputeSlabSize(g, cs, size, base, available).value;
            && IsPowerOfTwo(n) && base <= n && size <= n && n % g.slabAlignment == 0
            && (g.blockSize - size) * g.limitDen <= g.limitNum * n
  {
    NewSlabSizeMeaning(FitFor(g, size), base, g.slabAlignment);
  }
}
