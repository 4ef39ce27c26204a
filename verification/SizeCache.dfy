/** The reference-counted cache of slab allocators, one per block size:
    SlabCacheAllocator in src/gpgmm/common/SlabMemoryAllocator.cpp,
    src/gpgmm/common/MemoryCache.h and src/gpgmm/utils/RefCount.h, as values. */
module SizeCache {
  import opened Options
  import opened Math
  import opened StableLists
  import opened Requests
  import opened SlabSpec
  import opened SlabOperations
  import opened SlabSystem
  import opened SlabAllocation
  import opened SlabTheorems

  /** `pinned` records whether the entry was created to be kept alive. */
  datatype Entry = Entry(refs: nat, pinned: bool, slabs: State)

  datatype Cached = Cached(entries: map<nat, Entry>, hits: nat, misses: nat)

  /** An allocation, with the block size under which its allocator is cached. */
  datatype CachedAllocation = CachedAllocation(key: nat, allocation: Allocation)

  /** The configuration of the slab allocator for one block size. */
  function For(g: Config, key: nat): Config { g.(blockSize := key) }

  // ----- The cache

  /** Looks an entry up, or creates it, and holds a reference to it for the call. */
  function Acquire(c: Cached, key: nat, keepAlive: bool): (r: Cached)
    ensures key in r.entries
  {
    if key in c.entries then
      c.(hits := c.hits + 1, entries := c.entries[key := c.entries[key].(refs := c.entries[key].refs + 1)])
    else
      c.(misses := c.misses + 1, entries := c.entries[key := Entry(if keepAlive then 2 else 1, keepAlive, Initial)])
  }

  function SetEntry(c: Cached, key: nat, e: Entry): Cached { c.(entries := c.entries[key := e]) }

  /** Drops a reference; an entry without references removes itself. */
  function Release(c: Cached, key: nat): Cached
    requires key in c.entries && c.entries[key].refs > 0
  {
    var e := c.entries[key];
    if e.refs == 1 then c.(entries := c.entries - {key}) else SetEntry(c, key, e.(refs := e.refs - 1))
  }

  // ----- Allocating and returning

  /** Which cached allocator serves a request, if any. */
  function KeyFor(g: Config, r: Request, memorySize: nat, memoryAlignment: nat): Option<nat>
    requires WellFormed(r)
  {
    if !ValidateRequest(r, memorySize, memoryAlignment) then None
    else if AlignTo(r.size, r.alignment) > g.maxSlabSize then None
    else Some(AlignTo(r.size, r.alignment))
  }

  function AskOf(r: Request): Ask { Ask(r.size, r.alignment, r.available) }

  /** The entry after an allocation: a served request holds on to it. */
  function Served(g: Config, key: nat, e: Entry, a: Ask, source: Source): (Entry, Option<Allocation>)
    requires Inv(For(g, key), e.slabs) && a.alignment > 0 && Carvable(For(g, key), a)
  {
    var (s, r) := TryAllocate(For(g, key), e.slabs, a, source);
    (Entry(if r.Some? then e.refs + 1 else e.refs, e.pinned, s), r)
  }

  // ----- Invariant

  /** Block sizes that may be cached. */
  ghost predicate KeyOk(g: Config, key: nat) { ConfigOk(For(g, key)) }

  /** `held`: references held by the call in progress. */
  ghost predicate EntryInv(g: Config, key: nat, e: Entry, held: nat) {
    && KeyOk(g, key) && Inv(For(g, key), e.slabs)
    && e.refs == |e.slabs.live| + (if e.pinned then 1 else 0) + held && e.refs > 0
  }

  ghost predicate EntriesApart(c: Cached, key: nat, other: nat)
    requires key in c.entries && other in c.entries
  {
    key != other ==> forall i: nat, k: nat, j: nat, l: nat
      {:trigger RangeOf(c.entries[key].slabs.caches, i, k), RangeOf(c.entries[other].slabs.caches, j, l)} ::
      RangesApart(RangeOf(c.entries[key].slabs.caches, i, k), RangeOf(c.entries[other].slabs.caches, j, l))
  }

  ghost predicate RangesApart(a: Option<Range>, b: Option<Range>) {
    a.Some? && b.Some? ==> Apart(a.value, b.value)
  }

  ghost predicate AllApart(c: Cached) {
    forall key, other {:trigger EntriesApart(c, key, other)} ::
        key in c.entries && other in c.entries ==> EntriesApart(c, key, other)
  }

  /** An entry exists only while it is referenced: by its allocations, and by one
      reference of its own if it is pinned. Memory is never shared by entries. */
  ghost predicate SizeCacheInv(g: Config, c: Cached) {
    && (forall key {:trigger EntryInv(g, key, c.entries[key], 0)} ::
        key in c.entries ==> EntryInv(g, key, c.entries[key], 0))
    && AllApart(c)
  }

  /** The next allocator hands out memory apart from everything held. */
  ghost predicate SharedSourceOk(c: Cached, source: Source) {
    forall key {:trigger c.entries[key]} :: key in c.entries ==> SourceOk(c.entries[key].slabs.caches, source)
  }

  /** What the constructors assert of everything but the block size, with a positive
      fragmentation limit, without which sizing a slab need not end. */
  predicate BaseOk(g: Config) {
    && IsPowerOfTwo(g.maxSlabSize) && IsPowerOfTwo(g.slabAlignment) && g.slabAlignment <= g.minSlabSize
    && 0 < g.limitNum && 0 < g.limitDen && 0 < g.growthDen <= g.growthNum
  }

  /** A slab sized for the request holds a block, as the block allocator of a slab asserts. */
  ghost predicate Servable(g: Config, r: Request, memorySize: nat, memoryAlignment: nat)
    requires WellFormed(r)
  {
    var k := KeyFor(g, r, memorySize, memoryAlignment); k.Some? ==> Carvable(For(g, k.value), AskOf(r))
  }

  /** With a fragmentation limit below one, every request is servable. */
  lemma LowLimitServes(g: Config, r: Request, memorySize: nat, memoryAlignment: nat)
    requires BaseOk(g) && g.limitNum < g.limitDen && WellFormed(r)
    ensures Servable(g, r, memorySize, memoryAlignment)
  {
    if KeyFor(g, r, memorySize, memoryAlignment).Some? {
      KeyForOk(g, r, memorySize, memoryAlignment);
      RoundedIsCarvable(For(g, AlignTo(r.size, r.alignment)), AskOf(r));
    }
  }

  lemma KeyForOk(g: Config, r: Request, memorySize: nat, memoryAlignment: nat)
    requires BaseOk(g) && WellFormed(r) && KeyFor(g, r, memorySize, memoryAlignment).Some?
    ensures KeyOk(g, KeyFor(g, r, memorySize, memoryAlignment).value)
  {
    AlignToMeaning(r.size, r.alignment);
  }

  function TryAllocateCached(g: Config, c: Cached, r: Request, memorySize: nat, memoryAlignment: nat, source: Source)
    : (Cached, Option<CachedAllocation>)
    requires BaseOk(g) && SizeCacheInv(g, c) && WellFormed(r) && Servable(g, r, memorySize, memoryAlignment)
  {
    var k := KeyFor(g, r, memorySize, memoryAlignment);
    if k.None? then (c, None)
    else
      var key := k.value;
      KeyForOk(g, r, memorySize, memoryAlignment);
      AcquireOk(g, c, key, r.alwaysCacheSize, Acquire(c, key, r.alwaysCacheSize));
      var c1 := Acquire(c, key, r.alwaysCacheSize);
      var (e, a) := Served(g, key, c1.entries[key], AskOf(r), source);
      (Release(SetEntry(c1, key, e), key), if a.Some? then Some(CachedAllocation(key, a.value)) else None)
  }

  ghost predicate LiveIn(c: Cached, key: nat, h: Handle) {
    key in c.entries && h in c.entries[key].slabs.live
  }

  /** The entry after a block is returned: one reference less. */
  function Returned(g: Config, key: nat, e: Entry, h: Handle): (Entry, Option<Range>)
    requires Inv(For(g, key), e.slabs) && h in e.slabs.live && e.refs > 0
  {
    var (s, freed) := Deallocate(For(g, key), e.slabs, h);
    (Entry(e.refs - 1, e.pinned, s), freed)
  }

  function DeallocateCached(g: Config, c: Cached, key: nat, h: Handle): (Cached, Option<Range>)
    requires SizeCacheInv(g, c) && LiveIn(c, key, h)
  {
    assert EntryInv(g, key, c.entries[key], 0);
    var c1 := Acquire(c, key, false);
    var (e, freed) := Returned(g, key, c1.entries[key], h);
    (Release(SetEntry(c1, key, e), key), freed)
  }

  // ----- Preservation

  /** Everything in order but for the references of entry `key`, of which the call holds some. */
  ghost predicate HeldInv(g: Config, c: Cached, key: nat, held: nat) {
    && key in c.entries && EntryInv(g, key, c.entries[key], held) && AllApart(c)
    && forall k {:trigger EntryInv(g, k, c.entries[k], 0)} ::
       k in c.entries && k != key ==> EntryInv(g, k, c.entries[k], 0)
  }

  /** A change of entry `key` that adds no memory of another entry. */
  lemma PutEntryOk(g: Config, c: Cached, key: nat, e: Entry, held: nat, c': Cached)
    requires (forall k {:trigger EntryInv(g, k, c.entries[k], 0)} ::
              k in c.entries && k != key ==> EntryInv(g, k, c.entries[k], 0))
    requires AllApart(c) && EntryInv(g, key, e, held) && c'.entries == c.entries[key := e]
    requires forall k {:trigger c.entries[k]} :: k in c.entries && k != key ==> StatesApart(e.slabs, c.entries[k].slabs)
    ensures HeldInv(g, c', key, held)
  {
    forall k | k in c'.entries && k != key
      ensures EntryInv(g, k, c'.entries[k], 0)
    {
      assert EntryInv(g, k, c.entries[k], 0);
    }
    forall k, o | k in c'.entries && o in c'.entries
      ensures EntriesApart(c', k, o)
    {
      if k != o && k != key && o != key {
        assert EntriesApart(c, k, o);
      }
    }
  }

  ghost predicate StatesApart(a: State, b: State) {
    forall i: nat, k: nat, j: nat, l: nat {:trigger RangeOf(a.caches, i, k), RangeOf(b.caches, j, l)} ::
      RangesApart(RangeOf(a.caches, i, k), RangeOf(b.caches, j, l)) &&
          RangesApart(RangeOf(b.caches, j, l), RangeOf(a.caches, i, k))
  }

  lemma EntryStatesApart(c: Cached, key: nat, k: nat)
    requires AllApart(c) && key in c.entries && k in c.entries && k != key
    ensures StatesApart(c.entries[key].slabs, c.entries[k].slabs)
  {
    assert EntriesApart(c, key, k) && EntriesApart(c, k, key);
  }

  lemma AcquireOk(g: Config, c: Cached, key: nat, keepAlive: bool, c': Cached)
    requires SizeCacheInv(g, c) && KeyOk(g, key) && c' == Acquire(c, key, keepAlive)
    ensures HeldInv(g, c', key, 1)
    ensures forall k, h :: LiveIn(c', k, h) <==> LiveIn(c, k, h)
    ensures c'.entries[key].slabs == if key in c.entries then c.entries[key].slabs else Initial
  {
    assert key in c.entries ==> EntryInv(g, key, c.entries[key], 0);
    InitialInv(For(g, key));
    forall k | k in c.entries && k != key
      ensures StatesApart(c'.entries[key].slabs, c.entries[k].slabs)
    {
      if key in c.entries {
        EntryStatesApart(c, key, k);
      }
    }
    PutEntryOk(g, c, key, c'.entries[key], 1, c');
  }

  lemma ReleaseOk(g: Config, c: Cached, key: nat, c': Cached)
    requires HeldInv(g, c, key, 1) && c' == Release(c, key)
    ensures SizeCacheInv(g, c')
    ensures key in c'.entries <==> c.entries[key].slabs.live != {} || c.entries[key].pinned
    ensures forall k, h :: LiveIn(c', k, h) <==> LiveIn(c, k, h)
  {
    forall k | k in c'.entries
      ensures EntryInv(g, k, c'.entries[k], 0)
    {
      assert k != key ==> EntryInv(g, k, c.entries[k], 0);
    }
    forall k, o | k in c'.entries && o in c'.entries
      ensures EntriesApart(c', k, o)
    {
      assert EntriesApart(c, k, o);
    }
  }
}
