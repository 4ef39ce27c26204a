/** What the slab cache allocator guarantees over every run. */
module SizeCacheTheorems {
  import opened Options
  import opened Math
  import opened StableLists
  import opened Requests
  import opened SlabSizing
  import opened SlabSpec
  import opened SlabOperations
  import opened SlabSystem
  import opened SlabAllocation
  import opened SlabTheorems
  import opened SlabServing
  import opened SizeCache

  /** The cache entry after serving a request, next to the other entries. */
  lemma ServedOk(g: Config, c: Cached, key: nat, a: Ask, source: Source, e: Entry, r: Option<Allocation>)
    requires HeldInv(g, c, key, 1) && a.alignment > 0 && Carvable(For(g, key), a) && SharedSourceOk(c, source)
    requires Inv(For(g, key), c.entries[key].slabs) && (e, r) == Served(g, key, c.entries[key], a, source)
    ensures EntryInv(g, key, e, 1) && HeldInv(g, SetEntry(c, key, e), key, 1) && e.pinned == c.entries[key].pinned
    ensures if r.Some? then Allocates(For(g, key), c.entries[key].slabs, e.slabs, r.value)
            else Unchanged(c.entries[key].slabs, e.slabs)
  {
    var s := c.entries[key].slabs;
    TryAllocateOk(For(g, key), s, a, source, e.slabs, r);
    forall k | k in c.entries && k != key
      ensures StatesApart(e.slabs, c.entries[k].slabs)
    {
      EntryStatesApart(c, key, k);
      GrownApart(s, e.slabs, c.entries[k].slabs, source);
    }
    PutEntryOk(g, c, key, e, 1, SetEntry(c, key, e));
  }

  lemma GrownApart(s: State, s': State, o: State, source: Source)
    requires StatesApart(s, o) && GrowsFrom(s.caches, s'.caches, source) && SourceOk(o.caches, source)
    ensures StatesApart(s', o)
  {
    forall i: nat, k: nat, j: nat, l: nat
      ensures RangesApart(RangeOf(s'.caches, i, k), RangeOf(o.caches, j, l)) &&
              RangesApart(RangeOf(o.caches, j, l), RangeOf(s'.caches, i, k))
    {
      var x, y := RangeOf(s'.caches, i, k), RangeOf(o.caches, j, l);
      if x.Some? && x == RangeOf(s.caches, i, k) {
        assert RangesApart(RangeOf(s.caches, i, k), y);
      } else if x.Some? {
        var n: nat :| source(n) == x;
      }
    }
  }

  lemma AcquiredSourceOk(g: Config, c: Cached, key: nat, keepAlive: bool, source: Source, c': Cached)
    requires SizeCacheInv(g, c) && SharedSourceOk(c, source) && c' == Acquire(c, key, keepAlive)
    requires forall n: nat :: source(n).Some? ==> source(n).value.size == n
    ensures SharedSourceOk(c', source)
  {
    forall k | k in c'.entries
      ensures SourceOk(c'.entries[k].slabs.caches, source)
    {
      assert k in c.entries ==> SourceOk(c.entries[k].slabs.caches, source);
    }
  }

  /** A request is served with a block that was free, or nothing changes hands;
      either way the entries that remain are those in use or pinned. */
  lemma TryAllocateCachedOk(g: Config, c: Cached, r: Request, memorySize: nat, memoryAlignment: nat, source: Source,
                            c': Cached, x: Option<CachedAllocation>)
    requires BaseOk(g) && SizeCacheInv(g, c) && WellFormed(r) && Servable(g, r, memorySize, memoryAlignment)
    requires SharedSourceOk(c, source)
    requires forall n: nat :: source(n).Some? ==> source(n).value.size == n
    requires (c', x) == TryAllocateCached(g, c, r, memorySize, memoryAlignment, source)
    ensures SizeCacheInv(g, c')
    ensures x.Some? ==>
              !LiveIn(c, x.value.key, x.value.allocation.handle) && x.value.key == AlignTo(r.size, r.alignment)
    ensures forall k, h :: LiveIn(c', k, h) <==>
            LiveIn(c, k, h) || (x.Some? && k == x.value.key && h == x.value.allocation.handle)
    ensures c'.hits + c'.misses == c.hits + c.misses + if KeyFor(g, r, memorySize, memoryAlignment).Some? then 1 else 0
  {
    var k := KeyFor(g, r, memorySize, memoryAlignment);
    if k.Some? {
      var key := k.value;
      KeyForOk(g, r, memorySize, memoryAlignment);
      var c1 := Acquire(c, key, r.alwaysCacheSize);
      AcquireOk(g, c, key, r.alwaysCacheSize, c1);
      AcquiredSourceOk(g, c, key, r.alwaysCacheSize, source, c1);
      var (e, a) := Served(g, key, c1.entries[key], AskOf(r), source);
      ServeAndRelease(g, c1, key, AskOf(r), source, e, a, c');
    }
  }

  lemma ServeAndRelease(g: Config, c: Cached, key: nat, a: Ask, source: Source, e: Entry, r: Option<Allocation>,
                        c': Cached)
    requires HeldInv(g, c, key, 1) && a.alignment > 0 && Carvable(For(g, key), a) && SharedSourceOk(c, source)
    requires Inv(For(g, key), c.entries[key].slabs) && (e, r) == Served(g, key, c.entries[key], a, source)
    requires e.refs > 0 && c' == Release(SetEntry(c, key, e), key)
    ensures SizeCacheInv(g, c') && c'.hits == c.hits && c'.misses == c.misses
    ensures r.Some? ==> !LiveIn(c, key, r.value.handle)
    ensures forall k: nat, h :: LiveIn(c', k, h) <==> LiveIn(c, k, h) || (r.Some? && k == key && h == r.value.handle)
  {
    var c1 := SetEntry(c, key, e);
    ServedOk(g, c, key, a, source, e, r);
    ServedLive(g, c, key, e, r, c1);
    ReleaseOk(g, c1, key, c');
  }

  lemma ServedLive(g: Config, c: Cached, key: nat, e: Entry, r: Option<Allocation>, c1: Cached)
    requires key in c.entries && c1 == SetEntry(c, key, e)
    requires if r.Some? then Allocates(For(g, key), c.entries[key].slabs, e.slabs, r.value)
             else Unchanged(c.entries[key].slabs, e.slabs)
    ensures r.Some? ==> !LiveIn(c, key, r.value.handle)
    ensures forall k: nat, h ::
      LiveIn(c1, k, h) <==> LiveIn(c, k, h) || (r.Some? && k == key && h == r.value.handle)
  {
  }

  /** The slabs for one block size, before any of its requests if it has no entry. */
  ghost function SlabsFor(c: Cached, key: nat): State {
    if key in c.entries then c.entries[key].slabs else Initial
  }

  /** The cache after its slabs for `key` have become `s`, and a block of them may be taken. */
  ghost function Reentered(c: Cached, key: nat, keepAlive: bool, taken: bool, s: State): Cached {
    var c1 := Acquire(c, key, keepAlive);
    var e := c1.entries[key];
    var e' := Entry(if taken then e.refs + 1 else e.refs, e.pinned, s);
    if e'.refs > 0 then Release(SetEntry(c1, key, e'), key) else c1
  }

  /** The call as a chain: the entry is acquired, serves, and is released. */
  lemma CachedChain(g: Config, c: Cached, r: Request, memorySize: nat, memoryAlignment: nat, source: Source,
                    c': Cached, x: Option<CachedAllocation>, key: nat)
    returns (c1: Cached, e: Entry, a: Option<Allocation>)
    requires BaseOk(g) && SizeCacheInv(g, c) && WellFormed(r) && Servable(g, r, memorySize, memoryAlignment)
    requires (c', x) == TryAllocateCached(g, c, r, memorySize, memoryAlignment, source)
    requires KeyFor(g, r, memorySize, memoryAlignment) == Some(key)
    ensures KeyOk(g, key) && c1 == Acquire(c, key, r.alwaysCacheSize) && Inv(For(g, key), c1.entries[key].slabs)
    ensures (e, a) == Served(g, key, c1.entries[key], AskOf(r), source) && c1.entries[key].refs > 0 && e.refs > 0
    ensures c' == Release(SetEntry(c1, key, e), key) && x == if a.Some? then Some(CachedAllocation(key, a.value))
            else None
    ensures c1.entries[key].slabs == SlabsFor(c, key)
  {
    KeyForOk(g, r, memorySize, memoryAlignment);
    c1 := Acquire(c, key, r.alwaysCacheSize);
    AcquireOk(g, c, key, r.alwaysCacheSize, c1);
    e, a := Served(g, key, c1.entries[key], AskOf(r), source).0, Served(g, key, c1.entries[key], AskOf(r), source).1;
  }

  lemma ServedEntry(g: Config, key: nat, e0: Entry, a: Ask, source: Source, e: Entry, r: Option<Allocation>)
    requires Inv(For(g, key), e0.slabs) && a.alignment > 0 && Carvable(For(g, key), a)
    requires (e, r) == Served(g, key, e0, a, source)
    ensures (e.slabs, r) == TryAllocate(For(g, key), e0.slabs, a, source)
    ensures e == Entry(if r.Some? then e0.refs + 1 else e0.refs, e0.pinned, e.slabs)
  {
  }

  lemma CachedForm(g: Config, c: Cached, r: Request, memorySize: nat, memoryAlignment: nat, source: Source,
                   c': Cached, x: Option<CachedAllocation>, key: nat) returns (s: State)
    requires BaseOk(g) && SizeCacheInv(g, c) && WellFormed(r) && Servable(g, r, memorySize, memoryAlignment)
    requires (c', x) == TryAllocateCached(g, c, r, memorySize, memoryAlignment, source)
    requires KeyFor(g, r, memorySize, memoryAlignment) == Some(key)
    ensures Inv(For(g, key), SlabsFor(c, key)) && KeyOk(g, key)
    ensures var a := TryAllocate(For(g, key), SlabsFor(c, key), AskOf(r), source);
            a.0 == s && x == if a.1.Some? then Some(CachedAllocation(key, a.1.value)) else None
    ensures c' == Reentered(c, key, r.alwaysCacheSize, x.Some?, s)
  {
    var c1, e, a := CachedChain(g, c, r, memorySize, memoryAlignment, source, c', x, key);
    ServedEntry(g, key, c1.entries[key], AskOf(r), source, e, a);
    s := e.slabs;
  }

  /** Exactly when the cache serves: the request is accepted and its block is not too
      large, and the slab allocator for the block size, new if there is none, serves. */
  lemma CachedServedIff(g: Config, c: Cached, r: Request, memorySize: nat, memoryAlignment: nat, source: Source)
    requires BaseOk(g) && SizeCacheInv(g, c) && WellFormed(r) && Servable(g, r, memorySize, memoryAlignment)
    requires SharedSourceOk(c, source) && forall n: nat :: source(n).Some? ==> source(n).value.size == n
    ensures var key := AlignTo(r.size, r.alignment);
            TryAllocateCached(g, c, r, memorySize, memoryAlignment, source).1.Some? <==>
            && ValidateRequest(r, memorySize, memoryAlignment) && key <= g.maxSlabSize && KeyOk(g, key)
            && exists n: nat, m: nat :: Serves(For(g, key), SlabsFor(c, key), AskOf(r), source, n, m)
  {
    var (c', x) := TryAllocateCached(g, c, r, memorySize, memoryAlignment, source);
    if KeyFor(g, r, memorySize, memoryAlignment).Some? {
      var key := AlignTo(r.size, r.alignment);
      var s1 := CachedForm(g, c, r, memorySize, memoryAlignment, source, c', x, key);
      SourceForSlabs(g, c, key, source);
      var (s, a) := TryAllocate(For(g, key), SlabsFor(c, key), AskOf(r), source);
      ServedIff(For(g, key), SlabsFor(c, key), AskOf(r), source, s, a);
    }
  }

  lemma SourceForSlabs(g: Config, c: Cached, key: nat, source: Source)
    requires SharedSourceOk(c, source) && forall n: nat :: source(n).Some? ==> source(n).value.size == n
    ensures SourceOk(SlabsFor(c, key).caches, source)
  {
    if key in c.entries {
      assert SourceOk(c.entries[key].slabs.caches, source);
    }
  }

  /** With memory available, a request is refused only if it is not accepted, its
      block is too large, or the slab that it needs is. */
  lemma CachedRefusedOnlyForSize(g: Config, c: Cached, r: Request, memorySize: nat, memoryAlignment: nat,
                                 source: Source, key: nat, n: nat)
    requires BaseOk(g) && SizeCacheInv(g, c) && WellFormed(r) && Servable(g, r, memorySize, memoryAlignment)
    requires SharedSourceOk(c, source) && forall k: nat :: source(k).Some? && source(k).value.size == k
    requires key == AlignTo(r.size, r.alignment) >= r.size && BaseSize(g, SlabsFor(c, key).lastUsed) > 0
    requires n == NewSlabSize(FitFor(For(g, key), r.size), BaseSize(g, SlabsFor(c, key).lastUsed)) && n > 0
    requires r.available >= n && r.available >= NewSlabSize(FitFor(For(g, key), r.size), Max(1, Grown(g, n)))
    ensures TryAllocateCached(g, c, r, memorySize, memoryAlignment, source).1.Some? <==>
            ValidateRequest(r, memorySize, memoryAlignment) && key <= g.maxSlabSize && n <= g.maxSlabSize
  {
    var (c', x) := TryAllocateCached(g, c, r, memorySize, memoryAlignment, source);
    if KeyFor(g, r, memorySize, memoryAlignment).Some? {
      var s := CachedForm(g, c, r, memorySize, memoryAlignment, source, c', x, key);
      SourceForSlabs(g, c, key, source);
      AlignToMeaning(r.size, r.alignment);
      IsAlignedMeaning(key, r.alignment);
      RefusedOnlyForSize(For(g, key), SlabsFor(c, key), AskOf(r), source);
    }
  }

  /** What the call leaves of the entry: it is kept if its block size was in use or
      pinned before, is pinned by the request, or is in use now; whether it is pinned
      is decided when it is created. The lookup counts as a hit or a miss. */
  lemma CachedEntry(g: Config, c: Cached, r: Request, memorySize: nat, memoryAlignment: nat, source: Source,
                    c': Cached, x: Option<CachedAllocation>, key: nat)
    requires BaseOk(g) && SizeCacheInv(g, c) && WellFormed(r) && Servable(g, r, memorySize, memoryAlignment)
    requires (c', x) == TryAllocateCached(g, c, r, memorySize, memoryAlignment, source)
    ensures KeyFor(g, r, memorySize, memoryAlignment).None? ==> c' == c && x == None
    ensures KeyFor(g, r, memorySize, memoryAlignment) == Some(key) ==>
              && (key in c'.entries <==> key in c.entries || r.alwaysCacheSize || x.Some?)
              && (key in c'.entries ==>
                    c'.entries[key].pinned == if key in c.entries then c.entries[key].pinned else r.alwaysCacheSize)
              && c'.hits == c.hits + (if key in c.entries then 1 else 0)
              && c'.misses == c.misses + (if key in c.entries then 0 else 1)
    ensures forall k :: KeyFor(g, r, memorySize, memoryAlignment) != Some(k) ==>
              (k in c'.entries <==> k in c.entries) && (k in c.entries ==> c'.entries[k] == c.entries[k])
  {
    if KeyFor(g, r, memorySize, memoryAlignment).Some? {
      var k := AlignTo(r.size, r.alignment);
      var s := CachedForm(g, c, r, memorySize, memoryAlignment, source, c', x, k);
      assert k in c.entries ==> EntryInv(g, k, c.entries[k], 0);
      ReleasedEntry(c, k, r.alwaysCacheSize, x.Some?, s, c');
    }
  }

  lemma ReleasedEntry(c: Cached, key: nat, keepAlive: bool, taken: bool, s: State, c': Cached)
    requires key in c.entries ==> c.entries[key].refs > 0
    requires c' == Reentered(c, key, keepAlive, taken, s)
    ensures key in c'.entries <==> key in c.entries || keepAlive || taken
    ensures key in c'.entries ==>
              c'.entries[key].pinned == if key in c.entries then c.entries[key].pinned else keepAlive
    ensures c'.hits == c.hits + (if key in c.entries then 1 else 0)
    ensures c'.misses == c.misses + (if key in c.entries then 0 else 1)
    ensures forall k :: k != key ==>
              (k in c'.entries <==> k in c.entries) && (k in c.entries ==> c'.entries[k] == c.entries[k])
  {
  }

  /** Deallocation always finds the entry. The entry goes when its last allocation
      goes, unless it is pinned, and then it holds no memory. */
  lemma DeallocateCachedOk(g: Config, c: Cached, key: nat, h: Handle, c': Cached, freed: Option<Range>)
    requires SizeCacheInv(g, c) && LiveIn(c, key, h) && (c', freed) == DeallocateCached(g, c, key, h)
    ensures SizeCacheInv(g, c') && c'.hits == c.hits + 1 && c'.misses == c.misses
    ensures forall k: nat, x :: LiveIn(c', k, x) <==> LiveIn(c, k, x) && (k != key || x != h)
    ensures key !in c'.entries <==> c.entries[key].slabs.live == {h} && !c.entries[key].pinned
    ensures key in c'.entries ==> c'.entries[key].pinned == c.entries[key].pinned
    ensures Inv(For(g, key), c.entries[key].slabs)
    ensures freed == Deallocate(For(g, key), c.entries[key].slabs, h).1
    ensures key !in c'.entries ==>
      forall i: nat, k: nat :: RangeOf(Deallocate(For(g, key), c.entries[key].slabs, h).0.caches, i, k).None?
  {
    assert EntryInv(g, key, c.entries[key], 0);
    var c1 := Acquire(c, key, false);
    AcquireOk(g, c, key, false, c1);
    var (e, f) := Returned(g, key, c1.entries[key], h);
    ReturnedOk(g, c1, key, h, e, f);
    var c2 := SetEntry(c1, key, e);
    ReleaseOk(g, c2, key, c');
    assert e.slabs.live == {} <==> c.entries[key].slabs.live == {h};
    if key !in c'.entries {
      forall i: nat, k: nat
        ensures RangeOf(e.slabs.caches, i, k).None?
      {
        NoLiveNoMemory(For(g, key), e.slabs, i, k);
      }
    }
  }

  lemma ReturnedOk(g: Config, c: Cached, key: nat, h: Handle, e: Entry, freed: Option<Range>)
    requires HeldInv(g, c, key, 1) && h in c.entries[key].slabs.live
    requires Inv(For(g, key), c.entries[key].slabs) && (e, freed) == Returned(g, key, c.entries[key], h)
    ensures HeldInv(g, SetEntry(c, key, e), key, 1) && e.pinned == c.entries[key].pinned
    ensures e.slabs.live == c.entries[key].slabs.live - {h} && Inv(For(g, key), e.slabs)
  {
    var s := c.entries[key].slabs;
    DeallocateOk(For(g, key), s, h, e.slabs, freed);
    forall k | k in c.entries && k != key
      ensures StatesApart(e.slabs, c.entries[k].slabs)
    {
      EntryStatesApart(c, key, k);
      ShrunkApart(s, e.slabs, c.entries[k].slabs);
    }
    PutEntryOk(g, c, key, e, 1, SetEntry(c, key, e));
  }

  lemma ShrunkApart(s: State, s': State, o: State)
    requires StatesApart(s, o)
    requires forall i: nat, k: nat {:trigger RangeOf(s'.caches, i, k)} ::
               RangeOf(s'.caches, i, k).None? || RangeOf(s'.caches, i, k) == RangeOf(s.caches, i, k)
    ensures StatesApart(s', o)
  {
    forall i: nat, k: nat, j: nat, l: nat
      ensures RangesApart(RangeOf(s'.caches, i, k), RangeOf(o.caches, j, l)) &&
              RangesApart(RangeOf(o.caches, j, l), RangeOf(s'.caches, i, k))
    {
      assert RangesApart(RangeOf(s.caches, i, k), RangeOf(o.caches, j, l)) &&
             RangesApart(RangeOf(o.caches, j, l), RangeOf(s.caches, i, k));
    }
  }

  // ----- Runs

  datatype Op =
    | Alloc(request: Request, memorySize: nat, memoryAlignment: nat, source: Source)
    | Free(key: nat, handle: Handle)

  ghost predicate Legal(g: Config, c: Cached, op: Op) {
    && SizeCacheInv(g, c)
    && match op
       case Alloc(r, size, alignment, source) =>
         && WellFormed(r) && Servable(g, r, size, alignment) && SharedSourceOk(c, source)
         && forall n: nat :: source(n).Some? ==> source(n).value.size == n
       case Free(key, h) => LiveIn(c, key, h)
  }

  ghost function Step(g: Config, c: Cached, op: Op): Cached
    requires BaseOk(g) && Legal(g, c, op)
  {
    match op
    case Alloc(r, size, alignment, source) => TryAllocateCached(g, c, r, size, alignment, source).0
    case Free(key, h) => DeallocateCached(g, c, key, h).0
  }

  ghost predicate Reaches(g: Config, c: Cached, ops: seq<Op>, c': Cached)
    requires BaseOk(g)
    decreases |ops|
  {
    if ops == [] then c' == c
    else Legal(g, c, ops[0]) && Reaches(g, Step(g, c, ops[0]), ops[1..], c')
  }

  lemma StepInv(g: Config, c: Cached, op: Op, c': Cached)
    requires BaseOk(g) && Legal(g, c, op) && c' == Step(g, c, op)
    ensures SizeCacheInv(g, c')
  {
    match op
    case Alloc(r, size, alignment, source) =>
      TryAllocateCachedOk(g, c, r, size, alignment, source, c', TryAllocateCached(g, c, r, size, alignment, source).1);
    case Free(key, h) =>
      DeallocateCachedOk(g, c, key, h, c', DeallocateCached(g, c, key, h).1);
  }

  lemma {:induction false} RunInv(g: Config, c: Cached, ops: seq<Op>, c': Cached)
    requires BaseOk(g) && SizeCacheInv(g, c) && Reaches(g, c, ops, c')
    ensures SizeCacheInv(g, c')
    decreases |ops|
  {
    if ops != [] {
      StepInv(g, c, ops[0], Step(g, c, ops[0]));
      RunInv(g, Step(g, c, ops[0]), ops[1..], c');
    }
  }

  const Empty := Cached(map[], 0, 0)

  /** In every reachable state an entry exists exactly for the block sizes in use and
      the pinned ones, referenced once by each of its allocations and once more if
      it is pinned. */
  lemma RunSafety(g: Config, ops: seq<Op>, c: Cached, key: nat)
    requires BaseOk(g) && Reaches(g, Empty, ops, c)
    ensures key in c.entries <==> (exists h :: LiveIn(c, key, h)) || (key in c.entries && c.entries[key].pinned)
    ensures key in c.entries ==>
              c.entries[key].refs == |c.entries[key].slabs.live| + if c.entries[key].pinned then 1 else 0
  {
    RunInv(g, Empty, ops, c);
    if key in c.entries {
      assert EntryInv(g, key, c.entries[key], 0);
      if !c.entries[key].pinned {
        var h :| h in c.entries[key].slabs.live;
        assert LiveIn(c, key, h);
      }
    }
  }

  /** In every reachable state blocks in use are disjoint, within one entry and across entries. */
  lemma RunApart(g: Config, ops: seq<Op>, c: Cached, key: nat, h: Handle, key': nat, h': Handle)
    requires BaseOk(g) && Reaches(g, Empty, ops, c)
    requires LiveIn(c, key, h) && LiveIn(c, key', h') && (key, h) != (key', h')
    ensures RangeOf(c.entries[key].slabs.caches, h.cache, h.slab).Some?
    ensures RangeOf(c.entries[key'].slabs.caches, h'.cache, h'.slab).Some?
    ensures Apart(BlockRange(For(g, key), c.entries[key].slabs, h), BlockRange(For(g, key'), c.entries[key'].slabs, h'))
  {
    RunInv(g, Empty, ops, c);
    assert EntryInv(g, key, c.entries[key], 0) && EntryInv(g, key', c.entries[key'], 0);
    LiveBlockInside(For(g, key), c.entries[key].slabs, h);
    LiveBlockInside(For(g, key'), c.entries[key'].slabs, h');
    if key == key' {
      LiveBlocksApart(For(g, key), c.entries[key].slabs, h, h');
    } else {
      EntryStatesApart(c, key, key');
      assert RangesApart(RangeOf(c.entries[key].slabs.caches, h.cache, h.slab),
                         RangeOf(c.entries[key'].slabs.caches, h'.cache, h'.slab));
    }
  }

  // ----- Clearing

  /** Clearing drops one reference of every entry. */
  function Clear(c: Cached): Cached {
    c.(entries := map key | key in c.entries && c.entries[key].refs != 1 ::
      c.entries[key].(refs := if c.entries[key].refs > 0 then c.entries[key].refs - 1 else 0))
  }

  /** Clearing leaves nothing behind exactly when every entry has one reference
      left: after all allocations are returned, only pinned entries remain and
      they all go. */
  lemma ClearEmpties(g: Config, c: Cached)
    requires SizeCacheInv(g, c)
    ensures Clear(c).entries == map[] <==> forall key :: key in c.entries ==> c.entries[key].refs == 1
    ensures (forall key :: key in c.entries ==> c.entries[key].slabs.live == {}) ==> Clear(c).entries == map[]
    ensures forall key :: key in Clear(c).entries ==>
              && key in c.entries && Clear(c).entries[key].slabs == c.entries[key].slabs
              && Clear(c).entries[key].refs + 1 == c.entries[key].refs
  {
    forall key | key in c.entries
      ensures c.entries[key].slabs.live == {} ==> c.entries[key].refs == 1
      ensures key in Clear(c).entries <==> c.entries[key].refs != 1
      ensures c.entries[key].refs > 0
    {
      assert EntryInv(g, key, c.entries[key], 0);
    }
  }
}
