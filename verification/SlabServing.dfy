/** Exactly when the slab allocator serves a request, and from slabs of which size. */
module SlabServing {
  import opened Options
  import opened Math
  import opened StableLists
  import opened SlabBlocks
  import opened SlabSizing
  import opened SlabSpec
  import opened SlabOperations
  import opened SlabSystem
  import opened SlabAllocation

  // ----- Slabs that can be used again

  /** The last free slab of the cache has `n` bytes of memory, at least `size`. */
  ghost predicate CanReuse(c: Cache, size: nat, n: nat) {
    BackHasMemory(c) && SlabAt(c, BackPlace(c)).value.range.value.size == n >= size
  }

  /** Cache `i` is the first, so the one with the largest slabs, that has such a slab. */
  ghost predicate FirstReuse(cs: seq<Cache>, size: nat, i: nat, n: nat) {
    && i < |cs| && CanReuse(cs[i], size, n)
    && forall j: nat, m: nat {:trigger CanReuse(cs[j], size, m)} :: j < i ==> !CanReuse(cs[j], size, m)
  }

  lemma ReusableMeaning(c: Cache, size: nat, n: nat)
    ensures Reusable(c, size) == Some(n) <==> CanReuse(c, size, n)
  {
  }

  lemma {:induction false} FindFreeFrom(cs: seq<Cache>, size: nat, k: nat) returns (i: nat)
    requires k <= |cs|
    ensures k <= i <= |cs| && forall j: nat, m: nat {:trigger CanReuse(cs[j], size, m)} ::
            k <= j < i ==> !CanReuse(cs[j], size, m)
    ensures FindFree(cs, size, k) == if i < |cs| then Reusable(cs[i], size) else None
    ensures i < |cs| ==> Reusable(cs[i], size).Some?
    decreases |cs| - k
  {
    if k == |cs| || Reusable(cs[k], size).Some? {
      i := k;
    } else {
      i := FindFreeFrom(cs, size, k + 1);
      forall m: nat
        ensures !CanReuse(cs[k], size, m)
      {
        ReusableMeaning(cs[k], size, m);
      }
    }
  }

  /** The search finds the first cache with a slab to use again, if there is any. */
  lemma FindFreeMeaning(cs: seq<Cache>, size: nat, n: nat)
    ensures FindFree(cs, size, 0) == Some(n) <==> exists i: nat :: FirstReuse(cs, size, i, n)
  {
    var i := FindFreeFrom(cs, size, 0);
    if i < |cs| {
      ReusableMeaning(cs[i], size, Reusable(cs[i], size).value);
      assert FirstReuse(cs, size, i, Reusable(cs[i], size).value);
    }
    if j: nat :| FirstReuse(cs, size, j, n) {
      if i < |cs| {
        OneFirst(cs, size, i, Reusable(cs[i], size).value, j, n);
      }
    }
  }

  lemma OneFirst(cs: seq<Cache>, size: nat, i: nat, n: nat, j: nat, m: nat)
    requires FirstReuse(cs, size, i, n) && FirstReuse(cs, size, j, m)
    ensures i == j && n == m
  {
  }

  // ----- The size of a slab

  /** The slab size for a request: the one computed from `base` if that much memory is
      available, else that of the first slab to use again. */
  ghost predicate Sized(g: Config, cs: seq<Cache>, a: Ask, base: nat, n: nat)
    requires ConfigOk(g) && a.size <= g.blockSize && base > 0
  {
    var wanted := NewSlabSize(FitFor(g, a.size), base);
    if wanted <= a.available then n == wanted else exists i: nat :: FirstReuse(cs, a.size, i, n)
  }

  lemma ComputeSlabSizeIff(g: Config, cs: seq<Cache>, a: Ask, base: nat, n: nat)
    requires ConfigOk(g) && a.size <= g.blockSize && base > 0
    ensures ComputeSlabSize(g, cs, a.size, base, a.available) == Some(n) <==> Sized(g, cs, a, base, n)
  {
    FindFreeMeaning(cs, a.size, n);
  }

  /** Caches that are added empty have nothing to use again. */
  lemma SizedInMore(g: Config, cs: seq<Cache>, i: nat, a: Ask, base: nat, n: nat)
    requires ConfigOk(g) && a.size <= g.blockSize && base > 0
    ensures Sized(g, EnsureCache(cs, i), a, base, n) <==> Sized(g, cs, a, base, n)
  {
    var cs' := EnsureCache(cs, i);
    forall j: nat
      ensures FirstReuse(cs', a.size, j, n) <==> FirstReuse(cs, a.size, j, n)
    {
      forall l: nat, m: nat | l < |cs'|
        ensures CanReuse(cs'[l], a.size, m) <==> l < |cs| && CanReuse(cs[l], a.size, m)
      {
      }
    }
  }

  ghost predicate HasFree(g: Config, cs: seq<Cache>, n: nat)
    requires ConfigOk(g) && n > 0
  {
    IndexFor(g, n) < |cs| && cs[IndexFor(g, n)].free != []
  }

  /** How many slabs of size `n` are full. */
  ghost function FullSlabs(g: Config, cs: seq<Cache>, n: nat): nat
    requires ConfigOk(g) && n > 0
  {
    if IndexFor(g, n) < |cs| then Occupied(cs[IndexFor(g, n)].full) else 0
  }

  /** The size of the slab that serves, when slabs of size `n` are wanted: that of a
      free slab, or else of a new one, which is larger only if enough slabs of size
      `n` are full to fill it. */
  ghost predicate ServedSize(g: Config, s: State, a: Ask, n: nat, m: nat)
    requires ConfigOk(g) && a.size <= g.blockSize && n > 0
  {
    if HasFree(g, s.caches, n) || s.lastUsed == 0 then m == n
    else
      GrownIsLarger(g, n);
      exists q: nat :: Sized(g, s.caches, a, Grown(g, n), q) && m == Growth(g, s, n, q)
  }

  ghost function Growth(g: Config, s: State, n: nat, q: nat): nat
    requires ConfigOk(g) && n > 0
  {
    if n < q <= g.maxSlabSize && FullSlabs(g, s.caches, n) >= q / n then q else n
  }

  /** There is memory for the slab: its own, or new memory from the next allocator. */
  ghost predicate HasMemory(g: Config, s: State, n: nat, m: nat, source: Source)
    requires ConfigOk(g) && n > 0
  {
    if HasFree(g, s.caches, n) then BackHasMemory(s.caches[IndexFor(g, n)]) || source(n).Some?
    else source(m).Some?
  }

  /** A slab of size `m` serves the request, where slabs of size `n` are wanted. */
  ghost predicate Serves(g: Config, s: State, a: Ask, source: Source, n: nat, m: nat)
    requires ConfigOk(g)
  {
    && a.size <= g.blockSize && a.alignment > 0 && IsAligned(g.blockSize, a.alignment)
    && BaseSize(g, s.lastUsed) > 0 && Sized(g, s.caches, a, BaseSize(g, s.lastUsed), n) && 0 < n <= g.maxSlabSize
    && ServedSize(g, s, a, n, m) && HasMemory(g, s, n, m, source)
  }

  // ----- When a request is served

  /** The size chosen when no slab of size `n` is free. */
  lemma NextSizeMeaning(g: Config, s: State, cs1: seq<Cache>, n: nat, a: Ask, m: nat)
    requires ConfigOk(g) && CachesOk(g, s.caches) && Carvable(g, a) && a.size <= g.blockSize && SlabSize(g, n)
    requires cs1 == EnsureCache(s.caches, IndexFor(g, n)) && !HasFree(g, s.caches, n)
    requires IndexFor(g, n) < |cs1|
    ensures NextSize(g, cs1, s.lastUsed, n, a) == Some(m) <==> ServedSize(g, s, a, n, m)
  {
    if s.lastUsed > 0 {
      GrownIsLarger(g, n);
      var q := ComputeSlabSize(g, cs1, a.size, Grown(g, n), a.available);
      if q.Some? {
        ComputeSlabSizeIff(g, cs1, a, Grown(g, n), q.value);
        SizedInMore(g, s.caches, IndexFor(g, n), a, Grown(g, n), q.value);
        GrowthIsNextSize(g, s, cs1, n, a, q.value);
      }
      forall x: nat
        ensures Sized(g, s.caches, a, Grown(g, n), x) <==> q == Some(x)
      {
        ComputeSlabSizeIff(g, cs1, a, Grown(g, n), x);
        SizedInMore(g, s.caches, IndexFor(g, n), a, Grown(g, n), x);
      }
    }
  }

  lemma GrowthIsNextSize(g: Config, s: State, cs1: seq<Cache>, n: nat, a: Ask, q: nat)
    requires ConfigOk(g) && a.size <= g.blockSize && SlabSize(g, n) && s.lastUsed > 0 && IndexFor(g, n) < |cs1|
    requires cs1 == EnsureCache(s.caches, IndexFor(g, n)) && Grown(g, n) > 0
    requires ComputeSlabSize(g, cs1, a.size, Grown(g, n), a.available) == Some(q)
    ensures NextSize(g, cs1, s.lastUsed, n, a) == Some(Growth(g, s, n, q))
  {
    assert Occupied(EmptyCache.full) == 0;
    assert Occupied(cs1[IndexFor(g, n)].full) == FullSlabs(g, s.caches, n);
  }

  /** The slab to take a block from has the size that serves. */
  lemma PrepareMeaning(g: Config, s: State, cs1: seq<Cache>, n: nat, a: Ask, m: nat)
    requires ConfigOk(g) && CachesOk(g, s.caches) && CachesOk(g, cs1) && Carvable(g, a) && a.size <= g.blockSize
    requires SlabSize(g, n) && cs1 == EnsureCache(s.caches, IndexFor(g, n)) && IndexFor(g, n) < |cs1|
    ensures var p := Prepare(g, cs1, s.lastUsed, n, a);
            p.Some? && p.value.1 == m <==> ServedSize(g, s, a, n, m)
  {
    if !HasFree(g, s.caches, n) {
      NextSizeMeaning(g, s, cs1, n, a, m);
      var x := NextSize(g, cs1, s.lastUsed, n, a);
      if x.Some? {
        NextSizeOk(g, cs1, s.lastUsed, n, a);
      }
    }
  }

  /** It has memory, or the next allocator has, exactly if there is memory to serve. */
  lemma PreparedMemory(g: Config, s: State, cs1: seq<Cache>, n: nat, a: Ask, cs2: seq<Cache>, m: nat, source: Source)
    requires ConfigOk(g) && a.size <= g.blockSize && n > 0 && m > 0
    requires cs1 == EnsureCache(s.caches, IndexFor(g, n)) && IndexFor(g, n) < |cs1|
    requires Prepare(g, cs1, s.lastUsed, n, a) == Some((cs2, m)) && IndexFor(g, m) < |cs2|
    ensures BackHasMemory(cs2[IndexFor(g, m)]) || source(m).Some? <==> HasMemory(g, s, n, m, source)
  {
    if !HasFree(g, s.caches, n) {
      NewSlabHasNoMemory(g, cs1, m);
    }
  }

  lemma TryAllocateForm(g: Config, s: State, a: Ask, source: Source, n: nat, s1: State)
    requires Inv(g, s) && a.alignment > 0 && Carvable(g, a) && a.size <= g.blockSize && n <= g.maxSlabSize
    requires ComputeSlabSize(g, s.caches, a.size, BaseSize(g, s.lastUsed), a.available) == Some(n)
    requires s1 == SizedState(g, s, a, n)
    ensures s1 == s.(caches := EnsureCache(s.caches, IndexFor(g, n)))
    ensures var p := Prepare(g, s1.caches, s.lastUsed, n, a);
            && (p.None? ==> TryAllocate(g, s, a, source) == (s1, None))
            && (p.Some? ==>
                  && CanTake(g, p.value.0, p.value.1)
                  && TryAllocate(g, s, a, source) == TakeBlockOf(g, s1.(caches := p.value.0), p.value.1, a, source))
  {
    var p := Prepare(g, s1.caches, s.lastUsed, n, a);
    if p.Some? {
      PreparedState(g, s1, n, a, p.value.0, p.value.1);
    }
  }

  /** There is a free slab of size `m`. */
  ghost predicate CanTake(g: Config, cs: seq<Cache>, m: nat)
    requires ConfigOk(g)
  {
    m > 0 && IndexFor(g, m) < |cs| && Shape(cs[IndexFor(g, m)]) && cs[IndexFor(g, m)].free != []
  }

  /** Whether a block is taken, when slabs of size `n` are wanted. */
  lemma ServedAt(g: Config, s: State, a: Ask, source: Source, n: nat, s': State, r: Option<Allocation>)
    requires Inv(g, s) && a.alignment > 0 && Carvable(g, a) && a.size <= g.blockSize && SourceOk(s.caches, source)
    requires ComputeSlabSize(g, s.caches, a.size, BaseSize(g, s.lastUsed), a.available) == Some(n)
    requires 0 < n <= g.maxSlabSize && (s', r) == TryAllocate(g, s, a, source)
    ensures r.Some? <==>
              IsAligned(g.blockSize, a.alignment) &&
              exists m: nat :: ServedSize(g, s, a, n, m) && HasMemory(g, s, n, m, source)
    ensures r.Some? ==>
              && ServedSize(g, s, a, n, s'.lastUsed) && HasMemory(g, s, n, s'.lastUsed, source)
              && s'.lastUsed > 0 && r.value.handle.cache == IndexFor(g, s'.lastUsed)
  {
    var s1 := SizedState(g, s, a, n);
    var p := Prepare(g, s1.caches, s.lastUsed, n, a);
    TryAllocateForm(g, s, a, source, n, s1);
    forall m: nat
      ensures p.Some? && p.value.1 == m <==> ServedSize(g, s, a, n, m)
    {
      PrepareMeaning(g, s, s1.caches, n, a, m);
    }
    if p.Some? {
      TakenAt(g, s, s1, a, source, n, p.value.0, p.value.1, s', r);
    }
  }

  lemma TakenAt(g: Config, s: State, s1: State, a: Ask, source: Source, n: nat, cs: seq<Cache>, m: nat,
                s': State, r: Option<Allocation>)
    requires Inv(g, s) && Inv(g, s1) && Unchanged(s, s1) && SourceOk(s.caches, source)
    requires a.alignment > 0 && Carvable(g, a) && a.size <= g.blockSize && SlabSize(g, n)
    requires s1 == s.(caches := EnsureCache(s.caches, IndexFor(g, n))) && IndexFor(g, n) < |s1.caches|
    requires Prepare(g, s1.caches, s.lastUsed, n, a) == Some((cs, m))
    requires CanTake(g, cs, m) && (s', r) == TakeBlockOf(g, s1.(caches := cs), m, a, source)
    ensures r.Some? <==> IsAligned(g.blockSize, a.alignment) && HasMemory(g, s, n, m, source)
    ensures m > 0 && (r.Some? ==> s'.lastUsed == m && r.value.handle.cache == IndexFor(g, m))
  {
    PreparedState(g, s1, n, a, cs, m);
    KeepsTwice(s.caches, s1.caches, cs);
    SourceStillOk(s.caches, cs, source);
    TakeBlockOfOk(g, s1.(caches := cs), m, a, source, s', r);
    PreparedMemory(g, s, s1.caches, n, a, cs, m, source);
  }

  lemma NewSlabHasNoMemory(g: Config, cs: seq<Cache>, m: nat)
    requires ConfigOk(g) && m > 0
    ensures IndexFor(g, m) < |WithNewSlab(g, cs, m)| && !BackHasMemory(WithNewSlab(g, cs, m)[IndexFor(g, m)])
  {
  }

  /** A request is served exactly if a slab size is found that is not too large, and a
      free slab of that size or a new one has memory; it is served from the slabs of
      that size. */
  lemma ServedIff(g: Config, s: State, a: Ask, source: Source, s': State, r: Option<Allocation>)
    requires Inv(g, s) && a.alignment > 0 && Carvable(g, a) && SourceOk(s.caches, source)
    requires (s', r) == TryAllocate(g, s, a, source)
    ensures r.Some? <==> exists n: nat, m: nat :: Serves(g, s, a, source, n, m)
    ensures r.Some? ==>
              && (exists n: nat :: Serves(g, s, a, source, n, s'.lastUsed))
              && s'.lastUsed > 0 && r.value.handle.cache == IndexFor(g, s'.lastUsed)
  {
    if a.size <= g.blockSize {
      var base := BaseSize(g, s.lastUsed);
      var c := ComputeSlabSize(g, s.caches, a.size, base, a.available);
      forall n: nat
        ensures Sized(g, s.caches, a, base, n) <==> c == Some(n)
      {
        ComputeSlabSizeIff(g, s.caches, a, base, n);
      }
      if c.Some? && c.value <= g.maxSlabSize {
        ComputeSlabSizeOk(g, s.caches, a, base);
        ServedAt(g, s, a, source, c.value, s', r);
        if r.Some? {
          assert Serves(g, s, a, source, c.value, s'.lastUsed);
        }
      }
    }
  }

  // ----- In particular

  /** With less memory available than a new slab needs, a request is served exactly if
      some cache has a last free slab with enough memory, whatever the next allocator
      has, and then from the first such cache. */
  lemma ReuseServes(g: Config, s: State, a: Ask, source: Source, s': State, r: Option<Allocation>)
    requires Inv(g, s) && a.alignment > 0 && Carvable(g, a) && a.size <= g.blockSize && SourceOk(s.caches, source)
    requires (s', r) == TryAllocate(g, s, a, source) && IsAligned(g.blockSize, a.alignment)
    requires BaseSize(g, s.lastUsed) > 0 && a.available < NewSlabSize(FitFor(g, a.size), BaseSize(g, s.lastUsed))
    ensures r.Some? <==> exists i: nat, n: nat :: FirstReuse(s.caches, a.size, i, n)
    ensures r.Some? ==> FirstReuse(s.caches, a.size, r.value.handle.cache, s'.lastUsed)
  {
    ServedIff(g, s, a, source, s', r);
    if i: nat, n: nat :| FirstReuse(s.caches, a.size, i, n) {
      ReuseIsFree(g, s, a, i, n);
      assert Serves(g, s, a, source, n, n);
    }
    if r.Some? {
      var n: nat :| Serves(g, s, a, source, n, s'.lastUsed);
      var i: nat :| FirstReuse(s.caches, a.size, i, n);
      ReuseIsFree(g, s, a, i, n);
    }
  }

  lemma ReuseIsFree(g: Config, s: State, a: Ask, i: nat, n: nat)
    requires Inv(g, s) && a.size <= g.blockSize && FirstReuse(s.caches, a.size, i, n)
    ensures 0 < n <= g.maxSlabSize && IndexFor(g, n) == i && HasFree(g, s.caches, n)
    ensures BackHasMemory(s.caches[IndexFor(g, n)])
  {
    ReusableMeaning(s.caches[i], a.size, n);
    ReusableOk(g, s.caches, a.size, i);
  }

  /** With memory available and no free slab of the wanted size `n`, the new slab that
      serves is larger exactly if an allocation was served before and enough slabs of
      size `n` are full to fill the larger one, which is not too large. */
  lemma GrowsIff(g: Config, s: State, a: Ask, source: Source, s': State, r: Option<Allocation>, n: nat, q: nat)
    requires Inv(g, s) && a.alignment > 0 && Carvable(g, a) && a.size <= g.blockSize && SourceOk(s.caches, source)
    requires (s', r) == TryAllocate(g, s, a, source) && r.Some?
    requires BaseSize(g, s.lastUsed) > 0 && n == NewSlabSize(FitFor(g, a.size), BaseSize(g, s.lastUsed)) && n > 0
    requires Grown(g, n) > 0 && q == NewSlabSize(FitFor(g, a.size), Grown(g, n))
    requires n <= a.available && q <= a.available && !HasFree(g, s.caches, n)
    ensures n < q <= g.maxSlabSize && s.lastUsed > 0 && FullSlabs(g, s.caches, n) >= q / n ==> s'.lastUsed == q
    ensures !(n < q <= g.maxSlabSize && s.lastUsed > 0 && FullSlabs(g, s.caches, n) >= q / n) ==> s'.lastUsed == n
  {
    ServedIff(g, s, a, source, s', r);
    var x: nat :| Serves(g, s, a, source, x, s'.lastUsed);
    assert x == n;
  }

  /** With a free slab of the wanted size, that serves. */
  lemma FreeSlabServes(g: Config, s: State, a: Ask, source: Source, s': State, r: Option<Allocation>, n: nat)
    requires Inv(g, s) && a.alignment > 0 && Carvable(g, a) && a.size <= g.blockSize && SourceOk(s.caches, source)
    requires (s', r) == TryAllocate(g, s, a, source) && BaseSize(g, s.lastUsed) > 0
    requires n == NewSlabSize(FitFor(g, a.size), BaseSize(g, s.lastUsed)) && 0 < n <= a.available && n <= g.maxSlabSize
    requires HasFree(g, s.caches, n)
    ensures r.Some? <==>
              IsAligned(g.blockSize, a.alignment) && (BackHasMemory(s.caches[IndexFor(g, n)]) || source(n).Some?)
    ensures r.Some? ==> s'.lastUsed == n
  {
    ServedIff(g, s, a, source, s', r);
    if IsAligned(g.blockSize, a.alignment) && HasMemory(g, s, n, n, source) {
      assert Serves(g, s, a, source, n, n);
    }
  }
}
