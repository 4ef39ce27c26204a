/** The slab cache allocator as an object: SlabCacheAllocator in
    src/gpgmm/common/SlabMemoryAllocator.cpp over src/gpgmm/common/MemoryCache.h. */
module SlabCacheMemory {
  import opened Options
  import opened Math
  import opened StableLists
  import opened Requests
  import opened SlabSpec
  import opened SlabOperations
  import opened SlabSystem
  import opened SlabAllocation
  import opened SlabTheorems
  import opened SlabMemory
  import opened SizeCache
  import opened SizeCacheTheorems

  /** A cache entry; `pinned` records whether it was created to be kept alive. */
  datatype CacheEntry = CacheEntry(refs: nat, pinned: bool, allocator: SlabMemoryAllocator)

  /** A pair of entries has two allocators. */
  ghost predicate EntriesDiffer(cache: map<nat, CacheEntry>, k: nat, l: nat) {
    k in cache && l in cache && k != l ==> cache[k].allocator != cache[l].allocator
  }

  lemma ServedForm(g: Config, key: nat, e: Entry, a: Ask, source: Source, s: State, r: Option<Allocation>)
    requires Inv(For(g, key), e.slabs) && a.alignment > 0 && Carvable(For(g, key), a)
    requires (s, r) == TryAllocate(For(g, key), e.slabs, a, source)
    ensures Served(g, key, e, a, source) == (Entry(if r.Some? then e.refs + 1 else e.refs, e.pinned, s), r)
  {
  }

  lemma SetTwice(c: Cached, key: nat, s: State, n: nat, c1: Cached, c2: Cached)
    requires key in c.entries && c1 == SetEntry(c, key, c.entries[key].(slabs := s))
    requires key in c1.entries && c2 == SetEntry(c1, key, c1.entries[key].(refs := n))
    ensures c2 == SetEntry(c, key, Entry(n, c.entries[key].pinned, s))
  {
  }

  lemma SetSame(c: Cached, key: nat)
    requires key in c.entries
    ensures SetEntry(c, key, c.entries[key]) == c
  {
    assert c.entries[key := c.entries[key]] == c.entries;
  }

  class SlabCacheAllocator {
    const config: Config
    var cache: map<nat, CacheEntry>
    var hits: nat
    var misses: nat
    ghost var repr: set<SlabMemoryAllocator>
    ghost var view: Cached

    /** An entry and its own slab allocator are what `view` says. */
    ghost predicate EntryTied(k: nat)
      reads this, repr
    {
      && k in cache && k in view.entries && cache[k].allocator in repr && cache[k].allocator.config == For(config, k)
      && view.entries[k] == Entry(cache[k].refs, cache[k].pinned, cache[k].allocator.View())
    }

    ghost predicate EntriesTied()
      reads this, repr
    {
      && view.entries.Keys == cache.Keys
      && (forall k {:trigger EntryTied(k)} :: k in cache ==> EntryTied(k))
      && (forall k, l {:trigger EntriesDiffer(cache, k, l)} :: EntriesDiffer(cache, k, l))
    }

    ghost predicate Tied()
      reads this, repr
    {
      EntriesTied() && view.hits == hits && view.misses == misses
    }

    ghost predicate Valid()
      reads this, repr
    {
      BaseOk(config) && Tied() && SizeCacheInv(config, view)
    }

    constructor (config: Config)
      requires BaseOk(config)
      ensures Valid() && this.config == config && view == Cached(map[], 0, 0) && repr == {}
    {
      this.config, cache, hits, misses := config, map[], 0, 0;
      repr, view := {}, Cached(map[], 0, 0);
    }

    // ----- Entries and their references

    method SetRefs(key: nat, n: nat)
      requires EntriesTied() && key in cache
      modifies this`cache, this`view
      ensures EntriesTied() && cache.Keys == old(cache).Keys && cache[key] == old(cache)[key].(refs := n)
      ensures key in old(view).entries && view == SetEntry(old(view), key, old(view).entries[key].(refs := n))
    {
      assert EntryTied(key);
      cache := cache[key := cache[key].(refs := n)];
      view := SetEntry(view, key, view.entries[key].(refs := n));
      forall k | k in cache
        ensures EntryTied(k)
      {
        assert old(EntryTied(k));
      }
      assert forall k, l :: old(EntriesDiffer(cache, k, l)) ==> EntriesDiffer(cache, k, l);
    }

    method AddEntry(key: nat, e: CacheEntry)
      requires EntriesTied() && key !in cache && e.allocator !in repr && e.allocator.config == For(config, key)
      modifies this`cache, this`view, this`repr
      ensures EntriesTied() && repr == old(repr) + {e.allocator} && cache == old(cache)[key := e]
      ensures view == SetEntry(old(view), key, Entry(e.refs, e.pinned, e.allocator.View()))
    {
      cache := cache[key := e];
      repr := repr + {e.allocator};
      view := SetEntry(view, key, Entry(e.refs, e.pinned, e.allocator.View()));
      forall k | k in cache
        ensures EntryTied(k)
      {
        assert k != key ==> old(EntryTied(k));
      }
      forall k, l
        ensures EntriesDiffer(cache, k, l)
      {
        assert old(EntriesDiffer(cache, k, l));
        assert k in old(cache) ==> old(EntryTied(k));
        assert l in old(cache) ==> old(EntryTied(l));
      }
    }

    method RemoveCacheEntry(key: nat)
      requires EntriesTied() && key in cache
      modifies this`cache, this`view
      ensures EntriesTied() && cache == old(cache) - {key} && view == old(view).(entries := old(view).entries - {key})
    {
      cache := cache - {key};
      view := view.(entries := view.entries - {key});
      forall k | k in cache
        ensures EntryTied(k)
      {
        assert old(EntryTied(k));
      }
      assert forall k, l :: old(EntriesDiffer(cache, k, l)) ==> EntriesDiffer(cache, k, l);
    }

    /** Finds or creates the entry of a block size and holds a reference to it. */
    method GetOrCreate(key: nat, keepAlive: bool)
      requires Tied() && ConfigOk(For(config, key))
      modifies this
      ensures Tied() && old(repr) <= repr && fresh(repr - old(repr))
      ensures view == Acquire(old(view), key, keepAlive) && key in cache
    {
      if key in cache {
        assert EntryTied(key);
        SetRefs(key, cache[key].refs + 1);
        CountLookup(true);
      } else {
        var a := new SlabMemoryAllocator(For(config, key));
        AddEntry(key, CacheEntry(if keepAlive then 2 else 1, keepAlive, a));
        CountLookup(false);
      }
    }

    method CountLookup(hit: bool)
      requires Tied()
      modifies this`hits, this`misses, this`view
      ensures Tied()
      ensures view == if hit then old(view).(hits := old(view).hits + 1) else old(view).(misses := old(view).misses + 1)
    {
      if hit {
        hits := hits + 1;
      } else {
        misses := misses + 1;
      }
      view := view.(hits := hits, misses := misses);
      forall k | k in cache
        ensures EntryTied(k)
      {
        assert old(EntryTied(k));
      }
    }

    /** Drops a reference; the last one removes the entry. */
    method Unref(key: nat)
      requires Tied() && key in view.entries && view.entries[key].refs > 0
      modifies this`cache, this`view
      ensures Tied() && view == Release(old(view), key)
    {
      assert EntryTied(key);
      if cache[key].refs == 1 {
        RemoveCacheEntry(key);
      } else {
        SetRefs(key, cache[key].refs - 1);
      }
    }

    // ----- Allocations

    /** After a change inside the slab allocator of entry `key`. */
    ghost method Retie(key: nat, was: Cached)
      requires key in cache && cache[key].allocator in repr && cache[key].allocator.config == For(config, key)
      requires view == was && view.entries.Keys == cache.Keys && view.hits == hits && view.misses == misses
      requires view.entries[key].refs == cache[key].refs && view.entries[key].pinned == cache[key].pinned
      requires forall k {:trigger EntryTied(k)} :: k in cache && k != key ==> EntryTied(k)
      requires forall k, l {:trigger EntriesDiffer(cache, k, l)} :: EntriesDiffer(cache, k, l)
      modifies this`view
      ensures Tied() && view == SetEntry(was, key, was.entries[key].(slabs := cache[key].allocator.View()))
    {
      view := SetEntry(view, key, view.entries[key].(slabs := cache[key].allocator.View()));
      forall k | k in cache
        ensures EntryTied(k)
      {
        assert k != key ==> old(EntryTied(k));
      }
    }

    /** Takes a block from the slab allocator of entry `key`, which it then holds on to. */
    method Serve(key: nat, a: Ask, source: Source) returns (r: Option<Allocation>)
      requires Tied() && key in view.entries && Inv(For(config, key), view.entries[key].slabs)
      requires a.alignment > 0 && Carvable(For(config, key), a) && SourceOk(view.entries[key].slabs.caches, source)
      modifies this`cache, this`view, repr
      ensures Tied()
      ensures var (e, x) := Served(config, key, old(view).entries[key], a, source);
              r == x && view == SetEntry(old(view), key, e)
    {
      ghost var v := view;
      r := TakeBlockFor(key, a, source);
      ghost var s := view.entries[key].slabs;
      ServedForm(config, key, v.entries[key], a, source, s, r);
      ghost var v1 := view;
      HoldOn(key, r.Some?);
      SetTwice(v, key, s, if r.Some? then v.entries[key].refs + 1 else v.entries[key].refs, v1, view);
    }

    /** An allocated block refers to the entry. */
    method HoldOn(key: nat, taken: bool)
      requires Tied() && key in view.entries
      modifies this`cache, this`view
      ensures Tied()
      ensures var e := old(view).entries[key];
              view == SetEntry(old(view), key, e.(refs := if taken then e.refs + 1 else e.refs))
    {
      SetSame(view, key);
      assert EntryTied(key);
      if taken {
        SetRefs(key, cache[key].refs + 1);
      }
    }

    method TakeBlockFor(key: nat, a: Ask, source: Source) returns (r: Option<Allocation>)
      requires Tied() && key in view.entries && Inv(For(config, key), view.entries[key].slabs)
      requires a.alignment > 0 && Carvable(For(config, key), a) && SourceOk(view.entries[key].slabs.caches, source)
      modifies this`view, repr
      ensures Tied() && EntryTied(key)
      ensures var (s, x) := TryAllocate(For(config, key), old(view).entries[key].slabs, a, source);
              r == x && view == SetEntry(old(view), key, old(view).entries[key].(slabs := s))
    {
      assert EntryTied(key);
      ghost var was := view;
      r := cache[key].allocator.TryAllocateMemory(a, source);
      OthersStillTied(key);
      Retie(key, was);
      assert EntryTied(key);
    }

    twostate lemma OthersStillTied(key: nat)
      requires old(Tied()) && key in cache && cache[key].allocator in repr && unchanged(this)
      requires unchanged(repr - {cache[key].allocator})
      ensures forall k {:trigger EntryTied(k)} :: k in cache && k != key ==> EntryTied(k)
    {
      forall k | k in cache && k != key
        ensures EntryTied(k)
      {
        assert old(EntryTied(k)) && EntriesDiffer(cache, k, key);
      }
    }

    method TryAllocateMemory(r: Request, memorySize: nat, memoryAlignment: nat, source: Source)
      returns (x: Option<CachedAllocation>)
      requires Valid() && WellFormed(r) && Servable(config, r, memorySize, memoryAlignment)
      requires SharedSourceOk(view, source) && forall n: nat :: source(n).Some? ==> source(n).value.size == n
      modifies this, repr
      ensures Valid() && old(repr) <= repr && fresh(repr - old(repr))
      ensures (view, x) == TryAllocateCached(config, old(view), r, memorySize, memoryAlignment, source)
    {
      if !ValidateRequest(r, memorySize, memoryAlignment) {
        return None;
      }
      var blockSize := AlignTo(r.size, r.alignment);
      if blockSize > config.maxSlabSize {
        return None;
      }
      ghost var was := view;
      KeyForOk(config, r, memorySize, memoryAlignment);
      var a := ServeFromEntry(blockSize, r, source);
      x := if a.Some? then Some(CachedAllocation(blockSize, a.value)) else None;
      TryAllocateCachedOk(config, was, r, memorySize, memoryAlignment, source, view, x);
    }

    /** The entry is held for the duration of the call. */
    method ServeFromEntry(key: nat, r: Request, source: Source) returns (a: Option<Allocation>)
      requires Valid() && WellFormed(r) && SharedSourceOk(view, source) && KeyOk(config, key) &&
               Carvable(For(config, key), AskOf(r))
      requires forall n: nat :: source(n).Some? ==> source(n).value.size == n
      modifies this, repr
      ensures Tied() && old(repr) <= repr && fresh(repr - old(repr))
      ensures HeldInv(config, Acquire(old(view), key, r.alwaysCacheSize), key, 1)
      ensures var c := Acquire(old(view), key, r.alwaysCacheSize);
              var (e, x) := Served(config, key, c.entries[key], AskOf(r), source);
              a == x && view == Release(SetEntry(c, key, e), key)
    {
      ghost var c := Acquire(view, key, r.alwaysCacheSize);
      AcquireOk(config, view, key, r.alwaysCacheSize, c);
      AcquiredSourceOk(config, view, key, r.alwaysCacheSize, source, c);
      GetOrCreate(key, r.alwaysCacheSize);
      a := Serve(key, AskOf(r), source);
      Unref(key);
    }

    method DeallocateMemory(key: nat, h: Handle) returns (freed: Option<Range>)
      requires Valid() && LiveIn(view, key, h)
      modifies this, repr
      ensures Valid() && old(repr) <= repr && fresh(repr - old(repr))
      ensures (view, freed) == DeallocateCached(config, old(view), key, h)
    {
      ghost var was := view;
      assert EntryInv(config, key, was.entries[key], 0);
      GetOrCreate(key, false);
      assert view.entries[key].refs > 1;
      freed := Return(key, h);
      Unref(key);
      DeallocateCachedOk(config, was, key, h, view, freed);
    }

    /** Returns a block to the slab allocator of entry `key` and drops its reference. */
    method Return(key: nat, h: Handle) returns (freed: Option<Range>)
      requires Tied() && key in view.entries && Inv(For(config, key), view.entries[key].slabs)
      requires h in view.entries[key].slabs.live && view.entries[key].refs > 0
      modifies this`cache, this`view, repr
      ensures Tied()
      ensures var (e, x) := Returned(config, key, old(view).entries[key], h);
              freed == x && view == SetEntry(old(view), key, e)
    {
      ghost var v := view;
      freed := ReturnBlockFor(key, h);
      ghost var v1 := view;
      SetRefs(key, cache[key].refs - 1);
      SetTwice(v, key, v1.entries[key].slabs, v.entries[key].refs - 1, v1, view);
    }

    method ReturnBlockFor(key: nat, h: Handle) returns (freed: Option<Range>)
      requires Tied() && key in view.entries && Inv(For(config, key), view.entries[key].slabs)
      requires h in view.entries[key].slabs.live
      modifies this`view, repr
      ensures Tied() && EntryTied(key)
      ensures var (s, x) := Deallocate(For(config, key), old(view).entries[key].slabs, h);
              freed == x && view == SetEntry(old(view), key, old(view).entries[key].(slabs := s))
    {
      assert EntryTied(key);
      ghost var was := view;
      freed := cache[key].allocator.DeallocateMemory(h);
      OthersStillTied(key);
      Retie(key, was);
      assert EntryTied(key);
    }
  }
}
