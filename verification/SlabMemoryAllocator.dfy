/** The slab allocator as an object that is updated in place:
    src/gpgmm/common/SlabMemoryAllocator.cpp. */
module SlabMemory {
  import opened Options
  import opened Math
  import opened StableLists
  import opened SlabBlocks
  import opened SlabSizing
  import opened SlabSpec
  import opened SlabOperations
  import opened SlabSystem
  import opened SlabAllocation

  class SlabMemoryAllocator {
    const config: Config
    var caches: seq<Cache>
    var lastUsedSlabSize: nat
    var usedBlockCount: int
    var usedBlockUsage: int
    ghost var live: set<Handle>

    ghost function View(): State
      reads this
    {
      State(caches, lastUsedSlabSize, usedBlockCount, usedBlockUsage, live)
    }

    ghost predicate Valid()
      reads this
    {
      Inv(config, View())
    }

    constructor (config: Config)
      requires ConfigOk(config)
      ensures Valid() && this.config == config && View() == State([], 0, 0, 0, {})
    {
      this.config, caches, lastUsedSlabSize, usedBlockCount, usedBlockUsage, live := config, [], 0, 0, 0, {};
      new;
      NothingApart();
    }

    method ComputeSlabSize(requestSize: nat, baseSlabSize: nat, available: nat) returns (slabSize: Option<nat>)
      requires ConfigOk(config) && requestSize <= config.blockSize && baseSlabSize > 0
      ensures slabSize == SlabSystem.ComputeSlabSize(config, caches, requestSize, baseSlabSize, available)
    {
      var size := DoubleUntilAcceptable(FitFor(config, requestSize), baseSlabSize);
      size := NextPowerOfTwo(size);
      if available < size {
        slabSize := FindNextFreeSlabOfSize(requestSize);
      } else {
        slabSize := Some(size);
      }
    }

    /** Larger slabs first. */
    method FindNextFreeSlabOfSize(slabSize: nat) returns (r: Option<nat>)
      ensures r == FindFree(caches, slabSize, 0)
    {
      for i := 0 to |caches|
        invariant FindFree(caches, slabSize, 0) == FindFree(caches, slabSize, i)
      {
        var free := caches[i].free;
        if free == [] || free[|free| - 1].None? {
          continue;
        }
        var range := free[|free| - 1].value.range;
        if range.None? {
          continue;
        }
        if range.value.size >= slabSize {
          return Some(range.value.size);
        }
      }
      return None;
    }

    method GetOrCreateCache(slabSize: nat) returns (i: nat)
      requires ConfigOk(config) && slabSize > 0
      modifies this
      ensures i == IndexFor(config, slabSize) < |caches|
      ensures View() == old(View()).(caches := EnsureCache(old(caches), i))
    {
      i := IndexFor(config, slabSize);
      if i >= |caches| {
        caches := caches + seq(i + 1 - |caches|, _ => EmptyCache);
      }
    }

    /** Copies the slab at `p` to the end of the other list and erases it from its own. */
    method MoveSlabInCache(i: nat, p: Place) returns (q: Place)
      requires i < |caches| && SlabAt(caches[i], p).Some?
      requires var s := SlabAt(caches[i], p).value;
               s.indexInList < |ListOf(caches[i], p.full)| && s.indexInCache < |caches[i].slabs|
      modifies this
      ensures var moved := MoveSlab(old(caches)[i], p, SlabAt(old(caches)[i], p).value);
              View() == old(View()).(caches := old(caches)[i := moved])
      ensures q == Place(!p.full, |ListOf(old(caches)[i], !p.full)|)
    {
      var c := caches[i];
      var slab := SlabAt(c, p).value;
      var src, dst := ListOf(c, p.full), ListOf(c, !p.full);
      q := Place(!p.full, |dst|);
      c := WithList(c, !p.full, Push(dst, slab.(indexInList := |dst|)));
      c := WithList(c, p.full, Erase(src, slab.indexInList));
      c := c.(slabs := c.slabs[slab.indexInCache := q]);
      caches := caches[i := c];
    }

    /** The slab size and cache to take a block from, with a free slab in that cache. */
    method PrepareSlab(a: Ask, n: nat) returns (r: Option<nat>)
      requires ConfigOk(config) && a.size <= config.blockSize && n > 0 && IndexFor(config, n) < |caches|
      modifies this
      ensures var p := Prepare(config, old(caches), old(lastUsedSlabSize), n, a);
              if p.None? then r.None? && View() == old(View())
              else r == Some(p.value.1) && View() == old(View()).(caches := p.value.0)
    {
      var i := IndexFor(config, n);
      if caches[i].free != [] {
        return Some(n);
      }
      var size := n;
      if lastUsedSlabSize > 0 {
        GrownIsLarger(config, n);
        var m := ComputeSlabSize(a.size, Grown(config, n), a.available);
        if m.None? {
          return None;
        }
        var newSlabSize := m.value;
        if newSlabSize > config.maxSlabSize {
          newSlabSize := n;
        }
        if Occupied(caches[i].full) < newSlabSize / n {
          newSlabSize := n;
        }
        if newSlabSize > n {
          size := newSlabSize;
        }
      }
      assert NextSize(config, caches, lastUsedSlabSize, n, a) == Some(size);
      PushNewSlab(size);
      return Some(size);
    }

    method PushNewSlab(size: nat)
      requires ConfigOk(config) && size > 0
      modifies this
      ensures View() == old(View()).(caches := WithNewSlab(config, old(caches), size))
    {
      var i := GetOrCreateCache(size);
      caches := caches[i := AddSlab(caches[i], Quotient(size, config.blockSize))];
    }

    /** A block of the last free slab and memory for it, or neither. */
    method TakeFromSlab(i: nat, source: Option<Range>) returns (t: Option<Taken>)
      requires i < |caches| && Shape(caches[i]) && caches[i].free != []
      modifies this
      ensures var (c, r) := TakeFrom(old(caches)[i], source);
              t == r && View() == old(View()).(caches := old(caches)[i := c])
    {
      var c := caches[i];
      BackIsSlab(c);
      HomeOf(c, BackPlace(c));
      var p := BackPlace(c);
      var slab := SlabAt(c, p).value;
      var (b, block) := TakeBlock(slab.blocks);
      if block.None? {
        caches := caches[i := PutSlab(c, p, slab.(blocks := b))];
        return None;
      }
      var range := if slab.range.Some? then slab.range else source;
      if range.None? {
        caches := caches[i := PutSlab(c, p, slab.(blocks := ReturnBlock(b, block.value)))];
        return None;
      }
      slab := slab.(blocks := b, used := slab.used + 1, range := range);
      caches := caches[i := PutSlab(c, p, slab)];
      if slab.used == slab.blocks.count {
        var q := MoveSlabInCache(i, p);
      }
      return Some(Taken(slab.indexInCache, block.value, range.value));
    }

    method TryAllocateMemory(a: Ask, source: Source) returns (r: Option<Allocation>)
      requires Valid() && a.alignment > 0 && Carvable(config, a) && SourceOk(caches, source)
      modifies this
      ensures Valid() && (View(), r) == TryAllocate(config, old(View()), a, source)
    {
      ghost var s := View();
      r := Allocate(a, source);
      TryAllocateOk(config, s, a, source, View(), r);
    }

    method Allocate(a: Ask, source: Source) returns (r: Option<Allocation>)
      requires Valid() && a.alignment > 0 && Carvable(config, a)
      modifies this
      ensures (View(), r) == TryAllocate(config, old(View()), a, source)
    {
      if a.size > config.blockSize {
        return None;
      }
      var base := Max(config.minSlabSize, lastUsedSlabSize);
      var n := ComputeSlabSize(a.size, base, a.available);
      if n.None? || n.value > config.maxSlabSize {
        return None;
      }
      ghost var s := View();
      ghost var s1 := SizedState(config, s, a, n.value);
      var i := GetOrCreateCache(n.value);
      var m := PrepareSlab(a, n.value);
      if m.None? {
        return None;
      }
      PreparedState(config, s1, n.value, a, caches, m.value);
      r := TakeAndCount(m.value, a, source);
    }

    method TakeAndCount(n: nat, a: Ask, source: Source) returns (r: Option<Allocation>)
      requires ConfigOk(config) && a.alignment > 0 && n > 0 && IndexFor(config, n) < |caches|
      requires Shape(caches[IndexFor(config, n)]) && caches[IndexFor(config, n)].free != []
      modifies this
      ensures (View(), r) == TakeBlockOf(config, old(View()), n, a, source)
    {
      if !IsAligned(config.blockSize, a.alignment) {
        return None;
      }
      var i := IndexFor(config, n);
      var t := TakeFromSlab(i, source(n));
      if t.None? {
        return None;
      }
      lastUsedSlabSize := n;
      usedBlockCount := usedBlockCount + 1;
      usedBlockUsage := usedBlockUsage + config.blockSize;
      r := Some(ToAllocation(config, i, t.value, a.size));
      live := live + {r.value.handle};
    }

    /** Returns a block; `freed` is the memory of its slab if it was the last one in use. */
    method DeallocateMemory(h: Handle) returns (freed: Option<Range>)
      requires Valid() && h in live
      modifies this
      ensures Valid() && (View(), freed) == Deallocate(config, old(View()), h)
    {
      ghost var s := View();
      LookupIsHome(config, s, h);
      DeallocateOk(config, s, h, Deallocate(config, s, h).0, Deallocate(config, s, h).1);
      var slab := Resolve(caches[h.cache], h.slab).value;
      var i := GetOrCreateCache(slab.range.value.size);
      freed := ReturnToSlab(i, h.slab, h.block);
      usedBlockCount := usedBlockCount - 1;
      usedBlockUsage := usedBlockUsage - config.blockSize;
      live := live - {h};
    }

    method ReturnToSlab(i: nat, k: nat, b: nat) returns (freed: Option<Range>)
      requires i < |caches| && Shape(caches[i]) && k < |caches[i].slabs|
      requires Resolve(caches[i], k).Some? && Resolve(caches[i], k).value.used > 0
      modifies this
      ensures var (c, r) := ReturnTo(old(caches)[i], k, b);
              freed == r && View() == old(View()).(caches := old(caches)[i := c])
    {
      var p := caches[i].slabs[k];
      var slab := SlabAt(caches[i], p).value;
      assert EntryOk(caches[i], k);
      MoveToFreeOk(caches[i], k, MoveToFree(caches[i], k));
      if slab.used == slab.blocks.count {
        p := MoveSlabInCache(i, p);
      }
      slab := SlabAt(caches[i], p).value;
      slab := slab.(blocks := ReturnBlock(slab.blocks, b), used := slab.used - 1);
      freed := None;
      if slab.used == 0 {
        freed := slab.range;
        slab := slab.(range := None);
      }
      caches := caches[i := PutSlab(caches[i], p, slab)];
    }
  }

  lemma NothingApart()
    ensures RangesOk([])
  {
    forall i: nat, k: nat, j: nat, l: nat
      ensures SlabsApart([], i, k, j, l)
    {
    }
  }
}
