/** The buddy memory allocator as an object over linked blocks:
    src/gpgmm/common/BuddyMemoryAllocator.cpp and IndexedMemoryPool.cpp. */
module BuddyMemory {
  import opened Options
  import opened Math
  import opened BuddySystem
  import opened BuddyTheorems
  import opened BuddyBlocks
  import opened BuddyPool
  import opened Requests

  datatype Allocation = Allocation(memory: nat, offset: nat, block: BuddyBlock, requestSize: nat)

  /** The blocks at these positions are the same objects. */
  ghost predicate SameBlocks(at: Nodes, at': Nodes, ps: set<Pos>) {
    forall p {:trigger p in ps} :: p in ps ==> p in at && p in at' && at'[p] == at[p]
  }

  /** Blocks that exist before and after nodes were added, and perhaps removed, are the same. */
  lemma StayingBlocks(at: Nodes, more: Nodes, at': Nodes, ps: set<Pos>)
    requires Extends(at, more) && Extends(at', more) && ps <= at.Keys && ps <= at'.Keys
    ensures SameBlocks(at, at', ps)
  {
    forall p | p in ps
      ensures at'[p] == at[p]
    {
      SameNode(at, more, p);
      SameNode(at', more, p);
    }
  }

  lemma PutBack(pool: Pool, i: nat, m: Option<Memory>)
    requires i < |pool|
    ensures pool[i := None][i := m] == pool[i := m] && (pool[i] == m ==> pool[i := m] == pool)
  {
  }

  lemma SelfExtends(at: Nodes)
    ensures Extends(at, at)
  {
  }

  /** Taking a block and giving it back. */
  lemma Placeable(s: System, memorySize: nat, requestSize: nat, alignment: nat)
    requires Inv(s) && 0 < requestSize <= memorySize && IsPowerOfTwo(requestSize) && alignment > 0
    requires TryAllocate(s, requestSize, alignment).Some?
    ensures var (s', p) := TryAllocate(s, requestSize, alignment).value;
            && p in Live(s') && p.level < |s'.free| && Deallocate(s', p) == s
  {
    AllocatedBlock(s, memorySize, requestSize, alignment);
    RoundTrip(s, requestSize, alignment);
  }

  /** What a successful allocation of a block of `size` bytes provides. */
  lemma BlockServes(s: System, s': System, memorySize: nat, size: nat, alignment: nat)
    requires Inv(s) && 0 < size <= memorySize && IsPowerOfTwo(size) && alignment > 0
    requires IsPowerOfTwo(memorySize) && memorySize % alignment == 0
    requires TryAllocate(s, size, alignment).Some? && s' == TryAllocate(s, size, alignment).value.0
    ensures var p := TryAllocate(s, size, alignment).value.1;
            && BlockSize(s', p.level) == size && Offset(s', p) % memorySize + size <= memorySize
            && Offset(s', p) % memorySize % alignment == 0
  {
    AllocatedBlock(s, memorySize, size, alignment);
    var p := TryAllocate(s, size, alignment).value.1;
    BlockInsideMemory(s', memorySize, p);
    RelativeAlignment(Offset(s', p), memorySize, alignment);
  }

  class BuddyMemoryAllocator {
    const memorySize: nat
    const memoryAlignment: nat
    const blocks: BuddyBlockAllocator
    var pool: Pool
    var stats: Stats

    ghost function View(): Memories
      reads this, blocks
    {
      Memories(blocks.view.sys, pool)
    }

    ghost predicate Valid()
      reads this, blocks, blocks.view.at.Values
    {
      && blocks.Valid() && InUse(View(), memorySize) && memorySize != INVALID_SIZE
      && stats == Usage(blocks.view.sys)
    }

    constructor (systemSize: nat, memorySize: nat, memoryAlignment: nat)
      requires IsPowerOfTwo(systemSize) && 0 < memorySize <= systemSize && memorySize != INVALID_SIZE
      requires IsPowerOfTwo(memoryAlignment)
      requires IsAligned(systemSize, memorySize) && IsAligned(memorySize, memoryAlignment)
      ensures Valid() && View() == Memories(Init(Log2(systemSize)), []) && fresh(blocks) && fresh(blocks.view.repr)
    {
      this.memorySize, this.memoryAlignment := memorySize, memoryAlignment;
      blocks := new BuddyBlockAllocator(systemSize);
      pool, stats := [], Stats(0, 0);
      new;
      InitOk(systemSize, memorySize);
    }

    // ----- The pool

    /** Takes the memory out of a slot, growing the pool if needed. */
    method AcquireFromPool(index: nat) returns (m: Option<Memory>)
      modifies this`pool
      ensures pool == Grown(old(pool), index)[index := None] && m == Grown(old(pool), index)[index]
    {
      if index >= |pool| {
        pool := pool + Empties(index + 1 - |pool|);
      }
      m := pool[index];
      pool := pool[index := None];
    }

    method ReturnToPool(m: Memory, index: nat)
      requires index < |pool| && m.size == memorySize
      modifies this`pool
      ensures pool == old(pool)[index := Some(m)]
    {
      pool := pool[index := Some(m)];
    }

    /** Finds or creates the memory of a slot and adds a sub-allocation to it.
        `fromNext` is what the next allocator in the chain would return. */
    method HoldMemory(index: nat, fromNext: Option<nat>) returns (memory: Option<nat>)
      requires blocks.Valid() && PoolOk(pool, memorySize)
      modifies this`pool
      ensures (pool, memory) == Hold(old(pool), memorySize, index, fromNext)
      ensures blocks.Valid() && blocks.view == old(blocks.view) && stats == old(stats)
    {
      assert forall b :: b in blocks.view.at.Values ==> b as object != this;
      assert SlotOk(pool, memorySize, index);
      var m := AcquireFromPool(index);
      if m.None? {
        if fromNext.None? {
          PutBack(Grown(old(pool), index), index, None);
          return None;
        }
        m := Some(Memory(fromNext.value, memorySize, 0));
      }
      PutBack(Grown(old(pool), index), index, Some(m.value.(refs := m.value.refs + 1)));
      ReturnToPool(m.value.(refs := m.value.refs + 1), index);
      memory := Some(m.value.id);
    }

    /** Drops one sub-allocation from the memory of a slot; the last one gives the
        memory back to the next allocator. */
    method DropMemory(index: nat) returns (toNext: Option<nat>)
      requires blocks.Valid() && PoolOk(pool, memorySize) && MemoryAt(pool, index).Some?
      modifies this`pool
      ensures (pool, toNext) == Drop(old(pool), index)
      ensures blocks.Valid() && blocks.view == old(blocks.view) && stats == old(stats)
    {
      assert forall b :: b in blocks.view.at.Values ==> b as object != this;
      assert SlotOk(pool, memorySize, index);
      var m := AcquireFromPool(index);
      if m.value.refs <= 1 {
        toNext := Some(m.value.id);
      } else {
        PutBack(old(pool), index, Some(m.value.(refs := m.value.refs - 1)));
        ReturnToPool(m.value.(refs := m.value.refs - 1), index);
        toNext := None;
      }
    }

    function GetMemoryIndex(offset: nat): nat
      requires memorySize > 0
    {
      Quotient(offset, memorySize)
    }

    method IndexOfBlock(block: BuddyBlock) returns (i: nat)
      requires blocks.Valid() && In(blocks.view.at, block) && memorySize > 0
      ensures i == GetMemoryIndex(block.offset) == MemoryIndex(blocks.view.sys, memorySize, block.pos)
    {
      assert Placed(blocks.view.at, blocks.view.sys, block.pos);
      i := GetMemoryIndex(block.offset);
    }

    // ----- Blocks

    /** Allocates a block; the fields of the memory allocator are not touched. */
    method AcquireBlock(requestSize: nat, alignment: nat) returns (block: BuddyBlock?)
      requires blocks.Valid() && requestSize > 0 && IsPowerOfTwo(alignment)
      modifies blocks`heads, blocks`view, blocks.view.repr
      ensures blocks.Valid() && fresh(blocks.view.repr - old(blocks.view.repr))
      ensures block == null <==> TryAllocate(old(blocks.view.sys), requestSize, alignment).None?
      ensures block == null ==> blocks.view == old(blocks.view)
      ensures block != null ==> In(blocks.view.at, block)
      ensures block != null ==>
                TryAllocate(old(blocks.view.sys), requestSize, alignment) == Some((blocks.view.sys, block.pos))
      ensures Extends(old(blocks.view.at), blocks.view.at)
      ensures pool == old(pool) && stats == old(stats)
    {
      assert forall b :: b in blocks.view.repr ==> b as object != this;
      block := blocks.TryAllocateBlock(requestSize, alignment);
    }

    /** Frees the block; the fields of the memory allocator are not touched. */
    method ReleaseBlock(block: BuddyBlock)
      requires blocks.Valid() && In(blocks.view.at, block) && block.pos in Live(blocks.view.sys)
      modifies blocks`heads, blocks`view, blocks.view.repr
      ensures blocks.Valid() && blocks.view.repr == old(blocks.view.repr)
      ensures block.pos.level < |old(blocks.view.sys).free|
      ensures blocks.view.sys == Deallocate(old(blocks.view.sys), block.pos)
      ensures Extends(blocks.view.at, old(blocks.view.at))
      ensures pool == old(pool) && stats == old(stats)
    {
      assert forall b :: b in blocks.view.repr ==> b as object != this;
      blocks.DeallocateBlock(block);
    }

    /** Holds memory for a new block, or gives the block back. */
    method PlaceBlock(block: BuddyBlock, ghost s: System, fromNext: Option<nat>) returns (memory: Option<nat>)
      requires blocks.Valid() && In(blocks.view.at, block) && memorySize > 0 && PoolOk(pool, memorySize)
      requires block.pos in Live(blocks.view.sys) && block.pos.level < |blocks.view.sys.free|
      requires Deallocate(blocks.view.sys, block.pos) == s
      modifies this`pool, blocks`heads, blocks`view, blocks.view.repr
      ensures blocks.Valid() && blocks.view.repr == old(blocks.view.repr) && stats == old(stats)
      ensures var i := MemoryIndex(old(blocks.view.sys), memorySize, block.pos);
              (pool, memory) == Hold(old(pool), memorySize, i, fromNext)
      ensures memory.None? ==> blocks.view.sys == s && Extends(blocks.view.at, old(blocks.view.at))
      ensures memory.Some? ==> blocks.view == old(blocks.view)
    {
      var index := IndexOfBlock(block);
      memory := HoldMemory(index, fromNext);
      if memory.None? {
        ReleaseBlock(block);
      }
    }

    /** Sub-allocates a block and holds its memory; neither happens without the other. */
    method TrySubAllocateMemory(requestSize: nat, alignment: nat, fromNext: Option<nat>)
      returns (r: Option<(nat, BuddyBlock)>)
      requires blocks.Valid() && memorySize > 0 && PoolOk(pool, memorySize)
      requires 0 < requestSize <= memorySize && IsPowerOfTwo(requestSize) && IsPowerOfTwo(alignment)
      modifies this`pool, blocks`heads, blocks`view, blocks.view.repr
      ensures blocks.Valid() && fresh(blocks.view.repr - old(blocks.view.repr)) && stats == old(stats)
      ensures var (ms, x) := AllocateIn(old(View()), memorySize, requestSize, alignment, fromNext);
              && View() == ms && (r.Some? <==> x.Some?)
              && (r.Some? ==> x == Some((r.value.1.pos, r.value.0)) && In(blocks.view.at, r.value.1))
      ensures SameBlocks(old(blocks.view.at), blocks.view.at, Live(old(blocks.view.sys)))
    {
      ghost var s, at := blocks.view.sys, blocks.view.at;
      var block := AcquireBlock(requestSize, alignment);
      if block == null {
        SelfExtends(at);
        StayingBlocks(at, at, at, Live(s));
        return None;
      }
      Placeable(s, memorySize, requestSize, alignment);
      AllocatedBlock(s, memorySize, requestSize, alignment);
      ghost var more := blocks.view.at;
      var memory := PlaceBlock(block, s, fromNext);
      SelfExtends(more);
      StayingBlocks(at, more, blocks.view.at, Live(s));
      if memory.None? {
        return None;
      }
      return Some((memory.value, block));
    }

    // ----- Allocations

    /** Accounts for a block of `size` bytes taken from `s`, which leaves `s'`. */
    method CountTaken(size: nat, ghost s: System, ghost s': System, ghost p: Pos)
      requires stats == Usage(s) && s'.order == s.order && size == BlockSize(s, p.level)
      requires p !in Live(s) && Live(s') == Live(s) + {p}
      modifies this`stats
      ensures stats == Usage(s') && pool == old(pool) && blocks.view == old(blocks.view)
    {
      UsageAdd(s, s', p);
      stats := Stats(stats.usedBlockCount + 1, stats.usedBlockUsage + size);
    }

    /** Accounts for a block of `size` bytes returned to `s`, which leaves `s'`. */
    method CountReturned(size: nat, ghost s: System, ghost s': System, ghost p: Pos)
      requires stats == Usage(s) && s'.order == s.order && size == BlockSize(s, p.level)
      requires p in Live(s) && Live(s') == Live(s) - {p}
      modifies this`stats
      ensures stats == Usage(s') && pool == old(pool) && blocks.view == old(blocks.view)
    {
      UsageRemove(s, s', p);
      stats := Stats(stats.usedBlockCount - 1, stats.usedBlockUsage - size);
    }

    /** A live sub-allocation: its block, and where it lies in which memory. */
    ghost predicate Holds(a: Allocation)
      requires memorySize > 0
      reads this, blocks
    {
      var s, p := blocks.view.sys, a.block.pos;
      && In(blocks.view.at, a.block) && p in Live(s) && a.block.size == BlockSize(s, p.level)
      && a.offset == Offset(s, p) % memorySize && MemoryOf(View(), memorySize, p) == Some(a.memory)
    }

    /** Serves a request from a block of the rounded-up size, or changes nothing.
        Allocations made before stay valid, in the memory they were in. */
    method TryAllocateMemory(request: Request, fromNext: Option<nat>) returns (r: Option<Allocation>)
      requires Valid() && WellFormed(request) && NewMemory(pool, fromNext)
      modifies this, blocks`heads, blocks`view, blocks.view.repr
      ensures Valid() && fresh(blocks.view.repr - old(blocks.view.repr))
      ensures SameBlocks(old(blocks.view.at), blocks.view.at, Live(old(blocks.view.sys)))
      ensures KeepsMemory(old(View()), View(), memorySize, {})
      ensures r.None? ==> blocks.view.sys == old(blocks.view.sys)
      ensures r.Some? <==>
        && ValidateRequest(request, memorySize, memoryAlignment)
        && HasRoom(old(View()), memorySize, NextPowerOfTwo(request.size), request.alignment, fromNext)
      ensures r.Some? ==>
        && TryAllocate(old(blocks.view.sys), NextPowerOfTwo(request.size), request.alignment)
           == Some((blocks.view.sys, r.value.block.pos))
        && MemoryFor(old(View()), memorySize, blocks.view.sys, r.value.block.pos, fromNext) == Some(r.value.memory)
      ensures r.Some? ==>
        && Holds(r.value) && r.value.requestSize == request.size <= r.value.block.size
        && r.value.offset + r.value.block.size <= memorySize && r.value.offset % request.alignment == 0
        && r.value.block.pos !in Live(old(blocks.view.sys))
        && Live(blocks.view.sys) == Live(old(blocks.view.sys)) + {r.value.block.pos}
    {
      ghost var ms, at := View(), blocks.view.at;
      if !ValidateRequest(request, memorySize, memoryAlignment) {
        SelfExtends(at);
        StayingBlocks(at, at, at, Live(ms.sys));
        return None;
      }
      var allocationSize := NextPowerOfTwo(request.size);
      AcceptedFits(request, memorySize, memoryAlignment);
      NextPowerOfTwoMeaning(request.size);
      if allocationSize > memorySize {
        SelfExtends(at);
        StayingBlocks(at, at, at, Live(ms.sys));
        return None;
      }
      r := AllocateRounded(request.size, allocationSize, request.alignment, fromNext);
    }

    method AllocateRounded(size: nat, allocationSize: nat, alignment: nat, fromNext: Option<nat>)
      returns (r: Option<Allocation>)
      requires Valid() && 0 < allocationSize <= memorySize && size <= allocationSize && IsPowerOfTwo(allocationSize)
      requires IsPowerOfTwo(alignment) && memorySize % alignment == 0 && NewMemory(pool, fromNext)
      modifies this, blocks`heads, blocks`view, blocks.view.repr
      ensures Valid() && fresh(blocks.view.repr - old(blocks.view.repr))
      ensures SameBlocks(old(blocks.view.at), blocks.view.at, Live(old(blocks.view.sys)))
      ensures KeepsMemory(old(View()), View(), memorySize, {})
      ensures r.None? ==> blocks.view.sys == old(blocks.view.sys)
      ensures r.Some? <==> HasRoom(old(View()), memorySize, allocationSize, alignment, fromNext)
      ensures r.Some? ==>
        && TryAllocate(old(blocks.view.sys), allocationSize, alignment) == Some((blocks.view.sys, r.value.block.pos))
        && MemoryFor(old(View()), memorySize, blocks.view.sys, r.value.block.pos, fromNext) == Some(r.value.memory)
      ensures r.Some? ==>
        && Holds(r.value) && r.value.requestSize == size && r.value.block.size == allocationSize
        && r.value.offset + allocationSize <= memorySize && r.value.offset % alignment == 0
        && r.value.block.pos !in Live(old(blocks.view.sys))
        && Live(blocks.view.sys) == Live(old(blocks.view.sys)) + {r.value.block.pos}
    {
      ghost var s := blocks.view.sys;
      var sub := SubAllocateCounted(allocationSize, alignment, fromNext);
      if sub.None? {
        return None;
      }
      var block := sub.value.1;
      BlockServes(s, blocks.view.sys, memorySize, allocationSize, alignment);
      assert Placed(blocks.view.at, blocks.view.sys, block.pos);
      return Some(Allocation(sub.value.0, block.offset % memorySize, block, size));
    }

    /** The sub-allocation, accounted for. */
    method SubAllocateCounted(size: nat, alignment: nat, fromNext: Option<nat>) returns (r: Option<(nat, BuddyBlock)>)
      requires Valid() && NewMemory(pool, fromNext)
      requires 0 < size <= memorySize && IsPowerOfTwo(size) && IsPowerOfTwo(alignment)
      modifies this, blocks`heads, blocks`view, blocks.view.repr
      ensures Valid() && fresh(blocks.view.repr - old(blocks.view.repr))
      ensures SameBlocks(old(blocks.view.at), blocks.view.at, Live(old(blocks.view.sys)))
      ensures KeepsMemory(old(View()), View(), memorySize, {})
      ensures r.None? ==> blocks.view.sys == old(blocks.view.sys)
      ensures r.Some? <==> HasRoom(old(View()), memorySize, size, alignment, fromNext)
      ensures r.Some? ==>
                MemoryFor(old(View()), memorySize, blocks.view.sys, r.value.1.pos, fromNext) == Some(r.value.0)
      ensures r.Some? ==> In(blocks.view.at, r.value.1)
      ensures r.Some? ==> MemoryOf(View(), memorySize, r.value.1.pos) == Some(r.value.0)
      ensures r.Some? ==> TryAllocate(old(blocks.view.sys), size, alignment) == Some((blocks.view.sys, r.value.1.pos))
      ensures r.Some? ==> r.value.1.pos !in Live(old(blocks.view.sys))
      ensures r.Some? ==> Live(blocks.view.sys) == Live(old(blocks.view.sys)) + {r.value.1.pos}
    {
      ghost var s := blocks.view.sys;
      r := SubAllocate(size, alignment, fromNext);
      if r.Some? {
        CountBlock(r.value.1.size, s, r.value.1.pos);
      }
    }

    /** Accounts for a block taken from `s`. */
    method CountBlock(size: nat, ghost s: System, ghost p: Pos)
      requires blocks.Valid() && InUse(View(), memorySize) && memorySize != INVALID_SIZE && stats == Usage(s)
      requires blocks.view.sys.order == s.order && size == BlockSize(s, p.level)
      requires p !in Live(s) && Live(blocks.view.sys) == Live(s) + {p}
      modifies this`stats
      ensures Valid() && View() == old(View()) && blocks.view == old(blocks.view)
    {
      assert forall b :: b in blocks.view.at.Values ==> b as object != this;
      CountTaken(size, s, blocks.view.sys, p);
    }

    /** The sub-allocation, and what it means for all live blocks. */
    method SubAllocate(size: nat, alignment: nat, fromNext: Option<nat>) returns (r: Option<(nat, BuddyBlock)>)
      requires blocks.Valid() && InUse(View(), memorySize) && NewMemory(pool, fromNext)
      requires 0 < size <= memorySize && IsPowerOfTwo(size) && IsPowerOfTwo(alignment)
      modifies this`pool, blocks`heads, blocks`view, blocks.view.repr
      ensures blocks.Valid() && InUse(View(), memorySize)
      ensures fresh(blocks.view.repr - old(blocks.view.repr)) && stats == old(stats)
      ensures SameBlocks(old(blocks.view.at), blocks.view.at, Live(old(blocks.view.sys)))
      ensures KeepsMemory(old(View()), View(), memorySize, {})
      ensures blocks.view.sys.order == old(blocks.view.sys).order
      ensures r.None? ==> blocks.view.sys == old(blocks.view.sys)
      ensures r.Some? <==> HasRoom(old(View()), memorySize, size, alignment, fromNext)
      ensures r.Some? ==>
                MemoryFor(old(View()), memorySize, blocks.view.sys, r.value.1.pos, fromNext) == Some(r.value.0)
      ensures r.Some? ==> In(blocks.view.at, r.value.1)
      ensures r.Some? ==> MemoryOf(View(), memorySize, r.value.1.pos) == Some(r.value.0)
      ensures r.Some? ==> TryAllocate(old(blocks.view.sys), size, alignment) == Some((blocks.view.sys, r.value.1.pos))
      ensures r.Some? ==> r.value.1.size == BlockSize(old(blocks.view.sys), r.value.1.pos.level)
      ensures r.Some? ==> r.value.1.pos !in Live(old(blocks.view.sys))
      ensures r.Some? ==> Live(blocks.view.sys) == Live(old(blocks.view.sys)) + {r.value.1.pos}
    {
      ghost var ms := View();
      ghost var x := AllocateIn(ms, memorySize, size, alignment, fromNext);
      AllocateInOk(ms, memorySize, size, alignment, fromNext, x.0, x.1);
      r := TrySubAllocateMemory(size, alignment, fromNext);
      if r.Some? {
        assert Placed(blocks.view.at, blocks.view.sys, r.value.1.pos);
      }
    }

    /** Frees a sub-allocation; the last one in a memory object gives that object back. */
    method DeallocateMemory(a: Allocation) returns (toNext: Option<nat>)
      requires Valid() && Holds(a)
      modifies this, blocks`heads, blocks`view, blocks.view.repr
      ensures Valid() && blocks.view.repr == old(blocks.view.repr)
      ensures a.block.pos.level < |old(blocks.view.sys).free|
      ensures blocks.view.sys == Deallocate(old(blocks.view.sys), a.block.pos)
      ensures Live(blocks.view.sys) == Live(old(blocks.view.sys)) - {a.block.pos}
      ensures SameBlocks(old(blocks.view.at), blocks.view.at, Live(blocks.view.sys))
      ensures KeepsMemory(old(View()), View(), memorySize, {a.block.pos})
      ensures var s, p := old(blocks.view.sys), a.block.pos;
              toNext == if LiveAt(s, memorySize, MemoryIndex(s, memorySize, p)) == {p} then Some(a.memory) else None
      ensures toNext.Some? ==> NewMemory(pool, toNext)
    {
      ghost var ms, at, p := View(), blocks.view.at, a.block.pos;
      assert Placed(at, ms.sys, p);
      var memoryIndex := IndexOfBlock(a.block);
      LiveIsCounted(ms.sys, memorySize, p, ms.pool);
      ReleaseBlock(a.block);
      FreeInOk(ms, memorySize, p, FreeIn(ms, memorySize, p).0, FreeIn(ms, memorySize, p).1);
      SelfExtends(at);
      StayingBlocks(at, at, blocks.view.at, Live(blocks.view.sys));
      toNext := DropMemory(memoryIndex);
      assert forall b :: b in blocks.view.at.Values ==> b as object != this;
      CountReturned(a.block.size, ms.sys, blocks.view.sys, p);
    }
  }

  /** An allocation stays valid through calls that keep its block and its memory. */
  lemma StillHolds(m: BuddyMemoryAllocator, a: Allocation, at: Nodes, ms: Memories, freed: set<Pos>)
    requires m.memorySize > 0 && KeepsMemory(ms, m.View(), m.memorySize, freed) && a.block.pos !in freed
    requires a.block.pos in Live(ms.sys) && In(at, a.block) && SameBlocks(at, m.blocks.view.at, {a.block.pos})
    requires a.block.size == BlockSize(ms.sys, a.block.pos.level) &&
             a.offset == Offset(ms.sys, a.block.pos) % m.memorySize
    requires MemoryOf(ms, m.memorySize, a.block.pos) == Some(a.memory)
    ensures m.Holds(a)
  {
    assert a.block.pos in {a.block.pos};
    KeptMemory(ms, m.View(), m.memorySize, freed, a.block.pos);
  }
}
