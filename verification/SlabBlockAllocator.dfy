/** Carving a slab into blocks: src/gpgmm/common/SlabBlockAllocator.cpp. */
module SlabBlocks {
  import opened Sets
  import opened Options
  import opened Math
  import opened StableLists

  // ----- The free list as a value

  /** `free` lists the free slots, head first; slots after `next` are not carved yet. */
  datatype Blocks = Blocks(free: seq<nat>, next: nat, count: nat)

  function NewBlocks(count: nat): Blocks { Blocks([0], 0, count) }

  /** Carves the next slot when the free list has run empty. */
  function Refill(b: Blocks): Blocks {
    if b.free == [] && b.next + 1 < b.count then Blocks([b.next + 1], b.next + 1, b.count) else b
  }

  function TakeBlock(b: Blocks): (Blocks, Option<nat>) {
    if b.free == [] then (Refill(b), None) else (Refill(b.(free := b.free[1..])), Some(b.free[0]))
  }

  function ReturnBlock(b: Blocks, i: nat): Blocks { b.(free := [i] + b.free) }

  predicate IsLive(b: Blocks, i: nat) { i <= b.next && i !in b.free }

  function Used(b: Blocks): int { b.next + 1 - |b.free| }

  /** Free slots are carved ones, each listed once; the list is empty only if all are carved. */
  ghost predicate BlocksOk(b: Blocks) {
    && b.next < b.count && Distinct(b.free)
    && (forall i :: i in b.free ==> i <= b.next)
    && (b.free == [] ==> b.next + 1 == b.count)
  }

  lemma NewBlocksOk(count: nat)
    requires count > 0
    ensures BlocksOk(NewBlocks(count)) && Used(NewBlocks(count)) == 0 && forall i :: !IsLive(NewBlocks(count), i)
  {
    assert forall i: nat :: i <= 0 ==> i in [0];
  }

  /** A block is refused exactly when all blocks are live; otherwise one block that
      was not live becomes live and nothing else changes. */
  lemma TakeBlockOk(b: Blocks)
    requires BlocksOk(b)
    ensures var (b', r) := TakeBlock(b);
            && BlocksOk(b') && b'.count == b.count
            && (r.None? <==> forall i: nat :: i < b.count ==> IsLive(b, i))
            && (r.None? ==> b' == b)
            && (r.Some? ==> r.value < b.count && !IsLive(b, r.value) && Used(b') == Used(b) + 1)
            && (r.Some? ==> forall i :: IsLive(b', i) <==> IsLive(b, i) || i == r.value)
  {
    if b.free != [] {
      var i, rest := b.free[0], b.free[1..];
      assert b.free == [i] + rest && i in b.free;
      assert i !in rest && i < b.count && !IsLive(b, i);
      FreeTailOk(b.free);
      assert forall j :: j in rest ==> j in b.free;
    }
  }

  lemma FreeTailOk(s: seq<nat>)
    requires Distinct(s) && s != []
    ensures Distinct(s[1..])
  {
    var t := s[1..];
    forall i, j | 0 <= i < j < |t|
      ensures t[i] != t[j]
    {
      assert s[i + 1] != s[j + 1];
    }
  }

  lemma ReturnBlockOk(b: Blocks, i: nat)
    requires BlocksOk(b) && IsLive(b, i)
    ensures var b' := ReturnBlock(b, i);
            && BlocksOk(b') && b'.count == b.count && Used(b') == Used(b) - 1
            && forall j :: IsLive(b', j) <==> IsLive(b, j) && j != i
  {
  }

  /** A returned block is the next one to be handed out, and then everything is as it was. */
  lemma ReturnAndTake(b: Blocks, i: nat)
    requires BlocksOk(b) && IsLive(b, i)
    ensures var (b', r) := TakeBlock(ReturnBlock(b, i)); r == Some(i) && b' == b
  {
    assert ReturnBlock(b, i).free[1..] == b.free;
  }

  /** The slots carved so far. */
  ghost function UpTo(n: nat): (r: set<nat>)
    ensures |r| == n + 1 && forall i: nat {:trigger i in r} :: i in r <==> i <= n
  {
    if n == 0 then {0} else UpTo(n - 1) + {n}
  }

  ghost function SlotsOf(s: seq<nat>): set<nat> { set i | i in s }

  ghost function LiveSlots(b: Blocks): set<nat> { set i | i in UpTo(b.next) && IsLive(b, i) }

  /** Live and free slots partition the carved ones, so `Used` counts the live slots. */
  lemma LiveCount(b: Blocks)
    requires BlocksOk(b)
    ensures |LiveSlots(b)| == Used(b) && (Used(b) == b.count <==> b.free == [])
    ensures LiveSlots(b) !! SlotsOf(b.free) && LiveSlots(b) + SlotsOf(b.free) == UpTo(b.next)
    ensures forall i :: i in LiveSlots(b) <==> IsLive(b, i)
  {
    SlotCount(b.free);
    assert UpTo(b.next) == LiveSlots(b) + SlotsOf(b.free);
  }

  lemma {:induction false} SlotCount(s: seq<nat>)
    requires Distinct(s)
    ensures |SlotsOf(s)| == |s|
  {
    if s == [] {
      assert SlotsOf(s) == {};
    } else {
      FreeTailOk(s);
      SlotCount(s[1..]);
      assert SlotsOf(s) == SlotsOf(s[1..]) + {s[0]};
    }
  }

  // ----- Blocks as linked objects

  class SlabBlock {
    const offset: nat
    const size: nat
    var pNext: SlabBlock?

    constructor (offset: nat, size: nat)
      ensures this.offset == offset && this.size == size && pNext == null
    {
      this.offset, this.size, pNext := offset, size, null;
    }
  }

  /** Element `k` of the free list, null after its end. */
  ghost function NodeAt(blocks: seq<SlabBlock>, free: seq<nat>, k: nat): SlabBlock? {
    if k < |free| && free[k] < |blocks| then blocks[free[k]] else null
  }

  /** The blocks of the free slots are linked in order. */
  ghost predicate Linked(blocks: seq<SlabBlock>, free: seq<nat>)
    reads blocks
  {
    forall k: nat {:trigger NodeAt(blocks, free, k)} :: k < |free| ==>
      NodeAt(blocks, free, k) != null && NodeAt(blocks, free, k).pNext == NodeAt(blocks, free, k + 1)
  }

  /** One block per carved slot, at the offset of its slot. */
  ghost predicate Carved(blocks: seq<SlabBlock>, blockSize: nat) {
    && (forall i {:trigger blocks[i]} :: 0 <= i < |blocks| ==>
          blocks[i].offset == i * blockSize && blocks[i].size == blockSize)
    && (forall i, j :: 0 <= i < j < |blocks| ==> blocks[i] != blocks[j])
  }

  class SlabBlockAllocator {
    const blockCount: nat
    const blockSize: nat
    var head: SlabBlock?
    var next: nat
    /** The block carved for each slot, and the slots of the free list. */
    ghost var blocks: seq<SlabBlock>
    ghost var free: seq<nat>

    ghost function View(): Blocks
      reads this
    {
      Blocks(free, next, blockCount)
    }

    ghost predicate Valid()
      reads this, blocks
    {
      && BlocksOk(View()) && blockSize > 0 && |blocks| == next + 1 && Carved(blocks, blockSize)
      && head == NodeAt(blocks, free, 0) && Linked(blocks, free)
    }

    constructor (blockCount: nat, blockSize: nat)
      requires blockCount > 0 && blockSize > 0
      ensures Valid() && View() == NewBlocks(blockCount) && this.blockSize == blockSize && fresh(blocks)
    {
      var b := new SlabBlock(0, blockSize);
      this.blockCount, this.blockSize, next, head := blockCount, blockSize, 0, b;
      blocks, free := [b], [0];
    }

    /** The shallow copy made when a slab moves between lists: the two share their
        free blocks, so none if the slab is full. */
    constructor Copy(other: SlabBlockAllocator)
      requires other.Valid()
      ensures Valid() && View() == other.View() && head == other.head && blocks == other.blocks
      ensures Used(View()) == blockCount ==> head == null
    {
      blockCount, blockSize, next, head := other.blockCount, other.blockSize, other.next, other.head;
      blocks, free := other.blocks, other.free;
      new;
      FullHasNoFreeBlock(View());
    }

    /** Returns a block that is not in use, or null when the request does not fit a
        block or all blocks are in use. */
    method TryAllocateBlock(requestSize: nat, alignment: nat) returns (block: SlabBlock?)
      requires Valid() && alignment > 0
      modifies this
      ensures Valid() && old(blocks) <= blocks && fresh(blocks[|old(blocks)|..])
      ensures requestSize > blockSize || !IsAligned(blockSize, alignment) ==> block == null && View() == old(View())
      ensures requestSize <= blockSize && IsAligned(blockSize, alignment) ==>
        var (b, r) := TakeBlock(old(View()));
        View() == b && block == if r.Some? && r.value < |blocks| then blocks[r.value] else null
    {
      if requestSize > blockSize {
        return null;
      }
      if !IsAligned(blockSize, alignment) {
        return null;
      }
      TakeBlockOk(View());
      block := Pop();
      CarveIfEmpty();
    }

    /** Pops the head. */
    method Pop() returns (block: SlabBlock?)
      requires Valid()
      modifies this
      ensures next == old(next) && blocks == old(blocks)
      ensures free == if old(free) == [] then [] else old(free)[1..]
      ensures block == NodeAt(blocks, old(free), 0)
      ensures head == NodeAt(blocks, free, 0) && Linked(blocks, free)
    {
      block := head;
      if head != null {
        head := head.pNext;
        free := free[1..];
        LinkedTail(blocks, old(free));
      }
    }

    /** Carves the next block if the free list is empty and the slab is not used up. */
    method CarveIfEmpty()
      requires blockSize > 0 && |blocks| == next + 1 && Carved(blocks, blockSize)
      requires head == NodeAt(blocks, free, 0) && Linked(blocks, free)
      modifies this
      ensures View() == Refill(old(View())) && |blocks| == next + 1 && Carved(blocks, blockSize)
      ensures head == NodeAt(blocks, free, 0) && Linked(blocks, free)
      ensures old(blocks) <= blocks && fresh(blocks[|old(blocks)|..])
    {
      assert free != [] ==> NodeAt(blocks, free, 0) != null;
      if head == null && next + 1 < blockCount {
        next := next + 1;
        head := new SlabBlock(next * blockSize, blockSize);
        blocks, free := blocks + [head], [next];
      }
    }

    /** Pushes a live block back; `i` is its slot. */
    method DeallocateBlock(block: SlabBlock, ghost i: nat)
      requires Valid() && IsLive(View(), i) && block == blocks[i]
      modifies this, block
      ensures Valid() && View() == ReturnBlock(old(View()), i) && blocks == old(blocks) && head == block
    {
      ReturnBlockOk(View(), i);
      NotInFreeList(View(), blocks, blockSize, i);
      var first := head;
      head := block;
      block.pNext := first;
      free := [i] + free;
      LinkedCons(blocks, old(free), i);
    }
  }

  lemma FullHasNoFreeBlock(b: Blocks)
    requires BlocksOk(b)
    ensures Used(b) == b.count <==> b.free == []
  {
    LiveCount(b);
  }

  lemma LinkedTail(blocks: seq<SlabBlock>, free: seq<nat>)
    requires Linked(blocks, free) && free != []
    ensures Linked(blocks, free[1..]) && forall k: nat :: NodeAt(blocks, free[1..], k) == NodeAt(blocks, free, k + 1)
  {
    forall k: nat
      ensures NodeAt(blocks, free[1..], k) == NodeAt(blocks, free, k + 1)
      ensures k + 1 < |free| ==> NodeAt(blocks, free, k + 1) != null
    {
    }
  }

  /** Enough of the links to push a slot in front. */
  lemma LinkedCons(blocks: seq<SlabBlock>, free: seq<nat>, i: nat)
    requires Linked(blocks, free) && i < |blocks| && blocks[i].pNext == NodeAt(blocks, free, 0)
    ensures Linked(blocks, [i] + free)
  {
    var free' := [i] + free;
    forall k: nat | k < |free'|
      ensures NodeAt(blocks, free', k) != null && NodeAt(blocks, free', k).pNext == NodeAt(blocks, free', k + 1)
    {
      assert k > 0 ==> NodeAt(blocks, free', k) == NodeAt(blocks, free, k - 1);
      assert NodeAt(blocks, free', k + 1) == NodeAt(blocks, free, k);
    }
  }

  /** The block of a live slot is none of the blocks in the free list. */
  lemma NotInFreeList(b: Blocks, blocks: seq<SlabBlock>, blockSize: nat, i: nat)
    requires BlocksOk(b) && IsLive(b, i) && |blocks| == b.next + 1 && Carved(blocks, blockSize)
    ensures forall k: nat :: k < |b.free| ==> NodeAt(blocks, b.free, k) != blocks[i]
  {
    forall k: nat | k < |b.free|
      ensures NodeAt(blocks, b.free, k) != blocks[i]
    {
      assert b.free[k] in b.free;
    }
  }
}
