/** Blocks of a buddy system placed in memory objects of a fixed size, created on
    demand and reference-counted by the live blocks inside them, as values:
    src/gpgmm/common/BuddyMemoryAllocator.cpp over IndexedMemoryPool.cpp. */
module BuddyPool {
  import opened Options
  import opened Sets
  import opened Math
  import opened BuddySystem
  import opened BuddyTheorems

  /** A memory object: its identity, its size and its number of sub-allocations. */
  datatype Memory = Memory(id: nat, size: nat, refs: nat)

  type Pool = seq<Option<Memory>>

  /** A buddy system and the memory object of every slot. */
  datatype Memories = Memories(sys: System, pool: Pool)

  datatype Stats = Stats(usedBlockCount: nat, usedBlockUsage: int)

  function MemoryIndex(s: System, memorySize: nat, p: Pos): nat
    requires memorySize > 0
  {
    Quotient(Offset(s, p), memorySize)
  }

  /** The identity of the memory object in slot `i`, if it holds one. */
  function MemoryAt(pool: Pool, i: nat): Option<nat> {
    if i < |pool| && pool[i].Some? then Some(pool[i].value.id) else None
  }

  /** The number of sub-allocations of the memory object in slot `i`. */
  function RefsAt(pool: Pool, i: nat): nat {
    if i < |pool| && pool[i].Some? then pool[i].value.refs else 0
  }

  // ----- Operations

  function Empties(n: nat): Pool { seq(n, _ => None) }

  /** The pool with a slot `i`. */
  function Grown(pool: Pool, i: nat): (r: Pool)
    ensures i < |r|
  {
    if i < |pool| then pool else pool + Empties(i + 1 - |pool|)
  }

  /** Adds a sub-allocation to the memory of slot `i`; an empty slot takes `fromNext`,
      memory that the next allocator in the chain returns, if there is any. */
  function Hold(pool: Pool, memorySize: nat, i: nat, fromNext: Option<nat>): (Pool, Option<nat>) {
    var g := Grown(pool, i);
    match g[i]
    case Some(m) => (g[i := Some(m.(refs := m.refs + 1))], Some(m.id))
    case None =>
      if fromNext.None? then (g, None) else (g[i := Some(Memory(fromNext.value, memorySize, 1))], fromNext)
  }

  /** Takes a sub-allocation off; the last one gives the memory back. */
  function Drop(pool: Pool, i: nat): (Pool, Option<nat>) {
    if MemoryAt(pool, i).None? then (pool, None)
    else
      var m := pool[i].value;
      if m.refs <= 1 then (pool[i := None], Some(m.id)) else (pool[i := Some(m.(refs := m.refs - 1))], None)
  }

  /** A block and memory for it, or the system as it was. */
  function AllocateIn(ms: Memories, memorySize: nat, size: nat, alignment: nat, fromNext: Option<nat>)
    : (Memories, Option<(Pos, nat)>)
    requires |ms.sys.free| == ms.sys.order + 1 && memorySize > 0 && size > 0 && alignment > 0
  {
    var r := TryAllocate(ms.sys, size, alignment);
    if r.None? then (ms, None)
    else
      var (sys, p) := r.value;
      var (pool, m) := Hold(ms.pool, memorySize, MemoryIndex(sys, memorySize, p), fromNext);
      if m.None? then (Memories(ms.sys, pool), None) else (Memories(sys, pool), Some((p, m.value)))
  }

  /** The memory for a block: that of its slot, or else new memory. */
  function MemoryFor(ms: Memories, memorySize: nat, sys: System, p: Pos, fromNext: Option<nat>): Option<nat>
    requires memorySize > 0
  {
    var i := MemoryIndex(sys, memorySize, p);
    if MemoryAt(ms.pool, i).Some? then MemoryAt(ms.pool, i) else fromNext
  }

  /** There is a block for the request and memory for the block. */
  predicate HasRoom(ms: Memories, memorySize: nat, size: nat, alignment: nat, fromNext: Option<nat>) {
    && |ms.sys.free| == ms.sys.order + 1 && memorySize > 0 && size > 0 && alignment > 0
    && var r := TryAllocate(ms.sys, size, alignment);
    && r.Some? && MemoryFor(ms, memorySize, r.value.0, r.value.1, fromNext).Some?
  }

  function FreeIn(ms: Memories, memorySize: nat, p: Pos): (Memories, Option<nat>)
    requires p.level < |ms.sys.free| && memorySize > 0
  {
    var (pool, toNext) := Drop(ms.pool, MemoryIndex(ms.sys, memorySize, p));
    (Memories(Deallocate(ms.sys, p), pool), toNext)
  }

  // ----- Invariant

  ghost function LiveAt(s: System, memorySize: nat, i: nat): set<Pos>
    requires memorySize > 0
  {
    set p | p in Live(s) && MemoryIndex(s, memorySize, p) == i
  }

  /** A slot counts the live blocks that map to it. */
  ghost predicate Counted(s: System, memorySize: nat, pool: Pool)
    requires memorySize > 0
  {
    forall i: nat {:trigger RefsAt(pool, i)} :: |LiveAt(s, memorySize, i)| == RefsAt(pool, i)
  }

  ghost predicate SlotOk(pool: Pool, memorySize: nat, i: nat) {
    i < |pool| && pool[i].Some? ==> pool[i].value.refs > 0 && pool[i].value.size == memorySize
  }

  /** Occupied slots are referenced, hold memory of the right size, and no two hold the same. */
  ghost predicate PoolOk(pool: Pool, memorySize: nat) {
    && (forall i: nat {:trigger SlotOk(pool, memorySize, i)} :: SlotOk(pool, memorySize, i))
    && (forall i: nat, j: nat {:trigger MemoryAt(pool, i), MemoryAt(pool, j)} ::
          MemoryAt(pool, i).Some? && MemoryAt(pool, i) == MemoryAt(pool, j) ==> i == j)
  }

  ghost predicate InUse(ms: Memories, memorySize: nat) {
    && memorySize > 0 && IsPowerOfTwo(memorySize)
    && PoolOk(ms.pool, memorySize) && Counted(ms.sys, memorySize, ms.pool) && SmallBlocks(ms.sys, memorySize)
  }

  ghost predicate MemoriesOk(ms: Memories, memorySize: nat) { Inv(ms.sys) && InUse(ms, memorySize) }

  /** The next allocator returns memory that it has not handed out already. */
  ghost predicate NewMemory(pool: Pool, fromNext: Option<nat>) {
    forall i: nat {:trigger MemoryAt(pool, i)} :: MemoryAt(pool, i).Some? ==> MemoryAt(pool, i) != fromNext
  }

  // ----- Geometry of blocks inside memory objects

  ghost predicate SmallBlocks(s: System, memorySize: nat) {
    forall p :: p in Live(s) ==> BlockSize(s, p.level) <= memorySize
  }

  /** A block no larger than a memory object lies inside exactly one of them. */
  lemma BlockInsideMemory(s: System, memorySize: nat, p: Pos)
    requires IsPowerOfTwo(memorySize) && p.level <= s.order && BlockSize(s, p.level) <= memorySize
    ensures Offset(s, p) % memorySize + BlockSize(s, p.level) <= memorySize
  {
    var d := BlockSize(s, p.level);
    PowerOfTwoMeaning(memorySize);
    var j, k := s.order - p.level, Log2(memorySize);
    if k < j {
      Pow2Monotone(k, j);
    }
    Pow2Add(k - j, j);
    InsideMultiple(p.index, Pow2(k - j), d);
  }

  lemma InsideMultiple(i: nat, n: nat, d: nat)
    requires n > 0 && d > 0
    ensures n * d > 0 && i * d % (n * d) + d <= n * d
  {
    var q, r, m := i / n, i % n, n * d;
    assert i == q * n + r;
    assert i * d == (q * n + r) * d == q * m + r * d;
    MulGap(r, n, d);
    DivModUnique(i * d, m, q, r * d);
  }

  /** Live blocks placed in the same memory object occupy disjoint byte ranges of it. */
  lemma SubAllocationsDisjoint(s: System, memorySize: nat, p: Pos, q: Pos, x: nat)
    requires Tree(s) && memorySize > 0 && p in Live(s) && q in Live(s)
    requires MemoryIndex(s, memorySize, p) == MemoryIndex(s, memorySize, q)
    requires Offset(s, p) % memorySize <= x < Offset(s, p) % memorySize + BlockSize(s, p.level)
    requires Offset(s, q) % memorySize <= x < Offset(s, q) % memorySize + BlockSize(s, q.level)
    ensures p == q
  {
    var base := MemoryIndex(s, memorySize, p) * memorySize;
    assert Offset(s, p) == base + Offset(s, p) % memorySize;
    assert Offset(s, q) == base + Offset(s, q) % memorySize;
    LiveDisjoint(s, p, q, base + x);
  }

  /** The memory-relative offset keeps the alignment of the block. */
  lemma RelativeAlignment(x: nat, memorySize: nat, alignment: nat)
    requires alignment > 0 && memorySize > 0 && x % alignment == 0 && memorySize % alignment == 0
    ensures x % memorySize % alignment == 0
  {
    DivMod(x, memorySize);
    DivMod(x, alignment);
    DivMod(memorySize, alignment);
    MultipleRest(x / alignment, x / memorySize, memorySize / alignment, alignment, x % memorySize);
  }

  lemma DivMod(x: nat, d: nat)
    requires d > 0
    ensures x == x / d * d + x % d
  {
  }

  lemma MultipleRest(m: nat, q: nat, n: nat, d: nat, r: nat)
    requires d > 0 && m * d == q * (n * d) + r
    ensures r % d == 0
  {
    assert q * (n * d) == (q * n) * d;
    MultipleBelow(m, q * n, d, r);
  }

  /** What is left of a multiple after taking a smaller multiple off is one. */
  lemma MultipleBelow(a: nat, b: nat, d: nat, r: nat)
    requires d > 0 && a * d == b * d + r
    ensures r % d == 0
  {
    var k := a - b;
    assert r == k * d;
    if k < 0 {
      MulGap(a, b, d);
    } else {
      MulMod(k, d);
    }
  }

  lemma MemorySizeIsPowerOfTwo(systemSize: nat, memorySize: nat)
    requires IsPowerOfTwo(systemSize) && memorySize > 0 && IsAligned(systemSize, memorySize)
    ensures IsPowerOfTwo(memorySize)
  {
    PowerOfTwoMeaning(systemSize);
    IsAlignedMeaning(systemSize, memorySize);
    DivMod(systemSize, memorySize);
    DivisorOfPow2(memorySize, systemSize / memorySize, Log2(systemSize));
  }

  // ----- Slots

  lemma GrownSame(pool: Pool, i: nat, j: nat)
    ensures MemoryAt(Grown(pool, i), j) == MemoryAt(pool, j) && RefsAt(Grown(pool, i), j) == RefsAt(pool, j)
  {
  }

  /** Holding changes at most one slot: it counts one more, and takes new memory only if it was empty. */
  lemma HoldSlots(pool: Pool, memorySize: nat, i: nat, fromNext: Option<nat>, pool': Pool, m: Option<nat>, j: nat)
    requires (pool', m) == Hold(pool, memorySize, i, fromNext)
    ensures m == if MemoryAt(pool, i).Some? then MemoryAt(pool, i) else fromNext
    ensures MemoryAt(pool', j) == if j == i then m else MemoryAt(pool, j)
    ensures RefsAt(pool', j) == RefsAt(pool, j) + if j == i && m.Some? then 1 else 0
  {
    GrownSame(pool, i, j);
    GrownSame(pool, i, i);
  }

  lemma HoldOk(pool: Pool, memorySize: nat, i: nat, fromNext: Option<nat>, pool': Pool, m: Option<nat>)
    requires PoolOk(pool, memorySize) && NewMemory(pool, fromNext) && (pool', m) == Hold(pool, memorySize, i, fromNext)
    ensures PoolOk(pool', memorySize)
  {
    forall j: nat
      ensures SlotOk(pool', memorySize, j)
    {
      assert SlotOk(pool, memorySize, j);
      HoldSlots(pool, memorySize, i, fromNext, pool', m, j);
    }
    forall j: nat, k: nat | MemoryAt(pool', j).Some? && MemoryAt(pool', j) == MemoryAt(pool', k)
      ensures j == k
    {
      HoldSlots(pool, memorySize, i, fromNext, pool', m, j);
      HoldSlots(pool, memorySize, i, fromNext, pool', m, k);
    }
  }

  /** Dropping changes one slot: it counts one less, and gives its memory back with the last. */
  lemma DropSlots(pool: Pool, i: nat, pool': Pool, toNext: Option<nat>, j: nat)
    requires RefsAt(pool, i) > 0 && (pool', toNext) == Drop(pool, i)
    ensures toNext == if RefsAt(pool, i) == 1 then MemoryAt(pool, i) else None
    ensures MemoryAt(pool', j) == if j == i && RefsAt(pool, i) == 1 then None else MemoryAt(pool, j)
    ensures RefsAt(pool', j) == RefsAt(pool, j) - if j == i then 1 else 0
  {
  }

  lemma DropOk(pool: Pool, memorySize: nat, i: nat, pool': Pool, toNext: Option<nat>)
    requires PoolOk(pool, memorySize) && RefsAt(pool, i) > 0 && (pool', toNext) == Drop(pool, i)
    ensures PoolOk(pool', memorySize)
  {
    forall j: nat
      ensures SlotOk(pool', memorySize, j)
    {
      assert SlotOk(pool, memorySize, j);
      DropSlots(pool, i, pool', toNext, j);
    }
    forall j: nat, k: nat | MemoryAt(pool', j).Some? && MemoryAt(pool', j) == MemoryAt(pool', k)
      ensures j == k
    {
      DropSlots(pool, i, pool', toNext, j);
      DropSlots(pool, i, pool', toNext, k);
    }
  }

  // ----- Counting

  lemma SameIndex(s: System, s': System, memorySize: nat)
    requires memorySize > 0 && s'.order == s.order
    ensures forall q :: MemoryIndex(s', memorySize, q) == MemoryIndex(s, memorySize, q)
  {
  }

  lemma LiveAtAdd(s: System, s': System, memorySize: nat, p: Pos, i: nat)
    requires memorySize > 0 && s'.order == s.order && p !in Live(s) && Live(s') == Live(s) + {p}
    ensures var n := |LiveAt(s, memorySize, i)|;
            |LiveAt(s', memorySize, i)| == if i == MemoryIndex(s, memorySize, p) then n + 1 else n
  {
    SameIndex(s, s', memorySize);
    var a, b := LiveAt(s, memorySize, i), LiveAt(s', memorySize, i);
    if i == MemoryIndex(s, memorySize, p) {
      assert b == a + {p};
    } else {
      assert b == a;
    }
  }

  lemma CountAdd(s: System, s': System, memorySize: nat, p: Pos, pool: Pool, pool': Pool)
    requires memorySize > 0 && Counted(s, memorySize, pool) && s'.order == s.order
    requires p !in Live(s) && Live(s') == Live(s) + {p}
    requires forall i: nat {:trigger RefsAt(pool', i)} ::
               RefsAt(pool', i) == RefsAt(pool, i) + if i == MemoryIndex(s, memorySize, p) then 1 else 0
    ensures Counted(s', memorySize, pool')
  {
    forall i: nat
      ensures |LiveAt(s', memorySize, i)| == RefsAt(pool', i)
    {
      LiveAtAdd(s, s', memorySize, p, i);
      assert |LiveAt(s, memorySize, i)| == RefsAt(pool, i);
    }
  }

  lemma CountRemove(s: System, s': System, memorySize: nat, p: Pos, pool: Pool, pool': Pool)
    requires memorySize > 0 && Counted(s, memorySize, pool) && s'.order == s.order
    requires p in Live(s) && Live(s') == Live(s) - {p}
    requires forall i: nat {:trigger RefsAt(pool', i)} ::
               RefsAt(pool', i) == RefsAt(pool, i) - if i == MemoryIndex(s, memorySize, p) then 1 else 0
    ensures Counted(s', memorySize, pool')
  {
    SameIndex(s, s', memorySize);
    assert Live(s) == Live(s') + {p};
    forall i: nat
      ensures |LiveAt(s', memorySize, i)| == RefsAt(pool', i)
    {
      LiveAtAdd(s', s, memorySize, p, i);
      assert |LiveAt(s, memorySize, i)| == RefsAt(pool, i);
    }
  }

  /** A live block has memory, and its slot counts it. */
  lemma LiveIsCounted(s: System, memorySize: nat, p: Pos, pool: Pool)
    requires memorySize > 0 && Counted(s, memorySize, pool) && p in Live(s)
    ensures RefsAt(pool, MemoryIndex(s, memorySize, p)) > 0 && MemoryAt(pool, MemoryIndex(s, memorySize, p)).Some?
  {
    var i := MemoryIndex(s, memorySize, p);
    assert p in LiveAt(s, memorySize, i);
    assert |LiveAt(s, memorySize, i)| == RefsAt(pool, i);
  }

  // ----- Bytes in use

  ghost function LiveSizes(s: System): map<Pos, int> { map p | p in Live(s) :: BlockSize(s, p.level) }

  /** The block count and bytes that the statistics must report. */
  ghost function Usage(s: System): Stats { Stats(|Live(s)|, Total(LiveSizes(s))) }

  lemma LiveSizesAdd(s: System, s': System, p: Pos)
    requires s'.order == s.order && p !in Live(s) && Live(s') == Live(s) + {p}
    ensures LiveSizes(s') == LiveSizes(s)[p := BlockSize(s, p.level)]
  {
  }

  /** A block taken from `s` leaves `s'`. */
  lemma UsageAdd(s: System, s': System, p: Pos)
    requires s'.order == s.order && p !in Live(s) && Live(s') == Live(s) + {p}
    ensures Usage(s') == Stats(Usage(s).usedBlockCount + 1, Usage(s).usedBlockUsage + BlockSize(s, p.level))
  {
    LiveSizesAdd(s, s', p);
    TotalWith(LiveSizes(s), p, BlockSize(s, p.level), LiveSizes(s'));
  }

  /** A block returned to `s` leaves `s'`. */
  lemma UsageRemove(s: System, s': System, p: Pos)
    requires s'.order == s.order && p in Live(s) && Live(s') == Live(s) - {p}
    ensures Usage(s) == Stats(Usage(s').usedBlockCount + 1, Usage(s').usedBlockUsage + BlockSize(s, p.level))
  {
    assert Live(s) == Live(s') + {p};
    UsageAdd(s', s, p);
  }

  /** What a successful block allocation provides, in terms of memory objects. */
  lemma AllocatedBlock(s: System, memorySize: nat, requestSize: nat, alignment: nat)
    requires Inv(s) && 0 < requestSize <= memorySize && IsPowerOfTwo(requestSize) && alignment > 0
    requires TryAllocate(s, requestSize, alignment).Some?
    ensures var (s', p) := TryAllocate(s, requestSize, alignment).value;
            && Inv(s') && s'.order == s.order && p !in Live(s) && Live(s') == Live(s) + {p}
            && BlockSize(s, p.level) == requestSize && Offset(s, p) % alignment == 0 && p.level <= s.order
  {
    TryAllocateInv(s, requestSize, alignment);
    PowerOfTwoMeaning(requestSize);
    var (s', p) := TryAllocate(s, requestSize, alignment).value;
    assert p in Live(s');
    assert NodeOk(s', p);
  }

  // ----- Allocating and freeing keep the invariant

  lemma InitOk(systemSize: nat, memorySize: nat)
    requires IsPowerOfTwo(systemSize) && memorySize > 0 && IsAligned(systemSize, memorySize)
    ensures var s := Init(Log2(systemSize));
            Live(s) == {} && MemoriesOk(Memories(s, []), memorySize) && Usage(s) == Stats(0, 0)
  {
    var s := Init(Log2(systemSize));
    MemorySizeIsPowerOfTwo(systemSize, memorySize);
    InitInv(Log2(systemSize));
    assert Live(s) == {};
    forall i: nat
      ensures |LiveAt(s, memorySize, i)| == RefsAt([], i)
    {
      assert LiveAt(s, memorySize, i) == {};
    }
  }

  /** The memory object of a live block. */
  function MemoryOf(ms: Memories, memorySize: nat, p: Pos): Option<nat>
    requires memorySize > 0
  {
    MemoryAt(ms.pool, MemoryIndex(ms.sys, memorySize, p))
  }

  /** Live blocks other than `freed` stay live in the memory they were in. */
  ghost predicate KeepsMemory(ms: Memories, ms': Memories, memorySize: nat, freed: set<Pos>)
    requires memorySize > 0
  {
    && ms'.sys.order == ms.sys.order
    && forall q {:trigger MemoryOf(ms', memorySize, q)} :: q in Live(ms.sys) && q !in freed ==>
         q in Live(ms'.sys) && MemoryOf(ms', memorySize, q) == MemoryOf(ms, memorySize, q)
  }

  /** A new live block in memory of its own or in memory that is in use already, or
      the system as it was; no live block changes its memory. */
  lemma AllocateInOk(ms: Memories, memorySize: nat, size: nat, alignment: nat, fromNext: Option<nat>,
                     ms': Memories, r: Option<(Pos, nat)>)
    requires MemoriesOk(ms, memorySize) && 0 < size <= memorySize && IsPowerOfTwo(size) && IsPowerOfTwo(alignment)
    requires NewMemory(ms.pool, fromNext) && (ms', r) == AllocateIn(ms, memorySize, size, alignment, fromNext)
    ensures MemoriesOk(ms', memorySize) && KeepsMemory(ms, ms', memorySize, {})
    ensures r.None? ==> ms'.sys == ms.sys
    ensures r.Some? <==> HasRoom(ms, memorySize, size, alignment, fromNext)
    ensures r.Some? ==>
      var (p, m) := r.value;
      && MemoryFor(ms, memorySize, ms'.sys, p, fromNext) == Some(m)
      && p !in Live(ms.sys) && Live(ms'.sys) == Live(ms.sys) + {p} && MemoryOf(ms', memorySize, p) == Some(m)
      && TryAllocate(ms.sys, size, alignment) == Some((ms'.sys, p)) && BlockSize(ms'.sys, p.level) == size
  {
    var x := TryAllocate(ms.sys, size, alignment);
    if x.Some? {
      AllocatedBlock(ms.sys, memorySize, size, alignment);
      var (sys, p) := x.value;
      var i := MemoryIndex(sys, memorySize, p);
      var (pool, m) := Hold(ms.pool, memorySize, i, fromNext);
      HoldOk(ms.pool, memorySize, i, fromNext, pool, m);
      forall j: nat
        ensures MemoryAt(pool, j) == if j == i then m else MemoryAt(ms.pool, j)
        ensures m == if MemoryAt(ms.pool, i).Some? then MemoryAt(ms.pool, i) else fromNext
        ensures RefsAt(pool, j) == RefsAt(ms.pool, j) + if j == i && m.Some? then 1 else 0
      {
        HoldSlots(ms.pool, memorySize, i, fromNext, pool, m, j);
      }
      PlacedOk(ms, memorySize, sys, p, pool, m, ms');
    }
  }

  lemma PlacedOk(ms: Memories, memorySize: nat, sys: System, p: Pos, pool: Pool, m: Option<nat>, ms': Memories)
    requires MemoriesOk(ms, memorySize) && PoolOk(pool, memorySize) && Inv(sys) && sys.order == ms.sys.order
    requires p !in Live(ms.sys) && Live(sys) == Live(ms.sys) + {p} && BlockSize(sys, p.level) <= memorySize
    requires var i := MemoryIndex(sys, memorySize, p);
             && (MemoryAt(ms.pool, i).Some? ==> m == MemoryAt(ms.pool, i))
             && (forall j: nat :: MemoryAt(pool, j) == if j == i then m else MemoryAt(ms.pool, j))
             && (forall j: nat :: RefsAt(pool, j) == RefsAt(ms.pool, j) + if j == i && m.Some? then 1 else 0)
    requires ms' == if m.None? then Memories(ms.sys, pool) else Memories(sys, pool)
    ensures MemoriesOk(ms', memorySize) && KeepsMemory(ms, ms', memorySize, {})
    ensures m.Some? ==> MemoryOf(ms', memorySize, p) == m
  {
    if m.Some? {
      CountAdd(ms.sys, sys, memorySize, p, ms.pool, pool);
      forall q | q in Live(sys)
        ensures BlockSize(sys, q.level) <= memorySize
      {
        assert q != p ==> q in Live(ms.sys);
      }
    }
    forall q | q in Live(ms.sys)
      ensures MemoryOf(ms', memorySize, q) == MemoryOf(ms, memorySize, q)
    {
      assert MemoryIndex(ms'.sys, memorySize, q) == MemoryIndex(ms.sys, memorySize, q);
      LiveIsCounted(ms.sys, memorySize, q, ms.pool);
    }
  }

  /** One live block less; its memory is given back exactly when no other live block is in it. */
  lemma FreeInOk(ms: Memories, memorySize: nat, p: Pos, ms': Memories, toNext: Option<nat>)
    requires MemoriesOk(ms, memorySize) && p in Live(ms.sys) && p.level < |ms.sys.free|
    requires (ms', toNext) == FreeIn(ms, memorySize, p)
    ensures MemoriesOk(ms', memorySize) && KeepsMemory(ms, ms', memorySize, {p})
    ensures Live(ms'.sys) == Live(ms.sys) - {p}
    ensures toNext == if LiveAt(ms.sys, memorySize, MemoryIndex(ms.sys, memorySize, p)) == {p}
              then MemoryOf(ms, memorySize, p) else None
    ensures toNext.Some? ==> NewMemory(ms'.pool, toNext)
  {
    DeallocateInv(ms.sys, p);
    LiveIsCounted(ms.sys, memorySize, p, ms.pool);
    FreedSlot(ms, memorySize, p, ms', toNext);
    OnlyOneLeft(ms.sys, memorySize, p, ms.pool);
    FreedRest(ms, memorySize, p, ms');
  }

  lemma FreedSlot(ms: Memories, memorySize: nat, p: Pos, ms': Memories, toNext: Option<nat>)
    requires InUse(ms, memorySize) && p in Live(ms.sys) && ms'.sys.order == ms.sys.order
    requires Live(ms'.sys) == Live(ms.sys) - {p} && RefsAt(ms.pool, MemoryIndex(ms.sys, memorySize, p)) > 0
    requires (ms'.pool, toNext) == Drop(ms.pool, MemoryIndex(ms.sys, memorySize, p))
    ensures PoolOk(ms'.pool, memorySize) && Counted(ms'.sys, memorySize, ms'.pool)
    ensures var i := MemoryIndex(ms.sys, memorySize, p);
            && toNext == (if RefsAt(ms.pool, i) == 1 then MemoryAt(ms.pool, i) else None)
            && forall j: nat :: MemoryAt(ms'.pool, j) == if j == i && toNext.Some? then None else MemoryAt(ms.pool, j)
    ensures toNext.Some? ==> NewMemory(ms'.pool, toNext)
  {
    var i := MemoryIndex(ms.sys, memorySize, p);
    DropOk(ms.pool, memorySize, i, ms'.pool, toNext);
    forall j: nat
      ensures toNext == if RefsAt(ms.pool, i) == 1 then MemoryAt(ms.pool, i) else None
      ensures MemoryAt(ms'.pool, j) == if j == i && RefsAt(ms.pool, i) == 1 then None else MemoryAt(ms.pool, j)
      ensures RefsAt(ms'.pool, j) == RefsAt(ms.pool, j) - if j == i then 1 else 0
    {
      DropSlots(ms.pool, i, ms'.pool, toNext, j);
    }
    CountRemove(ms.sys, ms'.sys, memorySize, p, ms.pool, ms'.pool);
  }

  lemma OnlyOneLeft(s: System, memorySize: nat, p: Pos, pool: Pool)
    requires memorySize > 0 && Counted(s, memorySize, pool) && p in Live(s)
    ensures var i := MemoryIndex(s, memorySize, p); RefsAt(pool, i) == 1 <==> LiveAt(s, memorySize, i) == {p}
  {
    var at := LiveAt(s, memorySize, MemoryIndex(s, memorySize, p));
    assert p in at && |at| == RefsAt(pool, MemoryIndex(s, memorySize, p));
    assert at == {p} || |at - {p}| > 0 by {
      if |at - {p}| == 0 {
        assert at - {p} == {};
        assert at == {p};
      }
    }
  }

  lemma FreedRest(ms: Memories, memorySize: nat, p: Pos, ms': Memories)
    requires MemoriesOk(ms, memorySize) && p in Live(ms.sys) && ms'.sys.order == ms.sys.order
    requires Live(ms'.sys) == Live(ms.sys) - {p}
    requires var i := MemoryIndex(ms.sys, memorySize, p);
             forall j: nat :: MemoryAt(ms'.pool, j) ==
               if j == i && RefsAt(ms.pool, i) == 1 then None else MemoryAt(ms.pool, j)
    ensures SmallBlocks(ms'.sys, memorySize) && KeepsMemory(ms, ms', memorySize, {p})
  {
    var i := MemoryIndex(ms.sys, memorySize, p);
    OnlyOneLeft(ms.sys, memorySize, p, ms.pool);
    forall q | q in Live(ms.sys) && q != p
      ensures q in Live(ms'.sys) && MemoryOf(ms', memorySize, q) == MemoryOf(ms, memorySize, q)
    {
      assert MemoryIndex(ms'.sys, memorySize, q) == MemoryIndex(ms.sys, memorySize, q);
      assert MemoryIndex(ms.sys, memorySize, q) == i ==> q in LiveAt(ms.sys, memorySize, i);
    }
    forall q | q in Live(ms'.sys)
      ensures BlockSize(ms'.sys, q.level) <= memorySize
    {
      assert q in Live(ms.sys);
    }
  }

  // ----- What holds over every run

  /** Two live sub-allocations of one memory object share no byte of it. */
  lemma LiveApart(ms: Memories, memorySize: nat, p: Pos, q: Pos, x: nat)
    requires MemoriesOk(ms, memorySize) && p in Live(ms.sys) && q in Live(ms.sys)
    requires MemoryOf(ms, memorySize, p) == MemoryOf(ms, memorySize, q)
    requires Offset(ms.sys, p) % memorySize <= x < Offset(ms.sys, p) % memorySize + BlockSize(ms.sys, p.level)
    requires Offset(ms.sys, q) % memorySize <= x < Offset(ms.sys, q) % memorySize + BlockSize(ms.sys, q.level)
    ensures p == q
  {
    LiveIsCounted(ms.sys, memorySize, p, ms.pool);
    SubAllocationsDisjoint(ms.sys, memorySize, p, q, x);
  }

  /** A slot is occupied exactly when a live block maps to it, with one reference for each. */
  lemma OccupiedIffUsed(ms: Memories, memorySize: nat, i: nat)
    requires InUse(ms, memorySize)
    ensures MemoryAt(ms.pool, i).Some? <==> LiveAt(ms.sys, memorySize, i) != {}
    ensures RefsAt(ms.pool, i) == |LiveAt(ms.sys, memorySize, i)|
  {
    assert SlotOk(ms.pool, memorySize, i);
    assert |LiveAt(ms.sys, memorySize, i)| == RefsAt(ms.pool, i);
  }

  datatype MemoryOp = AllocOp(size: nat, alignment: nat, fromNext: Option<nat>) | FreeOp(block: Pos)

  ghost predicate LegalOp(ms: Memories, memorySize: nat, op: MemoryOp) {
    && MemoriesOk(ms, memorySize)
    && match op
       case AllocOp(size, alignment, fromNext) =>
         0 < size <= memorySize && IsPowerOfTwo(size) && IsPowerOfTwo(alignment) && NewMemory(ms.pool, fromNext)
       case FreeOp(p) => p in Live(ms.sys) && p.level < |ms.sys.free|
  }

  ghost function StepOp(ms: Memories, memorySize: nat, op: MemoryOp): Memories
    requires LegalOp(ms, memorySize, op)
  {
    match op
    case AllocOp(size, alignment, fromNext) => AllocateIn(ms, memorySize, size, alignment, fromNext).0
    case FreeOp(p) => FreeIn(ms, memorySize, p).0
  }

  ghost predicate ReachesOps(ms: Memories, memorySize: nat, ops: seq<MemoryOp>, ms': Memories)
    decreases |ops|
  {
    if ops == [] then ms' == ms
    else LegalOp(ms, memorySize, ops[0]) && ReachesOps(StepOp(ms, memorySize, ops[0]), memorySize, ops[1..], ms')
  }

  lemma StepOk(ms: Memories, memorySize: nat, op: MemoryOp, ms': Memories)
    requires LegalOp(ms, memorySize, op) && ms' == StepOp(ms, memorySize, op)
    ensures MemoriesOk(ms', memorySize)
    ensures KeepsMemory(ms, ms', memorySize, if op.FreeOp? then {op.block} else {})
  {
    match op
    case AllocOp(size, alignment, fromNext) =>
      AllocateInOk(ms, memorySize, size, alignment, fromNext, ms',
                   AllocateIn(ms, memorySize, size, alignment, fromNext).1);
    case FreeOp(p) => FreeInOk(ms, memorySize, p, ms', FreeIn(ms, memorySize, p).1);
  }

  /** Over every run, a sub-allocation that is not freed stays live in the same
      memory object and at the same offset, and the invariant holds. */
  lemma {:induction false} RunKeepsMemory(ms: Memories, memorySize: nat, ops: seq<MemoryOp>, ms': Memories, p: Pos)
    requires MemoriesOk(ms, memorySize) && ReachesOps(ms, memorySize, ops, ms') && p in Live(ms.sys)
    requires forall i :: 0 <= i < |ops| ==> ops[i] != FreeOp(p)
    ensures MemoriesOk(ms', memorySize) && p in Live(ms'.sys)
    ensures MemoryOf(ms', memorySize, p) == MemoryOf(ms, memorySize, p) && Offset(ms'.sys, p) == Offset(ms.sys, p)
    decreases |ops|
  {
    if ops != [] {
      var ms1 := StepOp(ms, memorySize, ops[0]);
      StepOk(ms, memorySize, ops[0], ms1);
      KeptMemory(ms, ms1, memorySize, if ops[0].FreeOp? then {ops[0].block} else {}, p);
      RunKeepsMemory(ms1, memorySize, ops[1..], ms', p);
    }
  }

  lemma KeptMemory(ms: Memories, ms': Memories, memorySize: nat, freed: set<Pos>, p: Pos)
    requires memorySize > 0 && KeepsMemory(ms, ms', memorySize, freed) && p in Live(ms.sys) && p !in freed
    ensures p in Live(ms'.sys) && MemoryOf(ms', memorySize, p) == MemoryOf(ms, memorySize, p)
    ensures Offset(ms'.sys, p) == Offset(ms.sys, p)
  {
    assert MemoryOf(ms', memorySize, p) == MemoryOf(ms, memorySize, p);
  }

  lemma {:induction false} RunOk(ms: Memories, memorySize: nat, ops: seq<MemoryOp>, ms': Memories)
    requires MemoriesOk(ms, memorySize) && ReachesOps(ms, memorySize, ops, ms')
    ensures MemoriesOk(ms', memorySize)
    decreases |ops|
  {
    if ops != [] {
      var ms1 := StepOp(ms, memorySize, ops[0]);
      StepOk(ms, memorySize, ops[0], ms1);
      RunOk(ms1, memorySize, ops[1..], ms');
    }
  }

  lemma ReachableOk(systemSize: nat, memorySize: nat, ops: seq<MemoryOp>, start: Memories, ms: Memories)
    requires IsPowerOfTwo(systemSize) && memorySize > 0 && IsAligned(systemSize, memorySize)
    requires start == Memories(Init(Log2(systemSize)), []) && ReachesOps(start, memorySize, ops, ms)
    ensures MemoriesOk(ms, memorySize)
  {
    InitOk(systemSize, memorySize);
    RunOk(start, memorySize, ops, ms);
  }

  /** In every reachable state a slot holds memory exactly while a live block is in
      it, with one reference for each such block. */
  lemma RunSafety(systemSize: nat, memorySize: nat, ops: seq<MemoryOp>, start: Memories, ms: Memories, i: nat)
    requires IsPowerOfTwo(systemSize) && memorySize > 0 && IsAligned(systemSize, memorySize)
    requires start == Memories(Init(Log2(systemSize)), []) && ReachesOps(start, memorySize, ops, ms)
    ensures MemoryAt(ms.pool, i).Some? <==> LiveAt(ms.sys, memorySize, i) != {}
    ensures RefsAt(ms.pool, i) == |LiveAt(ms.sys, memorySize, i)|
  {
    ReachableOk(systemSize, memorySize, ops, start, ms);
    OccupiedIffUsed(ms, memorySize, i);
  }

  /** In every reachable state, live sub-allocations of one memory object are disjoint. */
  lemma RunApart(systemSize: nat, memorySize: nat, ops: seq<MemoryOp>, start: Memories, ms: Memories, p: Pos, q: Pos,
                 x: nat)
    requires IsPowerOfTwo(systemSize) && memorySize > 0 && IsAligned(systemSize, memorySize)
    requires start == Memories(Init(Log2(systemSize)), []) && ReachesOps(start, memorySize, ops, ms)
    requires p in Live(ms.sys) && q in Live(ms.sys) && MemoryOf(ms, memorySize, p) == MemoryOf(ms, memorySize, q)
    requires Offset(ms.sys, p) % memorySize <= x < Offset(ms.sys, p) % memorySize + BlockSize(ms.sys, p.level)
    requires Offset(ms.sys, q) % memorySize <= x < Offset(ms.sys, q) % memorySize + BlockSize(ms.sys, q.level)
    ensures p == q
  {
    ReachableOk(systemSize, memorySize, ops, start, ms);
    LiveApart(ms, memorySize, p, q, x);
  }
}
