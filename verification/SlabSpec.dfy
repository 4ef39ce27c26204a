/** Slabs, their lists and the table that finds them, as values:
    src/gpgmm/common/SlabMemoryAllocator.{h,cpp}, with prefetching disabled. */
module SlabSpec {
  import opened Options
  import opened Math
  import opened StableLists
  import opened SlabBlocks
  import opened SlabSizing

  /** `growthNum / growthDen` is the growth factor. */
  datatype Config = Config(blockSize: nat, maxSlabSize: nat, minSlabSize: nat, slabAlignment: nat,
                           limitNum: nat, limitDen: nat, growthNum: nat, growthDen: nat)

  /** What the constructor asserts, with a positive fragmentation limit. */
  predicate ConfigOk(g: Config) {
    && 0 < g.blockSize <= g.maxSlabSize && IsPowerOfTwo(g.maxSlabSize)
    && IsPowerOfTwo(g.slabAlignment) && g.slabAlignment <= g.minSlabSize
    && 0 < g.limitNum && 0 < g.limitDen && 0 < g.growthDen <= g.growthNum
  }

  /** Bytes that the next allocator handed out: where they lie in which memory object. */
  datatype Range = Range(memory: nat, offset: nat, size: nat)

  datatype Slab = Slab(blocks: Blocks, used: nat, range: Option<Range>, indexInList: nat, indexInCache: nat)

  /** Where a slab is stored; stands for a pointer to it. */
  datatype Place = Place(full: bool, index: nat)

  datatype Cache = Cache(free: Slots<Slab>, full: Slots<Slab>, slabs: seq<Place>)

  const EmptyCache := Cache([], [], [])

  function ListOf(c: Cache, full: bool): Slots<Slab> {
    if full then c.full else c.free
  }

  function WithList(c: Cache, full: bool, l: Slots<Slab>): Cache {
    if full then c.(full := l) else c.(free := l)
  }

  function SlabAt(c: Cache, p: Place): Option<Slab> {
    Slot(ListOf(c, p.full), p.index)
  }

  /** Follows entry `k` of the table. */
  function Resolve(c: Cache, k: nat): Option<Slab> {
    if k < |c.slabs| then SlabAt(c, c.slabs[k]) else None
  }

  /** Updates a slab in place. */
  function PutSlab(c: Cache, p: Place, slab: Slab): Cache {
    if p.index < |ListOf(c, p.full)| then WithList(c, p.full, ListOf(c, p.full)[p.index := Some(slab)]) else c
  }

  /** Pushes a new slab to the free list and enters it into the table. */
  function AddSlab(c: Cache, count: nat): Cache {
    var slab := Slab(NewBlocks(count), 0, None, |c.free|, |c.slabs|);
    Cache(Push(c.free, slab), c.full, c.slabs + [Place(false, |c.free|)])
  }

  /** Copies a slab to the end of the other list, erases it from its own and
      redirects its table entry. */
  function MoveSlab(c: Cache, p: Place, slab: Slab): Cache
    requires slab.indexInList < |ListOf(c, p.full)| && slab.indexInCache < |c.slabs|
  {
    var dst := ListOf(c, !p.full);
    var c1 := WithList(c, !p.full, Push(dst, slab.(indexInList := |dst|)));
    var c2 := WithList(c1, p.full, Erase(ListOf(c, p.full), slab.indexInList));
    c2.(slabs := c.slabs[slab.indexInCache := Place(!p.full, |dst|)])
  }

  // ----- The shape of a cache

  /** Entry `k` leads to the slab that names `k` and its own place. */
  ghost predicate EntryOk(c: Cache, k: nat) {
    && Resolve(c, k).Some?
    && Resolve(c, k).value.indexInCache == k && Resolve(c, k).value.indexInList == c.slabs[k].index
  }

  /** A stored slab is the one its entry leads to. */
  ghost predicate HomeOk(c: Cache, p: Place)
    requires SlabAt(c, p).Some?
  {
    var k := SlabAt(c, p).value.indexInCache;
    k < |c.slabs| && c.slabs[k] == p
  }

  /** The table and the lists agree: every entry resolves to one slab, every
      stored slab is resolved to by one entry. */
  ghost predicate Shape(c: Cache) {
    && Compact(c.free) && Compact(c.full)
    && (forall k: nat {:trigger EntryOk(c, k)} :: k < |c.slabs| ==> EntryOk(c, k))
    && (forall p {:trigger HomeOk(c, p)} :: SlabAt(c, p).Some? ==> HomeOk(c, p))
  }

  /** Entries other than `k` resolve as before, to the same place. */
  ghost predicate OthersKept(c: Cache, c': Cache, k: nat) {
    && forall j: nat {:trigger Resolve(c', j)} :: j < |c.slabs| && j != k ==>
         j < |c'.slabs| && Resolve(c', j) == Resolve(c, j) && c'.slabs[j] == c.slabs[j]
  }

  /** Two entries cannot lead to one place. */
  lemma PlacesDiffer(c: Cache, j: nat, k: nat)
    requires Shape(c) && j < |c.slabs| && k < |c.slabs| && c.slabs[j] == c.slabs[k]
    ensures j == k
  {
    assert EntryOk(c, j) && EntryOk(c, k);
  }

  /** Changing a slab in place, but not its two indices. */
  lemma PutSlabShape(c: Cache, k: nat, slab: Slab, c': Cache)
    requires Shape(c) && k < |c.slabs| && Resolve(c, k).Some? && c' == PutSlab(c, c.slabs[k], slab)
    requires slab.indexInCache == k && slab.indexInList == c.slabs[k].index
    ensures Shape(c') && c'.slabs == c.slabs && Resolve(c', k) == Some(slab) && OthersKept(c, c', k)
    ensures |c'.free| == |c.free| && |c'.full| == |c.full|
  {
    var p := c.slabs[k];
    assert forall q :: SlabAt(c', q) == if q == p then Some(slab) else SlabAt(c, q);
    forall j: nat | j < |c.slabs|
      ensures EntryOk(c', j) && (j != k ==> Resolve(c', j) == Resolve(c, j))
    {
      assert EntryOk(c, j);
      if j != k && c.slabs[j] == p {
        PlacesDiffer(c, j, k);
      }
    }
    forall q | SlabAt(c', q).Some?
      ensures HomeOk(c', q)
    {
      assert q != p ==> HomeOk(c, q);
    }
  }

  lemma AddSlabShape(c: Cache, count: nat, c': Cache)
    requires Shape(c) && c' == AddSlab(c, count)
    ensures Shape(c') && |c'.slabs| == |c.slabs| + 1 && OthersKept(c, c', |c.slabs|)
    ensures c'.slabs[|c.slabs|] == Place(false, |c.free|) && |c'.free| == |c.free| + 1
    ensures Resolve(c', |c.slabs|) == Some(Slab(NewBlocks(count), 0, None, |c.free|, |c.slabs|))
  {
    var n := Place(false, |c.free|);
    assert forall q :: q != n ==> SlabAt(c', q) == SlabAt(c, q);
    forall j: nat | j < |c'.slabs|
      ensures EntryOk(c', j) && (j < |c.slabs| ==> Resolve(c', j) == Resolve(c, j))
    {
      assert j < |c.slabs| ==> EntryOk(c, j);
    }
    forall q | SlabAt(c', q).Some?
      ensures HomeOk(c', q)
    {
      assert q != n ==> HomeOk(c, q);
    }
  }

  /** What is stored where after a move. */
  lemma MoveSlabPlaces(c: Cache, p: Place, slab: Slab, c': Cache)
    requires Compact(c.free) && Compact(c.full) && SlabAt(c, p) == Some(slab) && slab.indexInList == p.index
    requires slab.indexInCache < |c.slabs| && c' == MoveSlab(c, p, slab)
    ensures Compact(c'.free) && Compact(c'.full)
    ensures var q := Place(!p.full, |ListOf(c, !p.full)|); SlabAt(c', q) == Some(slab.(indexInList := q.index))
    ensures SlabAt(c', p).None?
    ensures forall x :: x != p && x != Place(!p.full, |ListOf(c, !p.full)|) ==> SlabAt(c', x) == SlabAt(c, x)
  {
    var src, dst := ListOf(c, p.full), ListOf(c, !p.full);
    var copy := slab.(indexInList := |dst|);
    EraseSlots(src, p.index);
    PushSlots(dst, copy);
    MoveSlabLists(c, p, slab, c', Erase(src, p.index), Push(dst, copy));
    MovedSlots(c, p, copy, c', Place(!p.full, |dst|));
  }

  lemma MovedSlots(c: Cache, p: Place, copy: Slab, c': Cache, q: Place)
    requires q == Place(!p.full, |ListOf(c, !p.full)|)
    requires forall j :: Slot(ListOf(c', p.full), j) == if j == p.index then None else Slot(ListOf(c, p.full), j)
    requires forall j :: Slot(ListOf(c', q.full), j) == if j == q.index then Some(copy) else Slot(ListOf(c, q.full), j)
    ensures SlabAt(c', p).None? && SlabAt(c', q) == Some(copy)
    ensures forall x :: x != p && x != q ==> SlabAt(c', x) == SlabAt(c, x)
  {
  }

  lemma MoveSlabLists(c: Cache, p: Place, slab: Slab, c': Cache, src: Slots<Slab>, dst: Slots<Slab>)
    requires slab.indexInList == p.index < |ListOf(c, p.full)| && slab.indexInCache < |c.slabs| &&
             c' == MoveSlab(c, p, slab)
    requires src == Erase(ListOf(c, p.full), p.index)
    requires dst == Push(ListOf(c, !p.full), slab.(indexInList := |ListOf(c, !p.full)|))
    ensures ListOf(c', p.full) == src && ListOf(c', !p.full) == dst
  {
  }

  /** Moving a slab keeps the shape; its entry now leads to the copy, and every
      other entry to the slab it led to before. */
  lemma MoveSlabShape(c: Cache, k: nat, slab: Slab, c': Cache)
    requires Shape(c) && k < |c.slabs| && Resolve(c, k) == Some(slab)
    requires slab.indexInCache == k && slab.indexInList == c.slabs[k].index < |ListOf(c, c.slabs[k].full)|
    requires c' == MoveSlab(c, c.slabs[k], slab)
    ensures Shape(c') && |c'.slabs| == |c.slabs| && OthersKept(c, c', k)
    ensures c'.slabs[k] == Place(!c.slabs[k].full, |ListOf(c, !c.slabs[k].full)|)
    ensures Resolve(c', k) == Some(slab.(indexInList := c'.slabs[k].index))
  {
    var p := c.slabs[k];
    var q := Place(!p.full, |ListOf(c, !p.full)|);
    MoveSlabPlaces(c, p, slab, c');
    assert SlabAt(c, q).None?;
    forall j: nat | j < |c.slabs|
      ensures EntryOk(c', j) && (j != k ==> Resolve(c', j) == Resolve(c, j))
    {
      assert EntryOk(c, j);
      if j != k && c.slabs[j] == p {
        PlacesDiffer(c, j, k);
      }
    }
    forall x | SlabAt(c', x).Some?
      ensures HomeOk(c', x)
    {
      if x != q {
        assert HomeOk(c, x);
      }
    }
  }
}
