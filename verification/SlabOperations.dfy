/** Taking blocks from and returning blocks to the slabs of one size. */
module SlabOperations {
  import opened Options
  import opened Math
  import opened StableLists
  import opened SlabBlocks
  import opened SlabSpec

  /** A block in use, the table entry of its slab, and the bytes of that slab. */
  datatype Taken = Taken(slab: nat, block: nat, range: Range)

  ghost predicate SlabOk(g: Config, size: nat, s: Slab)
    requires g.blockSize > 0
  {
    && BlocksOk(s.blocks) && s.blocks.count == size / g.blockSize && s.used == Used(s.blocks)
    && (s.range.Some? <==> s.used > 0) && (s.range.Some? ==> s.range.value.size == size)
  }

  /** A slab is in the full list exactly when all its blocks are in use. */
  ghost predicate ContentOk(g: Config, size: nat, c: Cache, k: nat)
    requires g.blockSize > 0 && k < |c.slabs|
  {
    Resolve(c, k).Some? ==>
      SlabOk(g, size, Resolve(c, k).value)
      && (c.slabs[k].full <==> Resolve(c, k).value.used == Resolve(c, k).value.blocks.count)
  }

  ghost predicate CacheOk(g: Config, size: nat, c: Cache)
    requires g.blockSize > 0
  {
    Shape(c) && forall k: nat {:trigger ContentOk(g, size, c, k)} :: k < |c.slabs| ==> ContentOk(g, size, c, k)
  }

  /** Block `b` of the slab of entry `k` is in use. */
  ghost predicate LiveAt(c: Cache, k: nat, b: nat) {
    Resolve(c, k).Some? && IsLive(Resolve(c, k).value.blocks, b)
  }

  ghost function RangeAt(c: Cache, k: nat): Option<Range> {
    if Resolve(c, k).Some? then Resolve(c, k).value.range else None
  }

  lemma OthersContent(g: Config, size: nat, c: Cache, c': Cache, k: nat)
    requires g.blockSize > 0 && CacheOk(g, size, c) && Shape(c') && OthersKept(c, c', k) && k <= |c.slabs|
    requires |c'.slabs| == |c.slabs| || (k == |c.slabs| && |c'.slabs| == k + 1)
    requires k < |c'.slabs| ==> ContentOk(g, size, c', k)
    ensures CacheOk(g, size, c')
  {
    forall j: nat | j < |c'.slabs|
      ensures ContentOk(g, size, c', j)
    {
      if j != k {
        assert ContentOk(g, size, c, j);
        assert Resolve(c', j) == Resolve(c, j);
      }
    }
  }

  lemma AddSlabOk(g: Config, size: nat, c: Cache, c': Cache)
    requires g.blockSize > 0 && CacheOk(g, size, c) && size / g.blockSize > 0 && c' == AddSlab(c, size / g.blockSize)
    ensures CacheOk(g, size, c') && OthersKept(c, c', |c.slabs|) && |c'.slabs| == |c.slabs| + 1 && c'.free != []
    ensures RangeAt(c', |c.slabs|).None? && forall b :: !LiveAt(c', |c.slabs|, b)
  {
    AddSlabShape(c, size / g.blockSize, c');
    NewBlocksOk(size / g.blockSize);
    OthersContent(g, size, c, c', |c.slabs|);
  }

  /** The entry of a stored slab. */
  lemma HomeOf(c: Cache, p: Place)
    requires Shape(c) && SlabAt(c, p).Some?
    ensures var s := SlabAt(c, p).value;
            && s.indexInCache < |c.slabs| && c.slabs[s.indexInCache] == p && Resolve(c, s.indexInCache) == Some(s)
            && s.indexInList == p.index < |ListOf(c, p.full)|
  {
    var k := SlabAt(c, p).value.indexInCache;
    assert HomeOk(c, p);
    assert EntryOk(c, k);
  }

  function BackPlace(c: Cache): Place
    requires c.free != []
  {
    Place(false, |c.free| - 1)
  }

  /** The last slab of the free list is always there. */
  lemma BackIsSlab(c: Cache)
    requires Shape(c) && c.free != []
    ensures SlabAt(c, BackPlace(c)).Some?
  {
  }

  function MoveIfFull(c: Cache, p: Place, slab: Slab): Cache
    requires slab.indexInList < |ListOf(c, p.full)| && slab.indexInCache < |c.slabs|
  {
    if slab.used == slab.blocks.count then MoveSlab(c, p, slab) else c
  }

  /** Takes a block from the last free slab. A slab without memory gets `grant`;
      if there is none the block is given back. */
  function TakeFrom(c: Cache, grant: Option<Range>): (Cache, Option<Taken>)
    requires Shape(c) && c.free != []
  {
    BackIsSlab(c);
    HomeOf(c, BackPlace(c));
    var p := BackPlace(c);
    var slab := SlabAt(c, p).value;
    var (b, r) := TakeBlock(slab.blocks);
    var range := if slab.range.Some? then slab.range else grant;
    if r.None? then (PutSlab(c, p, slab.(blocks := b)), None)
    else if range.None? then (PutSlab(c, p, slab.(blocks := ReturnBlock(b, r.value))), None)
    else
      var slab' := slab.(blocks := b, used := slab.used + 1, range := range);
      (MoveIfFull(PutSlab(c, p, slab'), p, slab'), Some(Taken(slab.indexInCache, r.value, range.value)))
  }

  /** Moving a slab that just became full, or leaving it in the free list. */
  lemma MoveIfFullOk(g: Config, size: nat, c: Cache, k: nat, slab: Slab, c': Cache)
    requires g.blockSize > 0 && Shape(c) && k < |c.slabs| && Resolve(c, k) == Some(slab) && !c.slabs[k].full
    requires SlabOk(g, size, slab) && slab.indexInCache == k && slab.indexInList == c.slabs[k].index < |c.free|
    requires c' == MoveIfFull(c, c.slabs[k], slab)
    ensures Shape(c') && |c'.slabs| == |c.slabs| && OthersKept(c, c', k) && ContentOk(g, size, c', k)
    ensures Resolve(c', k).Some? && Resolve(c', k).value == slab.(indexInList := Resolve(c', k).value.indexInList)
  {
    if slab.used == slab.blocks.count {
      MoveSlabShape(c, k, slab, c');
    }
  }

  lemma OthersKeptTwice(c: Cache, c1: Cache, c2: Cache, k: nat)
    requires OthersKept(c, c1, k) && OthersKept(c1, c2, k)
    ensures OthersKept(c, c2, k)
  {
    forall j: nat | j < |c.slabs| && j != k
      ensures j < |c2.slabs| && Resolve(c2, j) == Resolve(c, j) && c2.slabs[j] == c.slabs[j]
    {
      assert Resolve(c1, j) == Resolve(c, j);
      assert Resolve(c2, j) == Resolve(c1, j);
    }
  }

  /** The block taken was not in use; exactly it becomes used, in a slab that has
      memory; no other slab is affected. A block is taken iff there is memory. */
  ghost predicate TakesOne(c: Cache, c': Cache, grant: Option<Range>, t: Taken) {
    && t.slab < |c.slabs| && |c'.slabs| == |c.slabs| && OthersKept(c, c', t.slab)
    && !LiveAt(c, t.slab, t.block) && RangeAt(c', t.slab) == Some(t.range)
    && RangeAt(c', t.slab) == (if RangeAt(c, t.slab).Some? then RangeAt(c, t.slab) else grant)
    && forall b :: LiveAt(c', t.slab, b) <==> LiveAt(c, t.slab, b) || b == t.block
  }

  /** No block changes hands and no memory either. */
  ghost predicate SameUse(c: Cache, c': Cache) {
    && |c'.slabs| == |c.slabs|
    && forall k: nat {:trigger Resolve(c', k)} :: k < |c.slabs| ==>
         RangeAt(c', k) == RangeAt(c, k) && forall b :: LiveAt(c', k, b) <==> LiveAt(c, k, b)
  }

  /** The last slab of the free list has memory. */
  predicate BackHasMemory(c: Cache) {
    c.free != [] && SlabAt(c, BackPlace(c)).Some? && SlabAt(c, BackPlace(c)).value.range.Some?
  }

  lemma TakeFromOk(g: Config, size: nat, c: Cache, grant: Option<Range>, c': Cache, r: Option<Taken>)
    requires g.blockSize > 0 && CacheOk(g, size, c) && c.free != [] && (c', r) == TakeFrom(c, grant)
    requires grant.Some? ==> grant.value.size == size
    ensures CacheOk(g, size, c')
    ensures r.Some? <==> BackHasMemory(c) || grant.Some?
    ensures r.Some? ==> r.value.slab < |c.slabs| && c.slabs[r.value.slab] == BackPlace(c)
    ensures if r.Some? then TakesOne(c, c', grant, r.value) else SameUse(c, c')
  {
    BackIsSlab(c);
    var p := BackPlace(c);
    HomeOf(c, p);
    var slab := SlabAt(c, p).value;
    var k := slab.indexInCache;
    assert ContentOk(g, size, c, k);
    TakeBlockOk(slab.blocks);
    FullHasNoFreeBlock(slab.blocks);
    var b := TakeBlock(slab.blocks).0;
    var block := TakeBlock(slab.blocks).1.value;
    if r.Some? {
      TakeSucceeds(g, size, c, grant, k, slab, c', r.value);
    } else {
      ReturnBlockOk(b, block);
      var slab' := slab.(blocks := ReturnBlock(b, block));
      PutSlabShape(c, k, slab', c');
      OthersContent(g, size, c, c', k);
      PutSameUse(c, c', k, slab, slab');
    }
  }

  lemma PutSameUse(c: Cache, c': Cache, k: nat, slab: Slab, slab': Slab)
    requires OthersKept(c, c', k) && |c'.slabs| == |c.slabs| && k < |c.slabs|
    requires Resolve(c, k) == Some(slab) && Resolve(c', k) == Some(slab') && slab'.range == slab.range
    requires forall x :: IsLive(slab'.blocks, x) <==> IsLive(slab.blocks, x)
    ensures SameUse(c, c')
  {
    forall j: nat | j < |c.slabs|
      ensures RangeAt(c', j) == RangeAt(c, j) && forall b :: LiveAt(c', j, b) <==> LiveAt(c, j, b)
    {
      assert j != k ==> Resolve(c', j) == Resolve(c, j);
    }
  }

  lemma TakeSucceeds(g: Config, size: nat, c: Cache, grant: Option<Range>, k: nat, slab: Slab, c': Cache, t: Taken)
    requires g.blockSize > 0 && CacheOk(g, size, c) && c.free != [] && (c', Some(t)) == TakeFrom(c, grant)
    requires grant.Some? ==> grant.value.size == size
    requires SlabAt(c, BackPlace(c)) == Some(slab) && k == slab.indexInCache < |c.slabs| && c.slabs[k] == BackPlace(c)
    requires Resolve(c, k) == Some(slab) && slab.indexInList == c.slabs[k].index && SlabOk(g, size, slab)
    ensures CacheOk(g, size, c') && TakesOne(c, c', grant, t)
  {
    TakeBlockOk(slab.blocks);
    var (b, r) := TakeBlock(slab.blocks);
    var slab' := slab.(blocks := b, used := slab.used + 1, range := Some(t.range));
    var c1 := PutSlab(c, c.slabs[k], slab');
    PutSlabShape(c, k, slab', c1);
    MoveIfFullOk(g, size, c1, k, slab', c');
    OthersKeptTwice(c, c1, c', k);
    OthersContent(g, size, c, c', k);
  }

  // ----- Returning a block

  function MoveToFree(c: Cache, k: nat): Cache
    requires Shape(c) && k < |c.slabs|
  {
    assert EntryOk(c, k);
    var slab := Resolve(c, k).value;
    if slab.used == slab.blocks.count then MoveSlab(c, c.slabs[k], slab) else c
  }

  /** A slab whose last block is returned gives its memory back. */
  function Emptied(slab: Slab): Slab {
    if slab.used == 0 then slab.(range := None) else slab
  }

  /** Returns a block to the slab of entry `k`; the second result is the memory given back. */
  function ReturnTo(c: Cache, k: nat, b: nat): (Cache, Option<Range>)
    requires Shape(c) && k < |c.slabs| && Resolve(c, k).Some? && Resolve(c, k).value.used > 0
  {
    var c1 := MoveToFree(c, k);
    MoveToFreeOk(c, k, c1);
    var slab := Resolve(c1, k).value;
    var slab' := slab.(blocks := ReturnBlock(slab.blocks, b), used := slab.used - 1);
    (PutSlab(c1, c1.slabs[k], Emptied(slab')), if slab'.used == 0 then slab'.range else None)
  }

  lemma MoveToFreeOk(c: Cache, k: nat, c': Cache)
    requires Shape(c) && k < |c.slabs| && c' == MoveToFree(c, k)
    ensures Shape(c') && |c'.slabs| == |c.slabs| && OthersKept(c, c', k) && EntryOk(c', k)
    ensures Resolve(c, k).Some? && Resolve(c', k).Some?
    ensures Resolve(c', k).value == Resolve(c, k).value.(indexInList := Resolve(c', k).value.indexInList)
    ensures var s := Resolve(c, k).value; c'.slabs[k].full == (c.slabs[k].full != (s.used == s.blocks.count))
  {
    assert EntryOk(c, k);
    var slab := Resolve(c, k).value;
    if slab.used == slab.blocks.count {
      MoveSlabShape(c, k, slab, c');
    }
    assert EntryOk(c', k);
  }

  /** Exactly the returned block is free afterwards; memory is given back exactly
      when it was the last block in use, and no other slab is affected. */
  ghost predicate ReturnsOne(c: Cache, c': Cache, k: nat, b: nat, freed: Option<Range>) {
    && |c'.slabs| == |c.slabs| && OthersKept(c, c', k)
    && (forall x :: LiveAt(c', k, x) <==> LiveAt(c, k, x) && x != b)
    && (freed.Some? ==> freed == RangeAt(c, k) && RangeAt(c', k).None?)
    && (freed.None? ==> RangeAt(c', k) == RangeAt(c, k))
    && (freed.Some? <==> forall x :: LiveAt(c, k, x) <==> x == b)
  }

  lemma ReturnToOk(g: Config, size: nat, c: Cache, k: nat, b: nat, c': Cache, freed: Option<Range>)
    requires g.blockSize > 0 && CacheOk(g, size, c) && k < |c.slabs| && LiveAt(c, k, b)
    ensures Resolve(c, k).Some? && Resolve(c, k).value.used > 0
    ensures (c', freed) == ReturnTo(c, k, b) ==> CacheOk(g, size, c') && ReturnsOne(c, c', k, b, freed)
  {
    assert EntryOk(c, k) && ContentOk(g, size, c, k);
    var slab := Resolve(c, k).value;
    LiveMeansUsed(slab.blocks, b);
    if (c', freed) == ReturnTo(c, k, b) {
      ReturnSucceeds(g, size, c, k, b, c', freed);
    }
  }

  /** A slab has a block in use exactly when its counter is positive, and the
      counter is one exactly when there is one such block. */
  lemma LiveMeansUsed(b: Blocks, i: nat)
    requires BlocksOk(b) && IsLive(b, i)
    ensures Used(b) > 0 && (Used(b) == 1 <==> forall x :: IsLive(b, x) <==> x == i)
  {
    LiveCount(b);
    assert i in LiveSlots(b);
    if Used(b) == 1 {
      SingletonSet(LiveSlots(b), i);
    } else {
      assert LiveSlots(b) != {i};
      var x :| x in LiveSlots(b) && x != i;
      assert IsLive(b, x);
    }
  }

  lemma SingletonSet(s: set<nat>, i: nat)
    requires |s| == 1 && i in s
    ensures s == {i} && forall x :: x in s <==> x == i
  {
    assert |s - {i}| == 0;
    assert forall x :: x in s && x != i ==> x in s - {i};
  }

  lemma ReturnSucceeds(g: Config, size: nat, c: Cache, k: nat, b: nat, c': Cache, freed: Option<Range>)
    requires g.blockSize > 0 && CacheOk(g, size, c) && k < |c.slabs| && LiveAt(c, k, b)
    requires Resolve(c, k).value.used > 0 && (c', freed) == ReturnTo(c, k, b)
    ensures CacheOk(g, size, c') && ReturnsOne(c, c', k, b, freed)
  {
    assert ContentOk(g, size, c, k);
    var slab, c1 := Resolve(c, k).value, MoveToFree(c, k);
    MoveToFreeOk(c, k, c1);
    ReturnBlockOk(slab.blocks, b);
    var s1 := Resolve(c1, k).value;
    var s2 := Emptied(s1.(blocks := ReturnBlock(s1.blocks, b), used := s1.used - 1));
    PutSlabShape(c1, k, s2, c');
    OthersKeptTwice(c, c1, c', k);
    OthersContent(g, size, c, c', k);
    OnlyOne(c, k, slab, b);
  }

  lemma OnlyOne(c: Cache, k: nat, slab: Slab, b: nat)
    requires Resolve(c, k) == Some(slab) && BlocksOk(slab.blocks) && IsLive(slab.blocks, b)
    ensures Used(slab.blocks) == 1 <==> forall x :: LiveAt(c, k, x) <==> x == b
  {
    LiveMeansUsed(slab.blocks, b);
    assert forall x :: LiveAt(c, k, x) <==> IsLive(slab.blocks, x);
  }
}
