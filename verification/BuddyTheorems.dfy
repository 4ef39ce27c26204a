/** What every reachable buddy system guarantees: the blocks tile the memory,
    an allocation fails only for want of room, freeing undoes allocating, and
    freeing everything restores the initial system. */
module BuddyTheorems {
  import opened Sets
  import opened Options
  import opened Math
  import opened BuddySystem

  // ----- Tiling

  /** The position of level `l` that covers byte `x`. */
  function At(s: System, l: nat, x: nat): Pos {
    Pos(l, Quotient(x, BlockSize(s, l)))
  }

  ghost predicate IsLeafAt(s: System, x: nat, l: nat) {
    l <= s.order && At(s, l, x) in s.blocks && s.blocks[At(s, l, x)] != Split
  }

  ghost predicate InRange(s: System, p: Pos, x: nat) {
    Offset(s, p) <= x < Offset(s, p) + BlockSize(s, p.level)
  }

  lemma InRangeIsAt(s: System, p: Pos, x: nat)
    ensures InRange(s, p, x) <==> p == At(s, p.level, x)
  {
    var d := BlockSize(s, p.level);
    assert x == x / d * d + x % d;
    if InRange(s, p, x) {
      DivModUnique(x, d, p.index, x - p.index * d);
    }
  }

  lemma AtParent(s: System, l: nat, x: nat)
    requires 0 < l <= s.order
    ensures Parent(At(s, l, x)) == At(s, l - 1, x)
    ensures At(s, l, x) in {Left(At(s, l - 1, x)), Right(At(s, l - 1, x))}
  {
    DivTwice(x, BlockSize(s, l));
    assert BlockSize(s, l - 1) == 2 * BlockSize(s, l);
  }

  lemma {:induction false} LeafBelow(s: System, x: nat, l: nat) returns (m: nat)
    requires Tree(s) && l <= s.order && At(s, l, x) in s.blocks
    ensures l <= m && IsLeafAt(s, x, m)
    decreases s.order - l
  {
    if s.blocks[At(s, l, x)] == Split {
      assert NodeOk(s, At(s, l, x));
      AtParent(s, l + 1, x);
      m := LeafBelow(s, x, l + 1);
    } else {
      m := l;
    }
  }

  lemma {:induction false} AncestorIsSplit(s: System, x: nat, l: nat, m: nat)
    requires Tree(s) && l < m <= s.order && At(s, m, x) in s.blocks
    ensures At(s, l, x) in s.blocks && s.blocks[At(s, l, x)] == Split
    decreases m
  {
    ParentIsSplit(s, At(s, m, x));
    AtParent(s, m, x);
    if l < m - 1 {
      AncestorIsSplit(s, x, l, m - 1);
    }
  }

  lemma LeafUnique(s: System, x: nat, l: nat, m: nat)
    requires Tree(s) && IsLeafAt(s, x, l) && IsLeafAt(s, x, m)
    ensures l == m
  {
    if l < m {
      AncestorIsSplit(s, x, l, m);
    } else if m < l {
      AncestorIsSplit(s, x, m, l);
    }
  }

  /** Every byte of the system lies in exactly one leaf block. */
  lemma Tiling(s: System, x: nat)
    requires Tree(s) && x < Pow2(s.order)
    ensures exists l :: IsLeafAt(s, x, l) && forall m :: IsLeafAt(s, x, m) ==> m == l
  {
    DivModUnique(x, Pow2(s.order), 0, x);
    var l := LeafBelow(s, x, 0);
    forall m | IsLeafAt(s, x, m)
      ensures m == l
    {
      LeafUnique(s, x, l, m);
    }
  }

  /** Distinct live blocks never share a byte. */
  lemma LiveDisjoint(s: System, p: Pos, q: Pos, x: nat)
    requires Tree(s) && p in Live(s) && q in Live(s) && InRange(s, p, x) && InRange(s, q, x)
    ensures p == q
  {
    InRangeIsAt(s, p, x);
    InRangeIsAt(s, q, x);
    assert NodeOk(s, p) && NodeOk(s, q);
    LeafUnique(s, x, p.level, q.level);
  }

  /** A block lies inside the system, aligned to its size, which is a power of two. */
  lemma LiveInside(s: System, p: Pos)
    requires Tree(s) && p in s.blocks
    ensures Offset(s, p) + BlockSize(s, p.level) <= Pow2(s.order)
    ensures Offset(s, p) % BlockSize(s, p.level) == 0 && IsPowerOfTwo(BlockSize(s, p.level))
  {
    assert NodeOk(s, p);
    Pow2Add(p.level, s.order - p.level);
    MulGap(p.index, Pow2(p.level), BlockSize(s, p.level));
    MulMod(p.index, BlockSize(s, p.level));
    Pow2IsPowerOfTwo(s.order - p.level);
  }

  // ----- Failure

  ghost predicate ByteFree(s: System, x: nat) {
    exists l :: IsLeafAt(s, x, l) && s.blocks[At(s, l, x)] == Free
  }

  /** All bytes of the naturally aligned window `w` are free. */
  ghost predicate WindowFree(s: System, w: Pos) {
    forall x: nat :: InRange(s, w, x) ==> ByteFree(s, x)
  }

  lemma ChildWindows(s: System, p: Pos)
    requires p.level < s.order && WindowFree(s, p)
    ensures WindowFree(s, Left(p)) && WindowFree(s, Right(p))
  {
    var d := BlockSize(s, p.level + 1);
    assert BlockSize(s, p.level) == 2 * d;
    assert 2 * p.index * d == p.index * (2 * d);
    assert (2 * p.index + 1) * d == 2 * p.index * d + d;
    forall x: nat
      ensures InRange(s, Left(p), x) ==> InRange(s, p, x)
      ensures InRange(s, Right(p), x) ==> InRange(s, p, x)
    {
    }
  }

  lemma FirstByte(s: System, p: Pos)
    ensures InRange(s, p, Offset(s, p)) && At(s, p.level, Offset(s, p)) == p
  {
    InRangeIsAt(s, p, Offset(s, p));
  }

  /** Eager coalescing: a block of the tree whose bytes are all free is one free block. */
  lemma {:induction false} FreeWindowIsFreeBlock(s: System, p: Pos)
    requires Inv(s) && p in s.blocks && WindowFree(s, p)
    ensures s.blocks[p] == Free
    decreases s.order - p.level
  {
    assert NodeOk(s, p);
    if s.blocks[p] == Split {
      ChildWindows(s, p);
      FreeWindowIsFreeBlock(s, Left(p));
      FreeWindowIsFreeBlock(s, Right(p));
      ChildPositions(p);
      NotBothFree(s, Left(p));
    } else {
      var x := Offset(s, p);
      FirstByte(s, p);
      assert ByteFree(s, x);
      var l :| IsLeafAt(s, x, l) && s.blocks[At(s, l, x)] == Free;
      LeafUnique(s, x, l, p.level);
    }
  }

  /** No two buddies are both free. */
  lemma NotBothFree(s: System, p: Pos)
    requires Inv(s) && p.level > 0 && p in s.blocks && BuddyOf(p) in s.blocks
    ensures s.blocks[p] != Free || s.blocks[BuddyOf(p)] != Free
  {
    assert !FreePair(s, p);
  }

  /** A free window lies inside one free block of its own level or above. */
  lemma FreeWindowHasFreeAncestor(s: System, w: Pos) returns (m: nat)
    requires Inv(s) && w.level <= s.order && WindowFree(s, w)
    ensures m <= w.level && At(s, m, Offset(s, w)) in s.blocks
    ensures s.blocks[At(s, m, Offset(s, w))] == Free
  {
    var x := Offset(s, w);
    FirstByte(s, w);
    assert ByteFree(s, x);
    m :| IsLeafAt(s, x, m) && s.blocks[At(s, m, x)] == Free;
    if m > w.level {
      AncestorIsSplit(s, x, w.level, m);
      FreeWindowIsFreeBlock(s, w);
    }
  }

  lemma {:induction false} NextFreeLevelFinds(s: System, level: nat, alignment: nat, m: nat)
    requires m <= level < |s.free| && alignment > 0 && s.free[m] != []
    requires Offset(s, Pos(m, s.free[m][0])) % alignment == 0
    ensures NextFreeLevel(s, level, alignment) >= 0
  {
    if level == m {
      IsAlignedMeaning(s.free[m][0] * BlockSize(s, m), alignment);
    } else {
      NextFreeLevelFinds(s, level - 1, alignment, m);
    }
  }

  lemma MultipleOfMultiple(i: nat, d: nat, a: nat)
    requires a > 0 && d % a == 0
    ensures i * d % a == 0
  {
    var q := d / a;
    assert i * d == i * (q * a) == (i * q) * a;
    MulMod(i * q, a);
  }

  /** Blocks at least as large as a power of two start at its multiples. */
  lemma HeadAligned(s: System, alignment: nat, l: nat, m: nat, i: nat)
    requires m <= l <= s.order && IsPowerOfTwo(alignment) && BlockSize(s, l) >= alignment
    ensures i * BlockSize(s, m) % alignment == 0
  {
    PowerOfTwoMeaning(alignment);
    Pow2Monotone(s.order - l, s.order - m);
    if Log2(alignment) > s.order - m {
      Pow2Monotone(s.order - m + 1, Log2(alignment));
    }
    Pow2Divides(Log2(alignment), s.order - m);
    MultipleOfMultiple(i, BlockSize(s, m), alignment);
  }

  /** Completeness: a free, naturally aligned window that is at least as large
      as the request and the alignment makes the allocation succeed. */
  lemma RoomMeansSuccess(s: System, requestSize: nat, alignment: nat, w: Pos)
    requires Inv(s) && 0 < requestSize <= Pow2(s.order) && IsPowerOfTwo(alignment)
    requires w.level <= s.order && WindowFree(s, w)
    requires BlockSize(s, w.level) >= PrevPowerOfTwo(requestSize) && BlockSize(s, w.level) >= alignment
    ensures TryAllocate(s, requestSize, alignment).Some?
  {
    var t := LevelOf(s, requestSize);
    var m := FreeWindowHasFreeAncestor(s, w);
    var x := Offset(s, w);
    if w.level > t {
      Pow2Monotone(s.order - w.level, s.order - t);
    }
    assert LevelListed(s, {}, m);
    assert ShouldList(s, {}, At(s, m, x));
    assert At(s, m, x).index in s.free[m];
    HeadAligned(s, alignment, w.level, m, s.free[m][0]);
    NextFreeLevelFinds(s, t, alignment, m);
  }

  /** Soundness: the block handed out was free, aligned, and of the rounded size. */
  lemma SuccessMeansRoom(s: System, requestSize: nat, alignment: nat)
    requires Inv(s) && requestSize > 0 && alignment > 0
    requires TryAllocate(s, requestSize, alignment).Some?
    ensures var p := TryAllocate(s, requestSize, alignment).value.1;
            && p.level == LevelOf(s, requestSize) && WindowFree(s, p)
            && Offset(s, p) % alignment == 0
  {
    var t := LevelOf(s, requestSize);
    var c := NextFreeLevel(s, t, alignment);
    var h := Pos(c, s.free[c][0]);
    NextFreeLevelAligned(s, t, alignment);
    CoalescedWeaken(s, Pair(h));
    SplitDownInv(s, c, t);
    HeadIsFree(s, c);
    var p := SplitDown(s, c, t).1;
    Pow2Monotone(s.order - t, s.order - c);
    forall x: nat | InRange(s, p, x)
      ensures ByteFree(s, x)
    {
      assert InRange(s, h, x);
      InRangeIsAt(s, h, x);
      assert IsLeafAt(s, x, c);
    }
  }

  /** With an alignment no larger than the rounded request, an allocation
      succeeds exactly when some naturally aligned window of that size is free. */
  lemma AllocationExact(s: System, requestSize: nat, alignment: nat)
    requires Inv(s) && 0 < requestSize <= Pow2(s.order) && IsPowerOfTwo(alignment)
    requires alignment <= PrevPowerOfTwo(requestSize)
    ensures TryAllocate(s, requestSize, alignment).Some? <==>
            exists i: nat :: WindowFree(s, Pos(LevelOf(s, requestSize), i))
  {
    var t := LevelOf(s, requestSize);
    if TryAllocate(s, requestSize, alignment).Some? {
      SuccessMeansRoom(s, requestSize, alignment);
      var p := TryAllocate(s, requestSize, alignment).value.1;
      assert WindowFree(s, Pos(t, p.index));
    }
    if i: nat :| WindowFree(s, Pos(t, i)) {
      RoomMeansSuccess(s, requestSize, alignment, Pos(t, i));
    }
  }

  /** A request for 3 units is given a block of 2. */
  lemma BlockCanBeTooSmall()
    ensures BlockSize(Init(2), LevelOf(Init(2), 3)) == 2
  {
    assert Pow2(0) == 1 && Pow2(1) == 2 && Pow2(2) == 4;
    assert Log2(3) == 1 + Log2(1);
  }

  /** A block covers the request exactly when the request is a power of two,
      because the level is computed by rounding down. */
  lemma BlockCoversRequestIff(s: System, requestSize: nat)
    requires 0 < requestSize <= Pow2(s.order)
    ensures BlockSize(s, LevelOf(s, requestSize)) >= requestSize <==> IsPowerOfTwo(requestSize)
  {
    PowerOfTwoMeaning(requestSize);
    Pow2IsPowerOfTwo(Log2(requestSize));
  }

  /** With any alignment, an allocation succeeds exactly when the head of the free
      list of some level, the request's or above, is aligned: other free blocks are
      not looked at. */
  lemma AllocationNeedsAlignedHead(s: System, requestSize: nat, alignment: nat)
    requires Inv(s) && 0 < requestSize <= Pow2(s.order) && IsPowerOfTwo(alignment)
    ensures TryAllocate(s, requestSize, alignment).Some? <==>
            exists l: nat :: l <= LevelOf(s, requestSize) && s.free[l] != [] &&
                Offset(s, Pos(l, s.free[l][0])) % alignment == 0
  {
    var t := LevelOf(s, requestSize);
    if l: nat :| l <= t && s.free[l] != [] && Offset(s, Pos(l, s.free[l][0])) % alignment == 0 {
      NextFreeLevelFinds(s, t, alignment, l);
    }
    if TryAllocate(s, requestSize, alignment).Some? {
      var c: nat := NextFreeLevel(s, t, alignment);
      NextFreeLevelAligned(s, t, alignment);
      assert c <= t && s.free[c] != [] && Offset(s, Pos(c, s.free[c][0])) % alignment == 0;
    }
  }

  /** Four blocks, of which 1 and 2 are free and listed in this order. */
  const TwoMiddleFree := System(2, map[
    Pos(0, 0) := Split, Pos(1, 0) := Split, Pos(1, 1) := Split,
    Pos(2, 0) := Allocated, Pos(2, 1) := Free, Pos(2, 2) := Free, Pos(2, 3) := Allocated], [[], [], [1, 2]])

  lemma TwoMiddleFreeTree(s: System)
    requires s == TwoMiddleFree
    ensures Tree(s)
  {
    assert Pow2(0) == 1 && Pow2(1) == 2 && Pow2(2) == 4;
  }

  lemma TwoMiddleFreeListed(s: System)
    requires s == TwoMiddleFree
    ensures Listed(s, {}) && Coalesced(s, {})
  {
    forall l: nat | l < |s.free|
      ensures LevelListed(s, {}, l)
    {
      forall i: nat
        ensures i in s.free[l] <==> ShouldList(s, {}, Pos(l, i))
      {
      }
    }
  }

  /** So an alignment above the request can fail although an aligned block is free:
      block 2 is wanted, block 1 is the head. */
  lemma AlignedBlockCanBeMissed() returns (s: System)
    ensures Inv(s) && Pos(2, 2) in s.blocks && s.blocks[Pos(2, 2)] == Free && Offset(s, Pos(2, 2)) == 2
    ensures BlockSize(s, 2) == 1 && TryAllocate(s, 1, 2).None?
    ensures s == TwoMiddleFree
  {
    s := TwoMiddleFree;
    TwoMiddleFreeTree(s);
    TwoMiddleFreeListed(s);
    assert Pow2(0) == 1 && Pow2(1) == 2 && Pow2(2) == 4;
    Pow2IsPowerOfTwo(1);
    AllocationNeedsAlignedHead(s, 1, 2);
    assert Offset(s, Pos(2, 1)) == 1;
  }

  // ----- The nearest block is split

  /** The head of the list of level `l` can be allocated from. */
  ghost predicate Serves(s: System, l: nat, alignment: nat)
    requires alignment > 0
  {
    l < |s.free| && s.free[l] != [] && Offset(s, Pos(l, s.free[l][0])) % alignment == 0
  }

  /** Going up from the level of the request, the first list that serves is found. */
  lemma {:induction false} NextFreeLevelIsNearest(s: System, level: nat, alignment: nat)
    requires level < |s.free| && alignment > 0
    ensures var c := NextFreeLevel(s, level, alignment);
            && (c >= 0 ==> Serves(s, c, alignment))
            && forall l: nat {:trigger Serves(s, l, alignment)} :: c < l <= level ==> !Serves(s, l, alignment)
  {
    if s.free[level] != [] {
      IsAlignedMeaning(s.free[level][0] * BlockSize(s, level), alignment);
    }
    if level > 0 {
      NextFreeLevelIsNearest(s, level - 1, alignment);
    }
  }

  /** Splitting down from a head touches no other block and ends at its first byte. */
  lemma {:induction false} SplitDownKeeps(s: System, c: nat, t: nat, s': System, p: Pos)
    requires Tree(s) && Listed(s, {}) && c <= t <= s.order && s.free[c] != [] && (s', p) == SplitDown(s, c, t)
    ensures s'.order == s.order && p.level == t && Offset(s', p) == Offset(s, Pos(c, s.free[c][0]))
    ensures OthersStay(s, s', Pos(c, s.free[c][0]))
    decreases t - c
  {
    if c < t {
      var h, s1 := Pos(c, s.free[c][0]), SplitHead(s, c);
      SplitHeadTree(s, c);
      SplitHeadListed(s, c);
      SplitHeadFirst(s, c, h);
      SplitDownKeeps(s1, c + 1, t, s', p);
      HalfOffset(s, c, h.index);
      HeadIsFree(s, c);
      NoChildren(s, h);
      SplitHeadStays(s, c, s1, s');
    }
  }

  ghost predicate OthersStay(s: System, s': System, h: Pos) {
    forall q {:trigger q in s'.blocks} :: q in s.blocks && q != h ==> q in s'.blocks && s'.blocks[q] == s.blocks[q]
  }

  lemma SplitHeadStays(s: System, c: nat, s1: System, s': System)
    requires c + 1 < |s.free| && s.free[c] != [] && s1 == SplitHead(s, c)
    requires var h := Pos(c, s.free[c][0]); Left(h) !in s.blocks && Right(h) !in s.blocks && OthersStay(s1, s', Left(h))
    ensures OthersStay(s, s', Pos(c, s.free[c][0]))
  {
    var h := Pos(c, s.free[c][0]);
    forall q | q in s.blocks && q != h
      ensures q in s'.blocks && s'.blocks[q] == s.blocks[q]
    {
      assert q in s1.blocks && s1.blocks[q] == s.blocks[q] && q != Left(h);
    }
  }

  /** An allocation takes the first bytes of the free block that is nearest in size:
      the head of a list that serves, where no list of smaller sufficient blocks
      does. All other blocks stay as they are. */
  lemma NearestBlock(s: System, requestSize: nat, alignment: nat, s': System, p: Pos) returns (c: nat)
    requires Inv(s) && requestSize > 0 && alignment > 0 && TryAllocate(s, requestSize, alignment) == Some((s', p))
    ensures requestSize <= Pow2(s.order) && c <= LevelOf(s, requestSize) == p.level && Serves(s, c, alignment)
    ensures forall l: nat {:trigger Serves(s, l, alignment)} ::
              c < l <= LevelOf(s, requestSize) ==> !Serves(s, l, alignment)
    ensures Offset(s', p) == Offset(s, Pos(c, s.free[c][0])) && OthersStay(s, s', Pos(c, s.free[c][0]))
  {
    var t := LevelOf(s, requestSize);
    NextFreeLevelIsNearest(s, t, alignment);
    c := NextFreeLevel(s, t, alignment);
    SplitDownKeeps(s, c, t, s', p);
  }

  lemma HalfOffset(s: System, c: nat, i: nat)
    requires c < s.order
    ensures Offset(s, Pos(c + 1, 2 * i)) == Offset(s, Pos(c, i))
  {
    var n := BlockSize(s, c + 1);
    assert BlockSize(s, c) == 2 * n;
    assert (2 * i) * n == i * (2 * n);
  }
  // ----- Freeing undoes allocating

  /** The system with the head of level `c` unlisted but still free. */
  function DetachHead(s: System, c: nat): System
    requires c < |s.free| && s.free[c] != []
  {
    s.(free := s.free[c := s.free[c][1..]])
  }

  lemma MergeUndoesSplit(s: System, c: nat)
    requires Tree(s) && Listed(s, {}) && c < s.order && s.free[c] != []
    ensures var s1 := SplitHead(s, c);
            var h := Pos(c, s.free[c][0]);
            && s1.free[c + 1] != []
            && MergePair(DetachHead(s1, c + 1), Left(h)) == DetachHead(s, c)
  {
    var h := Pos(c, s.free[c][0]);
    HeadIsFree(s, c);
    NoChildren(s, h);
    SplitDetached(s, c, h, DetachHead(SplitHead(s, c), c + 1));
    MergeTwo(DetachHead(SplitHead(s, c), c + 1), s, h);
  }

  lemma SplitDetached(s: System, c: nat, h: Pos, d: System)
    requires c + 1 < |s.free| && s.free[c] != [] && h == Pos(c, s.free[c][0]) && d == DetachHead(SplitHead(s, c), c + 1)
    ensures d.order == s.order && d.blocks == s.blocks[h := Split][Left(h) := Free][Right(h) := Free]
    ensures |d.free| == |s.free| && d.free[c + 1] == [Right(h).index] + s.free[c + 1]
    ensures d.free[c + 1 := s.free[c + 1]] == DetachHead(s, c).free
  {
  }

  lemma MergeTwo(d: System, s: System, h: Pos)
    requires h.level + 1 < |d.free| == |s.free|
    requires h in s.blocks && s.blocks[h] == Free && Left(h) !in s.blocks && Right(h) !in s.blocks
    requires d.blocks == s.blocks[h := Split][Left(h) := Free][Right(h) := Free]
    requires d.free[h.level + 1] == [Right(h).index] + s.free[h.level + 1]
    ensures MergePair(d, Left(h)) == d.(blocks := s.blocks, free := d.free[h.level + 1 := s.free[h.level + 1]])
  {
    ChildPositions(h);
    var m := MergePair(d, Left(h));
    assert m.blocks == (d.blocks - {Left(h), Right(h)})[h := Free];
    assert m.blocks == s.blocks;
    assert d.free[h.level + 1][1..] == s.free[h.level + 1];
  }

  /** Freeing the block that was just split off merges back to the block it came from. */
  lemma MergeTakenHead(s: System, c: nat)
    requires Tree(s) && Listed(s, {}) && c <= s.order && s.free[c] != []
    ensures Deallocate(TakeHead(s, c), Pos(c, s.free[c][0])) == MergeUp(DetachHead(s, c), Pos(c, s.free[c][0]))
  {
    var h := Pos(c, s.free[c][0]);
    HeadIsFree(s, c);
    assert TakeHead(s, c).blocks[h := Free] == s.blocks;
  }

  lemma SplitHeadFirst(s: System, c: nat, h: Pos)
    requires c + 1 < |s.free| && s.free[c] != [] && h == Pos(c, s.free[c][0])
    ensures var s1 := SplitHead(s, c);
            && |s1.free| == |s.free| && s1.free[c + 1] != [] && Pos(c + 1, s1.free[c + 1][0]) == Left(h)
            && Right(h) in DetachHead(s1, c + 1).blocks && DetachHead(s1, c + 1).blocks[Right(h)] == Free
  {
  }

  lemma MergeUpOnce(d: System, p: Pos)
    requires 0 < p.level < |d.free| && BuddyOf(p) in d.blocks && d.blocks[BuddyOf(p)] == Free
    ensures MergeUp(d, p) == MergeUp(MergePair(d, p), Parent(p))
  {
  }

  lemma MergeSplitHead(s: System, c: nat, h: Pos, d: System)
    requires c + 1 < |s.free| && s.free[c] != [] && h == Pos(c, s.free[c][0])
    requires SplitHead(s, c).free[c + 1] != [] && d == DetachHead(SplitHead(s, c), c + 1)
    requires MergePair(d, Left(h)) == DetachHead(s, c)
    ensures MergeUp(d, Left(h)) == MergeUp(DetachHead(s, c), h)
  {
    SplitHeadFirst(s, c, h);
    ChildPositions(h);
    MergeUpOnce(d, Left(h));
  }

  lemma {:induction false} MergeReachesHead(s: System, c: nat, t: nat)
    requires Tree(s) && Listed(s, {}) && c <= t <= s.order && s.free[c] != []
    ensures var (s', p) := SplitDown(s, c, t);
            && p.level < |s'.free|
            && Deallocate(s', p) == MergeUp(DetachHead(s, c), Pos(c, s.free[c][0]))
    decreases t - c
  {
    if c == t {
      MergeTakenHead(s, c);
    } else {
      SplitHeadTree(s, c);
      SplitHeadListed(s, c);
      MergeUndoesSplit(s, c);
      SplitHeadFirst(s, c, Pos(c, s.free[c][0]));
      MergeSplitHead(s, c, Pos(c, s.free[c][0]), DetachHead(SplitHead(s, c), c + 1));
      MergeReachesHead(SplitHead(s, c), c + 1, t);
    }
  }

  /** Allocating a block and freeing it again restores the tree and every free
      list, element for element. */
  lemma RoundTrip(s: System, requestSize: nat, alignment: nat)
    requires Inv(s) && requestSize > 0 && alignment > 0
    requires TryAllocate(s, requestSize, alignment).Some?
    ensures var (s', p) := TryAllocate(s, requestSize, alignment).value;
            p.level < |s'.free| && Deallocate(s', p) == s
  {
    var t := LevelOf(s, requestSize);
    var c := NextFreeLevel(s, t, alignment);
    var h := Pos(c, s.free[c][0]);
    MergeReachesHead(s, c, t);
    HeadIsFree(s, c);
    assert !FreePair(s, h);
    var d := DetachHead(s, c);
    assert [h.index] + d.free[c] == s.free[c];
    assert d.free[c := [h.index] + d.free[c]] == s.free;
  }

  // ----- Freeing everything

  /** A subtree without live blocks is a single free block. */
  lemma {:induction false} UnusedSubtree(s: System, p: Pos)
    requires Inv(s) && Live(s) == {} && p in s.blocks
    ensures s.blocks[p] == Free
    decreases s.order - p.level
  {
    assert NodeOk(s, p);
    assert s.blocks[p] == Allocated ==> p in Live(s);
    if s.blocks[p] == Split {
      UnusedSubtree(s, Left(p));
      UnusedSubtree(s, Right(p));
      ChildPositions(p);
      NotBothFree(s, Left(p));
    }
  }

  lemma OnlyRoot(s: System, p: Pos)
    requires Inv(s) && Live(s) == {} && p in s.blocks
    ensures p == Pos(0, 0)
  {
    assert NodeOk(s, p);
    if p.level > 0 {
      ParentIsSplit(s, p);
      UnusedSubtree(s, Parent(p));
    }
  }

  lemma FirstTwoDiffer(xs: seq<nat>)
    requires Distinct(xs) && |xs| > 1
    ensures xs[0] in xs && xs[1] in xs && xs[0] != xs[1]
  {
  }

  lemma SingletonList(xs: seq<nat>)
    requires Distinct(xs) && forall i: nat :: i in xs <==> i == 0
    ensures xs == [0]
  {
    assert forall k :: 0 <= k < |xs| ==> xs[k] in xs;
    if |xs| > 1 {
      FirstTwoDiffer(xs);
    }
    assert 0 in xs;
  }

  /** Without live blocks the system is back in its initial state. */
  lemma Collapse(s: System)
    requires Inv(s) && Live(s) == {}
    ensures s == Init(s.order)
  {
    UnusedSubtree(s, Pos(0, 0));
    assert s.blocks == Init(s.order).blocks by {
      forall p | p in s.blocks
        ensures p == Pos(0, 0)
      {
        OnlyRoot(s, p);
      }
    }
    forall l: nat | l < |s.free|
      ensures s.free[l] == Init(s.order).free[l]
    {
      assert LevelListed(s, {}, l);
      if l == 0 {
        SingletonList(s.free[0]);
      } else if s.free[l] != [] {
        HeadIsFree(s, l);
        OnlyRoot(s, Pos(l, s.free[l][0]));
      }
    }
    assert s.free == Init(s.order).free;
  }

  // ----- Runs

  datatype Op = Alloc(size: nat, alignment: nat) | Dealloc(block: Pos)

  /** What the source asserts of its callers. */
  ghost predicate Legal(s: System, op: Op) {
    match op
    case Alloc(size, alignment) => size > 0 && IsPowerOfTwo(alignment)
    case Dealloc(block) => block in Live(s)
  }

  ghost function Step(s: System, op: Op): System
    requires Inv(s) && Legal(s, op)
  {
    match op
    case Alloc(size, alignment) =>
      var r := TryAllocate(s, size, alignment);
      if r.Some? then r.value.0 else s
    case Dealloc(block) => assert NodeOk(s, block); Deallocate(s, block)
  }

  lemma StepInv(s: System, op: Op)
    requires Inv(s) && Legal(s, op)
    ensures Inv(Step(s, op)) && Step(s, op).order == s.order
  {
    match op
    case Alloc(size, alignment) => TryAllocateInv(s, size, alignment);
    case Dealloc(block) => DeallocateInv(s, block);
  }

  /** `s'` is reached from `s` by legal calls. */
  ghost predicate Reaches(s: System, ops: seq<Op>, s': System)
    decreases |ops|
  {
    if ops == [] then s' == s
    else Inv(s) && Legal(s, ops[0]) && Reaches(Step(s, ops[0]), ops[1..], s')
  }

  /** The invariant holds in every reachable state. */
  lemma {:induction false} ReachableInv(s: System, ops: seq<Op>, s': System)
    requires Inv(s) && Reaches(s, ops, s')
    ensures Inv(s') && s'.order == s.order
    decreases |ops|
  {
    if ops != [] {
      StepInv(s, ops[0]);
      ReachableInv(Step(s, ops[0]), ops[1..], s');
    }
  }

  /** Freeing all live blocks, in any order, yields the initial system. */
  lemma {:induction false} FreeAllInAnyOrder(s: System, order: seq<Pos>, s': System)
    requires Inv(s)
    requires forall p :: p in order <==> p in Live(s)
    requires forall i, j :: 0 <= i < j < |order| ==> order[i] != order[j]
    requires Reaches(s, seq(|order|, i requires 0 <= i < |order| => Dealloc(order[i])), s')
    ensures s' == Init(s.order)
    decreases |order|
  {
    var ops := seq(|order|, i requires 0 <= i < |order| => Dealloc(order[i]));
    if order == [] {
      assert Live(s) == {};
      Collapse(s);
    } else {
      var s1 := Step(s, ops[0]);
      assert order[0] in order;
      DeallocateInv(s, order[0]);
      assert ops[1..] == seq(|order[1..]|, i requires 0 <= i < |order[1..]| => Dealloc(order[1..][i]));
      assert forall p :: p in order[1..] <==> p in Live(s1);
      FreeAllInAnyOrder(s1, order[1..], s');
    }
  }
}
