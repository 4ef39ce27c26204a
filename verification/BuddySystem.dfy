/** The state of a buddy system as a value, and the functions that specify
    src/gpgmm/common/BuddyBlockAllocator.cpp.

    A block is named by its position in the full binary tree: its level (the
    root is level 0) and its index among the blocks of that level. */
module BuddySystem {
  import opened Sets
  import opened Options
  import opened Math

  datatype BlockState = Free | Split | Allocated

  datatype Pos = Pos(level: nat, index: nat)

  function Parent(p: Pos): Pos
    requires p.level > 0
  {
    Pos(p.level - 1, p.index / 2)
  }

  function Left(p: Pos): Pos { Pos(p.level + 1, 2 * p.index) }

  function Right(p: Pos): Pos { Pos(p.level + 1, 2 * p.index + 1) }

  function BuddyOf(p: Pos): Pos {
    Pos(p.level, if p.index % 2 == 0 then p.index + 1 else p.index - 1)
  }

  /** `free[l]` lists the indices of the free blocks of level `l`, head first. */
  datatype System = System(order: nat, blocks: map<Pos, BlockState>, free: seq<seq<nat>>)

  function BlockSize(s: System, level: nat): (r: nat)
    ensures r > 0
  {
    if level <= s.order then Pow2(s.order - level) else 1
  }

  function Offset(s: System, p: Pos): nat { p.index * BlockSize(s, p.level) }

  ghost function Live(s: System): set<Pos> {
    set p | p in s.blocks && s.blocks[p] == Allocated
  }

  // ----- Operations

  function Init(order: nat): System {
    System(order, map[Pos(0, 0) := Free], [[0]] + seq(order, _ => []))
  }

  /** Level of the first free list, going up from `level`, whose head is aligned. */
  function NextFreeLevel(s: System, level: nat, alignment: nat): (r: int)
    requires level < |s.free| && alignment > 0
    ensures -1 <= r <= level
    ensures r >= 0 ==> s.free[r] != []
  {
    if s.free[level] != [] && IsAligned(s.free[level][0] * BlockSize(s, level), alignment) then level
    else if level == 0 then -1
    else NextFreeLevel(s, level - 1, alignment)
  }

  function Remove(xs: seq<nat>, x: nat): seq<nat> {
    if xs == [] then [] else if xs[0] == x then xs[1..] else [xs[0]] + Remove(xs[1..], x)
  }

  /** Splits the head of level `c` into two free children, left one in front. */
  function SplitHead(s: System, c: nat): System
    requires c + 1 < |s.free| && s.free[c] != []
  {
    var h := Pos(c, s.free[c][0]);
    s.(blocks := s.blocks[h := Split][Left(h) := Free][Right(h) := Free],
       free := s.free[c := s.free[c][1..]][c + 1 := [Left(h).index, Right(h).index] + s.free[c + 1]])
  }

  /** Hands out the head of level `c`. */
  function TakeHead(s: System, c: nat): System
    requires c < |s.free| && s.free[c] != []
  {
    s.(blocks := s.blocks[Pos(c, s.free[c][0]) := Allocated], free := s.free[c := s.free[c][1..]])
  }

  /** Splits from level `c` down to level `t` and hands out the leftmost block. */
  function SplitDown(s: System, c: nat, t: nat): (System, Pos)
    requires c <= t < |s.free| && s.free[c] != []
    decreases t - c
  {
    if c == t then (TakeHead(s, c), Pos(c, s.free[c][0]))
    else SplitDown(SplitHead(s, c), c + 1, t)
  }

  /** Merges a free, unlisted block upwards and lists the result. */
  function MergeUp(s: System, p: Pos): System
    requires p.level < |s.free|
    decreases p.level
  {
    if p.level > 0 && BuddyOf(p) in s.blocks && s.blocks[BuddyOf(p)] == Free then
      MergeUp(MergePair(s, p), Parent(p))
    else
      s.(free := s.free[p.level := [p.index] + s.free[p.level]])
  }

  /** Replaces a block and its free buddy by their (free, unlisted) parent. */
  function MergePair(s: System, p: Pos): System
    requires 0 < p.level < |s.free|
  {
    s.(blocks := (s.blocks - {p, BuddyOf(p)})[Parent(p) := Free],
       free := s.free[p.level := Remove(s.free[p.level], BuddyOf(p).index)])
  }

  function LevelOf(s: System, size: nat): (l: nat)
    requires 0 < size <= Pow2(s.order)
    ensures l <= s.order && BlockSize(s, l) == PrevPowerOfTwo(size)
  {
    Log2Monotone(size, Pow2(s.order));
    Log2Pow2(s.order);
    s.order - Log2(size)
  }

  function TryAllocate(s: System, requestSize: nat, alignment: nat): Option<(System, Pos)>
    requires |s.free| == s.order + 1 && requestSize > 0 && alignment > 0
  {
    if requestSize > Pow2(s.order) then None
    else
      var t := LevelOf(s, requestSize);
      var c := NextFreeLevel(s, t, alignment);
      if c < 0 then None else Some(SplitDown(s, c, t))
  }

  function Deallocate(s: System, p: Pos): System
    requires p.level < |s.free|
  {
    MergeUp(s.(blocks := s.blocks[p := Free]), p)
  }

  // ----- Invariant

  ghost predicate NodeOk(s: System, p: Pos)
    requires p in s.blocks
  {
    && p.level <= s.order
    && p.index < Pow2(p.level)
    && (p.level == 0 || (Parent(p) in s.blocks && s.blocks[Parent(p)] == Split))
    && (s.blocks[p] == Split ==> p.level < s.order && Left(p) in s.blocks && Right(p) in s.blocks)
  }

  /** The blocks form a full binary tree over the root. */
  ghost predicate Tree(s: System) {
    && |s.free| == s.order + 1
    && Pos(0, 0) in s.blocks
    && forall p {:trigger NodeOk(s, p)} :: p in s.blocks ==> NodeOk(s, p)
  }

  ghost predicate ShouldList(s: System, out: set<Pos>, p: Pos) {
    p in s.blocks && s.blocks[p] == Free && p !in out
  }

  ghost predicate LevelListed(s: System, out: set<Pos>, l: nat)
    requires l < |s.free|
  {
    && Distinct(s.free[l])
    && forall i: nat :: i in s.free[l] <==> ShouldList(s, out, Pos(l, i))
  }

  /** Every free list holds exactly the free blocks of its level, except `out`. */
  ghost predicate Listed(s: System, out: set<Pos>) {
    forall l: nat {:trigger LevelListed(s, out, l)} :: l < |s.free| ==> LevelListed(s, out, l)
  }

  ghost predicate FreePair(s: System, p: Pos) {
    && p.level > 0 && p in s.blocks && s.blocks[p] == Free
    && BuddyOf(p) in s.blocks && s.blocks[BuddyOf(p)] == Free
  }

  /** No two buddies are both free, except possibly the pair of a block in `out`. */
  ghost predicate Coalesced(s: System, out: set<Pos>) {
    forall p :: FreePair(s, p) ==> p in out
  }

  ghost function Pair(p: Pos): set<Pos> { {p, BuddyOf(p)} }

  ghost predicate Inv(s: System) {
    Tree(s) && Listed(s, {}) && Coalesced(s, {})
  }

  // ----- The invariant is established and kept

  lemma InitInv(order: nat)
    ensures Inv(Init(order))
  {
    var s := Init(order);
    forall l: nat | l < |s.free|
      ensures LevelListed(s, {}, l)
    {
      assert s.free[l] == if l == 0 then [0] else [];
    }
  }

  lemma HeadIsFree(s: System, c: nat)
    requires Tree(s) && Listed(s, {}) && c < |s.free| && s.free[c] != []
    ensures var p := Pos(c, s.free[c][0]); p in s.blocks && s.blocks[p] == Free && NodeOk(s, p)
  {
    assert LevelListed(s, {}, c);
    assert s.free[c][0] in s.free[c];
    assert ShouldList(s, {}, Pos(c, s.free[c][0]));
  }

  lemma ChildPositions(p: Pos)
    ensures BuddyOf(Left(p)) == Right(p) && BuddyOf(Right(p)) == Left(p)
    ensures Parent(Left(p)) == p && Parent(Right(p)) == p
    ensures BuddyOf(BuddyOf(p)) == p
  {
  }

  lemma ParentIsSplit(s: System, p: Pos)
    requires Tree(s) && p in s.blocks && p.level > 0
    ensures Parent(p) in s.blocks && s.blocks[Parent(p)] == Split
  {
    assert NodeOk(s, p);
  }

  lemma NoChildren(s: System, p: Pos)
    requires Tree(s) && p in s.blocks && s.blocks[p] != Split
    ensures Left(p) !in s.blocks && Right(p) !in s.blocks
  {
    ChildPositions(p);
    if Left(p) in s.blocks { ParentIsSplit(s, Left(p)); }
    if Right(p) in s.blocks { ParentIsSplit(s, Right(p)); }
  }

  ghost predicate IsSplitOf(s: System, h: Pos, s': System) {
    && h in s.blocks && s.blocks[h] == Free && h.level < s.order
    && s'.order == s.order && |s'.free| == |s.free|
    && s'.blocks == s.blocks[h := Split][Left(h) := Free][Right(h) := Free]
  }

  lemma SplitOldNode(s: System, h: Pos, s': System, p: Pos)
    requires IsSplitOf(s, h, s') && p in s.blocks && NodeOk(s, p)
    requires Left(h) !in s.blocks && Right(h) !in s.blocks
    ensures NodeOk(s', p)
  {
    if p == h {
      assert Left(h) in s'.blocks && Right(h) in s'.blocks;
    } else if p.level > 0 {
      assert Parent(p) != h;
    }
  }

  lemma SplitNewNode(s: System, h: Pos, s': System, p: Pos)
    requires IsSplitOf(s, h, s') && NodeOk(s, h) && (p == Left(h) || p == Right(h))
    ensures NodeOk(s', p)
  {
    ChildPositions(h);
    assert p.index < 2 * Pow2(h.level) == Pow2(h.level + 1);
  }

  lemma SplitTree(s: System, h: Pos, s': System)
    requires Tree(s) && IsSplitOf(s, h, s')
    ensures Tree(s')
  {
    NoChildren(s, h);
    assert NodeOk(s, h);
    forall p | p in s'.blocks
      ensures NodeOk(s', p)
    {
      if p == Left(h) || p == Right(h) {
        SplitNewNode(s, h, s', p);
      } else {
        assert NodeOk(s, p);
        SplitOldNode(s, h, s', p);
      }
    }
  }

  lemma SplitHeadTree(s: System, c: nat)
    requires Tree(s) && Listed(s, {}) && c < s.order && s.free[c] != []
    ensures Tree(SplitHead(s, c))
  {
    HeadIsFree(s, c);
    SplitTree(s, Pos(c, s.free[c][0]), SplitHead(s, c));
  }

  lemma SplitHeadListed(s: System, c: nat)
    requires Tree(s) && Listed(s, {}) && c < s.order && s.free[c] != []
    ensures Listed(SplitHead(s, c), {})
  {
    var i := s.free[c][0];
    var h := Pos(c, i);
    var s' := SplitHead(s, c);
    HeadIsFree(s, c);
    NoChildren(s, h);
    forall l: nat | l < |s'.free|
      ensures LevelListed(s', {}, l)
    {
      assert LevelListed(s, {}, l);
      forall j: nat
        ensures j in s'.free[l] <==> ShouldList(s', {}, Pos(l, j))
      {
        assert j in s.free[l] <==> ShouldList(s, {}, Pos(l, j));
      }
      if l == c + 1 {
        assert 2 * i in s.free[l] <==> ShouldList(s, {}, Left(h));
        assert 2 * i + 1 in s.free[l] <==> ShouldList(s, {}, Right(h));
      }
    }
  }

  lemma SplitHeadCoalesced(s: System, c: nat)
    requires Tree(s) && Listed(s, {}) && c < s.order && s.free[c] != []
    requires Coalesced(s, Pair(Pos(c, s.free[c][0])))
    ensures var s' := SplitHead(s, c); Coalesced(s', Pair(Pos(c + 1, s'.free[c + 1][0])))
  {
    var h := Pos(c, s.free[c][0]);
    var s' := SplitHead(s, c);
    HeadIsFree(s, c);
    ChildPositions(h);
    SplitCoalesced(s, h, s');
    assert Pair(Left(h)) == {Left(h), Right(h)};
  }

  lemma SplitCoalesced(s: System, h: Pos, s': System)
    requires IsSplitOf(s, h, s') && Coalesced(s, Pair(h))
    ensures Coalesced(s', {Left(h), Right(h)})
  {
    forall p | FreePair(s', p)
      ensures p in {Left(h), Right(h)}
    {
      if p != Left(h) && p != Right(h) {
        SplitPair(s, h, s', p);
      }
    }
  }

  lemma SplitPair(s: System, h: Pos, s': System, p: Pos)
    requires IsSplitOf(s, h, s') && FreePair(s', p) && p != Left(h) && p != Right(h)
    ensures FreePair(s, p) && p !in Pair(h)
  {
    ChildPositions(p);
    ChildPositions(h);
    var b := BuddyOf(p);
    assert b != Left(h) && b != Right(h);
    assert s'.blocks[h] == Split;
    assert p in s.blocks && b in s.blocks;
  }

  /** Changing the state of a leaf to another leaf state keeps the tree. */
  lemma LeafChangeTree(s: System, h: Pos, s': System)
    requires Tree(s) && h in s.blocks && s.blocks[h] != Split
    requires s'.order == s.order && |s'.free| == |s.free|
    requires s'.blocks == s.blocks || s'.blocks == s.blocks[h := Allocated] || s'.blocks == s.blocks[h := Free]
    ensures Tree(s')
  {
    forall p | p in s'.blocks
      ensures NodeOk(s', p)
    {
      assert NodeOk(s, p);
    }
  }

  lemma TakeHeadListed(s: System, c: nat)
    requires Tree(s) && Listed(s, {}) && c < |s.free| && s.free[c] != []
    ensures Listed(TakeHead(s, c), {})
  {
    var s' := TakeHead(s, c);
    HeadIsFree(s, c);
    forall l: nat | l < |s'.free|
      ensures LevelListed(s', {}, l)
    {
      assert LevelListed(s, {}, l);
      forall j: nat
        ensures j in s'.free[l] <==> ShouldList(s', {}, Pos(l, j))
      {
        assert j in s.free[l] <==> ShouldList(s, {}, Pos(l, j));
      }
    }
  }

  lemma TakeHeadInv(s: System, c: nat)
    requires Tree(s) && Listed(s, {}) && c < |s.free| && s.free[c] != []
    requires Coalesced(s, Pair(Pos(c, s.free[c][0])))
    ensures Inv(TakeHead(s, c))
  {
    var h := Pos(c, s.free[c][0]);
    var s' := TakeHead(s, c);
    HeadIsFree(s, c);
    LeafChangeTree(s, h, s');
    TakeHeadListed(s, c);
    forall p
      ensures FreePair(s', p) ==> FreePair(s, p) && p !in Pair(h)
    {
      ChildPositions(p);
    }
  }

  lemma LeftOffset(s: System, h: Pos)
    requires h.level < s.order
    ensures Offset(s, Left(h)) == Offset(s, h)
  {
    var d := BlockSize(s, h.level + 1);
    assert BlockSize(s, h.level) == 2 * d;
    assert 2 * h.index * d == h.index * (2 * d);
  }

  /** Splitting down keeps the invariant, carves the block out of the head of
      level `c`, and adds exactly that block to the live ones. */
  lemma {:induction false} SplitDownInv(s: System, c: nat, t: nat)
    requires Tree(s) && Listed(s, {}) && c <= t <= s.order && s.free[c] != []
    requires Coalesced(s, Pair(Pos(c, s.free[c][0])))
    ensures var (s', p) := SplitDown(s, c, t);
            && Inv(s') && s'.order == s.order && p.level == t
            && Offset(s', p) == Offset(s, Pos(c, s.free[c][0]))
            && p !in Live(s) && Live(s') == Live(s) + {p}
    decreases t - c
  {
    var h := Pos(c, s.free[c][0]);
    HeadIsFree(s, c);
    if c == t {
      TakeHeadInv(s, c);
    } else {
      var s1 := SplitHead(s, c);
      SplitHeadTree(s, c);
      SplitHeadListed(s, c);
      SplitHeadCoalesced(s, c);
      SplitDownInv(s1, c + 1, t);
      NoChildren(s, h);
      assert Live(s1) == Live(s);
      assert s1.free[c + 1][0] == 2 * h.index;
      LeftOffset(s, h);
    }
  }

  lemma CoalescedWeaken(s: System, out: set<Pos>)
    requires Coalesced(s, {})
    ensures Coalesced(s, out)
  {
  }

  lemma {:induction false} NextFreeLevelAligned(s: System, level: nat, alignment: nat)
    requires level < |s.free| && alignment > 0
    ensures var c := NextFreeLevel(s, level, alignment);
            c >= 0 ==> Offset(s, Pos(c, s.free[c][0])) % alignment == 0
  {
    if s.free[level] != [] && IsAligned(s.free[level][0] * BlockSize(s, level), alignment) {
      IsAlignedMeaning(s.free[level][0] * BlockSize(s, level), alignment);
    } else if level > 0 {
      NextFreeLevelAligned(s, level - 1, alignment);
    }
  }

  /** A successful allocation adds one aligned block of the rounded-down size. */
  lemma TryAllocateInv(s: System, requestSize: nat, alignment: nat)
    requires Inv(s) && requestSize > 0 && alignment > 0
    ensures match TryAllocate(s, requestSize, alignment)
            case None => true
            case Some((s', p)) =>
              && Inv(s') && s'.order == s.order
              && BlockSize(s, p.level) == PrevPowerOfTwo(requestSize)
              && Offset(s, p) % alignment == 0
              && p !in Live(s) && Live(s') == Live(s) + {p}
  {
    if requestSize <= Pow2(s.order) {
      var t := LevelOf(s, requestSize);
      var c := NextFreeLevel(s, t, alignment);
      if c >= 0 {
        NextFreeLevelAligned(s, t, alignment);
        CoalescedWeaken(s, Pair(Pos(c, s.free[c][0])));
        SplitDownInv(s, c, t);
      }
    }
  }

  // ----- Freeing

  lemma {:induction false} RemoveIsCut(xs: seq<nat>, k: nat)
    requires Distinct(xs) && k < |xs|
    ensures Remove(xs, xs[k]) == xs[..k] + xs[k + 1..]
  {
    if k > 0 {
      var ys := xs[1..];
      RemoveIsCut(ys, k - 1);
      assert ys[k - 1] == xs[k] && xs[0] != xs[k];
      assert [xs[0]] + ys[..k - 1] == xs[..k];
      assert ys[k..] == xs[k + 1..];
      assert [xs[0]] + (ys[..k - 1] + ys[k..]) == ([xs[0]] + ys[..k - 1]) + ys[k..];
    }
  }

  lemma {:induction false} RemoveMembers(xs: seq<nat>, x: nat)
    requires Distinct(xs)
    ensures forall y :: y in Remove(xs, x) <==> y in xs && y != x
    ensures Distinct(Remove(xs, x))
  {
    if xs != [] && xs[0] != x {
      RemoveMembers(xs[1..], x);
      var r := Remove(xs[1..], x);
      assert forall y :: y in xs[1..] ==> y != xs[0];
      assert forall y :: y in xs <==> y == xs[0] || y in xs[1..];
      assert xs[0] !in r;
    } else if xs != [] {
      assert forall y :: y in xs <==> y == xs[0] || y in xs[1..];
    }
  }

  /** What holds while `p` is free but in no list yet. */
  ghost predicate Dangling(s: System, p: Pos) {
    && Tree(s) && Listed(s, {p}) && Coalesced(s, Pair(p))
    && p in s.blocks && s.blocks[p] == Free && p.level <= s.order
  }

  lemma MarkFree(s: System, p: Pos)
    requires Inv(s) && p in Live(s)
    ensures Dangling(s.(blocks := s.blocks[p := Free]), p)
  {
    var s' := s.(blocks := s.blocks[p := Free]);
    assert NodeOk(s, p);
    LeafChangeTree(s, p, s');
    forall l: nat | l < |s'.free|
      ensures LevelListed(s', {p}, l)
    {
      assert LevelListed(s, {}, l);
      forall j: nat
        ensures j in s'.free[l] <==> ShouldList(s', {p}, Pos(l, j))
      {
        assert j in s.free[l] <==> ShouldList(s, {}, Pos(l, j));
      }
    }
    forall q | FreePair(s', q)
      ensures q in Pair(p)
    {
      ChildPositions(q);
      assert q !in Pair(p) ==> FreePair(s, q);
    }
  }

  lemma MergePairTree(s: System, p: Pos)
    requires Dangling(s, p) && FreePair(s, p)
    ensures Tree(MergePair(s, p))
  {
    var s' := MergePair(s, p);
    var b, u := BuddyOf(p), Parent(p);
    ChildPositions(p);
    assert NodeOk(s, p) && NodeOk(s, b);
    assert NodeOk(s, u);
    NoChildren(s, p);
    NoChildren(s, b);
    forall q | q in s'.blocks
      ensures NodeOk(s', q)
    {
      assert NodeOk(s, q);
      ChildPositions(q);
    }
  }

  lemma MergePairListed(s: System, p: Pos)
    requires Dangling(s, p) && FreePair(s, p)
    ensures Listed(MergePair(s, p), {Parent(p)})
  {
    var s' := MergePair(s, p);
    var b, u := BuddyOf(p), Parent(p);
    assert NodeOk(s, p);
    forall l: nat | l < |s'.free|
      ensures LevelListed(s', {u}, l)
    {
      assert LevelListed(s, {p}, l);
      RemoveMembers(s.free[l], b.index);
      forall j: nat
        ensures j in s'.free[l] <==> ShouldList(s', {u}, Pos(l, j))
      {
        assert j in s.free[l] <==> ShouldList(s, {p}, Pos(l, j));
      }
    }
  }

  lemma MergePairDangling(s: System, p: Pos)
    requires Dangling(s, p) && FreePair(s, p)
    ensures Dangling(MergePair(s, p), Parent(p))
    ensures Live(MergePair(s, p)) == Live(s)
  {
    var s' := MergePair(s, p);
    var u := Parent(p);
    MergePairTree(s, p);
    MergePairListed(s, p);
    assert NodeOk(s, p);
    forall q | FreePair(s', q)
      ensures q in Pair(u)
    {
      ChildPositions(q);
      if q !in Pair(u) { assert FreePair(s, q); }
    }
  }

  /** Merging keeps every live block and ends in a state that satisfies the invariant. */
  lemma {:induction false} MergeUpInv(s: System, p: Pos)
    requires Dangling(s, p)
    ensures var s' := MergeUp(s, p);
            Inv(s') && s'.order == s.order && Live(s') == Live(s)
    decreases p.level
  {
    assert NodeOk(s, p);
    if FreePair(s, p) {
      MergePairDangling(s, p);
      MergeUpInv(MergePair(s, p), Parent(p));
    } else {
      InsertInv(s, p);
    }
  }

  lemma InsertInv(s: System, p: Pos)
    requires Dangling(s, p) && !FreePair(s, p)
    ensures Inv(s.(free := s.free[p.level := [p.index] + s.free[p.level]]))
  {
    var s' := s.(free := s.free[p.level := [p.index] + s.free[p.level]]);
    LeafChangeTree(s, p, s');
    forall l: nat | l < |s'.free|
      ensures LevelListed(s', {}, l)
    {
      assert LevelListed(s, {p}, l);
      forall j: nat
        ensures j in s'.free[l] <==> ShouldList(s', {}, Pos(l, j))
      {
        assert j in s.free[l] <==> ShouldList(s, {p}, Pos(l, j));
      }
    }
    forall q
      ensures FreePair(s', q) ==> FreePair(s, q) && q !in Pair(p)
    {
      ChildPositions(q);
    }
  }

  lemma DeallocateInv(s: System, p: Pos)
    requires Inv(s) && p in Live(s)
    ensures p.level < |s.free|
    ensures var s' := Deallocate(s, p);
            Inv(s') && s'.order == s.order && Live(s') == Live(s) - {p}
  {
    assert NodeOk(s, p);
    MarkFree(s, p);
    MergeUpInv(s.(blocks := s.blocks[p := Free]), p);
  }
}
