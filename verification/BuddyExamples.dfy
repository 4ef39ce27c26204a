/** A concrete run of the buddy system: the state in which an aligned free block is
    missed is reached by four allocations and two deallocations. */
module BuddyExamples {
  import opened Options
  import opened Math
  import opened BuddySystem
  import opened BuddyTheorems

  /** Four units, split down to level 2 as far as `blocks` says. */
  ghost predicate Four(s: System, blocks: map<Pos, BlockState>, one: seq<nat>, two: seq<nat>) {
    s == System(2, blocks, [[], one, two])
  }

  const Upper: map<Pos, BlockState> := map[Pos(0, 0) := Split, Pos(1, 0) := Split, Pos(1, 1) := Split]

  /** All four units, in the given states. */
  function Units(a: BlockState, b: BlockState, c: BlockState, d: BlockState): map<Pos, BlockState> {
    Upper[Pos(2, 0) := a][Pos(2, 1) := b][Pos(2, 2) := c][Pos(2, 3) := d]
  }

  lemma LevelOfOne(s: System)
    requires s.order == 2
    ensures 1 <= Pow2(s.order) && LevelOf(s, 1) == 2
  {
    assert Pow2(2) == 2 * Pow2(1) == 4;
  }

  lemma AlignedToOne(x: nat)
    ensures IsAligned(x, 1)
  {
    IsAlignedMeaning(x, 1);
  }

  /** Allocating one unit when level 2 has a free block: its head. */
  lemma TakeUnit(s: System, blocks: map<Pos, BlockState>, one: seq<nat>, two: seq<nat>)
    requires Four(s, blocks, one, two) && two != []
    ensures TryAllocate(s, 1, 1) == Some((TakeHead(s, 2), Pos(2, two[0])))
  {
    LevelOfOne(s);
    AlignedToOne(two[0] * BlockSize(s, 2));
    assert NextFreeLevel(s, 2, 1) == 2;
  }

  /** Allocating one unit when only level 1 has a free block: the left half of its head. */
  lemma SplitUnit(s: System, blocks: map<Pos, BlockState>, i: nat)
    requires Four(s, blocks, [i], [])
    ensures TryAllocate(s, 1, 1) == Some((TakeHead(SplitHead(s, 1), 2), Pos(2, 2 * i)))
  {
    LevelOfOne(s);
    AlignedToOne(i * BlockSize(s, 1));
    assert NextFreeLevel(s, 1, 1) == 1 && NextFreeLevel(s, 2, 1) == 1;
    assert SplitDown(s, 1, 2) == SplitDown(SplitHead(s, 1), 2, 2);
  }

  lemma TakeLists(s: System, one: seq<nat>, x: nat, rest: seq<nat>)
    requires s.free == [[], one, [x] + rest]
    ensures TakeHead(s, 2).free == [[], one, rest]
  {
    assert ([x] + rest)[1..] == rest;
  }

  lemma SplitLists(s: System, i: nat, rest: seq<nat>, two: seq<nat>)
    requires s.free == [[], [i] + rest, two]
    ensures SplitHead(s, 1).free == [[], rest, [2 * i, 2 * i + 1] + two]
  {
    assert ([i] + rest)[1..] == rest;
  }

  /** The whole memory, split once. */
  lemma SplitWhole(s: System, s1: System)
    requires s == Init(2) && s1 == SplitHead(s, 0)
    ensures s.free == [[0], [], []] && s1.free == [[], [0] + [1], []]
    ensures s1.blocks == map[Pos(0, 0) := Split, Pos(1, 0) := Free, Pos(1, 1) := Free]
  {
    assert s.free == [[0], [], []];
    assert [0][1..] == [] && [0, 1] + [] == [0] + [1];
  }

  lemma FirstLevel(s: System)
    requires s.order == 2 && s.free == [[0], [], []]
    ensures 1 <= Pow2(s.order) && LevelOf(s, 1) == 2 && NextFreeLevel(s, 2, 1) == 0
  {
    LevelOfOne(s);
    AlignedToOne(0);
    assert NextFreeLevel(s, 0, 1) == 0 && NextFreeLevel(s, 1, 1) == 0;
  }

  /** The left half, split again. */
  lemma SplitHalf(s: System, s': System)
    requires s == System(2, map[Pos(0, 0) := Split, Pos(1, 0) := Free, Pos(1, 1) := Free], [[], [0] + [1], []])
    requires s' == System(2, map[Pos(0, 0) := Split, Pos(1, 0) := Split, Pos(1, 1) := Free,
                                 Pos(2, 0) := Allocated, Pos(2, 1) := Free], [[], [1], [1]])
    ensures SplitDown(s, 1, 2) == (s', Pos(2, 0))
  {
    var s2 := SplitHead(s, 1);
    SplitLists(s, 0, [1], []);
    assert [0, 1] + [] == [0] + [1];
    TakeLists(s2, [1], 0, [1]);
    assert TakeHead(s2, 2).blocks == s'.blocks;
    assert SplitDown(s, 1, 2) == SplitDown(s2, 2, 2);
  }

  /** The first allocation splits the whole memory twice. */
  lemma FirstUnit(s: System, s': System)
    requires s == Init(2)
    requires s' == System(2, map[Pos(0, 0) := Split, Pos(1, 0) := Split, Pos(1, 1) := Free,
                                 Pos(2, 0) := Allocated, Pos(2, 1) := Free], [[], [1], [1]])
    ensures TryAllocate(s, 1, 1) == Some((s', Pos(2, 0)))
  {
    var s1 := SplitHead(s, 0);
    SplitWhole(s, s1);
    SplitHalf(s1, s');
    FirstLevel(s);
    SplitDownStep(s, s1, 0, 2);
  }

  lemma SplitDownStep(s: System, s1: System, c: nat, t: nat)
    requires c < t < |s.free| && s.free[c] != [] && s1 == SplitHead(s, c)
    ensures SplitDown(s, c, t) == SplitDown(s1, c + 1, t)
  {
  }

  lemma SecondUnit(s: System, s': System)
    requires s == System(2, map[Pos(0, 0) := Split, Pos(1, 0) := Split, Pos(1, 1) := Free,
                                Pos(2, 0) := Allocated, Pos(2, 1) := Free], [[], [1], [1]])
    requires s' == System(2, map[Pos(0, 0) := Split, Pos(1, 0) := Split, Pos(1, 1) := Free,
                                 Pos(2, 0) := Allocated, Pos(2, 1) := Allocated], [[], [1], []])
    ensures TryAllocate(s, 1, 1) == Some((s', Pos(2, 1)))
  {
    TakeUnit(s, s.blocks, [1], [1]);
    assert [1] == [1] + [];
    TakeLists(s, [1], 1, []);
    assert TakeHead(s, 2).blocks == s'.blocks;
  }

  lemma ThirdUnit(s: System, s': System)
    requires s == System(2, map[Pos(0, 0) := Split, Pos(1, 0) := Split, Pos(1, 1) := Free,
                                Pos(2, 0) := Allocated, Pos(2, 1) := Allocated], [[], [1], []])
    requires s' == System(2, Units(Allocated, Allocated, Allocated, Free), [[], [], [3]])
    ensures TryAllocate(s, 1, 1) == Some((s', Pos(2, 2)))
  {
    SplitUnit(s, s.blocks, 1);
    var s1 := SplitHead(s, 1);
    assert [1] == [1] + [] && [2, 3] + [] == [2] + [3];
    SplitLists(s, 1, [], []);
    TakeLists(s1, [], 2, [3]);
    assert TakeHead(s1, 2).blocks == s'.blocks;
  }

  lemma FourthUnit(s: System, s': System)
    requires s == System(2, Units(Allocated, Allocated, Allocated, Free), [[], [], [3]])
    requires s' == System(2, Units(Allocated, Allocated, Allocated, Allocated), [[], [], []])
    ensures TryAllocate(s, 1, 1) == Some((s', Pos(2, 3)))
  {
    TakeUnit(s, s.blocks, [], [3]);
    assert [3] == [3] + [];
    TakeLists(s, [], 3, []);
    assert TakeHead(s, 2).blocks == s'.blocks;
  }

  lemma FreeThird(s: System, s': System)
    requires s == System(2, Units(Allocated, Allocated, Allocated, Allocated), [[], [], []])
    requires s' == System(2, Units(Allocated, Allocated, Free, Allocated), [[], [], [2]])
    ensures Deallocate(s, Pos(2, 2)) == s' && Pos(2, 2) in Live(s)
  {
    assert s.blocks[Pos(2, 2) := Free] == s'.blocks && [2] + [] == [2];
  }

  lemma FreeSecond(s: System, s': System)
    requires s == System(2, Units(Allocated, Allocated, Free, Allocated), [[], [], [2]]) && s' == TwoMiddleFree
    ensures Deallocate(s, Pos(2, 1)) == s' && Pos(2, 1) in Live(s)
  {
    assert s.blocks[Pos(2, 1) := Free] == s'.blocks && [1] + [2] == [1, 2];
  }

  lemma ReachesCons(s: System, op: Op, ops: seq<Op>, s1: System, s': System)
    requires Inv(s) && Legal(s, op) && s1 == Step(s, op) && Reaches(s1, ops, s')
    ensures Reaches(s, [op] + ops, s')
  {
    assert ([op] + ops)[1..] == ops;
  }

  /** Two more deallocations reach the state. */
  lemma LastSteps(s4: System)
    requires Inv(s4) && s4 == System(2, Units(Allocated, Allocated, Allocated, Allocated), [[], [], []])
    ensures Reaches(s4, [Dealloc(Pos(2, 2))] + [Dealloc(Pos(2, 1))], TwoMiddleFree)
  {
    var s5 := System(2, Units(Allocated, Allocated, Free, Allocated), [[], [], [2]]);
    FreeThird(s4, s5);
    StepInv(s4, Dealloc(Pos(2, 2)));
    FreeSecond(s5, TwoMiddleFree);
    ReachesCons(s5, Dealloc(Pos(2, 1)), [], TwoMiddleFree, TwoMiddleFree);
    assert [Dealloc(Pos(2, 1))] + [] == [Dealloc(Pos(2, 1))];
    ReachesCons(s4, Dealloc(Pos(2, 2)), [Dealloc(Pos(2, 1))], s5, TwoMiddleFree);
  }

  /** One allocation in front of a run. */
  lemma AllocThen(s: System, s1: System, p: Pos, ops: seq<Op>, s': System)
    requires Inv(s) && TryAllocate(s, 1, 1) == Some((s1, p)) && Reaches(s1, ops, s')
    ensures Reaches(s, [Alloc(1, 1)] + ops, s')
  {
    assert Pow2(0) == 1;
    Pow2IsPowerOfTwo(0);
    ReachesCons(s, Alloc(1, 1), ops, s1, s');
  }

  /** Four allocations of one unit and two deallocations reach the state in which an
      aligned free block is missed. */
  lemma MissedBlockIsReachable() returns (ops: seq<Op>)
    ensures Reaches(Init(2), ops, TwoMiddleFree)
  {
    var one := map[Pos(0, 0) := Split, Pos(1, 0) := Split, Pos(1, 1) := Free, Pos(2, 0) := Allocated,
                   Pos(2, 1) := Free];
    var two := one[Pos(2, 1) := Allocated];
    var s1, s2 := System(2, one, [[], [1], [1]]), System(2, two, [[], [1], []]);
    assert two == map[Pos(0, 0) := Split, Pos(1, 0) := Split, Pos(1, 1) := Free,
                      Pos(2, 0) := Allocated, Pos(2, 1) := Allocated];
    InitInv(2);
    FirstUnit(Init(2), s1);
    SecondUnit(s1, s2);
    AllocInv(Init(2), s1, Pos(2, 0));
    AllocInv(s1, s2, Pos(2, 1));
    var rest := LaterSteps(s2);
    AllocThen(s1, s2, Pos(2, 1), rest, TwoMiddleFree);
    AllocThen(Init(2), s1, Pos(2, 0), [Alloc(1, 1)] + rest, TwoMiddleFree);
    ops := [Alloc(1, 1)] + ([Alloc(1, 1)] + rest);
  }

  lemma AllocInv(s: System, s1: System, p: Pos)
    requires Inv(s) && TryAllocate(s, 1, 1) == Some((s1, p))
    ensures Inv(s1)
  {
    TryAllocateInv(s, 1, 1);
  }

  lemma LaterSteps(s2: System) returns (ops: seq<Op>)
    requires Inv(s2)
    requires s2 == System(2, map[Pos(0, 0) := Split, Pos(1, 0) := Split, Pos(1, 1) := Free,
                                 Pos(2, 0) := Allocated, Pos(2, 1) := Allocated], [[], [1], []])
    ensures Reaches(s2, ops, TwoMiddleFree)
  {
    var s3 := System(2, Units(Allocated, Allocated, Allocated, Free), [[], [], [3]]);
    var s4 := System(2, Units(Allocated, Allocated, Allocated, Allocated), [[], [], []]);
    ThirdUnit(s2, s3);
    FourthUnit(s3, s4);
    AllocInv(s2, s3, Pos(2, 2));
    AllocInv(s3, s4, Pos(2, 3));
    LastSteps(s4);
    var rest := [Dealloc(Pos(2, 2))] + [Dealloc(Pos(2, 1))];
    AllocThen(s3, s4, Pos(2, 3), rest, TwoMiddleFree);
    AllocThen(s2, s3, Pos(2, 2), [Alloc(1, 1)] + rest, TwoMiddleFree);
    ops := [Alloc(1, 1)] + ([Alloc(1, 1)] + rest);
  }
}
