/** The pointer structure of src/gpgmm/common/BuddyBlockAllocator.{h,cpp}:
    heap-allocated tree nodes threaded by intrusive per-level free lists. Each
    method is proved to act on the abstract system as `BuddySystem` specifies. */
module BuddyBlocks {
  import opened Sets
  import opened Options
  import opened Math
  import opened BuddySystem

  class BuddyBlock {
    const size: nat
    const offset: nat
    ghost const pos: Pos
    var buddy: BuddyBlock?
    var parent: BuddyBlock?
    var state: BlockState
    // The source keeps the free links and the split link in one union:
    // `prev` and `next` have a meaning in a free list, `left` in a split block.
    var prev: BuddyBlock?
    var next: BuddyBlock?
    var left: BuddyBlock?

    constructor (size: nat, offset: nat, ghost pos: Pos)
      ensures this.size == size && this.offset == offset && this.pos == pos
      ensures buddy == parent == prev == next == left == null && state == Free
    {
      this.size, this.offset, this.pos := size, offset, pos;
      buddy, parent, prev, next, left := null, null, null, null, null;
      state := Free;
    }
  }

  /** The heap node at each position of the tree. */
  type Nodes = map<Pos, BuddyBlock>

  // ----- The fields of all nodes, as values

  datatype Tie = Tie(state: BlockState, buddy: BuddyBlock?, parent: BuddyBlock?, left: BuddyBlock?)

  datatype Fields = Fields(ties: map<Pos, Tie>, next: map<Pos, BuddyBlock?>, prev: map<Pos, BuddyBlock?>)

  /** The fields of node `at[p]` are those recorded in `f`. */
  ghost predicate Records(at: Nodes, f: Fields, p: Pos)
    requires p in at && p in f.ties && p in f.next && p in f.prev
    reads at[p]
  {
    && f.ties[p] == Tie(at[p].state, at[p].buddy, at[p].parent, at[p].left)
    && f.next[p] == at[p].next && f.prev[p] == at[p].prev
  }

  ghost predicate Describes(at: Nodes, f: Fields)
    reads at.Values
  {
    && f.ties.Keys == f.next.Keys == f.prev.Keys == at.Keys
    && forall p {:trigger Records(at, f, p)} :: p in at ==> Records(at, f, p)
  }

  // ----- How the heap represents a system

  ghost predicate Named(at: Nodes) {
    forall p {:trigger at[p].pos} :: p in at ==> at[p].pos == p
  }

  ghost predicate Within(at: Nodes, repr: set<BuddyBlock>) {
    forall p {:trigger at[p]} :: p in at ==> at[p] in repr
  }

  ghost predicate Placed(at: Nodes, s: System, p: Pos)
    requires p in at
  {
    at[p].size == BlockSize(s, p.level) && at[p].offset == Offset(s, p)
  }

  /** Offsets and sizes of the nodes; fixed when a node is created. */
  ghost predicate Geometry(at: Nodes, s: System) {
    Named(at) && forall p {:trigger Placed(at, s, p)} :: p in at ==> Placed(at, s, p)
  }

  ghost predicate NodeRep(at: Nodes, ties: map<Pos, Tie>, s: System, p: Pos) {
    && p in s.blocks && p in ties && ties[p].state == s.blocks[p]
    && (p.level > 0 ==>
        && BuddyOf(p) in at && ties[p].buddy == at[BuddyOf(p)]
        && Parent(p) in at && ties[p].parent == at[Parent(p)])
    && (s.blocks[p] == Split ==> Left(p) in at && ties[p].left == at[Left(p)])
  }

  ghost predicate TreeRep(at: Nodes, ties: map<Pos, Tie>, s: System) {
    && at.Keys == s.blocks.Keys
    && forall p {:trigger NodeRep(at, ties, s, p)} :: p in at ==> NodeRep(at, ties, s, p)
  }

  ghost function Nth(at: Nodes, l: nat, xs: seq<nat>, k: int): BuddyBlock? {
    if 0 <= k < |xs| && Pos(l, xs[k]) in at then at[Pos(l, xs[k])] else null
  }

  /** Element `k` of the list of level `l` is linked to its neighbours. The
      `prev` of the head is not constrained: removing a head leaves the new
      head's `prev` stale. */
  ghost predicate LinkOk(at: Nodes, f: Fields, l: nat, xs: seq<nat>, k: nat)
    requires k < |xs|
  {
    var p := Pos(l, xs[k]);
    && p in at && p in f.next && p in f.prev
    && f.next[p] == Nth(at, l, xs, k + 1)
    && (k > 0 ==> f.prev[p] == Nth(at, l, xs, k - 1))
  }

  ghost predicate ListRep(at: Nodes, f: Fields, l: nat, xs: seq<nat>, head: BuddyBlock?) {
    && head == Nth(at, l, xs, 0)
    && forall k: nat :: k < |xs| ==> LinkOk(at, f, l, xs, k)
  }

  ghost predicate ListsRep(at: Nodes, f: Fields, s: System, heads: seq<BuddyBlock?>) {
    && |heads| == |s.free| == s.order + 1
    && forall l: nat {:trigger ListRep(at, f, l, s.free[l], heads[l])} ::
         l < |heads| ==> ListRep(at, f, l, s.free[l], heads[l])
  }

  ghost predicate Rep(at: Nodes, f: Fields, s: System, heads: seq<BuddyBlock?>) {
    Geometry(at, s) && TreeRep(at, f.ties, s) && ListsRep(at, f, s, heads)
  }

  // ----- Effect of the updates on the lists

  lemma GeometryFrame(at: Nodes, s: System, s': System)
    requires Geometry(at, s) && s'.order == s.order
    ensures Geometry(at, s')
  {
    forall p | p in at
      ensures Placed(at, s', p)
    {
      assert Placed(at, s, p);
    }
  }

  lemma OnlyListsChange(at: Nodes, ties: map<Pos, Tie>, s: System, s': System)
    requires Geometry(at, s) && TreeRep(at, ties, s) && s'.order == s.order && s'.blocks == s.blocks
    ensures Geometry(at, s') && TreeRep(at, ties, s')
  {
    GeometryFrame(at, s, s');
    forall p | p in at
      ensures NodeRep(at, ties, s', p)
    {
      assert NodeRep(at, ties, s, p);
    }
  }

  ghost predicate In(at: Nodes, block: BuddyBlock) {
    block.pos in at && at[block.pos] == block
  }

  /** The fields after linking `p` in front of `head`. */
  ghost function Linking(at: Nodes, f: Fields, p: Pos, head: BuddyBlock?): Fields
    requires p in at
  {
    var prev := f.prev[p := null];
    f.(next := f.next[p := head], prev := if head == null then prev else prev[head.pos := at[p]])
  }

  lemma InsertRep(at: Nodes, f: Fields, l: nat, xs: seq<nat>, head: BuddyBlock?, x: nat)
    requires ListRep(at, f, l, xs, head) && Distinct(xs) && x !in xs && Pos(l, x) in at
    requires Named(at)
    ensures ListRep(at, Linking(at, f, Pos(l, x), head), l, [x] + xs, at[Pos(l, x)])
  {
    var ys, f' := [x] + xs, Linking(at, f, Pos(l, x), head);
    assert xs != [] ==> LinkOk(at, f, l, xs, 0);
    forall k: nat | k < |ys|
      ensures LinkOk(at, f', l, ys, k)
    {
      if k > 0 {
        assert LinkOk(at, f, l, xs, k - 1);
        assert ys[k] == xs[k - 1];
      }
    }
  }

  lemma InsertOther(at: Nodes, f: Fields, l: nat, xs: seq<nat>, h: BuddyBlock?, p: Pos, head: BuddyBlock?)
    requires ListRep(at, f, l, xs, h) && p in at && p.level != l && (head != null ==> head.pos.level != l)
    ensures ListRep(at, Linking(at, f, p, head), l, xs, h)
  {
    var f' := Linking(at, f, p, head);
    forall k: nat | k < |xs|
      ensures LinkOk(at, f', l, xs, k)
    {
      assert LinkOk(at, f, l, xs, k);
    }
  }

  /** The fields after unlinking the block between `prev` and `next`. */
  ghost function Unlinking(f: Fields, prev: BuddyBlock, next: BuddyBlock?): Fields {
    f.(next := f.next[prev.pos := next], prev := if next == null then f.prev else f.prev[next.pos := prev])
  }

  lemma RemoveHeadRep(at: Nodes, f: Fields, l: nat, xs: seq<nat>, head: BuddyBlock?)
    requires ListRep(at, f, l, xs, head) && xs != []
    ensures LinkOk(at, f, l, xs, 0) && ListRep(at, f, l, xs[1..], f.next[Pos(l, xs[0])])
  {
    var ys := xs[1..];
    assert LinkOk(at, f, l, xs, 0);
    forall k: nat | k < |ys|
      ensures LinkOk(at, f, l, ys, k)
    {
      assert LinkOk(at, f, l, xs, k + 1);
    }
  }

  lemma RemoveInnerRep(at: Nodes, f: Fields, l: nat, xs: seq<nat>, head: BuddyBlock?, k: nat)
    requires ListRep(at, f, l, xs, head) && Distinct(xs) && 0 < k < |xs|
    requires Named(at)
    ensures LinkOk(at, f, l, xs, k) && LinkOk(at, f, l, xs, k - 1)
    ensures var prev, next := f.prev[Pos(l, xs[k])], f.next[Pos(l, xs[k])];
            prev != null && ListRep(at, Unlinking(f, prev, next), l, xs[..k] + xs[k + 1..], head)
  {
    assert LinkOk(at, f, l, xs, k) && LinkOk(at, f, l, xs, k - 1);
    var prev, next := f.prev[Pos(l, xs[k])], f.next[Pos(l, xs[k])];
    assert k + 1 < |xs| ==> LinkOk(at, f, l, xs, k + 1);
    var ys, f' := xs[..k] + xs[k + 1..], Unlinking(f, prev, next);
    assert LinkOk(at, f, l, xs, 0);
    forall j: nat | j < |ys|
      ensures LinkOk(at, f', l, ys, j)
    {
      var i := if j < k then j else j + 1;
      assert LinkOk(at, f, l, xs, i);
      assert ys[j] == xs[i];
    }
  }

  lemma RemoveOther(at: Nodes, f: Fields, l: nat, xs: seq<nat>, h: BuddyBlock?, prev: BuddyBlock, next: BuddyBlock?)
    requires ListRep(at, f, l, xs, h) && prev.pos.level != l && (next != null ==> next.pos.level != l)
    ensures ListRep(at, Unlinking(f, prev, next), l, xs, h)
  {
    var f' := Unlinking(f, prev, next);
    forall k: nat | k < |xs|
      ensures LinkOk(at, f', l, xs, k)
    {
      assert LinkOk(at, f, l, xs, k);
    }
  }

  /** Listing the unlisted block `p`, as a whole. */
  lemma RepInsert(at: Nodes, f: Fields, s: System, heads: seq<BuddyBlock?>, p: Pos)
    requires Rep(at, f, s, heads) && p in at && p.level < |s.free|
    requires p.index !in s.free[p.level] && Distinct(s.free[p.level])
    ensures Rep(at, Linking(at, f, p, heads[p.level]),
                s.(free := s.free[p.level := [p.index] + s.free[p.level]]), heads[p.level := at[p]])
  {
    var l, xs, head := p.level, s.free[p.level], heads[p.level];
    var s', f' := s.(free := s.free[l := [p.index] + xs]), Linking(at, f, p, head);
    assert ListRep(at, f, l, xs, head);
    OnlyListsChange(at, f.ties, s, s');
    InsertRep(at, f, l, xs, head, p.index);
    forall m: nat | m < |heads| && m != l
      ensures ListRep(at, f', m, s'.free[m], heads[m])
    {
      assert ListRep(at, f, m, s.free[m], heads[m]);
      InsertOther(at, f, m, s.free[m], heads[m], p, head);
    }
  }

  /** Unlisting the head of level `l`, as a whole. */
  lemma RepRemoveHead(at: Nodes, f: Fields, s: System, heads: seq<BuddyBlock?>, l: nat)
    requires Rep(at, f, s, heads) && l < |s.free| && s.free[l] != [] && Pos(l, s.free[l][0]) in f.next
    ensures Rep(at, f, s.(free := s.free[l := s.free[l][1..]]), heads[l := f.next[Pos(l, s.free[l][0])]])
  {
    var s' := s.(free := s.free[l := s.free[l][1..]]);
    assert ListRep(at, f, l, s.free[l], heads[l]);
    OnlyListsChange(at, f.ties, s, s');
    RemoveHeadRep(at, f, l, s.free[l], heads[l]);
    forall m: nat | m < |heads| && m != l
      ensures ListRep(at, f, m, s'.free[m], heads[m])
    {
      assert ListRep(at, f, m, s.free[m], heads[m]);
    }
  }

  /** Unlisting a block behind the head, as a whole. */
  lemma RepRemoveInner(at: Nodes, f: Fields, s: System, heads: seq<BuddyBlock?>, l: nat, k: nat)
    requires Rep(at, f, s, heads) && l < |s.free| && 0 < k < |s.free[l]| && Distinct(s.free[l])
    requires Pos(l, s.free[l][k]) in f.next && Pos(l, s.free[l][k]) in f.prev
    requires f.prev[Pos(l, s.free[l][k])] != null
    ensures Rep(at, Unlinking(f, f.prev[Pos(l, s.free[l][k])], f.next[Pos(l, s.free[l][k])]),
                s.(free := s.free[l := s.free[l][..k] + s.free[l][k + 1..]]), heads)
  {
    var xs := s.free[l];
    var prev, next := f.prev[Pos(l, xs[k])], f.next[Pos(l, xs[k])];
    var s', f' := s.(free := s.free[l := xs[..k] + xs[k + 1..]]), Unlinking(f, prev, next);
    assert ListRep(at, f, l, xs, heads[l]);
    OnlyListsChange(at, f.ties, s, s');
    RemoveInnerRep(at, f, l, xs, heads[l], k);
    forall m: nat | m < |heads| && m != l
      ensures ListRep(at, f', m, s'.free[m], heads[m])
    {
      assert ListRep(at, f, m, s.free[m], heads[m]);
      RemoveOther(at, f, m, s.free[m], heads[m], prev, next);
    }
  }

  lemma HeadNode(at: Nodes, f: Fields, s: System, heads: seq<BuddyBlock?>, l: nat)
    requires Rep(at, f, s, heads) && l < |heads|
    ensures s.free[l] == [] <==> heads[l] == null
    ensures heads[l] != null ==> heads[l].pos == Pos(l, s.free[l][0]) && In(at, heads[l])
  {
    assert ListRep(at, f, l, s.free[l], heads[l]);
    assert s.free[l] != [] ==> LinkOk(at, f, l, s.free[l], 0);
  }

  lemma InnerNode(at: Nodes, f: Fields, s: System, heads: seq<BuddyBlock?>, l: nat, k: nat)
    requires Rep(at, f, s, heads) && l < |heads| && k < |s.free[l]|
    ensures var p := Pos(l, s.free[l][k]);
            && p in at && p in f.next && p in f.prev
            && (f.next[p] != null ==> In(at, f.next[p]))
            && (k > 0 ==> f.prev[p] != null && In(at, f.prev[p]))
  {
    assert ListRep(at, f, l, s.free[l], heads[l]);
    assert LinkOk(at, f, l, s.free[l], k);
    assert k > 0 ==> LinkOk(at, f, l, s.free[l], k - 1);
  }

  ghost function Unlist(s: System, p: Pos): System
    requires p.level < |s.free|
  {
    s.(free := s.free[p.level := Remove(s.free[p.level], p.index)])
  }

  ghost function List(s: System, p: Pos): System
    requires p.level < |s.free|
  {
    s.(free := s.free[p.level := [p.index] + s.free[p.level]])
  }

  /** Unlisting a free block that heads its list. */
  lemma RepUnlistHead(at: Nodes, f: Fields, s: System, heads: seq<BuddyBlock?>, p: Pos)
    requires Rep(at, f, s, heads) && p in at && p.level < |s.free| && heads[p.level] == at[p]
    ensures p in f.next && Rep(at, f, Unlist(s, p), heads[p.level := f.next[p]])
  {
    var l := p.level;
    HeadNode(at, f, s, heads, l);
    InnerNode(at, f, s, heads, l, 0);
    RepRemoveHead(at, f, s, heads, l);
  }

  /** Unlisting a free block behind the head of its list. */
  lemma RepUnlistInner(at: Nodes, f: Fields, s: System, heads: seq<BuddyBlock?>, p: Pos)
    requires Rep(at, f, s, heads) && p in at && p.level < |s.free| && heads[p.level] != at[p]
    requires p.index in s.free[p.level] && Distinct(s.free[p.level])
    ensures p in f.next && p in f.prev && f.prev[p] != null && In(at, f.prev[p])
    ensures f.next[p] != null ==> In(at, f.next[p])
    ensures Rep(at, Unlinking(f, f.prev[p], f.next[p]), Unlist(s, p), heads)
  {
    var l, xs := p.level, s.free[p.level];
    var k: nat :| k < |xs| && xs[k] == p.index;
    HeadNode(at, f, s, heads, l);
    InnerNode(at, f, s, heads, l, k);
    RemoveIsCut(xs, k);
    RepRemoveInner(at, f, s, heads, l, k);
  }

  // ----- Effect of the updates on the tree

  ghost function Child(f: Fields, p: Pos, buddy: BuddyBlock, parent: BuddyBlock): Fields {
    Fields(f.ties[p := Tie(Free, buddy, parent, null)], f.next[p := null], f.prev[p := null])
  }

  /** Adding the two unlisted children of `h`, as a whole. */
  lemma RepAddChildren(at: Nodes, f: Fields, s: System, heads: seq<BuddyBlock?>, h: Pos, l: BuddyBlock, r: BuddyBlock)
    requires Rep(at, f, s, heads) && h in at && h.level < s.order
    requires Left(h) !in at && Right(h) !in at
    requires l.pos == Left(h) && r.pos == Right(h)
    requires l.size == r.size == at[h].size / 2 && l.offset == at[h].offset && r.offset == at[h].offset + l.size
    ensures Rep(at[Left(h) := l][Right(h) := r], Child(Child(f, Left(h), r, at[h]), Right(h), l, at[h]),
                s.(blocks := s.blocks[Left(h) := Free][Right(h) := Free]), heads)
  {
    var at' := at[Left(h) := l][Right(h) := r];
    var f' := Child(Child(f, Left(h), r, at[h]), Right(h), l, at[h]);
    var s' := s.(blocks := s.blocks[Left(h) := Free][Right(h) := Free]);
    ChildGeometry(at, s, h, l, r);
    ChildTrees(at, f, s, h, l, r);
    forall m: nat | m < |heads|
      ensures ListRep(at', f', m, s'.free[m], heads[m])
    {
      assert ListRep(at, f, m, s.free[m], heads[m]);
      MoreNodes(at, f, m, s.free[m], heads[m], at', f');
    }
  }

  lemma ChildGeometry(at: Nodes, s: System, h: Pos, l: BuddyBlock, r: BuddyBlock)
    requires Geometry(at, s) && h in at && h.level < s.order
    requires l.pos == Left(h) && r.pos == Right(h)
    requires l.size == r.size == at[h].size / 2 && l.offset == at[h].offset && r.offset == at[h].offset + l.size
    ensures Geometry(at[Left(h) := l][Right(h) := r], s.(blocks := s.blocks[Left(h) := Free][Right(h) := Free]))
  {
    var at' := at[Left(h) := l][Right(h) := r];
    var s' := s.(blocks := s.blocks[Left(h) := Free][Right(h) := Free]);
    assert Placed(at, s, h);
    var d := BlockSize(s, h.level + 1);
    assert BlockSize(s, h.level) == 2 * d;
    assert 2 * h.index * d == h.index * (2 * d);
    assert (2 * h.index + 1) * d == 2 * h.index * d + d;
    forall p | p in at'
      ensures Placed(at', s', p)
    {
      if p != Left(h) && p != Right(h) {
        assert Placed(at, s, p);
      }
    }
  }

  lemma ChildTrees(at: Nodes, f: Fields, s: System, h: Pos, l: BuddyBlock, r: BuddyBlock)
    requires TreeRep(at, f.ties, s) && h in at && Left(h) !in at && Right(h) !in at
    ensures TreeRep(at[Left(h) := l][Right(h) := r],
                    f.ties[Left(h) := Tie(Free, r, at[h], null)][Right(h) := Tie(Free, l, at[h], null)],
                    s.(blocks := s.blocks[Left(h) := Free][Right(h) := Free]))
  {
    var at' := at[Left(h) := l][Right(h) := r];
    var ties' := f.ties[Left(h) := Tie(Free, r, at[h], null)][Right(h) := Tie(Free, l, at[h], null)];
    var s' := s.(blocks := s.blocks[Left(h) := Free][Right(h) := Free]);
    ChildPositions(h);
    forall p | p in at'
      ensures NodeRep(at', ties', s', p)
    {
      if p != Left(h) && p != Right(h) {
        assert NodeRep(at, f.ties, s, p);
      }
    }
  }

  lemma MoreNodes(at: Nodes, f: Fields, l: nat, xs: seq<nat>, head: BuddyBlock?, at': Nodes, f': Fields)
    requires ListRep(at, f, l, xs, head)
    requires forall p :: p in at ==> p in at' && at'[p] == at[p]
    requires forall p :: p in at && p in f.next && p in f.prev ==>
      p in f'.next && p in f'.prev && f'.next[p] == f.next[p] && f'.prev[p] == f.prev[p]
    ensures ListRep(at', f', l, xs, head)
  {
    forall k: nat | k < |xs|
      ensures LinkOk(at', f', l, xs, k)
    {
      assert LinkOk(at, f, l, xs, k);
      assert k + 1 < |xs| ==> LinkOk(at, f, l, xs, k + 1);
      assert k > 0 ==> LinkOk(at, f, l, xs, k - 1);
    }
    assert xs != [] ==> LinkOk(at, f, l, xs, 0);
  }

  lemma StateTree(at: Nodes, ties: map<Pos, Tie>, s: System, p: Pos, state: BlockState, left: BuddyBlock?)
    requires TreeRep(at, ties, s) && p in at && p in ties
    requires state == Split ==> Left(p) in at && left == at[Left(p)]
    ensures TreeRep(at, ties[p := ties[p].(state := state, left := left)], s.(blocks := s.blocks[p := state]))
  {
    var ties', s' := ties[p := ties[p].(state := state, left := left)], s.(blocks := s.blocks[p := state]);
    forall q | q in at
      ensures NodeRep(at, ties', s', q)
    {
      assert NodeRep(at, ties, s, q);
    }
  }

  /** Changing the state (and left link) of one node, as a whole. */
  lemma RepState(at: Nodes, f: Fields, s: System, heads: seq<BuddyBlock?>, p: Pos, state: BlockState, left: BuddyBlock?)
    requires Rep(at, f, s, heads) && p in at && p in f.ties
    requires state == Split ==> Left(p) in at && left == at[Left(p)]
    ensures Rep(at, f.(ties := f.ties[p := f.ties[p].(state := state, left := left)]),
                s.(blocks := s.blocks[p := state]), heads)
  {
    var f' := f.(ties := f.ties[p := f.ties[p].(state := state, left := left)]);
    var s' := s.(blocks := s.blocks[p := state]);
    GeometryFrame(at, s, s');
    StateTree(at, f.ties, s, p, state, left);
    forall m: nat | m < |heads|
      ensures ListRep(at, f', m, s'.free[m], heads[m])
    {
      assert ListRep(at, f, m, s.free[m], heads[m]);
      MoreNodes(at, f, m, s.free[m], heads[m], at, f');
    }
  }

  ghost function Without(f: Fields, ps: set<Pos>): Fields {
    Fields(f.ties - ps, f.next - ps, f.prev - ps)
  }

  /** Blocks that nothing in the tree or the lists refers to may be deleted. */
  ghost predicate Droppable(at: Nodes, s: System, p: Pos) {
    var b := BuddyOf(p);
    && p in at && b in at && 0 < p.level < |s.free|
    && Left(p) !in at && Right(p) !in at && Left(b) !in at && Right(b) !in at
    && Parent(p) in s.blocks && s.blocks[Parent(p)] != Split
    && p.index !in s.free[p.level] && b.index !in s.free[p.level]
  }

  lemma DropTree(at: Nodes, ties: map<Pos, Tie>, s: System, p: Pos)
    requires TreeRep(at, ties, s) && Droppable(at, s, p)
    ensures TreeRep(at - Pair(p), ties - Pair(p), s.(blocks := s.blocks - Pair(p)))
  {
    var at', ties', s' := at - Pair(p), ties - Pair(p), s.(blocks := s.blocks - Pair(p));
    forall q | q in at'
      ensures NodeRep(at', ties', s', q)
    {
      assert NodeRep(at, ties, s, q);
      ChildPositions(q);
      DropNode(at, s, p, q);
    }
  }

  lemma DropNode(at: Nodes, s: System, p: Pos, q: Pos)
    requires Droppable(at, s, p) && q in at && q !in Pair(p)
    ensures BuddyOf(q) !in Pair(p)
    ensures q.level > 0 ==> Parent(q) !in Pair(p)
    ensures q in s.blocks && s.blocks[q] == Split ==> Left(q) !in Pair(p)
  {
    ChildPositions(p);
    ChildPositions(q);
    ChildOf(q);
  }

  lemma ChildOf(q: Pos)
    ensures q.level > 0 ==> q == Left(Parent(q)) || q == Right(Parent(q))
    ensures Parent(BuddyOf(Left(q))) == q
  {
  }

  lemma RepDrop(at: Nodes, f: Fields, s: System, heads: seq<BuddyBlock?>, p: Pos)
    requires Rep(at, f, s, heads) && Droppable(at, s, p)
    ensures Rep(at - Pair(p), Without(f, Pair(p)), s.(blocks := s.blocks - Pair(p)), heads)
  {
    var at', f', s' := at - Pair(p), Without(f, Pair(p)), s.(blocks := s.blocks - Pair(p));
    DropTree(at, f.ties, s, p);
    forall q | q in at'
      ensures Placed(at', s', q) && at'[q].pos == q
    {
      assert Placed(at, s, q) && at[q].pos == q;
    }
    forall m: nat | m < |heads|
      ensures ListRep(at', f', m, s'.free[m], heads[m])
    {
      assert ListRep(at, f, m, s.free[m], heads[m]);
      DropList(at, f, m, s.free[m], heads[m], Pair(p));
    }
  }

  lemma DropList(at: Nodes, f: Fields, l: nat, xs: seq<nat>, head: BuddyBlock?, ps: set<Pos>)
    requires ListRep(at, f, l, xs, head)
    requires forall i: nat :: Pos(l, i) in ps ==> i !in xs
    ensures ListRep(at - ps, Without(f, ps), l, xs, head)
  {
    forall k: nat | k < |xs|
      ensures LinkOk(at - ps, Without(f, ps), l, xs, k)
    {
      assert LinkOk(at, f, l, xs, k);
      assert k + 1 < |xs| ==> xs[k + 1] in xs && Pos(l, xs[k + 1]) !in ps;
      assert k > 0 ==> xs[k - 1] in xs && Pos(l, xs[k - 1]) !in ps;
      assert xs[k] in xs;
    }
    assert xs != [] ==> xs[0] in xs && Pos(l, xs[0]) !in ps;
  }

  // ----- Single field updates, with the record of all fields

  method SetPrev(block: BuddyBlock, prev: BuddyBlock?, ghost at: Nodes, ghost f: Fields)
    requires Named(at) && In(at, block) && Describes(at, f)
    modifies block`prev
    ensures Describes(at, f.(prev := f.prev[block.pos := prev])) && block.prev == prev
  {
    ghost var g := f.(prev := f.prev[block.pos := prev]);
    block.prev := prev;
    forall p | p in at
      ensures Records(at, g, p)
    {
      assert at[p].pos == p && old(Records(at, f, p));
    }
  }

  method SetNext(block: BuddyBlock, next: BuddyBlock?, ghost at: Nodes, ghost f: Fields)
    requires Named(at) && In(at, block) && Describes(at, f)
    modifies block`next
    ensures Describes(at, f.(next := f.next[block.pos := next])) && block.next == next
  {
    ghost var g := f.(next := f.next[block.pos := next]);
    block.next := next;
    forall p | p in at
      ensures Records(at, g, p)
    {
      assert at[p].pos == p && old(Records(at, f, p));
    }
  }

  method SetState(block: BuddyBlock, state: BlockState, ghost at: Nodes, ghost f: Fields)
    requires Named(at) && In(at, block) && Describes(at, f)
    modifies block`state
    ensures block.pos in f.ties
    ensures Describes(at, f.(ties := f.ties[block.pos := f.ties[block.pos].(state := state)])) && block.state == state
  {
    block.state := state;
    forall p | p in at
      ensures Records(at, f.(ties := f.ties[block.pos := f.ties[block.pos].(state := state)]), p)
    {
      assert old(Records(at, f, p));
    }
  }

  method SetSplit(block: BuddyBlock, left: BuddyBlock, ghost at: Nodes, ghost f: Fields)
    requires Named(at) && In(at, block) && Describes(at, f)
    modifies block`state, block`left
    ensures block.pos in f.ties
    ensures Describes(at, f.(ties := f.ties[block.pos := f.ties[block.pos].(state := Split, left := left)]))
  {
    block.state := Split;
    block.left := left;
    forall p | p in at
      ensures Records(at, f.(ties := f.ties[block.pos := f.ties[block.pos].(state := Split, left := left)]), p)
    {
      assert old(Records(at, f, p));
    }
  }

  /** Creates the two children of a block and makes them buddies. */
  method NewChildren(block: BuddyBlock, ghost at: Nodes, ghost f: Fields)
    returns (l: BuddyBlock, r: BuddyBlock)
    requires Named(at) && In(at, block) && Describes(at, f)
    ensures fresh(l) && fresh(r) && l.pos == Left(block.pos) && r.pos == Right(block.pos)
    ensures l.size == r.size == block.size / 2 && l.offset == block.offset && r.offset == block.offset + l.size
    ensures Describes(at[l.pos := l][r.pos := r], Child(Child(f, l.pos, r, block), r.pos, l, block))
  {
    var nextLevelSize := block.size / 2;
    l := new BuddyBlock(nextLevelSize, block.offset, Left(block.pos));
    r := new BuddyBlock(nextLevelSize, block.offset + nextLevelSize, Right(block.pos));
    r.parent := block;
    l.parent := block;
    l.buddy := r;
    r.buddy := l;
    assert Describes(at, f);
    DescribesChildren(block, at, f, l, r);
  }

  lemma DescribesChildren(block: BuddyBlock, at: Nodes, f: Fields, l: BuddyBlock, r: BuddyBlock)
    requires Describes(at, f) && l.pos == Left(block.pos) && r.pos == Right(block.pos)
    requires l.state == r.state == Free && l.buddy == r && r.buddy == l && l.parent == r.parent == block
    requires l.left == r.left == l.next == r.next == l.prev == r.prev == null
    ensures Describes(at[l.pos := l][r.pos := r], Child(Child(f, l.pos, r, block), r.pos, l, block))
  {
    var at' := at[l.pos := l][r.pos := r];
    var f' := Child(Child(f, l.pos, r, block), r.pos, l, block);
    forall p | p in at'
      ensures Records(at', f', p)
    {
      assert p != l.pos && p != r.pos ==> Records(at, f, p);
    }
  }

  lemma AddCoherent(v: View, heads: seq<BuddyBlock?>, block: BuddyBlock, l: BuddyBlock, r: BuddyBlock, v': View)
    requires Coherent(v, heads) && In(v.at, block) && block.pos.level < v.sys.order
    requires l.pos == Left(block.pos) && l.pos !in v.at && r.pos == Right(block.pos) && r.pos !in v.at
    requires l.size == r.size == block.size / 2 && l.offset == block.offset && r.offset == block.offset + l.size
    requires v'.repr == v.repr + {l, r} && v'.at == v.at[l.pos := l][r.pos := r]
    requires v'.fields == Child(Child(v.fields, l.pos, r, block), r.pos, l, block)
    requires v'.sys == v.sys.(blocks := v.sys.blocks[l.pos := Free][r.pos := Free])
    ensures Coherent(v', heads)
  {
    RepAddChildren(v.at, v.fields, v.sys, heads, block.pos, l, r);
    WithinExtended(v.at, v.repr, l, r);
  }

  lemma DropCoherent(v: View, heads: seq<BuddyBlock?>, p: Pos, v': View)
    requires Coherent(v, heads) && Droppable(v.at, v.sys, p)
    requires v' == View(v.repr, v.at - Pair(p), Without(v.fields, Pair(p)), v.sys.(blocks := v.sys.blocks - Pair(p)))
    ensures Coherent(v', heads)
  {
    RepDrop(v.at, v.fields, v.sys, heads, p);
  }

  lemma DescribesWithout(at: Nodes, f: Fields, ps: set<Pos>)
    requires Describes(at, f)
    ensures Describes(at - ps, Without(f, ps))
  {
    forall p | p in at - ps
      ensures Records(at - ps, Without(f, ps), p)
    {
      assert Records(at, f, p);
    }
  }

  method LinkFront(block: BuddyBlock, head: BuddyBlock?, ghost at: Nodes, ghost f: Fields)
    requires Named(at) && In(at, block) && (head == null || In(at, head)) && Describes(at, f)
    modifies block, head
    ensures Describes(at, Linking(at, f, block.pos, head))
  {
    SetPrev(block, null, at, f);
    ghost var f1 := f.(prev := f.prev[block.pos := null]);
    SetNext(block, head, at, f1);
    if head != null {
      SetPrev(head, block, at, f1.(next := f1.next[block.pos := head]));
    }
  }

  method LinkAcross(prev: BuddyBlock, next: BuddyBlock?, ghost at: Nodes, ghost f: Fields)
    requires Named(at) && In(at, prev) && (next == null || In(at, next)) && Describes(at, f)
    modifies prev, next
    ensures Describes(at, Unlinking(f, prev, next))
  {
    SetNext(prev, next, at, f);
    if next != null {
      SetPrev(next, prev, at, f.(next := f.next[prev.pos := next]));
    }
  }

  /** The nodes, their recorded fields and the abstract system they represent. */
  datatype View = View(repr: set<BuddyBlock>, at: Nodes, fields: Fields, sys: System)

  /** Splitting has gone from level `c` of `v0` to level `m` of `v` on the way to level `t`,
      and `p` is the head of level `m`. */
  ghost predicate Splitting(v0: View, c: nat, t: nat, v: View, m: nat, p: Pos) {
    && Tree(v.sys) && Listed(v.sys, {}) && Extends(v0.at, v.at)
    && c <= t < |v0.sys.free| && v0.sys.free[c] != [] && m <= t < |v.sys.free| && v.sys.free[m] != []
    && p == Pos(m, v.sys.free[m][0]) && SplitDown(v.sys, m, t) == SplitDown(v0.sys, c, t)
  }

  ghost predicate Coherent(v: View, heads: seq<BuddyBlock?>) {
    Within(v.at, v.repr) && Rep(v.at, v.fields, v.sys, heads)
  }

  ghost predicate Extends(at: Nodes, at': Nodes) {
    forall p {:trigger p in at'} :: p in at ==> p in at' && at'[p] == at[p]
  }

  lemma SameNode(at: Nodes, at': Nodes, p: Pos)
    requires Extends(at, at') && p in at
    ensures p in at' && at'[p] == at[p]
  {
  }

  lemma ExtendsTransitive(a: Nodes, b: Nodes, c: Nodes)
    requires Extends(a, b) && Extends(b, c)
    ensures Extends(a, c)
  {
    forall p | p in a
      ensures p in c && c[p] == a[p]
    {
      SameNode(a, b, p);
      SameNode(b, c, p);
    }
  }

  lemma ExtendedTwice(at: Nodes, at': Nodes, l: BuddyBlock, r: BuddyBlock)
    requires at' == at[l.pos := l][r.pos := r] && l.pos !in at && r.pos !in at
    ensures Extends(at, at')
  {
  }

  lemma WithinExtended(at: Nodes, repr: set<BuddyBlock>, l: BuddyBlock, r: BuddyBlock)
    requires Within(at, repr)
    ensures Within(at[l.pos := l][r.pos := r], repr + {l, r})
  {
  }

  /** What the merge loop relies on when a dangling block and its buddy are free. */
  lemma MergeFacts(s: System, p: Pos)
    requires Dangling(s, p) && FreePair(s, p)
    ensures var b := BuddyOf(p);
            && Parent(p) in s.blocks && Parent(p) !in Pair(p)
            && Left(p) !in s.blocks && Right(p) !in s.blocks && Left(b) !in s.blocks && Right(b) !in s.blocks
            && p.index !in s.free[p.level] && b.index in s.free[p.level] && Distinct(s.free[p.level])
            && b.index !in Remove(s.free[p.level], b.index) && p.index !in Remove(s.free[p.level], b.index)
  {
    var b := BuddyOf(p);
    ChildPositions(p);
    ParentIsSplit(s, p);
    NoChildren(s, p);
    NoChildren(s, b);
    assert LevelListed(s, {p}, p.level);
    assert !ShouldList(s, {p}, p) && ShouldList(s, {p}, b);
    RemoveMembers(s.free[p.level], b.index);
  }

  lemma DanglingDone(s: System, p: Pos)
    requires Dangling(s, p)
    ensures p.index !in s.free[p.level] && Distinct(s.free[p.level])
    ensures !FreePair(s, p) ==> MergeUp(s, p) == List(s, p)
  {
    assert LevelListed(s, {p}, p.level);
    assert !ShouldList(s, {p}, p);
  }

  lemma MergeSteps(s: System, p: Pos)
    requires 0 < p.level < |s.free| && Parent(p) !in Pair(p)
    ensures var s1 := Unlist(s, BuddyOf(p));
            s1.(blocks := s1.blocks[Parent(p) := Free] - Pair(p)) == MergePair(s, p)
  {
    assert s.blocks[Parent(p) := Free] - Pair(p) == (s.blocks - Pair(p))[Parent(p) := Free];
  }

  lemma SplitFacts(s: System, level: nat)
    requires Tree(s) && Listed(s, {}) && level < s.order && s.free[level] != []
    ensures var h := Pos(level, s.free[level][0]);
            && Left(h) !in s.blocks && Right(h) !in s.blocks
            && Left(h).index !in s.free[level + 1] && Right(h).index !in s.free[level + 1]
            && Distinct(s.free[level]) && Distinct(s.free[level + 1])
  {
    var h := Pos(level, s.free[level][0]);
    HeadIsFree(s, level);
    NoChildren(s, h);
    assert LevelListed(s, {}, level) && LevelListed(s, {}, level + 1);
    assert !ShouldList(s, {}, Left(h)) && !ShouldList(s, {}, Right(h));
  }

  lemma SplitSteps(s: System, c: nat)
    requires c + 1 < |s.free| && s.free[c] != []
    ensures var h := Pos(c, s.free[c][0]);
            var s1 := Unlist(s, h);
            var s2 := s1.(blocks := s1.blocks[Left(h) := Free][Right(h) := Free]);
            var s3 := List(List(s2, Right(h)), Left(h));
            s3.(blocks := s3.blocks[h := Split]) == SplitHead(s, c)
  {
    var h := Pos(c, s.free[c][0]);
    var s1 := Unlist(s, h);
    assert s1.free == s.free[c := s.free[c][1..]];
    var s2 := s1.(blocks := s1.blocks[Left(h) := Free][Right(h) := Free]);
    var s3 := List(List(s2, Right(h)), Left(h));
    assert s3.blocks[h := Split] == SplitHead(s, c).blocks;
    assert s3.free[c + 1] == [Left(h).index, Right(h).index] + s.free[c + 1];
    assert s3.free == SplitHead(s, c).free;
  }

  class BuddyBlockAllocator {
    const order: nat
    const root: BuddyBlock
    var heads: seq<BuddyBlock?>
    ghost var view: View

    ghost predicate Linked()
      reads this, view.at.Values
    {
      Coherent(view, heads) && view.sys.order == order && Describes(view.at, view.fields)
    }

    ghost predicate Valid()
      reads this, view.at.Values
    {
      Linked() && Inv(view.sys) && Pos(0, 0) in view.at && root == view.at[Pos(0, 0)]
    }

    constructor (maxBlockSize: nat)
      requires IsPowerOfTwo(maxBlockSize)
      ensures Valid() && view.sys == Init(Log2(maxBlockSize)) && Pow2(order) == maxBlockSize
      ensures fresh(view.repr)
    {
      var n := Log2(maxBlockSize);
      var r := new BuddyBlock(maxBlockSize, 0, Pos(0, 0));
      order := n;
      root := r;
      heads := [r] + seq(n, _ => null);
      var p := Pos(0, 0);
      view := View({r}, map[p := r], Fields(map[p := Tie(Free, null, null, null)], map[p := null], map[p := null]),
                   Init(n));
      new;
      PowerOfTwoMeaning(maxBlockSize);
      InitInv(n);
      ghost var f := view.fields;
      assert NodeRep(view.at, f.ties, view.sys, Pos(0, 0));
      forall l: nat | l < |heads|
        ensures ListRep(view.at, f, l, view.sys.free[l], heads[l])
      {
        assert view.sys.free[l] == if l == 0 then [0] else [];
      }
    }

    /** Puts an unlisted block in front of the list of its level. */
    method InsertFreeBlock(block: BuddyBlock, level: nat)
      requires Linked() && level <= order && In(view.at, block) && block.pos.level == level
      requires block.pos.index !in view.sys.free[level] && Distinct(view.sys.free[level])
      modifies this`heads, this`view, view.repr
      ensures Linked() && view == old(view).(fields := view.fields, sys := List(old(view.sys), block.pos))
    {
      ghost var p, f := block.pos, view.fields;
      HeadNode(view.at, f, view.sys, heads, level);
      RepInsert(view.at, f, view.sys, heads, p);
      LinkFront(block, heads[level], view.at, f);
      view := view.(fields := Linking(view.at, f, p, heads[level]), sys := List(view.sys, p));
      heads := heads[level := block];
    }

    /** Takes a listed block out of the list of its level. */
    method RemoveFreeBlock(block: BuddyBlock, level: nat)
      requires Linked() && level <= order && In(view.at, block) && block.pos.level == level
      requires block.pos.index in view.sys.free[level] && Distinct(view.sys.free[level])
      modifies this`heads, this`view, view.repr
      ensures Linked() && view == old(view).(fields := view.fields, sys := Unlist(old(view.sys), block.pos))
    {
      if heads[level] == block {
        RemoveFirst(block, level);
      } else {
        RemoveInner(block, level);
      }
    }

    method RemoveFirst(block: BuddyBlock, level: nat)
      requires Linked() && level <= order && In(view.at, block) && block.pos.level == level && heads[level] == block
      modifies this`heads, this`view
      ensures Linked() && view == old(view).(sys := Unlist(old(view.sys), block.pos))
    {
      assert Records(view.at, view.fields, block.pos);
      RepUnlistHead(view.at, view.fields, view.sys, heads, block.pos);
      heads := heads[level := block.next];
      view := view.(sys := Unlist(view.sys, block.pos));
    }

    method RemoveInner(block: BuddyBlock, level: nat)
      requires Linked() && level <= order && In(view.at, block) && block.pos.level == level && heads[level] != block
      requires block.pos.index in view.sys.free[level] && Distinct(view.sys.free[level])
      modifies this`view, view.repr
      ensures Linked() && view == old(view).(fields := view.fields, sys := Unlist(old(view.sys), block.pos))
    {
      assert Records(view.at, view.fields, block.pos);
      RepUnlistInner(view.at, view.fields, view.sys, heads, block.pos);
      var prev, next := block.prev, block.next;
      LinkAcross(prev, next, view.at, view.fields);
      view := view.(fields := Unlinking(view.fields, prev, next), sys := Unlist(view.sys, block.pos));
    }

    /** Creates the unlisted children of a block. */
    method AddChildren(block: BuddyBlock) returns (l: BuddyBlock, r: BuddyBlock)
      requires Linked() && In(view.at, block) && block.pos.level < order
      requires Left(block.pos) !in view.at && Right(block.pos) !in view.at
      modifies this`view
      ensures Linked() && fresh(l) && fresh(r) && l.pos == Left(block.pos) && r.pos == Right(block.pos)
      ensures view.repr == old(view.repr) + {l, r} && view.at == old(view.at)[l.pos := l][r.pos := r]
      ensures view.sys == old(view.sys).(blocks := old(view.sys).blocks[l.pos := Free][r.pos := Free])
    {
      l, r := NewChildren(block, view.at, view.fields);
      ghost var v := view;
      view := View(view.repr + {l, r}, view.at[l.pos := l][r.pos := r],
                   Child(Child(view.fields, l.pos, r, block), r.pos, l, block),
                   view.sys.(blocks := view.sys.blocks[l.pos := Free][r.pos := Free]));
      AddCoherent(v, heads, block, l, r, view);
    }

    method MarkSplit(block: BuddyBlock, l: BuddyBlock)
      requires Linked() && In(view.at, block) && Left(block.pos) in view.at && l == view.at[Left(block.pos)]
      modifies this`view, block
      ensures Linked()
      ensures view == old(view).(fields := view.fields,
                                 sys := old(view.sys).(blocks := old(view.sys).blocks[block.pos := Split]))
    {
      RepState(view.at, view.fields, view.sys, heads, block.pos, Split, l);
      SetSplit(block, l, view.at, view.fields);
      ghost var ties := view.fields.ties;
      view := view.(fields := view.fields.(ties := ties[block.pos := ties[block.pos].(state := Split, left := l)]),
                    sys := view.sys.(blocks := view.sys.blocks[block.pos := Split]));
    }

    method MarkState(block: BuddyBlock, state: BlockState)
      requires Linked() && In(view.at, block) && state != Split
      modifies this`view, block
      ensures Linked()
      ensures view == old(view).(fields := view.fields,
                                 sys := old(view.sys).(blocks := old(view.sys).blocks[block.pos := state]))
    {
      assert Records(view.at, view.fields, block.pos);
      RepState(view.at, view.fields, view.sys, heads, block.pos, state, block.left);
      SetState(block, state, view.at, view.fields);
      ghost var ties := view.fields.ties;
      view := view.(fields := view.fields.(ties := ties[block.pos := ties[block.pos].(state := state)]),
                    sys := view.sys.(blocks := view.sys.blocks[block.pos := state]));
    }

    /** Lists both children, the left one in front. */
    method InsertChildren(l: BuddyBlock, r: BuddyBlock, level: nat)
      requires Linked() && level <= order && In(view.at, l) && In(view.at, r) && l.pos.level == r.pos.level == level
      requires l.pos.index != r.pos.index && Distinct(view.sys.free[level])
      requires l.pos.index !in view.sys.free[level] && r.pos.index !in view.sys.free[level]
      modifies this`heads, this`view, view.repr
      ensures Linked() && view == old(view).(fields := view.fields, sys := List(List(old(view.sys), r.pos), l.pos))
    {
      InsertFreeBlock(r, level);
      InsertFreeBlock(l, level);
    }

    /** Unlists the head of `level` and creates its unlisted children. */
    method OpenBlock(block: BuddyBlock, level: nat) returns (l: BuddyBlock, r: BuddyBlock)
      requires Linked() && level < order && In(view.at, block) && block.pos.level == level
      requires block.pos.index in view.sys.free[level] && Distinct(view.sys.free[level])
      requires Left(block.pos) !in view.at && Right(block.pos) !in view.at
      modifies this`heads, this`view, view.repr
      ensures Linked() && fresh(l) && fresh(r) && l.pos == Left(block.pos) && r.pos == Right(block.pos)
      ensures view.repr == old(view.repr) + {l, r} && view.at == old(view.at)[l.pos := l][r.pos := r]
      ensures var s1 := Unlist(old(view.sys), block.pos);
              view.sys == s1.(blocks := s1.blocks[l.pos := Free][r.pos := Free])
    {
      RemoveFreeBlock(block, level);
      l, r := AddChildren(block);
    }

    /** One iteration of the split loop: the head of `level` gives way to its two children. */
    method SplitBlock(block: BuddyBlock, level: nat) returns (l: BuddyBlock, ghost r: BuddyBlock)
      requires Linked() && Tree(view.sys) && Listed(view.sys, {}) && level < order && view.sys.free[level] != []
      requires Pos(level, view.sys.free[level][0]) in view.at && block == view.at[Pos(level, view.sys.free[level][0])]
      modifies this`heads, this`view, view.repr
      ensures Linked() && view.sys == SplitHead(old(view.sys), level)
      ensures fresh(l) && fresh(r) && l.pos == Left(block.pos) && r.pos == Right(block.pos)
      ensures view.repr == old(view.repr) + {l, r} && Extends(old(view.at), view.at) && In(view.at, l)
    {
      SplitFacts(view.sys, level);
      SplitSteps(view.sys, level);
      var rightChild;
      l, rightChild := OpenBlock(block, level);
      r := rightChild;
      ExtendedTwice(old(view.at), view.at, l, r);
      InsertChildren(l, rightChild, level + 1);
      MarkSplit(block, l);
    }

    /** The level, at most `level`, whose list head the request is served from; -1 if there is none. */
    method GetNextFreeAlignedBlock(level: nat, alignment: nat) returns (r: int)
      requires Linked() && level <= order && IsPowerOfTwo(alignment)
      ensures r == NextFreeLevel(view.sys, level, alignment)
    {
      for i := 0 to level + 1
        invariant i <= level ==>
          NextFreeLevel(view.sys, level, alignment) == NextFreeLevel(view.sys, level - i, alignment)
        invariant i == level + 1 ==> NextFreeLevel(view.sys, level, alignment) == -1
      {
        var currLevel := level - i;
        HeadNode(view.at, view.fields, view.sys, heads, currLevel);
        var freeBlock := heads[currLevel];
        if freeBlock != null {
          assert Placed(view.at, view.sys, freeBlock.pos);
          if IsAligned(freeBlock.offset, alignment) {
            return currLevel;
          }
        }
      }
      return -1;
    }

    /** Hands out a free block, or null; the system changes as `TryAllocate` says. */
    method TryAllocateBlock(requestSize: nat, alignment: nat) returns (block: BuddyBlock?)
      requires Valid() && requestSize > 0 && IsPowerOfTwo(alignment)
      modifies this`heads, this`view, view.repr
      ensures Valid() && fresh(view.repr - old(view.repr))
      ensures block == null <==> TryAllocate(old(view.sys), requestSize, alignment).None?
      ensures block == null ==> view == old(view)
      ensures block != null ==> In(view.at, block)
      ensures block != null ==> TryAllocate(old(view.sys), requestSize, alignment) == Some((view.sys, block.pos))
      ensures Extends(old(view.at), view.at)
    {
      if requestSize > Pow2(order) {
        return null;
      }
      ghost var s := view.sys;
      var sizeToLevel := order - Log2(requestSize);
      assert sizeToLevel == LevelOf(s, requestSize);
      var currBlockLevel := GetNextFreeAlignedBlock(sizeToLevel, alignment);
      if currBlockLevel < 0 {
        return null;
      }
      block := TakeFromLevel(currBlockLevel, sizeToLevel);
    }

    method TakeFromLevel(level: nat, sizeToLevel: nat) returns (block: BuddyBlock)
      requires Valid() && level <= sizeToLevel <= order && view.sys.free[level] != []
      modifies this`heads, this`view, view.repr
      ensures Valid() && fresh(view.repr - old(view.repr)) && Extends(old(view.at), view.at) && In(view.at, block)
      ensures SplitDown(old(view.sys), level, sizeToLevel) == (view.sys, block.pos)
    {
      ghost var s := view.sys;
      HeadNode(view.at, view.fields, s, heads, level);
      CoalescedWeaken(s, Pair(Pos(level, s.free[level][0])));
      SplitDownInv(s, level, sizeToLevel);
      block := SplitToLevel(heads[level], level, sizeToLevel);
      TakeBlock(block, sizeToLevel);
    }

    /** Splitting that began at level `c` in view `v0` has come to `block`, of level `m`. */
    ghost predicate Halfway(v0: View, c: nat, t: nat, m: nat, block: BuddyBlock)
      reads this, view.at.Values
    {
      Linked() && In(view.at, block) && t <= order && Splitting(v0, c, t, view, m, block.pos)
    }

    method SplitFurther(block: BuddyBlock, level: nat, ghost v0: View, ghost c: nat, ghost t: nat)
        returns (l: BuddyBlock)
      requires Halfway(v0, c, t, level, block) && level < t
      modifies this`heads, this`view, view.repr
      ensures Halfway(v0, c, t, level + 1, l) && fresh(view.repr - old(view.repr))
    {
      SplitHeadTree(view.sys, level);
      SplitHeadListed(view.sys, level);
      ghost var r;
      l, r := SplitBlock(block, level);
    }

    /** Splits free blocks level by level, always descending into the left child. */
    method SplitToLevel(head: BuddyBlock, level: nat, sizeToLevel: nat) returns (currBlock: BuddyBlock)
      requires Linked() && level <= sizeToLevel <= order && Tree(view.sys) && Listed(view.sys, {})
      requires view.sys.free[level] != [] && In(view.at, head) && head.pos == Pos(level, view.sys.free[level][0])
      modifies this`heads, this`view, view.repr
      ensures Halfway(old(view), level, sizeToLevel, sizeToLevel, currBlock) && fresh(view.repr - old(view.repr))
    {
      currBlock := head;
      var currBlockLevel := level;
      while currBlockLevel < sizeToLevel
        invariant currBlockLevel <= sizeToLevel && fresh(view.repr - old(view.repr))
        invariant Halfway(old(view), level, sizeToLevel, currBlockLevel, currBlock)
      {
        currBlock := SplitFurther(currBlock, currBlockLevel, old(view), level, sizeToLevel);
        currBlockLevel := currBlockLevel + 1;
      }
    }

    /** Unlists the head of `level` and marks it allocated. */
    method TakeBlock(block: BuddyBlock, level: nat)
      requires Linked() && level <= order && Tree(view.sys) && Listed(view.sys, {}) && view.sys.free[level] != []
      requires In(view.at, block) && block.pos == Pos(level, view.sys.free[level][0])
      modifies this`heads, this`view, view.repr
      ensures Linked() && view == old(view).(fields := view.fields, sys := TakeHead(old(view.sys), level))
    {
      assert LevelListed(view.sys, {}, level);
      RemoveFreeBlock(block, level);
      MarkState(block, Allocated);
    }

    /** One iteration of the merge loop: a free block and its free buddy give way to their parent. */
    method MergeBuddies(curr: BuddyBlock, level: nat) returns (parent: BuddyBlock)
      requires Linked() && In(view.at, curr) && Dangling(view.sys, curr.pos) && FreePair(view.sys, curr.pos)
      requires level == curr.pos.level
      modifies this`heads, this`view, view.repr
      ensures Linked() && view.sys == MergePair(old(view.sys), curr.pos) && view.repr == old(view.repr)
      ensures Extends(view.at, old(view.at)) && In(view.at, parent) && parent.pos == Parent(curr.pos)
    {
      ghost var p := curr.pos;
      MergeFacts(view.sys, p);
      MergeSteps(view.sys, p);
      assert NodeRep(view.at, view.fields.ties, view.sys, p) && Records(view.at, view.fields, p);
      parent := curr.parent;
      RemoveFreeBlock(curr.buddy, level);
      MarkState(parent, Free);
      DropPair(p);
    }

    /** The buddies are deleted; nothing refers to them any more. */
    ghost method DropPair(p: Pos)
      requires Linked() && Droppable(view.at, view.sys, p)
      modifies this`view
      ensures Linked() && view.repr == old(view.repr) && view.at == old(view.at) - Pair(p)
      ensures view.sys == old(view.sys).(blocks := old(view.sys).blocks - Pair(p))
    {
      DescribesWithout(view.at, view.fields, Pair(p));
      ghost var v := view;
      view := View(view.repr, view.at - Pair(p), Without(view.fields, Pair(p)),
                   view.sys.(blocks := view.sys.blocks - Pair(p)));
      DropCoherent(v, heads, p, view);
    }

    /** The links of a node lead to its buddy and its parent. */
    lemma Family(block: BuddyBlock)
      requires Linked() && In(view.at, block)
      ensures block.pos in view.sys.blocks && block.state == view.sys.blocks[block.pos]
      ensures block.pos.level > 0 ==>
        && block.buddy != null && In(view.at, block.buddy) && block.buddy.pos == BuddyOf(block.pos)
        && block.parent != null && In(view.at, block.parent) && block.parent.pos == Parent(block.pos)
    {
      var p := block.pos;
      assert NodeRep(view.at, view.fields.ties, view.sys, p) && Records(view.at, view.fields, p);
      if p.level > 0 {
        assert view.at[BuddyOf(p)].pos == BuddyOf(p) && view.at[Parent(p)].pos == Parent(p);
      }
    }

    /** The test of the merge loop. */
    method BuddyIsFree(curr: BuddyBlock, level: nat) returns (b: bool)
      requires Linked() && In(view.at, curr) && Dangling(view.sys, curr.pos) && level == curr.pos.level
      ensures b == FreePair(view.sys, curr.pos)
    {
      Family(curr);
      if level > 0 {
        Family(curr.buddy);
      }
      return level > 0 && curr.buddy.state == Free;
    }

    /** Merges buddies level by level until the buddy is in use or the root is reached. */
    method MergeToTop(block: BuddyBlock, level: nat) returns (curr: BuddyBlock, currBlockLevel: nat)
      requires Linked() && In(view.at, block) && Dangling(view.sys, block.pos) && level == block.pos.level
      modifies this`heads, this`view, view.repr
      ensures Linked() && In(view.at, curr) && Dangling(view.sys, curr.pos) && currBlockLevel == curr.pos.level
      ensures !FreePair(view.sys, curr.pos) && view.repr == old(view.repr) && Extends(view.at, old(view.at))
      ensures MergeUp(old(view.sys), block.pos) == MergeUp(view.sys, curr.pos)
    {
      curr, currBlockLevel := block, level;
      var merge := BuddyIsFree(curr, currBlockLevel);
      while merge
        invariant Linked() && In(view.at, curr) && Dangling(view.sys, curr.pos) && currBlockLevel == curr.pos.level
        invariant view.repr == old(view.repr) && Extends(view.at, old(view.at))
        invariant MergeUp(old(view.sys), block.pos) == MergeUp(view.sys, curr.pos)
        invariant merge == FreePair(view.sys, curr.pos)
        decreases currBlockLevel
      {
        ghost var s, at, p := view.sys, view.at, curr.pos;
        MergePairDangling(s, p);
        curr := MergeBuddies(curr, currBlockLevel);
        assert MergeUp(s, p) == MergeUp(view.sys, curr.pos);
        ExtendsTransitive(view.at, at, old(view.at));
        currBlockLevel := currBlockLevel - 1;
        merge := BuddyIsFree(curr, currBlockLevel);
      }
    }

    method LevelOfBlock(block: BuddyBlock) returns (level: nat)
      requires Valid() && In(view.at, block)
      ensures level == block.pos.level
    {
      assert NodeRep(view.at, view.fields.ties, view.sys, block.pos);
      assert NodeOk(view.sys, block.pos);
      assert Placed(view.at, view.sys, block.pos);
      Log2Pow2(order - block.pos.level);
      level := order - Log2(block.size);
    }

    /** Frees an allocated block; the system changes as `Deallocate` says. */
    method DeallocateBlock(block: BuddyBlock)
      requires Valid() && In(view.at, block) && block.pos in Live(view.sys)
      modifies this`heads, this`view, view.repr
      ensures Valid() && view.repr == old(view.repr) && Extends(view.at, old(view.at))
      ensures block.pos.level < |old(view.sys).free| && view.sys == Deallocate(old(view.sys), block.pos)
    {
      var currBlockLevel := LevelOfBlock(block);
      DeallocateInv(view.sys, block.pos);
      ghost var s1 := UnmarkBlock(block);
      var curr;
      curr, currBlockLevel := MergeToTop(block, currBlockLevel);
      ListMerged(curr, currBlockLevel);
      SameNode(view.at, old(view.at), Pos(0, 0));
    }

    method UnmarkBlock(block: BuddyBlock) returns (ghost s1: System)
      requires Linked() && Inv(view.sys) && In(view.at, block) && block.pos in Live(view.sys)
      modifies this`view, block
      ensures Linked() && Dangling(view.sys, block.pos) && view == old(view).(fields := view.fields, sys := s1)
      ensures s1 == old(view.sys).(blocks := old(view.sys).blocks[block.pos := Free])
    {
      MarkFree(view.sys, block.pos);
      MarkState(block, Free);
      s1 := view.sys;
    }

    method ListMerged(curr: BuddyBlock, level: nat)
      requires Linked() && In(view.at, curr) && Dangling(view.sys, curr.pos) && level == curr.pos.level
      requires !FreePair(view.sys, curr.pos)
      modifies this`heads, this`view, view.repr
      ensures Linked() && view == old(view).(fields := view.fields, sys := MergeUp(old(view.sys), curr.pos))
    {
      DanglingDone(view.sys, curr.pos);
      InsertFreeBlock(curr, level);
    }
  }
}
