/** A list with stable indices that erases in place: src/gpgmm/utils/StableList.h.
    A list is a sequence of slots; a slot is None once its element is erased. */
module StableLists {
  import opened Options

  // ----- What a list means

  type Slots<T> = seq<Option<T>>

  /** Slots without the empty ones at the end. */
  function Trim<T>(s: Slots<T>): (r: Slots<T>)
    ensures Compact(r) && |r| <= |s| && r == s[..|r|]
    ensures forall i :: |r| <= i < |s| ==> s[i].None?
  {
    if s == [] || s[|s| - 1].Some? then s else Trim(s[..|s| - 1])
  }

  predicate Compact<T>(s: Slots<T>) {
    s == [] || s[|s| - 1].Some?
  }

  function Push<T>(s: Slots<T>, x: T): Slots<T> { s + [Some(x)] }

  function Erase<T>(s: Slots<T>, i: nat): Slots<T>
    requires i < |s|
  {
    if s[i].None? then s else Trim(s[i := None])
  }

  function Occupied<T>(s: Slots<T>): nat {
    if s == [] then 0 else Occupied(s[..|s| - 1]) + if s[|s| - 1].Some? then 1 else 0
  }

  /** Erasing leaves every other element at its index and removes exactly one. */
  lemma EraseKeepsOthers<T>(s: Slots<T>, i: nat)
    requires i < |s| && Compact(s) && s[i].Some?
    ensures Compact(Erase(s, i)) && Occupied(Erase(s, i)) == Occupied(s) - 1
    ensures forall j :: 0 <= j < |s| && s[j].Some? && j != i ==> j < |Erase(s, i)| && Erase(s, i)[j] == s[j]
    ensures forall j :: 0 <= j < |Erase(s, i)| && Erase(s, i)[j].Some? ==> j != i && Erase(s, i)[j] == s[j]
  {
    var t := s[i := None];
    OccupiedUpdate(s, i);
    OccupiedTrim(t);
    forall j | 0 <= j < |s| && s[j].Some? && j != i
      ensures j < |Trim(t)|
    {
      assert t[j].Some?;
    }
  }

  /** Slot `i`, empty past the end. */
  function Slot<T>(s: Slots<T>, i: nat): Option<T> { if i < |s| then s[i] else None }

  lemma EraseSlots<T>(s: Slots<T>, i: nat)
    requires i < |s| && Compact(s) && s[i].Some?
    ensures Compact(Erase(s, i)) && forall j {:trigger Slot(Erase(s, i), j)} ::
            Slot(Erase(s, i), j) == if j == i then None else Slot(s, j)
  {
    EraseKeepsOthers(s, i);
  }

  lemma PushSlots<T>(s: Slots<T>, x: T)
    ensures Compact(Push(s, x))
    ensures forall j {:trigger Slot(Push(s, x), j)} :: Slot(Push(s, x), j) == if j == |s| then Some(x) else Slot(s, j)
  {
  }

  lemma {:induction false} OccupiedUpdate<T>(s: Slots<T>, i: nat)
    requires i < |s| && s[i].Some?
    ensures Occupied(s[i := None]) == Occupied(s) - 1
  {
    var n, t := |s| - 1, s[i := None];
    if i < n {
      OccupiedUpdate(s[..n], i);
      assert t[..n] == s[..n][i := None];
    } else {
      assert t[..n] == s[..n];
    }
  }

  lemma {:induction false} OccupiedTrim<T>(s: Slots<T>)
    ensures Occupied(Trim(s)) == Occupied(s)
  {
    if s != [] && s[|s| - 1].None? {
      OccupiedTrim(s[..|s| - 1]);
    }
  }

  lemma OccupiedPush<T>(s: Slots<T>, x: T)
    ensures Occupied(Push(s, x)) == Occupied(s) + 1
  {
    assert Push(s, x)[..|s|] == s;
  }

  /** A list that ends in an occupied slot is empty exactly when nothing is occupied. */
  lemma {:induction false} EmptyIffNoneOccupied<T>(s: Slots<T>)
    requires Compact(s)
    ensures Occupied(s) == 0 <==> s == []
  {
  }

  // ----- Chunks

  datatype Chunk<T> = Chunk(data: seq<T>, occupied: seq<bool>)

  ghost predicate ChunkOk<T>(c: Chunk<T>, n: nat) {
    |c.data| <= n && |c.occupied| == n && forall j :: |c.data| <= j < n ==> !c.occupied[j]
  }

  ghost function ChunkSlots<T>(c: Chunk<T>): Slots<T>
    requires |c.data| <= |c.occupied|
  {
    seq(|c.data|, j requires 0 <= j < |c.data| => if c.occupied[j] then Some(c.data[j]) else None)
  }

  /** All chunks but the last are full. */
  ghost predicate ChunksOk<T>(cs: seq<Chunk<T>>, n: nat) {
    && (forall k {:trigger cs[k]} :: 0 <= k < |cs| ==> ChunkOk(cs[k], n))
    && (forall k {:trigger cs[k]} :: 0 <= k < |cs| - 1 ==> |cs[k].data| == n)
  }

  ghost function Flat<T>(cs: seq<Chunk<T>>, n: nat): (s: Slots<T>)
    requires ChunksOk(cs, n)
  {
    if cs == [] then [] else Flat(cs[..|cs| - 1], n) + ChunkSlots(cs[|cs| - 1])
  }

  /** Where chunk `k` starts. */
  ghost function Start(k: nat, n: nat): nat {
    if k == 0 then 0 else Start(k - 1, n) + n
  }

  lemma {:induction false} StartIsProduct(k: nat, n: nat)
    ensures Start(k, n) == k * n
  {
    if k > 0 {
      StartIsProduct(k - 1, n);
      assert (k - 1) * n + n == k * n;
    }
  }

  lemma {:induction false} FlatPrefix<T>(cs: seq<Chunk<T>>, n: nat)
    requires ChunksOk(cs, n) && cs != []
    ensures |Flat(cs[..|cs| - 1], n)| == Start(|cs| - 1, n)
  {
    var m := |cs| - 1;
    if m > 0 {
      FlatPrefix(cs[..m], n);
      assert cs[..m][m - 1] == cs[m - 1];
    }
  }

  lemma FlatLength<T>(cs: seq<Chunk<T>>, n: nat)
    requires ChunksOk(cs, n) && cs != []
    ensures |Flat(cs, n)| == Start(|cs| - 1, n) + |cs[|cs| - 1].data|
  {
    FlatPrefix(cs, n);
  }

  /** The slots of chunk `k` start at `Start(k, n)`. */
  lemma {:induction false} FlatAt<T>(cs: seq<Chunk<T>>, n: nat, k: nat, j: nat, at: nat)
    requires ChunksOk(cs, n) && k < |cs| && j < |cs[k].data| && at == Start(k, n) + j
    ensures at < |Flat(cs, n)| && Flat(cs, n)[at] == ChunkSlots(cs[k])[j]
  {
    var m := |cs| - 1;
    FlatSnoc(cs, n);
    if k < m {
      FlatAt(cs[..m], n, k, j, at);
    }
  }

  lemma FlatSnoc<T>(cs: seq<Chunk<T>>, n: nat)
    requires ChunksOk(cs, n) && cs != []
    ensures ChunksOk(cs[..|cs| - 1], n) && |Flat(cs[..|cs| - 1], n)| == Start(|cs| - 1, n)
    ensures Flat(cs, n) == Flat(cs[..|cs| - 1], n) + ChunkSlots(cs[|cs| - 1])
  {
    FlatPrefix(cs, n);
  }

  function Cleared<T>(c: Chunk<T>, j: nat): Chunk<T>
    requires j < |c.occupied|
  {
    c.(occupied := c.occupied[j := false])
  }

  /** Clearing one occupied bit empties one slot, slot `at` of the list. */
  lemma {:induction false} FlatClear<T>(cs: seq<Chunk<T>>, n: nat, k: nat, j: nat, at: nat, cs': seq<Chunk<T>>)
    requires ChunksOk(cs, n) && k < |cs| && j < |cs[k].data| && at == Start(k, n) + j &&
             cs' == cs[k := Cleared(cs[k], j)]
    ensures ChunksOk(cs', n) && at < |Flat(cs, n)| && Flat(cs', n) == Flat(cs, n)[at := None]
  {
    var m := |cs| - 1;
    ClearedOk(cs, n, k, j, cs');
    FlatSnoc(cs, n);
    FlatSnoc(cs', n);
    if k < m {
      FlatClear(cs[..m], n, k, j, at, cs'[..m]);
    }
    FlatUpdate(Flat(cs[..m], n), ChunkSlots(cs[m]), Flat(cs'[..m], n), ChunkSlots(cs'[m]), j, at, k < m,
               Flat(cs, n), Flat(cs', n));
  }

  lemma FlatUpdate<T>(p: Slots<T>, q: Slots<T>, p': Slots<T>, q': Slots<T>, j: nat, at: nat, early: bool,
                      f: Slots<T>, f': Slots<T>)
    requires if early then at < |p| && p' == p[at := None] && q' == q
             else at == |p| + j && j < |q| && p' == p && q' == q[j := None]
    requires f == p + q && f' == p' + q'
    ensures at < |f| && f' == f[at := None]
  {
  }

  lemma ClearedOk<T>(cs: seq<Chunk<T>>, n: nat, k: nat, j: nat, cs': seq<Chunk<T>>)
    requires ChunksOk(cs, n) && k < |cs| && j < |cs[k].data| && cs' == cs[k := Cleared(cs[k], j)]
    ensures ChunksOk(cs', n) && ChunksOk(cs[..|cs| - 1], n)
    ensures var m := |cs| - 1;
            if k < m then cs'[..m] == cs[..m][k := Cleared(cs[k], j)] && cs'[m] == cs[m]
            else cs'[..m] == cs[..m] && ChunkSlots(cs'[m]) == ChunkSlots(cs[m])[j := None]
  {
  }

  // ----- The list

  class StableList<T> {
    const chunkSize: nat
    var chunks: seq<Chunk<T>>
    var count: nat

    /** All chunks but the last are full and no chunk is empty. */
    ghost predicate Valid()
      reads this
    {
      && chunkSize > 0 && ChunksOk(chunks, chunkSize)
      && (chunks != [] ==> |chunks[|chunks| - 1].data| > 0)
      && Compact(Contents()) && count == Occupied(Contents())
    }

    ghost function Contents(): Slots<T>
      requires ChunksOk(chunks, chunkSize)
      reads this
    {
      Flat(chunks, chunkSize)
    }

    constructor (chunkSize: nat)
      requires chunkSize > 0
      ensures Valid() && Contents() == [] && this.chunkSize == chunkSize
    {
      this.chunkSize, chunks, count := chunkSize, [], 0;
    }

    method AddChunk()
      requires chunkSize > 0 && ChunksOk(chunks, chunkSize) &&
               (chunks != [] ==> |chunks[|chunks| - 1].data| == chunkSize)
      modifies this
      ensures ChunksOk(chunks, chunkSize) && Contents() == old(Contents()) && count == old(count)
      ensures chunks != [] && |chunks[|chunks| - 1].data| == 0
    {
      chunks := chunks + [Chunk([], seq(chunkSize, _ => false))];
      assert chunks[..|chunks| - 1] == old(chunks);
    }

    method GetOrAddLastChunk()
      requires Valid()
      modifies this
      ensures ChunksOk(chunks, chunkSize) && Contents() == old(Contents()) && count == old(count)
      ensures chunks != [] && |chunks[|chunks| - 1].data| < chunkSize
    {
      if chunks == [] || |chunks[|chunks| - 1].data| == chunkSize {
        AddChunk();
      }
    }

    /** The new element gets the index that Size() reported before. */
    method PushBack(x: T)
      requires Valid()
      modifies this
      ensures Valid() && Contents() == Push(old(Contents()), x)
    {
      GetOrAddLastChunk();
      ghost var cs := chunks;
      var m := |chunks| - 1;
      var c := chunks[m];
      chunks := chunks[m := Chunk(c.data + [x], c.occupied[|c.data| := true])];
      count := count + 1;
      assert chunks[..m] == cs[..m];
      assert ChunkSlots(chunks[m]) == ChunkSlots(c) + [Some(x)];
      assert Contents() == Push(old(Contents()), x);
      OccupiedPush(old(Contents()), x);
    }

    method PopLast()
      requires chunkSize > 0 && ChunksOk(chunks, chunkSize) && chunks != []
      requires var c := chunks[|chunks| - 1]; |c.data| > 0 && !c.occupied[|c.data| - 1]
      modifies this
      ensures ChunksOk(chunks, chunkSize) && |chunks| == |old(chunks)| && count == old(count)
      ensures |chunks[|chunks| - 1].data| == |old(chunks)[|chunks| - 1].data| - 1
      ensures Trim(Contents()) == Trim(old(Contents()))
    {
      ghost var cs := chunks;
      var m := |chunks| - 1;
      var c := chunks[m];
      var j := |c.data| - 1;
      chunks := chunks[m := Chunk(c.data[..j], c.occupied[j := false])];
      assert chunks[..m] == cs[..m];
      assert ChunkSlots(c) == ChunkSlots(chunks[m]) + [None];
      TrimSnoc(Contents());
      assert Flat(cs, chunkSize) == Contents() + [None];
    }

    method PopChunk()
      requires chunkSize > 0 && ChunksOk(chunks, chunkSize) && chunks != [] && chunks[|chunks| - 1].data == []
      modifies this
      ensures ChunksOk(chunks, chunkSize) && |chunks| == |old(chunks)| - 1 && count == old(count)
      ensures chunks != [] ==> |chunks[|chunks| - 1].data| == chunkSize
      ensures Contents() == old(Contents())
    {
      chunks := chunks[..|chunks| - 1];
    }

    /** Drops unoccupied slots from the end of the last chunk. */
    method ShrinkLastChunk()
      requires chunkSize > 0 && ChunksOk(chunks, chunkSize) && chunks != []
      modifies this
      ensures ChunksOk(chunks, chunkSize) && count == old(count) && |chunks| == |old(chunks)|
      ensures |chunks[|chunks| - 1].data| > 0 ==> Compact(Contents())
      ensures Trim(Contents()) == Trim(old(Contents()))
    {
      ghost var s := Contents();
      var m := |chunks| - 1;
      var j := |chunks[m].data|;
      while j > 0 && !chunks[m].occupied[j - 1]
        invariant |chunks| == m + 1 && ChunksOk(chunks, chunkSize) && j == |chunks[m].data|
        invariant count == old(count) && Trim(Contents()) == Trim(s)
      {
        PopLast();
        j := j - 1;
      }
      if j > 0 {
        CompactLast(chunks, chunkSize);
      }
    }

    /** Drops unoccupied slots from the end, and the chunks that become empty. */
    method ShrinkToFit()
      requires chunkSize > 0 && ChunksOk(chunks, chunkSize)
      modifies this
      ensures ChunksOk(chunks, chunkSize) && count == old(count)
      ensures chunks != [] ==> |chunks[|chunks| - 1].data| > 0
      ensures Contents() == Trim(old(Contents()))
    {
      ghost var s := Contents();
      var i := |chunks|;
      while i > 0
        invariant i == |chunks| && ChunksOk(chunks, chunkSize) && count == old(count) && Trim(Contents()) == Trim(s)
      {
        ShrinkLastChunk();
        if |chunks[i - 1].data| > 0 {
          return;
        }
        PopChunk();
        i := i - 1;
      }
    }

    /** Empties slot `index`; an index that is already empty is left alone. */
    method EraseAt(index: nat)
      requires Valid() && chunks != [] && index < |chunks| * chunkSize
      modifies this
      ensures Valid()
      ensures Contents() == if index < |old(Contents())| then Erase(old(Contents()), index) else old(Contents())
    {
      var k, j := index / chunkSize, index % chunkSize;
      SplitIndex(index, chunkSize, |chunks|, k, j);
      SlotOfIndex(chunks, chunkSize, index, k, j);
      if !chunks[k].occupied[j] {
        return;
      }
      EraseOccupied(index, k, j);
    }

    method EraseOccupied(index: nat, k: nat, j: nat)
      requires Valid() && k < |chunks| && j < |chunks[k].data| && index == Start(k, chunkSize) + j
      requires index < |Contents()| && Contents()[index].Some?
      modifies this
      ensures Valid() && Contents() == Erase(old(Contents()), index)
    {
      ghost var s := Contents();
      FlatClear(chunks, chunkSize, k, j, index, chunks[k := Cleared(chunks[k], j)]);
      chunks := chunks[k := Cleared(chunks[k], j)];
      ShrinkToFit();
      EraseKeepsOthers(s, index);
      EmptyIffNoneOccupied(s);
      count := count - 1;
    }

    method PopBack()
      requires Valid() && Contents() != []
      modifies this
      ensures Valid() && Contents() == Erase(old(Contents()), |old(Contents())| - 1)
    {
      SizeWithinCapacity(chunks, chunkSize);
      var n := Size();
      EraseAt(n - 1);
    }

    /** The number of slots: the index that the next push will use. */
    method Size() returns (n: nat)
      requires Valid()
      ensures n == |Contents()|
    {
      EmptyIffNoneOccupied(Contents());
      if count == 0 {
        return 0;
      }
      FlatLength(chunks, chunkSize);
      StartIsProduct(|chunks| - 1, chunkSize);
      return (|chunks| - 1) * chunkSize + |chunks[|chunks| - 1].data|;
    }

    /** The last slot is always occupied. */
    method Back() returns (x: T)
      requires Valid() && Contents() != []
      ensures Some(x) == Contents()[|Contents()| - 1]
    {
      FlatLast(chunks, chunkSize);
      var c := chunks[|chunks| - 1];
      return c.data[|c.data| - 1];
    }

    method At(index: nat) returns (x: T)
      requires Valid() && index < |Contents()| && Contents()[index].Some?
      ensures Some(x) == Contents()[index]
    {
      var k, j := index / chunkSize, index % chunkSize;
      Locate(chunks, chunkSize, index, k, j);
      return chunks[k].data[j];
    }
  }

  lemma {:induction false} TrimSnoc<T>(s: Slots<T>)
    ensures Trim(s + [None]) == Trim(s)
  {
    assert (s + [None])[..|s|] == s;
  }

  lemma FlatLast<T>(cs: seq<Chunk<T>>, n: nat)
    requires ChunksOk(cs, n) && cs != [] && |cs[|cs| - 1].data| > 0
    ensures var c := cs[|cs| - 1]; Flat(cs, n) != [] && Flat(cs, n)[|Flat(cs, n)| - 1] == ChunkSlots(c)[|c.data| - 1]
  {
  }

  lemma CompactLast<T>(cs: seq<Chunk<T>>, n: nat)
    requires ChunksOk(cs, n) && cs != []
    requires var c := cs[|cs| - 1]; |c.data| > 0 && c.occupied[|c.data| - 1]
    ensures Compact(Flat(cs, n))
  {
    FlatLast(cs, n);
  }

  lemma SplitIndex(index: nat, n: nat, m: nat, k: nat, j: nat)
    requires n > 0 && index < m * n && k == index / n && j == index % n
    ensures k < m && j < n && index == Start(k, n) + j
  {
    if k >= m {
      TimesMonotone(m, k, n);
    }
    StartIsProduct(k, n);
  }

  lemma TimesMonotone(a: nat, b: nat, n: nat)
    requires a <= b
    ensures a * n <= b * n
  {
  }

  /** The occupied bit of an index tells whether its slot is occupied. */
  lemma SlotOfIndex<T>(cs: seq<Chunk<T>>, n: nat, index: nat, k: nat, j: nat)
    requires ChunksOk(cs, n) && k < |cs| && j < n && index == Start(k, n) + j
    ensures cs[k].occupied[j] <==> index < |Flat(cs, n)| && Flat(cs, n)[index].Some?
    ensures cs[k].occupied[j] ==> j < |cs[k].data| && Flat(cs, n)[index] == Some(cs[k].data[j])
  {
    FlatLength(cs, n);
    if j < |cs[k].data| {
      FlatAt(cs, n, k, j, index);
    }
  }

  lemma Locate<T>(cs: seq<Chunk<T>>, n: nat, index: nat, k: nat, j: nat)
    requires ChunksOk(cs, n) && n > 0 && k == index / n && j == index % n
    requires index < |Flat(cs, n)| && Flat(cs, n)[index].Some?
    ensures k < |cs| && j < |cs[k].data| && Flat(cs, n)[index] == Some(cs[k].data[j])
  {
    SizeWithinCapacity(cs, n);
    SplitIndex(index, n, |cs|, k, j);
    SlotOfIndex(cs, n, index, k, j);
  }

  lemma SizeWithinCapacity<T>(cs: seq<Chunk<T>>, n: nat)
    requires ChunksOk(cs, n)
    ensures |Flat(cs, n)| <= |cs| * n
  {
    if cs != [] {
      FlatLength(cs, n);
      StartIsProduct(|cs|, n);
    }
  }
}
