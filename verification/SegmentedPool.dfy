/** Pools of memory by size, as values: src/gpgmm/common/SegmentedMemoryAllocator.cpp,
    LIFOMemoryPool.cpp and TrimPoolUntil in MemoryPool.h. */
module SegmentedPool {
  import opened Sets
  import opened Math
  import opened Requests
  import opened MemoryPools

  /** A pool of memory of one size; the last memory returned is first. */
  datatype Seg = Seg(size: nat, pool: seq<Memory>)

  /** `live` maps memory in use to the size of its pool; `child` is the memory
      obtained from the next allocator and not given back, `childBytes` its size. */
  datatype Pools = Pools(segments: seq<Seg>, usedCount: int, usedBytes: int, freeBytes: int,
                         live: map<Memory, nat>, child: set<Memory>, childBytes: int)

  // ----- Segments in order of size

  ghost predicate Ascending(segs: seq<Seg>) {
    forall i, j :: 0 <= i < j < |segs| ==> segs[i].size < segs[j].size
  }

  /** The first segment from `i` on that is not smaller than `size`. */
  function Position(segs: seq<Seg>, size: nat, i: nat): (k: nat)
    requires i <= |segs|
    ensures i <= k <= |segs| && forall j :: i <= j < k ==> segs[j].size < size
    ensures k < |segs| ==> segs[k].size >= size
    decreases |segs| - i
  {
    if i == |segs| || segs[i].size >= size then i else Position(segs, size, i + 1)
  }

  predicate HasSegment(segs: seq<Seg>, size: nat) {
    var k := Position(segs, size, 0); k < |segs| && segs[k].size == size
  }

  function InsertAt(segs: seq<Seg>, k: nat, s: Seg): seq<Seg>
    requires k <= |segs|
  {
    segs[..k] + [s] + segs[k..]
  }

  /** The segments with one for `size`, in its place. */
  function WithSegment(segs: seq<Seg>, size: nat): seq<Seg> {
    if HasSegment(segs, size) then segs else InsertAt(segs, Position(segs, size, 0), Seg(size, []))
  }

  lemma InsertedAt(segs: seq<Seg>, k: nat, s: Seg, r: seq<Seg>)
    requires k <= |segs| && r == InsertAt(segs, k, s)
    ensures |r| == |segs| + 1
    ensures forall j {:trigger r[j]} :: 0 <= j < |r| ==>
              r[j] == if j < k then segs[j] else if j == k then s else segs[j - 1]
  {
  }

  /** Sizes stay strictly ascending, so there is one segment per size. */
  lemma WithSegmentOk(segs: seq<Seg>, size: nat, segs': seq<Seg>)
    requires Ascending(segs) && segs' == WithSegment(segs, size)
    ensures Ascending(segs') && HasSegment(segs', size) && Position(segs', size, 0) == Position(segs, size, 0)
  {
    var k := Position(segs, size, 0);
    if !HasSegment(segs, size) {
      InsertedAt(segs, k, Seg(size, []), segs');
      InsertedAscending(segs, k, Seg(size, []), segs');
      PositionUnique(segs', size, k);
    }
  }

  lemma InsertedAscending(segs: seq<Seg>, k: nat, s: Seg, r: seq<Seg>)
    requires Ascending(segs) && k <= |segs| && |r| == |segs| + 1
    requires forall j {:trigger r[j]} :: 0 <= j < |r| ==>
               r[j] == if j < k then segs[j] else if j == k then s else segs[j - 1]
    requires (forall j :: 0 <= j < k ==> segs[j].size < s.size) && (k < |segs| ==> s.size < segs[k].size)
    ensures Ascending(r)
  {
  }

  lemma PositionUnique(segs: seq<Seg>, size: nat, k: nat)
    requires k < |segs| && segs[k].size >= size && forall j :: 0 <= j < k ==> segs[j].size < size
    ensures Position(segs, size, 0) == k
  {
  }

  /** In an ascending list a size is found exactly if some segment has it. */
  lemma HasSegmentMeaning(segs: seq<Seg>, size: nat)
    requires Ascending(segs)
    ensures HasSegment(segs, size) <==> exists i :: 0 <= i < |segs| && segs[i].size == size
    ensures forall i :: 0 <= i < |segs| && segs[i].size == size ==> i == Position(segs, size, 0)
  {
  }

  // ----- Bytes

  function PooledBytes(segs: seq<Seg>): nat {
    if segs == [] then 0
    else PooledBytes(segs[..|segs| - 1]) + PoolBytes(segs[|segs| - 1].pool, |segs[|segs| - 1].pool|)
  }

  lemma {:induction false} PooledBytesPut(segs: seq<Seg>, k: nat, s: Seg)
    requires k < |segs|
    ensures PooledBytes(segs[k := s]) ==
            PooledBytes(segs) - PoolBytes(segs[k].pool, |segs[k].pool|) + PoolBytes(s.pool, |s.pool|)
  {
    var n, t := |segs| - 1, segs[k := s];
    if k < n {
      PooledBytesPut(segs[..n], k, s);
      assert t[..n] == segs[..n][k := s];
    } else {
      assert t[..n] == segs[..n];
    }
  }

  lemma InsertSnoc(segs: seq<Seg>, k: nat, s: Seg)
    requires k < |segs|
    ensures InsertAt(segs, k, s) == InsertAt(segs[..|segs| - 1], k, s) + [segs[|segs| - 1]]
  {
    var n := |segs| - 1;
    assert segs[k..] == segs[..n][k..] + [segs[n]];
  }

  lemma {:induction false} PooledBytesInsert(segs: seq<Seg>, k: nat, size: nat)
    requires k <= |segs|
    ensures PooledBytes(InsertAt(segs, k, Seg(size, []))) == PooledBytes(segs)
    decreases |segs| - k
  {
    var t := InsertAt(segs, k, Seg(size, []));
    if k == |segs| {
      assert t[..|segs|] == segs;
    } else {
      var n := |segs| - 1;
      InsertSnoc(segs, k, Seg(size, []));
      PooledBytesInsert(segs[..n], k, size);
      assert t[..n + 1] == InsertAt(segs[..n], k, Seg(size, []));
    }
  }

  lemma WithSegmentBytes(segs: seq<Seg>, size: nat)
    ensures PooledBytes(WithSegment(segs, size)) == PooledBytes(segs)
  {
    if !HasSegment(segs, size) {
      PooledBytesInsert(segs, Position(segs, size, 0), size);
    }
  }

  // ----- Conservation of memory

  /** All pooled memory, with repetitions. */
  ghost function Pooled(segs: seq<Seg>): multiset<Memory> {
    if segs == [] then multiset{} else Pooled(segs[..|segs| - 1]) + multiset(segs[|segs| - 1].pool)
  }

  lemma {:induction false} PooledPut(segs: seq<Seg>, k: nat, s: Seg)
    requires k < |segs|
    ensures multiset(segs[k].pool) <= Pooled(segs)
    ensures Pooled(segs[k := s]) == Pooled(segs) - multiset(segs[k].pool) + multiset(s.pool)
  {
    var n, t := |segs| - 1, segs[k := s];
    if k < n {
      PooledPut(segs[..n], k, s);
      assert t[..n] == segs[..n][k := s];
    } else {
      assert t[..n] == segs[..n];
    }
  }

  lemma PooledSnoc(segs: seq<Seg>, s: Seg, t: seq<Seg>)
    requires t == segs + [s]
    ensures Pooled(t) == Pooled(segs) + multiset(s.pool)
  {
    assert t[..|t| - 1] == segs;
  }

  lemma {:induction false} PooledInsert(segs: seq<Seg>, k: nat, s: Seg, t: seq<Seg>)
    requires k <= |segs| && s.pool == [] && t == InsertAt(segs, k, s)
    ensures Pooled(t) == Pooled(segs)
    decreases |segs| - k
  {
    if k == |segs| {
      PooledSnoc(segs, s, t);
    } else {
      var n := |segs| - 1;
      var a, b := segs[..n], InsertAt(segs[..n], k, s);
      InsertSnoc(segs, k, s);
      PooledInsert(a, k, s, b);
      PooledSnoc(a, segs[n], segs);
      PooledSnoc(b, segs[n], t);
    }
  }

  /** The bytes of a set of memory objects. */
  ghost function Bytes(ms: set<Memory>): int { Total(map m | m in ms :: m.size) }

  lemma BytesWith(ms: set<Memory>, m: Memory)
    requires m !in ms
    ensures Bytes(ms + {m}) == Bytes(ms) + m.size
  {
    var a: map<Memory, int>, b: map<Memory, int> := map x | x in ms :: x.size, map x | x in ms + {m} :: x.size;
    assert b == a[m := m.size];
    TotalWith(a, m, m.size, b);
  }

  ghost predicate SegOk(s: Seg) {
    forall i :: 0 <= i < |s.pool| ==> s.pool[i].size == s.size
  }

  /** Memory sits in, or returns to, the segment of its own size. */
  ghost predicate SizesOk(p: Pools) {
    && (forall k {:trigger p.segments[k]} :: 0 <= k < |p.segments| ==> SegOk(p.segments[k]))
    && (forall m {:trigger p.live[m]} :: m in p.live ==> p.live[m] == m.size)
  }

  ghost predicate HasHome(p: Pools, m: Memory)
    requires m in p.live
  {
    HasSegment(p.segments, p.live[m])
  }

  /** Memory in use has a segment to return to. */
  ghost predicate LiveOk(p: Pools) {
    forall m {:trigger HasHome(p, m)} :: m in p.live ==> HasHome(p, m)
  }

  /** Memory obtained and not given back is in use or pooled, once. */
  ghost predicate Conserved(p: Pools) {
    multiset(p.child) == Pooled(p.segments) + multiset(p.live.Keys)
  }

  ghost predicate Accounted(p: Pools) {
    && p.freeBytes == PooledBytes(p.segments) && p.usedBytes == Bytes(p.live.Keys) && p.usedCount == |p.live|
    && p.childBytes == p.usedBytes + p.freeBytes
  }

  ghost predicate Inv(p: Pools) {
    Ascending(p.segments) && LiveOk(p) && Conserved(p) && Accounted(p)
  }
}
