/** What the segmented pool guarantees over every run. */
module SegmentedTheorems {
  import opened Math
  import opened Options
  import opened Requests
  import opened MemoryPools
  import opened SegmentedPool
  import opened SegmentedOperations

  // ----- How much is released

  /** No memory is pooled in the first `n` segments. */
  ghost predicate Emptied(p: Pools, n: nat) {
    forall k {:trigger p.segments[k]} :: 0 <= k < n && k < |p.segments| ==> p.segments[k].pool == []
  }

  lemma {:induction false} ReleaseGrows(p: Pools, i: nat, want: nat, total: nat)
    requires i <= |p.segments|
    ensures ReleaseFrom(p, i, want, total).1 >= total
    decreases |p.segments| - i
  {
    if i < |p.segments| {
      var (p1, bytes) := TrimSegment(p, i, want);
      var want1 := WrappingSub(want, bytes);
      if total + bytes < want1 {
        ReleaseGrows(p1, i + 1, want1, total + bytes);
      }
    }
  }

  lemma WrapsOnlyPastZero(a: nat, b: nat)
    requires b <= a < WORD
    ensures WrappingSub(a, b) == a - b
  {
  }

  /** Releasing gives back at least half of what was asked for, or everything. */
  lemma {:induction false} ReleaseAtLeastHalfFrom(p: Pools, i: nat, want: nat, total: nat, asked: nat, p': Pools,
                                                  r: nat)
    requires i <= |p.segments| && asked < WORD && want + total == asked && Emptied(p, i)
    requires (p', r) == ReleaseFrom(p, i, want, total)
    ensures 2 * r >= asked || Emptied(p', |p'.segments|)
    decreases |p.segments| - i
  {
    if i < |p.segments| {
      var s := p.segments[i];
      TrimMeaning(s.pool, want, 0);
      var (p1, bytes) := TrimSegment(p, i, want);
      ReleaseGrows(p, i, want, total);
      if bytes >= want {
        ReleaseAfter(p, i, want, total, p', r);
      } else {
        WrapsOnlyPastZero(want, bytes);
        assert Emptied(p1, i + 1);
        if total + bytes < want - bytes {
          ReleaseAtLeastHalfFrom(p1, i + 1, want - bytes, total + bytes, asked, p', r);
        }
      }
    }
  }

  /** What the first segment gives back is included in the result. */
  lemma ReleaseAfter(p: Pools, i: nat, want: nat, total: nat, p': Pools, r: nat)
    requires i < |p.segments| && (p', r) == ReleaseFrom(p, i, want, total)
    ensures r >= total + TrimSegment(p, i, want).1
  {
    var (p1, bytes) := TrimSegment(p, i, want);
    var want1 := WrappingSub(want, bytes);
    if total + bytes < want1 {
      ReleaseGrows(p1, i + 1, want1, total + bytes);
    }
  }

  /** ReleaseMemory gives back at least half of what was asked for, or everything,
      and reports exactly the bytes that left the pool and the next allocator's
      account. Asking for everything empties pools of less than 2^63 bytes. */
  lemma ReleaseMeaning(p: Pools, want: nat, p': Pools, r: nat)
    requires Inv(p) && want < WORD && (p', r) == Release(p, want)
    ensures Inv(p') && p'.live == p.live && p'.freeBytes == p.freeBytes - r && p'.childBytes == p.childBytes - r
    ensures 2 * r >= want || Emptied(p', |p'.segments|)
    ensures want == UINT64_MAX && 2 * p.freeBytes < UINT64_MAX ==> Emptied(p', |p'.segments|)
  {
    ReleaseFromOk(p, 0, want, 0, p', r);
    ReleaseAtLeastHalfFrom(p, 0, want, 0, want, p', r);
  }

  // ----- Exactly when it is enough

  /** Bytes pooled in the first `i` segments. */
  function BytesBefore(segs: seq<Seg>, i: nat): nat
    requires i <= |segs|
  {
    PooledBytes(segs[..i])
  }

  lemma BytesBeforeNext(segs: seq<Seg>, i: nat)
    requires i < |segs|
    ensures BytesBefore(segs, i + 1) == BytesBefore(segs, i) + PoolBytes(segs[i].pool, |segs[i].pool|)
  {
    assert segs[..i + 1][..i] == segs[..i];
  }

  /** The first `i` segments are the fewest that hold half of what is asked for. */
  ghost predicate FirstHalf(segs: seq<Seg>, asked: nat, i: nat) {
    && i <= |segs| && 2 * BytesBefore(segs, i) >= asked
    && forall j: nat {:trigger BytesBefore(segs, j)} :: j < i ==> 2 * BytesBefore(segs, j) < asked
  }

  ghost predicate NonePooledFrom(segs: seq<Seg>, i: nat) {
    forall k {:trigger segs[k]} :: i <= k < |segs| ==> segs[k].pool == []
  }

  /** Where the first segments hold half of what is asked for they hold all of it,
      or there is nothing after them. */
  ghost predicate HalfIsEnough(segs: seq<Seg>, asked: nat) {
    forall i: nat {:trigger FirstHalf(segs, asked, i)} :: FirstHalf(segs, asked, i) ==>
      BytesBefore(segs, i) >= asked || NonePooledFrom(segs, i)
  }

  lemma HalfAt(segs: seq<Seg>, asked: nat, i: nat)
    requires FirstHalf(segs, asked, i)
    ensures HalfIsEnough(segs, asked) <==> BytesBefore(segs, i) >= asked || NonePooledFrom(segs, i)
  {
    forall j: nat | FirstHalf(segs, asked, j)
      ensures j == i
    {
    }
  }

  /** The state of the loop before segment `i`: all before it are emptied, the
      others as they were, and less than half of `asked` is released. */
  ghost predicate Releasing(segs: seq<Seg>, p: Pools, i: nat, want: nat, total: nat, asked: nat) {
    && i <= |segs| == |p.segments| && p.segments[i..] == segs[i..] && Emptied(p, i)
    && total == BytesBefore(segs, i) && want + total == asked < WORD
    && forall j: nat {:trigger BytesBefore(segs, j)} :: j <= i ==> 2 * BytesBefore(segs, j) < asked
  }

  lemma {:induction false} ReleaseExactFrom(segs: seq<Seg>, p: Pools, i: nat, want: nat, total: nat, asked: nat,
                                            p': Pools, r: nat)
    requires Releasing(segs, p, i, want, total, asked) && (p', r) == ReleaseFrom(p, i, want, total)
    ensures r >= asked || Emptied(p', |p'.segments|) <==> HalfIsEnough(segs, asked)
    decreases |segs| - i
  {
    if i == |segs| {
      assert forall j: nat :: j <= |segs| ==> 2 * BytesBefore(segs, j) < asked;
    } else {
      var s := p.segments[i];
      assert s == p.segments[i..][0] == segs[i];
      BytesBeforeNext(segs, i);
      TrimMeaning(s.pool, want, 0);
      var (p1, bytes) := TrimSegment(p, i, want);
      if bytes >= want {
        ReleaseAfter(p, i, want, total, p', r);
        PoolBytesGrow(s.pool, TrimCount(s.pool, want, 0), |s.pool|);
        assert FirstHalf(segs, asked, i + 1);
        HalfAt(segs, asked, i + 1);
      } else {
        ReleaseWhole(segs, p, i, want, total, asked, p', r);
      }
    }
  }

  lemma {:induction false} PoolBytesGrow(pool: seq<Memory>, i: nat, j: nat)
    requires i <= j <= |pool|
    ensures PoolBytes(pool, i) <= PoolBytes(pool, j)
  {
    if i < j {
      PoolBytesGrow(pool, i, j - 1);
    }
  }

  /** A segment that is released as a whole and does not reach what is asked for. */
  lemma ReleaseWhole(segs: seq<Seg>, p: Pools, i: nat, want: nat, total: nat, asked: nat, p': Pools, r: nat)
    requires Releasing(segs, p, i, want, total, asked) && i < |segs| && (p', r) == ReleaseFrom(p, i, want, total)
    requires TrimSegment(p, i, want).1 < want
    ensures r >= asked || Emptied(p', |p'.segments|) <==> HalfIsEnough(segs, asked)
    decreases |segs| - i, 0
  {
    var s := p.segments[i];
    assert s == p.segments[i..][0] == segs[i];
    BytesBeforeNext(segs, i);
    TrimMeaning(s.pool, want, 0);
    var (p1, bytes) := TrimSegment(p, i, want);
    WrapsOnlyPastZero(want, bytes);
    assert p1.segments[i + 1..] == p.segments[i..][1..] == segs[i..][1..] == segs[i + 1..];
    assert Emptied(p1, i + 1) && total + bytes == BytesBefore(segs, i + 1);
    if total + bytes >= want - bytes {
      assert FirstHalf(segs, asked, i + 1);
      HalfAt(segs, asked, i + 1);
      SameTail(p1, segs, i + 1);
    } else {
      ReleaseExactFrom(segs, p1, i + 1, want - bytes, total + bytes, asked, p', r);
    }
  }

  lemma SameTail(p: Pools, segs: seq<Seg>, i: nat)
    requires i <= |segs| == |p.segments| && p.segments[i..] == segs[i..] && Emptied(p, i)
    ensures Emptied(p, |p.segments|) <==> NonePooledFrom(segs, i)
  {
    forall k | i <= k < |segs|
      ensures p.segments[k] == segs[k]
    {
      assert p.segments[i..][k - i] == segs[i..][k - i];
    }
  }

  /** ReleaseMemory gives back what was asked for, or everything, exactly when the
      first segments that hold half of it hold all of it or are the last ones with
      any memory. */
  lemma ReleaseEnoughIff(p: Pools, want: nat, p': Pools, r: nat)
    requires want < WORD && (p', r) == Release(p, want)
    ensures r >= want || Emptied(p', |p'.segments|) <==> HalfIsEnough(p.segments, want)
  {
    assert p.segments[..0] == [] && p.segments[0..] == p.segments;
    if want == 0 {
      assert FirstHalf(p.segments, 0, 0);
      HalfAt(p.segments, 0, 0);
    } else {
      ReleaseExactFrom(p.segments, p, 0, want, 0, want, p', r);
    }
  }

  // ----- What an overshoot does

  /** A target that stays out of reach empties every segment from `i` on. */
  lemma {:induction false} OutOfReach(p: Pools, i: nat, want: nat, total: nat, p': Pools, r: nat)
    requires i <= |p.segments| && want < WORD && (p', r) == ReleaseFrom(p, i, want, total)
    requires 2 * BytesFrom(p.segments, i) + total < want
    ensures |p'.segments| == |p.segments| && NonePooledFrom(p'.segments, i)
    ensures p'.segments[..i] == p.segments[..i]
    decreases |p.segments| - i
  {
    if i < |p.segments| {
      var (p1, bytes) := TrimSegment(p, i, want);
      WholePoolReleased(p, i, want, p1, bytes);
      WrapsOnlyPastZero(want, bytes);
      OutOfReach(p1, i + 1, want - bytes, total + bytes, p', r);
      StillNone(p1.segments, p'.segments, i);
    }
  }

  /** Bytes pooled in segment `i` and after it. */
  function BytesFrom(segs: seq<Seg>, i: nat): int
    requires i <= |segs|
  {
    PooledBytes(segs) - BytesBefore(segs, i)
  }

  /** A target above what the segments hold takes a whole pool. */
  lemma WholePoolReleased(p: Pools, i: nat, want: nat, p1: Pools, bytes: nat)
    requires i < |p.segments| && BytesFrom(p.segments, i) < want && (p1, bytes) == TrimSegment(p, i, want)
    ensures |p1.segments| == |p.segments| && p1.segments[..i] == p.segments[..i] && p1.segments[i].pool == []
    ensures BytesFrom(p1.segments, i + 1) == BytesFrom(p.segments, i) - bytes >= 0
  {
    var s := p.segments[i];
    var t := TrimCount(s.pool, want, 0);
    BytesBeforeNext(p.segments, i);
    BytesBeforeAtMost(p.segments, i + 1);
    TrimMeaning(s.pool, want, 0);
    PoolBytesGrow(s.pool, t, |s.pool|);
    RestAfterTrim(p, i, t, p1);
  }

  lemma RestAfterTrim(p: Pools, i: nat, t: nat, p1: Pools)
    requires i < |p.segments| && t <= |p.segments[i].pool|
    requires p1.segments == p.segments[i := p.segments[i].(pool := p.segments[i].pool[t..])]
    ensures p1.segments[..i] == p.segments[..i] && BytesFrom(p1.segments, i + 1) == BytesFrom(p.segments, i + 1)
  {
    var pool := p.segments[i].pool;
    TrimBytes(p, i, t);
    PoolBytesSplit(pool, t, |pool|);
    BytesBeforeNext(p.segments, i);
    BytesBeforeNext(p1.segments, i);
    assert p1.segments[..i] == p.segments[..i];
  }

  lemma StillNone(a: seq<Seg>, b: seq<Seg>, i: nat)
    requires |a| == |b| && i < |a| && b[..i + 1] == a[..i + 1] && a[i].pool == [] && NonePooledFrom(b, i + 1)
    ensures NonePooledFrom(b, i) && b[..i] == a[..i]
  {
    assert b[i] == b[..i + 1][i];
    assert b[..i] == b[..i + 1][..i] && a[..i] == a[..i + 1][..i];
  }

  lemma {:induction false} BytesBeforeAtMost(segs: seq<Seg>, i: nat)
    requires i <= |segs|
    ensures BytesBefore(segs, i) <= PooledBytes(segs)
    decreases |segs| - i
  {
    if i < |segs| {
      BytesBeforeNext(segs, i);
      BytesBeforeAtMost(segs, i + 1);
    } else {
      assert segs[..i] == segs;
    }
  }

  /** A segment that releases more than what is still wanted keeps the rest of its
      pool, but every later segment is emptied, because what is still wanted wraps
      around; provided that twice the pooled bytes stay below 2^64. */
  lemma OvershootEmptiesRest(p: Pools, i: nat, want: nat, total: nat, p': Pools, r: nat)
    requires i < |p.segments| && want < WORD && (p', r) == ReleaseFrom(p, i, want, total)
    requires TrimSegment(p, i, want).1 > want && 2 * PooledBytes(p.segments) + total < WORD
    ensures |p'.segments| == |p.segments| && NonePooledFrom(p'.segments, i + 1)
    ensures var pool := p.segments[i].pool; p'.segments[i].pool == pool[TrimCount(pool, want, 0)..]
  {
    var s := p.segments[i];
    var (p1, bytes) := TrimSegment(p, i, want);
    OvershootBytes(p, i, want, p1, bytes);
    WrapsPastZero(want, bytes);
    OutOfReach(p1, i + 1, WORD - (bytes - want), total + bytes, p', r);
    assert p'.segments[i] == p'.segments[..i + 1][i] == p1.segments[..i + 1][i] == p1.segments[i];
  }

  lemma OvershootBytes(p: Pools, i: nat, want: nat, p1: Pools, bytes: nat)
    requires i < |p.segments| && (p1, bytes) == TrimSegment(p, i, want)
    ensures |p1.segments| == |p.segments| && bytes + BytesFrom(p1.segments, i + 1) <= PooledBytes(p.segments)
    ensures BytesFrom(p1.segments, i + 1) >= 0
  {
    var s := p.segments[i];
    var t := TrimCount(s.pool, want, 0);
    PoolBytesGrow(s.pool, t, |s.pool|);
    BytesBeforeNext(p.segments, i);
    BytesBeforeAtMost(p.segments, i + 1);
    RestAfterTrim(p, i, t, p1);
  }

  lemma WrapsPastZero(a: nat, b: nat)
    requires a < b < WORD
    ensures WrappingSub(a, b) == WORD - (b - a)
  {
  }

  /** The bound is met: asked for 8 bytes, a pool that holds 4 and 8 gives back 4,
      since the loop compares the total with what is still to be released. */
  lemma ReleaseCanStopAtHalf() returns (p: Pools)
    ensures Inv(p) && p.freeBytes == 12 && Release(p, 8).1 == 4
  {
    var a, b := Memory(0, 4), Memory(1, 8);
    p := Pools([Seg(4, [a]), Seg(8, [b])], 0, 0, 12, map[], {a, b}, 12);
    assert PoolBytes([a], 1) == 4 && PoolBytes([a], 0) == 0;
    assert PoolBytes([b], 1) == 8 && PoolBytes([b], 0) == 0;
    assert multiset({a, b}) == multiset([a]) + multiset([b]);
    TwoSegments(p, 4, [a], 8, [b]);
    assert TrimCount([a], 8, 0) == 1;
    assert WrappingSub(8, 4) == 4;
  }

  /** And the other way: asked for 6 bytes, a pool that holds twice 4 and 8 gives
      back all 16, because what is still to be released wraps around. */
  lemma ReleaseCanEmptyEverything() returns (p: Pools)
    ensures Inv(p) && Release(p, 6).1 == 16
    ensures p.segments == [Seg(4, [Memory(0, 4), Memory(2, 4)]), Seg(8, [Memory(1, 8)])]
  {
    var a, b := [Memory(0, 4), Memory(2, 4)], [Memory(1, 8)];
    p := Pools([Seg(4, a), Seg(8, b)], 0, 0, 16, map[], {Memory(0, 4), Memory(2, 4), Memory(1, 8)}, 16);
    SixOfSixteen(p, a, b);
    assert multiset(p.child) == multiset(a) + multiset(b);
    assert PoolBytes(a, 0) == 0 && PoolBytes(a, 1) == 4 && PoolBytes(a, 2) == 8;
    assert PoolBytes(b, 0) == 0 && PoolBytes(b, 1) == 8;
    TwoSegments(p, 4, a, 8, b);
  }

  lemma SixOfSixteen(p: Pools, a: seq<Memory>, b: seq<Memory>)
    requires a == [Memory(0, 4), Memory(2, 4)] && b == [Memory(1, 8)] && p.segments == [Seg(4, a), Seg(8, b)]
    ensures Release(p, 6).1 == 16
  {
    assert PoolBytes(a, 0) == 0 && PoolBytes(a, 1) == 4 && PoolBytes(a, 2) == 8;
    assert TrimCount(a, 6, 1) == 2;
    assert TrimCount(a, 6, 0) == 2;
    var (p1, bytes) := TrimSegment(p, 0, 6);
    assert bytes == 8 && p1.segments[1].pool == b;
    var w := WrappingSub(6, 8);
    assert w == WORD - 2;
    assert PoolBytes(b, 0) == 0 && PoolBytes(b, 1) == 8;
    assert TrimCount(b, w, 1) == 1;
    assert TrimSegment(p1, 1, w).1 == 8;
    assert ReleaseFrom(TrimSegment(p1, 1, w).0, 2, WrappingSub(w, 8), 16).1 == 16;
    assert ReleaseFrom(p1, 1, w, 8).1 == 16;
  }

  /** Two segments with pools, and nothing in use. */
  lemma TwoSegments(p: Pools, x: nat, a: seq<Memory>, y: nat, b: seq<Memory>)
    requires p.segments == [Seg(x, a), Seg(y, b)] && x < y && p.live == map[] && p.usedCount == p.usedBytes == 0
    requires p.freeBytes == p.childBytes == PoolBytes(a, |a|) + PoolBytes(b, |b|)
    requires multiset(p.child) == multiset(a) + multiset(b)
    ensures Inv(p)
  {
    var segs := p.segments;
    assert segs[..1] == [Seg(x, a)] && segs[..1][..0] == [];
    assert PooledBytes(segs[..1][..0]) == 0 && Pooled(segs[..1][..0]) == multiset{};
    assert segs[..1][0].pool == a && |segs[..1]| == 1;
    assert Pooled(segs[..1]) == multiset(a) && PooledBytes(segs[..1]) == PoolBytes(a, |a|);
    assert p.live.Keys == {};
  }

  // ----- Alignment

  /** Memory of the size that the next allocator gives for a request can go back
      to a segment of its own size exactly when both round the request to the same
      size, for example when the request carries the pool's own alignment. */
  lemma ReturnsToItsSizeIff(p: Pools, r: Request, memoryAlignment: nat, m: Memory, p': Pools)
    requires Inv(p) && SizesOk(p) && WellFormed(r) && memoryAlignment > 0
    requires m !in p.child && m.size == AlignTo(r.size, r.alignment)
    requires TryAllocate(p, r, memoryAlignment, Some(m)) == (p', Some(m))
    ensures m in p'.live
    ensures SizesOk(Deallocate(p', m)) <==> AlignTo(r.size, r.alignment) == AlignTo(r.size, memoryAlignment)
  {
    TryAllocateOk(p, r, memoryAlignment, Some(m), p', Some(m));
    var d := Deallocate(p', m);
    DeallocateOk(p', m, d);
    var k := Position(d.segments, p'.live[m], 0);
    if SizesOk(d) {
      assert SegOk(d.segments[k]);
    }
  }

  /** A request for 4 bytes with alignment 4 to a pool with alignment 64: the
      memory of 4 bytes returns to the segment for 64. */
  lemma ReturnsToAnotherSize() returns (p: Pools)
    ensures TryAllocate(Initial, Request(4, 4, false, 0), 64, Some(Memory(0, 4))).0 == p
    ensures Memory(0, 4) in p.live && Deallocate(p, Memory(0, 4)).segments == [Seg(64, [Memory(0, 4)])]
  {
    var r, m := Request(4, 4, false, 0), Memory(0, 4);
    RoundedTo64(r);
    p := TryAllocate(Initial, r, 64, Some(m)).0;
    assert Position([], 64, 0) == 0 && WithSegment([], 64) == [Seg(64, [])];
    assert Position([Seg(64, [])], 64, 0) == 0;
    assert p.live == map[m := 64] && p.segments == [Seg(64, [])];
    assert [m] + [] == [m];
  }

  lemma RoundedTo64(r: Request)
    requires r == Request(4, 4, false, 0)
    ensures WellFormed(r) && ValidateRequest(r, INVALID_SIZE, 64) && AlignTo(4, 64) == 64
  {
    assert Pow2(2) == 4 && Pow2(3) == 8 && Pow2(4) == 16 && Pow2(5) == 32 && Pow2(6) == 64;
    Pow2IsPowerOfTwo(2);
    Pow2IsPowerOfTwo(6);
    IsAlignedMeaning(64, 4);
    AlignToMeaning(4, 64);
    AlignToMeaning(4, 4);
  }

  // ----- Runs

  datatype Op = Alloc(request: Request, obtained: Option<Memory>) | Free(memory: Memory) | Trim(bytes: nat)

  /** The next allocator returns new memory, or none. */
  ghost predicate Legal(p: Pools, op: Op) {
    match op
    case Alloc(r, obtained) => WellFormed(r) && (obtained.Some? ==> obtained.value !in p.child)
    case Free(m) => m in p.live
    case Trim(bytes) => bytes < WORD
  }

  /** The next allocator rounds a request to the size that the pool expects. */
  ghost predicate SizeAgrees(memoryAlignment: nat, op: Op)
    requires memoryAlignment > 0
  {
    op.Alloc? && op.obtained.Some? ==> op.obtained.value.size == AlignTo(op.request.size, memoryAlignment)
  }

  ghost function Step(p: Pools, memoryAlignment: nat, op: Op): Pools
    requires memoryAlignment > 0 && Legal(p, op)
  {
    match op
    case Alloc(r, obtained) => TryAllocate(p, r, memoryAlignment, obtained).0
    case Free(m) => Deallocate(p, m)
    case Trim(bytes) => Release(p, bytes).0
  }

  ghost predicate Reaches(p: Pools, memoryAlignment: nat, ops: seq<Op>, p': Pools)
    requires memoryAlignment > 0
    decreases |ops|
  {
    if ops == [] then p' == p
    else Legal(p, ops[0]) && Reaches(Step(p, memoryAlignment, ops[0]), memoryAlignment, ops[1..], p')
  }

  lemma StepInv(p: Pools, memoryAlignment: nat, op: Op, p': Pools)
    requires Inv(p) && memoryAlignment > 0 && Legal(p, op) && p' == Step(p, memoryAlignment, op)
    ensures Inv(p')
  {
    match op
    case Alloc(r, obtained) => TryAllocateOk(p, r, memoryAlignment, obtained, p',
                                             TryAllocate(p, r, memoryAlignment, obtained).1);
    case Free(m) => DeallocateOk(p, m, p');
    case Trim(bytes) => ReleaseFromOk(p, 0, bytes, 0, p', Release(p, bytes).1);
  }

  lemma {:induction false} RunInv(p: Pools, memoryAlignment: nat, ops: seq<Op>, p': Pools)
    requires Inv(p) && memoryAlignment > 0 && Reaches(p, memoryAlignment, ops, p')
    ensures Inv(p')
    decreases |ops|
  {
    if ops != [] {
      StepInv(p, memoryAlignment, ops[0], Step(p, memoryAlignment, ops[0]));
      RunInv(Step(p, memoryAlignment, ops[0]), memoryAlignment, ops[1..], p');
    }
  }

  /** In every reachable state the free bytes are those of the pooled memory, the
      bytes the next allocator accounts for are in use or free, every memory is in
      use or pooled exactly once, and segments are strictly ascending by size;
      whatever the sizes of the memory that the next allocator returns. */
  lemma RunSafety(memoryAlignment: nat, ops: seq<Op>, p: Pools)
    requires memoryAlignment > 0 && Reaches(Initial, memoryAlignment, ops, p)
    ensures p.freeBytes == PooledBytes(p.segments) && p.childBytes == p.usedBytes + p.freeBytes
    ensures p.usedBytes == Bytes(p.live.Keys) && multiset(p.child) == Pooled(p.segments) + multiset(p.live.Keys)
    ensures forall i, j :: 0 <= i < j < |p.segments| ==> p.segments[i].size < p.segments[j].size
  {
    FromInitial(memoryAlignment, ops, p);
  }

  /** If the next allocator always returns memory of the rounded size, pooled memory
      is always in the segment of its own size. */
  lemma {:induction false} RunSizes(p: Pools, memoryAlignment: nat, ops: seq<Op>, p': Pools)
    requires Inv(p) && SizesOk(p) && memoryAlignment > 0 && Reaches(p, memoryAlignment, ops, p')
    requires forall i {:trigger ops[i]} :: 0 <= i < |ops| ==> SizeAgrees(memoryAlignment, ops[i])
    ensures SizesOk(p')
    decreases |ops|
  {
    if ops != [] {
      var p1 := Step(p, memoryAlignment, ops[0]);
      StepInv(p, memoryAlignment, ops[0], p1);
      StepSizes(p, memoryAlignment, ops[0], p1);
      RunSizes(p1, memoryAlignment, ops[1..], p');
    }
  }

  lemma StepSizes(p: Pools, memoryAlignment: nat, op: Op, p': Pools)
    requires Inv(p) && SizesOk(p) && memoryAlignment > 0 && Legal(p, op) && p' == Step(p, memoryAlignment, op)
    requires SizeAgrees(memoryAlignment, op)
    ensures SizesOk(p')
  {
    match op
    case Alloc(r, obtained) =>
      var x := TryAllocate(p, r, memoryAlignment, obtained).1;
      TryAllocateOk(p, r, memoryAlignment, obtained, p', x);
      AllocatedSize(p, r, memoryAlignment, obtained, p', x);
    case Free(m) => DeallocateOk(p, m, p');
    case Trim(bytes) => ReleaseFromOk(p, 0, bytes, 0, p', Release(p, bytes).1);
  }

  /** Memory handed out has the rounded size if pooled and new memory have theirs. */
  lemma AllocatedSize(p: Pools, r: Request, memoryAlignment: nat, obtained: Option<Memory>, p': Pools,
                      x: Option<Memory>)
    requires Inv(p) && SizesOk(p) && WellFormed(r) && memoryAlignment > 0
    requires (p', x) == TryAllocate(p, r, memoryAlignment, obtained)
    requires obtained.Some? ==> obtained.value.size == AlignTo(r.size, memoryAlignment)
    ensures x.Some? ==> x.value.size == AlignTo(r.size, memoryAlignment)
  {
    if x.Some? {
      var p1 := AddSegment(p, AlignTo(r.size, memoryAlignment));
      AddSegmentOk(p, AlignTo(r.size, memoryAlignment), p1);
      assert SegOk(p1.segments[Position(p1.segments, AlignTo(r.size, memoryAlignment), 0)]);
    }
  }

  lemma FromInitial(memoryAlignment: nat, ops: seq<Op>, p: Pools)
    requires memoryAlignment > 0 && Reaches(Initial, memoryAlignment, ops, p)
    ensures Inv(p)
  {
    InitialInv();
    RunInv(Initial, memoryAlignment, ops, p);
  }

  // ----- Pooled memory is used again

  /** The pool for memory of one size, empty if there is no segment for it. */
  ghost function PoolOf(segs: seq<Seg>, size: nat): seq<Memory> {
    var k := Position(segs, size, 0);
    if k < |segs| && segs[k].size == size then segs[k].pool else []
  }

  /** In an ascending list every segment's pool is the one for its size. */
  lemma PoolAt(segs: seq<Seg>, k: nat)
    requires Ascending(segs) && k < |segs|
    ensures PoolOf(segs, segs[k].size) == segs[k].pool
  {
    PositionUnique(segs, segs[k].size, k);
  }

  /** Replacing the pool of one segment replaces the pool for its size, and no other. */
  lemma PutPool(segs: seq<Seg>, k: nat, pool: seq<Memory>, segs': seq<Seg>, n: nat)
    requires Ascending(segs) && k < |segs| && segs' == segs[k := Seg(segs[k].size, pool)]
    ensures Ascending(segs') && PoolOf(segs', n) == if n == segs[k].size then pool else PoolOf(segs, n)
  {
    var i := Position(segs, n, 0);
    if i < |segs| {
      PositionUnique(segs', n, i);
    }
    HasSegmentMeaning(segs, n);
    HasSegmentMeaning(segs', n);
    if n == segs[k].size {
      PoolAt(segs', k);
    }
  }

  /** Adding a segment adds no memory. */
  lemma AddedPool(segs: seq<Seg>, size: nat, segs': seq<Seg>, n: nat)
    requires Ascending(segs) && segs' == WithSegment(segs, size)
    ensures PoolOf(segs', n) == PoolOf(segs, n)
  {
    var k := Position(segs, size, 0);
    WithSegmentOk(segs, size, segs');
    if !HasSegment(segs, size) {
      InsertedAt(segs, k, Seg(size, []), segs');
      HasSegmentMeaning(segs, n);
      HasSegmentMeaning(segs', n);
      if HasSegment(segs, n) {
        var i := Position(segs, n, 0);
        PoolAt(segs', if i < k then i else i + 1);
      } else if HasSegment(segs', n) {
        var j := Position(segs', n, 0);
        assert segs'[j].size == n;
      }
    }
  }

  /** Whether a request is accepted here, where memory of any size can be had. */
  predicate Accepted(r: Request, memoryAlignment: nat)
    requires WellFormed(r)
  {
    ValidateRequest(r, INVALID_SIZE, memoryAlignment)
  }

  /** All other pools hold what they held. */
  ghost predicate OtherPoolsStay(p: Pools, p': Pools, size: nat) {
    forall n: nat {:trigger PoolOf(p'.segments, n)} :: n != size ==> PoolOf(p'.segments, n) == PoolOf(p.segments, n)
  }

  /** An accepted request is served with the first of the pool for its rounded size,
      whatever the next allocator has, and only if that is empty with new memory. */
  lemma TryAllocateMeaning(p: Pools, r: Request, memoryAlignment: nat, obtained: Option<Memory>, p': Pools,
                           x: Option<Memory>)
    requires Inv(p) && WellFormed(r) && memoryAlignment > 0 && (p', x) == TryAllocate(p, r, memoryAlignment, obtained)
    ensures !Accepted(r, memoryAlignment) ==> p' == p && x == None
    ensures Accepted(r, memoryAlignment) ==>
              var size := AlignTo(r.size, memoryAlignment);
              var pool := PoolOf(p.segments, size);
              && HasSegment(p'.segments, size) && OtherPoolsStay(p, p', size)
              && if pool != [] then
                   && x == Some(pool[0]) && PoolOf(p'.segments, size) == pool[1..]
                   && p'.child == p.child && p'.childBytes == p.childBytes
                   && p'.freeBytes == p.freeBytes - pool[0].size
                 else
                   && x == obtained && PoolOf(p'.segments, size) == [] && p'.freeBytes == p.freeBytes
                   && (x.Some? ==> p'.child == p.child + {x.value} && p'.childBytes == p.childBytes + x.value.size)
                   && (x.None? ==> p'.child == p.child && p'.childBytes == p.childBytes && p'.live == p.live)
  {
    if Accepted(r, memoryAlignment) {
      var size := AlignTo(r.size, memoryAlignment);
      var p1 := AddSegment(p, size);
      AddSegmentOk(p, size, p1);
      var k := Position(p1.segments, size, 0);
      PoolAt(p1.segments, k);
      AddedPool(p.segments, size, p1.segments, size);
      forall n: nat
        ensures PoolOf(p1.segments, n) == PoolOf(p.segments, n)
      {
        AddedPool(p.segments, size, p1.segments, n);
      }
      TakenFrom(p1, k, obtained, p', x);
    }
  }

  lemma TakenFrom(p: Pools, k: nat, obtained: Option<Memory>, p': Pools, x: Option<Memory>)
    requires Ascending(p.segments) && k < |p.segments| && (p', x) == TakeMemory(p, k, obtained)
    ensures var size, pool := p.segments[k].size, p.segments[k].pool;
            && HasSegment(p'.segments, size) && OtherPoolsStay(p, p', size)
            && if pool != [] then
                 && x == Some(pool[0]) && PoolOf(p'.segments, size) == pool[1..]
                 && p'.child == p.child && p'.childBytes == p.childBytes && p'.freeBytes == p.freeBytes - pool[0].size
               else
                 && x == obtained && PoolOf(p'.segments, size) == [] && p'.freeBytes == p.freeBytes
                 && (x.Some? ==> p'.child == p.child + {x.value} && p'.childBytes == p.childBytes + x.value.size)
                 && (x.None? ==> p' == p)
  {
    var size, pool := p.segments[k].size, p.segments[k].pool;
    PoolAt(p.segments, k);
    HasSegmentMeaning(p.segments, size);
    if pool != [] {
      PutPoolShape(p.segments, k, pool[1..], p'.segments);
      PutPool(p.segments, k, pool[1..], p'.segments, size);
      forall n: nat
        ensures n != size ==> PoolOf(p'.segments, n) == PoolOf(p.segments, n)
      {
        PutPool(p.segments, k, pool[1..], p'.segments, n);
      }
    }
  }

  /** Returned memory is the first of the pool for the size it was taken for; the others stay. */
  lemma DeallocateMeaning(p: Pools, m: Memory, p': Pools)
    requires Inv(p) && m in p.live && p' == Deallocate(p, m)
    ensures PoolOf(p'.segments, p.live[m]) == [m] + PoolOf(p.segments, p.live[m])
    ensures OtherPoolsStay(p, p', p.live[m])
  {
    var k, size := Position(p.segments, p.live[m], 0), p.live[m];
    assert HasHome(p, m);
    PoolAt(p.segments, k);
    forall n: nat
      ensures PoolOf(p'.segments, n) == if n == size then [m] + PoolOf(p.segments, size) else PoolOf(p.segments, n)
    {
      PutPool(p.segments, k, [m] + p.segments[k].pool, p'.segments, n);
    }
  }

  /** The next accepted request for the size of returned memory gets that memory, and
      then everything is as it was. */
  lemma ReturnAndReuse(p: Pools, m: Memory, r: Request, memoryAlignment: nat, obtained: Option<Memory>)
    requires Inv(p) && m in p.live && WellFormed(r) && memoryAlignment > 0
    requires Accepted(r, memoryAlignment) && AlignTo(r.size, memoryAlignment) == p.live[m]
    ensures TryAllocate(Deallocate(p, m), r, memoryAlignment, obtained) == (p, Some(m))
  {
    var p1, k := Deallocate(p, m), Position(p.segments, p.live[m], 0);
    assert HasHome(p, m);
    DeallocateOk(p, m, p1);
    PutPoolShape(p.segments, k, [m] + p.segments[k].pool, p1.segments);
    PositionUnique(p1.segments, p.live[m], k);
    FromPresent(p1, r, memoryAlignment, obtained, k);
    TakeUndoesReturn(p, k, m, obtained);
  }

  lemma FromPresent(p: Pools, r: Request, memoryAlignment: nat, obtained: Option<Memory>, k: nat)
    requires WellFormed(r) && memoryAlignment > 0 && Accepted(r, memoryAlignment)
    requires HasSegment(p.segments, AlignTo(r.size, memoryAlignment))
    requires k == Position(p.segments, AlignTo(r.size, memoryAlignment), 0)
    ensures TryAllocate(p, r, memoryAlignment, obtained) == TakeMemory(p, k, obtained)
  {
    assert AddSegment(p, AlignTo(r.size, memoryAlignment)) == p;
  }

  lemma TakeUndoesReturn(p: Pools, k: nat, m: Memory, obtained: Option<Memory>)
    requires k < |p.segments| && m in p.live && p.live[m] == p.segments[k].size
    ensures TakeMemory(ReturnMemory(p, k, m), k, obtained) == (p, Some(m))
  {
    var s := p.segments[k];
    var p1 := ReturnMemory(p, k, m);
    assert p1.segments[k].pool[1..] == s.pool;
    assert p1.segments[k := s] == p.segments;
    assert (p.live - {m})[m := s.size] == p.live;
  }
}
