/** Taking memory from, returning it to and releasing it from the segmented pool. */
module SegmentedOperations {
  import opened Math
  import opened Options
  import opened Requests
  import opened MemoryPools
  import opened SegmentedPool

  function AddSegment(p: Pools, size: nat): Pools { p.(segments := WithSegment(p.segments, size)) }

  /** Memory from the pool of segment `k`, or else `obtained` from the next allocator. */
  function TakeMemory(p: Pools, k: nat, obtained: Option<Memory>): (Pools, Option<Memory>)
    requires k < |p.segments|
  {
    var s := p.segments[k];
    if s.pool != [] then
      var m := s.pool[0];
      (Pools(p.segments[k := s.(pool := s.pool[1..])], p.usedCount + 1, p.usedBytes + m.size, p.freeBytes - m.size,
             p.live[m := s.size], p.child, p.childBytes), Some(m))
    else if obtained.None? then (p, None)
    else
      var m := obtained.value;
      (Pools(p.segments, p.usedCount + 1, p.usedBytes + m.size, p.freeBytes,
             p.live[m := s.size], p.child + {m}, p.childBytes + m.size), Some(m))
  }

  function TryAllocate(p: Pools, r: Request, memoryAlignment: nat, obtained: Option<Memory>): (Pools, Option<Memory>)
    requires WellFormed(r) && memoryAlignment > 0
  {
    if !ValidateRequest(r, INVALID_SIZE, memoryAlignment) then (p, None)
    else
      var size := AlignTo(r.size, memoryAlignment);
      var p1 := AddSegment(p, size);
      var k := Position(p1.segments, size, 0);
      if k < |p1.segments| then TakeMemory(p1, k, obtained) else (p1, None)
  }

  /** Returns memory to the front of the pool of segment `k`. */
  function ReturnMemory(p: Pools, k: nat, m: Memory): Pools
    requires k < |p.segments|
  {
    var s := p.segments[k];
    Pools(p.segments[k := s.(pool := [m] + s.pool)], p.usedCount - 1, p.usedBytes - m.size, p.freeBytes + m.size,
          p.live - {m}, p.child, p.childBytes)
  }

  function Deallocate(p: Pools, m: Memory): Pools
    requires m in p.live
  {
    var k := Position(p.segments, p.live[m], 0);
    if k < |p.segments| then ReturnMemory(p, k, m) else p
  }

  // ----- What every call keeps

  const Initial := Pools([], 0, 0, 0, map[], {}, 0)

  lemma InitialInv()
    ensures Inv(Initial)
  {
    assert Initial.live.Keys == {};
  }

  lemma AddSegmentOk(p: Pools, size: nat, p': Pools)
    requires Inv(p) && p' == AddSegment(p, size)
    ensures Inv(p') && HasSegment(p'.segments, size) && (SizesOk(p) ==> SizesOk(p'))
  {
    var segs, segs' := p.segments, p'.segments;
    WithSegmentOk(segs, size, segs');
    WithSegmentBytes(segs, size);
    if !HasSegment(segs, size) {
      PooledInsert(segs, Position(segs, size, 0), Seg(size, []), segs');
      InsertedAt(segs, Position(segs, size, 0), Seg(size, []), segs');
    }
    forall m | m in p.live
      ensures HasHome(p', m)
    {
      assert HasHome(p, m);
      StillHasSegment(segs, segs', size, p.live[m]);
    }
  }

  lemma StillHasSegment(segs: seq<Seg>, segs': seq<Seg>, size: nat, other: nat)
    requires Ascending(segs) && Ascending(segs') && segs' == WithSegment(segs, size) && HasSegment(segs, other)
    ensures HasSegment(segs', other)
  {
    var j, k := Position(segs, other, 0), Position(segs, size, 0);
    if !HasSegment(segs, size) {
      InsertedAt(segs, k, Seg(size, []), segs');
      HasSegmentMeaning(segs', other);
      assert segs'[if j < k then j else j + 1] == segs[j];
    }
  }

  /** Changing a pool changes no size. */
  lemma PutPoolShape(segs: seq<Seg>, k: nat, pool: seq<Memory>, segs': seq<Seg>)
    requires Ascending(segs) && k < |segs| && segs' == segs[k := segs[k].(pool := pool)]
    ensures Ascending(segs') && forall size :: HasSegment(segs', size) <==> HasSegment(segs, size)
  {
    forall size: nat
      ensures HasSegment(segs', size) <==> HasSegment(segs, size)
    {
      HasSegmentMeaning(segs, size);
      HasSegmentMeaning(segs', size);
      forall i: nat | i < |segs|
        ensures segs'[i].size == segs[i].size
      {
      }
    }
  }

  lemma LiveGrows(live: map<Memory, nat>, m: Memory, n: nat)
    requires m !in live
    ensures multiset(live[m := n].Keys) == multiset(live.Keys) + multiset{m}
    ensures Bytes(live[m := n].Keys) == Bytes(live.Keys) + m.size && |live[m := n]| == |live| + 1
  {
    var keys := live[m := n].Keys;
    assert keys == live.Keys + {m};
    BytesWith(live.Keys, m);
    assert |live[m := n]| == |keys| && |live| == |live.Keys|;
  }

  lemma LiveShrinks(live: map<Memory, nat>, m: Memory)
    requires m in live
    ensures multiset((live - {m}).Keys) == multiset(live.Keys) - multiset{m}
    ensures Bytes((live - {m}).Keys) == Bytes(live.Keys) - m.size && |live - {m}| == |live| - 1
  {
    var keys := (live - {m}).Keys;
    assert keys == live.Keys - {m};
    assert live.Keys == keys + {m};
    BytesWith(keys, m);
    assert |live - {m}| == |keys| && |live| == |live.Keys|;
  }

  /** Bytes and memory of a pool when its head is taken off. */
  lemma PoolHead(pool: seq<Memory>)
    requires pool != []
    ensures PoolBytes(pool, |pool|) == pool[0].size + PoolBytes(pool[1..], |pool| - 1)
    ensures multiset(pool) == multiset{pool[0]} + multiset(pool[1..])
  {
    PoolBytesSplit(pool, 1, |pool|);
    assert PoolBytes(pool, 1) == pool[0].size;
    assert pool == [pool[0]] + pool[1..];
  }

  lemma PooledNotLive(p: Pools, k: nat, m: Memory)
    requires Conserved(p) && k < |p.segments| && m in p.segments[k].pool
    ensures m !in p.live
  {
    PooledPut(p.segments, k, p.segments[k]);
    assert m in multiset(p.segments[k].pool);
    assert multiset(p.child)[m] <= 1;
    assert Pooled(p.segments)[m] >= 1;
  }

  /** Memory that moves from a pool to use. */
  lemma TakeShift(child: multiset<Memory>, pooled: multiset<Memory>, live: multiset<Memory>, a: multiset<Memory>,
                  b: multiset<Memory>, m: Memory)
    requires child == pooled + live && a <= pooled && a == multiset{m} + b
    ensures child == (pooled - a + b) + (live + multiset{m})
  {
  }

  /** Memory that moves from use to a pool. */
  lemma ReturnShift(child: multiset<Memory>, pooled: multiset<Memory>, live: multiset<Memory>, a: multiset<Memory>,
                    b: multiset<Memory>, m: Memory)
    requires child == pooled + live && a <= pooled && b == multiset{m} + a && m in live
    ensures child == (pooled - a + b) + (live - multiset{m})
  {
  }

  lemma LiveOkWith(p: Pools, p': Pools, m: Memory, size: nat)
    requires LiveOk(p) && p'.live == p.live[m := size] && HasSegment(p'.segments, size)
    requires forall n {:trigger HasSegment(p'.segments, n)} :: HasSegment(p.segments, n) ==> HasSegment(p'.segments, n)
    ensures LiveOk(p')
  {
    forall x | x in p'.live
      ensures HasHome(p', x)
    {
      assert x != m ==> HasHome(p, x);
    }
  }

  lemma TakePooledOk(p: Pools, k: nat, p': Pools)
    requires Inv(p) && k < |p.segments| && p.segments[k].pool != [] && p' == TakeMemory(p, k, None).0
    ensures Inv(p') && p.segments[k].pool[0] !in p.live
  {
    var s := p.segments[k];
    var m := s.pool[0];
    PooledNotLive(p, k, m);
    PutPoolShape(p.segments, k, s.pool[1..], p'.segments);
    HasSegmentMeaning(p.segments, s.size);
    LiveOkWith(p, p', m, s.size);
    TakePooledSums(p, k, m, p');
  }

  lemma TakePooledSums(p: Pools, k: nat, m: Memory, p': Pools)
    requires Conserved(p) && Accounted(p) && k < |p.segments| && p.segments[k].pool != [] &&
             p' == TakeMemory(p, k, None).0
    requires m == p.segments[k].pool[0] && m !in p.live
    ensures Conserved(p') && Accounted(p')
  {
    var s := p.segments[k];
    var s' := s.(pool := s.pool[1..]);
    LiveGrows(p.live, m, s.size);
    PoolHead(s.pool);
    assert Accounted(p') by {
      PooledBytesPut(p.segments, k, s');
    }
    assert Conserved(p') by {
      PooledPut(p.segments, k, s');
      TakeShift(multiset(p.child), Pooled(p.segments), multiset(p.live.Keys), multiset(s.pool), multiset(s'.pool), m);
    }
  }

  lemma TakeObtainedOk(p: Pools, k: nat, m: Memory, p': Pools)
    requires Inv(p) && k < |p.segments| && p.segments[k].pool == [] && p' == TakeMemory(p, k, Some(m)).0
    requires m !in p.child
    ensures Inv(p') && m !in p.live
  {
    LiveIsObtained(p.child, Pooled(p.segments), p.live.Keys, m);
    HasSegmentMeaning(p.segments, p.segments[k].size);
    LiveOkWith(p, p', m, p.segments[k].size);
    ObtainedSums(p, m, p.segments[k].size, p');
  }

  /** Taking memory keeps sizes in order exactly when the memory has the size of its segment. */
  lemma TakeSizes(p: Pools, k: nat, obtained: Option<Memory>, p': Pools, x: Option<Memory>)
    requires SizesOk(p) && k < |p.segments| && (p', x) == TakeMemory(p, k, obtained) && (x.Some? ==> x.value !in p.live)
    ensures SizesOk(p') <==> (x.Some? ==> x.value.size == p.segments[k].size)
  {
    assert SegOk(p.segments[k]);
    assert x.Some? ==> p'.live[x.value] == p.segments[k].size;
  }

  lemma LiveIsObtained(child: set<Memory>, pooled: multiset<Memory>, live: set<Memory>, m: Memory)
    requires multiset(child) == pooled + multiset(live) && m !in child
    ensures m !in live
  {
    assert multiset(child)[m] == 0;
  }

  lemma ObtainedSums(p: Pools, m: Memory, size: nat, p': Pools)
    requires Conserved(p) && Accounted(p) && m !in p.child && m !in p.live
    requires p' == Pools(p.segments, p.usedCount + 1, p.usedBytes + m.size, p.freeBytes,
                         p.live[m := size], p.child + {m}, p.childBytes + m.size)
    ensures Conserved(p') && Accounted(p')
  {
    LiveGrows(p.live, m, size);
    assert multiset(p'.child) == multiset(p.child) + multiset{m};
  }

  /** A request is served from the pool of its size if that has memory, else with
      new memory from the next allocator, whatever its size. Sizes stay in order
      exactly when the memory has the rounded size. */
  lemma TryAllocateOk(p: Pools, r: Request, memoryAlignment: nat, obtained: Option<Memory>, p': Pools,
                      x: Option<Memory>)
    requires Inv(p) && WellFormed(r) && memoryAlignment > 0 && (p', x) == TryAllocate(p, r, memoryAlignment, obtained)
    requires obtained.Some? ==> obtained.value !in p.child
    ensures Inv(p')
    ensures x.Some? ==> x.value !in p.live && p'.live == p.live[x.value := AlignTo(r.size, memoryAlignment)]
    ensures x.None? ==> p'.live == p.live && p'.child == p.child
    ensures SizesOk(p) ==> (SizesOk(p') <==> (x.Some? ==> x.value.size == AlignTo(r.size, memoryAlignment)))
  {
    if ValidateRequest(r, INVALID_SIZE, memoryAlignment) {
      var size := AlignTo(r.size, memoryAlignment);
      var p1 := AddSegment(p, size);
      AddSegmentOk(p, size, p1);
      var k := Position(p1.segments, size, 0);
      if p1.segments[k].pool != [] {
        TakePooledOk(p1, k, p');
      } else if obtained.Some? {
        TakeObtainedOk(p1, k, obtained.value, p');
      }
      if SizesOk(p) {
        TakeSizes(p1, k, obtained, p', x);
      }
    }
  }

  /** Returned memory is the first of its pool to be handed out again. */
  lemma DeallocateOk(p: Pools, m: Memory, p': Pools)
    requires Inv(p) && m in p.live && p' == Deallocate(p, m)
    ensures Inv(p') && p'.live == p.live - {m} && p'.child == p.child && (SizesOk(p) ==> SizesOk(p'))
    ensures HasSegment(p'.segments, p.live[m])
    ensures var s := p'.segments[Position(p'.segments, p.live[m], 0)];
            s.size == p.live[m] && s.pool != [] && s.pool[0] == m
  {
    var size := p.live[m];
    assert HasHome(p, m);
    var k := Position(p.segments, size, 0);
    PutPoolShape(p.segments, k, [m] + p.segments[k].pool, p'.segments);
    ReturnSums(p, k, m, p');
    PositionUnique(p'.segments, size, k);
    forall x | x in p'.live
      ensures HasHome(p', x)
    {
      assert HasHome(p, x);
    }
    if SizesOk(p) {
      ReturnSizes(p, k, m, p');
    }
  }

  lemma ReturnSizes(p: Pools, k: nat, m: Memory, p': Pools)
    requires SizesOk(p) && k < |p.segments| && m in p.live && m.size == p.segments[k].size &&
             p' == ReturnMemory(p, k, m)
    ensures SizesOk(p')
  {
    assert SegOk(p.segments[k]);
    forall x | x in p'.live
      ensures p'.live[x] == x.size
    {
      assert p.live[x] == x.size;
    }
  }

  lemma ReturnSums(p: Pools, k: nat, m: Memory, p': Pools)
    requires Conserved(p) && Accounted(p) && k < |p.segments| && m in p.live && p' == ReturnMemory(p, k, m)
    ensures Conserved(p') && Accounted(p')
  {
    var s := p.segments[k];
    var s' := s.(pool := [m] + s.pool);
    LiveShrinks(p.live, m);
    PoolHead(s'.pool);
    assert s'.pool[1..] == s.pool;
    PooledBytesPut(p.segments, k, s');
    assert Conserved(p') by {
      PooledPut(p.segments, k, s');
      ReturnShift(multiset(p.child), Pooled(p.segments), multiset(p.live.Keys), multiset(s.pool), multiset(s'.pool), m);
    }
  }

  // ----- Releasing

  const WORD: nat := 0x1_0000_0000_0000_0000

  /** 64-bit subtraction. */
  function WrappingSub(a: nat, b: nat): nat { (a - b) % WORD }

  function Elements(pool: seq<Memory>): set<Memory> { set m | m in pool }

  /** Gives the front of the pool of segment `i` back to the next allocator. */
  function TrimSegment(p: Pools, i: nat, want: nat): (Pools, nat)
    requires i < |p.segments|
  {
    var s := p.segments[i];
    var t := TrimCount(s.pool, want, 0);
    var bytes := PoolBytes(s.pool, t);
    (p.(segments := p.segments[i := s.(pool := s.pool[t..])], freeBytes := p.freeBytes - bytes,
        child := p.child - Elements(s.pool[..t]), childBytes := p.childBytes - bytes), bytes)
  }

  /** The source's loop from segment `i` on; `want` wraps around at 64 bits. */
  function ReleaseFrom(p: Pools, i: nat, want: nat, total: nat): (r: (Pools, nat))
    requires i <= |p.segments|
    decreases |p.segments| - i
  {
    if i == |p.segments| then (p, total)
    else
      var (p1, bytes) := TrimSegment(p, i, want);
      var want1 := WrappingSub(want, bytes);
      if total + bytes >= want1 then (p1, total + bytes) else ReleaseFrom(p1, i + 1, want1, total + bytes)
  }

  function Release(p: Pools, want: nat): (Pools, nat) { ReleaseFrom(p, 0, want, 0) }

  lemma RemoveDistinct(child: set<Memory>, rest: multiset<Memory>, gone: seq<Memory>)
    requires multiset(child) == rest + multiset(gone)
    ensures multiset(child - Elements(gone)) == rest
  {
    forall m: Memory
      ensures multiset(child - Elements(gone))[m] == rest[m]
    {
      assert multiset(child)[m] == rest[m] + multiset(gone)[m];
      assert m in Elements(gone) <==> multiset(gone)[m] > 0;
    }
  }

  /** The bytes that left the pools left both accounts; memory in use is untouched. */
  ghost predicate Gave(p: Pools, p': Pools, bytes: int) {
    && p'.live == p.live && p'.freeBytes == p.freeBytes - bytes && p'.childBytes == p.childBytes - bytes
    && (SizesOk(p) ==> SizesOk(p'))
  }

  lemma GaveTwice(p: Pools, p1: Pools, p2: Pools, a: int, b: int)
    requires Gave(p, p1, a) && Gave(p1, p2, b)
    ensures Gave(p, p2, a + b)
  {
  }

  lemma TrimInv(p: Pools, i: nat, want: nat, p': Pools, bytes: nat)
    requires Inv(p) && i < |p.segments| && (p', bytes) == TrimSegment(p, i, want)
    ensures Inv(p')
  {
    var t := TrimCount(p.segments[i].pool, want, 0);
    PutPoolShape(p.segments, i, p.segments[i].pool[t..], p'.segments);
    TrimConserved(p, i, t, p');
    TrimBytes(p, i, t);
    forall x | x in p'.live
      ensures HasHome(p', x)
    {
      assert HasHome(p, x);
    }
  }

  lemma TrimGave(p: Pools, i: nat, want: nat, p': Pools, bytes: nat)
    requires i < |p.segments| && (p', bytes) == TrimSegment(p, i, want)
    ensures |p'.segments| == |p.segments| && Gave(p, p', bytes)
  {
    if SizesOk(p) {
      TrimSizes(p, i, TrimCount(p.segments[i].pool, want, 0), p');
    }
  }

  lemma TrimSizes(p: Pools, i: nat, t: nat, p': Pools)
    requires SizesOk(p) && i < |p.segments| && t <= |p.segments[i].pool| && p'.live == p.live
    requires p'.segments == p.segments[i := p.segments[i].(pool := p.segments[i].pool[t..])]
    ensures SizesOk(p')
  {
    assert SegOk(p.segments[i]);
    forall x | x in p'.live
      ensures p'.live[x] == x.size
    {
      assert p.live[x] == x.size;
    }
  }

  lemma TrimBytes(p: Pools, i: nat, t: nat)
    requires i < |p.segments| && t <= |p.segments[i].pool|
    ensures var s := p.segments[i];
            PooledBytes(p.segments[i := s.(pool := s.pool[t..])]) == PooledBytes(p.segments) - PoolBytes(s.pool, t)
  {
    var s := p.segments[i];
    PoolBytesSplit(s.pool, t, |s.pool|);
    PooledBytesPut(p.segments, i, s.(pool := s.pool[t..]));
  }

  lemma TrimConserved(p: Pools, i: nat, t: nat, p': Pools)
    requires Conserved(p) && i < |p.segments| && t <= |p.segments[i].pool|
    requires p'.segments == p.segments[i := p.segments[i].(pool := p.segments[i].pool[t..])]
    requires p'.live == p.live && p'.child == p.child - Elements(p.segments[i].pool[..t])
    ensures Conserved(p')
  {
    var s := p.segments[i];
    PooledPut(p.segments, i, s.(pool := s.pool[t..]));
    assert s.pool == s.pool[..t] + s.pool[t..];
    RemoveDistinct(p.child, Pooled(p'.segments) + multiset(p.live.Keys), s.pool[..t]);
  }

  /** One round of the release loop. */
  lemma ReleaseStep(p: Pools, i: nat, want: nat, total: nat, p1: Pools, bytes: nat)
    requires i < |p.segments| && (p1, bytes) == TrimSegment(p, i, want)
    ensures |p1.segments| == |p.segments|
    ensures var want1 := WrappingSub(want, bytes);
            ReleaseFrom(p, i, want, total) ==
              if total + bytes >= want1 then (p1, total + bytes) else ReleaseFrom(p1, i + 1, want1, total + bytes)
  {
  }

  lemma {:induction false} ReleaseInv(p: Pools, i: nat, want: nat, total: nat) returns (p': Pools)
    requires Inv(p) && i <= |p.segments|
    ensures p' == ReleaseFrom(p, i, want, total).0 && Inv(p')
    decreases |p.segments| - i
  {
    p' := p;
    if i < |p.segments| {
      var (p1, bytes) := TrimSegment(p, i, want);
      TrimInv(p, i, want, p1, bytes);
      ReleaseStep(p, i, want, total, p1, bytes);
      p' := p1;
      if total + bytes < WrappingSub(want, bytes) {
        p' := ReleaseInv(p1, i + 1, WrappingSub(want, bytes), total + bytes);
      }
    }
  }

  lemma {:induction false} ReleaseGave(p: Pools, i: nat, want: nat, total: nat, p': Pools, r: nat)
    requires i <= |p.segments| && (p', r) == ReleaseFrom(p, i, want, total)
    ensures r >= total && Gave(p, p', r - total)
    decreases |p.segments| - i
  {
    if i < |p.segments| {
      var (p1, bytes) := TrimSegment(p, i, want);
      TrimGave(p, i, want, p1, bytes);
      ReleaseStep(p, i, want, total, p1, bytes);
      var want1 := WrappingSub(want, bytes);
      if total + bytes < want1 {
        ReleaseGave(p1, i + 1, want1, total + bytes, p', r);
        GaveTwice(p, p1, p', bytes, r - (total + bytes));
      }
    }
  }

  lemma ReleaseStepTo(p: Pools, i: nat, want: nat, total: nat, p1: Pools, bytes: nat, want1: nat, total1: nat)
    requires i < |p.segments| && (p1, bytes) == TrimSegment(p, i, want)
    requires want1 == WrappingSub(want, bytes) && total1 == total + bytes
    ensures |p1.segments| == |p.segments|
    ensures ReleaseFrom(p, i, want, total) ==
              if total1 >= want1 then (p1, total1) else ReleaseFrom(p1, i + 1, want1, total1)
  {
    ReleaseStep(p, i, want, total, p1, bytes);
  }

  /** ReleaseMemory reports exactly the bytes that it gave back. */
  lemma ReleaseFromOk(p: Pools, i: nat, want: nat, total: nat, p': Pools, r: nat)
    requires Inv(p) && i <= |p.segments| && (p', r) == ReleaseFrom(p, i, want, total)
    ensures Inv(p') && r >= total && Gave(p, p', r - total)
  {
    var q := ReleaseInv(p, i, want, total);
    ReleaseGave(p, i, want, total, p', r);
  }
}
