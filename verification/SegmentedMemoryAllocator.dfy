/** The segmented allocator over a linked list of segments:
    src/gpgmm/common/SegmentedMemoryAllocator.cpp. */
module SegmentedMemory {
  import opened Math
  import opened Options
  import opened Requests
  import opened MemoryPools
  import opened LinkedLists
  import opened SegmentedPool
  import opened SegmentedOperations

  // ----- Searching the list

  /** The middle of the nodes from `start` up to `end`, by a slow and a fast pointer. */
  method GetMiddleSegment(start: MemorySegment, end: MemorySegment, ghost ring: seq<MemorySegment>, ghost lo: nat,
                          ghost hi: nat)
    returns (slow: MemorySegment)
    requires Ring(ring) && lo < hi < |ring| && start == ring[lo] && end == ring[hi]
    ensures slow == ring[lo + (hi - lo - 1) / 2]
  {
    RingAt(ring, lo);
    ghost var k, f := lo, lo + 1;
    slow := start;
    var fast := start.next;
    while fast != end
      invariant lo <= k < f <= hi && slow == ring[k] && fast == ring[f]
      invariant f - lo == 2 * (k - lo) + 1 || (f == hi && f - lo == 2 * (k - lo) + 2)
      decreases hi - f
    {
      RingAt(ring, f);
      fast := fast.next;
      f := f + 1;
      if fast != end {
        RingAt(ring, k);
        RingAt(ring, f);
        slow := slow.next;
        fast := fast.next;
        k, f := k + 1, f + 1;
      }
    }
    assert f == hi;
  }

  ghost predicate AscendingNodes(ring: seq<MemorySegment>) {
    forall i, j :: 0 < i < j < |ring| ==> ring[i].memorySize < ring[j].memorySize
  }

  /** The first node from `lo` up to `hi` that is not smaller than `size`, else `hi`. */
  ghost function LowerBound(ring: seq<MemorySegment>, lo: nat, hi: nat, size: nat): nat
    requires lo <= hi <= |ring|
    decreases hi - lo
  {
    if lo == hi || ring[lo].memorySize >= size then lo else LowerBound(ring, lo + 1, hi, size)
  }

  lemma {:induction false} LowerBoundUnique(ring: seq<MemorySegment>, lo: nat, hi: nat, size: nat, k: nat)
    requires lo <= k <= hi <= |ring| && (forall j :: lo <= j < k ==> ring[j].memorySize < size)
    requires k < hi ==> ring[k].memorySize >= size
    ensures LowerBound(ring, lo, hi, size) == k
    decreases hi - lo
  {
    if lo < k {
      LowerBoundUnique(ring, lo + 1, hi, size, k);
    }
  }

  /** The search by halving finds what a linear search finds. */
  method FindSegment(start: MemorySegment, end: MemorySegment, size: nat, ghost ring: seq<MemorySegment>,
                     ghost lo: nat, ghost hi: nat)
    returns (found: MemorySegment)
    requires Ring(ring) && AscendingNodes(ring) && lo <= hi < |ring| && start == ring[lo] && end == ring[hi] &&
             (lo == 0 ==> hi == 0)
    ensures lo <= LowerBound(ring, lo, hi, size) <= hi && found == ring[LowerBound(ring, lo, hi, size)]
  {
    var left, right := start, end;
    ghost var l, r := lo, hi;
    while left != right
      invariant lo <= l <= r <= hi && left == ring[l] && right == ring[r]
      invariant forall j :: lo <= j < l ==> ring[j].memorySize < size
      invariant r < hi ==> ring[r].memorySize > size
      decreases r - l
    {
      ghost var m := l + (r - l - 1) / 2;
      var middle := GetMiddleSegment(left, right, ring, l, r);
      if middle.memorySize == size {
        LowerBoundUnique(ring, lo, hi, size, m);
        return middle;
      } else if middle.memorySize > size {
        right, r := middle, m;
      } else {
        RingAt(ring, m);
        left, l := middle.next, m + 1;
      }
    }
    assert l == r;
    LowerBoundUnique(ring, lo, hi, size, l);
    return left;
  }

  // ----- The allocator

  /** The segments of a ring; its first node is the root. */
  ghost function SegsOf(ring: seq<MemorySegment>): seq<Seg>
    requires ring != []
    reads ring
  {
    seq(|ring| - 1, i requires 0 <= i < |ring| - 1 reads ring => Seg(ring[i + 1].memorySize, ring[i + 1].pool))
  }

  /** The position found in the list is the position among the segments, unless
      it is that of the last node and that is too small. */
  lemma BoundIsPosition(ring: seq<MemorySegment>, size: nat, k: nat)
    requires |ring| > 1 && k == LowerBound(ring, 1, |ring| - 1, size)
    ensures 1 <= k < |ring| && Position(SegsOf(ring), size, 0) == if ring[k].memorySize < size then k else k - 1
    ensures ring[k].memorySize < size ==> k == |ring| - 1
  {
    LowerBoundMeaning(ring, 1, |ring| - 1, size);
    var segs := SegsOf(ring);
    var q := if ring[k].memorySize < size then k else k - 1;
    forall j | 0 <= j < q
      ensures segs[j].size < size
    {
      assert segs[j].size == ring[j + 1].memorySize;
    }
    if q < |segs| {
      PositionUnique(segs, size, q);
    } else {
      PositionAtEnd(segs, size, 0);
    }
  }

  lemma {:induction false} LowerBoundMeaning(ring: seq<MemorySegment>, lo: nat, hi: nat, size: nat)
    requires lo <= hi <= |ring|
    ensures lo <= LowerBound(ring, lo, hi, size) <= hi
    ensures forall j :: lo <= j < LowerBound(ring, lo, hi, size) ==> ring[j].memorySize < size
    ensures LowerBound(ring, lo, hi, size) < hi ==> ring[LowerBound(ring, lo, hi, size)].memorySize >= size
    decreases hi - lo
  {
    if !(lo == hi || ring[lo].memorySize >= size) {
      LowerBoundMeaning(ring, lo + 1, hi, size);
    }
  }

  lemma PositionAtEnd(segs: seq<Seg>, size: nat, i: nat)
    requires i <= |segs| && forall j :: i <= j < |segs| ==> segs[j].size < size
    ensures Position(segs, size, i) == |segs|
  {
  }

  /** A node found of another size means that there is no segment of this size. */
  lemma FoundDecides(ring: seq<MemorySegment>, size: nat, k: nat)
    requires k < |ring| && (k == 0 ==> |ring| == 1)
    requires k > 0 ==> Position(SegsOf(ring), size, 0) == if ring[k].memorySize < size then k else k - 1
    requires k > 0 && ring[k].memorySize < size ==> k == |ring| - 1
    ensures HasSegment(SegsOf(ring), size) <==> k > 0 && ring[k].memorySize == size
    ensures Position(SegsOf(ring), size, 0) == if k == 0 || ring[k].memorySize < size then k else k - 1
  {
    var segs := SegsOf(ring);
    assert k > 0 ==> segs[k - 1].size == ring[k].memorySize;
  }

  lemma SegsInserted(ring: seq<MemorySegment>, i: nat, n: MemorySegment)
    requires 0 < i <= |ring| && n.pool == []
    ensures SegsOf(Inserted(ring, i, n)) == InsertAt(SegsOf(ring), i - 1, Seg(n.memorySize, []))
  {
  }

  lemma AscendingNodesOf(ring: seq<MemorySegment>)
    requires ring != [] && Ascending(SegsOf(ring))
    ensures AscendingNodes(ring)
  {
    forall i, j | 0 < i < j < |ring|
      ensures ring[i].memorySize < ring[j].memorySize
    {
      assert SegsOf(ring)[i - 1].size < SegsOf(ring)[j - 1].size;
    }
  }

  class SegmentedMemoryAllocator {
    const memoryAlignment: nat
    const root: MemorySegment
    var usedCount: int
    var usedBytes: int
    var freeBytes: int
    /** The nodes of the list, and the memory in use and obtained. */
    ghost var ring: seq<MemorySegment>
    ghost var live: map<Memory, nat>
    ghost var child: set<Memory>
    ghost var childBytes: int

    ghost predicate Linked()
      reads this, ring
    {
      Ring(ring) && ring[0] == root
    }

    /** The root and the segments. */
    ghost function Nodes(): set<MemorySegment>
      reads this
    {
      set n | n in ring
    }

    ghost function View(): Pools
      requires ring != []
      reads this, ring
    {
      Pools(SegsOf(ring), usedCount, usedBytes, freeBytes, live, child, childBytes)
    }

    ghost predicate Valid()
      reads this, ring
    {
      Linked() && memoryAlignment > 0 && Inv(View())
    }

    constructor (memoryAlignment: nat)
      requires memoryAlignment > 0
      ensures Valid() && View() == Initial && ring == [root] && fresh(root) && this.memoryAlignment == memoryAlignment
    {
      var r := new MemorySegment(0);
      this.memoryAlignment, root, usedCount, usedBytes, freeBytes := memoryAlignment, r, 0, 0, 0;
      ring, live, child, childBytes := [r], map[], {}, 0;
      new;
      root.next, root.previous := root, root;
      assert LinkOk(ring, 0);
      assert SegsOf(ring) == [];
      EmptyIsValid();
    }

    lemma EmptyIsValid()
      requires Linked() && memoryAlignment > 0 && View() == Initial
      ensures Valid()
    {
      InitialInv();
    }

    method InsertNewAfter(segment: MemorySegment, e: MemorySegment, ghost i: nat)
      requires Linked() && segment !in ring && segment.pool == [] && i < |ring| && ring[i] == e
      modifies this`ring, segment`next, segment`previous, ring`next, ring`previous
      ensures Linked() && ring == Inserted(old(ring), i + 1, segment)
      ensures SegsOf(ring) == InsertAt(old(SegsOf(ring)), i, Seg(segment.memorySize, []))
    {
      segment.InsertAfter(e, ring, i);
      assert SegsOf(ring) == old(SegsOf(ring));
      SegsInserted(ring, i + 1, segment);
      ring := Inserted(ring, i + 1, segment);
    }

    method InsertNewBefore(segment: MemorySegment, e: MemorySegment, ghost i: nat)
      requires Linked() && segment !in ring && segment.pool == [] && 0 < i < |ring| && ring[i] == e
      modifies this`ring, segment`next, segment`previous, ring`next, ring`previous
      ensures Linked() && ring == Inserted(old(ring), i, segment)
      ensures SegsOf(ring) == InsertAt(old(SegsOf(ring)), i - 1, Seg(segment.memorySize, []))
    {
      segment.InsertBefore(e, ring, i);
      assert SegsOf(ring) == old(SegsOf(ring));
      SegsInserted(ring, i, segment);
      ring := Inserted(ring, i, segment);
    }

    /** Searches the list from its head to its tail. */
    method FindExisting(memorySize: nat) returns (existing: MemorySegment, ghost k: nat)
      requires Linked() && Ascending(SegsOf(ring))
      ensures k < |ring| && existing == ring[k] && (k == 0 <==> |ring| == 1) && (k == 0 <==> existing == root)
      ensures HasSegment(SegsOf(ring), memorySize) <==> existing != root && existing.memorySize == memorySize
      ensures Position(SegsOf(ring), memorySize, 0) ==
              if k == 0 || existing.memorySize < memorySize then k else k - 1
    {
      AscendingNodesOf(ring);
      RingAt(ring, 0);
      RingAt(ring, |ring| - 1);
      ghost var hi := |ring| - 1;
      ghost var lo := if hi == 0 then 0 else 1;
      existing := FindSegment(root.next, root.previous, memorySize, ring, lo, hi);
      k := LowerBound(ring, lo, hi, memorySize);
      if hi > 0 {
        assert ring[0] != ring[k];
        BoundIsPosition(ring, memorySize, k);
      }
      FoundDecides(ring, memorySize, k);
    }

    /** The segment for `memorySize`, created in its place if there is none. */
    method GetOrCreateFreeSegment(memorySize: nat) returns (segment: MemorySegment, ghost q: nat)
      requires Linked() && Ascending(SegsOf(ring))
      modifies this`ring, ring`next, ring`previous
      ensures Linked() && SegsOf(ring) == WithSegment(old(SegsOf(ring)), memorySize)
      ensures q == Position(old(SegsOf(ring)), memorySize, 0) && q + 1 < |ring| && segment == ring[q + 1]
      ensures segment in ring && segment.memorySize == memorySize
      ensures forall n :: n in ring ==> n in old(ring) || fresh(n)
      ensures forall n :: n in old(ring) ==> n in ring
    {
      var existing: MemorySegment;
      existing, q := FindExisting(memorySize);
      if existing != root && existing.memorySize == memorySize {
        return existing, q - 1;
      }
      segment, q := CreateBeside(memorySize, existing, q);
    }

    method CreateBeside(memorySize: nat, existing: MemorySegment, ghost k: nat)
        returns (segment: MemorySegment, ghost q: nat)
      requires Linked() && k < |ring| && existing == ring[k] && (k == 0 ==> |ring| == 1)
      requires !HasSegment(SegsOf(ring), memorySize)
      requires Position(SegsOf(ring), memorySize, 0) == if k == 0 || existing.memorySize < memorySize then k else k - 1
      modifies this`ring, ring`next, ring`previous
      ensures Linked() && SegsOf(ring) == WithSegment(old(SegsOf(ring)), memorySize)
      ensures q == Position(old(SegsOf(ring)), memorySize, 0) && q + 1 < |ring| && segment == ring[q + 1]
      ensures segment in ring && segment.memorySize == memorySize
      ensures forall n :: n in ring ==> n in old(ring) || fresh(n)
      ensures forall n :: n in old(ring) ==> n in ring
    {
      segment := new MemorySegment(memorySize);
      q := k;
      if existing == root || memorySize > existing.memorySize {
        InsertNewAfter(segment, existing, k);
      } else {
        InsertNewBefore(segment, existing, k);
        q := k - 1;
      }
    }

    // ----- Allocating

    /** A change of the pool of one node, seen in all segments. */
    twostate lemma PoolChanged(k: nat)
      requires old(Linked()) && k + 1 < |ring| && ring == old(ring)
      requires forall n :: n in ring ==> n.next == old(n.next) && n.previous == old(n.previous)
      requires forall n :: n in ring && n != ring[k + 1] ==> n.pool == old(n.pool)
      ensures Linked() && SegsOf(ring) == old(SegsOf(ring))[k := Seg(ring[k + 1].memorySize, ring[k + 1].pool)]
    {
      forall i: nat | i < |ring|
        ensures LinkOk(ring, i)
      {
        assert old(LinkOk(ring, i));
      }
    }

    /** Serves a request from the pool of its size, or with memory that the next
        allocator returned for it. */
    method TryAllocateMemory(r: Request, obtained: Option<Memory>) returns (m: Option<Memory>, segment: MemorySegment?)
      requires Valid() && WellFormed(r)
      requires obtained.Some? ==> obtained.value !in child
      modifies this, Nodes()
      ensures Valid() && (View(), m) == TryAllocate(old(View()), r, memoryAlignment, obtained)
      ensures m.Some? ==> segment in ring && segment != root && m.value !in old(live)
      ensures live == if m.Some? then old(live)[m.value := segment.memorySize] else old(live)
      ensures old(Nodes()) <= Nodes() && fresh(Nodes() - old(Nodes()))
    {
      ghost var p := View();
      ghost var x := TryAllocate(p, r, memoryAlignment, obtained);
      TryAllocateOk(p, r, memoryAlignment, obtained, x.0, x.1);
      m, segment := Allocate(r, obtained);
    }

    method Allocate(r: Request, obtained: Option<Memory>) returns (m: Option<Memory>, segment: MemorySegment?)
      requires Linked() && memoryAlignment > 0 && Ascending(SegsOf(ring)) && WellFormed(r)
      modifies this, ring
      ensures Linked() && (View(), m) == TryAllocate(old(View()), r, memoryAlignment, obtained)
      ensures m.Some? ==> segment in ring && segment != root && m.value in live && live[m.value] == segment.memorySize
      ensures forall n :: n in ring ==> n in old(ring) || fresh(n)
      ensures forall n :: n in old(ring) ==> n in ring
    {
      ghost var p := View();
      if !ValidateRequest(r, INVALID_SIZE, memoryAlignment) {
        return None, null;
      }
      var memorySize := AlignTo(r.size, memoryAlignment);
      ghost var k: nat;
      segment, k := GetOrCreateFreeSegment(memorySize);
      WithSegmentOk(p.segments, memorySize, SegsOf(ring));
      m := TakeFrom(segment, k, obtained);
    }

    method TakeFrom(segment: MemorySegment, ghost k: nat, obtained: Option<Memory>) returns (m: Option<Memory>)
      requires Linked() && k + 1 < |ring| && segment == ring[k + 1]
      modifies this`usedCount, this`usedBytes, this`freeBytes, this`live, this`child, this`childBytes, segment`pool
      ensures Linked() && (View(), m) == TakeMemory(old(View()), k, obtained)
      ensures m.Some? ==> m.value in live && live[m.value] == segment.memorySize
    {
      m := segment.AcquireFromPool();
      PoolChanged(k);
      if m.None? {
        if obtained.None? {
          return;
        }
        m := obtained;
        child, childBytes := child + {m.value}, childBytes + m.value.size;
      } else {
        freeBytes := freeBytes - m.value.size;
      }
      usedCount := usedCount + 1;
      usedBytes := usedBytes + m.value.size;
      live := live[m.value := segment.memorySize];
    }

    /** Returns memory to the pool it was taken for. */
    method DeallocateMemory(m: Memory, segment: MemorySegment)
      requires Valid() && m in live && segment in ring && segment != root && live[m] == segment.memorySize
      modifies this, Nodes()
      ensures Valid() && ring == old(ring) && View() == Deallocate(old(View()), m) && live == old(live) - {m}
    {
      ghost var p := View();
      ghost var k := PlaceOf(segment);
      DeallocateOk(p, m, ReturnMemory(p, k, m));
      ReturnTo(m, segment, k);
    }

    method ReturnTo(m: Memory, segment: MemorySegment, ghost k: nat)
      requires Linked() && k + 1 < |ring| && segment == ring[k + 1]
      modifies this`usedCount, this`usedBytes, this`freeBytes, this`live, segment`pool
      ensures Linked() && View() == ReturnMemory(old(View()), k, m)
    {
      freeBytes := freeBytes + m.size;
      usedCount := usedCount - 1;
      usedBytes := usedBytes - m.size;
      live := live - {m};
      segment.ReturnToPool(m);
      PoolChanged(k);
    }

    /** A segment of the list is the one of its size. */
    lemma PlaceOf(segment: MemorySegment) returns (k: nat)
      requires Linked() && Ascending(SegsOf(ring)) && segment in ring && segment != root
      ensures k + 1 < |ring| && segment == ring[k + 1] && k == Position(SegsOf(ring), segment.memorySize, 0)
    {
      var i: nat :| i < |ring| && ring[i] == segment;
      k := i - 1;
      assert SegsOf(ring)[k].size == segment.memorySize;
      HasSegmentMeaning(SegsOf(ring), segment.memorySize);
    }

    // ----- Releasing

    /** Gives pooled memory back to the next allocator. */
    method ReleaseMemory(bytesToRelease: nat) returns (totalBytesReleased: nat)
      requires Valid()
      modifies this, Nodes()
      ensures Valid() && ring == old(ring) && (View(), totalBytesReleased) == Release(old(View()), bytesToRelease)
    {
      ghost var p := View();
      ReleaseFromOk(p, 0, bytesToRelease, 0, Release(p, bytesToRelease).0, Release(p, bytesToRelease).1);
      totalBytesReleased := ReleaseSegments(bytesToRelease);
    }

    /** The loop over the segments, smallest first. */
    method ReleaseSegments(bytesToRelease: nat) returns (totalBytesReleased: nat)
      requires Linked()
      modifies this`freeBytes, this`child, this`childBytes, ring`pool
      ensures Linked() && (View(), totalBytesReleased) == Release(old(View()), bytesToRelease)
    {
      ghost var result := Release(View(), bytesToRelease);
      ghost var k: nat, v := 0, View();
      totalBytesReleased := 0;
      var want := bytesToRelease;
      RingAt(ring, 0);
      var node := root.next;
      while node != root
        invariant Linked() && k < |ring| && node == (if k + 1 < |ring| then ring[k + 1] else root)
        invariant v == View() && ReleaseFrom(v, k, want, totalBytesReleased) == result
        decreases |ring| - k
      {
        assert node in ring;
        want, totalBytesReleased := ReleaseRound(node, k, want, totalBytesReleased);
        v := View();
        if totalBytesReleased >= want {
          return;
        }
        RingAt(ring, k + 1);
        node := node.next;
        k := k + 1;
      }
    }

    method ReleaseRound(node: MemorySegment, ghost k: nat, want: nat, total: nat) returns (want1: nat, total1: nat)
      requires Linked() && k + 1 < |ring| && node == ring[k + 1]
      modifies this`freeBytes, this`child, this`childBytes, node`pool
      ensures Linked()
      ensures ReleaseFrom(old(View()), k, want, total) ==
                if total1 >= want1 then (View(), total1) else ReleaseFrom(View(), k + 1, want1, total1)
    {
      ghost var v := View();
      var bytes := TrimNode(node, k, want);
      want1, total1 := WrappingSub(want, bytes), total + bytes;
      ghost var v1 := View();
      ReleaseStepTo(v, k, want, total, v1, bytes, want1, total1);
    }

    method TrimNode(segment: MemorySegment, ghost k: nat, want: nat) returns (bytes: nat)
      requires Linked() && k + 1 < |ring| && segment == ring[k + 1]
      modifies this`freeBytes, this`child, this`childBytes, segment`pool
      ensures Linked() && (View(), bytes) == TrimSegment(old(View()), k, want)
    {
      var released: seq<Memory>;
      bytes, released := segment.ReleasePool(want);
      PoolChanged(k);
      freeBytes := freeBytes - bytes;
      child, childBytes := child - Elements(released), childBytes - bytes;
    }
  }
}
