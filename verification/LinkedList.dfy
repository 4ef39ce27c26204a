/** The intrusive circular list of memory segments: src/gpgmm/utils/LinkedList.h,
    and the search in src/gpgmm/common/SegmentedMemoryAllocator.cpp. */
module LinkedLists {
  import opened Sets
  import opened MemoryPools
  import opened Options

  /** A pool of memory objects of one size, which is also a node of the list.
      The root of a list is a node whose pool is not used. */
  class MemorySegment {
    const memorySize: nat
    var pool: seq<Memory>
    var previous: MemorySegment?
    var next: MemorySegment?

    constructor (memorySize: nat)
      ensures this.memorySize == memorySize && pool == [] && previous == null && next == null
    {
      this.memorySize, pool, previous, next := memorySize, [], null, null;
    }

    // ----- The pool

    method AcquireFromPool() returns (m: Option<Memory>)
      modifies this`pool
      ensures if old(pool) == [] then m == None && pool == [] else m == Some(old(pool)[0]) && pool == old(pool)[1..]
    {
      if pool == [] {
        return None;
      }
      m := Some(pool[0]);
      pool := pool[1..];
    }

    method ReturnToPool(m: Memory)
      modifies this`pool
      ensures pool == [m] + old(pool)
    {
      pool := [m] + pool;
    }

    /** Releases from the front until `want` bytes are reached or the pool is empty. */
    method ReleasePool(want: nat) returns (bytes: nat, released: seq<Memory>)
      modifies this`pool
      ensures var t := TrimCount(old(pool), want, 0);
              pool == old(pool)[t..] && released == old(pool)[..t] && bytes == PoolBytes(old(pool), t)
    {
      bytes := 0;
      var lastIndex := 0;
      while lastIndex < |pool|
        invariant lastIndex <= |pool| && bytes == PoolBytes(pool, lastIndex)
        invariant TrimCount(pool, want, lastIndex) == TrimCount(pool, want, 0)
        invariant lastIndex > 0 && lastIndex < |pool| ==> bytes < want
      {
        bytes := bytes + pool[lastIndex].size;
        lastIndex := lastIndex + 1;
        if bytes >= want {
          break;
        }
      }
      released := pool[..lastIndex];
      pool := pool[lastIndex..];
    }

    // ----- The list

    predicate IsInList()
      reads this
    {
      next != null
    }

    /** `ring` is the list before, root first; `i` is the position of `e`. */
    method InsertAfter(e: MemorySegment, ghost ring: seq<MemorySegment>, ghost i: nat)
      requires Ring(ring) && this !in ring && i < |ring| && ring[i] == e
      modifies this`next, this`previous, e`next, ring`previous
      ensures Ring(Inserted(ring, i + 1, this))
    {
      RingAt(ring, i);
      next := e.next;
      previous := e;
      e.next.previous := this;
      e.next := this;
      ghost var r := Inserted(ring, i + 1, this);
      InsertedDistinct(ring, i + 1, this);
      forall j: nat | j < |r|
        ensures LinkOk(r, j)
      {
        assert j <= i ==> old(LinkOk(ring, j));
        assert j > i + 1 ==> old(LinkOk(ring, j - 1));
      }
    }

    method InsertBefore(e: MemorySegment, ghost ring: seq<MemorySegment>, ghost i: nat)
      requires Ring(ring) && this !in ring && 0 < i < |ring| && ring[i] == e
      modifies this`next, this`previous, e`previous, ring`next
      ensures Ring(Inserted(ring, i, this))
    {
      RingAt(ring, i - 1);
      next := e;
      previous := e.previous;
      e.previous.next := this;
      e.previous := this;
      ghost var r := Inserted(ring, i, this);
      InsertedDistinct(ring, i, this);
      forall j: nat | j < |r|
        ensures LinkOk(r, j)
      {
        assert j < i ==> old(LinkOk(ring, j));
        assert j > i ==> old(LinkOk(ring, j - 1));
      }
    }

    /** The root is never removed. */
    method RemoveFromList(ghost ring: seq<MemorySegment>, ghost i: nat)
      requires Ring(ring) && 0 < i < |ring| && ring[i] == this
      modifies this`next, this`previous, ring`next, ring`previous
      ensures Ring(ring[..i] + ring[i + 1..]) && !IsInList()
    {
      RingAt(ring, i - 1);
      RingAt(ring, i);
      previous.next := next;
      next.previous := previous;
      next := null;
      previous := null;
      ghost var r := ring[..i] + ring[i + 1..];
      assert Distinct(r);
      forall j: nat | j < |r|
        ensures LinkOk(r, j)
      {
        assert j < i ==> old(LinkOk(ring, j));
        assert j >= i ==> old(LinkOk(ring, j + 1));
      }
    }
  }

  // ----- Rings

  ghost function Succ(ring: seq<MemorySegment>, i: nat): MemorySegment
    requires i < |ring|
  {
    if i + 1 < |ring| then ring[i + 1] else ring[0]
  }

  ghost predicate LinkOk(ring: seq<MemorySegment>, i: nat)
    requires i < |ring|
    reads ring
  {
    ring[i].next == Succ(ring, i) && Succ(ring, i).previous == ring[i]
  }

  /** The nodes are linked in this order, forwards and backwards, in a circle. */
  ghost predicate Ring(ring: seq<MemorySegment>)
    reads ring
  {
    ring != [] && Distinct(ring) && forall i: nat {:trigger LinkOk(ring, i)} :: i < |ring| ==> LinkOk(ring, i)
  }

  ghost function Inserted(ring: seq<MemorySegment>, i: nat, n: MemorySegment): seq<MemorySegment>
    requires i <= |ring|
  {
    ring[..i] + [n] + ring[i..]
  }

  lemma InsertedDistinct(ring: seq<MemorySegment>, i: nat, n: MemorySegment)
    requires Distinct(ring) && i <= |ring| && n !in ring
    ensures var r := Inserted(ring, i, n);
            && Distinct(r) && |r| == |ring| + 1
            && forall j :: 0 <= j < |r| ==> r[j] == if j < i then ring[j] else if j == i then n else ring[j - 1]
  {
  }

  lemma RingAt(ring: seq<MemorySegment>, i: nat)
    requires Ring(ring) && i < |ring|
    ensures LinkOk(ring, i)
  {
  }
}
