/** A pool of memory that hands out the last memory returned first:
    src/gpgmm/common/LIFOMemoryPool.cpp and TrimPoolUntil in MemoryPool.h. */
module MemoryPools {

  /** A memory object obtained from the next allocator. */
  datatype Memory = Memory(id: nat, size: nat)

  /** Bytes of the first `k` memory objects of a pool. */
  function PoolBytes(pool: seq<Memory>, k: nat): nat
    requires k <= |pool|
  {
    if k == 0 then 0 else PoolBytes(pool, k - 1) + pool[k - 1].size
  }

  /** The bytes of a pool are those of a prefix and of the rest. */
  lemma {:induction false} PoolBytesSplit(pool: seq<Memory>, t: nat, k: nat)
    requires t <= k <= |pool|
    ensures PoolBytes(pool, k) == PoolBytes(pool, t) + PoolBytes(pool[t..], k - t)
  {
    if t < k {
      PoolBytesSplit(pool, t, k - 1);
    }
  }

  /** How much of the front of a pool is released, having released `k`. */
  function TrimCount(pool: seq<Memory>, want: nat, k: nat): (t: nat)
    requires k <= |pool|
    ensures k <= t <= |pool|
    decreases |pool| - k
  {
    if k == |pool| || (k > 0 && PoolBytes(pool, k) >= want) then k else TrimCount(pool, want, k + 1)
  }

  /** The shortest non-empty prefix that reaches the target, or all of the pool. */
  lemma {:induction false} TrimMeaning(pool: seq<Memory>, want: nat, k: nat)
    requires k <= |pool|
    ensures var t := TrimCount(pool, want, k);
            && (t == |pool| || (t > 0 && PoolBytes(pool, t) >= want))
            && (pool != [] ==> t > 0) && forall j :: k <= j < t && j > 0 ==> PoolBytes(pool, j) < want
    decreases |pool| - k
  {
    if !(k == |pool| || (k > 0 && PoolBytes(pool, k) >= want)) {
      TrimMeaning(pool, want, k + 1);
    }
  }
}
