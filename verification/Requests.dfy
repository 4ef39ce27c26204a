/** Requests and their validation: src/gpgmm/common/MemoryAllocator.{h,cpp}. */
module Requests {
  import opened Math

  const UINT64_MAX: nat := 0xFFFF_FFFF_FFFF_FFFF

  /** Stands for "any size" where an allocator reports its memory size. */
  const INVALID_SIZE: nat := UINT64_MAX

  datatype Request = Request(size: nat, alignment: nat, alwaysCacheSize: bool, available: nat)

  /** What the source asserts of every request it validates. */
  predicate WellFormed(r: Request) {
    && 0 < r.size <= UINT64_MAX && 0 < r.alignment <= UINT64_MAX && IsPowerOfTwo(r.alignment)
  }

  predicate ValidateRequest(r: Request, memorySize: nat, memoryAlignment: nat)
    requires WellFormed(r)
  {
    if r.size > UINT64_MAX - (r.alignment - 1) then false
    else if memorySize != INVALID_SIZE && AlignTo(r.size, r.alignment) > memorySize then false
    else if memoryAlignment == 0 || (memoryAlignment > 1 && !IsAligned(memoryAlignment, r.alignment)) then false
    else true
  }

  /** Exactly which requests are accepted: rounding up to the alignment stays in 64
      bits, some multiple of the alignment covers the size and fits the memory, and
      the alignment divides that of the memory, unless that is one byte. */
  lemma AcceptedIff(r: Request, memorySize: nat, memoryAlignment: nat)
    requires WellFormed(r)
    ensures ValidateRequest(r, memorySize, memoryAlignment) <==>
            && r.size + (r.alignment - 1) <= UINT64_MAX
            && (memorySize == INVALID_SIZE || exists k: nat :: k % r.alignment == 0 && r.size <= k <= memorySize)
            && memoryAlignment > 0 && (memoryAlignment == 1 || memoryAlignment % r.alignment == 0)
  {
    FitsIff(r.size, r.alignment, memorySize);
    if memoryAlignment > 0 {
      IsAlignedMeaning(memoryAlignment, r.alignment);
    }
  }

  lemma FitsIff(size: nat, alignment: nat, memorySize: nat)
    requires IsPowerOfTwo(alignment)
    ensures AlignTo(size, alignment) <= memorySize <==> exists k: nat :: k % alignment == 0 && size <= k <= memorySize
  {
    var a := AlignTo(size, alignment);
    AlignToMeaning(size, alignment);
    if k: nat :| k % alignment == 0 && size <= k <= memorySize {
      LeastMultiple(a, k, alignment, size);
    }
    if a <= memorySize {
      assert a % alignment == 0 && size <= a <= memorySize;
    }
  }

  lemma LeastMultiple(a: nat, k: nat, d: nat, n: nat)
    requires d > 0 && a % d == 0 && k % d == 0 && n <= k && a < n + d
    ensures a <= k
  {
    if k < a {
      MultipleBetween(a / d, k / d, d, a, k);
    }
  }

  /** Distinct multiples are at least `d` apart. */
  lemma MultipleBetween(i: nat, j: nat, d: nat, a: nat, k: nat)
    requires a == i * d && k == j * d && k < a
    ensures k + d <= a
  {
    if i <= j {
      MulMonotone(i, j, d);
    } else {
      MulMonotone(j + 1, i, d);
      assert (j + 1) * d == j * d + d;
    }
  }

  /** A request accepted by an allocator of memories of `memorySize` bytes fits
      one memory after rounding, with an alignment that divides the memory size. */
  lemma AcceptedFits(r: Request, memorySize: nat, memoryAlignment: nat)
    requires WellFormed(r) && memorySize != INVALID_SIZE && IsPowerOfTwo(memorySize)
    requires ValidateRequest(r, memorySize, memoryAlignment)
    ensures NextPowerOfTwo(r.size) <= memorySize
    ensures memorySize % r.alignment == 0
  {
    AlignToMeaning(r.size, r.alignment);
    PowerOfTwoMeaning(memorySize);
    PowerOfTwoMeaning(r.alignment);
    NextPowerOfTwoMeaning(r.size);
    var a := AlignTo(r.size, r.alignment);
    assert r.size <= a <= memorySize;
    MultipleAtLeast(a, r.alignment);
    var j, k := Log2(r.alignment), Log2(memorySize);
    if k < j {
      Pow2Monotone(k, j);
    }
    Pow2Divides(j, k);
  }

  lemma MultipleAtLeast(a: nat, d: nat)
    requires d > 0 && a > 0 && a % d == 0
    ensures a >= d
  {
    if a < d {
      DivModUnique(a, d, 0, a);
    }
  }
}
