/** Choosing the size of a slab: ComputeSlabSize in
    src/gpgmm/common/SlabMemoryAllocator.cpp. The fragmentation limit is the
    fraction `num / den`. */
module SlabSizing {
  import opened Math

  /** A request for `request` bytes from blocks of `block` bytes. */
  datatype Fit = Fit(request: nat, block: nat, num: nat, den: nat)

  predicate FitOk(f: Fit) { f.request <= f.block && f.num > 0 && f.den > 0 }

  /** The request fits and the bytes it wastes are within the limit. */
  predicate Acceptable(f: Fit, size: nat)
    requires f.request <= f.block
  {
    f.request <= size && (f.block - f.request) * f.den <= f.num * size
  }

  /** An unacceptable size is below this bound, so doubling ends. */
  function Bound(f: Fit): nat
    requires f.request <= f.block
  {
    f.request + (f.block - f.request) * f.den
  }

  lemma UnacceptableIsSmall(f: Fit, size: nat)
    requires FitOk(f) && !Acceptable(f, size)
    ensures size < Bound(f)
  {
    if f.request <= size {
      AtLeast(f.num, size);
    }
  }

  lemma AtLeast(a: nat, b: nat)
    requires a > 0
    ensures b <= a * b
  {
    MulMonotone(1, a, b);
  }

  /** The first acceptable size among `size`, `2 * size`, `4 * size`, ... */
  function Doubled(f: Fit, size: nat): (r: nat)
    requires FitOk(f) && size > 0
    ensures Acceptable(f, r) && size <= r
    decreases Bound(f) - size
  {
    if Acceptable(f, size) then size else
      UnacceptableIsSmall(f, size);
      Doubled(f, 2 * size)
  }

  /** It is the size doubled as often as needed, and no more. */
  lemma {:induction false} DoubledMeaning(f: Fit, size: nat) returns (k: nat)
    requires FitOk(f) && size > 0
    ensures Doubled(f, size) == Pow2(k) * size && Acceptable(f, Doubled(f, size))
    ensures forall j: nat {:trigger Pow2(j)} :: j < k ==> !Acceptable(f, Pow2(j) * size)
    decreases Bound(f) - size
  {
    k := 0;
    if !Acceptable(f, size) {
      UnacceptableIsSmall(f, size);
      var i := DoubledMeaning(f, 2 * size);
      k := i + 1;
      DoubledPower(i, size);
      forall j: nat | j < k
        ensures !Acceptable(f, Pow2(j) * size)
      {
        if j > 0 {
          DoubledPower(j - 1, size);
        }
      }
    }
  }

  lemma DoubledPower(j: nat, size: nat)
    ensures Pow2(j) * (2 * size) == Pow2(j + 1) * size
  {
    var n := Pow2(j);
    assert n * (2 * size) == (2 * n) * size;
  }

  /** The source's loop. It ends for every positive limit. */
  method DoubleUntilAcceptable(f: Fit, base: nat) returns (slabSize: nat)
    requires FitOk(f) && base > 0
    ensures slabSize == Doubled(f, base)
  {
    slabSize := base;
    var fragmentedBytes := f.block - f.request;
    while f.request > slabSize || fragmentedBytes * f.den > f.num * slabSize
      invariant slabSize > 0 && Doubled(f, slabSize) == Doubled(f, base)
      decreases Bound(f) - slabSize
    {
      UnacceptableIsSmall(f, slabSize);
      slabSize := slabSize * 2;
    }
  }

  function NewSlabSize(f: Fit, base: nat): nat
    requires FitOk(f) && base > 0
  {
    NextPowerOfTwo(Doubled(f, base))
  }

  lemma AcceptableUp(f: Fit, a: nat, b: nat)
    requires f.request <= f.block && Acceptable(f, a) && a <= b
    ensures Acceptable(f, b)
  {
    MulMonotone(a, b, f.num);
  }

  lemma {:induction false} DoubledKeepsPowers(f: Fit, size: nat)
    requires FitOk(f) && size > 0 && IsPowerOfTwo(size)
    ensures IsPowerOfTwo(Doubled(f, size))
    decreases Bound(f) - size
  {
    if !Acceptable(f, size) {
      UnacceptableIsSmall(f, size);
      DoublePower(size);
      DoubledKeepsPowers(f, 2 * size);
    }
  }

  lemma DoublePower(n: nat)
    requires IsPowerOfTwo(n)
    ensures IsPowerOfTwo(2 * n)
  {
    PowerOfTwoMeaning(n);
    NextPower(n, Log2(n));
  }

  lemma NextPower(n: nat, k: nat)
    requires n == Pow2(k)
    ensures IsPowerOfTwo(2 * n) && 2 * n == Pow2(k + 1)
  {
    Pow2IsPowerOfTwo(k + 1);
  }

  lemma NextOfPower(n: nat)
    requires IsPowerOfTwo(n)
    ensures NextPowerOfTwo(n) == n
  {
    NextPowerOfTwoMeaning(n);
    PowerOfTwoMeaning(n);
  }

  /** The chosen size is a power of two, at least the base size, within the
      fragmentation limit and a multiple of the slab alignment. */
  lemma NewSlabSizeMeaning(f: Fit, base: nat, slabAlignment: nat)
    requires FitOk(f) && IsPowerOfTwo(slabAlignment) && base >= slabAlignment
    ensures var r := NewSlabSize(f, base);
            IsPowerOfTwo(r) && base <= r && Acceptable(f, r) && r % slabAlignment == 0
  {
    var d := Doubled(f, base);
    NextPowerOfTwoMeaning(d);
    AcceptableUp(f, d, NextPowerOfTwo(d));
    MultipleOfPower(NextPowerOfTwo(d), slabAlignment);
  }

  lemma MultipleOfPower(n: nat, d: nat)
    requires IsPowerOfTwo(n) && IsPowerOfTwo(d) && d <= n
    ensures n % d == 0
  {
    PowerOfTwoMeaning(n);
    PowerOfTwoMeaning(d);
    if Log2(n) < Log2(d) {
      Pow2Monotone(Log2(n) + 1, Log2(d));
    }
    Pow2Divides(Log2(d), Log2(n));
  }

  /** From a power of two, the result is the least acceptable power of two that is
      not below the base. */
  lemma {:induction false} NewSlabSizeLeast(f: Fit, base: nat, k: nat)
    requires FitOk(f) && IsPowerOfTwo(base) && base <= Pow2(k) && Acceptable(f, Pow2(k))
    ensures NewSlabSize(f, base) == Doubled(f, base) <= Pow2(k)
    decreases Bound(f) - base
  {
    DoubledKeepsPowers(f, base);
    NextOfPower(Doubled(f, base));
    if !Acceptable(f, base) {
      UnacceptableIsSmall(f, base);
      DoublePower(base);
      PowerOfTwoMeaning(base);
      if k <= Log2(base) {
        Pow2Monotone(k, Log2(base));
      } else {
        Pow2Monotone(Log2(base) + 1, k);
      }
      NewSlabSizeLeast(f, 2 * base, k);
    }
  }

  /** Doubling stays below twice any acceptable size that is not below the base. */
  lemma {:induction false} DoubledBelow(f: Fit, base: nat, top: nat)
    requires FitOk(f) && 0 < base <= top && Acceptable(f, top)
    ensures Doubled(f, base) < 2 * top
    decreases Bound(f) - base
  {
    if !Acceptable(f, base) {
      UnacceptableIsSmall(f, base);
      if top <= base {
        AcceptableUp(f, top, base);
      } else if 2 * base <= top {
        DoubledBelow(f, 2 * base, top);
      } else {
        AcceptableUp(f, top, 2 * base);
      }
    }
  }

  /** If 2^63 bytes would be acceptable and the base does not exceed them, no
      doubling exceeds 64 bits; rounding up to a power of two does so exactly when
      the doubled size exceeds 2^63, which it cannot from a power of two. */
  lemma NewSlabSizeFits(f: Fit, base: nat)
    requires FitOk(f) && 0 < base <= Pow2(63) && Acceptable(f, Pow2(63))
    ensures Doubled(f, base) < Pow2(64)
    ensures NewSlabSize(f, base) < Pow2(64) <==> Doubled(f, base) <= Pow2(63)
    ensures IsPowerOfTwo(base) ==> NewSlabSize(f, base) < Pow2(64)
  {
    DoubledBelow(f, base, Pow2(63));
    assert Pow2(64) == 2 * Pow2(63);
    NextBelow(Doubled(f, base), 63);
    if IsPowerOfTwo(base) {
      NewSlabSizeLeast(f, base, 63);
    }
  }

  lemma NextBelow(n: nat, k: nat)
    ensures NextPowerOfTwo(n) < Pow2(k + 1) <==> n <= Pow2(k)
  {
    NextPowerOfTwoMeaning(n);
    if n <= Pow2(k) {
      assert NextPowerOfTwo(n) <= Pow2(k) < 2 * Pow2(k);
    } else {
      PowerOfTwoMeaning(NextPowerOfTwo(n));
      var j := Log2(NextPowerOfTwo(n));
      if j <= k {
        Pow2Monotone(j, k);
      } else {
        Pow2Monotone(k + 1, j);
      }
    }
  }

  /** With a limit below one, a slab holds at least one block, because the block
      size is the request rounded up to a power of two. */
  lemma SlabHoldsABlock(f: Fit, alignment: nat, r: nat)
    requires FitOk(f) && f.num < f.den && IsPowerOfTwo(alignment) && f.block == AlignTo(f.request, alignment)
    requires IsPowerOfTwo(r) && Acceptable(f, r)
    ensures f.block <= r
  {
    AlignToMeaning(f.request, alignment);
    if alignment <= r {
      MultipleOfPower(r, alignment);
      MultiplesApart(f.block, r, alignment);
    } else {
      MultipleOfPower(alignment, r);
      WasteTooLarge(f, alignment, r);
    }
  }

  /** Two multiples of `d`, the first less than `d` above the second. */
  lemma MultiplesApart(a: nat, b: nat, d: nat)
    requires d > 0 && a % d == 0 && b % d == 0 && a < b + d
    ensures a <= b
  {
    var p, q := a / d, b / d;
    assert a == p * d && b == q * d && (q + 1) * d == b + d;
    if p > q {
      MulMonotone(q + 1, p, d);
    }
  }

  lemma ProperMultiple(a: nat, d: nat)
    requires 0 < d < a && a % d == 0
    ensures 2 * d <= a
  {
    MulMod(2, d);
    MultiplesApart(2 * d, a, d);
  }

  /** A slab smaller than the alignment would waste more than itself. */
  lemma WasteTooLarge(f: Fit, alignment: nat, r: nat)
    requires FitOk(f) && f.num < f.den && 0 < r < alignment && f.request <= r && alignment % r == 0
    requires Acceptable(f, r) && f.block % alignment == 0
    ensures f.block == 0
  {
    if f.block > 0 {
      MultiplesApart(alignment, f.block, alignment);
      ProperMultiple(alignment, r);
      Waste(f.block - f.request, r, f.num, f.den);
    }
  }

  lemma Waste(w: nat, r: nat, num: nat, den: nat)
    requires w >= r > 0 && num < den
    ensures w * den > num * r
  {
    MulMonotone(r, w, den);
    MulMonotone(num + 1, den, r);
    assert (num + 1) * r == num * r + r;
  }
}
