/** Integer helpers of src/gpgmm/utils/Math.cpp and Math.h.

    The source works on 64-bit words with masks and bit scans. `BitAnd` is the
    bitwise conjunction on naturals; the lemmas show that each mask expression
    computes the arithmetic notion the allocators rely on. */
module Math {

  function Pow2(n: nat): (r: nat)
    ensures r > 0
  {
    if n == 0 then 1 else 2 * Pow2(n - 1)
  }

  /** Index of the highest set bit, `63 - clzll(number)` in the source. */
  function Log2(n: nat): (k: nat)
    requires n > 0
    ensures Pow2(k) <= n < Pow2(k + 1)
  {
    if n == 1 then 0 else 1 + Log2(n / 2)
  }

  function NextPowerOfTwo(n: nat): (r: nat)
  {
    if n <= 1 then 1 else Pow2(Log2(n - 1) + 1)
  }

  function PrevPowerOfTwo(n: nat): (r: nat)
    requires n > 0
  {
    Pow2(Log2(n))
  }

  /** The `&` of the source, bit by bit. */
  function BitAnd(a: nat, b: nat): (r: nat)
    ensures r <= a && r <= b
  {
    if a == 0 || b == 0 then 0
    else 2 * BitAnd(a / 2, b / 2) + (a % 2) * (b % 2)
  }

  predicate IsPowerOfTwo(n: nat) {
    n != 0 && BitAnd(n, n - 1) == 0
  }

  predicate IsAligned(number: nat, multiple: nat)
    requires multiple != 0
  {
    if IsPowerOfTwo(multiple) then BitAnd(number, multiple - 1) == 0
    else number % multiple == 0
  }

  function AlignTo(number: nat, multiple: nat): (r: nat)
    requires multiple != 0
  {
    (number + (multiple - 1)) - BitAnd(number + (multiple - 1), multiple - 1)
  }

  /** Integer division; `SafeDivide` followed by a cast in the source. */
  function Quotient(x: nat, d: nat): nat
    requires d > 0
  {
    x / d
  }

  function Max(a: nat, b: nat): nat { if a < b then b else a }

  function Min(a: nat, b: nat): nat { if a < b then a else b }

  // ----- Powers of two

  lemma {:induction false} Pow2Add(a: nat, b: nat)
    ensures Pow2(a + b) == Pow2(a) * Pow2(b)
  {
    if a > 0 {
      Pow2Add(a - 1, b);
      assert Pow2(a + b) == 2 * Pow2(a - 1 + b);
    }
  }

  lemma {:induction false} Pow2Monotone(a: nat, b: nat)
    requires a <= b
    ensures Pow2(a) <= Pow2(b)
    ensures a < b ==> 2 * Pow2(a) <= Pow2(b)
  {
    if a < b {
      Pow2Monotone(a, b - 1);
    }
  }

  lemma Log2Pow2(k: nat)
    ensures Log2(Pow2(k)) == k
  {
    var j := Log2(Pow2(k));
    if j < k {
      Pow2Monotone(j + 1, k);
    } else if k < j {
      Pow2Monotone(k, j);
    }
  }

  lemma Log2Monotone(a: nat, b: nat)
    requires 0 < a <= b
    ensures Log2(a) <= Log2(b)
  {
    if Log2(b) < Log2(a) {
      Pow2Monotone(Log2(b) + 1, Log2(a));
    }
  }

  lemma MulMod(a: nat, b: nat)
    requires b > 0
    ensures (a * b) % b == 0 && (a * b) / b == a
  {
    DivModUnique(a * b, b, a, 0);
  }

  lemma MulGap(a: nat, b: nat, d: nat)
    requires a < b
    ensures a * d + d <= b * d
  {
    var e := b - a - 1;
    assert b * d == (a + 1 + e) * d == a * d + d + e * d;
  }

  lemma EuclidUnique(q: nat, r: nat, q': nat, r': nat, d: nat)
    requires r < d && r' < d && q * d + r == q' * d + r'
    ensures q == q' && r == r'
  {
    if q < q' {
      MulGap(q, q', d);
    } else if q' < q {
      MulGap(q', q, d);
    }
  }

  lemma DivModUnique(x: nat, d: nat, q: nat, r: nat)
    requires d > 0 && r < d && x == q * d + r
    ensures x / d == q && x % d == r
  {
    EuclidUnique(x / d, x % d, q, r, d);
  }

  lemma HalfMod(x: nat, d: nat)
    requires d > 0
    ensures x % (2 * d) == 2 * (x / 2 % d) + x % 2
    ensures x / (2 * d) == x / 2 / d
  {
    var q, r := x / 2 / d, x / 2 % d;
    var e := 2 * d;
    assert q * e == 2 * (q * d);
    assert x == q * e + (2 * r + x % 2);
    DivModUnique(x, e, q, 2 * r + x % 2);
  }

  lemma DivTwice(x: nat, d: nat)
    requires d > 0
    ensures x / (2 * d) == x / d / 2
  {
    var q, r := x / d, x % d;
    var h, e := q / 2, 2 * d;
    assert q * d == (2 * h + q % 2) * d == h * e + (q % 2) * d;
    assert (q % 2) * d + r < e by {
      if q % 2 == 0 {} else {}
    }
    DivModUnique(x, e, h, (q % 2) * d + r);
  }

  /** The mask `2^k - 1` selects the remainder modulo `2^k`. */
  lemma {:induction false} MaskIsModulo(x: nat, k: nat)
    ensures BitAnd(x, Pow2(k) - 1) == x % Pow2(k)
  {
    if k == 0 {
    } else if x == 0 {
    } else {
      var d := Pow2(k - 1);
      MaskIsModulo(x / 2, k - 1);
      assert (Pow2(k) - 1) / 2 == d - 1 && (Pow2(k) - 1) % 2 == 1;
      HalfMod(x, d);
      assert BitAnd(x, Pow2(k) - 1) == 2 * BitAnd(x / 2, d - 1) + x % 2;
    }
  }

  /** `n & (n - 1) == 0` holds exactly for the powers of two. */
  lemma {:induction false} PowerOfTwoMeaning(n: nat)
    ensures IsPowerOfTwo(n) <==> n > 0 && n == Pow2(Log2(n))
  {
    if n <= 1 {
    } else {
      var h := n / 2;
      HalfStep(n, h);
      if n % 2 == 1 {
        BitAndSelf(h);
        assert Log2(n) == 1 + Log2(h);
      } else {
        PowerOfTwoMeaning(h);
        assert Log2(n) == 1 + Log2(h);
      }
    }
  }

  lemma HalfStep(n: nat, h: nat)
    requires n > 1 && h == n / 2
    ensures BitAnd(n, n - 1) == 2 * BitAnd(h, if n % 2 == 1 then h else h - 1)
  {
    assert (n - 1) / 2 == if n % 2 == 1 then h else h - 1;
    assert (n % 2) * ((n - 1) % 2) == 0;
  }

  lemma {:induction false} BitAndSelf(n: nat)
    ensures BitAnd(n, n) == n
  {
    if n > 0 {
      BitAndSelf(n / 2);
    }
  }

  lemma Pow2IsPowerOfTwo(k: nat)
    ensures IsPowerOfTwo(Pow2(k))
  {
    Log2Pow2(k);
    PowerOfTwoMeaning(Pow2(k));
  }

  /** Both branches of `IsAligned` decide divisibility. */
  lemma IsAlignedMeaning(number: nat, multiple: nat)
    requires multiple != 0
    ensures IsAligned(number, multiple) <==> number % multiple == 0
  {
    if IsPowerOfTwo(multiple) {
      PowerOfTwoMeaning(multiple);
      MaskIsModulo(number, Log2(multiple));
    }
  }

  lemma RoundDown(x: nat, d: nat)
    requires d > 0
    ensures (x - x % d) % d == 0
  {
    var q := x / d;
    assert x - x % d == q * d;
    MulMod(q, d);
  }

  /** `AlignTo` returns the least multiple that is not below `number`. */
  lemma AlignToMeaning(number: nat, multiple: nat)
    requires IsPowerOfTwo(multiple)
    ensures var r := AlignTo(number, multiple);
            r % multiple == 0 && number <= r < number + multiple
  {
    PowerOfTwoMeaning(multiple);
    var x := number + (multiple - 1);
    MaskIsModulo(x, Log2(multiple));
    assert AlignTo(number, multiple) == x - x % multiple;
    RoundDown(x, multiple);
  }

  /** `NextPowerOfTwo` is the least power of two that is not below `n`. */
  lemma NextPowerOfTwoMeaning(n: nat)
    ensures IsPowerOfTwo(NextPowerOfTwo(n)) && n <= NextPowerOfTwo(n)
    ensures forall k: nat :: n <= Pow2(k) ==> NextPowerOfTwo(n) <= Pow2(k)
  {
    if n <= 1 {
      assert Pow2(0) == 1;
      Pow2IsPowerOfTwo(0);
    } else {
      var j := Log2(n - 1);
      Pow2IsPowerOfTwo(j + 1);
      forall k: nat | n <= Pow2(k)
        ensures Pow2(j + 1) <= Pow2(k)
      {
        if k <= j {
          Pow2Monotone(k, j);
        } else {
          Pow2Monotone(j + 1, k);
        }
      }
    }
  }

  lemma MulMonotone(a: nat, b: nat, c: nat)
    requires a <= b
    ensures a * c <= b * c && c * a <= c * b
  {
    assert b * c == a * c + (b - a) * c;
  }

  lemma Distributes(c: nat, b: nat, n: nat, a: nat, m: nat)
    requires n == c * b && a == 2 * c + 1 && m == a * b
    ensures m == 2 * n + b
  {
    assert (2 * c + 1) * b == 2 * (c * b) + b;
  }

  lemma OddTimesOdd(a: nat, b: nat)
    requires a % 2 == 1 && b % 2 == 1
    ensures a * b % 2 == 1
  {
    var c := a / 2;
    Distributes(c, b, c * b, a, a * b);
  }

  /** A divisor of a power of two is a power of two. */
  lemma {:induction false} DivisorOfPow2(d: nat, q: nat, k: nat)
    requires Pow2(k) == q * d
    ensures IsPowerOfTwo(d)
  {
    if d % 2 == 0 {
      var h := d / 2;
      assert q * d == q * (2 * h) == 2 * (q * h);
      DivisorOfPow2(h, q, k - 1);
      PowerOfTwoMeaning(h);
      assert d == Pow2(Log2(h) + 1);
      Pow2IsPowerOfTwo(Log2(h) + 1);
    } else if q % 2 == 0 {
      var h := q / 2;
      assert q * d == (2 * h) * d == 2 * (h * d);
      DivisorOfPow2(d, h, k - 1);
    } else {
      OddTimesOdd(q, d);
      assert k == 0;
      MulGap(0, q, d);
      Pow2IsPowerOfTwo(0);
      assert Pow2(0) == 1;
    }
  }

  /** Between powers of two, `<=` is divisibility. */
  lemma Pow2Divides(a: nat, b: nat)
    requires a <= b
    ensures Pow2(b) % Pow2(a) == 0
  {
    Pow2Add(b - a, a);
    MulMod(Pow2(b - a), Pow2(a));
  }
}
