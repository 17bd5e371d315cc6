/** Powers of ten as CompactNumberFormat uses them: `computeDivisor` and
    the digit-count comparison of `selectCompactPattern(BigInteger)`. */
module PowersOfTen {
  import opened Wrappers

  /** `RANGE_MULTIPLIER`: each compact pattern index covers ten times the
      range of the previous one. */
  const RANGE_MULTIPLIER: nat := 10

  /** `Long.MAX_VALUE`. */
  const LONG_MAX: int := 0x7FFF_FFFF_FFFF_FFFF

  function Pow10(k: nat): (r: nat)
    ensures r >= 1
  {
    if k == 0 then 1 else 10 * Pow10(k - 1)
  }

  lemma {:induction false} Pow10Add(a: nat, b: nat)
    ensures Pow10(a + b) == Pow10(a) * Pow10(b)
    decreases a
  {
    if a > 0 {
      Pow10Add(a - 1, b);
      assert Pow10(a + b) == 10 * Pow10(a - 1 + b);
    }
  }

  lemma Pow10Strict(a: nat, b: nat)
    requires a < b
    ensures Pow10(a) < Pow10(b)
  {
    Pow10Add(a, b - a);
    assert Pow10(b - a) >= 10;
  }

  lemma Pow10Monotone(a: nat, b: nat)
    ensures a <= b <==> Pow10(a) <= Pow10(b)
  {
    if a < b {
      Pow10Strict(a, b);
    } else if b < a {
      Pow10Strict(b, a);
    }
  }

  lemma MulNonneg(a: int, b: int)
    requires a >= 0 && b >= 0
    ensures a * b >= 0
  {
  }

  /** Exact division: the quotient of `q * d` by `d` is `q`. */
  lemma DivExact(n: nat, d: nat, q: nat)
    requires d > 0 && n == q * d
    ensures n / d == q
  {
    var q', r := n / d, n % d;
    assert n == q' * d + r && 0 <= r < d;
    var k := q - q';
    assert k * d == q * d - q' * d;
    assert k * d == r;
    if k >= 1 {
      MulNonneg(k - 1, d);
    } else if k <= -1 {
      MulNonneg(-k - 1, d);
    }
  }

  lemma Pow10Values()
    ensures Pow10(18) == 1_000_000_000_000_000_000
    ensures Pow10(19) == 10_000_000_000_000_000_000
    ensures Pow10(20) == 100_000_000_000_000_000_000
  {
    assert Pow10(1) == 10;
    assert Pow10(2) == 100;
    assert Pow10(3) == 1000;
    Pow10Add(3, 3);
    Pow10Add(6, 6);
    Pow10Add(12, 6);
    Pow10Add(18, 1);
    Pow10Add(18, 2);
  }

  /** Dividing powers of ten subtracts exponents. */
  lemma Pow10Div(a: nat, b: nat)
    requires b <= a
    ensures Pow10(a) / Pow10(b) == Pow10(a - b)
  {
    Pow10Add(a - b, b);
    DivExact(Pow10(a), Pow10(b), Pow10(a - b));
  }

  /** 10^18 is the largest power of ten a Java `long` holds. */
  lemma LongRange()
    ensures Pow10(18) <= LONG_MAX < Pow10(19)
  {
    Pow10Values();
  }

  /** `(long) Math.pow(10, k)`. `Math.pow` is exact when the power is
      representable as a double, which 10^k is up to k = 22; from k = 19 on
      the double exceeds `Long.MAX_VALUE` (and from k = 309 it is infinite),
      and the narrowing conversion to `long` saturates at `Long.MAX_VALUE`. */
  function JavaLongPow10(k: nat): (r: nat)
    ensures k <= 18 ==> r == Pow10(k)
    ensures k >= 19 ==> r == LONG_MAX && r < Pow10(k)
  {
    LongRange();
    if k <= 18 then Pow10(k)
    else
      Pow10Monotone(19, k);
      LONG_MAX
  }

  /** `computeDivisor(minIntDigits, patternIndex)` as written, with `count`
      the number of zeros of the pattern: the power 10^(count-1) it divides
      by is computed through `(long) Math.pow` also in the `BigInteger`
      branch. `None` is the `IllegalArgumentException` "min integer digits
      specified exceeds the limit". */
  function ComputeDivisorAsWritten(count: nat, index: nat): Option<nat> {
    var matched := if index < 19 then JavaLongPow10(index) else Pow10(index);
    if count == 0 then Some(matched)
    else if matched < JavaLongPow10(count - 1) then None
    else Some(matched / JavaLongPow10(count - 1))
  }

  /** `computeDivisor` with exact powers: 10^index when the pattern has no
      zeros, otherwise 10^index / 10^(count-1), rejected when that would be
      below one. */
  function ComputeDivisor(count: nat, index: nat): Option<nat> {
    if count == 0 then Some(Pow10(index))
    else if index < count - 1 then None
    else Some(Pow10(index - (count - 1)))
  }

  /** The divisor scales a number of the index's magnitude down to exactly
      `count` integer digits; it is rejected exactly when the pattern asks
      for more integer digits than the index's magnitude has. */
  lemma DivisorCorrect(count: nat, index: nat)
    requires count > 0
    ensures ComputeDivisor(count, index).None? <==> Pow10(index) < Pow10(count - 1)
    ensures ComputeDivisor(count, index).Some? ==>
      ComputeDivisor(count, index).value * Pow10(count - 1) == Pow10(index)
  {
    Pow10Monotone(count - 1, index);
    if count - 1 <= index {
      Pow10Add(index - (count - 1), count - 1);
    }
  }

  /** While 10^(count-1) fits a `long`, or the index is on the `long`
      branch, the code as written computes the exact divisor. */
  lemma DivisorAgrees(count: nat, index: nat)
    requires count <= 19 || index < 19
    ensures ComputeDivisorAsWritten(count, index) == ComputeDivisor(count, index)
  {
    if count > 0 {
      Pow10Monotone(count - 1, index);
      if count - 1 <= index {
        Pow10Div(index, count - 1);
      } else if count - 1 >= 19 {
        LongRange();
        Pow10Monotone(index, 18);
      }
    }
  }

  /** A pattern with 21 zeros at index 19 asks for more digits than 10^19
      has, yet the saturated `(long) Math.pow(10, 20)` lets it through. */
  lemma SaturationAcceptsTooManyDigits()
    ensures ComputeDivisorAsWritten(21, 19) == Some(1)
    ensures ComputeDivisor(21, 19) == None
  {
    Pow10Values();
  }

  /** With 21 zeros at index 20 the divisor should be 1, but 10^20 is
      divided by `Long.MAX_VALUE` instead of 10^20. */
  lemma SaturationWrongDivisor()
    ensures ComputeDivisorAsWritten(21, 20) == Some(10)
    ensures ComputeDivisor(21, 20) == Some(1)
  {
    Pow10Values();
  }

  /** The number of decimal digits of `n`, less one. */
  function Log10Floor(n: nat): nat
    requires n >= 1
  {
    if n < 10 then 0 else 1 + Log10Floor(n / 10)
  }

  lemma {:induction false} Log10FloorBounds(n: nat)
    requires n >= 1
    ensures Pow10(Log10Floor(n)) <= n < Pow10(Log10Floor(n) + 1)
  {
    if n >= 10 {
      Log10FloorBounds(n / 10);
    }
  }

  /** The exponent `k` with 10^k <= n < 10^(k+1) is `Log10Floor(n)`. */
  lemma Log10FloorUnique(n: nat, k: nat)
    requires n >= 1 && Pow10(k) <= n < Pow10(k + 1)
    ensures Log10Floor(n) == k
  {
    var l := Log10Floor(n);
    Log10FloorBounds(n);
    if l < k {
      Pow10Monotone(l + 1, k);
    } else if k < l {
      Pow10Monotone(k + 1, l);
    }
  }

  lemma Log10FloorAtLeast(n: nat, k: nat)
    requires n >= 1 && Pow10(k) <= n
    ensures k <= Log10Floor(n)
  {
    Log10FloorBounds(n);
    Pow10Monotone(k, Log10Floor(n));
    if Log10Floor(n) < k {
      Pow10Monotone(Log10Floor(n) + 1, k);
    }
  }
}
