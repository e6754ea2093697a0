/** Decimal numbers `m * 10^e` as reals, and which of them a bounded numeric type holds. */
module Decimals {
  import opened Digits

  /** The real number `m * 10^e`. */
  function Scaled(m: int, e: int): real
    decreases if e < 0 then -e else e
  {
    if e == 0 then m as real
    else if e > 0 then Scaled(m * 10, e - 1)
    else Scaled(m, e + 1) / 10.0
  }

  lemma {:induction false} ShiftOne(m: int, e: int)
    ensures Scaled(m * 10, e) == Scaled(m, e + 1)
    decreases if e < 0 then -e else e
  {
    if e < -1 { ShiftOne(m, e + 1); }
  }

  lemma {:induction false} Shift(m: int, k: nat, e: int)
    ensures Scaled(m * Pow(10, k), e) == Scaled(m, e + k)
    decreases k
  {
    if k > 0 {
      assert m * Pow(10, k) == m * Pow(10, k - 1) * 10;
      ShiftOne(m * Pow(10, k - 1), e);
      Shift(m, k - 1, e + 1);
    }
  }

  lemma {:induction false} ScaledInjective(m: int, n: int, e: int)
    requires Scaled(m, e) == Scaled(n, e)
    ensures m == n
    decreases if e < 0 then -e else e
  {
    if e > 0 {
      ScaledInjective(m * 10, n * 10, e - 1);
    } else if e < 0 {
      ScaledInjective(m, n, e + 1);
    }
  }

  /** Equal decimals with ordered exponents differ by a power of ten. */
  lemma SameDecimal(m: int, e: int, n: int, f: int)
    requires e <= f && Scaled(m, e) == Scaled(n, f)
    ensures m == n * Pow(10, f - e)
  {
    Shift(n, f - e, e);
    ScaledInjective(m, n * Pow(10, f - e), e);
  }

  /** The bounds of a numeric type: digits before and after the decimal point. */
  datatype Bounds = Bounds(integer: nat, fraction: nat)

  /** A multiple of the smallest fraction the type has. */
  function Grain(k: int, b: Bounds): real {
    Scaled(k, 0 - b.fraction)
  }

  function Grains(b: Bounds): int {
    Pow(10, b.integer + b.fraction)
  }

  /**
   The number needs at most `b.fraction` fractional digits, and is less than
   `10^b.integer` in magnitude.
   */
  ghost predicate Fits(v: real, b: Bounds) {
    exists k: int :: v == Grain(k, b) && -Grains(b) < k < Grains(b)
  }

  /** `s` has exactly `digits` decimal digits and does not end in zero. */
  predicate Significant(s: nat, digits: nat) {
    digits > 0 && s % 10 != 0 && Pow(10, digits - 1) <= s < Pow(10, digits)
  }

  lemma NotAMultiple(s: int, k: int, n: nat)
    requires n > 0 && s == k * Pow(10, n)
    ensures s % 10 == 0
  {
    assert k * Pow(10, n) == 10 * (k * Pow(10, n - 1));
  }

  lemma ScaleLess(s: nat, digits: nat, k: nat)
    requires Significant(s, digits)
    ensures Pow(10, digits - 1 + k) <= s * Pow(10, k) < Pow(10, digits + k)
  {
    PowAdd(10, digits - 1, k);
    PowAdd(10, digits, k);
    MulOrder(Pow(10, digits - 1), s, Pow(10, digits), Pow(10, k));
  }

  lemma MulOrder(l: nat, s: nat, u: nat, p: nat)
    requires l <= s < u && p > 0
    ensures l * p <= s * p < u * p
  {
    assert (s - l) * p >= 0 && (u - s) * p > 0;
  }

  lemma PowReflects(m: nat, n: nat)
    requires Pow(10, m) < Pow(10, n)
    ensures m < n
  {
    if m >= n { PowMonotone(10, n, m); }
  }

  /** `sign * s * 10^power` in canonical decimal notation has these digit counts. */
  predicate WithinDigits(digits: nat, power: int, b: Bounds) {
    digits + power <= b.integer && 0 - power <= b.fraction
  }

  function Signed(negative: bool, n: nat): int {
    if negative then 0 - n else n
  }

  lemma FitsIfWithin(negative: bool, s: nat, digits: nat, power: int, b: Bounds)
    requires Significant(s, digits) && WithinDigits(digits, power, b)
    ensures Fits(Scaled(Signed(negative, s), power), b)
  {
    var n := Signed(negative, s);
    var shift := power + b.fraction;
    Shift(n, shift, 0 - b.fraction);
    ScaleLess(s, digits, shift);
    PowMonotone(10, digits + shift, b.integer + b.fraction);
    SignedProduct(negative, s, Pow(10, shift));
    assert Scaled(n, power) == Grain(n * Pow(10, shift), b);
  }

  /** The grains of a number whose last digit is significant: none if it is finer than a grain. */
  lemma GrainsOf(n: int, power: int, k: int, b: Bounds)
    requires n % 10 != 0 && Scaled(n, power) == Grain(k, b)
    ensures power + b.fraction >= 0 && k == n * Pow(10, power + b.fraction)
  {
    var f: int := 0 - b.fraction;
    if power < f {
      SameDecimal(n, power, k, f);
      NotAMultiple(n, k, f - power);
    } else {
      SameDecimal(k, f, n, power);
    }
  }

  lemma SignedProduct(negative: bool, s: nat, p: nat)
    ensures Signed(negative, s) * p == Signed(negative, s * p)
  {
    if negative { assert (0 - s) * p == 0 - s * p; }
  }

  lemma Magnitude(negative: bool, s: nat, digits: nat, shift: nat)
    requires Significant(s, digits)
    ensures var k := Signed(negative, s) * Pow(10, shift);
            Pow(10, digits - 1 + shift) <= (if k < 0 then -k else k) < Pow(10, digits + shift)
  {
    ScaleLess(s, digits, shift);
    SignedProduct(negative, s, Pow(10, shift));
  }

  lemma SignedLastDigit(negative: bool, s: nat)
    ensures Signed(negative, s) % 10 == 0 <==> s % 10 == 0
  {}

  lemma WithinIfGrain(negative: bool, s: nat, digits: nat, power: int, k: int, b: Bounds)
    requires Significant(s, digits)
    requires Scaled(Signed(negative, s), power) == Grain(k, b) && -Grains(b) < k < Grains(b)
    ensures WithinDigits(digits, power, b)
  {
    SignedLastDigit(negative, s);
    GrainsOf(Signed(negative, s), power, k, b);
    var shift := power + b.fraction;
    Magnitude(negative, s, digits, shift);
    PowReflects(digits - 1 + shift, b.integer + b.fraction);
  }

  lemma WithinIfFits(negative: bool, s: nat, digits: nat, power: int, b: Bounds)
    requires Significant(s, digits)
    requires Fits(Scaled(Signed(negative, s), power), b)
    ensures WithinDigits(digits, power, b)
  {
    var v := Scaled(Signed(negative, s), power);
    var k: int :| v == Grain(k, b) && -Grains(b) < k < Grains(b);
    WithinIfGrain(negative, s, digits, power, k, b);
  }

  /** A number fits exactly when its digits before and after the point are within the bounds. */
  lemma FitsExactly(negative: bool, s: nat, digits: nat, power: int, b: Bounds)
    requires Significant(s, digits)
    ensures Fits(Scaled(Signed(negative, s), power), b) <==> WithinDigits(digits, power, b)
  {
    if WithinDigits(digits, power, b) {
      FitsIfWithin(negative, s, digits, power, b);
    } else if Fits(Scaled(Signed(negative, s), power), b) {
      WithinIfFits(negative, s, digits, power, b);
    }
  }

  lemma {:induction false} ScaledZero(e: int)
    ensures Scaled(0, e) == 0.0
    decreases if e < 0 then -e else e
  {
    if e > 0 { ScaledZero(e - 1); } else if e < 0 { ScaledZero(e + 1); }
  }

  lemma ZeroFits(e: int, b: Bounds)
    ensures Scaled(0, e) == 0.0 && Fits(0.0, b)
  {
    ScaledZero(e);
    ScaledZero(0 - b.fraction);
    assert Grain(0, b) == 0.0;
  }
}
