/**
 The digit-length limits of based integers: a binary, octal or hexadecimal numeral that is
 longer than its limit has more decimal digits than PostgreSQL's `numeric` can hold.
 */
module DigitLimits {
  import opened Digits

  const MAX_INTEGER_DIGITS := 131_072
  const MAX_FRACTIONAL_DIGITS := 16_383

  /** `based_digit_limit`. */
  function BasedDigitLimit(base: nat): nat {
    match base
    case 2 => 435_413
    case 8 => 145_138
    case 16 => 108_854
    case _ => 0
  }

  lemma {:induction false} PowMul(b: nat, m: nat, n: nat)
    ensures Pow(b, m * n) == Pow(Pow(b, m), n)
    decreases n
  {
    if n == 0 {
      assert m * 0 == 0;
    } else {
      PowMul(b, m, n - 1);
      assert m * n == m + m * (n - 1);
      PowAdd(b, m, m * (n - 1));
    }
  }

  lemma {:induction false} PowOrder(a: nat, b: nat, n: nat)
    requires a <= b
    ensures Pow(a, n) <= Pow(b, n)
  {
    if n > 0 {
      PowOrder(a, b, n - 1);
      MulOrderly(a, b, Pow(a, n - 1), Pow(b, n - 1));
    }
  }

  lemma MulOrderly(a: nat, b: nat, c: nat, d: nat)
    requires a <= b && c <= d
    ensures a * c <= b * d
  {
    assert b * d - a * c == (b - a) * d + a * (d - c);
    assert (b - a) * d >= 0 && a * (d - c) >= 0;
  }

  lemma Rearrange(a: nat, b: nat, c: nat, d: nat)
    ensures (a * b) * (c * d) == (a * c) * (b * d)
  {
    assert (a * b) * (c * d) == a * (b * (c * d));
    assert b * (c * d) == c * (b * d);
    assert a * (c * (b * d)) == (a * c) * (b * d);
  }

  lemma SquareBound(x: nat, m: nat, p: nat, c: nat, k: nat, q: nat)
    requires x <= m * p && c * (m * m) <= k * q
    ensures c * (x * x) <= k * (p * p * q)
  {
    MulOrderly(x, m * p, x, m * p);
    Rearrange(m, p, m, p);
    MulOrderly(c, c, x * x, (m * m) * (p * p));
    assert c * ((m * m) * (p * p)) == c * (m * m) * (p * p);
    MulOrderly(c * (m * m), k * q, p * p, p * p);
    assert k * q * (p * p) == k * (p * p * q);
  }

  /**
   From `10^n <= m * 2^j` to twice the exponent, or one more than twice, with the new
   mantissa `k` rounded up.
   */
  lemma Next(n: nat, m: nat, j: nat, odd: bool, k: nat, t: nat, q: nat)
    requires Pow(10, n) <= m * Pow(2, j) && q == Pow(2, t)
    requires (if odd then 10 else 1) * (m * m) <= k * q
    ensures Pow(10, if odd then 2 * n + 1 else 2 * n) <= k * Pow(2, 2 * j + t)
  {
    PowAdd(10, n, n);
    PowAdd(2, j, j);
    PowAdd(2, 2 * j, t);
    SquareBound(Pow(10, n), m, Pow(2, j), if odd then 10 else 1, k, q);
  }

  lemma SmallPowers()
    ensures Pow(2, 20) == 0x10_0000 && Pow(2, 30) == 0x4000_0000 && Pow(2, 40) == 0x100_0000_0000
    ensures Pow(2, 42) == 0x400_0000_0000 && Pow(2, 43) == 0x800_0000_0000 && Pow(2, 44) == 0x1000_0000_0000
    ensures Pow(10, 9) == 1_000_000_000 && Pow(10, 10) == 10_000_000_000 && Pow(2, 0) == 1
  {
    assert Pow(2, 2) == 4 && Pow(2, 3) == 8 && Pow(2, 4) == 16 && Pow(2, 5) == 32 && Pow(10, 5) == 100_000;
    PowAdd(2, 5, 5);
    PowAdd(2, 10, 10);
    PowAdd(2, 20, 10);
    PowAdd(2, 20, 20);
    PowAdd(2, 40, 2);
    PowAdd(2, 40, 3);
    PowAdd(2, 40, 4);
    assert Pow(10, 4) == 10_000;
    PowAdd(10, 5, 4);
    PowAdd(10, 5, 5);
  }

  lemma Ten351()
    ensures Pow(10, 351) <= Pow(2, 1166)
  {
    SmallPowers();
    Next(10, 10_000_000_000, 0, true, 931_322_574_616, 30, 0x4000_0000);
    Next(21, 931_322_574_616, 30, true, 986_076_131_528, 43, 0x800_0000_0000);
    Next(43, 986_076_131_528, 103, true, 552_714_787_528, 44, 0x1000_0000_0000);
    Next(87, 552_714_787_528, 250, true, 694_612_109_220, 42, 0x400_0000_0000);
    Next(175, 694_612_109_220, 542, true, 1_097_046_111_398, 42, 0x400_0000_0000);
    PowAdd(2, 40, 1126);
  }

  lemma Ten149()
    ensures Pow(10, 149) <= Pow(2, 495)
  {
    SmallPowers();
    Next(9, 1_000_000_000, 0, false, 953_674_316_407, 20, 0x10_0000);
    Next(18, 953_674_316_407, 20, true, 1_033_975_765_693, 43, 0x800_0000_0000);
    Next(37, 1_033_975_765_693, 83, false, 972_346_137_170, 40, 0x100_0000_0000);
    Next(74, 972_346_137_170, 206, true, 1_074_860_177_221, 43, 0x800_0000_0000);
    PowAdd(2, 40, 455);
  }

  lemma Compose(a: nat, b: nat, k: nat, c: nat, d: nat)
    requires Pow(10, a) <= Pow(2, b) && Pow(10, c) <= Pow(2, d)
    ensures Pow(10, a * k + c) <= Pow(2, b * k + d)
  {
    PowMul(10, a, k);
    PowMul(2, b, k);
    PowOrder(Pow(10, a), Pow(2, b), k);
    PowAdd(10, a * k, c);
    PowAdd(2, b * k, d);
    MulOrderly(Pow(10, a * k), Pow(2, b * k), Pow(10, c), Pow(2, d));
  }

  /** 131072 = 351 * 373 + 149, and 435413 = 1166 * 373 + 495. */
  lemma {:induction false} TensBelowTwos(tens: nat, twos: nat)
    requires tens == MAX_INTEGER_DIGITS && twos == BasedDigitLimit(2)
    ensures Pow(10, tens) <= Pow(2, twos)
  {
    Ten351();
    Ten149();
    Compose(351, 1166, 373, 149, 495);
  }

  /**
   A numeral of a based integer that is longer than its limit, without leading zeros, has
   a value of at least `10^131072`: the length check never refuses a number that fits.
   */
  lemma {:induction false} LongerIsTooLarge(base: nat, digits: string, tens: nat)
    requires base == 2 || base == 8 || base == 16
    requires AllDigits(base, digits) && |digits| > BasedDigitLimit(base) && DigitOf(digits[0]) > 0
    requires tens <= MAX_INTEGER_DIGITS
    ensures Pow(10, tens) <= Value(base, digits)
  {
    ValueAtLeast(base, digits);
    var limit, twos, most := BasedDigitLimit(base), BasedDigitLimit(2), MAX_INTEGER_DIGITS;
    PowMonotone(base, limit, |digits| - 1);
    TensBelowTwos(most, twos);
    PowMonotone(10, tens, most);
    BaseAsTwos(base, limit, twos);
  }

  lemma {:induction false} BaseAsTwos(base: nat, limit: nat, twos: nat)
    requires base == 2 || base == 8 || base == 16
    requires limit == BasedDigitLimit(base) && twos == BasedDigitLimit(2)
    ensures Pow(2, twos) <= Pow(base, limit)
  {
    var bits := if base == 2 then 1 else if base == 8 then 3 else 4;
    SmallBases(base, bits);
    PowMul(2, bits, limit);
    PowMonotone(2, twos, bits * limit);
  }

  lemma SmallBases(base: nat, bits: nat)
    requires (base, bits) == (2, 1) || (base, bits) == (8, 3) || (base, bits) == (16, 4)
    ensures Pow(2, bits) == base
  {
    assert Pow(2, 1) == 2 && Pow(2, 3) == 8 && Pow(2, 4) == 16;
  }
}
