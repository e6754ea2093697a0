/** Numerals: powers, the value of a digit string in a base, and decimal rendering. */
module Digits {
  function Pow(b: nat, n: nat): (p: nat)
    ensures b > 0 ==> p > 0
  {
    if n == 0 then 1 else b * Pow(b, n - 1)
  }

  lemma Reassociate(b: nat, p: nat, q: nat)
    ensures b * (p * q) == b * p * q
  {}

  lemma {:induction false} PowAdd(b: nat, m: nat, n: nat)
    ensures Pow(b, m + n) == Pow(b, m) * Pow(b, n)
  {
    if m > 0 {
      PowAdd(b, m - 1, n);
      var p, q, r := Pow(b, m - 1), Pow(b, n), Pow(b, m - 1 + n);
      assert Pow(b, m + n) == b * r;
      assert Pow(b, m) == b * p;
      Reassociate(b, p, q);
    }
  }

  lemma {:induction false} PowMonotone(b: nat, m: nat, n: nat)
    requires b > 0 && m <= n
    ensures Pow(b, m) <= Pow(b, n)
    decreases n
  {
    if m < n {
      PowMonotone(b, m, n - 1);
      assert b * Pow(b, n - 1) >= Pow(b, n - 1);
    }
  }

  /** The digit a character stands for; 16 or more when it is no digit of any base here. */
  function DigitOf(c: char): nat {
    if '0' <= c <= '9' then c as int - '0' as int
    else if 'a' <= c <= 'f' then 10 + (c as int - 'a' as int)
    else if 'A' <= c <= 'F' then 10 + (c as int - 'A' as int)
    else 16
  }

  predicate AllDigits(base: nat, s: string) {
    forall i | 0 <= i < |s| :: DigitOf(s[i]) < base
  }

  function Value(base: nat, s: string): nat {
    if |s| == 0 then 0 else Value(base, s[..|s| - 1]) * base + DigitOf(s[|s| - 1])
  }

  lemma ShiftIn(v: nat, p: nat, w: nat, base: nat)
    ensures (v * p + w) * base == v * (base * p) + w * base
  {
    assert v * (base * p) == v * p * base;
  }

  lemma {:induction false} ValueConcat(base: nat, a: string, b: string)
    ensures Value(base, a + b) == Value(base, a) * Pow(base, |b|) + Value(base, b)
  {
    if |b| == 0 {
      assert a + b == a;
    } else {
      var front := b[..|b| - 1];
      assert (a + b)[..|a + b| - 1] == a + front;
      ValueConcat(base, a, front);
      ShiftIn(Value(base, a), Pow(base, |front|), Value(base, front), base);
    }
  }

  lemma ScaleUp(v: nat, p: nat, base: nat)
    requires v <= p
    ensures v * base <= base * p
  {}

  lemma BoundStep(v: nat, p: nat, d: nat, base: nat)
    requires v < p && d < base
    ensures v * base + d < base * p
  {
    ScaleUp(v + 1, p, base);
    assert (v + 1) * base == v * base + base;
  }

  lemma {:induction false} ValueBound(base: nat, s: string)
    requires AllDigits(base, s)
    ensures Value(base, s) < Pow(base, |s|)
  {
    if |s| > 0 {
      var front := s[..|s| - 1];
      ValueBound(base, front);
      BoundStep(Value(base, front), Pow(base, |front|), DigitOf(s[|s| - 1]), base);
    }
  }

  lemma AtLeastStep(v: nat, p: nat, d: nat, base: nat)
    requires p <= v
    ensures base * p <= v * base + d
  {
    assert v * base == base * v;
    assert base * (v - p) >= 0;
  }

  /** A digit string without a leading zero is at least the power of its length. */
  lemma {:induction false} ValueAtLeast(base: nat, s: string)
    requires |s| > 0 && DigitOf(s[0]) > 0 && AllDigits(base, s)
    ensures Pow(base, |s| - 1) <= Value(base, s)
  {
    if |s| > 1 {
      var front := s[..|s| - 1];
      ValueAtLeast(base, front);
      var p, v := Pow(base, |front| - 1), Value(base, front);
      assert Pow(base, |front|) == base * p;
      assert Value(base, s) == v * base + DigitOf(s[|s| - 1]);
      AtLeastStep(v, p, DigitOf(s[|s| - 1]), base);
    } else {
      assert s[..0] == "";
    }
  }

  lemma {:induction false} ValueZeros(base: nat, s: string)
    requires forall i | 0 <= i < |s| :: s[i] == '0'
    ensures Value(base, s) == 0
  {
    if |s| > 0 { ValueZeros(base, s[..|s| - 1]); }
  }

  function Zeros(n: nat): (s: string)
    ensures |s| == n && forall i | 0 <= i < n :: s[i] == '0'
  {
    seq(n, _ => '0')
  }

  lemma SameDigits(u: nat, d: nat, v: nat, e: nat)
    requires d < 10 && e < 10 && u * 10 + d == v * 10 + e
    ensures u == v && d == e
  {}

  lemma {:induction false} ValueSplits(s: string)
    requires |s| > 0 && IsDecimal(s)
    ensures Value(10, s) == Value(10, s[..|s| - 1]) * 10 + DigitOf(s[|s| - 1]) && DigitOf(s[|s| - 1]) < 10
    ensures s == s[..|s| - 1] + [s[|s| - 1]] && IsDecimal(s[..|s| - 1])
  {}

  /** Two decimal numerals of equal length and value are the same characters. */
  lemma {:induction false} ValueInjective(s: string, t: string)
    requires |s| == |t| && IsDecimal(s) && IsDecimal(t)
    requires Value(10, s) == Value(10, t)
    ensures s == t
  {
    if |s| > 0 {
      var last := |s| - 1;
      ValueSplits(s);
      ValueSplits(t);
      SameDigits(Value(10, s[..last]), DigitOf(s[last]), Value(10, t[..last]), DigitOf(t[last]));
      ValueInjective(s[..last], t[..last]);
      assert '0' <= s[last] <= '9' && '0' <= t[last] <= '9';
    }
  }

  predicate IsDecimal(s: string) {
    forall i | 0 <= i < |s| :: '0' <= s[i] <= '9'
  }

  function DigitChar(d: nat): (c: char)
    requires d < 10
    ensures '0' <= c <= '9' && DigitOf(c) == d
  {
    ('0' as int + d) as char
  }

  /** `string_of_int` and `string_of_big_int` on non-negative numbers. */
  function ToDecimal(n: nat): (s: string)
    ensures |s| > 0 && IsDecimal(s)
    ensures n > 0 ==> s[0] != '0'
  {
    if n < 10 then [DigitChar(n)] else ToDecimal(n / 10) + [DigitChar(n % 10)]
  }

  lemma {:induction false} ToDecimalValue(n: nat)
    ensures Value(10, ToDecimal(n)) == n
  {
    if n < 10 {
      assert ToDecimal(n)[..0] == "";
    } else {
      ToDecimalValue(n / 10);
      assert ToDecimal(n)[..|ToDecimal(n)| - 1] == ToDecimal(n / 10);
    }
  }

  /** A decimal numeral without a superfluous leading zero is the rendering of its value. */
  lemma {:induction false} ToDecimalUnique(s: string)
    requires |s| > 0 && IsDecimal(s) && (|s| > 1 ==> s[0] != '0')
    ensures ToDecimal(Value(10, s)) == s
  {
    var v := Value(10, s);
    if |s| == 1 {
      assert s[..0] == "" && Value(10, s[..0]) == 0;
      assert v == DigitOf(s[0]);
      assert s == [DigitChar(v)];
    } else {
      var front := s[..|s| - 1];
      ToDecimalUnique(front);
      ValueAtLeast(10, front);
      assert v / 10 == Value(10, front) && v % 10 == DigitOf(s[|s| - 1]);
      assert Value(10, front) > 0;
      assert s == front + [s[|s| - 1]];
      assert DigitChar(v % 10) == s[|s| - 1];
    }
  }

  /** The number of decimal digits of `n` is at most `k` exactly when `n < 10^k`. */
  lemma ToDecimalLength(n: nat, k: nat)
    requires k > 0
    ensures |ToDecimal(n)| <= k <==> n < Pow(10, k)
  {
    var s := ToDecimal(n);
    ToDecimalValue(n);
    ValueBound(10, s);
    if |s| <= k {
      PowMonotone(10, |s|, k);
    } else {
      if n > 0 { ValueAtLeast(10, s); PowMonotone(10, k, |s| - 1); }
    }
  }

  function WithoutUnderscores(s: string): string {
    if |s| == 0 then "" else (if s[0] == '_' then "" else [s[0]]) + WithoutUnderscores(s[1..])
  }

  lemma {:induction false} UnderscoresConcat(a: string, b: string)
    ensures WithoutUnderscores(a + b) == WithoutUnderscores(a) + WithoutUnderscores(b)
  {
    if |a| == 0 {
      assert a + b == b;
    } else {
      assert (a + b)[1..] == a[1..] + b;
      UnderscoresConcat(a[1..], b);
    }
  }

  lemma {:induction false} DigitsRemain(s: string)
    requires forall i | 0 <= i < |s| :: s[i] == '_' || '0' <= s[i] <= '9'
    ensures IsDecimal(WithoutUnderscores(s))
    ensures |WithoutUnderscores(s)| <= |s|
  {
    if |s| > 0 { DigitsRemain(s[1..]); }
  }

  lemma ValuePrefix(base: nat, s: string, i: nat)
    requires i <= |s| && base > 0
    ensures Value(base, s[..i]) <= Value(base, s)
  {
    assert s == s[..i] + s[i..];
    ValueConcat(base, s[..i], s[i..]);
    MulGrows(Value(base, s[..i]), Pow(base, |s[i..]|));
  }

  lemma MulGrows(v: nat, p: nat)
    requires p > 0
    ensures v <= v * p
  {
    assert v * (p - 1) >= 0;
  }

  lemma {:induction false} NoUnderscores(s: string)
    requires IsDecimal(s)
    ensures WithoutUnderscores(s) == s
  {
    if |s| > 0 {
      NoUnderscores(s[1..]);
      assert s == [s[0]] + s[1..];
    }
  }
}
