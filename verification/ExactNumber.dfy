/**
 Numeric scalars of lib/exact_yaml.ml: which lexemes are numbers, what they denote, and
 their canonical decimal form.
 */
module ExactNumber {
  import opened Wrappers
  import opened Digits
  import opened Decimals
  import opened DigitLimits

  datatype NumericError = NonFinite | OutOfRange
  datatype Canonical = Ok(text: string) | Error(error: NumericError)

  // ----- Lexemes -----

  function LowerChar(c: char): char {
    if 'A' <= c <= 'Z' then (c as int + 32) as char else c
  }

  function Lower(s: string): string {
    seq(|s|, i requires 0 <= i < |s| => LowerChar(s[i]))
  }

  predicate IsNegative(value: string) {
    |value| > 0 && value[0] == '-'
  }

  function Unsigned(value: string): string {
    if |value| > 0 && (value[0] == '+' || value[0] == '-') then value[1..] else value
  }

  predicate BasedDigits(base: nat, value: string) {
    && |value| > 0 && value[0] != '_' && value[|value| - 1] != '_'
    && forall i | 0 <= i < |value| :: value[i] == '_' || DigitOf(value[i]) < base
  }

  predicate DecimalInteger(value: string) {
    BasedDigits(10, Unsigned(value))
  }

  /** The index of the first character of `value` that is one of `characters`. */
  function First(value: string, characters: string): (i: nat)
    ensures i <= |value|
    ensures forall j | 0 <= j < i :: value[j] !in characters
    ensures i < |value| ==> value[i] in characters
  {
    if |value| == 0 || value[0] in characters then 0
    else
      var i := 1 + First(value[1..], characters);
      assert forall j | 1 <= j < i :: value[j] == value[1..][j - 1];
      i
  }

  /** The two sides of the only character of `value` that is one of `characters`. */
  function SplitOnce(value: string, characters: string): Option<(string, string)> {
    var i := First(value, characters);
    if i == |value| || First(value[i + 1..], characters) < |value| - i - 1 then None
    else Some((value[..i], value[i + 1..]))
  }

  const NON_FINITE := [".inf", "+.inf", "-.inf", ".nan"]

  predicate IsNonFinite(value: string) {
    Lower(value) in NON_FINITE
  }

  /** Mantissa and exponent; without an exponent mark the exponent is zero. */
  function Parts(value: string): (string, string) {
    match SplitOnce(Unsigned(value), "eE")
    case Some(pair) => pair
    case None => (Unsigned(value), "0")
  }

  /** The digits of a mantissa before and after its point. */
  function Sides(mantissa: string): (string, string) {
    match SplitOnce(mantissa, ".")
    case Some(pair) => pair
    case None => (mantissa, "")
  }

  predicate DigitsOrEmpty(side: string) {
    side == "" || BasedDigits(10, side)
  }

  /** `float_lexeme` for finite numbers, and the decimal integers a float tag also admits. */
  predicate FiniteLexeme(value: string) {
    var (mantissa, exponent) := Parts(value);
    var (left, right) := Sides(mantissa);
    && BasedDigits(10, Unsigned(exponent))
    && DigitsOrEmpty(left) && DigitsOrEmpty(right) && (left != "" || right != "")
  }

  predicate MantissaValid(mantissa: string, hasExponent: bool) {
    match SplitOnce(mantissa, ".")
    case Some((left, right)) => DigitsOrEmpty(left) && DigitsOrEmpty(right) && (left != "" || right != "")
    case None => hasExponent && BasedDigits(10, mantissa)
  }

  /** A mantissa with a point, or an exponent, or both. */
  predicate NumberValid(body: string) {
    match SplitOnce(body, "eE")
    case Some((mantissa, exponent)) => BasedDigits(10, Unsigned(exponent)) && MantissaValid(mantissa, true)
    case None => MantissaValid(body, false)
  }

  predicate PointOrExponent(value: string) {
    NumberValid(Unsigned(value))
  }

  /** `float_lexeme`. */
  predicate FloatLexeme(value: string) {
    IsNonFinite(value) || PointOrExponent(Lower(value))
  }

  /** Lower-casing moves no character that the splitting looks for. */
  lemma {:induction false} LowerFirst(s: string, characters: string)
    requires characters == "eE" || characters == "."
    ensures First(Lower(s), characters) == First(s, characters)
  {
    if |s| > 0 {
      assert LowerChar(s[0]) in characters <==> s[0] in characters;
      assert Lower(s)[1..] == Lower(s[1..]);
      LowerFirst(s[1..], characters);
    }
  }

  lemma LowerSlice(s: string, i: nat)
    requires i < |s|
    ensures Lower(s)[..i] == Lower(s[..i]) && Lower(s)[i + 1..] == Lower(s[i + 1..])
  {}

  lemma LowerSplit(s: string, characters: string)
    requires characters == "eE" || characters == "."
    ensures SplitOnce(Lower(s), characters) ==
              match SplitOnce(s, characters)
              case None => None
              case Some((l, r)) => Some((Lower(l), Lower(r)))
  {
    LowerFirst(s, characters);
    var i := First(s, characters);
    if i < |s| {
      LowerFirst(s[i + 1..], characters);
      LowerSlice(s, i);
    }
  }

  lemma LowerDigits(s: string)
    ensures BasedDigits(10, Lower(s)) <==> BasedDigits(10, s)
    ensures Unsigned(Lower(s)) == Lower(Unsigned(s))
  {
    assert forall c :: (LowerChar(c) == '_' <==> c == '_') && (DigitOf(LowerChar(c)) < 10 <==> DigitOf(c) < 10);
    assert forall i | 0 <= i < |s| :: Lower(s)[i] == LowerChar(s[i]);
    if BasedDigits(10, Lower(s)) {
      assert forall i | 0 <= i < |s| :: Lower(s)[i] == '_' || DigitOf(Lower(s)[i]) < 10;
    }
    assert Unsigned(Lower(s)) == Lower(Unsigned(s));
  }

  lemma MantissaCase(mantissa: string, hasExponent: bool)
    ensures MantissaValid(Lower(mantissa), hasExponent) <==> MantissaValid(mantissa, hasExponent)
  {
    LowerDigits(mantissa);
    LowerSplit(mantissa, ".");
    var (left, right) := Sides(mantissa);
    LowerDigits(left);
    LowerDigits(right);
  }

  lemma NumberCase(body: string)
    ensures NumberValid(Lower(body)) <==> NumberValid(body)
  {
    LowerSplit(body, "eE");
    match SplitOnce(body, "eE")
    case Some((mantissa, exponent)) =>
      LowerDigits(exponent);
      LowerDigits(Unsigned(exponent));
      MantissaCase(mantissa, true);
    case None =>
      MantissaCase(body, false);
  }

  lemma CaseIrrelevant(value: string)
    ensures PointOrExponent(Lower(value)) <==> PointOrExponent(value)
  {
    LowerDigits(value);
    NumberCase(Unsigned(value));
  }

  lemma FiniteForms(value: string)
    ensures FiniteLexeme(value) <==> PointOrExponent(value) || DecimalInteger(value)
  {
    PlainInteger(value);
    assert BasedDigits(10, Unsigned("0"));
  }

  /** A float tag admits the finite lexemes, the non-finite ones, and nothing else. */
  lemma FloatTagAdmits(value: string)
    ensures FloatLexeme(value) || DecimalInteger(value) <==> FiniteLexeme(value) || IsNonFinite(value)
  {
    CaseIrrelevant(value);
    FiniteForms(value);
  }

  /** An integer has no point and no exponent mark. */
  lemma PlainInteger(value: string)
    ensures DecimalInteger(value) ==>
              SplitOnce(Unsigned(value), "eE").None? && SplitOnce(Unsigned(value), ".").None?
  {
    if DecimalInteger(value) {
      SplitNone(Unsigned(value), "eE");
      SplitNone(Unsigned(value), ".");
    }
  }

  // ----- What a lexeme denotes -----

  function Number(digits: string): nat {
    Value(10, WithoutUnderscores(digits))
  }

  function Exponent(text: string): int {
    Signed(IsNegative(text), Number(Unsigned(text)))
  }

  /** All digits of the mantissa, and how many of them follow the point. */
  function MantissaDigits(value: string): (string, nat) {
    var (left, right) := Sides(Parts(value).0);
    (WithoutUnderscores(left) + WithoutUnderscores(right), |WithoutUnderscores(right)|)
  }

  /** Digits of which the last `fraction` follow the point, and an exponent lexeme. */
  function Reading(negative: bool, digits: string, exponent: string, fraction: nat): real {
    Scaled(Signed(negative, Value(10, digits)), Exponent(exponent) - fraction)
  }

  /** The real number a decimal lexeme stands for. */
  function Denote(value: string): real {
    var (digits, fraction) := MantissaDigits(value);
    Reading(IsNegative(value), digits, Parts(value).1, fraction)
  }

  // ----- Loops over lexemes -----

  /** `without_underscores`. */
  method RemoveUnderscores(value: string) returns (r: string)
    ensures r == WithoutUnderscores(value)
  {
    r := "";
    for i := 0 to |value|
      invariant r == WithoutUnderscores(value[..i])
    {
      assert value[..i + 1] == value[..i] + [value[i]];
      UnderscoresConcat(value[..i], [value[i]]);
      if value[i] != '_' { r := r + [value[i]]; }
    }
    assert value[..|value|] == value;
  }

  function LeadingZeros(s: string): (n: nat)
    ensures n <= |s| && (forall i | 0 <= i < n :: s[i] == '0') && (n < |s| ==> s[n] != '0')
  {
    if |s| == 0 || s[0] != '0' then 0
    else
      var n := 1 + LeadingZeros(s[1..]);
      assert forall i | 1 <= i < n :: s[i] == s[1..][i - 1];
      n
  }

  /** `strip_leading_zeroes`: the same number without a superfluous zero in front. */
  method StripLeadingZeroes(value: string) returns (r: string)
    ensures r == if LeadingZeros(value) == |value| then "0" else value[LeadingZeros(value)..]
  {
    var index := 0;
    while index < |value| && value[index] == '0'
      invariant index <= |value| && forall i | 0 <= i < index :: value[i] == '0'
    {
      index := index + 1;
    }
    assert index == LeadingZeros(value);
    r := if index == |value| then "0" else value[index..];
  }

  /** `split_once`, with its two flags. */
  method SplitOnceLoop(value: string, characters: string) returns (r: Option<(string, string)>)
    ensures r == SplitOnce(value, characters)
  {
    var found: Option<nat>, multiple := None, false;
    var first := First(value, characters);
    for index := 0 to |value|
      invariant found == if first < index then Some(first) else None
      invariant multiple <==> exists j :: first < j < index && value[j] in characters
    {
      if value[index] in characters {
        match found
        case None => found := Some(index);
        case Some(_) => multiple := true;
      }
    }
    var rest := if first < |value| then value[first + 1..] else "";
    var second := First(rest, characters);
    if second < |rest| { assert value[first + 1 + second] == rest[second]; }
    assert multiple <==> second < |rest| by {
      if multiple {
        var j :| first < j < |value| && value[j] in characters;
        assert rest[j - first - 1] == value[j];
      }
    }
    r := if found.Some? && !multiple then Some((value[..found.value], value[found.value + 1..])) else None;
  }

  lemma NumberSnoc(digits: string, i: nat)
    requires i < |digits|
    ensures Number(digits[..i + 1])
         == if digits[i] == '_' then Number(digits[..i]) else Number(digits[..i]) * 10 + DigitOf(digits[i])
    ensures Number(digits[..i + 1]) <= Number(digits)
  {
    var before, c := WithoutUnderscores(digits[..i]), digits[i];
    assert digits[..i + 1] == digits[..i] + [c];
    UnderscoresConcat(digits[..i], [c]);
    assert WithoutUnderscores([c]) == if c == '_' then "" else [c];
    assert (before + [c])[..|before|] == before && before + "" == before;
    var upTo := WithoutUnderscores(digits[..i + 1]);
    assert digits == digits[..i + 1] + digits[i + 1..];
    UnderscoresConcat(digits[..i + 1], digits[i + 1..]);
    ValuePrefix(10, WithoutUnderscores(digits), |upTo|);
    assert WithoutUnderscores(digits)[..|upTo|] == upTo;
  }

  /** `bounded_exponent`: the exponent, unless its magnitude exceeds the limit. */
  method BoundedExponent(limit: nat, value: string) returns (r: Option<int>)
    requires limit >= 9 && BasedDigits(10, Unsigned(value))
    ensures r == if Number(Unsigned(value)) > limit then None else Some(Exponent(value))
  {
    var digits := Unsigned(value);
    var magnitude, overflow := 0, false;
    for i := 0 to |digits|
      invariant 0 <= magnitude
      invariant if overflow then Number(digits) > limit else magnitude == Number(digits[..i]) <= limit
    {
      NumberSnoc(digits, i);
      if digits[i] != '_' && !overflow {
        var digit := digits[i] as int - '0' as int;
        if magnitude > (limit - digit) / 10 {
          overflow := true;
        } else {
          magnitude := magnitude * 10 + digit;
        }
      }
    }
    assert digits[..|digits|] == digits;
    r := if overflow then None else Some(Signed(IsNegative(value), magnitude));
  }

  // ----- Canonical text -----

  /** A sign, an integer part, and a fraction that is left out with its point when empty. */
  function Render(negative: bool, whole: string, fraction: string): string {
    (if negative then "-" else "") + whole + (if fraction == "" then "" else "." + fraction)
  }

  /** No superfluous zero on either side, and no negative zero. */
  predicate CanonicalParts(negative: bool, whole: string, fraction: string) {
    && IsDecimal(whole) && |whole| > 0 && (|whole| > 1 ==> whole[0] != '0')
    && IsDecimal(fraction) && (|fraction| > 0 ==> fraction[|fraction| - 1] != '0')
    && (negative ==> whole != "0" || fraction != "")
  }

  ghost predicate IsCanonical(text: string) {
    exists negative, whole, fraction ::
      text == Render(negative, whole, fraction) && CanonicalParts(negative, whole, fraction)
  }

  lemma FirstNone(value: string, characters: string)
    requires forall i | 0 <= i < |value| :: value[i] !in characters
    ensures First(value, characters) == |value|
  {}

  lemma SplitNone(value: string, characters: string)
    requires forall i | 0 <= i < |value| :: value[i] !in characters
    ensures SplitOnce(value, characters) == None
  {
    FirstNone(value, characters);
  }

  lemma SplitAt(left: string, c: char, right: string)
    requires forall i | 0 <= i < |left| :: left[i] != c
    requires forall i | 0 <= i < |right| :: right[i] != c
    ensures SplitOnce(left + [c] + right, [c]) == Some((left, right))
  {
    var value := left + [c] + right;
    assert value[|left|] == c;
    var i := First(value, [c]);
    assert forall k | 0 <= k < |left| :: value[k] == left[k];
    assert i == |left|;
    assert value[i + 1..] == right && value[..i] == left;
    FirstNone(right, [c]);
  }

  lemma RenderSides(whole: string, fraction: string)
    requires IsDecimal(whole) && IsDecimal(fraction)
    ensures Sides(Render(false, whole, fraction)) == (whole, fraction)
  {
    if fraction == "" {
      assert Render(false, whole, fraction) == whole;
      SplitNone(whole, ".");
    } else {
      assert Render(false, whole, fraction) == whole + ['.'] + fraction;
      SplitAt(whole, '.', fraction);
    }
  }

  /** Canonical text read as a lexeme. */
  lemma RenderDenotes(negative: bool, whole: string, fraction: string)
    requires IsDecimal(whole) && |whole| > 0 && IsDecimal(fraction)
    ensures Denote(Render(negative, whole, fraction))
         == Scaled(Signed(negative, Value(10, whole + fraction)), 0 - |fraction|)
  {
    RenderReads(negative, whole, fraction);
    RenderSides(whole, fraction);
    NoUnderscores(whole);
    NoUnderscores(fraction);
    DenoteOfPlain(negative, Render(negative, whole, fraction), Render(false, whole, fraction), whole, fraction,
                  whole + fraction, |fraction|);
  }

  lemma DenoteOfPlain(negative: bool, text: string, body: string, whole: string, fraction: string, digits: string, n: nat)
    requires IsNegative(text) == negative && Parts(text) == (body, "0") && Sides(body) == (whole, fraction)
    requires digits == WithoutUnderscores(whole) + WithoutUnderscores(fraction) && n == |WithoutUnderscores(fraction)|
    ensures Denote(text) == Scaled(Signed(negative, Value(10, digits)), 0 - n)
  {
    DenoteOf(text, body, "0", whole, fraction, digits, n);
    ReadingPlain(negative, digits, n);
  }

  lemma RenderReads(negative: bool, whole: string, fraction: string)
    requires IsDecimal(whole) && |whole| > 0 && IsDecimal(fraction)
    ensures var text := Render(negative, whole, fraction);
            IsNegative(text) == negative && Parts(text) == (Render(false, whole, fraction), "0")
  {
    var text := Render(negative, whole, fraction);
    var body := Render(false, whole, fraction);
    assert body[0] == whole[0];
    assert text == if negative then ['-'] + body else body;
    assert Unsigned(text) == body;
    SplitNone(body, "eE");
  }

  lemma ZeroExponent()
    ensures Exponent("0") == 0
  {
    NoUnderscores("0");
    assert "0"[..0] == "";
  }

  // ----- One number, one text -----

  lemma DigitsRead(s: string)
    requires IsDecimal(s)
    ensures AllDigits(10, s)
  {}

  /** The last digit of a number is the last character of its numeral. */
  lemma LastDigit(s: string)
    requires IsDecimal(s) && |s| > 0
    ensures Value(10, s) % 10 == DigitOf(s[|s| - 1])
  {
    assert Value(10, s) == Value(10, s[..|s| - 1]) * 10 + DigitOf(s[|s| - 1]);
  }

  /** With the fraction fixed, the value fixes the length of the integer part. */
  lemma {:induction false} NoLonger(v: string, x: string, w: string, y: string)
    requires CanonicalParts(false, v, x) && CanonicalParts(false, w, y) && |x| == |y|
    requires Value(10, v + x) == Value(10, w + y)
    ensures |v| <= |w|
  {
    if |v| > |w| {
      var s, t := v + x, w + y;
      assert s[0] == v[0];
      DigitsRead(s);
      DigitsRead(t);
      ValueAtLeast(10, s);
      ValueBound(10, t);
      PowReflects(|s| - 1, |t|);
    }
  }

  lemma NoFiner(n: bool, v: string, x: string, m: bool, w: string, y: string)
    requires CanonicalParts(n, v, x) && CanonicalParts(m, w, y)
    requires Scaled(Signed(n, Value(10, v + x)), 0 - |x|) == Scaled(Signed(m, Value(10, w + y)), 0 - |y|)
    ensures |y| <= |x|
  {
    if |y| > |x| {
      var k := |y| - |x|;
      SameDecimal(Signed(m, Value(10, w + y)), 0 - |y|, Signed(n, Value(10, v + x)), 0 - |x|);
      NotAMultiple(Signed(m, Value(10, w + y)), Signed(n, Value(10, v + x)), k);
      SignedLastDigit(m, Value(10, w + y));
      LastDigit(w + y);
    }
  }

  lemma PartsUnique(n: bool, v: string, x: string, m: bool, w: string, y: string)
    requires CanonicalParts(n, v, x) && CanonicalParts(m, w, y)
    requires Scaled(Signed(n, Value(10, v + x)), 0 - |x|) == Scaled(Signed(m, Value(10, w + y)), 0 - |y|)
    ensures n == m && v == w && x == y
  {
    NoFiner(n, v, x, m, w, y);
    NoFiner(m, w, y, n, v, x);
    ScaledInjective(Signed(n, Value(10, v + x)), Signed(m, Value(10, w + y)), 0 - |x|);
    SameValueSameParts(v, x, w, y);
    if n != m {
      assert Value(10, v + x) == 0;
      ZeroParts(v, x);
    }
  }

  lemma SameValueSameParts(v: string, x: string, w: string, y: string)
    requires CanonicalParts(false, v, x) && CanonicalParts(false, w, y) && |x| == |y|
    requires Value(10, v + x) == Value(10, w + y)
    ensures v == w && x == y
  {
    NoLonger(v, x, w, y);
    NoLonger(w, y, v, x);
    ValueInjective(v + x, w + y);
    assert v == (v + x)[..|v|] && w == (w + y)[..|w|];
    assert x == (v + x)[|v|..] && y == (w + y)[|w|..];
  }

  /** Only "0" is canonical for zero, so zero carries no sign. */
  lemma ZeroParts(v: string, x: string)
    requires CanonicalParts(false, v, x) && Value(10, v + x) == 0
    ensures v == "0" && x == ""
  {
    if |x| > 0 {
      LastDigit(v + x);
    } else {
      assert v + x == v;
      DigitsRead(v);
      if v[0] != '0' { ValueAtLeast(10, v); }
      assert v == ['0'];
    }
  }

  /**
   Canonical texts are equal exactly when the numbers are. Integer and float lexemes
   share the form, so their canonical texts may be compared as strings.
   */
  lemma CanonicalTextIsUnique(s: string, t: string)
    requires IsCanonical(s) && IsCanonical(t)
    ensures s == t <==> Denote(s) == Denote(t)
  {
    var n, v, x :| s == Render(n, v, x) && CanonicalParts(n, v, x);
    var m, w, y :| t == Render(m, w, y) && CanonicalParts(m, w, y);
    RenderDenotes(n, v, x);
    RenderDenotes(m, w, y);
    if Denote(s) == Denote(t) { PartsUnique(n, v, x, m, w, y); }
  }

  // ----- canonical_float -----

  lemma ZeroPadded(head: string, middle: string, tail: string)
    requires forall i | 0 <= i < |head| :: head[i] == '0'
    requires forall i | 0 <= i < |tail| :: tail[i] == '0'
    ensures Value(10, head + middle + tail) == Value(10, middle) * Pow(10, |tail|)
  {
    ValueZeros(10, head);
    ValueZeros(10, tail);
    ValueConcat(10, head, middle);
    ValueConcat(10, head + middle, tail);
    assert 0 * Pow(10, |middle|) == 0;
  }

  lemma SignificantDigits(s: string)
    requires IsDecimal(s) && |s| > 0 && s[0] != '0' && s[|s| - 1] != '0'
    ensures Significant(Value(10, s), |s|)
  {
    DigitsRead(s);
    ValueAtLeast(10, s);
    ValueBound(10, s);
    LastDigit(s);
  }

  /** Where the decimal point goes: digits before it and after it. */
  function Place(digits: string, power: int): (string, string) {
    if power >= 0 then (digits + Zeros(power), "")
    else if |digits| + power > 0 then (digits[..|digits| + power], digits[|digits| + power..])
    else ("0", Zeros(-(|digits| + power)) + digits)
  }

  lemma PlaceDenotes(negative: bool, digits: string, power: int)
    requires IsDecimal(digits) && |digits| > 0 && digits[0] != '0' && digits[|digits| - 1] != '0'
    ensures var (whole, fraction) := Place(digits, power);
            && CanonicalParts(negative, whole, fraction)
            && Scaled(Signed(negative, Value(10, whole + fraction)), 0 - |fraction|)
               == Scaled(Signed(negative, Value(10, digits)), power)
  {
    var (whole, fraction) := Place(digits, power);
    if power >= 0 {
      assert whole + fraction == "" + digits + Zeros(power);
      ZeroPadded("", digits, Zeros(power));
      SignedProduct(negative, Value(10, digits), Pow(10, power));
      Shift(Signed(negative, Value(10, digits)), power, 0);
    } else if |digits| + power > 0 {
      assert whole + fraction == digits;
    } else {
      var pad := "0" + Zeros(-(|digits| + power));
      assert whole + fraction == pad + digits + "";
      ZeroPadded(pad, digits, "");
    }
  }

  lemma SideLengths(value: string)
    ensures |Sides(Parts(value).0).0| + |Sides(Parts(value).0).1| <= |value|
  {}

  lemma SideIsDecimal(side: string)
    requires DigitsOrEmpty(side)
    ensures IsDecimal(WithoutUnderscores(side)) && |WithoutUnderscores(side)| <= |side|
  {
    DigitsRemain(side);
  }

  lemma MantissaIsDecimal(value: string)
    requires FiniteLexeme(value)
    ensures var (digits, fraction) := MantissaDigits(value);
            IsDecimal(digits) && fraction <= |digits| <= |value|
  {
    var sides := Sides(Parts(value).0);
    SideLengths(value);
    SideIsDecimal(sides.0);
    SideIsDecimal(sides.1);
  }

  /** The digits between the outer zeros of the mantissa. */
  method TrimZeros(all: string) returns (first: nat, last: nat)
    ensures first == LeadingZeros(all)
    ensures first < |all| ==> first <= last < |all| && all[last] != '0'
                              && forall i | last < i < |all| :: all[i] == '0'
  {
    first, last := 0, 0;
    while first < |all| && all[first] == '0'
      invariant first <= |all| && forall i | 0 <= i < first :: all[i] == '0'
    {
      first := first + 1;
    }
    assert first == LeadingZeros(all);
    if first < |all| {
      last := |all| - 1;
      while last > first && all[last] == '0'
        invariant first <= last < |all| && forall i | last < i < |all| :: all[i] == '0'
      {
        last := last - 1;
      }
    }
  }

  lemma TrimmedShape(all: string, first: nat, last: nat)
    requires IsDecimal(all) && first == LeadingZeros(all) && first <= last < |all| && all[last] != '0'
    ensures var significant := all[first..last + 1];
            IsDecimal(significant) && significant[0] != '0' && significant[|significant| - 1] != '0'
  {
  }

  /** A numeral without its outer zeros, and the power of ten that makes up for them. */
  lemma TrimmedValue(negative: bool, all: string, first: nat, last: nat, trailing: nat, e: int)
    requires first == LeadingZeros(all) && first <= last < |all| && trailing == |all| - 1 - last
    requires forall i | last < i < |all| :: all[i] == '0'
    ensures Scaled(Signed(negative, Value(10, all)), e)
         == Scaled(Signed(negative, Value(10, all[first..last + 1])), e + trailing)
  {
    var head, significant, tail := TrimmedSlices(all, first, last, trailing);
    ShiftedValue(negative, all, head, significant, tail, trailing, e, e + trailing);
  }

  lemma TrimmedSlices(all: string, first: nat, last: nat, trailing: nat)
    returns (head: string, significant: string, tail: string)
    requires first == LeadingZeros(all) && first <= last < |all| && trailing == |all| - 1 - last
    requires forall i | last < i < |all| :: all[i] == '0'
    ensures significant == all[first..last + 1] && all == head + significant + tail && |tail| == trailing
    ensures forall i | 0 <= i < |head| :: head[i] == '0'
    ensures forall i | 0 <= i < |tail| :: tail[i] == '0'
  {
    head, significant, tail := all[..first], all[first..last + 1], all[last + 1..];
    assert all == head + significant + tail;
  }

  lemma ShiftedValue(negative: bool, all: string, head: string, significant: string, tail: string,
                     trailing: nat, e: int, shifted: int)
    requires all == head + significant + tail && trailing == |tail| && shifted == e + trailing
    requires forall i | 0 <= i < |head| :: head[i] == '0'
    requires forall i | 0 <= i < |tail| :: tail[i] == '0'
    ensures Scaled(Signed(negative, Value(10, all)), e) == Scaled(Signed(negative, Value(10, significant)), shifted)
  {
    ZeroPadded(head, significant, tail);
    SignedProduct(negative, Value(10, significant), Pow(10, trailing));
    Shift(Signed(negative, Value(10, significant)), trailing, e);
  }

  /** A number that fits comes back as the canonical text for it; any other is out of range. */
  ghost predicate Represents(r: Canonical, v: real, b: Bounds) {
    match r
    case Ok(text) => Fits(v, b) && IsCanonical(text) && Denote(text) == v
    case Error(error) => error == OutOfRange && !Fits(v, b)
  }

  /** The number `significant * 10^power` as text, if it is within the bounds. */
  method CanonicalMagnitude(negative: bool, significant: string, power: int, b: Bounds) returns (r: Canonical)
    requires IsDecimal(significant) && |significant| > 0
    requires significant[0] != '0' && significant[|significant| - 1] != '0'
    ensures Represents(r, Scaled(Signed(negative, Value(10, significant)), power), b)
  {
    SignificantDigits(significant);
    FitsExactly(negative, Value(10, significant), |significant|, power, b);
    if (power >= 0 && |significant| + power > b.integer)
       || (power < 0 && -power > b.fraction)
       || (power < 0 && |significant| + power > b.integer) {
      return Error(OutOfRange);
    }
    var (whole, fraction) := Place(significant, power);
    PlaceDenotes(negative, significant, power);
    RenderDenotes(negative, whole, fraction);
    r := Ok(Render(negative, whole, fraction));
  }

  /** An exponent past the limit takes any mantissa of the lexeme out of range. */
  lemma HopelessExponent(negative: bool, significant: string, power: int, b: Bounds)
    requires IsDecimal(significant) && |significant| > 0
    requires significant[0] != '0' && significant[|significant| - 1] != '0'
    requires power > b.integer || power < 0 - b.fraction
    ensures !Fits(Scaled(Signed(negative, Value(10, significant)), power), b)
  {
    SignificantDigits(significant);
    FitsExactly(negative, Value(10, significant), |significant|, power, b);
  }

  /**
   `canonical_float`, for numeric bounds `b`. A finite lexeme is accepted exactly when the
   number it denotes fits, however large its exponent is written, and zero under any
   exponent; the text that comes back is canonical and denotes the same number.
   */
  method CanonicalFloat(value: string, b: Bounds) returns (r: Canonical)
    requires FiniteLexeme(value) || IsNonFinite(value)
    requires b.integer >= 9
    ensures IsNonFinite(value) ==> r == Error(NonFinite)
    ensures !IsNonFinite(value) ==> Represents(r, Denote(value), b)
  {
    if Lower(value) in NON_FINITE { return Error(NonFinite); }
    r := CanonicalFinite(value, b);
  }

  method CanonicalFinite(value: string, b: Bounds) returns (r: Canonical)
    requires FiniteLexeme(value) && b.integer >= 9
    ensures Represents(r, Denote(value), b)
  {
    var negative := IsNegative(value);
    var pair := SplitOnceLoop(Unsigned(value), "eE");
    var (mantissa, exponentLexeme) := if pair.Some? then pair.value else (Unsigned(value), "0");
    pair := SplitOnceLoop(mantissa, ".");
    var (leftText, rightText) := if pair.Some? then pair.value else (mantissa, "");
    var left := RemoveUnderscores(leftText);
    var right := RemoveUnderscores(rightText);
    var all := left + right;
    MantissaIsDecimal(value);
    var fraction := |right|;
    DenoteOf(value, mantissa, exponentLexeme, leftText, rightText, all, fraction);
    r := CanonicalDigits(value, negative, exponentLexeme, all, fraction, b);
  }

  method CanonicalDigits(value: string, negative: bool, exponentLexeme: string, all: string, fraction: nat,
                         b: Bounds) returns (r: Canonical)
    requires IsDecimal(all) && fraction <= |all| <= |value| && BasedDigits(10, Unsigned(exponentLexeme))
    requires b.integer >= 9
    ensures Represents(r, Reading(negative, all, exponentLexeme, fraction), b)
  {
    var first, last := TrimZeros(all);
    if first == |all| {
      ZeroReading(all, negative, exponentLexeme, fraction);
      ZeroRepresented(b);
      r := Ok("0");
    } else {
      r := CanonicalNonzero(value, negative, exponentLexeme, all, fraction, first, last, b);
    }
  }

  method CanonicalNonzero(value: string, negative: bool, exponentLexeme: string, all: string, fraction: nat,
                          first: nat, last: nat, b: Bounds) returns (r: Canonical)
    requires IsDecimal(all) && fraction <= |all| <= |value| && BasedDigits(10, Unsigned(exponentLexeme))
    requires first == LeadingZeros(all) && first <= last < |all| && all[last] != '0'
    requires forall i | last < i < |all| :: all[i] == '0'
    requires b.integer >= 9
    ensures Represents(r, Reading(negative, all, exponentLexeme, fraction), b)
  {
    var trailing := |all| - 1 - last;
    var significant := all[first..last + 1];
    ghost var e := Exponent(exponentLexeme) - fraction;
    TrimmedShape(all, first, last);
    TrimmedValue(negative, all, first, last, trailing, e);
    var limit := |value| + b.integer + b.fraction + 1;
    var exponent := BoundedExponent(limit, exponentLexeme);
    ghost var power := e + trailing;
    assert Reading(negative, all, exponentLexeme, fraction) == Scaled(Signed(negative, Value(10, significant)), power);
    if exponent.None? {
      FarExponent(exponentLexeme, limit);
      HopelessExponent(negative, significant, power, b);
      r := Error(OutOfRange);
      assert Represents(r, Scaled(Signed(negative, Value(10, significant)), power), b);
      return;
    }
    var shifted := exponent.value - fraction + trailing;
    assert shifted == power;
    r := CanonicalMagnitude(negative, significant, shifted, b);
  }

  lemma FarExponent(text: string, limit: nat)
    requires Number(Unsigned(text)) > limit
    ensures Exponent(text) > limit || Exponent(text) < 0 - limit
  {}

  lemma DenoteOf(value: string, mantissa: string, exponent: string, left: string, right: string,
                 all: string, fraction: nat)
    requires Parts(value) == (mantissa, exponent) && Sides(mantissa) == (left, right)
    requires all == WithoutUnderscores(left) + WithoutUnderscores(right) && fraction == |WithoutUnderscores(right)|
    ensures Denote(value) == Reading(IsNegative(value), all, exponent, fraction)
  {
  }

  lemma ReadingPlain(negative: bool, digits: string, fraction: nat)
    ensures Reading(negative, digits, "0", fraction) == Scaled(Signed(negative, Value(10, digits)), 0 - fraction)
  {
    ZeroExponent();
  }

  lemma ZeroRepresented(b: Bounds)
    ensures Represents(Ok("0"), 0.0, b)
  {
    assert "0" == Render(false, "0", "") && CanonicalParts(false, "0", "");
    RenderDenotes(false, "0", "");
    assert "0" + "" == "0";
    ValueZeros(10, "0");
    ZeroFits(0, b);
  }

  lemma ZeroReading(digits: string, negative: bool, exponent: string, fraction: nat)
    requires LeadingZeros(digits) == |digits|
    ensures Reading(negative, digits, exponent, fraction) == 0.0
  {
    var e := Exponent(exponent) - fraction;
    ValueZeros(10, digits);
    ScaledZero(e);
  }

  // ----- Integers -----

  /** An integer fits exactly when its magnitude is below the power of the integer digits. */
  lemma IntegerFits(n: int, b: Bounds)
    ensures Fits(Scaled(n, 0), b) <==> 0 - Pow(10, b.integer) < n < Pow(10, b.integer)
  {
    var p := Pow(10, b.fraction);
    PowAdd(10, b.integer, b.fraction);
    Shift(n, b.fraction, 0 - b.fraction);
    assert Grain(n * p, b) == Scaled(n, 0);
    ProductWithin(n, Pow(10, b.integer), p);
    if Fits(Scaled(n, 0), b) {
      var v := Scaled(n, 0);
      var k: int :| v == Grain(k, b) && -Grains(b) < k < Grains(b);
      ScaledInjective(k, n * p, 0 - b.fraction);
    }
  }

  lemma ProductWithin(n: int, q: nat, p: nat)
    requires p > 0
    ensures 0 - q * p < n * p < q * p <==> 0 - q < n < q
  {
    Positive(q - n, p);
    Positive(n + q, p);
    assert (q - n) * p == q * p - n * p && (n + q) * p == n * p + q * p;
  }

  lemma {:induction false} Positive(a: int, p: nat)
    requires p > 0
    ensures a * p > 0 <==> a > 0
  {
    if p > 1 {
      Positive(a, p - 1);
      assert a * p == a * (p - 1) + a;
    }
  }

  /** The text of an integer and the check of its length. */
  method IntegerText(negative: bool, digits: string, b: Bounds) returns (r: Canonical)
    requires IsDecimal(digits) && |digits| > 0 && (|digits| > 1 ==> digits[0] != '0') && b.integer > 0
    ensures Represents(r, Scaled(Signed(negative, Value(10, digits)), 0), b)
  {
    var n := Value(10, digits);
    IntegerFits(Signed(negative, n), b);
    ToDecimalUnique(digits);
    ToDecimalLength(n, b.integer);
    if |digits| > b.integer { return Error(OutOfRange); }
    ZeroOnly(digits);
    var sign := negative && digits != "0";
    RenderDenotes(sign, digits, "");
    assert digits + "" == digits && CanonicalParts(sign, digits, "");
    r := Ok(Render(sign, digits, ""));
    assert Signed(sign, n) == Signed(negative, n);
  }

  lemma ZeroOnly(digits: string)
    requires IsDecimal(digits) && |digits| > 0 && (|digits| > 1 ==> digits[0] != '0')
    ensures Value(10, digits) == 0 <==> digits == "0"
  {
    ValueZeros(10, "0");
    if Value(10, digits) == 0 {
      assert CanonicalParts(false, digits, "");
      assert digits + "" == digits;
      ZeroParts(digits, "");
    }
  }

  lemma StripKeepsValue(base: nat, value: string, stripped: string)
    requires base > 0
    requires stripped == if LeadingZeros(value) == |value| then "0" else value[LeadingZeros(value)..]
    ensures Value(base, stripped) == Value(base, value)
    ensures |stripped| > 0 && (|stripped| > 1 ==> stripped[0] != '0')
    ensures IsDecimal(value) ==> IsDecimal(stripped)
  {
    var z := LeadingZeros(value);
    if z == |value| {
      ValueZeros(base, value);
      ValueZeros(base, "0");
    } else {
      assert value == value[..z] + value[z..];
      ValueZeros(base, value[..z]);
      ValueConcat(base, value[..z], value[z..]);
      assert 0 * Pow(base, |value[z..]|) == 0;
    }
  }

  lemma DecimalIntegerDenotes(value: string)
    requires DecimalInteger(value)
    ensures FiniteLexeme(value)
    ensures Denote(value) == Scaled(Signed(IsNegative(value), Value(10, WithoutUnderscores(Unsigned(value)))), 0)
  {
    var body := Unsigned(value);
    SplitNone(body, "eE");
    SplitNone(body, ".");
    var all := WithoutUnderscores(body);
    assert WithoutUnderscores("") == "" && all + "" == all;
    DenoteOf(value, body, "0", body, "", all, 0);
    ReadingPlain(IsNegative(value), all, 0);
    assert BasedDigits(10, Unsigned("0"));
  }

  /** `canonical_decimal_integer`. */
  method CanonicalDecimalInteger(value: string, b: Bounds) returns (r: Canonical)
    requires DecimalInteger(value) && b.integer > 0
    ensures Represents(r, Denote(value), b)
  {
    var plain := RemoveUnderscores(Unsigned(value));
    var digits := StripLeadingZeroes(plain);
    DigitsRemain(Unsigned(value));
    StripKeepsValue(10, plain, digits);
    DecimalIntegerDenotes(value);
    assert Denote(value) == Scaled(Signed(IsNegative(value), Value(10, digits)), 0);
    r := IntegerText(IsNegative(value), digits, b);
  }

  predicate PrefixedBy(prefix: string, base: nat, lowered: string) {
    prefix <= lowered && BasedDigits(base, lowered[|prefix|..])
  }

  predicate PrefixedInteger(value: string) {
    var lowered := Lower(Unsigned(value));
    PrefixedBy("0x", 16, lowered) || PrefixedBy("0o", 8, lowered) || PrefixedBy("0b", 2, lowered)
  }

  /** The base a prefix letter names. */
  function BaseOf(letter: char): (base: nat)
    ensures base == 2 || base == 8 || base == 16
  {
    if letter == 'x' then 16 else if letter == 'o' then 8 else 2
  }

  function BasedValue(lowered: string): nat
    requires |lowered| >= 2
  {
    Value(BaseOf(lowered[1]), WithoutUnderscores(lowered[2..]))
  }

  /** The integer a binary, octal or hexadecimal lexeme stands for. */
  function DenoteBased(value: string): real
    requires PrefixedInteger(value)
  {
    Scaled(Signed(IsNegative(value), BasedValue(Lower(Unsigned(value)))), 0)
  }

  lemma {:induction false} DigitsOfBase(base: nat, s: string)
    requires forall i | 0 <= i < |s| :: s[i] == '_' || DigitOf(s[i]) < base
    ensures AllDigits(base, WithoutUnderscores(s))
  {
    if |s| > 0 { DigitsOfBase(base, s[1..]); }
  }

  /**
   `canonical_based_integer`: the early refusal of long numerals agrees with the bound on
   decimal digits, so a based integer is accepted exactly when it fits.
   */
  method CanonicalBasedInteger(value: string, b: Bounds) returns (r: Canonical)
    requires PrefixedInteger(value) && 0 < b.integer <= MAX_INTEGER_DIGITS
    ensures Represents(r, DenoteBased(value), b)
  {
    var negative := IsNegative(value);
    var lowered := Lower(Unsigned(value));
    var base := BaseOf(lowered[1]);
    var plain := RemoveUnderscores(lowered[2..]);
    var payload := StripLeadingZeroes(plain);
    DigitsOfBase(base, lowered[2..]);
    StripKeepsValue(base, plain, payload);
    ghost var n := Value(base, payload);
    if |payload| > BasedDigitLimit(base) {
      LeadingDigit(plain, payload);
      LongerIsTooLarge(base, payload, b.integer);
      IntegerFits(Signed(negative, n), b);
      return Error(OutOfRange);
    }
    var decimal := ToDecimal(Value(base, payload));
    ToDecimalValue(n);
    ZeroRendering(n);
    r := IntegerText(negative, decimal, b);
  }

  lemma ZeroRendering(n: nat)
    ensures |ToDecimal(n)| > 1 ==> ToDecimal(n)[0] != '0'
  {}

  /** A stripped numeral of more than one digit begins with a digit that counts. */
  lemma LeadingDigit(value: string, stripped: string)
    requires AllDigits(16, value) && |stripped| > 1
    requires stripped == if LeadingZeros(value) == |value| then "0" else value[LeadingZeros(value)..]
    ensures DigitOf(stripped[0]) > 0 && AllDigits(16, stripped)
  {
    var z := LeadingZeros(value);
    assert stripped == value[z..];
    NonzeroDigit(value[z]);
    forall i | 0 <= i < |stripped|
      ensures DigitOf(stripped[i]) < 16
    {
      assert stripped[i] == value[z + i];
    }
  }

  lemma NonzeroDigit(c: char)
    requires DigitOf(c) < 16 && c != '0'
    ensures DigitOf(c) > 0
  {}

  /** PostgreSQL's `numeric`. */
  function PostgresBounds(): Bounds {
    Bounds(MAX_INTEGER_DIGITS, MAX_FRACTIONAL_DIGITS)
  }

  /** `canonical_integer_result`. */
  method CanonicalInteger(value: string) returns (r: Canonical)
    ensures DecimalInteger(value) ==> Represents(r, Denote(value), PostgresBounds())
    ensures !DecimalInteger(value) && PrefixedInteger(value) ==> Represents(r, DenoteBased(value), PostgresBounds())
    ensures !DecimalInteger(value) && !PrefixedInteger(value) ==> r == Error(OutOfRange)
  {
    if BasedDigits(10, Unsigned(value)) {
      r := CanonicalDecimalInteger(value, PostgresBounds());
    } else if PrefixedInteger(value) {
      r := CanonicalBasedInteger(value, PostgresBounds());
    } else {
      r := Error(OutOfRange);
    }
  }
}
