/** Which byte strings are well-formed UTF-8, and where their characters begin. */
module Utf8 {
  predicate ByteIn(input: string, index: nat, low: nat, high: nat) {
    index < |input| && low <= input[index] as int <= high
  }

  predicate Continuation(input: string, index: nat) {
    ByteIn(input, index, 0x80, 0xBF)
  }

  /** The bytes of the character at `index`, by its first byte; 0 if it is malformed. */
  function Width(input: string, index: nat): (w: nat)
    requires index < |input|
    ensures index + w <= |input| && w <= 4
  {
    var byte := input[index] as int;
    if byte <= 0x7F then 1
    else if 0xC2 <= byte <= 0xDF then
      if Continuation(input, index + 1) then 2 else 0
    else if byte == 0xE0 then
      if ByteIn(input, index + 1, 0xA0, 0xBF) && Continuation(input, index + 2) then 3 else 0
    else if 0xE1 <= byte <= 0xEC || 0xEE <= byte <= 0xEF then
      if Continuation(input, index + 1) && Continuation(input, index + 2) then 3 else 0
    else if byte == 0xED then
      if ByteIn(input, index + 1, 0x80, 0x9F) && Continuation(input, index + 2) then 3 else 0
    else if byte == 0xF0 then
      if ByteIn(input, index + 1, 0x90, 0xBF) && Continuation(input, index + 2)
         && Continuation(input, index + 3) then 4 else 0
    else if 0xF1 <= byte <= 0xF3 then
      if Continuation(input, index + 1) && Continuation(input, index + 2)
         && Continuation(input, index + 3) then 4 else 0
    else if byte == 0xF4 then
      if ByteIn(input, index + 1, 0x80, 0x8F) && Continuation(input, index + 2)
         && Continuation(input, index + 3) then 4 else 0
    else 0
  }

  predicate ValidFrom(input: string, index: nat)
    requires index <= |input|
    decreases |input| - index
  {
    index == |input| || (Width(input, index) > 0 && ValidFrom(input, index + Width(input, index)))
  }

  /** `valid_utf8`. */
  predicate ValidUtf8(input: string) {
    ValidFrom(input, 0)
  }

  // ----- RFC 3629, sections 3 and 4 -----

  /** A Unicode scalar value: a code point that is no surrogate. */
  predicate IsScalar(c: nat) {
    c <= 0x10FFFF && !(0xD800 <= c <= 0xDFFF)
  }

  type Scalar = c: nat | IsScalar(c)

  function Byte(b: nat): char
    requires b < 0x100
  {
    b as char
  }

  /** A continuation byte carries six bits. */
  function Tail(c: nat): (t: char)
    ensures t as int == 0x80 + c % 0x40 && 0x80 <= t as int <= 0xBF
  {
    Byte(0x80 + c % 0x40)
  }

  function Encode(c: Scalar): (s: string)
    ensures 1 <= |s| <= 4
  {
    var high := c / 0x40;
    if c < 0x80 then [Byte(c)]
    else if c < 0x800 then [Byte(0xC0 + high), Tail(c)]
    else if c < 0x10000 then [Byte(0xE0 + high / 0x40), Tail(high), Tail(c)]
    else
      assert IsScalar(c);
      [Byte(0xF0 + high / 0x40 / 0x40), Tail(high / 0x40), Tail(high), Tail(c)]
  }

  function EncodeAll(text: seq<Scalar>): string {
    if |text| == 0 then "" else Encode(text[0]) + EncodeAll(text[1..])
  }

  /** Six more bits, taken from a continuation byte. */
  function Extend(high: int, tail: char): int {
    high * 0x40 + (tail as int - 0x80)
  }

  /** The code point of a well-formed character. */
  function Decode(input: string, index: nat): int
    requires index < |input| && Width(input, index) > 0
  {
    var first := input[index] as int;
    match Width(input, index)
    case 1 => first
    case 2 => Extend(first - 0xC0, input[index + 1])
    case 3 => Extend(Extend(first - 0xE0, input[index + 1]), input[index + 2])
    case _ => Extend(Extend(Extend(first - 0xF0, input[index + 1]), input[index + 2]), input[index + 3])
  }

  lemma ExtendSplits(high: int, tail: char)
    requires high >= 0 && 0x80 <= tail as int <= 0xBF
    ensures Extend(high, tail) >= 0
    ensures Extend(high, tail) / 0x40 == high && Tail(Extend(high, tail)) == tail
  {
  }

  lemma SplitExtends(c: nat)
    ensures Extend(c / 0x40, Tail(c)) == c
  {
  }

  /** Decoding a well-formed character gives a scalar value whose encoding it is. */
  lemma DecodeEncodes(input: string, index: nat)
    requires index < |input| && Width(input, index) > 0
    ensures Decode(input, index) >= 0 && IsScalar(Decode(input, index))
    ensures Encode(Decode(input, index)) == input[index..index + Width(input, index)]
  {
    var w, first := Width(input, index), input[index] as int;
    var bytes := input[index..index + w];
    match w
    case 1 =>
      assert bytes == [input[index]];
    case 2 =>
      assert bytes == [input[index], input[index + 1]];
      ExtendSplits(first - 0xC0, input[index + 1]);
    case 3 =>
      assert bytes == [input[index], input[index + 1], input[index + 2]];
      ExtendSplits(first - 0xE0, input[index + 1]);
      ExtendSplits(Extend(first - 0xE0, input[index + 1]), input[index + 2]);
    case _ =>
      assert bytes == [input[index], input[index + 1], input[index + 2], input[index + 3]];
      ExtendSplits(first - 0xF0, input[index + 1]);
      ExtendSplits(Extend(first - 0xF0, input[index + 1]), input[index + 2]);
      ExtendSplits(Extend(Extend(first - 0xF0, input[index + 1]), input[index + 2]), input[index + 3]);
  }

  /** `input` holds the encoding of `c` at `index`. */
  predicate Holds(input: string, index: nat, c: Scalar) {
    var e := Encode(c);
    && index + |e| <= |input|
    && input[index] == e[0]
    && (|e| > 1 ==> input[index + 1] == e[1])
    && (|e| > 2 ==> input[index + 2] == e[2])
    && (|e| > 3 ==> input[index + 3] == e[3])
  }

  /** What RFC 3629 asks of the second byte of three or four is what makes the rest minimal and scalar. */
  lemma HeldIsWellFormed(input: string, index: nat, c: Scalar)
    requires Holds(input, index, c)
    ensures Width(input, index) == |Encode(c)|
  {
    assert IsScalar(c);
    var e, high := Encode(c), c / 0x40;
    if |e| == 2 {
      assert Continuation(input, index + 1);
    } else if |e| == 3 {
      assert Continuation(input, index + 1) && Continuation(input, index + 2);
      assert 0x20 <= high <= 0x3FF && !(0x360 <= high <= 0x37F);
    } else if |e| == 4 {
      assert Continuation(input, index + 1) && Continuation(input, index + 2) && Continuation(input, index + 3);
      var top := high / 0x40;
      assert 0x400 <= high <= 0x43FF;
      assert 0x10 <= top <= 0x10F;
    }
  }

  /** The encoding of a scalar value is well-formed and decodes to it, whatever surrounds it. */
  lemma EncodeDecodes(input: string, index: nat, c: Scalar)
    requires index + |Encode(c)| <= |input| && input[index..index + |Encode(c)|] == Encode(c)
    ensures Width(input, index) == |Encode(c)| && Decode(input, index) == c
  {
    var e := Encode(c);
    var held := input[index..index + |e|];
    assert input[index] == held[0];
    if |e| > 1 { assert input[index + 1] == held[1]; }
    if |e| > 2 { assert input[index + 2] == held[2]; }
    if |e| > 3 { assert input[index + 3] == held[3]; }
    HeldIsWellFormed(input, index, c);
    assert IsScalar(c);
    SplitExtends(c);
    SplitExtends(c / 0x40);
    SplitExtends(c / 0x40 / 0x40);
  }

  lemma {:induction false} ValidDecodes(input: string, index: nat) returns (text: seq<Scalar>)
    requires index <= |input| && ValidFrom(input, index)
    ensures EncodeAll(text) == input[index..]
    decreases |input| - index
  {
    if index == |input| {
      text := [];
    } else {
      var w := Width(input, index);
      DecodeEncodes(input, index);
      var rest := ValidDecodes(input, index + w);
      text := [Decode(input, index)] + rest;
      assert text[1..] == rest;
      assert input[index..] == input[index..index + w] + input[index + w..];
    }
  }

  lemma {:induction false} EncodedIsValid(before: string, text: seq<Scalar>)
    ensures ValidFrom(before + EncodeAll(text), |before|)
    decreases |text|
  {
    if |text| > 0 {
      var e, after := Encode(text[0]), EncodeAll(text[1..]);
      assert before + EncodeAll(text) == before + e + after;
      EncodeDecodes(before + e + after, |before|, text[0]);
      EncodedIsValid(before + e, text[1..]);
    }
  }

  ghost predicate IsEncoding(input: string) {
    exists text :: EncodeAll(text) == input
  }

  /** The byte strings accepted are exactly the encodings of sequences of scalar values. */
  lemma ValidExactlyEncodings(input: string)
    ensures ValidUtf8(input) <==> IsEncoding(input)
  {
    if ValidUtf8(input) {
      var text := ValidDecodes(input, 0);
      assert input[0..] == input;
    }
    if IsEncoding(input) {
      var text :| EncodeAll(text) == input;
      EncodedIsValid("", text);
      assert "" + EncodeAll(text) == input;
    }
  }

  /** Decoding is unambiguous: no two texts share an encoding. */
  lemma {:induction false} EncodeAllInjective(s: seq<Scalar>, t: seq<Scalar>)
    requires EncodeAll(s) == EncodeAll(t)
    ensures s == t
    decreases |s|
  {
    if |s| > 0 && |t| > 0 {
      var input := EncodeAll(s);
      EncodeDecodes(input, 0, s[0]);
      EncodeDecodes(input, 0, t[0]);
      var w := |Encode(s[0])|;
      assert input[w..] == EncodeAll(s[1..]);
      assert input[w..] == EncodeAll(t[1..]);
      EncodeAllInjective(s[1..], t[1..]);
      assert s == [s[0]] + s[1..] && t == [t[0]] + t[1..];
    }
  }
}
