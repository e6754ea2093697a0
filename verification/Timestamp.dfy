/**
 RFC 3339 timestamps: which texts are accepted (lib/concept.ml), and the microsecond each of
 them names, compared with the one PostgreSQL reports (lib/retrieval.ml).
 */
module Timestamp {
  import opened Wrappers
  import opened Digits
  import opened Calendar
  import opened Text

  // ----- Timestamps and their texts, section 5.6 of RFC 3339 -----

  datatype Zone = Zulu(letter: char) | Offset(positive: bool, hours: nat, minutes: nat)

  datatype Stamp = Stamp(date: Date, separator: char, hour: nat, minute: nat, second: nat, fraction: string, zone: Zone)

  predicate ZoneOk(zone: Zone) {
    match zone
    case Zulu(letter) => IsZulu(letter)
    case Offset(_, hours, minutes) => hours <= 23 && minutes < 60
  }

  /** No leap second, any number of fraction digits. */
  predicate WellFormed(t: Stamp) {
    && 0 <= t.date.year <= 9999 && IsDate(t.date)
    && (t.separator == 'T' || t.separator == 't')
    && t.hour < 24 && t.minute < 60 && t.second < 60
    && IsDecimal(t.fraction) && ZoneOk(t.zone)
  }

  /** A number in a fixed count of digits. */
  function Pad(n: nat, width: nat): (s: string)
    ensures |s| == width && IsDecimal(s)
  {
    if width == 0 then "" else Pad(n / 10, width - 1) + [DigitChar(n % 10)]
  }

  function HeadOf(year: string, month: string, day: string, separator: char,
                  hour: string, minute: string, second: string): string {
    year + "-" + month + "-" + day + [separator] + hour + ":" + minute + ":" + second
  }

  function HeadText(date: Date, separator: char, hour: nat, minute: nat, second: nat): (s: string)
    requires date.year >= 0 && date.month >= 0 && date.day >= 0
    ensures |s| == 19
  {
    HeadOf(Pad(date.year, 4), Pad(date.month, 2), Pad(date.day, 2), separator,
           Pad(hour, 2), Pad(minute, 2), Pad(second, 2))
  }

  function OffsetOf(sign: char, hours: string, minutes: string): string {
    [sign] + hours + ":" + minutes
  }

  function FractionText(fraction: string): string {
    if fraction == "" then "" else "." + fraction
  }

  function ZoneText(zone: Zone): (s: string)
    ensures |s| > 0
  {
    match zone
    case Zulu(letter) => [letter]
    case Offset(positive, hours, minutes) =>
      OffsetOf(if positive then '+' else '-', Pad(hours, 2), Pad(minutes, 2))
  }

  function TextOf(t: Stamp): string
    requires WellFormed(t)
  {
    HeadText(t.date, t.separator, t.hour, t.minute, t.second) + FractionText(t.fraction) + ZoneText(t.zone)
  }

  // ----- lib/concept.ml: acceptance -----

  predicate DigitsAt(value: string, offset: nat, count: nat) {
    offset + count <= |value| && IsDecimal(value[offset..offset + count])
  }

  /** `int_of_string` on a run of digits. */
  function NumberAt(value: string, offset: nat, count: nat): nat
    requires offset + count <= |value|
  {
    Value(10, value[offset..offset + count])
  }

  /** `date`, on ten bytes. */
  predicate DateText(value: string)
    requires |value| == 10
  {
    && DigitsAt(value, 0, 4) && value[4] == '-' && DigitsAt(value, 5, 2) && value[7] == '-' && DigitsAt(value, 8, 2)
    && var day := NumberAt(value, 8, 2);
       1 <= day <= MonthDays(NumberAt(value, 0, 4), NumberAt(value, 5, 2))
  }

  predicate IsZulu(c: char) {
    c == 'Z' || c == 'z'
  }

  predicate IsMark(c: char) {
    IsZulu(c) || c == '+' || c == '-'
  }

  function OrElse(r: Option<nat>, s: Option<nat>): Option<nat> {
    if r.Some? then r else s
  }

  predicate ZoneAt(value: string, index: nat)
    requires index < |value|
  {
    if IsZulu(value[index]) then index == |value| - 1
    else
      && index + 6 == |value| && value[index + 3] == ':'
      && DigitsAt(value, index + 1, 2) && DigitsAt(value, index + 4, 2)
      && NumberAt(value, index + 1, 2) <= 23 && NumberAt(value, index + 4, 2) < 60
  }

  predicate FractionAt(value: string, index: nat)
    requires 19 <= index < |value|
  {
    index == 19 || (value[19] == '.' && index > 20 && DigitsAt(value, 20, index - 20))
  }

  function ZoneStart(value: string): (r: Option<nat>)
    requires |value| >= 20
    ensures r.Some? ==> 19 <= r.value < |value| && IsMark(value[r.value])
  {
    OrElse(IndexFrom(value, 19, 'Z'), OrElse(IndexFrom(value, 19, 'z'),
    OrElse(IndexFrom(value, 19, '+'), IndexFrom(value, 19, '-'))))
  }

  predicate HeadAt(value: string) {
    && |value| >= 20
    && DigitsAt(value, 0, 4) && DigitsAt(value, 5, 2) && DigitsAt(value, 8, 2)
    && DigitsAt(value, 11, 2) && DigitsAt(value, 14, 2) && DigitsAt(value, 17, 2)
    && value[4] == '-' && value[7] == '-' && (value[10] == 'T' || value[10] == 't')
    && value[13] == ':' && value[16] == ':'
  }

  /** `rfc3339`. */
  predicate Rfc3339(value: string) {
    && HeadAt(value)
    && match ZoneStart(value)
       case None => false
       case Some(index) =>
         && DateText(value[..10])
         && NumberAt(value, 11, 2) < 24 && NumberAt(value, 14, 2) < 60 && NumberAt(value, 17, 2) < 60
         && FractionAt(value, index) && ZoneAt(value, index)
  }

  // ----- lib/retrieval.ml: the microsecond -----

  predicate InInt64(n: int) {
    0 - 0x8000_0000_0000_0000 <= n < 0x8000_0000_0000_0000
  }

  /** `Int64` arithmetic keeps the low sixty-four bits. */
  function Wrap64(n: int): (r: int)
    ensures InInt64(r) && (InInt64(n) ==> r == n)
  {
    (n + 0x8000_0000_0000_0000) % 0x1_0000_0000_0000_0000 - 0x8000_0000_0000_0000
  }

  /** The first zone mark from `index` on; reading past the end raises an exception. */
  function FindZone(value: string, index: nat): (r: Option<nat>)
    ensures r.Some? ==> index <= r.value < |value|
    decreases |value| - index
  {
    if index >= |value| then None
    else if IsMark(value[index]) then Some(index)
    else FindZone(value, index + 1)
  }

  /** Six digits of the fraction, rounded half to even on the rest. */
  function FractionMicros(digits: string): nat {
    var padded := digits + "000000";
    var micros := Value(10, padded[..6]);
    if |digits| <= 6 then micros
    else
      var laterNonzero := |digits| > 7 && exists i | 7 <= i < |digits| :: digits[i] != '0';
      if digits[6] > '5' || (digits[6] == '5' && (laterNonzero || micros % 2 == 1)) then micros + 1 else micros
  }

  function OffsetSeconds(value: string, zone: nat): int
    requires zone < |value| && (IsZulu(value[zone]) || zone + 6 <= |value|)
  {
    if IsZulu(value[zone]) then 0
    else
      var seconds := NumberAt(value, zone + 1, 2) * 3600 + NumberAt(value, zone + 4, 2) * 60;
      if value[zone] == '+' then seconds else 0 - seconds
  }

  function SecondsAt(value: string, zone: nat): int
    requires 19 <= zone < |value| && (IsZulu(value[zone]) || zone + 6 <= |value|)
  {
    DaysFromCivil(NumberAt(value, 0, 4), NumberAt(value, 5, 2), NumberAt(value, 8, 2)) * 86400
    + NumberAt(value, 11, 2) * 3600 + NumberAt(value, 14, 2) * 60 + NumberAt(value, 17, 2)
    - OffsetSeconds(value, zone)
  }

  /** `rfc3339_microseconds`. */
  function Rfc3339Microseconds(value: string): Option<int> {
    if !Rfc3339(value) then None
    else
      match FindZone(value, 19)
      case None => None
      case Some(zone) =>
        if !IsZulu(value[zone]) && zone + 6 > |value| then None
        else
          var fraction := if zone == 19 then 0 else FractionMicros(value[20..zone]);
          Some(Wrap64(Wrap64(SecondsAt(value, zone) * 1_000_000) + fraction))
  }

  // ----- Fixed-width numbers -----

  lemma {:induction false} PadOfValue(s: string)
    requires IsDecimal(s)
    ensures Pad(Value(10, s), |s|) == s
  {
    if |s| > 0 {
      var front, v := s[..|s| - 1], Value(10, s);
      PadOfValue(front);
      assert v / 10 == Value(10, front) && v % 10 == DigitOf(s[|s| - 1]);
      assert s == front + [s[|s| - 1]];
    }
  }

  lemma {:induction false} ValueOfPad(n: nat, width: nat)
    requires n < Pow(10, width)
    ensures Value(10, Pad(n, width)) == n
  {
    if width > 0 {
      var s := Pad(n, width);
      TenthBelow(n, Pow(10, width - 1));
      ValueOfPad(n / 10, width - 1);
      assert s[..width - 1] == Pad(n / 10, width - 1);
    }
  }

  lemma TenthBelow(n: nat, p: nat)
    requires n < 10 * p
    ensures n / 10 < p
  {}

  lemma SmallPowers()
    ensures Pow(10, 2) == 100 && Pow(10, 4) == 10000 && Pow(10, 6) == 1_000_000
  {
    var one, two, three, four, five, six := 1, 2, 3, 4, 5, 6;
    assert Pow(10, one) == 10 * Pow(10, 0);
    assert Pow(10, two) == 10 * Pow(10, one);
    assert Pow(10, three) == 10 * Pow(10, two);
    assert Pow(10, four) == 10 * Pow(10, three);
    assert Pow(10, five) == 10 * Pow(10, four);
    assert Pow(10, six) == 10 * Pow(10, five);
  }

  // ----- The accepted texts are the texts of timestamps -----

  lemma HeadSlices(date: Date, separator: char, hour: nat, minute: nat, second: nat, rest: string)
    requires date.year >= 0 && date.month >= 0 && date.day >= 0
    ensures var s := HeadText(date, separator, hour, minute, second) + rest;
            && s[0..4] == Pad(date.year, 4) && s[4] == '-' && s[5..7] == Pad(date.month, 2) && s[7] == '-'
            && s[8..10] == Pad(date.day, 2) && s[10] == separator && s[11..13] == Pad(hour, 2) && s[13] == ':'
            && s[14..16] == Pad(minute, 2) && s[16] == ':' && s[17..19] == Pad(second, 2) && s[19..] == rest
  {
  }

  lemma SlicePad(s: string, offset: nat, width: nat, n: nat)
    requires offset + width <= |s| && s[offset..offset + width] == Pad(n, width) && n < Pow(10, width)
    ensures DigitsAt(s, offset, width) && NumberAt(s, offset, width) == n
  {
    ValueOfPad(n, width);
  }

  lemma HeadReads(t: Stamp, rest: string)
    requires WellFormed(t) && |rest| > 0
    ensures var s := HeadText(t.date, t.separator, t.hour, t.minute, t.second) + rest;
            && HeadAt(s) && DateText(s[..10])
            && NumberAt(s, 0, 4) == t.date.year && NumberAt(s, 5, 2) == t.date.month && NumberAt(s, 8, 2) == t.date.day
            && NumberAt(s, 11, 2) == t.hour && NumberAt(s, 14, 2) == t.minute && NumberAt(s, 17, 2) == t.second
  {
    var s := HeadText(t.date, t.separator, t.hour, t.minute, t.second) + rest;
    HeadSlices(t.date, t.separator, t.hour, t.minute, t.second, rest);
    SmallPowers();
    SlicePad(s, 0, 4, t.date.year);
    SlicePad(s, 5, 2, t.date.month);
    SlicePad(s, 8, 2, t.date.day);
    SlicePad(s, 11, 2, t.hour);
    SlicePad(s, 14, 2, t.minute);
    SlicePad(s, 17, 2, t.second);
    TenBytes(s);
  }

  lemma TenBytes(s: string)
    requires HeadAt(s)
    ensures var day := NumberAt(s, 8, 2);
            DateText(s[..10]) <==> 1 <= day <= MonthDays(NumberAt(s, 0, 4), NumberAt(s, 5, 2))
  {
    var ten := s[..10];
    assert ten[0..4] == s[0..4] && ten[5..7] == s[5..7] && ten[8..10] == s[8..10];
  }

  lemma {:induction false} FindZoneAt(s: string, index: nat, z: nat)
    requires index <= z < |s| && IsMark(s[z]) && forall i | index <= i < z :: !IsMark(s[i])
    ensures FindZone(s, index) == Some(z)
    decreases z - index
  {
    if index < z { FindZoneAt(s, index + 1, z); }
  }

  /** The marks are sought in turn from different ends of the program, and found in one place. */
  lemma OnlyZone(s: string, z: nat)
    requires 19 <= z < |s| && |s| >= 20 && IsMark(s[z])
    requires forall i | 19 <= i < |s| && i != z :: !IsMark(s[i])
    ensures ZoneStart(s) == Some(z) && FindZone(s, 19) == Some(z)
  {
    FindZoneAt(s, 19, z);
  }

  function ZoneSeconds(zone: Zone): int {
    match zone
    case Zulu(_) => 0
    case Offset(positive, hours, minutes) =>
      if positive then hours * 3600 + minutes * 60 else 0 - (hours * 3600 + minutes * 60)
  }

  lemma ZoneReads(s: string, z: nat, zone: Zone)
    requires ZoneOk(zone) && z <= |s| && s[z..] == ZoneText(zone)
    ensures z < |s| && ZoneAt(s, z) && IsMark(s[z]) && (IsZulu(s[z]) || z + 6 <= |s|)
    ensures forall i | z < i < |s| :: !IsMark(s[i])
    ensures OffsetSeconds(s, z) == ZoneSeconds(zone)
  {
    var text := ZoneText(zone);
    assert s[z] == text[0];
    if zone.Offset? {
      SmallPowers();
      assert s[z + 1..z + 3] == text[1..3] == Pad(zone.hours, 2);
      assert s[z + 3] == text[3] == ':';
      assert s[z + 4..z + 6] == text[4..6] == Pad(zone.minutes, 2);
      SlicePad(s, z + 1, 2, zone.hours);
      SlicePad(s, z + 4, 2, zone.minutes);
      assert forall i | z < i < |s| :: s[i] == text[i - z];
    }
  }

  function ZoneIndex(fraction: string): nat {
    19 + |FractionText(fraction)|
  }

  lemma NoMark(fraction: string, i: nat)
    requires IsDecimal(fraction) && i < |FractionText(fraction)|
    ensures !IsMark(FractionText(fraction)[i])
  {
    if i > 0 { assert '0' <= fraction[i - 1] <= '9'; }
  }

  lemma TailReads(s: string, fraction: string, zone: Zone)
    requires IsDecimal(fraction) && ZoneOk(zone)
    requires |s| >= 19 && s[19..] == FractionText(fraction) + ZoneText(zone)
    ensures var z := ZoneIndex(fraction);
            && z < |s| && ZoneStart(s) == Some(z) && FindZone(s, 19) == Some(z) && ZoneAt(s, z)
            && (IsZulu(s[z]) || z + 6 <= |s|) && OffsetSeconds(s, z) == ZoneSeconds(zone)
  {
    var z, tail := ZoneIndex(fraction), s[19..];
    assert s[z..] == tail[z - 19..] == ZoneText(zone);
    ZoneReads(s, z, zone);
    forall i | 19 <= i < z
      ensures !IsMark(s[i])
    {
      NoMark(fraction, i - 19);
      assert s[i] == tail[i - 19] == FractionText(fraction)[i - 19];
    }
    OnlyZone(s, z);
  }

  lemma FractionReads(s: string, fraction: string, rest: string)
    requires IsDecimal(fraction) && |rest| > 0
    requires |s| >= 19 && s[19..] == FractionText(fraction) + rest
    ensures var z := ZoneIndex(fraction);
            && z < |s| && FractionAt(s, z)
            && (if fraction == "" then z == 19 else z > 20 && s[20..z] == fraction)
  {
    if fraction != "" {
      var z, tail := ZoneIndex(fraction), s[19..];
      assert s[19] == tail[0] == '.';
      assert s[20..z] == tail[1..z - 19] == fraction;
    }
  }

  lemma {:induction false} MicrosecondsFrom(s: string, z: nat, seconds: int, fraction: string)
    requires Rfc3339(s) && 19 <= z < |s| && FindZone(s, 19) == Some(z)
    requires (IsZulu(s[z]) || z + 6 <= |s|) && SecondsAt(s, z) == seconds
    requires if fraction == "" then z == 19 else z > 20 && s[20..z] == fraction
    ensures Rfc3339Microseconds(s) == Some(Wrap64(Wrap64(seconds * 1_000_000) + FractionMicros(fraction)))
  {
    NoFraction();
  }

  /** What the six numbers of the head must be. */
  predicate Clock(s: string, t: Stamp)
    requires |s| >= 19
  {
    && NumberAt(s, 0, 4) == t.date.year && NumberAt(s, 5, 2) == t.date.month && NumberAt(s, 8, 2) == t.date.day
    && NumberAt(s, 11, 2) == t.hour && NumberAt(s, 14, 2) == t.minute && NumberAt(s, 17, 2) == t.second
  }

  lemma PartsAreAccepted(s: string, t: Stamp, z: nat)
    requires WellFormed(t) && HeadAt(s) && DateText(s[..10]) && Clock(s, t)
    requires 19 <= z < |s| && ZoneStart(s) == Some(z) && FractionAt(s, z) && ZoneAt(s, z)
    ensures Rfc3339(s)
  {
  }

  lemma SecondsRead(s: string, t: Stamp, z: nat)
    requires WellFormed(t) && 19 <= z < |s| && Clock(s, t)
    requires (IsZulu(s[z]) || z + 6 <= |s|) && OffsetSeconds(s, z) == ZoneSeconds(t.zone)
    ensures SecondsAt(s, z) == Seconds(t)
  {
  }

  lemma TextSplits(t: Stamp, s: string, rest: string)
    requires WellFormed(t) && rest == FractionText(t.fraction) + ZoneText(t.zone)
    requires s == HeadText(t.date, t.separator, t.hour, t.minute, t.second) + rest
    ensures |s| >= 20 && HeadAt(s) && DateText(s[..10]) && Clock(s, t) && s[19..] == rest
  {
    HeadReads(t, rest);
  }

  lemma TextIsHeadAndRest(t: Stamp) returns (rest: string)
    requires WellFormed(t)
    ensures rest == FractionText(t.fraction) + ZoneText(t.zone)
    ensures TextOf(t) == HeadText(t.date, t.separator, t.hour, t.minute, t.second) + rest
  {
    rest := FractionText(t.fraction) + ZoneText(t.zone);
  }

  lemma PartsAreRead(t: Stamp, s: string, z: nat)
    requires WellFormed(t) && |s| >= 20 && HeadAt(s) && DateText(s[..10]) && Clock(s, t)
    requires s[19..] == FractionText(t.fraction) + ZoneText(t.zone) && z == ZoneIndex(t.fraction)
    ensures Rfc3339(s)
    ensures Rfc3339Microseconds(s) == Some(Wrap64(Wrap64(Seconds(t) * 1_000_000) + FractionMicros(t.fraction)))
  {
    TailReads(s, t.fraction, t.zone);
    FractionReads(s, t.fraction, ZoneText(t.zone));
    PartsAreAccepted(s, t, z);
    SecondsRead(s, t, z);
    MicrosecondsFrom(s, z, Seconds(t), t.fraction);
  }

  /** Every timestamp is accepted, and its parts are read as they are. */
  lemma TextIsRead(t: Stamp)
    requires WellFormed(t)
    ensures Rfc3339(TextOf(t))
    ensures Rfc3339Microseconds(TextOf(t)) == Some(Wrap64(Wrap64(Seconds(t) * 1_000_000) + FractionMicros(t.fraction)))
  {
    var rest := TextIsHeadAndRest(t);
    TextSplits(t, TextOf(t), rest);
    PartsAreRead(t, TextOf(t), ZoneIndex(t.fraction));
  }

  lemma NoFraction()
    ensures FractionMicros("") == 0
  {
    var zeros := "" + "000000";
    assert zeros[..6] == zeros;
    ValueZeros(10, zeros);
  }

  /** Seconds since the epoch, leaving the fraction out. */
  function Seconds(t: Stamp): int {
    Days(t.date) * 86400 + t.hour * 3600 + t.minute * 60 + t.second - ZoneSeconds(t.zone)
  }

  lemma HeadOfSlices(s: string)
    requires HeadAt(s)
    ensures s[..19] == HeadOf(s[0..4], s[5..7], s[8..10], s[10], s[11..13], s[14..16], s[17..19])
  {
  }

  lemma SliceIsPad(s: string, offset: nat, width: nat)
    requires DigitsAt(s, offset, width)
    ensures s[offset..offset + width] == Pad(NumberAt(s, offset, width), width)
    ensures NumberAt(s, offset, width) < Pow(10, width)
  {
    var slice := s[offset..offset + width];
    PadOfValue(slice);
    assert AllDigits(10, slice);
    ValueBound(10, slice);
  }

  lemma HeadIsText(s: string, date: Date)
    requires HeadAt(s) && date == Date(NumberAt(s, 0, 4), NumberAt(s, 5, 2), NumberAt(s, 8, 2))
    ensures s[..19] == HeadText(date, s[10], NumberAt(s, 11, 2), NumberAt(s, 14, 2), NumberAt(s, 17, 2))
  {
    HeadOfSlices(s);
    SliceIsPad(s, 0, 4);
    SliceIsPad(s, 5, 2);
    SliceIsPad(s, 8, 2);
    SliceIsPad(s, 11, 2);
    SliceIsPad(s, 14, 2);
    SliceIsPad(s, 17, 2);
  }

  lemma DateIsRead(s: string) returns (date: Date)
    requires HeadAt(s) && DateText(s[..10])
    ensures date == Date(NumberAt(s, 0, 4), NumberAt(s, 5, 2), NumberAt(s, 8, 2))
    ensures 0 <= date.year <= 9999 && IsDate(date)
  {
    date := Date(NumberAt(s, 0, 4), NumberAt(s, 5, 2), NumberAt(s, 8, 2));
    TenBytes(s);
    SmallPowers();
    SliceIsPad(s, 0, 4);
  }

  lemma OffsetSlices(s: string, z: nat)
    requires z + 6 == |s| && s[z + 3] == ':'
    ensures s[z..] == OffsetOf(s[z], s[z + 1..z + 3], s[z + 4..z + 6])
  {
  }

  lemma OffsetIsText(s: string, z: nat) returns (zone: Zone)
    requires z < |s| && ZoneAt(s, z) && (s[z] == '+' || s[z] == '-')
    ensures ZoneOk(zone) && s[z..] == ZoneText(zone)
  {
    var hours, minutes := NumberAt(s, z + 1, 2), NumberAt(s, z + 4, 2);
    zone := Offset(s[z] == '+', hours, minutes);
    SliceIsPad(s, z + 1, 2);
    SliceIsPad(s, z + 4, 2);
    OffsetSlices(s, z);
  }

  lemma ZoneIsText(s: string, z: nat) returns (zone: Zone)
    requires z < |s| && ZoneAt(s, z) && IsMark(s[z])
    ensures ZoneOk(zone) && s[z..] == ZoneText(zone)
  {
    var c := s[z];
    if IsZulu(c) {
      zone := Zulu(c);
      assert s[z..] == [c];
    } else {
      zone := OffsetIsText(s, z);
    }
  }

  lemma FractionIsText(s: string, z: nat) returns (fraction: string)
    requires 19 <= z < |s| && FractionAt(s, z)
    ensures IsDecimal(fraction) && s[19..z] == FractionText(fraction)
  {
    if z == 19 {
      fraction := "";
    } else {
      fraction := s[20..z];
      assert s[19..z] == [s[19]] + s[20..z];
    }
  }

  lemma TextOfParts(t: Stamp, s: string, z: nat)
    requires WellFormed(t) && 19 <= z <= |s|
    requires s[..19] == HeadText(t.date, t.separator, t.hour, t.minute, t.second)
    requires s[19..z] == FractionText(t.fraction) && s[z..] == ZoneText(t.zone)
    ensures TextOf(t) == s
  {
    assert s == s[..19] + s[19..z] + s[z..];
  }

  lemma AcceptedParts(s: string) returns (z: nat)
    requires Rfc3339(s)
    ensures 19 <= z < |s| && HeadAt(s) && DateText(s[..10]) && FractionAt(s, z) && ZoneAt(s, z) && IsMark(s[z])
    ensures NumberAt(s, 11, 2) < 24 && NumberAt(s, 14, 2) < 60 && NumberAt(s, 17, 2) < 60
  {
    z := ZoneStart(s).value;
  }

  lemma ReadStamp(s: string) returns (t: Stamp)
    requires Rfc3339(s)
    ensures WellFormed(t) && TextOf(t) == s
  {
    var z := AcceptedParts(s);
    var date := DateIsRead(s);
    HeadIsText(s, date);
    var zone := ZoneIsText(s, z);
    var fraction := FractionIsText(s, z);
    t := Stamp(date, s[10], NumberAt(s, 11, 2), NumberAt(s, 14, 2), NumberAt(s, 17, 2), fraction, zone);
    TextOfParts(t, s, z);
  }

  ghost predicate IsText(s: string) {
    exists t | WellFormed(t) :: TextOf(t) == s
  }

  /** The texts accepted are exactly those of well-formed timestamps. */
  lemma AcceptsExactly(s: string)
    ensures Rfc3339(s) <==> IsText(s)
  {
    if Rfc3339(s) {
      var t := ReadStamp(s);
    }
    if IsText(s) {
      var t :| WellFormed(t) && TextOf(t) == s;
      TextIsRead(t);
    }
  }

  // ----- Rounding -----

  /** `n` is the integer nearest to `num / den`, the even one of two. */
  predicate HalfEven(n: int, num: int, den: nat) {
    var gap := 2 * (n * den - num);
    0 - den <= gap <= den && (gap == den || gap == 0 - den ==> n % 2 == 0)
  }

  lemma HalfEvenUnique(n: int, m: int, num: int, den: nat)
    requires den > 0 && HalfEven(n, num, den) && HalfEven(m, num, den)
    ensures n == m
  {
    if n < m { Apart(n, m, num, den); }
    if m < n { Apart(m, n, num, den); }
  }

  lemma Apart(n: int, m: int, num: int, den: nat)
    requires den > 0 && n < m && HalfEven(n, num, den)
    ensures !HalfEven(m, num, den)
  {
    var gap, later := 2 * (n * den - num), 2 * (m * den - num);
    assert later == gap + 2 * ((m - n) * den);
    if m - n > 1 {
      MulAtLeast(m - n, den);
      assert later > den;
    } else {
      assert later == gap + 2 * den;
    }
  }

  lemma MulAtLeast(k: int, den: nat)
    requires k > 1
    ensures k * den >= 2 * den
  {
    assert (k - 2) * den >= 0;
  }

  lemma HalfEvenScaled(n: int, num: int, den: nat, c: nat)
    requires c > 0 && HalfEven(n, num, den)
    ensures HalfEven(n, num * c, den * c)
  {
    var gap := 2 * (n * den - num);
    assert 2 * (n * (den * c) - num * c) == gap * c;
    assert (den - gap) * c >= 0 && (den + gap) * c >= 0;
    if gap != den { assert (den - gap) * c > 0; }
    if gap != 0 - den { assert (den + gap) * c > 0; }
  }

  lemma HalfEvenShifted(n: int, num: int, den: nat, half: int)
    requires HalfEven(n, num, den)
    ensures HalfEven(2 * half + n, 2 * half * den + num, den)
  {
    assert (2 * half + n) * den == 2 * half * den + n * den;
  }

  /** Comparing the first dropped digit with five, and the later ones with nothing, decides the rounding. */
  lemma DroppedDigits(micros: nat, d: nat, later: nat, p: nat)
    requires d < 10 && later < p
    ensures var rounded := if d > 5 || (d == 5 && (later > 0 || micros % 2 == 1)) then micros + 1 else micros;
            HalfEven(rounded, micros * (10 * p) + (d * p + later), 10 * p)
  {
    assert (micros + 1) * (10 * p) == micros * (10 * p) + 10 * p;
    if d > 5 {
      DigitTimes(d - 6, p);
      DigitTimes(9 - d, p);
    } else if d < 5 {
      DigitTimes(4 - d, p);
      assert d * p >= 0;
    }
  }

  lemma DigitTimes(k: nat, p: nat)
    ensures k * p >= 0
  {}

  lemma {:induction false} AllZero(s: string)
    requires IsDecimal(s)
    ensures Value(10, s) == 0 <==> forall i | 0 <= i < |s| :: s[i] == '0'
  {
    if |s| > 0 {
      var front := s[..|s| - 1];
      AllZero(front);
      if forall i | 0 <= i < |s| :: s[i] == '0' {
        assert forall i | 0 <= i < |front| :: front[i] == s[i];
      } else if forall i | 0 <= i < |front| :: front[i] == '0' {
        assert forall i | 0 <= i < |front| :: front[i] == s[i];
        assert s[|s| - 1] != '0';
      }
    }
  }

  /** The microseconds of a fraction are the fraction, rounded half to even, however many digits it has. */
  lemma FractionRounds(digits: string)
    requires IsDecimal(digits)
    ensures HalfEven(FractionMicros(digits), Value(10, digits) * 1_000_000, Pow(10, |digits|))
    ensures FractionMicros(digits) <= 1_000_000
  {
    SmallPowers();
    if |digits| <= 6 {
      ShortFraction(digits);
    } else {
      LongFraction(digits, digits[..6], digits[6], digits[7..]);
    }
  }

  lemma {:induction false} ShortFraction(digits: string)
    requires IsDecimal(digits) && |digits| <= 6
    ensures FractionMicros(digits) * Pow(10, |digits|) == Value(10, digits) * 1_000_000
    ensures FractionMicros(digits) < 1_000_000
    ensures FractionMicros(digits) == Value(10, digits) * Pow(10, 6 - |digits|)
  {
    var zeros := Zeros(6 - |digits|);
    assert (digits + "000000")[..6] == digits + zeros;
    ValueConcat(10, digits, zeros);
    ValueZeros(10, zeros);
    SmallPowers();
    PowAdd(10, 6 - |digits|, |digits|);
    var v, p, q := Value(10, digits), Pow(10, 6 - |digits|), Pow(10, |digits|);
    assert v * p * q == v * (p * q);
    assert AllDigits(10, digits + zeros);
    ValueBound(10, digits + zeros);
  }

  lemma {:induction false} LongFraction(digits: string, six: string, next: char, later: string)
    requires IsDecimal(digits) && |digits| > 6 && six == digits[..6] && next == digits[6] && later == digits[7..]
    ensures HalfEven(FractionMicros(digits), Value(10, digits) * 1_000_000, Pow(10, |digits|))
    ensures FractionMicros(digits) <= 1_000_000
  {
    var micros, d, rest, p := Value(10, six), DigitOf(next), Value(10, later), Pow(10, |later|);
    assert (digits + "000000")[..6] == six;
    assert forall i | 0 <= i < |later| :: later[i] == digits[7 + i];
    AllZero(later);
    assert (exists i | 7 <= i < |digits| :: digits[i] != '0') <==> rest > 0 by {
      if i :| 7 <= i < |digits| && digits[i] != '0' {
        assert later[i - 7] != '0';
      }
    }
    assert AllDigits(10, later) && AllDigits(10, six);
    ValueBound(10, later);
    ValueBound(10, six);
    SmallPowers();
    DroppedDigits(micros, d, rest, p);
    FractionValue(digits, six, next, later);
    HalfEvenScaled(FractionMicros(digits), Value(10, digits), 10 * p, 1_000_000);
  }

  lemma {:induction false} FractionValue(digits: string, six: string, next: char, later: string)
    requires IsDecimal(digits) && |digits| > 6 && six == digits[..6] && next == digits[6] && later == digits[7..]
    ensures var p := Pow(10, |later|);
            && Value(10, digits) == Value(10, six) * (10 * p) + (DigitOf(next) * p + Value(10, later))
            && Pow(10, |digits|) == 10 * p * 1_000_000
  {
    var tail := [next] + later;
    assert digits == six + tail;
    ValueConcat(10, six, tail);
    ValueConcat(10, [next], later);
    assert Value(10, [next]) == DigitOf(next) by { assert [next][..0] == ""; }
    SmallPowers();
    PowAdd(10, 6, |tail|);
  }

  // ----- The instant of a timestamp -----

  /** The exact instant, in microseconds, over `Pow(10, |t.fraction|)`. */
  function ExactMicros(t: Stamp): int {
    (Seconds(t) * Pow(10, |t.fraction|) + Value(10, t.fraction)) * 1_000_000
  }

  lemma YearBounds(d: Date)
    requires IsDate(d) && 0 <= d.year <= 9999
    ensures -719_528 <= Days(d) <= 2_932_896
  {
    if d != Date(0, 1, 1) { DaysGrow(Date(0, 1, 1), d); }
    if d != Date(9999, 12, 31) { DaysGrow(d, Date(9999, 12, 31)); }
    assert Days(Date(0, 1, 1)) == -719_528 && Days(Date(9999, 12, 31)) == 2_932_896;
  }

  lemma NoWrap(t: Stamp, fraction: nat)
    requires WellFormed(t) && fraction <= 1_000_000
    ensures InInt64(Seconds(t) * 1_000_000) && InInt64(Seconds(t) * 1_000_000 + fraction)
  {
    YearBounds(t.date);
    assert -86400 <= ZoneSeconds(t.zone) <= 86400;
  }

  lemma MicrosecondsUnwrapped(t: Stamp)
    requires WellFormed(t)
    ensures Rfc3339Microseconds(TextOf(t)) == Some(Seconds(t) * 1_000_000 + FractionMicros(t.fraction))
  {
    TextIsRead(t);
    FractionRounds(t.fraction);
    NoWrap(t, FractionMicros(t.fraction));
  }

  lemma WholeAndFraction(seconds: int, f: nat, p: nat, v: nat)
    requires HalfEven(f, v * 1_000_000, p)
    ensures HalfEven(seconds * 1_000_000 + f, (seconds * p + v) * 1_000_000, p)
  {
    var half := seconds * 500_000;
    HalfEvenShifted(f, v * 1_000_000, p, half);
    assert 2 * half == seconds * 1_000_000;
    assert 2 * half * p + v * 1_000_000 == (seconds * p + v) * 1_000_000 by {
      assert 2 * half * p == seconds * p * 1_000_000;
    }
  }

  /** The microsecond nearest to the instant, the even one of two. */
  predicate IsNearest(t: Stamp, micros: int) {
    HalfEven(micros, ExactMicros(t), Pow(10, |t.fraction|))
  }

  lemma NearestIs(t: Stamp)
    requires WellFormed(t)
    ensures IsNearest(t, Seconds(t) * 1_000_000 + FractionMicros(t.fraction))
  {
    FractionRounds(t.fraction);
    WholeAndFraction(Seconds(t), FractionMicros(t.fraction), Pow(10, |t.fraction|), Value(10, t.fraction));
  }

  /**
   Every accepted timestamp names the microsecond nearest to its exact instant, ties going to
   the even one, whatever its offset and however many fraction digits it has.
   */
  lemma MicrosecondsExact(t: Stamp)
    requires WellFormed(t)
    ensures Rfc3339Microseconds(TextOf(t)).Some? && IsNearest(t, Rfc3339Microseconds(TextOf(t)).value)
  {
    MicrosecondsUnwrapped(t);
    NearestIs(t);
  }

  // ----- PostgreSQL's decimal seconds -----

  function EpochParts(value: string): (bool, string, string) {
    var negative := "-" <= value;
    var unsigned := if negative then value[1..] else value;
    match IndexFrom(unsigned, 0, '.')
    case None => (negative, unsigned, "")
    case Some(point) => (negative, unsigned[..point], unsigned[point + 1..])
  }

  /** `epoch_microseconds`. */
  function EpochMicroseconds(value: string): Option<int> {
    var (negative, whole, fraction) := EpochParts(value);
    EpochFrom(negative, whole, fraction)
  }

  function EpochFrom(negative: bool, whole: string, fraction: string): Option<int> {
    if whole == "" || |fraction| > 6 || !IsDecimal(whole) || !IsDecimal(fraction) then None
    else if Value(10, whole) >= 0x8000_0000_0000_0000 then None
    else
      var padded := fraction + Zeros(6 - |fraction|);
      var result := Wrap64(Wrap64(Value(10, whole) * 1_000_000) + Value(10, padded));
      Some(if negative then Wrap64(0 - result) else result)
  }

  /** Decimal seconds: a sign, a whole part, and up to six digits after a point. */
  datatype Seconds10 = Seconds10(negative: bool, whole: string, point: bool, fraction: string)

  predicate DecimalSeconds(e: Seconds10) {
    && |e.whole| > 0 && IsDecimal(e.whole) && IsDecimal(e.fraction) && |e.fraction| <= 6
    && (!e.point ==> e.fraction == "")
  }

  function SecondsText(e: Seconds10): string {
    (if e.negative then "-" else "") + e.whole + (if e.point then "." + e.fraction else "")
  }

  /** The microseconds the text stands for; it has no finer digits. */
  function SecondsMicros(e: Seconds10): int
    requires DecimalSeconds(e)
  {
    var magnitude := Value(10, e.whole) * 1_000_000 + Value(10, e.fraction) * Pow(10, 6 - |e.fraction|);
    if e.negative then 0 - magnitude else magnitude
  }

  lemma SecondsSplit(e: Seconds10)
    requires DecimalSeconds(e)
    ensures var text := SecondsText(e);
            && ("-" <= text <==> e.negative)
            && var unsigned := if e.negative then text[1..] else text;
               unsigned == e.whole + (if e.point then "." + e.fraction else "")
               && IndexFrom(unsigned, 0, '.') == if e.point then Some(|e.whole|) else None
  {
    var text := SecondsText(e);
    var unsigned := e.whole + (if e.point then "." + e.fraction else "");
    assert e.negative ==> text[1..] == unsigned;
    assert !e.negative ==> text == unsigned && text[0] == e.whole[0];
    var r := IndexFrom(unsigned, 0, '.');
    assert forall i | 0 <= i < |e.whole| :: unsigned[i] == e.whole[i];
    if e.point { assert unsigned[|e.whole|] == '.'; }
  }

  lemma {:induction false} PaddedFraction(fraction: string)
    requires IsDecimal(fraction) && |fraction| <= 6
    ensures Value(10, fraction + Zeros(6 - |fraction|)) == Value(10, fraction) * Pow(10, 6 - |fraction|)
    ensures Value(10, fraction + Zeros(6 - |fraction|)) < 1_000_000
  {
    var zeros := Zeros(6 - |fraction|);
    ValueConcat(10, fraction, zeros);
    ValueZeros(10, zeros);
    assert AllDigits(10, fraction + zeros);
    ValueBound(10, fraction + zeros);
    SmallPowers();
  }

  lemma WrapCongruent(n: int) returns (turns: int)
    ensures Wrap64(n) == n + turns * 0x1_0000_0000_0000_0000
  {
    turns := 0 - (n + 0x8000_0000_0000_0000) / 0x1_0000_0000_0000_0000;
  }

  lemma WrapTurns(n: int, turns: int)
    ensures Wrap64(n + turns * 0x1_0000_0000_0000_0000) == Wrap64(n)
  {}

  lemma WrapSum(a: int, b: int)
    ensures Wrap64(Wrap64(a) + b) == Wrap64(a + b) && Wrap64(0 - Wrap64(a)) == Wrap64(0 - a)
  {
    var turns := WrapCongruent(a);
    WrapTurns(a + b, turns);
    WrapTurns(0 - a, 0 - turns);
  }

  lemma PartsSplit(whole: string, point: bool, fraction: string)
    requires !point ==> fraction == ""
    ensures var unsigned := whole + (if point then "." + fraction else "");
            if point then unsigned[..|whole|] == whole && unsigned[|whole| + 1..] == fraction else unsigned == whole
  {}

  lemma EpochReads(e: Seconds10)
    requires DecimalSeconds(e)
    ensures EpochParts(SecondsText(e)) == (e.negative, e.whole, e.fraction)
  {
    SecondsSplit(e);
    PartsSplit(e.whole, e.point, e.fraction);
  }

  lemma WrapTwice(whole: int, micros: int)
    ensures Wrap64(Wrap64(whole) + micros) == Wrap64(whole + micros)
    ensures Wrap64(0 - Wrap64(Wrap64(whole) + micros)) == Wrap64(0 - (whole + micros))
  {
    WrapSum(whole, micros);
    WrapSum(whole + micros, 0);
  }

  lemma EpochValue(e: Seconds10)
    requires DecimalSeconds(e)
    ensures EpochFrom(e.negative, e.whole, e.fraction) ==
              if Value(10, e.whole) >= 0x8000_0000_0000_0000 then None else Some(Wrap64(SecondsMicros(e)))
  {
    var padded := e.fraction + Zeros(6 - |e.fraction|);
    var whole, micros := Value(10, e.whole) * 1_000_000, Value(10, padded);
    PaddedFraction(e.fraction);
    WrapTwice(whole, micros);
    assert SecondsMicros(e) == if e.negative then 0 - (whole + micros) else whole + micros;
  }

  lemma RangeOfSeconds(e: Seconds10)
    requires DecimalSeconds(e) && Value(10, e.whole) >= 0x8000_0000_0000_0000
    ensures !InInt64(SecondsMicros(e))
  {
    PaddedFraction(e.fraction);
  }

  /**
   Decimal seconds are read as their exact microseconds modulo 2^64, or refused when their
   whole part is no 64-bit integer: so they are read exactly when they are in range.
   */
  lemma EpochExactly(e: Seconds10)
    requires DecimalSeconds(e)
    ensures EpochMicroseconds(SecondsText(e)) ==
              if Value(10, e.whole) >= 0x8000_0000_0000_0000 then None else Some(Wrap64(SecondsMicros(e)))
    ensures EpochMicroseconds(SecondsText(e)) == Some(SecondsMicros(e)) <==> InInt64(SecondsMicros(e))
  {
    EpochReads(e);
    EpochValue(e);
    if Value(10, e.whole) >= 0x8000_0000_0000_0000 {
      RangeOfSeconds(e);
    }
  }

  function SecondsOf(micros: int): Seconds10 {
    var magnitude: nat := if micros < 0 then 0 - micros else micros;
    Seconds10(micros < 0, ToDecimal(magnitude / 1_000_000), true, Pad(magnitude % 1_000_000, 6))
  }

  /** How PostgreSQL writes a count of microseconds as seconds. */
  function EpochText(micros: int): string {
    SecondsText(SecondsOf(micros))
  }

  lemma SecondsOfMicros(micros: int)
    ensures DecimalSeconds(SecondsOf(micros)) && SecondsMicros(SecondsOf(micros)) == micros
  {
    var magnitude: nat := if micros < 0 then 0 - micros else micros;
    ToDecimalValue(magnitude / 1_000_000);
    SmallPowers();
    ValueOfPad(magnitude % 1_000_000, 6);
    assert Pow(10, 0) == 1;
  }

  /** Reading inverts that for every 64-bit count, the least one included. */
  lemma EpochInverts(micros: int)
    requires InInt64(micros)
    ensures EpochMicroseconds(EpochText(micros)) == Some(micros)
  {
    SecondsOfMicros(micros);
    EpochExactly(SecondsOf(micros));
  }

  /** `same_timestamp`. */
  predicate SameTimestamp(expected: Option<string>, actual: Option<string>) {
    match (expected, actual)
    case (None, None) => true
    case (Some(e), Some(a)) => Rfc3339Microseconds(e) == EpochMicroseconds(a)
    case _ => false
  }

  /**
   `same_timestamp` on a concept's timestamp and any stored decimal seconds: it holds exactly
   when what is stored, modulo 2^64 microseconds, is that instant rounded half to even.
   */
  lemma SameTimestampExactly(t: Stamp, e: Seconds10)
    requires WellFormed(t) && DecimalSeconds(e)
    ensures SameTimestamp(Some(TextOf(t)), Some(SecondsText(e))) <==>
              Value(10, e.whole) < 0x8000_0000_0000_0000 && IsNearest(t, Wrap64(SecondsMicros(e)))
  {
    MicrosecondsExact(t);
    EpochExactly(e);
    var n := Wrap64(SecondsMicros(e));
    if IsNearest(t, n) {
      NearestIsUnique(t, n, Rfc3339Microseconds(TextOf(t)).value);
    }
  }

  lemma NearestIsUnique(t: Stamp, n: int, m: int)
    requires IsNearest(t, n) && IsNearest(t, m)
    ensures n == m
  {
    HalfEvenUnique(n, m, ExactMicros(t), Pow(10, |t.fraction|));
  }

  // ----- When the comparison is right -----

  /** The microseconds that timestamps of the years 0 to 9999 can be nearest to. */
  predicate InYears(n: int) {
    -62_167_305_540_000_000 <= n <= 253_402_387_140_000_000
  }

  lemma NearestInYears(t: Stamp, n: int)
    requires WellFormed(t) && IsNearest(t, n)
    ensures InYears(n)
  {
    NearestIs(t);
    NearestIsUnique(t, n, Seconds(t) * 1_000_000 + FractionMicros(t.fraction));
    FractionRounds(t.fraction);
    YearBounds(t.date);
    assert -86340 <= ZoneSeconds(t.zone) <= 86340;
  }

  lemma DateOf(days: int) returns (d: Date)
    requires -719_528 <= days <= 2_932_896
    ensures IsDate(d) && 0 <= d.year <= 9999 && Days(d) == days
  {
    var first, last := Date(0, 1, 1), Date(9999, 12, 31);
    d := After(first, days + 719_528);
    AfterCounts(first, days + 719_528);
    assert Days(first) == -719_528 && Days(last) == 2_932_896;
    if d.year < 0 { DaysGrow(d, first); }
    if d.year > 9999 { DaysGrow(last, d); }
  }

  /** A timestamp of any local second in the years 0 to 9999, with any offset and microsecond. */
  lemma StampAt(local: int, zone: Zone, fraction: string) returns (t: Stamp)
    requires -719_528 * 86400 <= local < 2_932_897 * 86400 && ZoneOk(zone) && IsDecimal(fraction)
    ensures WellFormed(t) && t.fraction == fraction && Seconds(t) == local - ZoneSeconds(zone)
  {
    var days, rest := local / 86400, local % 86400;
    var d := DateOf(days);
    t := Stamp(d, 'T', rest / 3600, rest % 3600 / 60, rest % 60, fraction, zone);
  }

  lemma SixDigits(f: nat)
    requires f < 1_000_000
    ensures FractionMicros(Pad(f, 6)) == f
  {
    SmallPowers();
    ValueOfPad(f, 6);
    ShortFraction(Pad(f, 6));
    assert Pow(10, 0) == 1;
  }

  /** The last microsecond of the range is reached by rounding up. */
  lemma RoundsUp()
    ensures FractionMicros(Pad(999_999, 6) + "9") == 1_000_000
  {
    var six := Pad(999_999, 6);
    SmallPowers();
    ValueOfPad(999_999, 6);
    assert (six + "9" + "000000")[..6] == six;
  }

  lemma NearestTo(t: Stamp, seconds: int, f: nat, n: int)
    requires WellFormed(t) && Seconds(t) == seconds && FractionMicros(t.fraction) == f && n == seconds * 1_000_000 + f
    ensures IsNearest(t, n)
  {
    NearestIs(t);
  }

  /** A timestamp in some offset at every microsecond of a second. */
  lemma StampIn(seconds: int, zone: Zone, f: nat, n: int) returns (t: Stamp)
    requires ZoneOk(zone) && f < 1_000_000 && n == seconds * 1_000_000 + f
    requires -719_528 * 86400 <= seconds + ZoneSeconds(zone) < 2_932_897 * 86400
    ensures WellFormed(t) && IsNearest(t, n)
  {
    t := StampAt(seconds + ZoneSeconds(zone), zone, Pad(f, 6));
    SixDigits(f);
    NearestTo(t, seconds, f, n);
  }

  lemma LatestStamp() returns (t: Stamp)
    ensures WellFormed(t) && IsNearest(t, 253_402_387_140_000_000)
  {
    var nines := Pad(999_999, 6) + "9";
    t := StampAt(253_402_300_799, Offset(false, 23, 59), nines);
    RoundsUp();
    NearestTo(t, 253_402_387_139, FractionMicros(nines), 253_402_387_140_000_000);
  }

  /** Every microsecond of that range is nearest to some timestamp. */
  lemma StampOf(n: int) returns (t: Stamp)
    requires InYears(n)
    ensures WellFormed(t) && IsNearest(t, n)
  {
    var s, f := n / 1_000_000, n % 1_000_000;
    if s < -62_167_219_200 {
      t := StampIn(s, Offset(true, 23, 59), f, n);
    } else if s < 253_402_300_800 {
      t := StampIn(s, Zulu('Z'), f, n);
    } else if s < 253_402_387_140 {
      t := StampIn(s, Offset(false, 23, 59), f, n);
    } else {
      t := LatestStamp();
    }
  }

  /** Whatever the timestamp, the comparison with these decimal seconds is right. */
  ghost predicate ComparedRightly(e: Seconds10)
    requires DecimalSeconds(e)
  {
    forall t | WellFormed(t) ::
      SameTimestamp(Some(TextOf(t)), Some(SecondsText(e))) <==> IsNearest(t, SecondsMicros(e))
  }

  /**
   The comparison is right exactly if the microseconds fit 64 bits, or the whole part does not,
   or wrapping them around ends outside the years a timestamp can have.
   */
  lemma ComparedRightlyExactly(e: Seconds10)
    requires DecimalSeconds(e)
    ensures ComparedRightly(e) <==>
              || InInt64(SecondsMicros(e)) || Value(10, e.whole) >= 0x8000_0000_0000_0000
              || !InYears(Wrap64(SecondsMicros(e)))
  {
    var m := SecondsMicros(e);
    if Value(10, e.whole) >= 0x8000_0000_0000_0000 { RangeOfSeconds(e); }
    forall t | WellFormed(t)
      ensures SameTimestamp(Some(TextOf(t)), Some(SecondsText(e))) <==>
                Value(10, e.whole) < 0x8000_0000_0000_0000 && IsNearest(t, Wrap64(m))
      ensures IsNearest(t, m) ==> InYears(m)
      ensures IsNearest(t, Wrap64(m)) ==> InYears(Wrap64(m))
    {
      SameTimestampExactly(t, e);
      if IsNearest(t, m) { NearestInYears(t, m); }
      if IsNearest(t, Wrap64(m)) { NearestInYears(t, Wrap64(m)); }
    }
    if !InInt64(m) && Value(10, e.whole) < 0x8000_0000_0000_0000 && InYears(Wrap64(m)) {
      var t := StampOf(Wrap64(m));
      assert SameTimestamp(Some(TextOf(t)), Some(SecondsText(e))) && !IsNearest(t, m);
    }
  }

  lemma WrapsFar(m: int)
    requires -9_224_318_015_999_999_999 <= m <= 9_224_318_015_999_999_999
    ensures InInt64(m) || !InYears(Wrap64(m))
  {
    if m >= 0x8000_0000_0000_0000 {
      assert Wrap64(m) == m - 0x1_0000_0000_0000_0000;
    } else if m < -0x8000_0000_0000_0000 {
      assert Wrap64(m) == m + 0x1_0000_0000_0000_0000;
    }
  }

  lemma SecondsAreBounded(e: Seconds10, limit: nat)
    requires DecimalSeconds(e) && Value(10, e.whole) <= limit
    ensures -(limit * 1_000_000 + 999_999) <= SecondsMicros(e) <= limit * 1_000_000 + 999_999
  {
    PaddedFraction(e.fraction);
  }

  /** PostgreSQL's own timestamps end within these bounds, so on them the comparison is always right. */
  lemma PostgresIsComparedRightly(e: Seconds10)
    requires DecimalSeconds(e) && Value(10, e.whole) <= 9_224_318_015_999
    ensures ComparedRightly(e)
  {
    SecondsAreBounded(e, 9_224_318_015_999);
    WrapsFar(SecondsMicros(e));
    ComparedRightlyExactly(e);
  }

  lemma WholeSeconds(whole: nat) returns (e: Seconds10)
    ensures e == Seconds10(false, ToDecimal(whole), false, "")
    ensures DecimalSeconds(e) && Value(10, e.whole) == whole && SecondsMicros(e) == whole * 1_000_000
  {
    e := Seconds10(false, ToDecimal(whole), false, "");
    ToDecimalValue(whole);
    assert Value(10, e.fraction) == 0;
  }

  lemma EpochStamp(micros: nat) returns (t: Stamp)
    requires micros < 1_000_000
    ensures t == Stamp(Date(1970, 1, 1), 'T', 0, 0, 0, Pad(micros, 6), Zulu('Z'))
    ensures WellFormed(t) && IsNearest(t, micros)
  {
    t := Stamp(Date(1970, 1, 1), 'T', 0, 0, 0, Pad(micros, 6), Zulu('Z'));
    EpochIsZero();
    SixDigits(micros);
    NearestIs(t);
  }

  /** The stored seconds pass for the timestamp, although its nearest microsecond is another. */
  predicate Mistaken(t: Stamp, e: Seconds10)
    requires WellFormed(t) && DecimalSeconds(e)
  {
    SameTimestamp(Some(TextOf(t)), Some(SecondsText(e))) && !IsNearest(t, SecondsMicros(e))
  }

  lemma WronglyEqual(t: Stamp, e: Seconds10, whole: nat, micros: int)
    requires WellFormed(t) && DecimalSeconds(e) && IsNearest(t, micros) && Wrap64(whole * 1_000_000) == micros
    requires Value(10, e.whole) == whole < 0x8000_0000_0000_0000
    requires SecondsMicros(e) == whole * 1_000_000 && !InYears(whole * 1_000_000)
    ensures Mistaken(t, e)
  {
    SameTimestampExactly(t, e);
    if IsNearest(t, SecondsMicros(e)) { NearestInYears(t, SecondsMicros(e)); }
  }

  /** Beyond them it can be wrong: 18446744073710 seconds are taken for 0.448384. */
  lemma WrongComparison() returns (t: Stamp, e: Seconds10, micros: nat, whole: nat)
    ensures micros == 448_384 && t == Stamp(Date(1970, 1, 1), 'T', 0, 0, 0, Pad(micros, 6), Zulu('Z'))
    ensures whole == 18_446_744_073_710 && e == Seconds10(false, ToDecimal(whole), false, "")
    ensures WellFormed(t) && DecimalSeconds(e) && Mistaken(t, e)
  {
    micros, whole := 448_384, 18_446_744_073_710;
    t := EpochStamp(micros);
    e := WholeSeconds(whole);
    WronglyEqual(t, e, whole, micros);
  }

  /** Out of range the product wraps around and is accepted all the same. */
  lemma {:induction false} WrapsSilently(seconds: nat)
    requires 9_223_372_036_855 <= seconds < 0x8000_0000_0000_0000
    ensures EpochMicroseconds(ToDecimal(seconds)).Some?
    ensures EpochMicroseconds(ToDecimal(seconds)) != Some(seconds * 1_000_000)
  {
    var e := Seconds10(false, ToDecimal(seconds), false, "");
    ToDecimalValue(seconds);
    assert SecondsText(e) == ToDecimal(seconds);
    EpochExactly(e);
  }
}
