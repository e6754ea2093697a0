/**
 The state blob of a publication: `state_body` writes version 3, `parse_state_body`
 reads versions 1, 2 and 3.
 */
module StateCodec {
  import opened Wrappers
  import opened Digits
  import opened Text

  datatype Preservation =
    | NotStarted
    | LegacyUnresolved
    | PushPending(branch: string)
    | Proven(branch: string)

  datatype Version = V1 | V2 | V3

  type Baseline = seq<(string, string)>

  datatype Memo = Memo(
    races: int,
    preservation: Preservation,
    conflicts: seq<string>,
    baseline: Baseline)

  const MAX_MARKDOWN_FILES := 10_000
  const MAX_PATHS := MAX_MARKDOWN_FILES + 2
  const NUL := '\0'
  const MAGIC := "clamp-publish-state-v3"

  // ----- OCaml's integer notation -----

  /** Native integers have 63 bits. */
  const INT_SIZE := 0x4000_0000_0000_0000

  function Wrap(v: int): int {
    if v >= INT_SIZE then v - 2 * INT_SIZE
    else if v < -INT_SIZE then v + 2 * INT_SIZE
    else v
  }

  function Magnitude(base: nat, s: string): Option<nat> {
    if |s| == 0 || s[0] == '_' || !AllDigits(base, WithoutUnderscores(s)) then None
    else Some(Value(base, WithoutUnderscores(s)))
  }

  /** A decimal magnitude is signed and bounded; a prefixed one fills 63 bits and wraps. */
  function InRange(negative: bool, signed: bool, magnitude: Option<nat>): Option<int> {
    match magnitude
    case None => None
    case Some(m) =>
      if signed then
        if m < INT_SIZE || (negative && m == INT_SIZE) then Some(if negative then -(m as int) else m) else None
      else if m < 2 * INT_SIZE then Some(Wrap(if negative then -(m as int) else m))
      else None
  }

  /** The base a prefix selects, whether the number is read as signed, and its digits. */
  function Notation(t: string): (nat, bool, string) {
    if |t| < 2 || t[0] != '0' then (10, true, t)
    else if t[1] == 'x' || t[1] == 'X' then (16, false, t[2..])
    else if t[1] == 'o' || t[1] == 'O' then (8, false, t[2..])
    else if t[1] == 'b' || t[1] == 'B' then (2, false, t[2..])
    else if t[1] == 'u' || t[1] == 'U' then (10, false, t[2..])
    else (10, true, t)
  }

  /** `int_of_string_opt`. */
  function IntOfString(s: string): Option<int> {
    var negative := |s| > 0 && s[0] == '-';
    var (base, signed, digits) := Notation(if |s| > 0 && (s[0] == '-' || s[0] == '+') then s[1..] else s);
    InRange(negative, signed, Magnitude(base, digits))
  }

  /** `string_of_int`. */
  function StringOfInt(n: int): string {
    if n < 0 then "-" + ToDecimal(-n) else ToDecimal(n)
  }

  lemma MagnitudeReadsBack(n: nat)
    ensures Magnitude(10, ToDecimal(n)) == Some(n)
  {
    var s := ToDecimal(n);
    NoUnderscores(s);
    ToDecimalValue(n);
    assert forall i | 0 <= i < |s| :: DigitOf(s[i]) < 10;
  }

  lemma NoPrefix(n: nat)
    ensures Notation(ToDecimal(n)) == (10, true, ToDecimal(n))
  {}

  /** Every native integer, of either sign, is read back from its decimal text. */
  lemma IntRoundTrip(n: int)
    requires -INT_SIZE <= n < INT_SIZE
    ensures IntOfString(StringOfInt(n)) == Some(n)
  {
    var m: nat := if n < 0 then -n else n;
    MagnitudeReadsBack(m);
    NoPrefix(m);
    if n < 0 { assert StringOfInt(n)[1..] == ToDecimal(m); }
  }

  // ----- Writing -----

  function PreservationFields(p: Preservation): (fields: seq<string>)
    ensures |fields| == 2
  {
    match p
    case NotStarted => ["none", ""]
    case LegacyUnresolved => ["legacy_unresolved", ""]
    case PushPending(branch) => ["push_pending", branch]
    case Proven(branch) => ["proven", branch]
  }

  function Flatten(baseline: Baseline): (fields: seq<string>)
    ensures |fields| == 2 * |baseline|
  {
    if |baseline| == 0 then []
    else [baseline[0].0, baseline[0].1] + Flatten(baseline[1..])
  }

  function Payload(conflicts: seq<string>, baseline: Baseline): seq<string> {
    conflicts + [StringOfInt(|baseline|)] + Flatten(baseline) + [""]
  }

  function Fields(m: Memo): seq<string> {
    [MAGIC, StringOfInt(m.races)] + PreservationFields(m.preservation)
    + [StringOfInt(|m.conflicts|)] + Payload(m.conflicts, m.baseline)
  }

  function StateBody(m: Memo): string {
    Join(NUL, Fields(m))
  }

  // ----- Reading -----

  function Take(count: nat, values: seq<string>): Option<(seq<string>, seq<string>)> {
    if count == 0 then Some(([], values))
    else if |values| == 0 then None
    else
      match Take(count - 1, values[1..])
      case None => None
      case Some((selected, remaining)) => Some(([values[0]] + selected, remaining))
  }

  function ParseBaseline(remaining: nat, accumulated: Baseline, values: seq<string>)
    : Option<(Baseline, seq<string>)>
  {
    if remaining == 0 then Some((accumulated, values))
    else if |values| < 2 then None
    else ParseBaseline(remaining - 1, accumulated + [(values[0], values[1])], values[2..])
  }

  predicate StartsWith(prefix: string, s: string) {
    prefix <= s
  }

  predicate ManagedPath(path: string) {
    path == "clamp.yaml" || path == "TODO.md" || StartsWith("knowledge/", path)
  }

  predicate HexDigest(digest: string) {
    |digest| == 64
    && forall i | 0 <= i < 64 :: '0' <= digest[i] <= '9' || 'a' <= digest[i] <= 'f'
  }

  function Self(path: string): string { path }

  function PathOf(entry: (string, string)): string { entry.0 }

  predicate AcceptableConflicts(conflicts: seq<string>) {
    conflicts == SortUnique(conflicts, Self)
    && forall i | 0 <= i < |conflicts| :: ManagedPath(conflicts[i]) && conflicts[i] != "TODO.md"
  }

  predicate AcceptableBaseline(baseline: Baseline) {
    baseline == SortUnique(baseline, PathOf)
    && forall i | 0 <= i < |baseline| :: baseline[i].0 != "" && HexDigest(baseline[i].1)
  }

  function ParseTail(races: int, preservation: Preservation, conflicts: seq<string>, rest: seq<string>)
    : Option<Memo>
  {
    if |rest| == 0 then None else
    match IntOfString(rest[0])
    case None => None
    case Some(count) =>
      if !(0 <= count <= MAX_PATHS) then None else
      match ParseBaseline(count, [], rest[1..])
      case None => None
      case Some((baseline, tail)) =>
        if tail == [""] && 0 <= races <= 3 && AcceptableConflicts(conflicts) && AcceptableBaseline(baseline)
        then Some(Memo(races, preservation, conflicts, baseline))
        else None
  }

  function ParsePayload(racesText: string, preservation: Preservation, countText: string,
                        rest: seq<string>): Option<Memo>
  {
    match (IntOfString(racesText), IntOfString(countText))
    case (Some(races), Some(count)) =>
      if !(0 <= count <= MAX_PATHS) then None else
      (match Take(count, rest)
       case None => None
       case Some((conflicts, tail)) => ParseTail(races, preservation, conflicts, tail))
    case _ => None
  }

  /** What a status word and a branch field of version 3 stand for. */
  function StatusOf(status: string, branch: string): Option<Preservation> {
    if status == "none" && branch == "" then Some(NotStarted)
    else if status == "legacy_unresolved" && branch == "" then Some(LegacyUnresolved)
    else if status == "push_pending" && branch != "" then Some(PushPending(branch))
    else if status == "proven" && branch != "" then Some(Proven(branch))
    else None
  }

  function Unresolved(conflicts: seq<string>): Preservation {
    if conflicts == [] then NotStarted else LegacyUnresolved
  }

  function ParseFields(f: seq<string>): Option<(Version, Memo)> {
    if |f| >= 3 && f[0] == "clamp-publish-state-v1" then
      match ParsePayload(f[1], NotStarted, f[2], f[3..])
      case None => None
      case Some(m) => Some((V1, m.(preservation := Unresolved(m.conflicts))))
    else if |f| >= 4 && f[0] == "clamp-publish-state-v2" then
      match ParsePayload(f[1], if f[2] == "" then NotStarted else PushPending(f[2]), f[3], f[4..])
      case None => None
      case Some(m) =>
        Some((V2, if f[2] != "" then m else m.(preservation := Unresolved(m.conflicts))))
    else if |f| >= 5 && f[0] == MAGIC then
      match StatusOf(f[2], f[3])
      case None => None
      case Some(preservation) =>
        (match ParsePayload(f[1], preservation, f[4], f[5..])
         case None => None
         case Some(m) => Some((V3, m)))
    else None
  }

  function ParseStateBody(body: string): Option<(Version, Memo)> {
    ParseFields(Split(NUL, body))
  }

  // ----- Which memos a blob can hold -----

  predicate NulFree(m: Memo) {
    && (forall i | 0 <= i < |m.conflicts| :: Free(NUL, m.conflicts[i]))
    && (forall i | 0 <= i < |m.baseline| :: Free(NUL, m.baseline[i].0) && Free(NUL, m.baseline[i].1))
    && (m.preservation.PushPending? || m.preservation.Proven? ==> Free(NUL, m.preservation.branch))
  }

  /** The states a blob can carry: stated without the parser or the printer. */
  predicate Storable(m: Memo) {
    && 0 <= m.races <= 3
    && (m.preservation.PushPending? || m.preservation.Proven? ==> m.preservation.branch != "")
    && |m.conflicts| <= MAX_PATHS && Ascending(m.conflicts, Self)
    && (forall i | 0 <= i < |m.conflicts| ::
          ManagedPath(m.conflicts[i]) && m.conflicts[i] != "TODO.md")
    && |m.baseline| <= MAX_PATHS && Ascending(m.baseline, PathOf)
    && (forall i | 0 <= i < |m.baseline| :: m.baseline[i].0 != "" && HexDigest(m.baseline[i].1))
    && NulFree(m)
  }

  // ----- Taking the fields apart again -----

  lemma {:induction false} TakePrefix(selected: seq<string>, remaining: seq<string>)
    ensures Take(|selected|, selected + remaining) == Some((selected, remaining))
  {
    if |selected| == 0 {
      assert selected + remaining == remaining;
    } else {
      TakePrefix(selected[1..], remaining);
      assert (selected + remaining)[1..] == selected[1..] + remaining;
      assert selected == [selected[0]] + selected[1..];
    }
  }

  lemma {:induction false} TakeSplits(count: nat, values: seq<string>)
    requires Take(count, values).Some?
    ensures var (selected, remaining) := Take(count, values).value;
            |selected| == count && selected + remaining == values
  {
    if count > 0 { TakeSplits(count - 1, values[1..]); }
  }

  lemma {:induction false} BaselinePrefix(done: Baseline, baseline: Baseline, tail: seq<string>)
    ensures ParseBaseline(|baseline|, done, Flatten(baseline) + tail) == Some((done + baseline, tail))
    decreases |baseline|
  {
    if |baseline| == 0 {
      assert Flatten(baseline) + tail == tail && done + baseline == done;
    } else {
      var values := Flatten(baseline) + tail;
      assert values[2..] == Flatten(baseline[1..]) + tail;
      assert (values[0], values[1]) == baseline[0];
      BaselinePrefix(done + [baseline[0]], baseline[1..], tail);
      assert done + [baseline[0]] + baseline[1..] == done + baseline;
    }
  }

  lemma {:induction false} BaselineSplits(count: nat, done: Baseline, values: seq<string>)
    requires ParseBaseline(count, done, values).Some?
    ensures var (baseline, tail) := ParseBaseline(count, done, values).value;
            |baseline| == |done| + count && done <= baseline
            && Flatten(baseline[|done|..]) + tail == values
  {
    if count > 0 {
      var entry := (values[0], values[1]);
      BaselineSplits(count - 1, done + [entry], values[2..]);
      var (baseline, tail) := ParseBaseline(count, done, values).value;
      assert baseline[|done|..] == [entry] + baseline[|done| + 1..];
      assert values == [values[0], values[1]] + values[2..];
    } else {
      assert done[|done|..] == [];
    }
  }

  lemma {:induction false} FlattenFree(baseline: Baseline)
    ensures (forall i | 0 <= i < |Flatten(baseline)| :: Free(NUL, Flatten(baseline)[i]))
       <==> (forall i | 0 <= i < |baseline| :: Free(NUL, baseline[i].0) && Free(NUL, baseline[i].1))
  {
    if |baseline| > 0 {
      var rest := baseline[1..];
      var head := [baseline[0].0, baseline[0].1];
      FlattenFree(rest);
      assert Flatten(baseline) == head + Flatten(rest);
      assert head[0] == Flatten(baseline)[0] && head[1] == Flatten(baseline)[1];
      assert forall i | 0 <= i < |rest| :: rest[i] == baseline[i + 1];
      assert forall i | 1 <= i < |baseline| :: baseline[i] == rest[i - 1];
      assert forall i | 0 <= i < |Flatten(rest)| :: Flatten(rest)[i] == Flatten(baseline)[i + 2];
      assert forall i | 2 <= i < |Flatten(baseline)| :: Flatten(baseline)[i] == Flatten(rest)[i - 2];
    }
  }

  // ----- The round trip -----

  lemma StorableIsAcceptable(m: Memo)
    requires Storable(m)
    ensures AcceptableConflicts(m.conflicts) && AcceptableBaseline(m.baseline)
  {
    SortUniqueFixed(m.conflicts, Self);
    SortUniqueFixed(m.baseline, PathOf);
  }

  lemma TailRoundTrip(m: Memo, rest: seq<string>)
    requires 0 <= m.races <= 3 && |m.baseline| <= MAX_PATHS
    requires AcceptableConflicts(m.conflicts) && AcceptableBaseline(m.baseline)
    requires |rest| > 0 && IntOfString(rest[0]) == Some(|m.baseline|)
    requires rest[1..] == Flatten(m.baseline) + [""]
    ensures ParseTail(m.races, m.preservation, m.conflicts, rest) == Some(m)
  {
    BaselinePrefix([], m.baseline, [""]);
    assert [] + m.baseline == m.baseline;
  }

  lemma PayloadRoundTrip(m: Memo, racesText: string, countText: string, rest: seq<string>)
    requires |m.conflicts| <= MAX_PATHS
    requires IntOfString(racesText) == Some(m.races) && IntOfString(countText) == Some(|m.conflicts|)
    requires ParseTail(m.races, m.preservation, m.conflicts, rest) == Some(m)
    ensures ParsePayload(racesText, m.preservation, countText, m.conflicts + rest) == Some(m)
  {
    TakePrefix(m.conflicts, rest);
  }

  lemma DecimalFree(n: nat)
    ensures Free(NUL, StringOfInt(n))
  {}

  lemma MagicFree()
    ensures Free(NUL, MAGIC)
  {}

  lemma HeadFree(m: Memo) returns (head: seq<string>)
    requires Storable(m)
    ensures head == [MAGIC, StringOfInt(m.races)] + PreservationFields(m.preservation) + [StringOfInt(|m.conflicts|)]
    ensures forall i | 0 <= i < |head| :: Free(NUL, head[i])
  {
    MagicFree();
    DecimalFree(m.races);
    DecimalFree(|m.conflicts|);
    var status := PreservationFields(m.preservation);
    head := [MAGIC, StringOfInt(m.races)] + status + [StringOfInt(|m.conflicts|)];
    assert Free(NUL, status[0]) && Free(NUL, status[1]);
  }

  lemma FieldsFree(m: Memo)
    requires Storable(m)
    ensures forall i | 0 <= i < |Fields(m)| :: Free(NUL, Fields(m)[i])
  {
    DecimalFree(|m.baseline|);
    FlattenFree(m.baseline);
    var head := HeadFree(m);
    assert Fields(m) == head + Payload(m.conflicts, m.baseline);
  }

  lemma StatusRoundTrip(p: Preservation)
    requires p.PushPending? || p.Proven? ==> p.branch != ""
    ensures StatusOf(PreservationFields(p)[0], PreservationFields(p)[1]) == Some(p)
  {}

  lemma PayloadReadsBack(m: Memo, racesText: string, countText: string, baselineText: string)
    requires 0 <= m.races <= 3 && |m.conflicts| <= MAX_PATHS && |m.baseline| <= MAX_PATHS
    requires AcceptableConflicts(m.conflicts) && AcceptableBaseline(m.baseline)
    requires IntOfString(racesText) == Some(m.races) && IntOfString(countText) == Some(|m.conflicts|)
    requires IntOfString(baselineText) == Some(|m.baseline|)
    ensures ParsePayload(racesText, m.preservation, countText,
                         m.conflicts + ([baselineText] + Flatten(m.baseline) + [""])) == Some(m)
  {
    var rest := [baselineText] + Flatten(m.baseline) + [""];
    assert rest[1..] == Flatten(m.baseline) + [""];
    TailRoundTrip(m, rest);
    PayloadRoundTrip(m, racesText, countText, rest);
  }

  lemma PayloadParts(m: Memo, baselineText: string)
    requires baselineText == StringOfInt(|m.baseline|)
    ensures Payload(m.conflicts, m.baseline) == m.conflicts + ([baselineText] + Flatten(m.baseline) + [""])
  {}

  lemma StoredPayload(m: Memo)
    requires Storable(m)
    ensures ParsePayload(StringOfInt(m.races), m.preservation, StringOfInt(|m.conflicts|),
                         Payload(m.conflicts, m.baseline)) == Some(m)
  {
    var racesText, countText, baselineText := StringOfInt(m.races), StringOfInt(|m.conflicts|), StringOfInt(|m.baseline|);
    StorableIsAcceptable(m);
    IntRoundTrip(m.races);
    IntRoundTrip(|m.conflicts|);
    IntRoundTrip(|m.baseline|);
    PayloadReadsBack(m, racesText, countText, baselineText);
    PayloadParts(m, baselineText);
  }

  lemma FieldsRoundTrip(m: Memo, f: seq<string>)
    requires f == Fields(m)
    requires StatusOf(f[2], f[3]) == Some(m.preservation)
    requires ParsePayload(StringOfInt(m.races), m.preservation, StringOfInt(|m.conflicts|),
                          Payload(m.conflicts, m.baseline)) == Some(m)
    ensures ParseFields(f) == Some((V3, m))
  {
    FieldsInPlace(m);
    OtherMagic();
  }

  lemma FieldsInPlace(m: Memo)
    ensures var f := Fields(m);
            && |f| >= 5 && f[0] == MAGIC && f[1] == StringOfInt(m.races) && f[4] == StringOfInt(|m.conflicts|)
            && f[5..] == Payload(m.conflicts, m.baseline)
  {}

  lemma OtherMagic()
    ensures MAGIC != "clamp-publish-state-v1" && MAGIC != "clamp-publish-state-v2"
  {
    assert MAGIC[21] == '3';
  }

  /** Every storable state comes back as it was written, in version 3. */
  lemma RoundTrip(m: Memo)
    requires Storable(m)
    ensures ParseStateBody(StateBody(m)) == Some((V3, m))
  {
    FieldsFree(m);
    SplitJoin(NUL, Fields(m));
    StoredPayload(m);
    StatusRoundTrip(m.preservation);
    var f := Fields(m);
    assert f[2] == PreservationFields(m.preservation)[0] && f[3] == PreservationFields(m.preservation)[1];
    FieldsRoundTrip(m, f);
  }

  lemma TailStorable(races: int, preservation: Preservation, conflicts: seq<string>, rest: seq<string>)
    requires ParseTail(races, preservation, conflicts, rest).Some?
    requires |conflicts| <= MAX_PATHS
    requires forall i | 0 <= i < |conflicts| :: Free(NUL, conflicts[i])
    requires forall i | 0 <= i < |rest| :: Free(NUL, rest[i])
    ensures var m := ParseTail(races, preservation, conflicts, rest).value;
            m.preservation == preservation && Storable(m.(preservation := NotStarted))
  {
    var m := ParseTail(races, preservation, conflicts, rest).value;
    BaselineSplits(IntOfString(rest[0]).value, [], rest[1..]);
    assert m.baseline[0..] == m.baseline;
    var flat := Flatten(m.baseline);
    assert forall i | 0 <= i < |flat| :: flat[i] == rest[1..][i] == rest[i + 1];
    FlattenFree(m.baseline);
    SortUniqueFixed(conflicts, Self);
    SortUniqueFixed(m.baseline, PathOf);
  }

  /** Whatever the payload parser accepts is storable, bar the preservation it was given. */
  lemma PayloadStorable(racesText: string, preservation: Preservation, countText: string, f: seq<string>,
                        from: nat)
    requires from <= |f| && ParsePayload(racesText, preservation, countText, f[from..]).Some?
    requires forall i | 0 <= i < |f| :: Free(NUL, f[i])
    ensures var m := ParsePayload(racesText, preservation, countText, f[from..]).value;
            m.preservation == preservation && Storable(m.(preservation := NotStarted))
  {
    var rest := f[from..];
    assert forall i | 0 <= i < |rest| :: rest[i] == f[from + i];
    var count := IntOfString(countText).value;
    TakeSplits(count, rest);
    var (conflicts, after) := Take(count, rest).value;
    assert forall i | 0 <= i < |conflicts| :: conflicts[i] == rest[i];
    assert forall i | 0 <= i < |after| :: after[i] == rest[count + i];
    TailStorable(IntOfString(racesText).value, preservation, conflicts, after);
  }

  lemma WithPreservation(m: Memo, p: Preservation)
    requires Storable(m.(preservation := NotStarted))
    requires p.PushPending? || p.Proven? ==> p.branch != "" && Free(NUL, p.branch)
    ensures Storable(m.(preservation := p))
  {}

  /** Every accepted body of any version holds a storable state. */
  lemma AcceptedIsStorable(body: string)
    requires ParseStateBody(body).Some?
    ensures Storable(ParseStateBody(body).value.1)
  {
    var f := Split(NUL, body);
    SplitFree(NUL, body);
    var (version, m) := ParseStateBody(body).value;
    match version {
      case V1 =>
        PayloadStorable(f[1], NotStarted, f[2], f, 3);
      case V2 =>
        PayloadStorable(f[1], if f[2] == "" then NotStarted else PushPending(f[2]), f[3], f, 4);
      case V3 =>
        PayloadStorable(f[1], StatusOf(f[2], f[3]).value, f[4], f, 5);
    }
    WithPreservation(m, m.preservation);
  }

  /**
   Migration keeps the state: rewriting an accepted body of version 1, 2 or 3 and
   reading it again gives the same state in version 3.
   */
  lemma MigrationPreservesState(body: string)
    requires ParseStateBody(body).Some?
    ensures var (_, m) := ParseStateBody(body).value;
            ParseStateBody(StateBody(m)) == Some((V3, m))
  {
    AcceptedIsStorable(body);
    RoundTrip(ParseStateBody(body).value.1);
  }

  /** The parser accepts a state, in some body, exactly when the state is storable. */
  lemma AcceptedExactly(m: Memo)
    ensures Storable(m) <==> exists body, version :: ParseStateBody(body) == Some((version, m))
  {
    if Storable(m) { RoundTrip(m); }
    forall body, version | ParseStateBody(body) == Some((version, m))
      ensures Storable(m)
    {
      AcceptedIsStorable(body);
    }
  }

  /** No two states share a body. */
  lemma StateBodyInjective(m: Memo, n: Memo)
    requires Storable(m) && Storable(n) && StateBody(m) == StateBody(n)
    ensures m == n
  {
    RoundTrip(m);
    RoundTrip(n);
  }

  /**
   What an older body means. Version 1 knows no branch, so its conflicts are legacy
   unresolved; a branch in version 2 was recorded before its push and is only pending.
   Neither version can claim proof.
   */
  lemma LegacyClaimsNoProof(body: string)
    requires ParseStateBody(body).Some?
    ensures var (version, m) := ParseStateBody(body).value;
            && (version == V1 ==> m.preservation == Unresolved(m.conflicts))
            && (version == V2 ==> m.preservation.PushPending? || m.preservation == Unresolved(m.conflicts))
            && (m.preservation.Proven? ==> version == V3)
  {}
}
