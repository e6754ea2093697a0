/**
 Concept documents: a YAML header between two `---` lines, then a body. The writer's header
 never contains the closing line, so the splitter recovers exactly what was written.

 The YAML tokeniser is a parameter (`reader`), and so is the quoting of strings (`quote`).
 */
module Frontmatter {
  import opened Wrappers
  import opened Text
  import opened Utf8
  import Sorting
  import ExactNumber

  datatype Kind = String | Integer | Float | Bool | Null | Plain

  datatype Yaml = Scalar(kind: Kind, text: string) | Seq(items: seq<Yaml>) | Map(fields: seq<Field>)

  datatype Field = Field(key: string, value: Yaml)

  // ----- lib/frontmatter.ml: reading -----

  /** Both carriage-return conventions become a single newline. */
  function Normalize(s: string): string {
    if |s| == 0 then ""
    else if s[0] != '\r' then [s[0]] + Normalize(s[1..])
    else if |s| > 1 && s[1] == '\n' then "\n" + Normalize(s[2..])
    else "\n" + Normalize(s[1..])
  }

  method NormalizeNewlines(input: string) returns (output: string)
    ensures output == Normalize(input)
  {
    var index := 0;
    output := "";
    while index < |input|
      invariant 0 <= index <= |input|
      invariant output + Normalize(input[index..]) == Normalize(input)
    {
      ghost var rest := input[index..];
      assert rest[1..] == input[index + 1..];
      if input[index] == '\r' {
        output := output + "\n";
        if index + 1 < |input| && input[index + 1] == '\n' {
          assert rest[2..] == input[index + 2..];
          index := index + 2;
        } else {
          index := index + 1;
        }
      } else {
        output := output + [input[index]];
        index := index + 1;
      }
    }
  }

  predicate HasOpeningDelimiter(input: string) {
    var text := Normalize(input);
    text == "---" || "---\n" <= text
  }

  /** The first line from `start` on that is `---`: where it begins and where it ends. */
  function LinesFrom(input: string, start: nat): (r: Option<(nat, nat)>)
    requires start <= |input|
    ensures r.Some? ==> start <= r.value.0 <= r.value.1 <= |input|
    decreases |input| - start
  {
    match IndexFrom(input, start, '\n')
    case None => if input[start..] == "---" then Some((start, |input|)) else None
    case Some(stop) =>
      if input[start..stop] == "---" then Some((start, stop + 1)) else LinesFrom(input, stop + 1)
  }

  function ClosingDelimiter(input: string): (r: Option<(nat, nat)>)
    ensures r.Some? ==> 4 <= r.value.0 <= r.value.1 <= |input|
  {
    if |input| < 4 then None else LinesFrom(input, 4)
  }

  function BodyAfterDelimiters(input: string): Option<string> {
    var text := Normalize(input);
    if !HasOpeningDelimiter(text) then None
    else
      match ClosingDelimiter(text)
      case None => None
      case Some((_, bodyStart)) => Some(text[bodyStart..])
  }

  datatype ParseError = NotUtf8 | NoOpening | NoClosing | BadYaml | NotMapping

  datatype Parsed = Ok(metadata: Yaml, body: string) | Error(error: ParseError)

  function Parse(input: string, reader: string -> Option<Yaml>): Parsed {
    var text := Normalize(input);
    if !ValidUtf8(text) then Error(NotUtf8)
    else if !HasOpeningDelimiter(text) then Error(NoOpening)
    else if |text| == 3 then Error(NoClosing)
    else
      match ClosingDelimiter(text)
      case None => Error(NoClosing)
      case Some((delimiter, bodyStart)) =>
        match reader(text[4..delimiter])
        case None => Error(BadYaml)
        case Some(metadata) =>
          if metadata.Map? then Ok(metadata, text[bodyStart..]) else Error(NotMapping)
  }

  // ----- lib/frontmatter.ml: writing -----

  function DropNewlines(s: string): string {
    if |s| > 0 && s[0] == '\n' then DropNewlines(s[1..]) else s
  }

  function DropLastNewlines(s: string): string {
    if |s| > 0 && s[|s| - 1] == '\n' then DropLastNewlines(s[..|s| - 1]) else s
  }

  /** The body that is written: normal newlines, none at either end. */
  function TrimmedBody(body: string): string {
    DropLastNewlines(DropNewlines(Normalize(body)))
  }

  function Document(yaml: string, body: string): string {
    "---\n" + yaml + "---\n\n" + TrimmedBody(body) + "\n"
  }

  function Serialize(metadata: Yaml, body: string, quote: string -> string): string {
    Document(ToString(metadata, quote), body)
  }

  // ----- lib/exact_yaml.ml: writing -----

  function ScalarText(kind: Kind, text: string, quote: string -> string): string {
    match kind
    case String => quote(text)
    case Integer => "!!int " + text
    case Float => "!!float " + text
    case Bool => if ExactNumber.Lower(text) in ["true", "yes", "y", "on"] then "!!bool true" else "!!bool false"
    case Null => "!!null null"
    case Plain => text
  }

  const KNOWN_ORDER := [
    "type", "title", "description", "resource", "tags", "generated", "verified", "status", "stale_after",
    "sources", "runtime", "parameters", "computation", "executor", "attester", "usage_count",
    "last_modified", "usage_window", "clamp"]

  function Place(key: string, order: seq<string>): (i: nat) {
    if |order| == 0 || order[0] == key then 0 else 1 + Place(key, order[1..])
  }

  /** Known keys first, in their own order, then the others by name. */
  predicate RankedBefore(a: Field, b: Field) {
    var i, j := Place(a.key, KNOWN_ORDER), Place(b.key, KNOWN_ORDER);
    i < j || (i == j && !Less(b.key, a.key))
  }

  function Spaces(n: nat): (s: string)
    ensures |s| == n && forall i | 0 <= i < n :: s[i] == ' '
  {
    seq(n, _ => ' ')
  }

  /** A collection with something in it is written on lines of its own. */
  predicate Block(value: Yaml) {
    match value
    case Scalar(_, _) => false
    case Seq(items) => |items| > 0
    case Map(fields) => |fields| > 0
  }

  function Emit(indent: nat, value: Yaml, quote: string -> string): string
    decreases value, 1, 0
  {
    match value
    case Scalar(kind, text) => ScalarText(kind, text, quote)
    case Seq(items) => if |items| == 0 then "[]" else EmitItems(indent, value, 0, quote)
    case Map(fields) =>
      if |fields| == 0 then "{}"
      else
        var sorted := Sorting.Sort(fields, RankedBefore);
        Sorting.SortKeeps(fields, RankedBefore);
        EmitFields(indent, value, sorted, quote)
  }

  /** A key or a dash, then its value on the same line or, for a block, on the lines below. */
  function EmitEntry(prefix: string, indent: nat, value: Yaml, quote: string -> string): string
    decreases value, 2, 0
  {
    if Block(value) then prefix + "\n" + Emit(indent, value, quote) else prefix + " " + Emit(indent, value, quote) + "\n"
  }

  function EmitItems(indent: nat, value: Yaml, from: nat, quote: string -> string): string
    requires value.Seq? && from <= |value.items|
    decreases value, 0, |value.items| - from
  {
    if from == |value.items| then ""
    else
      EmitEntry(Spaces(indent) + "-", indent + 2, value.items[from], quote) + EmitItems(indent, value, from + 1, quote)
  }

  ghost predicate FieldsOf(value: Yaml, fields: seq<Field>) {
    value.Map? && forall i | 0 <= i < |fields| :: fields[i] in value.fields
  }

  lemma FieldIsSmaller(value: Yaml, field: Field)
    requires value.Map? && field in value.fields
    ensures field.value < value
  {
    var i :| 0 <= i < |value.fields| && value.fields[i] == field;
    assert value.fields[i].value < value;
  }

  function EmitFields(indent: nat, value: Yaml, fields: seq<Field>, quote: string -> string): string
    requires FieldsOf(value, fields)
    decreases value, 0, |fields|
  {
    if |fields| == 0 then ""
    else
      var field := fields[0];
      FieldIsSmaller(value, field);
      EmitEntry(Spaces(indent) + quote(field.key) + ":", indent + 2, field.value, quote)
      + EmitFields(indent, value, fields[1..], quote)
  }

  function ToString(value: Yaml, quote: string -> string): string {
    var output := Emit(0, value, quote);
    if |output| > 0 && output[|output| - 1] == '\n' then output else output + "\n"
  }

  // ----- Lines -----

  /** Each line followed by a newline. */
  function Terminated(lines: seq<string>): string {
    if |lines| == 0 then "" else lines[0] + "\n" + Terminated(lines[1..])
  }

  predicate Ordinary(line: string) {
    Free('\n', line) && line != "---"
  }

  predicate AllOrdinary(lines: seq<string>) {
    forall i | 0 <= i < |lines| :: Ordinary(lines[i])
  }

  /** Whole lines, none of them the delimiter. */
  ghost predicate Clean(s: string) {
    exists lines | AllOrdinary(lines) :: Terminated(lines) == s
  }

  lemma {:induction false} TerminatedAppend(a: seq<string>, b: seq<string>)
    ensures Terminated(a + b) == Terminated(a) + Terminated(b)
    decreases |a|
  {
    if |a| == 0 {
      assert a + b == b;
    } else {
      TerminatedAppend(a[1..], b);
      assert (a + b)[1..] == a[1..] + b;
    }
  }

  lemma CleanAppend(s: string, t: string)
    requires Clean(s) && Clean(t)
    ensures Clean(s + t)
  {
    var a :| AllOrdinary(a) && Terminated(a) == s;
    var b :| AllOrdinary(b) && Terminated(b) == t;
    TerminatedAppend(a, b);
    assert AllOrdinary(a + b);
  }

  lemma CleanLine(line: string)
    requires Ordinary(line)
    ensures Clean(line + "\n")
  {
    assert Terminated([line]) == line + "\n" + Terminated([]);
    assert AllOrdinary([line]);
  }

  lemma NothingIsClean()
    ensures Clean("")
  {
    assert AllOrdinary([]) && Terminated([]) == "";
  }

  /** The delimiter at `delimiter`, ended by a newline or by the end of the input. */
  predicate DelimiterAt(input: string, delimiter: nat, end: nat) {
    && delimiter <= end <= |input|
    && (input[delimiter..end] == "---\n" || (end == |input| && input[delimiter..end] == "---"))
  }

  lemma {:induction false} LinesFromSound(input: string, start: nat)
    requires start <= |input| && LinesFrom(input, start).Some?
    ensures var (delimiter, end) := LinesFrom(input, start).value;
            Clean(input[start..delimiter]) && DelimiterAt(input, delimiter, end)
    decreases |input| - start
  {
    match IndexFrom(input, start, '\n')
    case None =>
      assert input[start..start] == "";
      NothingIsClean();
      assert input[start..|input|] == input[start..];
    case Some(stop) =>
      if input[start..stop] == "---" {
        assert input[start..stop + 1] == "---" + "\n";
        assert input[start..start] == "";
        NothingIsClean();
      } else {
        LinesFromSound(input, stop + 1);
        LineBefore(input, start, stop, LinesFrom(input, start).value.0);
      }
  }

  lemma LineBefore(input: string, start: nat, stop: nat, delimiter: nat)
    requires start <= stop < delimiter <= |input| && input[stop] == '\n' && Ordinary(input[start..stop])
    requires Clean(input[stop + 1..delimiter])
    ensures Clean(input[start..delimiter])
  {
    var line := input[start..stop];
    CleanLine(line);
    CleanAppend(line + "\n", input[stop + 1..delimiter]);
    assert input[start..delimiter] == line + "\n" + input[stop + 1..delimiter];
  }

  lemma NewlineAfter(input: string, start: nat, line: string)
    requires start + |line| < |input| && input[start..start + |line|] == line
    requires Free('\n', line) && input[start + |line|] == '\n'
    ensures IndexFrom(input, start, '\n') == Some(start + |line|)
  {
    assert input[start..][|line|] == '\n';
  }

  lemma {:induction false} LinesFromComplete(input: string, start: nat, lines: seq<string>, stop: nat, end: nat)
    requires stop == start + |Terminated(lines)| <= |input| && AllOrdinary(lines)
    requires input[start..stop] == Terminated(lines)
    requires DelimiterAt(input, stop, end)
    ensures LinesFrom(input, start) == Some((stop, end))
    decreases |lines|
  {
    if |lines| == 0 {
      FoundHere(input, start, end);
    } else {
      var line, more := lines[0], Terminated(lines[1..]);
      assert Ordinary(line);
      LineOf(input, start, line, more);
      LineSkipped(input, start, line);
      LinesFromComplete(input, start + |line| + 1, lines[1..], stop, end);
    }
  }

  lemma LineOf(input: string, start: nat, line: string, more: string)
    requires start + |line| + 1 + |more| <= |input|
    requires input[start..start + (|line| + 1 + |more|)] == line + "\n" + more
    ensures input[start..start + |line|] == line && input[start + |line|] == '\n'
    ensures input[start + |line| + 1..start + |line| + 1 + |more|] == more
  {
    var all := input[start..start + (|line| + 1 + |more|)];
    assert all[..|line|] == line && all[|line|] == '\n' && all[|line| + 1..] == more;
  }

  lemma LineSkipped(input: string, start: nat, line: string)
    requires start + |line| < |input| && input[start..start + |line|] == line
    requires Ordinary(line) && input[start + |line|] == '\n'
    ensures LinesFrom(input, start) == LinesFrom(input, start + |line| + 1)
  {
    NewlineAfter(input, start, line);
  }

  lemma FoundHere(input: string, start: nat, end: nat)
    requires DelimiterAt(input, start, end)
    ensures LinesFrom(input, start) == Some((start, end))
  {
    if input[start..end] == "---\n" {
      assert input[start..start + 3] == input[start..end][..3] && input[start + 3] == input[start..end][3];
      NewlineAfter(input, start, "---");
    } else {
      assert input[start..] == input[start..end];
      NoNewlineFrom(input, start);
    }
  }

  lemma NoNewlineFrom(input: string, start: nat)
    requires start <= |input| && input[start..] == "---"
    ensures IndexFrom(input, start, '\n').None?
  {
    var r := IndexFrom(input, start, '\n');
    assert input[start..][0] == input[start..][1] == input[start..][2] == '-';
  }

  /** The closing delimiter is the first line `---`, and is found whenever there is one. */
  lemma ClosingDelimiterExactly(input: string, delimiter: nat, end: nat)
    requires 4 <= delimiter <= |input|
    ensures ClosingDelimiter(input) == Some((delimiter, end)) <==>
              Clean(input[4..delimiter]) && DelimiterAt(input, delimiter, end)
  {
    if ClosingDelimiter(input) == Some((delimiter, end)) {
      LinesFromSound(input, 4);
    }
    if Clean(input[4..delimiter]) && DelimiterAt(input, delimiter, end) {
      var lines :| AllOrdinary(lines) && Terminated(lines) == input[4..delimiter];
      LinesFromComplete(input, 4, lines, delimiter, end);
    }
  }

  // ----- What is written has no delimiter line -----

  /** What the JSON quoting promises: one line, in double quotes. */
  predicate OneLine(s: string) {
    Free('\n', s) && Free('\r', s)
  }

  ghost predicate Quoting(quote: string -> string) {
    forall s :: OneLine(quote(s)) && |quote(s)| > 0 && quote(s)[0] == '"'
  }

  /** `valid_kind_value`. */
  predicate ValidKindValue(kind: Kind, text: string) {
    match kind
    case String | Plain => true
    case Integer => ExactNumber.DecimalInteger(text) || ExactNumber.PrefixedInteger(text)
    case Float => ExactNumber.FloatLexeme(text) || ExactNumber.DecimalInteger(text)
    case Bool => ExactNumber.Lower(text) in ["true", "false", "yes", "no", "y", "n", "on", "off"]
    case Null => ExactNumber.Lower(text) in ["null", "~", ""]
  }

  /** As the parser builds it: every scalar fits its kind, and none is `Plain`. */
  predicate Typed(value: Yaml) {
    match value
    case Scalar(kind, text) => kind != Plain && ValidKindValue(kind, text)
    case Seq(items) => forall i | 0 <= i < |items| :: Typed(items[i])
    case Map(fields) => forall i | 0 <= i < |fields| :: Typed(fields[i].value)
  }

  lemma LowerOneLine(s: string)
    ensures OneLine(ExactNumber.Lower(s)) <==> OneLine(s)
  {
    assert forall c :: (ExactNumber.LowerChar(c) == '\n' <==> c == '\n') && (ExactNumber.LowerChar(c) == '\r' <==> c == '\r');
    var t := ExactNumber.Lower(s);
    assert forall i | 0 <= i < |s| :: t[i] == ExactNumber.LowerChar(s[i]);
    if OneLine(t) {
      assert forall i | 0 <= i < |s| :: t[i] != '\n' && t[i] != '\r';
    }
  }

  lemma DigitsOneLine(base: nat, s: string)
    requires base <= 16 && (s == "" || ExactNumber.BasedDigits(base, s))
    ensures OneLine(s)
  {
  }

  lemma UnsignedOneLine(s: string)
    requires OneLine(ExactNumber.Unsigned(s))
    ensures OneLine(s)
  {
    if s != ExactNumber.Unsigned(s) {
      assert s == [s[0]] + s[1..];
    }
  }

  lemma SidesOneLine(s: string, characters: string)
    requires characters == "eE" || characters == "."
    requires match ExactNumber.SplitOnce(s, characters)
             case Some((left, right)) => OneLine(left) && OneLine(right)
             case None => OneLine(s)
    ensures OneLine(s)
  {
    var i := ExactNumber.First(s, characters);
    if i < |s| && ExactNumber.SplitOnce(s, characters).Some? {
      assert s == s[..i] + [s[i]] + s[i + 1..];
    }
  }

  lemma MantissaOneLine(mantissa: string, hasExponent: bool)
    requires ExactNumber.MantissaValid(mantissa, hasExponent)
    ensures OneLine(mantissa)
  {
    match ExactNumber.SplitOnce(mantissa, ".")
    case Some((left, right)) =>
      DigitsOneLine(10, left);
      DigitsOneLine(10, right);
      SidesOneLine(mantissa, ".");
    case None =>
      DigitsOneLine(10, mantissa);
  }

  lemma NumberOneLine(body: string)
    requires ExactNumber.NumberValid(body)
    ensures OneLine(body)
  {
    match ExactNumber.SplitOnce(body, "eE")
    case Some((mantissa, exponent)) =>
      MantissaOneLine(mantissa, true);
      DigitsOneLine(10, ExactNumber.Unsigned(exponent));
      UnsignedOneLine(exponent);
      SidesOneLine(body, "eE");
    case None =>
      MantissaOneLine(body, false);
  }

  lemma PrefixedOneLine(text: string)
    requires ExactNumber.PrefixedInteger(text)
    ensures OneLine(text)
  {
    var plain := ExactNumber.Unsigned(text);
    var lowered := ExactNumber.Lower(plain);
    assert OneLine(lowered[2..]) by {
      DigitsOneLine(ExactNumber.BaseOf(lowered[1]), lowered[2..]);
    }
    assert lowered[0] == '0' && lowered[1] in "xob";
    assert lowered == [lowered[0], lowered[1]] + lowered[2..];
    LowerOneLine(plain);
    UnsignedOneLine(text);
  }

  lemma SpelledOneLine(s: string)
    requires s in ExactNumber.NON_FINITE
    ensures OneLine(s)
  {
    var i :| 0 <= i < 4 && ExactNumber.NON_FINITE[i] == s;
    assert OneLine(".inf") && OneLine("+.inf") && OneLine("-.inf") && OneLine(".nan");
  }

  lemma PointOneLine(s: string)
    requires ExactNumber.PointOrExponent(s)
    ensures OneLine(s)
  {
    NumberOneLine(ExactNumber.Unsigned(s));
    UnsignedOneLine(s);
  }

  lemma FloatOneLine(text: string)
    requires ExactNumber.FloatLexeme(text)
    ensures OneLine(text)
  {
    var lowered := ExactNumber.Lower(text);
    if ExactNumber.IsNonFinite(text) {
      SpelledOneLine(lowered);
    } else {
      PointOneLine(lowered);
    }
    LowerOneLine(text);
  }

  /** A number that fits its tag is written on one line. */
  lemma LexemeIsOneLine(kind: Kind, text: string)
    requires (kind == Integer || kind == Float) && ValidKindValue(kind, text)
    ensures OneLine(text)
  {
    if ExactNumber.DecimalInteger(text) {
      DigitsOneLine(10, ExactNumber.Unsigned(text));
      UnsignedOneLine(text);
    } else if kind == Integer {
      PrefixedOneLine(text);
    } else {
      FloatOneLine(text);
    }
  }

  lemma TaggedIsOneLine(tag: string, text: string)
    requires OneLine(tag) && OneLine(text)
    ensures OneLine(tag + text)
  {}

  lemma FixedTexts()
    ensures OneLine("!!int ") && OneLine("!!float ") && OneLine("!!bool true") && OneLine("!!bool false")
    ensures OneLine("!!null null")
  {}

  lemma ScalarIsOneLine(kind: Kind, text: string, quote: string -> string)
    requires Quoting(quote) && kind != Plain && ValidKindValue(kind, text)
    ensures OneLine(ScalarText(kind, text, quote))
  {
    FixedTexts();
    if kind == Integer {
      LexemeIsOneLine(kind, text);
      TaggedIsOneLine("!!int ", text);
    } else if kind == Float {
      LexemeIsOneLine(kind, text);
      TaggedIsOneLine("!!float ", text);
    } else {
      assert OneLine(quote(text));
    }
  }

  lemma InlineIsOneLine(indent: nat, value: Yaml, quote: string -> string)
    requires Quoting(quote) && Typed(value) && !Block(value)
    ensures OneLine(Emit(indent, value, quote))
  {
    if value.Scalar? {
      ScalarIsOneLine(value.kind, value.text, quote);
    }
  }

  /** Whole lines without the delimiter, in the newline convention that reading keeps. */
  ghost predicate Harmless(s: string) {
    Clean(s) && Free('\r', s)
  }

  lemma HarmlessLine(line: string, rest: string)
    requires OneLine(line) && line != "---" && Harmless(rest)
    ensures Harmless(line + "\n" + rest)
  {
    CleanLine(line);
    CleanAppend(line + "\n", rest);
  }

  lemma HarmlessAppend(s: string, t: string)
    requires Harmless(s) && Harmless(t)
    ensures Harmless(s + t)
  {
    CleanAppend(s, t);
  }

  /** How a line begins: indented, with a quoted key, or with a single dash. */
  predicate Opener(prefix: string) {
    OneLine(prefix) && |prefix| > 0 && (prefix[0] == ' ' || prefix[0] == '"' || prefix == "-")
  }

  lemma EntryIsHarmless(prefix: string, indent: nat, value: Yaml, quote: string -> string)
    requires Quoting(quote) && Typed(value) && Opener(prefix)
    ensures Harmless(EmitEntry(prefix, indent, value, quote))
    decreases value, 2, 0
  {
    var text := Emit(indent, value, quote);
    if Block(value) {
      EmitIsHarmless(indent, value, quote);
      HarmlessLine(prefix, text);
    } else {
      InlineIsOneLine(indent, value, quote);
      NothingIsClean();
      var line := prefix + " " + text;
      assert line[0] == prefix[0] && line[|prefix|] == ' ';
      HarmlessLine(line, "");
      assert line + "\n" + "" == line + "\n";
    }
  }

  lemma EmitIsHarmless(indent: nat, value: Yaml, quote: string -> string)
    requires Quoting(quote) && Typed(value) && Block(value)
    ensures Harmless(Emit(indent, value, quote))
    decreases value, 1, 0
  {
    if value.Seq? {
      ItemsAreHarmless(indent, value, 0, quote);
    } else {
      Sorting.SortKeeps(value.fields, RankedBefore);
      FieldsAreHarmless(indent, value, Sorting.Sort(value.fields, RankedBefore), quote);
    }
  }

  lemma {:induction false} ItemsAreHarmless(indent: nat, value: Yaml, from: nat, quote: string -> string)
    requires Quoting(quote) && Typed(value) && value.Seq? && from <= |value.items|
    ensures Harmless(EmitItems(indent, value, from, quote))
    decreases value, 0, |value.items| - from
  {
    if from == |value.items| {
      NothingIsClean();
    } else {
      var prefix, item := Spaces(indent) + "-", value.items[from];
      assert prefix[0] == ' ' || prefix == "-";
      EntryIsHarmless(prefix, indent + 2, item, quote);
      ItemsAreHarmless(indent, value, from + 1, quote);
      HarmlessAppend(EmitEntry(prefix, indent + 2, item, quote), EmitItems(indent, value, from + 1, quote));
    }
  }

  lemma {:induction false} FieldsAreHarmless(indent: nat, value: Yaml, fields: seq<Field>, quote: string -> string)
    requires Quoting(quote) && Typed(value) && FieldsOf(value, fields)
    ensures Harmless(EmitFields(indent, value, fields, quote))
    decreases value, 0, |fields|
  {
    if |fields| == 0 {
      NothingIsClean();
    } else {
      var field, key := fields[0], quote(fields[0].key);
      FieldIsSmaller(value, field);
      FieldIsTyped(value, field);
      var prefix := Spaces(indent) + key + ":";
      assert OneLine(key) && |key| > 0 && key[0] == '"';
      assert prefix[0] == if indent > 0 then ' ' else '"';
      EntryIsHarmless(prefix, indent + 2, field.value, quote);
      FieldsAreHarmless(indent, value, fields[1..], quote);
      HarmlessAppend(EmitEntry(prefix, indent + 2, field.value, quote), EmitFields(indent, value, fields[1..], quote));
    }
  }

  lemma FieldIsTyped(value: Yaml, field: Field)
    requires Typed(value) && value.Map? && field in value.fields
    ensures Typed(field.value)
  {
    var i :| 0 <= i < |value.fields| && value.fields[i] == field;
  }

  lemma CleanEnds(s: string)
    requires Clean(s) && |s| > 0
    ensures s[|s| - 1] == '\n'
  {
    var lines :| AllOrdinary(lines) && Terminated(lines) == s;
    TerminatedEnds(lines);
  }

  lemma {:induction false} TerminatedEnds(lines: seq<string>)
    requires |lines| > 0
    ensures var s := Terminated(lines); |s| > 0 && s[|s| - 1] == '\n'
    decreases |lines|
  {
    if |lines| > 1 { TerminatedEnds(lines[1..]); }
  }

  /** The YAML written for a mapping has no line `---`. */
  lemma HeaderIsHarmless(metadata: Yaml, quote: string -> string)
    requires Quoting(quote) && Typed(metadata) && metadata.Map?
    ensures Harmless(ToString(metadata, quote))
  {
    if Block(metadata) {
      EmitIsHarmless(0, metadata, quote);
      if |Emit(0, metadata, quote)| > 0 {
        CleanEnds(Emit(0, metadata, quote));
      } else {
        CleanLine("");
      }
    } else {
      CleanLine("{}");
    }
  }

  // ----- Reading back what was written -----

  lemma {:induction false} NormalizedHasNoReturn(s: string)
    ensures Free('\r', Normalize(s))
    decreases |s|
  {
    if |s| > 0 {
      NormalizedHasNoReturn(s[1..]);
      if |s| > 1 { NormalizedHasNoReturn(s[2..]); }
    }
  }

  lemma {:induction false} NormalizeKeeps(s: string)
    requires Free('\r', s)
    ensures Normalize(s) == s
    decreases |s|
  {
    if |s| > 0 {
      assert s[0] != '\r' && Free('\r', s[1..]);
      NormalizeKeeps(s[1..]);
    }
  }

  predicate Trimmed(s: string) {
    |s| > 0 ==> s[0] != '\n' && s[|s| - 1] != '\n'
  }

  lemma {:induction false} DropsAreTrimmed(s: string)
    ensures var t := DropNewlines(s); (|t| > 0 ==> t[0] != '\n') && (Free('\r', s) ==> Free('\r', t))
    ensures var t := DropLastNewlines(s);
            (|t| > 0 ==> t[0] == s[0] && t[|t| - 1] != '\n') && (Free('\r', s) ==> Free('\r', t))
    decreases |s|
  {
    if |s| > 0 {
      DropsAreTrimmed(s[1..]);
      DropsAreTrimmed(s[..|s| - 1]);
    }
  }

  lemma TrimmedBodyIsTrimmed(body: string)
    ensures Trimmed(TrimmedBody(body)) && Free('\r', TrimmedBody(body))
  {
    var s := Normalize(body);
    NormalizedHasNoReturn(body);
    DropsAreTrimmed(s);
    DropsAreTrimmed(DropNewlines(s));
  }

  /** Trimming a body as it is read back gives the body that was written. */
  lemma TrimmedAgain(t: string)
    requires Trimmed(t) && Free('\r', t)
    ensures TrimmedBody("\n" + t + "\n") == t
  {
    var s := "\n" + t + "\n";
    NormalizeKeeps(s);
    assert s[1..] == t + "\n";
    if |t| > 0 {
      assert DropNewlines(s) == t + "\n";
      assert (t + "\n")[..|t|] == t;
    } else {
      assert s == "\n\n" && s[1..] == "\n" && "\n"[1..] == "";
      assert DropNewlines("\n") == "" && DropNewlines(s) == DropNewlines("\n");
    }
  }

  lemma DocumentSplits(yaml: string, body: string)
    requires Harmless(yaml)
    ensures var text := Document(yaml, body);
            && Normalize(text) == text && HasOpeningDelimiter(text) && |text| > 3
            && ClosingDelimiter(text) == Some((4 + |yaml|, 8 + |yaml|))
            && text[4..4 + |yaml|] == yaml && text[8 + |yaml|..] == "\n" + TrimmedBody(body) + "\n"
  {
    var text, t := Document(yaml, body), TrimmedBody(body);
    TrimmedBodyIsTrimmed(body);
    NormalizeKeeps(text);
    assert text == "---\n" + yaml + "---\n" + ("\n" + t + "\n");
    assert text[..4] == "---\n";
    assert text[4..4 + |yaml|] == yaml;
    assert text[4 + |yaml|..8 + |yaml|] == "---\n";
    ClosingDelimiterExactly(text, 4 + |yaml|, 8 + |yaml|);
  }

  /**
   Reading a serialised document gives back the YAML text that was written and the trimmed
   body, whatever the YAML parser makes of that text; only a document that is not UTF-8 is
   turned away.
   */
  lemma ParseOfSerialize(metadata: Yaml, body: string, quote: string -> string, reader: string -> Option<Yaml>)
    requires Quoting(quote) && Typed(metadata) && metadata.Map?
    ensures var document := Serialize(metadata, body, quote);
            var bodyRead := "\n" + TrimmedBody(body) + "\n";
            && BodyAfterDelimiters(document) == Some(bodyRead)
            && Parse(document, reader) ==
                 if !ValidUtf8(document) then Error(NotUtf8)
                 else
                   match reader(ToString(metadata, quote))
                   case None => Error(BadYaml)
                   case Some(read) => if read.Map? then Ok(read, bodyRead) else Error(NotMapping)
  {
    HeaderIsHarmless(metadata, quote);
    DocumentSplits(ToString(metadata, quote), body);
  }

  /**
   Serialising is stable: reading a serialised document and serialising the result gives the
   same document, provided the YAML parser reads the header back as something that is
   written the same way.
   */
  lemma SerializeIsStable(metadata: Yaml, body: string, quote: string -> string, reader: string -> Option<Yaml>)
    requires Quoting(quote) && Typed(metadata) && metadata.Map?
    requires var read := reader(ToString(metadata, quote));
             read.Some? && read.value.Map? && ToString(read.value, quote) == ToString(metadata, quote)
    requires ValidUtf8(Serialize(metadata, body, quote))
    ensures var parsed := Parse(Serialize(metadata, body, quote), reader);
            parsed.Ok? && Serialize(parsed.metadata, parsed.body, quote) == Serialize(metadata, body, quote)
  {
    ParseOfSerialize(metadata, body, quote, reader);
    TrimmedBodyIsTrimmed(body);
    TrimmedAgain(TrimmedBody(body));
  }

  /** The condition on scalars is needed: a `Plain` scalar can write the delimiter line. */
  lemma PlainCanClose(quote: string -> string)
    requires Quoting(quote)
    ensures var metadata := Map([Field("k", Scalar(Plain, "\n---"))]);
            var document := Serialize(metadata, "", quote);
            ClosingDelimiter(document) != Some((4 + |ToString(metadata, quote)|, 8 + |ToString(metadata, quote)|))
  {
    var metadata := Map([Field("k", Scalar(Plain, "\n---"))]);
    var key := quote("k");
    var line := key + ":" + " ";
    var yaml := line + "\n---\n";
    assert Sorting.Sort(metadata.fields, RankedBefore) == metadata.fields;
    assert Spaces(0) == "";
    assert Emit(0, metadata, quote) == yaml;
    var document := Serialize(metadata, "", quote);
    assert TrimmedBody("") == "";
    assert document == "---\n" + line + "\n---\n---\n\n\n";
    assert OneLine(key) && key[0] == '"';
    assert line[0] == '"';
    CleanLine(line);
    var d := 4 + |line| + 1;
    assert document[4..d] == line + "\n";
    assert document[d..d + 4] == "---\n";
    ClosingDelimiterExactly(document, d, d + 4);
  }
}
