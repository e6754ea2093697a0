/**
 The short excerpt of a concept's body shown beside a search hit: every run of bytes up to
 the space becomes one space, and what remains is cut at a character boundary.
 */
module Snippet {
  import opened Text
  import opened Utf8

  const LENGTH: nat := 240

  /** The bytes of a horizontal ellipsis. */
  const MARKER: string := [0xE2 as char, 0x80 as char, 0xA6 as char]

  predicate Blank(c: char) {
    c as int <= 0x20
  }

  // ----- What a snippet is -----

  /** The maximal runs of bytes above the space, in order. */
  function Words(s: string): (words: seq<string>)
    ensures |s| > 0 && !Blank(s[0]) ==> |words| > 0
  {
    if |s| == 0 then []
    else if Blank(s[0]) then Words(s[1..])
    else if |s| == 1 || Blank(s[1]) then [[s[0]]] + Words(s[1..])
    else
      var rest := Words(s[1..]);
      [[s[0]] + rest[0]] + rest[1..]
  }

  function Normalized(body: string): string {
    if |Words(body)| == 0 then "" else Join(' ', Words(body))
  }

  /** The last place up to `limit` where `value` can be cut without splitting a character. */
  function CutPoint(value: string, limit: nat): (cut: nat)
    requires limit < |value|
    ensures cut <= limit && (cut == 0 || !Continuation(value, cut))
    ensures forall i | cut < i <= limit :: Continuation(value, i)
  {
    if limit > 0 && Continuation(value, limit) then CutPoint(value, limit - 1) else limit
  }

  function Shortened(value: string): string {
    if |value| <= LENGTH then value
    else value[..CutPoint(value, LENGTH - |MARKER|)] + MARKER
  }

  function SnippetOf(body: string): string {
    Shortened(Normalized(body))
  }

  // ----- The program -----

  /** What the pass over the bytes appends, `space` telling that a separator is already out. */
  function Collapse(s: string, space: bool): string {
    if |s| == 0 then ""
    else if Blank(s[0]) then (if space then "" else " ") + Collapse(s[1..], true)
    else [s[0]] + Collapse(s[1..], false)
  }

  lemma CollapseStep(body: string, i: nat, space: bool)
    requires i < |body|
    ensures Blank(body[i]) && space ==> Collapse(body[i..], space) == Collapse(body[i + 1..], true)
    ensures Blank(body[i]) && !space ==> Collapse(body[i..], space) == [' '] + Collapse(body[i + 1..], true)
    ensures !Blank(body[i]) ==> Collapse(body[i..], space) == [body[i]] + Collapse(body[i + 1..], false)
  {
    assert body[i..][1..] == body[i + 1..];
  }

  predicate Trimmable(c: char) {
    c == ' ' || c as int == 12 || c == '\n' || c == '\r' || c == '\t'
  }

  function TrimLeft(s: string): string {
    if |s| > 0 && Trimmable(s[0]) then TrimLeft(s[1..]) else s
  }

  function TrimRight(s: string): string {
    if |s| > 0 && Trimmable(s[|s| - 1]) then TrimRight(s[..|s| - 1]) else s
  }

  /** `String.trim`. */
  function Trim(s: string): string {
    TrimRight(TrimLeft(s))
  }

  method Snippet(body: string) returns (snippet: string)
    ensures snippet == SnippetOf(body)
  {
    var normalized, space := "", true;
    for i := 0 to |body|
      invariant normalized + Collapse(body[i..], space) == Collapse(body, true)
    {
      var character := body[i];
      CollapseStep(body, i, space);
      if Blank(character) {
        if !space { normalized := normalized + [' ']; }
        space := true;
      } else {
        normalized := normalized + [character];
        space := false;
      }
    }
    assert normalized == Collapse(body, true);
    TrimmedCollapse(body);
    var value := Trim(normalized);
    if |value| <= LENGTH {
      return value;
    }
    var limit := LENGTH - |MARKER|;
    var cut := limit;
    while cut > 0 && 0x80 <= value[cut] as int <= 0xBF
      invariant 0 <= cut <= limit && CutPoint(value, cut) == CutPoint(value, limit)
    {
      cut := cut - 1;
    }
    snippet := value[..cut] + MARKER;
  }

  // ----- The pass and the trim leave the words joined by single spaces -----

  predicate EndsBlank(s: string) {
    |s| > 0 && Blank(s[|s| - 1])
  }

  /** The separator left after the last word when blanks follow it. */
  function Trailing(s: string): string {
    if |Words(s)| > 0 && EndsBlank(s) then " " else ""
  }

  lemma {:induction false} CollapsedWords(s: string)
    ensures Collapse(s, true) == Normalized(s) + Trailing(s)
    decreases |s|
  {
    if |s| > 1 {
      var rest := s[1..];
      CollapsedWords(rest);
      assert EndsBlank(s) == EndsBlank(rest);
      if !Blank(s[0]) && Blank(s[1]) {
        CollapsedWords(rest[1..]);
        WordBeforeBlank(s);
      } else if !Blank(s[0]) {
        WordContinues(s);
      } else {
        assert Words(s) == Words(rest);
      }
    } else if |s| == 1 {
      assert s == [s[0]];
      assert Words(s[1..]) == [];
      assert Collapse(s[1..], true) == "";
    }
  }

  lemma {:induction false} JoinSingle(c: char, words: seq<string>)
    requires |words| > 0
    ensures Join(' ', [[c]] + words) == [c] + (" " + Join(' ', words))
  {
    var all := [[c]] + words;
    assert all[1..] == words;
    assert Join(' ', all) == [c] + [' '] + Join(' ', words);
  }

  lemma BlankSecond(s: string)
    requires |s| > 1 && !Blank(s[0]) && Blank(s[1])
    ensures Collapse(s, true) == [s[0]] + (" " + Collapse(s[2..], true))
    ensures Words(s) == [[s[0]]] + Words(s[2..])
  {
    var rest := s[1..];
    assert rest[1..] == s[2..];
    assert Collapse(s, true) == [s[0]] + Collapse(rest, false);
    assert Words(rest) == Words(s[2..]);
  }

  lemma WordBeforeBlank(s: string)
    requires |s| > 1 && !Blank(s[0]) && Blank(s[1])
    requires Collapse(s[2..], true) == Normalized(s[2..]) + Trailing(s[2..])
    ensures Collapse(s, true) == Normalized(s) + Trailing(s)
  {
    var later := s[2..];
    BlankSecond(s);
    if |Words(later)| == 0 {
      CollapseNothing(later);
      WordlessIsBlank(later);
    } else {
      JoinSingle(s[0], Words(later));
      assert Trailing(s) == Trailing(later);
    }
  }

  lemma {:induction false} CollapseNothing(s: string)
    requires |Words(s)| == 0
    ensures Collapse(s, true) == ""
    decreases |s|
  {
    if |s| > 0 { CollapseNothing(s[1..]); }
  }

  lemma {:induction false} WordlessIsBlank(s: string)
    requires |Words(s)| == 0
    ensures |s| > 0 ==> EndsBlank(s)
    decreases |s|
  {
    if |s| > 1 { WordlessIsBlank(s[1..]); }
  }

  lemma {:induction false} JoinLonger(c: char, words: seq<string>)
    requires |words| > 0
    ensures Join(' ', [[c] + words[0]] + words[1..]) == [c] + Join(' ', words)
  {
    var all := [[c] + words[0]] + words[1..];
    assert all[1..] == words[1..];
  }

  lemma {:induction false} WordContinues(s: string)
    requires |s| > 1 && !Blank(s[0]) && !Blank(s[1])
    requires Collapse(s[1..], true) == Normalized(s[1..]) + Trailing(s[1..])
    ensures Collapse(s, true) == Normalized(s) + Trailing(s)
  {
    var rest := s[1..];
    JoinLonger(s[0], Words(rest));
    assert Normalized(s) == [s[0]] + Normalized(rest);
    assert Collapse(s, true) == [s[0]] + Collapse(rest, false);
    assert Collapse(rest, false) == Collapse(rest, true);
    assert Trailing(s) == Trailing(rest);
  }

  /** No blank but single spaces, and none at either end. */
  predicate Tidy(s: string) {
    && (forall i | 0 <= i < |s| :: Blank(s[i]) ==> s[i] == ' ')
    && (|s| > 0 ==> s[0] != ' ' && s[|s| - 1] != ' ')
    && (forall i | 0 <= i < |s| - 1 :: s[i] == ' ' ==> s[i + 1] != ' ')
  }

  predicate Solid(word: string) {
    |word| > 0 && forall i | 0 <= i < |word| :: !Blank(word[i])
  }

  predicate AllSolid(words: seq<string>) {
    forall i | 0 <= i < |words| :: Solid(words[i])
  }

  lemma {:induction false} WordsAreSolid(s: string)
    ensures AllSolid(Words(s))
    decreases |s|
  {
    if |s| > 0 { WordsAreSolid(s[1..]); }
  }

  lemma {:induction false} JoinedIsTidy(words: seq<string>)
    requires |words| > 0 && AllSolid(words)
    ensures |Join(' ', words)| > 0 && Tidy(Join(' ', words))
    decreases |words|
  {
    assert Solid(words[0]);
    if |words| > 1 {
      JoinedIsTidy(words[1..]);
    }
  }

  /** A snippet's text holds no run of whitespace. */
  lemma NormalizedIsTidy(body: string)
    ensures Tidy(Normalized(body))
  {
    WordsAreSolid(body);
    if |Words(body)| > 0 { JoinedIsTidy(Words(body)); }
  }

  lemma TidyIsTrimmed(s: string)
    requires Tidy(s)
    ensures TrimLeft(s) == s == TrimRight(s)
  {
  }

  lemma TrimmedCollapse(body: string)
    ensures Trim(Collapse(body, true)) == Normalized(body)
  {
    var s, t := Collapse(body, true), Normalized(body);
    CollapsedWords(body);
    assert s == t + Trailing(body);
    NormalizedIsTidy(body);
    TidyIsTrimmed(t);
    if s != t {
      WordsAreSolid(body);
      JoinedIsTidy(Words(body));
      assert s == t + " " && s[..|t|] == t;
      assert TrimLeft(s) == s;
    }
  }

  // ----- Taking a snippet of a snippet changes nothing -----

  lemma {:induction false} TidyCollapses(s: string, from: nat)
    requires Tidy(s) && from <= |s|
    ensures Collapse(s[from..], from == 0) == s[from..]
    ensures from > 0 && s[from - 1] == ' ' ==> Collapse(s[from..], true) == s[from..]
    decreases |s| - from
  {
    if from < |s| {
      var rest := s[from..];
      assert rest[1..] == s[from + 1..] && rest == [s[from]] + s[from + 1..];
      TidyCollapses(s, from + 1);
    }
  }

  lemma TidyIsNormal(s: string)
    requires Tidy(s)
    ensures Normalized(s) == s
  {
    TidyCollapses(s, 0);
    assert s[0..] == s;
    TidyIsTrimmed(s);
    TrimmedCollapse(s);
  }

  lemma ShortenedIsTidy(value: string)
    requires Tidy(value)
    ensures |Shortened(value)| <= LENGTH && Tidy(Shortened(value))
  {
    if |value| > LENGTH {
      var cut, short := CutPoint(value, LENGTH - |MARKER|), Shortened(value);
      assert forall i | 0 <= i < |short| :: short[i] == if i < cut then value[i] else MARKER[i - cut];
    }
  }

  /** Whatever the bytes: at most 240 of them, no run of whitespace, and stable. */
  lemma SnippetIsStable(body: string)
    ensures |SnippetOf(body)| <= LENGTH && Tidy(SnippetOf(body))
    ensures SnippetOf(SnippetOf(body)) == SnippetOf(body)
  {
    NormalizedIsTidy(body);
    ShortenedIsTidy(Normalized(body));
    TidyIsNormal(SnippetOf(body));
  }

  // ----- Valid text stays valid, and loses no more than it must -----

  lemma LeadByte(c: Scalar)
    ensures !Continuation(Encode(c), 0)
    ensures forall i | 0 < i < |Encode(c)| :: Continuation(Encode(c), i)
    ensures Blank(Encode(c)[0]) <==> c <= 0x20
    ensures c > 0x20 ==> Solid(Encode(c))
  {
    assert IsScalar(c);
  }

  /** Cutting an encoding where no character is split leaves an encoding. */
  lemma {:induction false} CutIsEncoding(text: seq<Scalar>, cut: nat) returns (kept: seq<Scalar>)
    requires cut <= |EncodeAll(text)| && !Continuation(EncodeAll(text), cut)
    ensures EncodeAll(kept) == EncodeAll(text)[..cut]
    decreases |text|
  {
    if cut == 0 {
      kept := [];
    } else {
      var s, first := EncodeAll(text), Encode(text[0]);
      LeadByte(text[0]);
      assert s[..|first|] == first;
      var more := CutIsEncoding(text[1..], cut - |first|);
      kept := [text[0]] + more;
      assert kept[1..] == more;
    }
  }

  /** Within any four bytes some character begins. */
  lemma {:induction false} CharacterBegins(text: seq<Scalar>, at: nat) returns (begin: nat)
    requires at < |EncodeAll(text)|
    ensures begin <= at <= begin + 3 && !Continuation(EncodeAll(text), begin)
    decreases |text|
  {
    var s, first := EncodeAll(text), Encode(text[0]);
    LeadByte(text[0]);
    if at < |first| {
      begin := 0;
      assert s[0] == first[0];
    } else {
      var later := CharacterBegins(text[1..], at - |first|);
      begin := |first| + later;
    }
  }

  lemma {:induction false} CollapseSolid(word: string, rest: string, space: bool)
    requires Solid(word)
    ensures Collapse(word + rest, space) == word + Collapse(rest, false)
    decreases |word|
  {
    var s := word + rest;
    assert s[1..] == word[1..] + rest;
    if |word| > 1 {
      CollapseSolid(word[1..], rest, false);
    } else {
      assert word[1..] + rest == rest;
    }
  }

  lemma {:induction false} CollapseEncodes(text: seq<Scalar>, space: bool) returns (out: seq<Scalar>)
    ensures EncodeAll(out) == Collapse(EncodeAll(text), space)
    decreases |text|
  {
    if |text| == 0 {
      out := [];
    } else {
      var c, rest := text[0], EncodeAll(text[1..]);
      LeadByte(c);
      if c <= 0x20 {
        assert EncodeAll(text) == [Byte(c)] + rest;
        var more := CollapseEncodes(text[1..], true);
        out := if space then more else [0x20] + more;
        assert [0x20] + more == out ==> out[1..] == more;
      } else {
        var more := CollapseEncodes(text[1..], false);
        CollapseSolid(Encode(c), rest, space);
        out := [c] + more;
        assert out[1..] == more;
      }
    }
  }

  lemma NormalizedEncodes(body: string) returns (text: seq<Scalar>)
    requires IsEncoding(body)
    ensures EncodeAll(text) == Normalized(body)
  {
    var source :| EncodeAll(source) == body;
    text := CollapseEncodes(source, true);
    CollapsedWords(body);
    var s, t := Collapse(body, true), Normalized(body);
    if s != t {
      assert s[|t|] == ' ' && s[..|t|] == t;
      text := CutIsEncoding(text, |t|);
    }
  }

  lemma {:induction false} EncodeAllAppend(s: seq<Scalar>, t: seq<Scalar>)
    ensures EncodeAll(s + t) == EncodeAll(s) + EncodeAll(t)
    decreases |s|
  {
    if |s| == 0 {
      assert s + t == t;
    } else {
      EncodeAllAppend(s[1..], t);
      var both := s + t;
      assert both[1..] == s[1..] + t && both[0] == s[0];
      assert EncodeAll(both) == Encode(s[0]) + EncodeAll(s[1..] + t);
    }
  }

  lemma MarkerEncodes()
    ensures EncodeAll([0x2026]) == MARKER
  {
    assert EncodeAll([0x2026]) == Encode(0x2026) + EncodeAll([]);
  }

  /**
   A snippet of well-formed text is well-formed: the words of the body as they are, or at
   least 234 bytes of them, cut where a character begins, before the marker.
   */
  lemma SnippetIsText(body: string)
    requires ValidUtf8(body)
    ensures ValidUtf8(SnippetOf(body))
    ensures |Normalized(body)| > LENGTH ==>
      exists cut | LENGTH - |MARKER| - 3 <= cut <= LENGTH - |MARKER| ::
        !Continuation(Normalized(body), cut) && SnippetOf(body) == Normalized(body)[..cut] + MARKER
  {
    ValidExactlyEncodings(body);
    var value := Normalized(body);
    var text := NormalizedEncodes(body);
    if |value| > LENGTH {
      var limit := LENGTH - |MARKER|;
      var cut := CutPoint(value, limit);
      var begin := CharacterBegins(text, limit);
      assert begin <= cut;
      var kept := CutIsEncoding(text, cut);
      MarkerEncodes();
      EncodeAllAppend(kept, [0x2026]);
      text := kept + [0x2026];
    }
    assert EncodeAll(text) == SnippetOf(body);
    ValidExactlyEncodings(SnippetOf(body));
  }
}
