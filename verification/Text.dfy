/**
 Byte strings and their order. An OCaml string is modelled as a `string` whose
 characters stand for its bytes; `Less` is `String.compare left right < 0`.
 */
module Text {
  import opened Wrappers

  predicate Less(a: string, b: string) {
    if |a| == 0 then |b| > 0
    else |b| > 0 && (a[0] < b[0] || (a[0] == b[0] && Less(a[1..], b[1..])))
  }

  lemma {:induction false} LessIrreflexive(a: string)
    ensures !Less(a, a)
  {
    if |a| > 0 { LessIrreflexive(a[1..]); }
  }

  lemma {:induction false} LessTransitive(a: string, b: string, c: string)
    requires Less(a, b) && Less(b, c)
    ensures Less(a, c)
  {
    if |a| > 0 && a[0] == b[0] == c[0] { LessTransitive(a[1..], b[1..], c[1..]); }
  }

  lemma {:induction false} LessTotal(a: string, b: string)
    ensures Less(a, b) || a == b || Less(b, a)
  {
    if |a| > 0 && |b| > 0 && a[0] == b[0] {
      LessTotal(a[1..], b[1..]);
      assert a == [a[0]] + a[1..] && b == [b[0]] + b[1..];
    }
  }

  predicate Free(c: char, s: string) {
    forall i | 0 <= i < |s| :: s[i] != c
  }

  /** `String.index_from_opt s start c`. */
  function IndexFrom(s: string, start: nat, c: char): (r: Option<nat>)
    requires start <= |s|
    ensures r.Some? ==> start <= r.value < |s| && s[r.value] == c
    ensures r.Some? ==> forall i | start <= i < r.value :: s[i] != c
    ensures r.None? ==> forall i | start <= i < |s| :: s[i] != c
    decreases |s| - start
  {
    if start == |s| then None
    else if s[start] == c then Some(start)
    else IndexFrom(s, start + 1, c)
  }

  /** `String.concat [separator] fields`. */
  function Join(separator: char, fields: seq<string>): string
    requires |fields| > 0
  {
    if |fields| == 1 then fields[0]
    else fields[0] + [separator] + Join(separator, fields[1..])
  }

  /** `String.split_on_char separator s`. */
  function Split(separator: char, s: string): (fields: seq<string>)
    ensures |fields| > 0
  {
    if |s| == 0 then [""]
    else
      var rest := Split(separator, s[1..]);
      if s[0] == separator then [""] + rest else [[s[0]] + rest[0]] + rest[1..]
  }

  lemma {:induction false} SplitFree(separator: char, s: string)
    ensures forall i | 0 <= i < |Split(separator, s)| :: Free(separator, Split(separator, s)[i])
  {
    if |s| > 0 { SplitFree(separator, s[1..]); }
  }

  lemma {:induction false} SplitPrefix(separator: char, field: string, tail: string)
    requires Free(separator, field)
    ensures Split(separator, field + [separator] + tail) == [field] + Split(separator, tail)
  {
    if |field| == 0 {
      assert (field + [separator] + tail)[1..] == tail;
    } else {
      assert Free(separator, field[1..]);
      SplitPrefix(separator, field[1..], tail);
      assert (field + [separator] + tail)[1..] == field[1..] + [separator] + tail;
      assert [field[0]] + field[1..] == field;
    }
  }

  lemma {:induction false} SplitSingle(separator: char, field: string)
    requires Free(separator, field)
    ensures Split(separator, field) == [field]
  {
    if |field| > 0 {
      assert Free(separator, field[1..]);
      SplitSingle(separator, field[1..]);
      assert [field[0]] + field[1..] == field;
    }
  }

  /** Splitting inverts joining when no field holds the separator. */
  lemma {:induction false} SplitJoin(separator: char, fields: seq<string>)
    requires |fields| > 0
    requires forall i | 0 <= i < |fields| :: Free(separator, fields[i])
    ensures Split(separator, Join(separator, fields)) == fields
  {
    if |fields| == 1 {
      SplitSingle(separator, fields[0]);
    } else {
      SplitPrefix(separator, fields[0], Join(separator, fields[1..]));
      SplitJoin(separator, fields[1..]);
    }
  }

  /** `List.sort_uniq` by a string key, keeping the first of equal keys. */
  function InsertUnique<T>(x: T, xs: seq<T>, key: T -> string): seq<T> {
    if |xs| == 0 || Less(key(x), key(xs[0])) then [x] + xs
    else if key(x) == key(xs[0]) then xs
    else [xs[0]] + InsertUnique(x, xs[1..], key)
  }

  function SortUnique<T>(xs: seq<T>, key: T -> string): seq<T> {
    if |xs| == 0 then [] else InsertUnique(xs[|xs| - 1], SortUnique(xs[..|xs| - 1], key), key)
  }

  predicate Ascending<T>(xs: seq<T>, key: T -> string) {
    forall i | 0 <= i < |xs| - 1 :: Less(key(xs[i]), key(xs[i + 1]))
  }

  lemma {:induction false} InsertKeepsAscending<T>(x: T, xs: seq<T>, key: T -> string)
    requires Ascending(xs, key)
    ensures Ascending(InsertUnique(x, xs, key), key)
    ensures forall y | y in InsertUnique(x, xs, key) :: y == x || y in xs
    ensures forall y | y in xs :: y in InsertUnique(x, xs, key)
    ensures exists y | y in InsertUnique(x, xs, key) :: key(y) == key(x)
  {
    if |xs| == 0 || Less(key(x), key(xs[0])) {
      assert x in [x] + xs;
    } else if key(x) == key(xs[0]) {
      assert xs[0] in xs;
    } else {
      LessTotal(key(x), key(xs[0]));
      assert Ascending(xs[1..], key);
      InsertKeepsAscending(x, xs[1..], key);
      var tail := InsertUnique(x, xs[1..], key);
      assert forall y | y in tail :: y == x || y in xs[1..];
      assert xs == [xs[0]] + xs[1..];
      assert tail[0] == x || (|xs| > 1 && tail[0] == xs[1]);
    }
  }

  lemma {:induction false} InsertAtEnd<T>(x: T, xs: seq<T>, key: T -> string)
    requires Ascending(xs + [x], key)
    ensures InsertUnique(x, xs, key) == xs + [x]
  {
    if |xs| > 0 {
      var all := xs + [x];
      forall i | 0 <= i < |xs[1..] + [x]| - 1
        ensures Less(key((xs[1..] + [x])[i]), key((xs[1..] + [x])[i + 1]))
      {
        assert (xs[1..] + [x])[i] == all[i + 1] && (xs[1..] + [x])[i + 1] == all[i + 2];
      }
      FirstLess(all, key);
      LessIrreflexive(key(x));
      if Less(key(x), key(xs[0])) { LessTransitive(key(x), key(xs[0]), key(x)); }
      InsertAtEnd(x, xs[1..], key);
    }
  }

  lemma {:induction false} FirstLess<T>(xs: seq<T>, key: T -> string)
    requires |xs| > 1 && Ascending(xs, key)
    ensures Less(key(xs[0]), key(xs[|xs| - 1]))
  {
    if |xs| > 2 {
      var front := xs[..|xs| - 1];
      assert Ascending(front, key);
      FirstLess(front, key);
      assert Less(key(xs[|xs| - 2]), key(xs[|xs| - 2 + 1]));
      LessTransitive(key(xs[0]), key(xs[|xs| - 2]), key(xs[|xs| - 1]));
    }
  }

  /** A list survives `sort_uniq` unchanged exactly when its keys strictly ascend. */
  lemma {:induction false} SortUniqueFixed<T>(xs: seq<T>, key: T -> string)
    ensures SortUnique(xs, key) == xs <==> Ascending(xs, key)
  {
    SortUniqueAscends(xs, key);
    if |xs| > 0 && Ascending(xs, key) {
      var front, last := xs[..|xs| - 1], xs[|xs| - 1];
      assert Ascending(front, key);
      SortUniqueFixed(front, key);
      assert xs == front + [last];
      InsertAtEnd(last, front, key);
    }
  }

  lemma {:induction false} SortUniqueAscends<T>(xs: seq<T>, key: T -> string)
    ensures Ascending(SortUnique(xs, key), key)
    ensures forall y | y in SortUnique(xs, key) :: y in xs
    ensures xs != [] ==> SortUnique(xs, key) != []
  {
    if |xs| > 0 {
      var front := xs[..|xs| - 1];
      SortUniqueAscends(front, key);
      InsertKeepsAscending(xs[|xs| - 1], SortUnique(front, key), key);
    }
  }

  lemma {:induction false} InsertUniqueSize<T>(x: T, xs: seq<T>, key: T -> string)
    ensures |InsertUnique(x, xs, key)| <= |xs| + 1
  {
    if |xs| > 0 { InsertUniqueSize(x, xs[1..], key); }
  }

  lemma {:induction false} SortUniqueSize<T>(xs: seq<T>, key: T -> string)
    ensures |SortUnique(xs, key)| <= |xs|
  {
    if |xs| > 0 {
      SortUniqueSize(xs[..|xs| - 1], key);
      InsertUniqueSize(xs[|xs| - 1], SortUnique(xs[..|xs| - 1], key), key);
    }
  }
}
