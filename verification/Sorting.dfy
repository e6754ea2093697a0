/** Sorted sequences under a total order, and the smallest items of a sequence. */
module Sorting {
  /** The laws of a total order, for three items. */
  ghost predicate Law<T>(leq: (T, T) -> bool, a: T, b: T, c: T) {
    && leq(a, a)
    && (leq(a, b) || leq(b, a))
    && (leq(a, b) && leq(b, a) ==> a == b)
    && (leq(a, b) && leq(b, c) ==> leq(a, c))
  }

  ghost predicate TotalOrder<T(!new)>(leq: (T, T) -> bool) {
    forall a, b, c :: Law(leq, a, b, c)
  }

  function Insert<T>(x: T, s: seq<T>, leq: (T, T) -> bool): (r: seq<T>)
    ensures |r| == |s| + 1
  {
    if |s| == 0 || leq(x, s[0]) then [x] + s else [s[0]] + Insert(x, s[1..], leq)
  }

  /** `List.sort`. Items that compare equal are equal, so stability makes no difference. */
  function Sort<T>(s: seq<T>, leq: (T, T) -> bool): (r: seq<T>)
    ensures |r| == |s|
  {
    if |s| == 0 then [] else Insert(s[0], Sort(s[1..], leq), leq)
  }

  predicate Sorted<T>(s: seq<T>, leq: (T, T) -> bool) {
    forall i, j | 0 <= i < j < |s| :: leq(s[i], s[j])
  }

  predicate Below<T>(lower: seq<T>, upper: seq<T>, leq: (T, T) -> bool) {
    forall i, j | 0 <= i < |lower| && 0 <= j < |upper| :: leq(lower[i], upper[j])
  }

  lemma {:induction false} InsertSorted<T(!new)>(x: T, s: seq<T>, leq: (T, T) -> bool)
    requires TotalOrder(leq) && Sorted(s, leq)
    ensures Sorted(Insert(x, s, leq), leq)
    ensures multiset(Insert(x, s, leq)) == multiset(s) + multiset{x}
  {
    if |s| > 0 {
      assert s == [s[0]] + s[1..];
      if leq(x, s[0]) {
        forall j | 0 <= j < |s|
          ensures leq(x, s[j])
        {
          assert Law(leq, x, s[0], s[j]);
        }
      } else {
        InsertSorted(x, s[1..], leq);
        var t := Insert(x, s[1..], leq);
        forall j | 0 <= j < |t|
          ensures leq(s[0], t[j])
        {
          assert t[j] in multiset(t);
          assert Law(leq, s[0], x, x);
        }
      }
    }
  }

  lemma {:induction false} SortSorts<T(!new)>(s: seq<T>, leq: (T, T) -> bool)
    requires TotalOrder(leq)
    ensures Sorted(Sort(s, leq), leq) && multiset(Sort(s, leq)) == multiset(s)
  {
    if |s| > 0 {
      SortSorts(s[1..], leq);
      InsertSorted(s[0], Sort(s[1..], leq), leq);
      assert s == [s[0]] + s[1..];
    }
  }

  lemma {:induction false} InsertKeeps<T(!new)>(x: T, s: seq<T>, leq: (T, T) -> bool)
    ensures multiset(Insert(x, s, leq)) == multiset(s) + multiset{x}
  {
    if |s| > 0 {
      assert s == [s[0]] + s[1..];
      if !leq(x, s[0]) { InsertKeeps(x, s[1..], leq); }
    }
  }

  /** Sorting keeps every item, whatever the comparison. */
  lemma {:induction false} SortKeeps<T(!new)>(s: seq<T>, leq: (T, T) -> bool)
    ensures multiset(Sort(s, leq)) == multiset(s)
    ensures forall i | 0 <= i < |s| :: Sort(s, leq)[i] in s
  {
    if |s| > 0 {
      assert s == [s[0]] + s[1..];
      SortKeeps(s[1..], leq);
      InsertKeeps(s[0], Sort(s[1..], leq), leq);
    }
    forall i | 0 <= i < |s|
      ensures Sort(s, leq)[i] in s
    {
      assert Sort(s, leq)[i] in multiset(Sort(s, leq));
    }
  }

  lemma SameLeast<T(!new)>(s: seq<T>, t: seq<T>, leq: (T, T) -> bool)
    requires TotalOrder(leq) && Sorted(s, leq) && Sorted(t, leq) && multiset(s) == multiset(t)
    requires |s| > 0
    ensures |t| > 0 && s[0] == t[0]
  {
    assert |multiset(s)| == |s| && |multiset(t)| == |t|;
    assert s[0] in multiset(t) && t[0] in multiset(s);
    var i :| 0 <= i < |t| && t[i] == s[0];
    var j :| 0 <= j < |s| && s[j] == t[0];
    assert Law(leq, s[0], t[0], t[0]) && Law(leq, t[0], s[0], s[0]);
  }

  lemma RestOf<T>(s: seq<T>)
    requires |s| > 0
    ensures multiset(s[1..]) == multiset(s) - multiset{s[0]}
  {
    assert s == [s[0]] + s[1..];
  }

  /** A sorted sequence is determined by what is in it. */
  lemma {:induction false} SortedUnique<T(!new)>(s: seq<T>, t: seq<T>, leq: (T, T) -> bool)
    requires TotalOrder(leq) && Sorted(s, leq) && Sorted(t, leq) && multiset(s) == multiset(t)
    ensures s == t
    decreases |s|
  {
    assert |multiset(s)| == |s| && |multiset(t)| == |t|;
    if |s| > 0 {
      SameLeast(s, t, leq);
      RestOf(s);
      RestOf(t);
      SortedUnique(s[1..], t[1..], leq);
      assert s == [s[0]] + s[1..] && t == [t[0]] + t[1..];
    }
  }

  lemma SortIsCanonical<T(!new)>(s: seq<T>, t: seq<T>, leq: (T, T) -> bool)
    requires TotalOrder(leq) && multiset(s) == multiset(t)
    ensures Sort(s, leq) == Sort(t, leq)
  {
    SortSorts(s, leq);
    SortSorts(t, leq);
    SortedUnique(Sort(s, leq), Sort(t, leq), leq);
  }

  lemma SortFixed<T(!new)>(s: seq<T>, leq: (T, T) -> bool)
    requires TotalOrder(leq) && Sorted(s, leq)
    ensures Sort(s, leq) == s
  {
    SortSorts(s, leq);
    SortedUnique(Sort(s, leq), s, leq);
  }

  /** A part that lies below the rest is the sorted beginning of the whole. */
  lemma {:induction false} LowerPartIsPrefix<T(!new)>(all: seq<T>, lower: seq<T>, upper: seq<T>, leq: (T, T) -> bool)
    requires TotalOrder(leq)
    requires multiset(all) == multiset(lower) + multiset(upper) && Below(lower, upper, leq)
    ensures |lower| <= |all|
    ensures Sort(all, leq)[..|lower|] == Sort(lower, leq)
    ensures Sort(all, leq)[|lower|..] == Sort(upper, leq)
  {
    var l, u := Sort(lower, leq), Sort(upper, leq);
    SortSorts(all, leq);
    SortSorts(lower, leq);
    SortSorts(upper, leq);
    forall i, j | 0 <= i < |l| && 0 <= j < |u|
      ensures leq(l[i], u[j])
    {
      assert l[i] in multiset(lower) && u[j] in multiset(upper);
      assert l[i] in lower && u[j] in upper;
    }
    SortedUnique(Sort(all, leq), l + u, leq);
  }

  lemma SortedSplits<T(!new)>(s: seq<T>, k: nat, leq: (T, T) -> bool)
    requires Sorted(s, leq) && k <= |s|
    ensures Sorted(s[..k], leq) && Sorted(s[k..], leq) && Below(s[..k], s[k..], leq)
  {
    forall i, j | 0 <= i < j < |s[k..]|
      ensures leq(s[k..][i], s[k..][j])
    {
      assert leq(s[k + i], s[k + j]);
    }
    forall i, j | 0 <= i < k && 0 <= j < |s[k..]|
      ensures leq(s[..k][i], s[k..][j])
    {
      assert leq(s[i], s[k + j]);
    }
  }

  lemma SortSplits<T(!new)>(all: seq<T>, k: nat, leq: (T, T) -> bool)
    requires TotalOrder(leq) && k <= |all|
    ensures Sorted(Sort(all, leq)[..k], leq) && Sorted(Sort(all, leq)[k..], leq)
    ensures Below(Sort(all, leq)[..k], Sort(all, leq)[k..], leq)
    ensures multiset(all) == multiset(Sort(all, leq)[..k]) + multiset(Sort(all, leq)[k..])
  {
    SortSorts(all, leq);
    var s := Sort(all, leq);
    SortedSplits(s, k, leq);
    assert s == s[..k] + s[k..];
  }
}
