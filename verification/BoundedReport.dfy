/**
 The result of the collector as a function of what was added, and the second, list-based
 limit of lib/bundle.ml that admits one late item into a finished result. Both are stated
 for any total order; Diagnostics.dfy instantiates them.
 */
module BoundedReport {
  import opened Sorting

  /** The order, the marker for an exceeded limit, and which items carry the marker's code. */
  datatype Scheme<!T> = Scheme(leq: (T, T) -> bool, marker: T, coded: T -> bool)

  ghost predicate Sound<T(!new)>(o: Scheme<T>) {
    TotalOrder(o.leq) && o.coded(o.marker)
  }

  /** Everything sorted if it fits; else the `n - 1` smallest and the marker. */
  function Report<T>(xs: seq<T>, n: nat, o: Scheme<T>): (r: seq<T>)
    requires n >= 2
    ensures |r| == if |xs| <= n then |xs| else n
  {
    if |xs| <= n then Sort(xs, o.leq)
    else Sort(Sort(xs, o.leq)[..n - 1] + [o.marker], o.leq)
  }

  /** The result does not depend on the order of arrival. */
  lemma ArrivalOrderIrrelevant<T(!new)>(xs: seq<T>, ys: seq<T>, n: nat, o: Scheme<T>)
    requires n >= 2 && TotalOrder(o.leq) && multiset(xs) == multiset(ys)
    ensures Report(xs, n, o) == Report(ys, n, o)
  {
    SortIsCanonical(xs, ys, o.leq);
    assert |multiset(xs)| == |xs| && |multiset(ys)| == |ys|;
  }

  function WithoutCoded<T>(s: seq<T>, coded: T -> bool): seq<T> {
    if |s| == 0 then [] else (if coded(s[0]) then [] else [s[0]]) + WithoutCoded(s[1..], coded)
  }

  function Take<T>(count: nat, values: seq<T>): seq<T> {
    if count == 0 || |values| == 0 then [] else [values[0]] + Take(count - 1, values[1..])
  }

  /** The late merge of `validate_unlocked`, for a limit of `n` items. */
  function MergeLate<T>(d: T, result: seq<T>, n: nat, o: Scheme<T>): seq<T>
    requires n >= 2
  {
    var all := Sort([d] + result, o.leq);
    if |all| <= n then all
    else Sort([o.marker] + Take(n - 1, WithoutCoded(all, o.coded)), o.leq)
  }

  predicate Uncoded<T>(s: seq<T>, coded: T -> bool) {
    forall i | 0 <= i < |s| :: !coded(s[i])
  }

  lemma {:induction false} TakeIsPrefix<T>(count: nat, values: seq<T>)
    ensures Take(count, values) == if count <= |values| then values[..count] else values
  {
    if count > 0 && |values| > 0 {
      TakeIsPrefix(count - 1, values[1..]);
      assert values == [values[0]] + values[1..];
    }
  }

  lemma {:induction false} FilterCounts<T>(s: seq<T>, coded: T -> bool, e: T)
    ensures multiset(WithoutCoded(s, coded))[e] == if coded(e) then 0 else multiset(s)[e]
  {
    if |s| > 0 {
      FilterCounts(s[1..], coded, e);
      assert s == [s[0]] + s[1..];
    }
  }

  lemma MemberOf<T>(s: seq<T>, e: T)
    requires e in multiset(s)
    ensures exists i | 0 <= i < |s| :: s[i] == e
  {
    assert e in s;
  }

  /** Filtering only removes, so what was above something stays above it. */
  lemma FilteredStaysAbove<T(!new)>(low: seq<T>, rest: seq<T>, leq: (T, T) -> bool, coded: T -> bool)
    requires Below(low, rest, leq)
    ensures Below(low, WithoutCoded(rest, coded), leq)
  {
    var f := WithoutCoded(rest, coded);
    forall i, j | 0 <= i < |low| && 0 <= j < |f|
      ensures leq(low[i], f[j])
    {
      FilterCounts(rest, coded, f[j]);
      assert f[j] in multiset(f);
      MemberOf(rest, f[j]);
    }
  }

  lemma {:induction false} FilterSorted<T(!new)>(s: seq<T>, leq: (T, T) -> bool, coded: T -> bool)
    requires Sorted(s, leq)
    ensures Sorted(WithoutCoded(s, coded), leq)
  {
    if |s| > 0 {
      SortedSplits(s, 1, leq);
      FilterSorted(s[1..], leq, coded);
      FilteredStaysAbove(s[..1], s[1..], leq, coded);
      var t := WithoutCoded(s[1..], coded);
      forall j | 0 <= j < |t|
        ensures leq(s[0], t[j])
      {
        assert s[..1][0] == s[0];
      }
    }
  }

  /** Filtering keeps an uncoded lower part in front. */
  lemma {:induction false} FilterKeepsLower<T(!new)>(all: seq<T>, low: seq<T>, rest: seq<T>, leq: (T, T) -> bool, coded: T -> bool)
    requires TotalOrder(leq) && Sorted(all, leq) && Sorted(low, leq) && Uncoded(low, coded)
    requires multiset(all) == multiset(low) + multiset(rest)
    requires Below(low, WithoutCoded(rest, coded), leq)
    ensures |low| <= |WithoutCoded(all, coded)| && WithoutCoded(all, coded)[..|low|] == low
  {
    var f, r := WithoutCoded(all, coded), WithoutCoded(rest, coded);
    FilterSorted(all, leq, coded);
    forall e
      ensures multiset(f)[e] == multiset(low)[e] + multiset(r)[e]
    {
      FilterCounts(all, coded, e);
      FilterCounts(rest, coded, e);
      if e in multiset(low) { MemberOf(low, e); }
    }
    assert multiset(f) == multiset(low) + multiset(r);
    LowerPartIsPrefix(f, low, r, leq);
    SortFixed(f, leq);
    SortFixed(low, leq);
  }

  lemma LowBelowGone<T(!new)>(kept: seq<T>, gone: seq<T>, d: T, low: seq<T>, x: T, leq: (T, T) -> bool)
    requires TotalOrder(leq) && Below(kept, gone, leq) && Below(low, [x], leq)
    requires multiset(kept) + multiset{d} == multiset(low) + multiset{x}
    ensures Below(low, gone, leq)
  {
    forall i, j | 0 <= i < |low| && 0 <= j < |gone|
      ensures leq(low[i], gone[j])
    {
      var e := low[i];
      assert (multiset(low) + multiset{x})[e] > 0;
      assert e in multiset(kept) || e == d;
      if e in multiset(kept) {
        MemberOf(kept, e);
      } else {
        assert (multiset(kept) + multiset{d})[e] == 1;
        assert x != e;
        assert (multiset(low) + multiset{x})[x] > 0;
        MemberOf(kept, x);
        assert leq(e, [x][0]) && Law(leq, e, x, gone[j]);
      }
    }
  }

  lemma Regroup<T>(all: multiset<T>, kept: multiset<T>, gone: multiset<T>, low: multiset<T>, x: T, d: T)
    requires all == kept + gone && kept + multiset{d} == low + multiset{x}
    ensures all + multiset{d} == low + (multiset{x} + gone)
  {
    assert all + multiset{d} == (kept + multiset{d}) + gone;
  }

  lemma OneAbove<T(!new)>(low: seq<T>, x: T, gone: seq<T>, leq: (T, T) -> bool)
    requires Below(low, [x], leq) && Below(low, gone, leq)
    ensures Below(low, [x] + gone, leq)
  {
    forall i, j | 0 <= i < |low| && 0 <= j < |gone| + 1
      ensures leq(low[i], ([x] + gone)[j])
    {
      if j == 0 { assert leq(low[i], [x][0]); } else { assert leq(low[i], gone[j - 1]); }
    }
  }

  lemma LowIsSmallest<T(!new)>(xs: seq<T>, d: T, low: seq<T>, x: T, kept: seq<T>, gone: seq<T>,
                        leq: (T, T) -> bool)
    requires TotalOrder(leq) && Sorted(low, leq) && Below(low, [x], leq) && Below(kept, gone, leq)
    requires multiset(kept) + multiset{d} == multiset(low) + multiset{x}
    requires multiset(xs) == multiset(kept) + multiset(gone)
    ensures |low| <= |xs| + 1 && Sort(xs + [d], leq)[..|low|] == low
  {
    LowBelowGone(kept, gone, d, low, x, leq);
    OneAbove(low, x, gone, leq);
    Regroup(multiset(xs), multiset(kept), multiset(gone), multiset(low), x, d);
    LowerPartIsPrefix(xs + [d], low, [x] + gone, leq);
    SortFixed(low, leq);
  }

  /**
   The `k` smallest of everything are the `k` smallest of the late one and the `k` that
   were kept; one more item, `x`, is left over.
   */
  lemma SmallestSurvive<T(!new)>(xs: seq<T>, d: T, k: nat, leq: (T, T) -> bool) returns (x: T)
    requires TotalOrder(leq) && k < |xs|
    ensures multiset(Sort(xs, leq)[..k]) + multiset{d} == multiset(Sort(xs + [d], leq)[..k]) + multiset{x}
    ensures Below(Sort(xs + [d], leq)[..k], [x], leq)
  {
    var kept, gone := Sort(xs, leq)[..k], Sort(xs, leq)[k..];
    SortSplits(xs, k, leq);
    var both := [d] + kept;
    var t := Sort(both, leq);
    SortSplits(both, k, leq);
    x := t[k];
    assert t[k..] == [x];
    LowIsSmallest(xs, d, t[..k], x, kept, gone, leq);
  }

  /** The contents of what the merge sorts. */
  lemma MergedContents<T(!new)>(xs: seq<T>, d: T, n: nat, o: Scheme<T>)
    requires TotalOrder(o.leq) && n >= 2
    ensures multiset([d] + Report(xs, n, o)) == multiset{d} +
              (if |xs| <= n then multiset(xs) else multiset(Sort(xs, o.leq)[..n - 1]) + multiset{o.marker})
  {
    SortSorts(xs, o.leq);
    if |xs| > n { SortSorts(Sort(xs, o.leq)[..n - 1] + [o.marker], o.leq); }
  }

  lemma PairFiltered<T(!new)>(low: seq<T>, x: T, y: T, leq: (T, T) -> bool, coded: T -> bool)
    requires Below(low, [x], leq) && coded(y)
    ensures Below(low, WithoutCoded([x, y], coded), leq)
  {
    assert WithoutCoded([y], coded) == [] && [x, y][1..] == [y];
  }

  lemma FullSplits<T(!new)>(xs: seq<T>, d: T, n: nat, o: Scheme<T>) returns (rest: seq<T>)
    requires Sound(o) && n >= 2 && |xs| == n
    ensures var low := Sort(xs + [d], o.leq)[..n - 1];
            && multiset{d} + multiset(xs) == multiset(low) + multiset(rest)
            && Below(low, WithoutCoded(rest, o.coded), o.leq)
  {
    var all := Sort(xs + [d], o.leq);
    rest := all[n - 1..];
    assert multiset(xs + [d]) == multiset{d} + multiset(xs);
    SortSplits(xs + [d], n - 1, o.leq);
    FilteredStaysAbove(all[..n - 1], rest, o.leq, o.coded);
  }

  lemma OverfullSplits<T(!new)>(xs: seq<T>, d: T, n: nat, o: Scheme<T>) returns (rest: seq<T>)
    requires Sound(o) && n >= 2 && |xs| > n
    ensures var low := Sort(xs + [d], o.leq)[..n - 1];
            && multiset{d} + (multiset(Sort(xs, o.leq)[..n - 1]) + multiset{o.marker}) == multiset(low) + multiset(rest)
            && Below(low, WithoutCoded(rest, o.coded), o.leq)
  {
    var low, kept := Sort(xs + [d], o.leq)[..n - 1], Sort(xs, o.leq)[..n - 1];
    var x := SmallestSurvive(xs, d, n - 1, o.leq);
    rest := [x, o.marker];
    assert rest == [x] + [o.marker];
    assert multiset(rest) == multiset{x} + multiset{o.marker};
    Regroup(multiset(kept) + multiset{o.marker}, multiset(kept), multiset{o.marker}, multiset(low), x, d);
    PairFiltered(low, x, o.marker, o.leq, o.coded);
  }

  /** What the merge sorts: the lower part, and a rest that is above it or is coded. */
  lemma MergedSplits<T(!new)>(xs: seq<T>, d: T, n: nat, o: Scheme<T>) returns (rest: seq<T>)
    requires Sound(o) && n >= 2 && |xs| >= n
    ensures multiset([d] + Report(xs, n, o)) == multiset(Sort(xs + [d], o.leq)[..n - 1]) + multiset(rest)
    ensures Below(Sort(xs + [d], o.leq)[..n - 1], WithoutCoded(rest, o.coded), o.leq)
  {
    MergedContents(xs, d, n, o);
    if |xs| == n {
      rest := FullSplits(xs, d, n, o);
    } else {
      rest := OverfullSplits(xs, d, n, o);
    }
  }

  lemma TakenIsLow<T(!new)>(all: seq<T>, low: seq<T>, rest: seq<T>, leq: (T, T) -> bool, coded: T -> bool)
    requires TotalOrder(leq) && Sorted(low, leq) && Uncoded(low, coded)
    requires multiset(all) == multiset(low) + multiset(rest)
    requires Below(low, WithoutCoded(rest, coded), leq)
    ensures Take(|low|, WithoutCoded(Sort(all, leq), coded)) == low
  {
    SortSorts(all, leq);
    FilterKeepsLower(Sort(all, leq), low, rest, leq, coded);
    TakeIsPrefix(|low|, WithoutCoded(Sort(all, leq), coded));
  }

  lemma MergeTakes<T(!new)>(d: T, result: seq<T>, n: nat, o: Scheme<T>, low: seq<T>)
    requires TotalOrder(o.leq) && n >= 2 && |result| >= n
    requires Take(n - 1, WithoutCoded(Sort([d] + result, o.leq), o.coded)) == low
    ensures MergeLate(d, result, n, o) == Sort(low + [o.marker], o.leq)
  {
    SortIsCanonical([o.marker] + low, low + [o.marker], o.leq);
  }

  lemma MergeAgreesWith<T(!new)>(ys: seq<T>, d: T, result: seq<T>, rest: seq<T>, n: nat, o: Scheme<T>)
    requires TotalOrder(o.leq) && n >= 2 && |result| >= n && |ys| > n
    requires Uncoded(Sort(ys, o.leq)[..n - 1], o.coded)
    requires multiset([d] + result) == multiset(Sort(ys, o.leq)[..n - 1]) + multiset(rest)
    requires Below(Sort(ys, o.leq)[..n - 1], WithoutCoded(rest, o.coded), o.leq)
    ensures MergeLate(d, result, n, o) == Report(ys, n, o)
  {
    SortSplits(ys, n - 1, o.leq);
    TakenIsLow([d] + result, Sort(ys, o.leq)[..n - 1], rest, o.leq, o.coded);
    MergeTakes(d, result, n, o, Sort(ys, o.leq)[..n - 1]);
  }

  /** With no coded item among the smallest, the merge agrees with streaming. */
  lemma {:induction false} MergeAgrees<T(!new)>(xs: seq<T>, d: T, n: nat, o: Scheme<T>)
    requires Sound(o) && n >= 2 && |xs| >= n && Uncoded(Sort(xs + [d], o.leq)[..n - 1], o.coded)
    ensures MergeLate(d, Report(xs, n, o), n, o) == Report(xs + [d], n, o)
  {
    var rest := MergedSplits(xs, d, n, o);
    var ys, result := xs + [d], Report(xs, n, o);
    MergeAgreesWith(ys, d, result, rest, n, o);
  }

  lemma TakenIsUncoded<T>(taken: seq<T>, all: seq<T>, coded: T -> bool, e: T)
    requires taken <= WithoutCoded(all, coded) && coded(e)
    ensures multiset(taken)[e] == 0
  {
    var f := WithoutCoded(all, coded);
    FilterCounts(all, coded, e);
    assert f == taken + f[|taken|..];
    assert multiset(f) == multiset(taken) + multiset(f[|taken|..]);
  }

  lemma SortsDiffer<T(!new)>(taken: seq<T>, low: seq<T>, e: T, m: T, leq: (T, T) -> bool)
    requires TotalOrder(leq) && e in low && multiset(taken)[e] == 0 && multiset(taken)[m] == 0
    ensures Sort([m] + taken, leq) != Sort(low + [m], leq)
  {
    SortSorts([m] + taken, leq);
    SortSorts(low + [m], leq);
    assert e in multiset(low);
    var merged, streamed := multiset([m] + taken), multiset(low + [m]);
    assert merged[m] == 1;
    assert if e == m then streamed[e] >= 2 else streamed[e] >= 1 && merged[e] == 0;
  }

  /** With a coded item among the smallest, streaming reports two of them and the merge one. */
  lemma {:induction false} MergeDiffers<T(!new)>(xs: seq<T>, d: T, n: nat, o: Scheme<T>, e: T)
    requires Sound(o) && n >= 2 && |xs| >= n && e in Sort(xs + [d], o.leq)[..n - 1] && o.coded(e)
    ensures MergeLate(d, Report(xs, n, o), n, o) != Report(xs + [d], n, o)
  {
    var all := Sort([d] + Report(xs, n, o), o.leq);
    var taken := Take(n - 1, WithoutCoded(all, o.coded));
    TakeIsPrefix(n - 1, WithoutCoded(all, o.coded));
    TakenIsUncoded(taken, all, o.coded, e);
    TakenIsUncoded(taken, all, o.coded, o.marker);
    SortsDiffer(taken, Sort(xs + [d], o.leq)[..n - 1], e, o.marker, o.leq);
  }

  /**
   The late merge gives what the collector would have given for one more item, exactly
   when the limit is not reached or none of the `n - 1` smallest carries the marker's code.
   */
  lemma {:induction false} LateMergeAgreesExactly<T(!new)>(xs: seq<T>, d: T, n: nat, o: Scheme<T>)
    requires Sound(o) && n >= 2
    ensures MergeLate(d, Report(xs, n, o), n, o) == Report(xs + [d], n, o)
       <==> |xs| < n || Uncoded(Sort(xs + [d], o.leq)[..n - 1], o.coded)
  {
    var low := if |xs| < n then [] else Sort(xs + [d], o.leq)[..n - 1];
    if |xs| < n {
      SortSorts(xs, o.leq);
      SortIsCanonical([d] + Sort(xs, o.leq), xs + [d], o.leq);
    } else if Uncoded(low, o.coded) {
      MergeAgrees(xs, d, n, o);
    } else {
      var i :| 0 <= i < |low| && o.coded(low[i]);
      MergeDiffers(xs, d, n, o, low[i]);
    }
  }

  /** So inputs free of the code always agree. */
  lemma LateMergeAgrees<T(!new)>(xs: seq<T>, d: T, n: nat, o: Scheme<T>)
    requires Sound(o) && n >= 2 && Uncoded(xs + [d], o.coded)
    ensures MergeLate(d, Report(xs, n, o), n, o) == Report(xs + [d], n, o)
  {
    LateMergeAgreesExactly(xs, d, n, o);
    if |xs| >= n {
      var low := Sort(xs + [d], o.leq)[..n - 1];
      SortSplits(xs + [d], n - 1, o.leq);
      forall i | 0 <= i < |low|
        ensures !o.coded(low[i])
      {
        assert low[i] in multiset(xs + [d]);
        MemberOf(xs + [d], low[i]);
      }
    }
  }
}
