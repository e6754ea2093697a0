/** The sift operations of a binary max-heap, on sequences. */
module Heap {
  import opened Sorting

  function Parent(i: nat): nat
    requires i > 0
    ensures Parent(i) < i
  {
    (i - 1) / 2
  }

  function Swap<T>(s: seq<T>, i: nat, j: nat): (r: seq<T>)
    requires i < |s| && j < |s|
    ensures |r| == |s|
  {
    s[i := s[j]][j := s[i]]
  }

  function SiftUp<T>(s: seq<T>, i: nat, leq: (T, T) -> bool): (r: seq<T>)
    requires i < |s|
    ensures |r| == |s|
    decreases i
  {
    if i > 0 && !leq(s[i], s[Parent(i)]) then SiftUp(Swap(s, Parent(i), i), Parent(i), leq) else s
  }

  /** The larger child of `i`, the left one on a tie. */
  function Larger<T>(s: seq<T>, i: nat, leq: (T, T) -> bool): (c: nat)
    requires 2 * i + 1 < |s|
    ensures i < c < |s| && Parent(c) == i
  {
    var left, right := 2 * i + 1, 2 * i + 2;
    if right < |s| && !leq(s[right], s[left]) then right else left
  }

  function SiftDown<T>(s: seq<T>, i: nat, leq: (T, T) -> bool): (r: seq<T>)
    requires i < |s|
    ensures |r| == |s|
    decreases |s| - i
  {
    if 2 * i + 1 < |s| && !leq(s[Larger(s, i, leq)], s[i])
    then SiftDown(Swap(s, i, Larger(s, i, leq)), Larger(s, i, leq), leq)
    else s
  }

  /** The heap condition of the one edge above `i`. */
  predicate Ordered<T>(s: seq<T>, i: nat, leq: (T, T) -> bool)
    requires 0 < i < |s|
  {
    leq(s[i], s[Parent(i)])
  }

  predicate IsHeap<T>(s: seq<T>, leq: (T, T) -> bool) {
    forall i | 0 < i < |s| :: Ordered(s, i, leq)
  }

  /** A heap but for the edge above `hole`; the children of `hole` are below its parent. */
  predicate HeapButAbove<T>(s: seq<T>, hole: nat, leq: (T, T) -> bool)
    requires hole < |s|
  {
    && (forall i | 0 < i < |s| && i != hole :: Ordered(s, i, leq))
    && (hole > 0 ==> forall i | 0 < i < |s| && Parent(i) == hole :: leq(s[i], s[Parent(hole)]))
  }

  /** A heap but for the edges below `hole`; its children are below its parent. */
  predicate HeapButBelow<T>(s: seq<T>, hole: nat, leq: (T, T) -> bool)
    requires hole < |s|
  {
    && (forall i | 0 < i < |s| && Parent(i) != hole :: Ordered(s, i, leq))
    && (hole > 0 ==> forall i | 0 < i < |s| && Parent(i) == hole :: leq(s[i], s[Parent(hole)]))
  }

  lemma SwapKeepsItems<T>(s: seq<T>, i: nat, j: nat)
    requires i < |s| && j < |s|
    ensures multiset(Swap(s, i, j)) == multiset(s)
  {}

  lemma SwapUp<T(!new)>(s: seq<T>, i: nat, leq: (T, T) -> bool)
    requires TotalOrder(leq) && 0 < i < |s| && HeapButAbove(s, i, leq) && !leq(s[i], s[Parent(i)])
    ensures HeapButAbove(Swap(s, Parent(i), i), Parent(i), leq)
  {
    var p, t := Parent(i), Swap(s, Parent(i), i);
    assert Law(leq, s[i], s[p], s[p]);
    forall k | 0 < k < |t| && k != p
      ensures Ordered(t, k, leq)
    {
      if k != i {
        assert Ordered(s, k, leq);
        assert Law(leq, s[k], s[p], s[i]);
      }
    }
    if p > 0 {
      assert Ordered(s, p, leq);
      forall k | 0 < k < |t| && Parent(k) == p
        ensures leq(t[k], t[Parent(p)])
      {
        if k != i { assert Ordered(s, k, leq); }
        assert Law(leq, s[k], s[p], s[Parent(p)]);
      }
    }
  }

  lemma {:induction false} SiftUpRestores<T(!new)>(s: seq<T>, i: nat, leq: (T, T) -> bool)
    requires TotalOrder(leq) && i < |s| && HeapButAbove(s, i, leq)
    ensures IsHeap(SiftUp(s, i, leq), leq) && multiset(SiftUp(s, i, leq)) == multiset(s)
    decreases i
  {
    if i > 0 && !leq(s[i], s[Parent(i)]) {
      SwapKeepsItems(s, Parent(i), i);
      SwapUp(s, i, leq);
      SiftUpRestores(Swap(s, Parent(i), i), Parent(i), leq);
    } else {
      forall k | 0 < k < |s|
        ensures Ordered(s, k, leq)
      {}
    }
  }

  lemma SwapDown<T(!new)>(s: seq<T>, i: nat, leq: (T, T) -> bool)
    requires TotalOrder(leq) && 2 * i + 1 < |s| && HeapButBelow(s, i, leq)
    requires !leq(s[Larger(s, i, leq)], s[i])
    ensures HeapButBelow(Swap(s, i, Larger(s, i, leq)), Larger(s, i, leq), leq)
  {
    var c := Larger(s, i, leq);
    var t := Swap(s, i, c);
    forall k | 0 < k < |t| && Parent(k) != c
      ensures Ordered(t, k, leq)
    {
      if Parent(k) == i {
        assert k == 2 * i + 1 || k == 2 * i + 2;
        assert Law(leq, s[2 * i + 1], s[c], s[c]) && Law(leq, s[i], s[c], s[c]);
      } else {
        assert Ordered(s, k, leq);
      }
    }
    forall k | 0 < k < |t| && Parent(k) == c
      ensures leq(t[k], t[Parent(c)])
    {
      assert Ordered(s, k, leq);
    }
  }

  lemma NoChildAbove<T(!new)>(s: seq<T>, i: nat, k: nat, leq: (T, T) -> bool)
    requires TotalOrder(leq) && i < k < |s| && Parent(k) == i && leq(s[Larger(s, i, leq)], s[i])
    ensures leq(s[k], s[i])
  {
    var left, right := 2 * i + 1, 2 * i + 2;
    assert k == left || k == right;
    if right < |s| {
      assert Law(leq, s[left], s[right], s[i]) && Law(leq, s[right], s[left], s[i]);
    }
  }

  lemma {:induction false} SiftDownRestores<T(!new)>(s: seq<T>, i: nat, leq: (T, T) -> bool)
    requires TotalOrder(leq) && i < |s| && HeapButBelow(s, i, leq)
    ensures IsHeap(SiftDown(s, i, leq), leq) && multiset(SiftDown(s, i, leq)) == multiset(s)
    decreases |s| - i
  {
    if 2 * i + 1 < |s| && !leq(s[Larger(s, i, leq)], s[i]) {
      var c := Larger(s, i, leq);
      SwapKeepsItems(s, i, c);
      SwapDown(s, i, leq);
      SiftDownRestores(Swap(s, i, c), c, leq);
    } else {
      forall k | 0 < k < |s|
        ensures Ordered(s, k, leq)
      {
        if Parent(k) == i { NoChildAbove(s, i, k, leq); }
      }
    }
  }

  /** Nothing in a heap is above its root. */
  lemma {:induction false} RootIsGreatest<T(!new)>(s: seq<T>, i: nat, leq: (T, T) -> bool)
    requires TotalOrder(leq) && IsHeap(s, leq) && i < |s|
    ensures leq(s[i], s[0])
    decreases i
  {
    if i > 0 {
      assert Ordered(s, i, leq);
      RootIsGreatest(s, Parent(i), leq);
    }
    assert Law(leq, s[i], if i > 0 then s[Parent(i)] else s[i], s[0]);
  }

  /** A new last item leaves a heap but for the edge above it. */
  lemma AppendLeavesHole<T(!new)>(s: seq<T>, x: T, leq: (T, T) -> bool)
    requires TotalOrder(leq) && IsHeap(s, leq)
    ensures HeapButAbove(s + [x], |s|, leq)
  {
    var t := s + [x];
    forall k | 0 < k < |t| && k != |s|
      ensures Ordered(t, k, leq)
    {
      assert Ordered(s, k, leq);
    }
  }

  /** A new root leaves a heap but for the edges below it. */
  lemma RootLeavesHole<T(!new)>(s: seq<T>, n: nat, x: T, leq: (T, T) -> bool)
    requires TotalOrder(leq) && IsHeap(s, leq) && 0 < n <= |s|
    ensures HeapButBelow(s[..n][0 := x], 0, leq)
  {
    var t := s[..n][0 := x];
    forall k | 0 < k < |t| && Parent(k) != 0
      ensures Ordered(t, k, leq)
    {
      assert Ordered(s, k, leq);
    }
  }
}
