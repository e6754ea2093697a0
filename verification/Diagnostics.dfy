/**
 The bounded diagnostic collector (lib/diagnostic.ml) and the merge of one late
 diagnostic into a finished result (lib/bundle.ml).
 */
module Diagnostics {
  import opened Wrappers
  import opened BoundedReport
  import opened Heap
  import opened Sorting
  import Text

  datatype Severity = Error | Warning

  datatype Diagnostic = Diagnostic(
    severity: Severity,
    path: string,
    code: string,
    field: string,
    message: string)

  const LIMIT_CODE := "diagnostic_limit"

  const MARKER := Diagnostic(Error, "knowledge", LIMIT_CODE, "",
                             "bundle exceeds the 1,000-diagnostic safety limit")

  /** `compare left right < 0`: path, code, field, message, then severity. */
  predicate Precedes(a: Diagnostic, b: Diagnostic) {
    if a.path != b.path then Text.Less(a.path, b.path)
    else if a.code != b.code then Text.Less(a.code, b.code)
    else if a.field != b.field then Text.Less(a.field, b.field)
    else if a.message != b.message then Text.Less(a.message, b.message)
    else a.severity.Error? && b.severity.Warning?
  }

  predicate Leq(a: Diagnostic, b: Diagnostic) {
    !Precedes(b, a)
  }

  lemma LessAsymmetric(a: string, b: string)
    ensures !(Text.Less(a, b) && Text.Less(b, a))
  {
    if Text.Less(a, b) && Text.Less(b, a) {
      Text.LessTransitive(a, b, a);
      Text.LessIrreflexive(a);
    }
  }

  lemma PrecedesAsymmetric(a: Diagnostic, b: Diagnostic)
    ensures !(Precedes(a, b) && Precedes(b, a))
    ensures a != b ==> Precedes(a, b) || Precedes(b, a)
  {
    LessAsymmetric(a.path, b.path);
    LessAsymmetric(a.code, b.code);
    LessAsymmetric(a.field, b.field);
    LessAsymmetric(a.message, b.message);
    Text.LessTotal(a.path, b.path);
    Text.LessTotal(a.code, b.code);
    Text.LessTotal(a.field, b.field);
    Text.LessTotal(a.message, b.message);
  }

  lemma LessChains(a: string, b: string, c: string)
    ensures Text.Less(a, b) && Text.Less(b, c) ==> Text.Less(a, c) && a != c
  {
    if Text.Less(a, b) && Text.Less(b, c) {
      Text.LessTransitive(a, b, c);
      LessAsymmetric(a, b);
    }
  }

  lemma PrecedesTransitive(a: Diagnostic, b: Diagnostic, c: Diagnostic)
    requires Precedes(a, b) && Precedes(b, c)
    ensures Precedes(a, c)
  {
    LessChains(a.path, b.path, c.path);
    LessChains(a.code, b.code, c.code);
    LessChains(a.field, b.field, c.field);
    LessChains(a.message, b.message, c.message);
  }

  /** The comparison is a total order: it looks at every field, so ties are equal records. */
  lemma CompareIsTotal()
    ensures TotalOrder(Leq)
  {
    forall a, b, c
      ensures Law(Leq, a, b, c)
    {
      PrecedesAsymmetric(a, a);
      PrecedesAsymmetric(a, b);
      PrecedesAsymmetric(b, c);
      PrecedesAsymmetric(a, c);
      if Precedes(a, b) && Precedes(b, c) { PrecedesTransitive(a, b, c); }
    }
  }

  /** The collector's order, its limit marker, and the marker's code. */
  function Limits(): Scheme<Diagnostic> {
    Scheme(Leq, MARKER, (d: Diagnostic) => d.code == LIMIT_CODE)
  }

  /** The diagnostics among the first `n` slots. */
  function Values(slots: seq<Option<Diagnostic>>): seq<Diagnostic>
    requires forall i | 0 <= i < |slots| :: slots[i].Some?
  {
    seq(|slots|, i requires 0 <= i < |slots| => slots[i].value)
  }

  class Collector {
    var heap: array<Option<Diagnostic>>
    var size: nat
    var exceeded: bool
    ghost var added: seq<Diagnostic>
    ghost var dropped: seq<Diagnostic>

    predicate Filled()
      reads this, heap
    {
      && size <= heap.Length && heap.Length >= 2
      && (forall i | 0 <= i < size :: heap[i].Some?)
      && (forall i | size <= i < heap.Length :: heap[i].None?)
    }

    ghost function Items(): (items: seq<Diagnostic>)
      requires Filled()
      reads this, heap
      ensures |items| == size && forall i | 0 <= i < size :: items[i] == heap[i].value
    {
      Values(heap[..size])
    }

    /** A max-heap of the smallest diagnostics added so far; the others are dropped. */
    ghost predicate KeepsSmallest()
      reads this, heap
    {
      && Filled()
      && IsHeap(Items(), Leq)
      && multiset(added) == multiset(Items()) + multiset(dropped)
      && Below(Items(), dropped, Leq)
    }

    ghost predicate Valid()
      reads this, heap
    {
      && KeepsSmallest()
      && if exceeded then size == heap.Length - 1 && |added| > heap.Length else dropped == []
    }

    constructor (capacity: nat)
      requires capacity >= 2
      ensures Valid() && fresh(heap) && heap.Length == capacity && added == []
    {
      heap := new Option<Diagnostic>[capacity](_ => None);
      size := 0;
      exceeded := false;
      added := [];
      dropped := [];
    }

    method SwapSlots(left: nat, right: nat)
      requires Filled() && left < size && right < size
      modifies heap
      ensures Filled() && Items() == Swap(old(Items()), left, right)
    {
      heap[left], heap[right] := heap[right], heap[left];
      assert Items() == Swap(old(Items()), left, right);
    }

    method SiftUpSlot(index: nat)
      requires Filled() && index < size
      modifies heap
      ensures Filled() && Items() == SiftUp(old(Items()), index, Leq)
      decreases index
    {
      if index > 0 {
        var parent := (index - 1) / 2;
        if Precedes(heap[parent].value, heap[index].value) {
          SwapSlots(parent, index);
          SiftUpSlot(parent);
        }
      }
    }

    method SiftDownSlot(index: nat)
      requires Filled() && index < size
      modifies heap
      ensures Filled() && Items() == SiftDown(old(Items()), index, Leq)
      decreases size - index
    {
      var left := 2 * index + 1;
      if left < size {
        var right := left + 1;
        var largest := if right < size && Precedes(heap[left].value, heap[right].value) then right else left;
        if Precedes(heap[index].value, heap[largest].value) {
          SwapSlots(index, largest);
          SiftDownSlot(largest);
        }
      }
    }

    method AppendSlot(d: Diagnostic)
      requires Filled() && size < heap.Length
      modifies this`size, heap
      ensures Filled() && Items() == old(Items()) + [d]
    {
      heap[size] := Some(d);
      size := size + 1;
      assert Items() == old(Items()) + [d];
    }

    method Push(d: Diagnostic)
      requires Valid() && !exceeded && size < heap.Length
      modifies this`size, this`added, heap
      ensures Valid() && added == old(added) + [d] && size == old(size) + 1
    {
      CompareIsTotal();
      ghost var items := Items();
      AppendSlot(d);
      AppendLeavesHole(items, d, Leq);
      SiftUpSlot(size - 1);
      SiftUpRestores(items + [d], |items|, Leq);
      added := added + [d];
      assert |multiset(Items())| == |multiset(added)|;
    }

    /** The greatest item of a heap may join the dropped ones. */
    lemma RootMayGo(items: seq<Diagnostic>, rest: seq<Diagnostic>, gone: seq<Diagnostic>)
      requires TotalOrder(Leq) && IsHeap(items, Leq) && |items| > 0 && Below(items, gone, Leq)
      requires multiset(items) == multiset(rest) + multiset{items[0]}
      ensures Below(rest, gone + [items[0]], Leq)
    {
      forall i, j | 0 <= i < |rest| && 0 <= j < |gone| + 1
        ensures Leq(rest[i], (gone + [items[0]])[j])
      {
        assert rest[i] in multiset(items);
        var k :| 0 <= k < |items| && items[k] == rest[i];
        RootIsGreatest(items, k, Leq);
      }
    }

    /** The last item of a heap takes the place of the root. */
    static ghost function LastToRoot(items: seq<Diagnostic>): seq<Diagnostic>
      requires |items| > 0
    {
      var n := |items| - 1;
      if n > 0 then items[..n][0 := items[n]] else []
    }

    method MoveLastToRoot()
      requires Filled() && size > 0
      modifies this`size, heap
      ensures Filled() && size == old(size) - 1 && Items() == LastToRoot(old(Items()))
    {
      size := size - 1;
      heap[0] := heap[size];
      heap[size] := None;
      assert Items() == LastToRoot(old(Items()));
    }

    method RestoreRoot(ghost items: seq<Diagnostic>)
      requires Filled() && TotalOrder(Leq) && IsHeap(items, Leq) && size <= |items|
      requires size > 0 ==> Items() == items[..size][0 := Items()[0]]
      modifies heap
      ensures Filled() && IsHeap(Items(), Leq) && multiset(Items()) == multiset(old(Items()))
    {
      if size > 0 {
        ghost var moved := Items();
        RootLeavesHole(items, size, moved[0], Leq);
        SiftDownSlot(0);
        SiftDownRestores(moved, 0, Leq);
      }
    }

    method RemoveMax()
      requires KeepsSmallest() && size > 0
      modifies this`size, this`dropped, heap
      ensures KeepsSmallest() && size == old(size) - 1
    {
      CompareIsTotal();
      ghost var items := Items();
      MoveLastToRoot();
      LastReplacesRoot(items);
      RestoreRoot(items);
      RootMayGo(items, Items(), dropped);
      dropped := dropped + [items[0]];
    }

    static lemma LastReplacesRoot(items: seq<Diagnostic>)
      requires |items| > 0
      ensures multiset(items) == multiset(LastToRoot(items)) + multiset{items[0]}
    {
      var n := |items| - 1;
      assert items == items[..n] + [items[n]];
      assert multiset(items) == multiset(items[..n]) + multiset{items[n]};
    }

    method Consider(d: Diagnostic)
      requires KeepsSmallest() && size > 0
      modifies this`added, this`dropped, heap
      ensures KeepsSmallest() && added == old(added) + [d]
    {
      if Precedes(d, heap[0].value) {
        Displace(d);
      } else {
        PassOver(d);
      }
    }

    method Displace(d: Diagnostic)
      requires KeepsSmallest() && size > 0 && Precedes(d, Items()[0])
      modifies this`added, this`dropped, heap
      ensures KeepsSmallest() && added == old(added) + [d] && dropped == old(dropped) + [old(Items())[0]]
    {
      CompareIsTotal();
      ghost var items := Items();
      PrecedesAsymmetric(d, items[0]);
      ReplaceRoot(d);
      RootReplaced(items, items[0 := d], d, dropped, Items());
      dropped := dropped + [items[0]];
      added := added + [d];
    }

    ghost method PassOver(d: Diagnostic)
      requires KeepsSmallest() && size > 0 && !Precedes(d, Items()[0])
      modifies this`added, this`dropped
      ensures KeepsSmallest() && added == old(added) + [d] && dropped == old(dropped) + [d]
    {
      CompareIsTotal();
      RootBounds(Items(), dropped, d);
      dropped := dropped + [d];
      added := added + [d];
    }

    method ReplaceRoot(d: Diagnostic)
      requires Filled() && TotalOrder(Leq) && IsHeap(Items(), Leq) && size > 0
      modifies heap
      ensures Filled() && IsHeap(Items(), Leq) && multiset(Items()) == multiset(old(Items())[0 := d])
    {
      ghost var items := Items();
      heap[0] := Some(d);
      assert Items() == items[0 := d] && items[..size] == items;
      RestoreRoot(items);
    }

    lemma RootReplaced(items: seq<Diagnostic>, moved: seq<Diagnostic>, d: Diagnostic,
                       gone: seq<Diagnostic>, sifted: seq<Diagnostic>)
      requires TotalOrder(Leq) && IsHeap(items, Leq) && |items| > 0 && Below(items, gone, Leq)
      requires moved == items[0 := d] && multiset(sifted) == multiset(moved) && Leq(d, items[0])
      ensures multiset(items) + multiset{d} == multiset(sifted) + multiset{items[0]}
      ensures Below(sifted, gone + [items[0]], Leq)
    {
      forall i, j | 0 <= i < |sifted| && 0 <= j < |gone| + 1
        ensures Leq(sifted[i], (gone + [items[0]])[j])
      {
        assert sifted[i] in multiset(moved);
        var k :| 0 <= k < |moved| && moved[k] == sifted[i];
        RootIsGreatest(items, k, Leq);
        if j < |gone| { assert Leq(items[0], gone[j]) && Law(Leq, d, items[0], gone[j]); }
        if k > 0 && j < |gone| { assert Leq(items[k], gone[j]); }
      }
    }

    lemma RootBounds(items: seq<Diagnostic>, gone: seq<Diagnostic>, d: Diagnostic)
      requires TotalOrder(Leq) && IsHeap(items, Leq) && |items| > 0 && Below(items, gone, Leq)
      requires Leq(items[0], d)
      ensures Below(items, gone + [d], Leq)
    {
      forall i, j | 0 <= i < |items| && 0 <= j < |gone| + 1
        ensures Leq(items[i], (gone + [d])[j])
      {
        RootIsGreatest(items, i, Leq);
        assert Law(Leq, items[i], items[0], d);
      }
    }

    method Add(d: Diagnostic)
      requires Valid()
      modifies this, heap
      ensures Valid() && heap == old(heap) && added == old(added) + [d]
      ensures exceeded == (|added| > heap.Length)
    {
      if !exceeded && size < heap.Length {
        Push(d);
      } else {
        if !exceeded {
          exceeded := true;
          RemoveMax();
        }
        Consider(d);
      }
      assert |multiset(added)| == |added| && |multiset(Items())| == size;
    }

    method Diagnostics() returns (r: seq<Diagnostic>)
      requires Valid()
      ensures r == Report(added, heap.Length, Limits())
    {
      CompareIsTotal();
      var retained: seq<Diagnostic> := [];
      for i := 0 to size
        invariant retained == Items()[..i]
      {
        retained := retained + [heap[i].value];
      }
      assert retained == Items() && |multiset(added)| == size + |dropped|;
      LowerPartIsPrefix(added, retained, dropped, Leq);
      if exceeded {
        SortSorts(retained, Leq);
        assert multiset([MARKER] + retained) == multiset(Sort(retained, Leq) + [MARKER]);
        SortIsCanonical([MARKER] + retained, Sort(retained, Leq) + [MARKER], Leq);
        retained := [MARKER] + retained;
      }
      r := Sort(retained, Leq);
    }
  }

  /**
   `validate_unlocked` with the repository's limit: a late TODO diagnostic merged into the
   finished result gives what streaming it through the collector would have given, exactly
   when the limit is not reached or none of the smallest carries the marker's code.
   */
  lemma LateTodoAgreesExactly(xs: seq<Diagnostic>, todo: Diagnostic)
    ensures MergeLate(todo, Report(xs, MAX_DIAGNOSTICS, Limits()), MAX_DIAGNOSTICS, Limits())
            == Report(xs + [todo], MAX_DIAGNOSTICS, Limits())
       <==> |xs| < MAX_DIAGNOSTICS
            || Uncoded(Sort(xs + [todo], Leq)[..MAX_DIAGNOSTICS - 1], Limits().coded)
  {
    CompareIsTotal();
    LateMergeAgreesExactly(xs, todo, MAX_DIAGNOSTICS, Limits());
  }

  const MAX_DIAGNOSTICS := 1_000
}
