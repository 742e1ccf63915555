/** ensureCapacity exactly as the Java code writes it, and the two ways in
    which it departs from the corrected `ArrayDeque.EnsureCapacity`.

    The Java method replaces `elements` with the larger array and only then
    calls size(), so the wrapped branch of the formula reads the NEW length;
    and it sets `first = 0` even when the deque is empty, which size() reads
    as a full array rather than as the sentinel. */
module DequeGrowthAsWritten {
  import opened Outcomes
  import opened ArrayDeque
  import opened DequeProperties

  /** ensureCapacity(desired) as written: copy, replace the array, then re-read
      size() against the new array and reset the indices from it. */
  function EnsureCapacityAsWritten<E>(d: Deque<E>, desired: int): (r: Deque<E>)
    requires Valid(d)
    ensures desired <= |d.elements| ==> r == d
    ensures |d.elements| < desired ==>
              && Shape(r) && r.first == 0 && |r.elements| == desired
              && forall i :: 0 <= i < |Contents(d)| ==> r.elements[i] == Some(Contents(d)[i])
    ensures |d.elements| < desired && Contents(d) == [] ==> r.last == -1
    ensures |d.elements| < desired && Contents(d) != [] && d.first <= d.last ==> r.last == Size(d) - 1
    ensures |d.elements| < desired && Contents(d) != [] && d.first > d.last ==>
              r.last == Size(d) - 1 + (desired - |d.elements|)
  {
    if |d.elements| < desired then
      var replaced := d.(elements := Linearise(d, desired));
      var currentSize := Size(replaced);
      Deque(replaced.elements, 0, currentSize - 1)
    else d
  }

  /** addFirst(x) over the as-written growth; it agrees with the corrected
      operation whenever no growth is needed. */
  function AddFirstAsWritten<E>(d: Deque<E>, x: E): (r: Deque<E>)
    requires Valid(d)
    ensures |Contents(d)| < |d.elements| ==> r == AddFirst(d, x)
  {
    var g := if IsFull(d) then EnsureCapacityAsWritten(d, 2 * |d.elements| + 1) else d;
    PlaceFirst(g, x)
  }

  /** addLast(x) over the as-written growth; it agrees with the corrected
      operation whenever no growth is needed. */
  function AddLastAsWritten<E>(d: Deque<E>, x: E): (r: Deque<E>)
    requires Valid(d)
    ensures |Contents(d)| < |d.elements| ==> r == AddLast(d, x)
  {
    var g := if IsFull(d) then EnsureCapacityAsWritten(d, 2 * |d.elements| + 1) else d;
    PlaceLast(g, x)
  }

  /** addFirst as written yields the corrected state exactly when the deque
      is not full, or is full, non-empty and unwrapped.  A full empty deque
      (capacity 0) and a full wrapped deque both go wrong. */
  lemma AddFirstAsWrittenCorrectExactly<E>(d: Deque<E>, x: E)
    requires Valid(d)
    ensures AddFirstAsWritten(d, x) == AddFirst(d, x)
            <==> !(|Contents(d)| == |d.elements| && (Contents(d) == [] || d.first > d.last))
  {
    var n := |d.elements|;
    if |Contents(d)| == n {
      var desired := 2 * n + 1;
      var w := EnsureCapacityAsWritten(d, desired);
      assert AddFirstAsWritten(d, x) == PlaceFirst(w, x);
      if Contents(d) == [] {
        assert d == Deque([], -1, -1);
        assert w == Deque([None], 0, -1);
        assert AddFirstAsWritten(d, x).last == -1;
        assert AddFirst(d, x).last == 0;
      } else if d.first > d.last {
        assert w.first == 0 && w.last == desired - 1;
        assert Size(w) == desired;
        var r := AddFirstAsWritten(d, x);
        assert r.first == desired - 1 && r.last == desired - 1;
        assert Size(r) == 1;
        assert Size(AddFirst(d, x)) == n + 1;
      } else {
        GrowthAsWrittenAgreesOnlyWhenUnwrapped(d, desired);
      }
    }
  }

  /** addLast as written yields the corrected state exactly unless the deque
      is full, non-empty and wrapped.  On a full empty deque (capacity 0) the
      invalid grown state happens to lead to the right result. */
  lemma AddLastAsWrittenCorrectExactly<E>(d: Deque<E>, x: E)
    requires Valid(d)
    ensures AddLastAsWritten(d, x) == AddLast(d, x)
            <==> !(|Contents(d)| == |d.elements| && Contents(d) != [] && d.first > d.last)
  {
    var n := |d.elements|;
    if |Contents(d)| == n {
      var desired := 2 * n + 1;
      var w := EnsureCapacityAsWritten(d, desired);
      assert AddLastAsWritten(d, x) == PlaceLast(w, x);
      if Contents(d) == [] {
        AddLastFromZeroCapacity(d, x);
      } else if d.first > d.last {
        AddLastWrappedDiverges(d, x);
      } else {
        GrowthAsWrittenAgreesOnlyWhenUnwrapped(d, desired);
      }
    }
  }

  lemma AddLastFromZeroCapacity<E>(d: Deque<E>, x: E)
    requires Valid(d) && |Contents(d)| == |d.elements| && Contents(d) == []
    ensures AddLastAsWritten(d, x) == AddLast(d, x)
  {
    assert d == Deque([], -1, -1);
    assert EnsureCapacityAsWritten(d, 1) == Deque([None], 0, -1);
    assert AddLastAsWritten(d, x) == Deque([Some(x)], 0, 0);
    assert EnsureCapacity(d, 1) == Deque([None], -1, -1);
    assert AddLast(d, x) == Deque([Some(x)], 0, 0);
  }

  lemma AddLastWrappedDiverges<E>(d: Deque<E>, x: E)
    requires Valid(d) && |Contents(d)| == |d.elements| && Contents(d) != [] && d.first > d.last
    ensures AddLastAsWritten(d, x) != AddLast(d, x)
    ensures Size(AddLastAsWritten(d, x)) == 1
  {
    var desired := 2 * |d.elements| + 1;
    var w := EnsureCapacityAsWritten(d, desired);
    assert w.first == 0 && w.last == desired - 1;
    assert Size(w) == desired;
    ModOnce(w.last + 1, desired);
    var r := AddLastAsWritten(d, x);
    assert r == Deque(w.elements[0 := Some(x)], 0, 0);
    assert Size(r) == 1;
    assert Size(AddLast(d, x)) == |d.elements| + 1;
  }

  /** Growth as written matches the corrected growth exactly when the deque is
      non-empty and its window does not wrap. */
  lemma GrowthAsWrittenAgreesOnlyWhenUnwrapped<E>(d: Deque<E>, desired: int)
    requires Valid(d) && |d.elements| < desired
    ensures EnsureCapacityAsWritten(d, desired) == EnsureCapacity(d, desired)
            <==> Contents(d) != [] && d.first <= d.last
  {
    var w := EnsureCapacityAsWritten(d, desired);
    var c := EnsureCapacity(d, desired);
    if Contents(d) == [] {
      assert c.first == -1 && w.first == 0;
    } else if d.first > d.last {
      assert w.last == (d.last + 1) + (desired - d.first) - 1;
      assert c.last == Size(d) - 1;
    } else {
      assert w.elements == c.elements;
    }
  }

  /** Growing an empty deque as written leaves `first = 0, last = -1`, which
      size() reads as `desired` elements although none was added. */
  lemma EmptyGrowthInventsElements<E>(d: Deque<E>, desired: int)
    requires Valid(d) && Contents(d) == [] && |d.elements| < desired
    ensures Size(EnsureCapacityAsWritten(d, desired)) == desired
    ensures !Valid(EnsureCapacityAsWritten(d, desired))
  {
    var w := EnsureCapacityAsWritten(d, desired);
    assert w.first == 0 && w.last == -1;
  }

  /** new ArrayDeque(0) followed by addFirst(x) as written: one element, but
      `last` stays at -1, so getLast would index the array at -1.  The
      corrected operation yields the contents [x]. */
  lemma ZeroCapacityAddFirstLeavesLastOutOfRange<E>(x: E)
    ensures var w := AddFirstAsWritten(New<E>(0).value, x);
            Size(w) == 1 && w.last == -1 && !Valid(w)
    ensures Contents(AddFirst(New<E>(0).value, x)) == [x]
  {
    var d: Deque<E> := New(0).value;
    var g := EnsureCapacityAsWritten(d, 1);
    assert g == Deque([None], 0, -1);
    assert PlaceFirst(g, x) == Deque([Some(x)], 0, -1);
  }

  /** The full, wrapped deque [2, 3, 4] (capacity 3, first = 1, last = 0) that
      the wraparound scenario of addLast 1, 2, 3, removeFirst, addLast 4 builds.
      addLast(5) as written overwrites slot 0 and ends with a single element,
      and addFirst(9) as written also ends with a single element; the
      corrected addLast yields [2, 3, 4, 5]. */
  lemma WrappedGrowthOverwritesFront()
    ensures var d := Deque([Some(4), Some(2), Some(3)], 1, 0);
            && Valid(d) && Contents(d) == [2, 3, 4]
            && Contents(AddLast(d, 5)) == [2, 3, 4, 5]
            && var w := AddLastAsWritten(d, 5);
               Size(w) == 1 && w.elements[0] == Some(5) && Some(2) !in w.elements
    ensures var v := AddFirstAsWritten(Deque([Some(4), Some(2), Some(3)], 1, 0), 9);
            Size(v) == 1 && v.elements[6] == Some(9)
  {
    var d := Deque([Some(4), Some(2), Some(3)], 1, 0);
    assert Valid(d);
    assert Contents(d) == [2, 3, 4] by {
      assert Contents(d)[0] == 2 && Contents(d)[1] == 3 && Contents(d)[2] == 4;
    }
    var g := EnsureCapacityAsWritten(d, 7);
    assert g.elements == [Some(2), Some(3), Some(4), None, None, None, None];
    assert g.first == 0 && g.last == 6;
    var w := AddLastAsWritten(d, 5);
    assert w == Deque([Some(5), Some(3), Some(4), None, None, None, None], 0, 0);
    assert AddFirstAsWritten(d, 9) == Deque([Some(2), Some(3), Some(4), None, None, None, Some(9)], 6, 6);
  }

  /** new ArrayDeque(2), then addFirst 1, 2, 3 as written.  The second call
      already wraps the window (first = 1, last = 0, full), so the third call
      grows through the defect and ends with a single element, where the
      corrected operations hold [3, 2, 1]. */
  lemma LifoAsWrittenLoses()
    ensures var d := AddFirstAsWritten(AddFirstAsWritten(AddFirstAsWritten(New<int>(2).value, 1), 2), 3);
            d.first == 4 && d.last == 4 && Size(d) == 1
    ensures Contents(PushAllFirst(New<int>(2).value, [1, 2, 3])) == [3, 2, 1]
  {
    var d0 := New<int>(2).value;
    var d1 := AddFirstAsWritten(d0, 1);
    assert d1 == Deque([Some(1), None], 0, 0);
    var d2 := AddFirstAsWritten(d1, 2);
    assert d2 == Deque([Some(1), Some(2)], 1, 0);
    assert EnsureCapacityAsWritten(d2, 5) == Deque([Some(2), Some(1), None, None, None], 0, 4);
    var d3 := AddFirstAsWritten(d2, 3);
    assert d3 == Deque([Some(2), Some(1), None, None, Some(3)], 4, 4);
    assert Reversed([1, 2, 3]) == [3, 2, 1];
  }

  /** addLast of every value in order over the as-written growth.  From an
      empty deque or one whose window starts at slot 0, addLast never wraps,
      so every step agrees with the corrected operation. */
  function PushAllLastAsWritten<E>(d: Deque<E>, vs: seq<E>): (r: Deque<E>)
    requires Valid(d) && (Sentinel(d) || d.first == 0)
    ensures r == PushAllLast(d, vs)
    decreases |vs|
  {
    if vs == [] then d
    else
      AddLastAsWrittenCorrectExactly(d, vs[0]);
      PushAllLastAsWritten(AddLastAsWritten(d, vs[0]), vs[1..])
  }

  /** First-in first-out order survives the as-written growth: values pushed
      with addLast on a fresh deque of any capacity come back in push order. */
  lemma FifoAsWrittenHolds<E>(capacity: nat, vs: seq<E>)
    ensures PopAllFirst(PushAllLastAsWritten(New<E>(capacity).value, vs)) == vs
  {
  }
}
