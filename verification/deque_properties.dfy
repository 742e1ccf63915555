/** Whole-sequence properties of the deque: first-in first-out order through
    addLast/removeFirst, reversal through addFirst/removeFirst, and the
    wraparound scenario of a capacity-3 deque. */
module DequeProperties {
  import opened Outcomes
  import opened ArrayDeque

  /** The sequence reversed. */
  function Reversed<T>(s: seq<T>): (r: seq<T>)
    ensures |r| == |s|
    ensures forall i :: 0 <= i < |s| ==> r[i] == s[|s| - 1 - i]
  {
    if s == [] then [] else Reversed(s[1..]) + [s[0]]
  }

  /** addLast of every value in order. */
  function PushAllLast<E>(d: Deque<E>, vs: seq<E>): (r: Deque<E>)
    requires Valid(d)
    ensures Valid(r) && Contents(r) == Contents(d) + vs
    decreases |vs|
  {
    if vs == [] then d
    else
      var r := PushAllLast(AddLast(d, vs[0]), vs[1..]);
      assert Contents(d) + [vs[0]] + vs[1..] == Contents(d) + vs;
      r
  }

  /** addFirst of every value in order. */
  function PushAllFirst<E>(d: Deque<E>, vs: seq<E>): (r: Deque<E>)
    requires Valid(d)
    ensures Valid(r) && Contents(r) == Reversed(vs) + Contents(d)
    decreases |vs|
  {
    if vs == [] then d
    else
      var r := PushAllFirst(AddFirst(d, vs[0]), vs[1..]);
      ReversedThenPrefix(vs, Contents(d));
      r
  }

  /** Reversing a non-empty sequence puts its head after its reversed tail. */
  lemma ReversedThenPrefix<T>(vs: seq<T>, c: seq<T>)
    requires vs != []
    ensures Reversed(vs[1..]) + ([vs[0]] + c) == Reversed(vs) + c
  {
    calc {
      Reversed(vs) + c;
      (Reversed(vs[1..]) + [vs[0]]) + c;
      Reversed(vs[1..]) + ([vs[0]] + c);
    }
  }

  /** removeFirst until the deque reports it is empty; the values returned. */
  function PopAllFirst<E>(d: Deque<E>): (s: seq<E>)
    requires Valid(d)
    ensures s == Contents(d)
    decreases |Contents(d)|
  {
    match RemoveFirst(d)
    case Err(_) => []
    case Ok((v, rest)) => [v] + PopAllFirst(rest)
  }

  /** Values pushed with addLast come back out of removeFirst in push order,
      whatever the initial capacity and however often the deque grows. */
  lemma FifoRoundTrip<E>(capacity: nat, vs: seq<E>)
    ensures PopAllFirst(PushAllLast(New<E>(capacity).value, vs)) == vs
  {
  }

  /** Values pushed with addFirst come back out of removeFirst reversed. */
  lemma LifoReversal<E>(capacity: nat, vs: seq<E>)
    ensures PopAllFirst(PushAllFirst(New<E>(capacity).value, vs)) == Reversed(vs)
  {
  }

  /** Capacity 3: addLast 1, 2, 3; removeFirst returns 1; addLast 4 wraps
      around to slot 0 and leaves [2, 3, 4] in a full, wrapped window. */
  lemma WraparoundScenario()
    ensures var d := AddLast(AddLast(AddLast(New<int>(3).value, 1), 2), 3);
            && RemoveFirst(d).Ok? && RemoveFirst(d).value.0 == 1
            && var e := AddLast(RemoveFirst(d).value.1, 4);
               && Contents(e) == [2, 3, 4]
               && e == Deque([Some(4), Some(2), Some(3)], 1, 0)
  {
    var d0 := New<int>(3).value;
    var d1 := AddLast(d0, 1);
    assert d1 == Deque([Some(1), None, None], 0, 0);
    var d2 := AddLast(d1, 2);
    assert d2 == Deque([Some(1), Some(2), None], 0, 1);
    var d3 := AddLast(d2, 3);
    assert d3 == Deque([Some(1), Some(2), Some(3)], 0, 2);
    var r := RemoveFirst(d3).value.1;
    assert r == Deque([None, Some(2), Some(3)], 1, 2);
    var e := AddLast(r, 4);
    assert e == Deque([Some(4), Some(2), Some(3)], 1, 0);
  }
}
