/** A growable double-ended queue kept in a circular array.

    The state is the backing array, in which an empty slot is `None` (a Java
    `null`), and the two indices `first` and `last` of the front and back
    elements; `-1` in both indices means "no elements".  `Contents` maps a
    valid state to the sequence of elements it represents, and every operation
    is stated against that sequence. */
module ArrayDeque {
  import opened Outcomes

  const DefaultCapacity: int := 10

  datatype Deque<E> = Deque(elements: seq<Option<E>>, first: int, last: int)

  /** Both indices hold the sentinel `-1`. */
  predicate Sentinel<E>(d: Deque<E>) {
    d.first == -1 && d.last == -1
  }

  /** size(): the three-case formula of the Java code, defined for every state,
      consistent or not. */
  function Size<E>(d: Deque<E>): int {
    if Sentinel(d) then 0
    else if d.first <= d.last then d.last - d.first + 1
    else (d.last + 1) + (|d.elements| - d.first)
  }

  function IsFull<E>(d: Deque<E>): (full: bool)
    ensures Valid(d) ==> (full <==> forall k :: 0 <= k < |d.elements| ==> d.elements[k].Some?)
  {
    OccupancyOfValid(d);
    Size(d) == |d.elements|
  }

  function IsEmpty<E>(d: Deque<E>): (empty: bool)
    ensures Valid(d) ==> (empty <==> Contents(d) == [])
    ensures Valid(d) ==> (empty <==> forall k :: 0 <= k < |d.elements| ==> d.elements[k] == None)
  {
    OccupancyOfValid(d);
    Size(d) == 0
  }

  /** Physical slot `k` lies inside the live window `first .. last`, which
      wraps past the end of the array when `first > last`. */
  predicate InWindow<E>(d: Deque<E>, k: int) {
    && !Sentinel(d)
    && if d.first <= d.last then d.first <= k <= d.last else d.first <= k || k <= d.last
  }

  /** The representation invariant: the indices are both the sentinel or both
      valid positions, and a slot is occupied exactly when it lies in the
      window (vacated slots are cleared). */
  predicate Valid<E>(d: Deque<E>) {
    && (Sentinel(d) || (0 <= d.first < |d.elements| && 0 <= d.last < |d.elements|))
    && forall k :: 0 <= k < |d.elements| ==> (d.elements[k].Some? <==> InWindow(d, k))
  }

  /** Physical slot of the `i`-th logical element, with the wraparound written out. */
  function Slot<E>(d: Deque<E>, i: int): int {
    if d.first + i < |d.elements| then d.first + i else d.first + i - |d.elements|
  }

  lemma SlotInWindow<E>(d: Deque<E>, i: int)
    requires Valid(d) && 0 <= i < Size(d)
    ensures 0 <= Slot(d, i) < |d.elements| && InWindow(d, Slot(d, i))
    ensures d.elements[Slot(d, i)].Some?
  {
  }

  /** The abstraction function: the elements front to back. */
  function Contents<E>(d: Deque<E>): (s: seq<E>)
    requires Valid(d)
    ensures |s| == Size(d)
  {
    seq(Size(d), i requires 0 <= i < Size(d) => SlotInWindow(d, i); d.elements[Slot(d, i)].value)
  }

  /** Number of occupied slots. */
  function LiveCount<E>(s: seq<Option<E>>): nat {
    if s == [] then 0 else (if s[0].Some? then 1 else 0) + LiveCount(s[1..])
  }

  lemma {:induction false} LiveCountAppend<E>(a: seq<Option<E>>, b: seq<Option<E>>)
    ensures LiveCount(a + b) == LiveCount(a) + LiveCount(b)
  {
    if a != [] {
      assert (a + b)[0] == a[0];
      assert (a + b)[1..] == a[1..] + b;
      LiveCountAppend(a[1..], b);
    } else {
      assert a + b == b;
    }
  }

  lemma {:induction false} LiveCountUniform<E>(s: seq<Option<E>>)
    ensures (forall k :: 0 <= k < |s| ==> s[k].Some?) ==> LiveCount(s) == |s|
    ensures (forall k :: 0 <= k < |s| ==> s[k] == None) ==> LiveCount(s) == 0
  {
    if s != [] {
      LiveCountUniform(s[1..]);
    }
  }

  lemma {:induction false} LiveCountExtremes<E>(s: seq<Option<E>>)
    ensures LiveCount(s) <= |s|
    ensures LiveCount(s) == |s| <==> forall k :: 0 <= k < |s| ==> s[k].Some?
    ensures LiveCount(s) == 0 <==> forall k :: 0 <= k < |s| ==> s[k] == None
  {
    if s != [] {
      LiveCountExtremes(s[1..]);
      assert forall k :: 1 <= k < |s| ==> s[k] == s[1..][k - 1];
    }
  }

  lemma LiveCountThreeParts<E>(e: seq<Option<E>>, i: int, j: int)
    requires 0 <= i <= j <= |e|
    ensures LiveCount(e) == LiveCount(e[..i]) + LiveCount(e[i..j]) + LiveCount(e[j..])
  {
    assert e == e[..i] + e[i..j] + e[j..];
    LiveCountAppend(e[..i] + e[i..j], e[j..]);
    LiveCountAppend(e[..i], e[i..j]);
  }

  lemma LiveCountRange<E>(e: seq<Option<E>>, i: int, j: int, occupied: bool)
    requires 0 <= i <= j <= |e|
    requires forall k :: i <= k < j ==> e[k].Some? == occupied
    ensures LiveCount(e[i..j]) == if occupied then j - i else 0
  {
    var part := e[i..j];
    assert forall k :: 0 <= k < |part| ==> part[k] == e[i + k];
    LiveCountUniform(part);
  }

  /** size() counts exactly the occupied slots; hence 0 <= size() <= length. */
  lemma SizeIsOccupiedSlotCount<E>(d: Deque<E>)
    requires Valid(d)
    ensures Size(d) == LiveCount(d.elements)
    ensures 0 <= Size(d) <= |d.elements|
  {
    if Sentinel(d) {
      LiveCountRange(d.elements, 0, |d.elements|, false);
      assert d.elements[0..|d.elements|] == d.elements;
    } else if d.first <= d.last {
      UnwrappedOccupancy(d);
    } else {
      WrappedOccupancy(d);
    }
  }

  lemma UnwrappedOccupancy<E>(d: Deque<E>)
    requires Valid(d) && !Sentinel(d) && d.first <= d.last
    ensures Size(d) == LiveCount(d.elements)
  {
    var e := d.elements;
    LiveCountThreeParts(e, d.first, d.last + 1);
    LiveCountRange(e, 0, d.first, false);
    LiveCountRange(e, d.first, d.last + 1, true);
    LiveCountRange(e, d.last + 1, |e|, false);
    assert e[..d.first] == e[0..d.first];
    assert e[d.last + 1..] == e[d.last + 1..|e|];
  }

  lemma WrappedOccupancy<E>(d: Deque<E>)
    requires Valid(d) && !Sentinel(d) && d.first > d.last
    ensures Size(d) == LiveCount(d.elements)
  {
    var e := d.elements;
    LiveCountThreeParts(e, d.last + 1, d.first);
    LiveCountRange(e, 0, d.last + 1, true);
    LiveCountRange(e, d.last + 1, d.first, false);
    LiveCountRange(e, d.first, |e|, true);
    assert e[..d.last + 1] == e[0..d.last + 1];
    assert e[d.first..] == e[d.first..|e|];
  }

  lemma OccupancyOfValid<E>(d: Deque<E>)
    ensures Valid(d) ==> Size(d) == LiveCount(d.elements) <= |d.elements|
    ensures Valid(d) ==> (Size(d) == |d.elements| <==> forall k :: 0 <= k < |d.elements| ==> d.elements[k].Some?)
    ensures Valid(d) ==> (Size(d) == 0 <==> forall k :: 0 <= k < |d.elements| ==> d.elements[k] == None)
  {
    if Valid(d) {
      SizeIsOccupiedSlotCount(d);
      LiveCountExtremes(d.elements);
    }
  }

  lemma ModOnce(a: int, n: int)
    requires 0 < n && 0 <= a < 2 * n
    ensures a % n == if a < n then a else a - n
  {
    if a < n {
      assert a == 0 * n + a;
    } else {
      assert a == 1 * n + (a - n);
    }
  }

  /** new ArrayDeque(initialCapacity): a negative capacity is rejected;
      otherwise an all-null array and both indices at the sentinel. */
  function New<E>(initialCapacity: int): (r: Result<Deque<E>>)
    ensures r.Err? <==> initialCapacity < 0
    ensures r.Err? ==> r.error == IllegalArgument
    ensures r.Ok? ==> && Valid(r.value) && Contents(r.value) == []
                      && |r.value.elements| == initialCapacity
                      && r.value.first == -1 && r.value.last == -1
  {
    if initialCapacity < 0 then Err(IllegalArgument)
    else Ok(Deque(seq(initialCapacity, _ => None), -1, -1))
  }

  /** new ArrayDeque(): capacity DefaultCapacity. */
  function NewDefault<E>(): (d: Deque<E>)
    ensures Valid(d) && Contents(d) == [] && |d.elements| == DefaultCapacity
  {
    New(DefaultCapacity).value
  }

  /** The copy loop of ensureCapacity: the ring, read from `first` with
      wraparound, laid out from index 0 of a fresh array of `desired` slots. */
  function Linearise<E>(d: Deque<E>, desired: int): (s: seq<Option<E>>)
    requires Valid(d) && |d.elements| < desired
    ensures |s| == desired
    ensures forall i :: 0 <= i < desired ==>
              s[i] == if i < |Contents(d)| then Some(Contents(d)[i]) else None
  {
    SizeIsOccupiedSlotCount(d);
    var s := seq(desired, i requires 0 <= i < desired =>
                   if i < Size(d) then d.elements[(d.first + i) % |d.elements|] else None);
    forall i | 0 <= i < Size(d)
      ensures s[i] == Some(Contents(d)[i])
    {
      ModOnce(d.first + i, |d.elements|);
      SlotInWindow(d, i);
    }
    s
  }

  /** ensureCapacity(desired), with the index reset corrected: the size is taken
      before the array is replaced, and an empty deque stays at the sentinel. */
  function EnsureCapacity<E>(d: Deque<E>, desired: int): (r: Deque<E>)
    requires Valid(d)
    ensures Valid(r) && Contents(r) == Contents(d)
    ensures |r.elements| == if |d.elements| < desired then desired else |d.elements|
    ensures desired <= |d.elements| ==> r == d
    ensures |d.elements| < desired && Contents(d) != [] ==> r.first == 0
  {
    if |d.elements| < desired then
      var n := Size(d);
      var r := Deque(Linearise(d, desired), if n == 0 then -1 else 0, n - 1);
      assert Valid(r) by {
        forall k | 0 <= k < desired
          ensures r.elements[k].Some? <==> InWindow(r, k)
        {
        }
      }
      assert Contents(r) == Contents(d) by {
        forall i | 0 <= i < n
          ensures Contents(r)[i] == Contents(d)[i]
        {
          assert Slot(r, i) == i;
        }
      }
      r
    else d
  }

  /** The index shapes the insertion step can meet: the consistent ones and the
      inconsistent ones the as-written growth leaves behind. */
  predicate Shape<E>(d: Deque<E>) {
    && 0 < |d.elements|
    && (Sentinel(d) || (0 <= d.first < |d.elements| && -1 <= d.last < |d.elements|))
  }

  /** Lines after the growth check of addFirst: store at slot 0 of an empty
      deque, or step `first` back with explicit wraparound from -1. */
  function PlaceFirst<E>(d: Deque<E>, x: E): Deque<E>
    requires Shape(d)
  {
    if Size(d) == 0 then
      Deque(d.elements[0 := Some(x)], 0, 0)
    else
      var f := if d.first - 1 == -1 then |d.elements| - 1 else d.first - 1;
      Deque(d.elements[f := Some(x)], f, d.last)
  }

  /** Lines after the growth check of addLast.  An empty deque goes through
      addFirst, whose own growth check cannot fire there (an empty deque with
      a non-empty array is not full), so it is the insertion step of addFirst. */
  function PlaceLast<E>(d: Deque<E>, x: E): Deque<E>
    requires Shape(d)
  {
    if Size(d) == 0 then
      PlaceFirst(d, x)
    else
      var l := (d.last + 1) % |d.elements|;
      Deque(d.elements[l := Some(x)], d.first, l)
  }

  lemma PlaceFirstCorrect<E>(d: Deque<E>, x: E)
    requires Valid(d) && Size(d) < |d.elements|
    ensures Shape(d)
    ensures Valid(PlaceFirst(d, x)) && Contents(PlaceFirst(d, x)) == [x] + Contents(d)
    ensures Size(d) == 0 ==> PlaceFirst(d, x).first == 0 && PlaceFirst(d, x).last == 0
    ensures Size(d) > 0 ==> && PlaceFirst(d, x).last == d.last
                            && PlaceFirst(d, x).first == (d.first - 1 + |d.elements|) % |d.elements|
  {
    var r := PlaceFirst(d, x);
    if Size(d) > 0 {
      ModOnce(d.first - 1 + |d.elements|, |d.elements|);
    }
    if Size(d) == 0 {
      assert Valid(r) by {
        forall k | 0 <= k < |r.elements|
          ensures r.elements[k].Some? <==> InWindow(r, k)
        {
        }
      }
      assert Contents(r) == [x];
    } else {
      assert Size(r) == Size(d) + 1;
      assert Valid(r) by {
        forall k | 0 <= k < |r.elements|
          ensures r.elements[k].Some? <==> InWindow(r, k)
        {
        }
      }
      assert Contents(r) == [x] + Contents(d) by {
        forall i | 0 <= i < Size(d)
          ensures Contents(r)[i + 1] == Contents(d)[i]
        {
          assert Slot(r, i + 1) == Slot(d, i);
        }
      }
    }
  }

  lemma PlaceLastCorrect<E>(d: Deque<E>, x: E)
    requires Valid(d) && Size(d) < |d.elements|
    ensures Shape(d)
    ensures Valid(PlaceLast(d, x)) && Contents(PlaceLast(d, x)) == Contents(d) + [x]
    ensures Size(d) == 0 ==> PlaceLast(d, x).first == 0 && PlaceLast(d, x).last == 0
    ensures Size(d) > 0 ==> && PlaceLast(d, x).first == d.first
                            && PlaceLast(d, x).last == (d.last + 1) % |d.elements|
  {
    if Size(d) == 0 {
      PlaceFirstCorrect(d, x);
    } else {
      var r := PlaceLast(d, x);
      ModOnce(d.last + 1, |d.elements|);
      assert Size(r) == Size(d) + 1;
      assert Valid(r) by {
        forall k | 0 <= k < |r.elements|
          ensures r.elements[k].Some? <==> InWindow(r, k)
        {
        }
      }
      assert Contents(r) == Contents(d) + [x] by {
        forall i | 0 <= i < Size(d)
          ensures Contents(r)[i] == Contents(d)[i]
        {
          assert Slot(r, i) == Slot(d, i);
        }
        assert Slot(r, Size(d)) == r.last;
      }
    }
  }

  /** Growth step shared by addFirst and addLast: a full deque is grown to
      2 * length + 1 slots, which makes progress even from length 0. */
  function Grown<E>(d: Deque<E>): (g: Deque<E>)
    requires Valid(d)
    ensures Valid(g) && Contents(g) == Contents(d) && Size(g) < |g.elements|
    ensures |g.elements| > |d.elements| <==> |Contents(d)| == |d.elements|
    ensures |Contents(d)| == |d.elements| ==> |g.elements| == 2 * |d.elements| + 1
    ensures |Contents(d)| == |d.elements| && Contents(d) != [] ==> g.first == 0
  {
    SizeIsOccupiedSlotCount(d);
    if IsFull(d) then EnsureCapacity(d, 2 * |d.elements| + 1) else d
  }

  /** addFirst(x). */
  function AddFirst<E>(d: Deque<E>, x: E): (r: Deque<E>)
    requires Valid(d)
    ensures Valid(r) && Contents(r) == [x] + Contents(d)
    ensures |r.elements| >= |d.elements|
    ensures |r.elements| > |d.elements| <==> |Contents(d)| == |d.elements|
    ensures |Contents(d)| == |d.elements| ==> |r.elements| == 2 * |d.elements| + 1
    ensures Contents(d) == [] ==> r.first == 0 && r.last == 0
    ensures 0 < |Contents(d)| < |d.elements| ==>
              r.last == d.last && r.first == (d.first - 1 + |d.elements|) % |d.elements|
  {
    var g := Grown(d);
    PlaceFirstCorrect(g, x);
    PlaceFirst(g, x)
  }

  /** addLast(x). */
  function AddLast<E>(d: Deque<E>, x: E): (r: Deque<E>)
    requires Valid(d)
    ensures Valid(r) && Contents(r) == Contents(d) + [x]
    ensures |r.elements| >= |d.elements|
    ensures |r.elements| > |d.elements| <==> |Contents(d)| == |d.elements|
    ensures |Contents(d)| == |d.elements| ==> |r.elements| == 2 * |d.elements| + 1
    ensures |Contents(d)| == |d.elements| && Contents(d) != [] ==> r.first == 0
    ensures Contents(d) == [] ==> r.first == 0 && r.last == 0
    ensures 0 < |Contents(d)| < |d.elements| ==>
              r.first == d.first && r.last == (d.last + 1) % |d.elements|
  {
    var g := Grown(d);
    PlaceLastCorrect(g, x);
    PlaceLast(g, x)
  }

  /** getFirst(). */
  function GetFirst<E>(d: Deque<E>): (r: Result<E>)
    requires Valid(d)
    ensures r.Err? <==> Contents(d) == []
    ensures r.Err? ==> r.error == NoSuchElement
    ensures r.Ok? ==> r.value == Contents(d)[0]
  {
    if IsEmpty(d) then Err(NoSuchElement)
    else
      SlotInWindow(d, 0);
      Ok(d.elements[d.first].value)
  }

  /** getLast(). */
  function GetLast<E>(d: Deque<E>): (r: Result<E>)
    requires Valid(d)
    ensures r.Err? <==> Contents(d) == []
    ensures r.Err? ==> r.error == NoSuchElement
    ensures r.Ok? ==> r.value == Contents(d)[|Contents(d)| - 1]
  {
    if IsEmpty(d) then Err(NoSuchElement)
    else
      SlotInWindow(d, Size(d) - 1);
      Ok(d.elements[d.last].value)
  }

  /** removeFirst(): returns the front element, clears its slot, and either
      advances `first` or, for the sole element, resets both indices. */
  function RemoveFirst<E>(d: Deque<E>): (r: Result<(E, Deque<E>)>)
    requires Valid(d)
    ensures r.Err? <==> Contents(d) == []
    ensures r.Err? ==> r.error == NoSuchElement
    ensures r.Ok? ==> && r.value.0 == Contents(d)[0]
                      && Valid(r.value.1)
                      && Contents(r.value.1) == Contents(d)[1..]
                      && |r.value.1.elements| == |d.elements|
                      && r.value.1.elements[d.first] == None
    ensures r.Ok? && |Contents(d)| == 1 ==> Sentinel(r.value.1)
  {
    if IsEmpty(d) then Err(NoSuchElement)
    else
      SlotInWindow(d, 0);
      var v := d.elements[d.first].value;
      var e := d.elements[d.first := None];
      var d' := if d.first == d.last then Deque(e, -1, -1)
                else Deque(e, (d.first + 1) % |d.elements|, d.last);
      ModOnce(d.first + 1, |d.elements|);
      assert Valid(d') by {
        forall k | 0 <= k < |e|
          ensures e[k].Some? <==> InWindow(d', k)
        {
        }
      }
      assert Contents(d') == Contents(d)[1..] by {
        forall i | 0 <= i < Size(d')
          ensures Contents(d')[i] == Contents(d)[i + 1]
        {
          assert Slot(d', i) == Slot(d, i + 1);
        }
      }
      Ok((v, d'))
  }

  /** removeLast(): returns the back element, clears its slot, and either steps
      `last` back with explicit wraparound or resets both indices. */
  function RemoveLast<E>(d: Deque<E>): (r: Result<(E, Deque<E>)>)
    requires Valid(d)
    ensures r.Err? <==> Contents(d) == []
    ensures r.Err? ==> r.error == NoSuchElement
    ensures r.Ok? ==> && r.value.0 == Contents(d)[|Contents(d)| - 1]
                      && Valid(r.value.1)
                      && Contents(r.value.1) == Contents(d)[..|Contents(d)| - 1]
                      && |r.value.1.elements| == |d.elements|
                      && r.value.1.elements[d.last] == None
    ensures r.Ok? && |Contents(d)| == 1 ==> Sentinel(r.value.1)
  {
    if IsEmpty(d) then Err(NoSuchElement)
    else
      SlotInWindow(d, Size(d) - 1);
      var v := d.elements[d.last].value;
      var e := d.elements[d.last := None];
      var d' := if d.first == d.last then Deque(e, -1, -1)
                else Deque(e, d.first, if d.last - 1 == -1 then |e| - 1 else d.last - 1);
      assert Valid(d') by {
        forall k | 0 <= k < |e|
          ensures e[k].Some? <==> InWindow(d', k)
        {
        }
      }
      assert Contents(d') == Contents(d)[..Size(d) - 1] by {
        forall i | 0 <= i < Size(d')
          ensures Contents(d')[i] == Contents(d)[i]
        {
          assert Slot(d', i) == Slot(d, i);
        }
      }
      Ok((v, d'))
  }

  /** Removing the sole element leaves exactly the state of a freshly
      constructed deque of the same capacity, at either end. */
  lemma SoleRemovalRestoresFreshDeque<E>(d: Deque<E>)
    requires Valid(d) && |Contents(d)| == 1
    ensures RemoveFirst(d) == Ok((Contents(d)[0], New(|d.elements|).value))
    ensures RemoveLast(d) == Ok((Contents(d)[0], New(|d.elements|).value))
  {
    var blank: Deque<E> := New(|d.elements|).value;
    var a := RemoveFirst(d).value.1;
    var b := RemoveLast(d).value.1;
    assert a.elements == blank.elements by {
      assert forall k :: 0 <= k < |a.elements| ==> a.elements[k] == None;
    }
    assert b.elements == blank.elements by {
      assert forall k :: 0 <= k < |b.elements| ==> b.elements[k] == None;
    }
  }

  /** toString(): the loop appends elements[(first + i) % length] for
      i in 0 .. size(); that order is the contents. */
  method RenderOrder<E>(d: Deque<E>) returns (s: seq<E>)
    requires Valid(d)
    ensures s == Contents(d)
  {
    s := [];
    var i := 0;
    while i < Size(d)
      invariant 0 <= i <= Size(d)
      invariant s == Contents(d)[..i]
    {
      ModOnce(d.first + i, |d.elements|);
      SlotInWindow(d, i);
      s := s + [d.elements[(d.first + i) % |d.elements|].value];
      i := i + 1;
    }
  }

  /** State of the deque's iterator: the next physical index and the number of
      elements already returned. */
  datatype Cursor = Cursor(index: int, counter: int)

  function Iterator<E>(d: Deque<E>): Cursor {
    Cursor(d.first, 0)
  }

  function HasNext<E>(d: Deque<E>, c: Cursor): bool {
    c.counter < Size(d)
  }

  /** The cursor has returned `counter` elements and its index is the slot of
      the next one. */
  predicate CursorAt<E>(d: Deque<E>, c: Cursor) {
    && Valid(d)
    && 0 <= c.counter <= Size(d)
    && (c.counter < Size(d) ==> c.index == Slot(d, c.counter))
  }

  /** next(): throws NoSuchElementException past the end; otherwise returns
      the element at `index` and advances it modulo the length. */
  function Next<E>(d: Deque<E>, c: Cursor): (r: Result<(E, Cursor)>)
    requires CursorAt(d, c)
    ensures r.Err? <==> c.counter == |Contents(d)|
    ensures r.Err? ==> r.error == NoSuchElement
    ensures r.Ok? ==> && r.value.0 == Contents(d)[c.counter]
                      && r.value.1.counter == c.counter + 1
                      && CursorAt(d, r.value.1)
  {
    if !HasNext(d, c) then Err(NoSuchElement)
    else
      SlotInWindow(d, c.counter);
      ModOnce(c.index + 1, |d.elements|);
      var c' := Cursor((c.index + 1) % |d.elements|, c.counter + 1);
      assert c'.counter < Size(d) ==> c'.index == Slot(d, c'.counter);
      Ok((d.elements[c.index].value, c'))
  }

  /** Draining a fresh iterator yields the contents, front to back. */
  method Iterate<E>(d: Deque<E>) returns (s: seq<E>)
    requires Valid(d)
    ensures s == Contents(d)
  {
    var c := Iterator(d);
    s := [];
    while HasNext(d, c)
      invariant CursorAt(d, c)
      invariant s == Contents(d)[..c.counter]
      decreases Size(d) - c.counter
    {
      var r := Next(d, c);
      s := s + [r.value.0];
      c := r.value.1;
    }
  }
}
