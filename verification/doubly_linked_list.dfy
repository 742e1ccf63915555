/** A doubly linked list with head and tail anchors and an incrementally
    maintained size.

    Nodes live in an arena addressed by position; a link is either `Null` or
    the address of a node.  A new node is appended to the arena, and a node
    unlinked from the chain stays in the arena, unreachable.  `LinkedAs(l, o)`
    says that the address sequence `o` is the chain: `head` is its first
    address, `tail` its last, each node's `next` is its successor and each
    node's `previous` its predecessor (both `Null` at the ends), and `size`
    is its length.  The chain is unique (`OrderUnique`), which defines
    `Order` and the abstraction function `Contents`. */
module DoublyLinkedList {
  import opened Outcomes

  datatype Link = Null | Ref(addr: nat)

  datatype Node<E> = Node(data: E, previous: Link, next: Link)

  datatype List<E> = List(arena: seq<Node<E>>, head: Link, tail: Link, size: int)

  /** The link to the `i`-th address of `o`, `Null` off either end. */
  function At(o: seq<nat>, i: int): Link {
    if 0 <= i < |o| then Ref(o[i]) else Null
  }

  /** The `i`-th node of the chain `o` links forward to the next address and
      back to the previous one (`Null` at the ends). */
  predicate Linked<E>(l: List<E>, o: seq<nat>, i: int) {
    && 0 <= i < |o| && o[i] < |l.arena|
    && l.arena[o[i]].next == At(o, i + 1)
    && l.arena[o[i]].previous == At(o, i - 1)
  }

  predicate LinkedAs<E>(l: List<E>, o: seq<nat>) {
    && l.size == |o|
    && (forall i :: 0 <= i < |o| ==> o[i] < |l.arena|)
    && (forall i, j :: 0 <= i < j < |o| ==> o[i] != o[j])
    && l.head == At(o, 0)
    && l.tail == At(o, |o| - 1)
    && (forall i :: 0 <= i < |o| ==> Linked(l, o, i))
  }

  /** The representation invariant: the nodes reachable from `head` form a
      symmetric chain of `size` nodes ending at `tail`. */
  ghost predicate Valid<E>(l: List<E>) {
    exists o :: LinkedAs(l, o)
  }

  ghost function Order<E>(l: List<E>): (o: seq<nat>)
    requires Valid(l)
    ensures LinkedAs(l, o)
  {
    var o :| LinkedAs(l, o); o
  }

  /** The values held by the nodes at addresses `o`, in that order. */
  function Data<E>(arena: seq<Node<E>>, o: seq<nat>): (s: seq<E>)
    requires forall i :: 0 <= i < |o| ==> o[i] < |arena|
    ensures |s| == |o|
  {
    seq(|o|, i requires 0 <= i < |o| => arena[o[i]].data)
  }

  /** The abstraction function: the elements from head to tail. */
  ghost function Contents<E>(l: List<E>): (s: seq<E>)
    requires Valid(l)
    ensures |s| == l.size
  {
    Data(l.arena, Order(l))
  }

  lemma {:induction false} SameAddress<E>(l: List<E>, o1: seq<nat>, o2: seq<nat>, k: int)
    requires LinkedAs(l, o1) && LinkedAs(l, o2) && 0 <= k < |o1|
    ensures o1[k] == o2[k]
    decreases k
  {
    if k > 0 {
      SameAddress(l, o1, o2, k - 1);
      assert Linked(l, o1, k - 1) && Linked(l, o2, k - 1);
    }
  }

  /** Walking `next` from `head` determines the chain: it is unique. */
  lemma OrderUnique<E>(l: List<E>, o1: seq<nat>, o2: seq<nat>)
    requires LinkedAs(l, o1) && LinkedAs(l, o2)
    ensures o1 == o2
  {
    forall k | 0 <= k < |o1|
      ensures o1[k] == o2[k]
    {
      SameAddress(l, o1, o2, k);
    }
  }

  lemma Represents<E>(l: List<E>, o: seq<nat>)
    requires LinkedAs(l, o)
    ensures Valid(l) && Order(l) == o && Contents(l) == Data(l.arena, o)
  {
    OrderUnique(l, Order(l), o);
  }

  /** The neighbours of the `i`-th node of a valid list are in the arena. */
  lemma Neighbours<E>(l: List<E>, o: seq<nat>, i: int)
    requires LinkedAs(l, o) && 0 <= i < |o|
    ensures o[i] < |l.arena|
    ensures l.arena[o[i]].next == At(o, i + 1) && l.arena[o[i]].previous == At(o, i - 1)
    ensures l.arena[o[i]].next.Ref? ==> l.arena[o[i]].next.addr < |l.arena|
    ensures l.arena[o[i]].previous.Ref? ==> l.arena[o[i]].previous.addr < |l.arena|
  {
    assert Linked(l, o, i);
  }

  /** new DoublyLinkedList(): no nodes, both anchors null, size 0. */
  function Empty<E>(): (l: List<E>)
    ensures Valid(l) && Contents(l) == []
  {
    var l := List([], Null, Null, 0);
    Represents(l, []);
    l
  }

  /** size(): the stored count is the number of elements. */
  function Size<E>(l: List<E>): (n: int)
    ensures Valid(l) ==> n == |Contents(l)|
  {
    l.size
  }

  /** isEmpty(). */
  function IsEmpty<E>(l: List<E>): (b: bool)
    ensures Valid(l) ==> (b <==> Contents(l) == [])
    ensures Valid(l) ==> (b <==> l.head == Null) && (b <==> l.tail == Null)
  {
    l.size == 0
  }

  /** addFirst(x): a new head node whose `next` is the old head; the old head
      points back at it, or, in an empty list, the new node is also the tail. */
  function AddFirst<E>(l: List<E>, x: E): (r: List<E>)
    requires Valid(l)
    ensures Valid(r) && Contents(r) == [x] + Contents(l)
    ensures r.head == Ref(|l.arena|) && |r.arena| == |l.arena| + 1
    ensures Contents(l) == [] ==> r.tail == r.head
  {
    var a := |l.arena|;
    var arena := l.arena + [Node(x, Null, l.head)];
    assert l.tail != Null ==> l.head.Ref? && l.head.addr < a by {
      var o := Order(l);
    }
    var r := if l.tail == Null then List(arena, Ref(a), Ref(a), l.size + 1)
             else List(arena[l.head.addr := arena[l.head.addr].(previous := Ref(a))], Ref(a), l.tail, l.size + 1);
    assert Valid(r) && Contents(r) == [x] + Contents(l) by {
      PrependLinked(l, Order(l), x, r);
      Represents(r, [a] + Order(l));
    }
    r
  }

  lemma PrependLinked<E>(l: List<E>, o: seq<nat>, x: E, r: List<E>)
    requires LinkedAs(l, o)
    requires |r.arena| == |l.arena| + 1 && r.arena[|l.arena|] == Node(x, Null, l.head)
    requires r.head == Ref(|l.arena|) && r.size == l.size + 1
    requires r.tail == if o == [] then r.head else l.tail
    requires forall j :: 0 <= j < |l.arena| ==>
               r.arena[j] == if o != [] && j == o[0] then l.arena[j].(previous := r.head) else l.arena[j]
    ensures LinkedAs(r, [|l.arena|] + o)
    ensures Data(r.arena, [|l.arena|] + o) == [x] + Data(l.arena, o)
  {
    var a := |l.arena|;
    var o' := [a] + o;
    forall i | 0 <= i < |o'|
      ensures Linked(r, o', i)
    {
      if i > 0 {
        assert Linked(l, o, i - 1);
        if i > 1 {
          assert o[i - 1] != o[0];
        }
      }
    }
  }

  /** addLast(x): an empty list goes through addFirst; otherwise a new tail
      node pointing back at the old tail, which points forward to it. */
  function AddLast<E>(l: List<E>, x: E): (r: List<E>)
    requires Valid(l)
    ensures Valid(r) && Contents(r) == Contents(l) + [x]
    ensures r.tail == Ref(|l.arena|) && |r.arena| == |l.arena| + 1
    ensures Contents(l) == [] ==> r.tail == r.head
  {
    if IsEmpty(l) then AddFirst(l, x)
    else
      var a := |l.arena|;
      assert l.tail.Ref? && l.tail.addr < a by {
        var o := Order(l);
      }
      var t := l.tail.addr;
      var arena := l.arena + [Node(x, l.tail, Null)];
      var r := List(arena[t := arena[t].(next := Ref(a))], l.head, Ref(a), l.size + 1);
      assert Valid(r) && Contents(r) == Contents(l) + [x] by {
        AppendLinked(l, Order(l), x, r);
        Represents(r, Order(l) + [a]);
      }
      r
  }

  lemma AppendLinked<E>(l: List<E>, o: seq<nat>, x: E, r: List<E>)
    requires LinkedAs(l, o) && o != []
    requires |r.arena| == |l.arena| + 1 && r.arena[|l.arena|] == Node(x, l.tail, Null)
    requires r.head == l.head && r.tail == Ref(|l.arena|) && r.size == l.size + 1
    requires forall j :: 0 <= j < |l.arena| ==>
               r.arena[j] == if j == o[|o| - 1] then l.arena[j].(next := r.tail) else l.arena[j]
    ensures LinkedAs(r, o + [|l.arena|])
    ensures Data(r.arena, o + [|l.arena|]) == Data(l.arena, o) + [x]
  {
    var a := |l.arena|;
    var o' := o + [a];
    forall i | 0 <= i < |o'|
      ensures Linked(r, o', i)
    {
      if i < |o| {
        assert Linked(l, o, i);
        if i < |o| - 1 {
          assert o[i] != o[|o| - 1];
        }
      }
    }
  }

  /** add(x): appends and reports true. */
  function Add<E>(l: List<E>, x: E): (r: (bool, List<E>))
    requires Valid(l)
    ensures r.0 && Valid(r.1) && Contents(r.1) == Contents(l) + [x]
  {
    (true, AddLast(l, x))
  }

  /** removeFirst(): the head's value; `head` moves to its successor, whose
      `previous` is cleared, or both anchors become null. */
  function RemoveFirst<E>(l: List<E>): (r: Result<(E, List<E>)>)
    requires Valid(l)
    ensures r.Err? <==> Contents(l) == []
    ensures r.Err? ==> r.error == NoSuchElement
    ensures r.Ok? ==> && r.value.0 == Contents(l)[0]
                      && Valid(r.value.1)
                      && Contents(r.value.1) == Contents(l)[1..]
    ensures r.Ok? && |Contents(l)| == 1 ==>
              r.value.1.head == Null && r.value.1.tail == Null && r.value.1.size == 0
  {
    if IsEmpty(l) then Err(NoSuchElement)
    else
      assert l.head.Ref? && l.head.addr < |l.arena| && l.arena[l.head.addr].data == Contents(l)[0]
             && (l.arena[l.head.addr].next.Ref? ==> l.arena[l.head.addr].next.addr < |l.arena|) by {
        Neighbours(l, Order(l), 0);
      }
      var h := l.head.addr;
      var data := l.arena[h].data;
      var newHead := l.arena[h].next;
      var rest := if newHead == Null then List(l.arena, Null, Null, l.size - 1)
                  else List(l.arena[newHead.addr := l.arena[newHead.addr].(previous := Null)],
                            newHead, l.tail, l.size - 1);
      assert Valid(rest) && Contents(rest) == Contents(l)[1..] by {
        Neighbours(l, Order(l), 0);
        DropFirstLinked(l, Order(l), rest);
        Represents(rest, Order(l)[1..]);
      }
      Ok((data, rest))
  }

  lemma DropFirstLinked<E>(l: List<E>, o: seq<nat>, r: List<E>)
    requires LinkedAs(l, o) && o != []
    requires r.size == l.size - 1 && |r.arena| == |l.arena|
    requires r.head == At(o, 1) && r.tail == (if |o| == 1 then Null else l.tail)
    requires forall j :: 0 <= j < |l.arena| ==>
               r.arena[j] == if |o| > 1 && j == o[1] then l.arena[j].(previous := Null) else l.arena[j]
    ensures LinkedAs(r, o[1..])
    ensures Data(r.arena, o[1..]) == Data(l.arena, o)[1..]
  {
    var o' := o[1..];
    forall i | 0 <= i < |o'|
      ensures Linked(r, o', i)
    {
      assert Linked(l, o, i + 1);
      if i > 0 {
        assert o[i + 1] != o[1];
      }
    }
  }

  /** removeLast(): the tail's value; `tail` moves to its predecessor, whose
      `next` is cleared, or both anchors become null. */
  function RemoveLast<E>(l: List<E>): (r: Result<(E, List<E>)>)
    requires Valid(l)
    ensures r.Err? <==> Contents(l) == []
    ensures r.Err? ==> r.error == NoSuchElement
    ensures r.Ok? ==> && r.value.0 == Contents(l)[|Contents(l)| - 1]
                      && Valid(r.value.1)
                      && Contents(r.value.1) == Contents(l)[..|Contents(l)| - 1]
    ensures r.Ok? && |Contents(l)| == 1 ==>
              r.value.1.head == Null && r.value.1.tail == Null && r.value.1.size == 0
  {
    if IsEmpty(l) then Err(NoSuchElement)
    else
      assert l.tail.Ref? && l.tail.addr < |l.arena| && l.arena[l.tail.addr].data == Contents(l)[l.size - 1]
             && (l.arena[l.tail.addr].previous.Ref? ==> l.arena[l.tail.addr].previous.addr < |l.arena|) by {
        Neighbours(l, Order(l), l.size - 1);
      }
      var t := l.tail.addr;
      var data := l.arena[t].data;
      var newTail := l.arena[t].previous;
      var rest := if newTail == Null then List(l.arena, Null, Null, l.size - 1)
                  else List(l.arena[newTail.addr := l.arena[newTail.addr].(next := Null)],
                            l.head, newTail, l.size - 1);
      assert Valid(rest) && Contents(rest) == Contents(l)[..l.size - 1] by {
        var o := Order(l);
        Neighbours(l, o, |o| - 1);
        DropLastLinked(l, o, rest);
        Represents(rest, o[..|o| - 1]);
      }
      Ok((data, rest))
  }

  lemma DropLastLinked<E>(l: List<E>, o: seq<nat>, r: List<E>)
    requires LinkedAs(l, o) && o != []
    requires r.size == l.size - 1 && |r.arena| == |l.arena|
    requires r.tail == At(o, |o| - 2) && r.head == (if |o| == 1 then Null else l.head)
    requires forall j :: 0 <= j < |l.arena| ==>
               r.arena[j] == if |o| > 1 && j == o[|o| - 2] then l.arena[j].(next := Null) else l.arena[j]
    ensures LinkedAs(r, o[..|o| - 1])
    ensures Data(r.arena, o[..|o| - 1]) == Data(l.arena, o)[..|o| - 1]
  {
    var n := |o|;
    var o' := o[..n - 1];
    forall i | 0 <= i < |o'|
      ensures Linked(r, o', i)
    {
      assert Linked(l, o, i);
      if i < n - 2 {
        assert o[i] != o[n - 2];
      }
    }
  }

  /** getFirst(). */
  function GetFirst<E>(l: List<E>): (r: Result<E>)
    requires Valid(l)
    ensures r.Err? <==> Contents(l) == []
    ensures r.Err? ==> r.error == NoSuchElement
    ensures r.Ok? ==> r.value == Contents(l)[0]
  {
    if IsEmpty(l) then Err(NoSuchElement)
    else
      assert l.head.Ref? && l.head.addr < |l.arena| && l.arena[l.head.addr].data == Contents(l)[0] by {
        Neighbours(l, Order(l), 0);
      }
      Ok(l.arena[l.head.addr].data)
  }

  /** getLast(). */
  function GetLast<E>(l: List<E>): (r: Result<E>)
    requires Valid(l)
    ensures r.Err? <==> Contents(l) == []
    ensures r.Err? ==> r.error == NoSuchElement
    ensures r.Ok? ==> r.value == Contents(l)[|Contents(l)| - 1]
  {
    if IsEmpty(l) then Err(NoSuchElement)
    else
      assert l.tail.Ref? && l.tail.addr < |l.arena|
             && l.arena[l.tail.addr].data == Contents(l)[l.size - 1] by {
        Neighbours(l, Order(l), l.size - 1);
      }
      Ok(l.arena[l.tail.addr].data)
  }

  /** checkIndex(index): the access bound 0 <= index < size. */
  function CheckIndex<E>(l: List<E>, index: int): (r: Result<()>)
    requires Valid(l)
    ensures r.Ok? <==> 0 <= index < |Contents(l)|
    ensures r.Err? ==> r.error == IndexOutOfBounds
  {
    if index < 0 || index >= l.size then Err(IndexOutOfBounds) else Ok(())
  }

  /** getNodeAt(index): walks `next` from the head when index < size / 2,
      otherwise `previous` from the tail; either way it reaches the node of
      the index-th element. */
  method NodeAt<E>(l: List<E>, index: int) returns (a: nat)
    requires Valid(l) && 0 <= index < l.size
    ensures a < |l.arena| && a == Order(l)[index]
    ensures l.arena[a].data == Contents(l)[index]
  {
    ghost var o := Order(l);
    if index < l.size / 2 {
      var current := l.head;
      var i := 0;
      while i < index
        invariant 0 <= i <= index
        invariant current == Ref(o[i])
      {
        assert Linked(l, o, i);
        current := l.arena[current.addr].next;
        i := i + 1;
      }
      a := current.addr;
    } else {
      var current := l.tail;
      var i := l.size - 1;
      while i > index
        invariant index <= i < |o|
        invariant current == Ref(o[i])
      {
        assert Linked(l, o, i);
        current := l.arena[current.addr].previous;
        i := i - 1;
      }
      a := current.addr;
    }
  }

  /** get(index). */
  method Get<E>(l: List<E>, index: int) returns (r: Result<E>)
    requires Valid(l)
    ensures r.Err? <==> index < 0 || index >= |Contents(l)|
    ensures r.Err? ==> r.error == IndexOutOfBounds
    ensures r.Ok? ==> r.value == Contents(l)[index]
  {
    if CheckIndex(l, index).Err? {
      return Err(IndexOutOfBounds);
    }
    var a := NodeAt(l, index);
    r := Ok(l.arena[a].data);
  }

  /** set(index, x): replaces the value of one node and returns the old one. */
  method Set<E>(l: List<E>, index: int, x: E) returns (r: Result<(E, List<E>)>)
    requires Valid(l)
    ensures r.Err? <==> index < 0 || index >= |Contents(l)|
    ensures r.Err? ==> r.error == IndexOutOfBounds
    ensures r.Ok? ==> && r.value.0 == Contents(l)[index]
                      && Valid(r.value.1)
                      && Contents(r.value.1) == Contents(l)[index := x]
  {
    if CheckIndex(l, index).Err? {
      return Err(IndexOutOfBounds);
    }
    var a := NodeAt(l, index);
    var oldData := l.arena[a].data;
    var l' := l.(arena := l.arena[a := l.arena[a].(data := x)]);
    ghost var o := Order(l);
    forall i | 0 <= i < |o|
      ensures Linked(l', o, i)
    {
      assert Linked(l, o, i);
    }
    Represents(l', o);
    assert Data(l'.arena, o) == Data(l.arena, o)[index := x];
    r := Ok((oldData, l'));
  }

  /** The interior branch of add(index, x): a new node between the node `c`
      and its predecessor. */
  function SpliceBefore<E>(l: List<E>, c: nat, x: E): List<E>
    requires c < |l.arena| && l.arena[c].previous.Ref? && l.arena[c].previous.addr < |l.arena|
  {
    var a := |l.arena|;
    var p := l.arena[c].previous.addr;
    var arena := l.arena + [Node(x, l.arena[c].previous, Ref(c))];
    var arena' := arena[p := arena[p].(next := Ref(a))];
    List(arena'[c := arena'[c].(previous := Ref(a))], l.head, l.tail, l.size + 1)
  }

  lemma SpliceBeforeCorrect<E>(l: List<E>, o: seq<nat>, k: int, x: E)
    requires LinkedAs(l, o) && 0 < k < |o|
    ensures o[k] < |l.arena| && l.arena[o[k]].previous == Ref(o[k - 1]) && o[k - 1] < |l.arena|
    ensures Valid(SpliceBefore(l, o[k], x))
    ensures Contents(SpliceBefore(l, o[k], x)) == Data(l.arena, o)[..k] + [x] + Data(l.arena, o)[k..]
  {
    assert Linked(l, o, k);
    assert o[k - 1] != o[k];
    var r := SpliceBefore(l, o[k], x);
    var o' := o[..k] + [|l.arena|] + o[k..];
    SpliceLinked(l, o, k, x, r);
    Represents(r, o');
  }

  /** How splicing x in before the k-th node of `o` changes the list: a new
      node at the end of the arena, and only the two neighbours' links change. */
  ghost predicate SplicedAt<E>(l: List<E>, o: seq<nat>, k: int, x: E, r: List<E>)
    requires LinkedAs(l, o) && 0 < k < |o|
  {
    && |r.arena| == |l.arena| + 1 && r.arena[|l.arena|] == Node(x, Ref(o[k - 1]), Ref(o[k]))
    && r.head == l.head && r.tail == l.tail && r.size == l.size + 1
    && forall j :: 0 <= j < |l.arena| ==>
         r.arena[j] == if j == o[k - 1] then l.arena[j].(next := Ref(|l.arena|))
                       else if j == o[k] then l.arena[j].(previous := Ref(|l.arena|))
                       else l.arena[j]
  }

  /** The link facts behind `SpliceBeforeCorrect`, stated over any list that
      differs from the old one as the splice makes it differ. */
  lemma SpliceLinked<E>(l: List<E>, o: seq<nat>, k: int, x: E, r: List<E>)
    requires LinkedAs(l, o) && 0 < k < |o| && SplicedAt(l, o, k, x, r)
    ensures LinkedAs(r, o[..k] + [|l.arena|] + o[k..])
    ensures Data(r.arena, o[..k] + [|l.arena|] + o[k..]) == Data(l.arena, o)[..k] + [x] + Data(l.arena, o)[k..]
  {
    var a := |l.arena|;
    var o' := o[..k] + [a] + o[k..];
    forall i | 0 <= i < |o'|
      ensures Linked(r, o', i)
    {
      if i < k {
        SpliceKeepsFront(l, o, k, x, r, i);
      } else if i == k {
        SpliceLinksNewNode(l, o, k, x, r);
      } else {
        SpliceKeepsBack(l, o, k, x, r, i);
      }
    }
    SpliceData(l, o, k, x, r);
  }

  lemma SpliceData<E>(l: List<E>, o: seq<nat>, k: int, x: E, r: List<E>)
    requires LinkedAs(l, o) && 0 < k < |o| && SplicedAt(l, o, k, x, r)
    ensures Data(r.arena, o[..k] + [|l.arena|] + o[k..]) == Data(l.arena, o)[..k] + [x] + Data(l.arena, o)[k..]
  {
    var o' := o[..k] + [|l.arena|] + o[k..];
    assert forall i :: 0 <= i < |o'| ==> o'[i] == if i < k then o[i] else if i == k then |l.arena| else o[i - 1];
  }

  lemma SpliceLinksNewNode<E>(l: List<E>, o: seq<nat>, k: int, x: E, r: List<E>)
    requires LinkedAs(l, o) && 0 < k < |o| && SplicedAt(l, o, k, x, r)
    ensures Linked(r, o[..k] + [|l.arena|] + o[k..], k)
  {
    var o' := o[..k] + [|l.arena|] + o[k..];
    assert o'[k] == |l.arena| && o'[k - 1] == o[k - 1] && o'[k + 1] == o[k];
  }

  lemma SpliceKeepsFront<E>(l: List<E>, o: seq<nat>, k: int, x: E, r: List<E>, i: int)
    requires LinkedAs(l, o) && 0 <= i < k < |o| && SplicedAt(l, o, k, x, r)
    ensures Linked(r, o[..k] + [|l.arena|] + o[k..], i)
  {
    var o' := o[..k] + [|l.arena|] + o[k..];
    assert Linked(l, o, i);
    assert o'[i] == o[i];
    assert i > 0 ==> o'[i - 1] == o[i - 1];
    if i < k - 1 {
      assert o'[i + 1] == o[i + 1];
      assert o[i] != o[k - 1] && o[i] != o[k];
      assert r.arena[o[i]] == l.arena[o[i]];
    } else {
      assert o'[i + 1] == |l.arena|;
      assert o[k - 1] != o[k];
    }
  }

  lemma SpliceKeepsBack<E>(l: List<E>, o: seq<nat>, k: int, x: E, r: List<E>, i: int)
    requires LinkedAs(l, o) && 0 < k < i <= |o| && SplicedAt(l, o, k, x, r)
    ensures Linked(r, o[..k] + [|l.arena|] + o[k..], i)
  {
    var o' := o[..k] + [|l.arena|] + o[k..];
    assert Linked(l, o, i - 1);
    assert o'[i] == o[i - 1];
    assert i + 1 < |o'| ==> o'[i + 1] == o[i];
    if i > k + 1 {
      assert o'[i - 1] == o[i - 2];
      assert o[i - 1] != o[k - 1] && o[i - 1] != o[k];
      assert r.arena[o[i - 1]] == l.arena[o[i - 1]];
    } else {
      assert o'[i - 1] == |l.arena|;
      assert o[k] != o[k - 1];
    }
  }

  /** add(index, x): the insertion bound 0 <= index <= size; the ends go
      through addFirst and addLast. */
  method Insert<E>(l: List<E>, index: int, x: E) returns (r: Result<List<E>>)
    requires Valid(l)
    ensures r.Err? <==> index < 0 || index > |Contents(l)|
    ensures r.Err? ==> r.error == IndexOutOfBounds
    ensures r.Ok? ==> && Valid(r.value)
                      && Contents(r.value) == Contents(l)[..index] + [x] + Contents(l)[index..]
  {
    if index < 0 || index > l.size {
      return Err(IndexOutOfBounds);
    }
    if index == 0 {
      r := Ok(AddFirst(l, x));
    } else if index == l.size {
      r := Ok(AddLast(l, x));
      assert Contents(l)[index..] == [];
    } else {
      var current := NodeAt(l, index);
      SpliceBeforeCorrect(l, Order(l), index, x);
      r := Ok(SpliceBefore(l, current, x));
    }
  }

  /** Unlinking node `c` as remove(value) does: its predecessor (or `head`)
      takes its `next`, its successor (or `tail`) takes its `previous`. */
  function Unlink<E>(l: List<E>, c: nat): List<E>
    requires c < |l.arena|
    requires l.arena[c].previous.Ref? ==> l.arena[c].previous.addr < |l.arena|
    requires l.arena[c].next.Ref? ==> l.arena[c].next.addr < |l.arena|
  {
    var node := l.arena[c];
    var arena := if node.previous.Ref?
                 then l.arena[node.previous.addr := l.arena[node.previous.addr].(next := node.next)]
                 else l.arena;
    var head := if node.previous.Ref? then l.head else node.next;
    var arena' := if node.next.Ref?
                  then arena[node.next.addr := arena[node.next.addr].(previous := node.previous)]
                  else arena;
    var tail := if node.next.Ref? then l.tail else node.previous;
    List(arena', head, tail, l.size - 1)
  }

  lemma UnlinkCorrect<E>(l: List<E>, o: seq<nat>, k: int)
    requires LinkedAs(l, o) && 0 <= k < |o|
    ensures o[k] < |l.arena|
    ensures l.arena[o[k]].previous.Ref? ==> l.arena[o[k]].previous.addr < |l.arena|
    ensures l.arena[o[k]].next.Ref? ==> l.arena[o[k]].next.addr < |l.arena|
    ensures Valid(Unlink(l, o[k]))
    ensures Contents(Unlink(l, o[k])) == Data(l.arena, o)[..k] + Data(l.arena, o)[k + 1..]
  {
    Neighbours(l, o, k);
    var r := Unlink(l, o[k]);
    UnlinkLinked(l, o, k, r);
    Represents(r, o[..k] + o[k + 1..]);
  }

  /** How unlinking the k-th node of `o` changes the list: the size drops
      by one, and only the two neighbours' links and the anchors change. */
  ghost predicate UnlinkedAt<E>(l: List<E>, o: seq<nat>, k: int, r: List<E>)
    requires LinkedAs(l, o) && 0 <= k < |o|
  {
    && |r.arena| == |l.arena| && r.size == l.size - 1
    && r.head == (if k == 0 then At(o, 1) else l.head)
    && r.tail == (if k == |o| - 1 then At(o, k - 1) else l.tail)
    && forall j :: 0 <= j < |l.arena| ==>
         r.arena[j] == if k > 0 && j == o[k - 1] then l.arena[j].(next := At(o, k + 1))
                       else if k + 1 < |o| && j == o[k + 1] then l.arena[j].(previous := At(o, k - 1))
                       else l.arena[j]
  }

  /** The link facts behind `UnlinkCorrect`, stated over any list that differs
      from the old one as unlinking the k-th node makes it differ. */
  lemma UnlinkLinked<E>(l: List<E>, o: seq<nat>, k: int, r: List<E>)
    requires LinkedAs(l, o) && 0 <= k < |o| && UnlinkedAt(l, o, k, r)
    ensures LinkedAs(r, o[..k] + o[k + 1..])
    ensures Data(r.arena, o[..k] + o[k + 1..]) == Data(l.arena, o)[..k] + Data(l.arena, o)[k + 1..]
  {
    var o' := o[..k] + o[k + 1..];
    forall i | 0 <= i < |o'|
      ensures Linked(r, o', i)
    {
      if i < k {
        UnlinkKeepsFront(l, o, k, r, i);
      } else {
        UnlinkKeepsBack(l, o, k, r, i);
      }
    }
    UnlinkData(l, o, k, r);
  }

  lemma UnlinkData<E>(l: List<E>, o: seq<nat>, k: int, r: List<E>)
    requires LinkedAs(l, o) && 0 <= k < |o| && UnlinkedAt(l, o, k, r)
    ensures Data(r.arena, o[..k] + o[k + 1..]) == Data(l.arena, o)[..k] + Data(l.arena, o)[k + 1..]
  {
    var o' := o[..k] + o[k + 1..];
    assert forall i :: 0 <= i < |o'| ==> o'[i] == if i < k then o[i] else o[i + 1];
  }

  lemma UnlinkKeepsFront<E>(l: List<E>, o: seq<nat>, k: int, r: List<E>, i: int)
    requires LinkedAs(l, o) && 0 <= i < k < |o| && UnlinkedAt(l, o, k, r)
    ensures Linked(r, o[..k] + o[k + 1..], i)
  {
    var o' := o[..k] + o[k + 1..];
    assert Linked(l, o, i);
    assert o'[i] == o[i];
    assert i > 0 ==> o'[i - 1] == o[i - 1];
    if i < k - 1 {
      assert o'[i + 1] == o[i + 1];
      assert o[i] != o[k - 1];
      assert k + 1 < |o| ==> o[i] != o[k + 1];
      assert r.arena[o[i]] == l.arena[o[i]];
    } else {
      assert k + 1 < |o| ==> o'[i + 1] == o[k + 1];
      assert k + 1 < |o| ==> o[k - 1] != o[k + 1];
    }
  }

  lemma UnlinkKeepsBack<E>(l: List<E>, o: seq<nat>, k: int, r: List<E>, i: int)
    requires LinkedAs(l, o) && 0 <= k <= i < |o| - 1 && UnlinkedAt(l, o, k, r)
    ensures Linked(r, o[..k] + o[k + 1..], i)
  {
    var o' := o[..k] + o[k + 1..];
    assert Linked(l, o, i + 1);
    assert o'[i] == o[i + 1];
    assert i + 1 < |o'| ==> o'[i + 1] == o[i + 2];
    if i > k {
      assert o'[i - 1] == o[i];
      assert o[i + 1] != o[k + 1];
      assert k > 0 ==> o[i + 1] != o[k - 1];
      assert r.arena[o[i + 1]] == l.arena[o[i + 1]];
    } else {
      assert k > 0 ==> o'[i - 1] == o[k - 1];
      assert k > 0 ==> o[k + 1] != o[k - 1];
    }
  }

  /** remove(index): the access bound; the ends go through removeFirst and
      removeLast; an interior node's neighbours are linked to each other,
      which is what `Unlink` does when both neighbours exist. */
  method RemoveAt<E>(l: List<E>, index: int) returns (r: Result<(E, List<E>)>)
    requires Valid(l)
    ensures r.Err? <==> index < 0 || index >= |Contents(l)|
    ensures r.Err? ==> r.error == IndexOutOfBounds
    ensures r.Ok? ==> && r.value.0 == Contents(l)[index]
                      && Valid(r.value.1)
                      && Contents(r.value.1) == Contents(l)[..index] + Contents(l)[index + 1..]
  {
    if CheckIndex(l, index).Err? {
      return Err(IndexOutOfBounds);
    }
    if index == 0 {
      r := RemoveFirst(l);
    } else if index == l.size - 1 {
      r := RemoveLast(l);
      assert Contents(l)[index + 1..] == [];
    } else {
      var current := NodeAt(l, index);
      UnlinkCorrect(l, Order(l), index);
      r := Ok((l.arena[current].data, Unlink(l, current)));
    }
  }

  /** remove(x): unlinks the first node holding x and reports whether there
      was one; without a match the list is unchanged. */
  method RemoveValue<E(==)>(l: List<E>, x: E) returns (found: bool, r: List<E>)
    requires Valid(l)
    ensures found <==> x in Contents(l)
    ensures !found ==> r == l
    ensures found ==> && Valid(r)
                      && exists k :: && 0 <= k < |Contents(l)| && Contents(l)[k] == x
                                     && x !in Contents(l)[..k]
                                     && Contents(r) == Contents(l)[..k] + Contents(l)[k + 1..]
  {
    ghost var o := Order(l);
    var current := l.head;
    ghost var k := 0;
    while current != Null
      invariant 0 <= k <= |o| && current == At(o, k)
      invariant x !in Contents(l)[..k]
      decreases |o| - k
    {
      assert Linked(l, o, k);
      if l.arena[current.addr].data == x {
        UnlinkCorrect(l, o, k);
        return true, Unlink(l, current.addr);
      }
      assert Contents(l)[..k + 1] == Contents(l)[..k] + [Contents(l)[k]];
      current := l.arena[current.addr].next;
      k := k + 1;
    }
    assert Contents(l)[..k] == Contents(l);
    return false, l;
  }

  /** indexOf(x): the least index holding x, or -1. */
  method IndexOf<E(==)>(l: List<E>, x: E) returns (index: int)
    requires Valid(l)
    ensures -1 <= index < |Contents(l)|
    ensures index == -1 <==> x !in Contents(l)
    ensures index >= 0 ==> Contents(l)[index] == x && x !in Contents(l)[..index]
  {
    ghost var o := Order(l);
    var current := l.head;
    index := 0;
    while current != Null
      invariant 0 <= index <= |o| && current == At(o, index)
      invariant x !in Contents(l)[..index]
      decreases |o| - index
    {
      assert Linked(l, o, index);
      if l.arena[current.addr].data == x {
        return index;
      }
      assert Contents(l)[..index + 1] == Contents(l)[..index] + [Contents(l)[index]];
      current := l.arena[current.addr].next;
      index := index + 1;
    }
    assert Contents(l)[..index] == Contents(l);
    return -1;
  }

  /** lastIndexOf(x): the greatest index holding x, or -1. */
  method LastIndexOf<E(==)>(l: List<E>, x: E) returns (index: int)
    requires Valid(l)
    ensures -1 <= index < |Contents(l)|
    ensures index == -1 <==> x !in Contents(l)
    ensures index >= 0 ==> Contents(l)[index] == x && x !in Contents(l)[index + 1..]
  {
    ghost var o := Order(l);
    var current := l.tail;
    index := l.size - 1;
    while current != Null
      invariant -1 <= index < |o| && current == At(o, index)
      invariant x !in Contents(l)[index + 1..]
      decreases index + 1
    {
      assert Linked(l, o, index);
      if l.arena[current.addr].data == x {
        assert Contents(l)[index] == x;
        return index;
      }
      assert Contents(l)[index..] == [Contents(l)[index]] + Contents(l)[index + 1..];
      current := l.arena[current.addr].previous;
      index := index - 1;
    }
    assert Contents(l)[index + 1..] == Contents(l);
    return -1;
  }

  /** contains(x): indexOf(x) != -1. */
  method Contains<E(==)>(l: List<E>, x: E) returns (b: bool)
    requires Valid(l)
    ensures b <==> x in Contents(l)
  {
    var index := IndexOf(l, x);
    b := index != -1;
  }

  /** clear(): every node of the chain loses both links, then the anchors are
      nulled and the size reset. */
  method Clear<E>(l: List<E>) returns (r: List<E>)
    requires Valid(l)
    ensures Valid(r) && Contents(r) == []
    ensures r.head == Null && r.tail == Null && r.size == 0
    ensures |r.arena| == |l.arena|
    ensures forall i :: 0 <= i < |Order(l)| ==>
              r.arena[Order(l)[i]] == Node(l.arena[Order(l)[i]].data, Null, Null)
  {
    ghost var o := Order(l);
    var arena := l.arena;
    var current := l.head;
    ghost var k := 0;
    while current != Null
      invariant 0 <= k <= |o| && current == At(o, k)
      invariant |arena| == |l.arena|
      invariant forall i :: 0 <= i < k ==> arena[o[i]] == Node(l.arena[o[i]].data, Null, Null)
      invariant forall i :: k <= i < |o| ==> arena[o[i]] == l.arena[o[i]]
      decreases |o| - k
    {
      assert Linked(l, o, k);
      var next := arena[current.addr].next;
      arena := arena[current.addr := arena[current.addr].(previous := Null, next := Null)];
      current := next;
      k := k + 1;
    }
    r := List(arena, Null, Null, 0);
    Represents(r, []);
  }

  /** A new list iterator starts at `head`, the position of the first element. */
  function IteratorStart<E>(l: List<E>): (current: Link)
    requires Valid(l)
    ensures current == At(Order(l), 0)
    ensures current == Null <==> Contents(l) == []
  {
    l.head
  }

  /** hasNext() of the list iterator: values remain exactly while the cursor
      is not `Null`, that is, before the end of the chain. */
  function IteratorHasNext<E>(l: List<E>, current: Link, ghost k: int): (b: bool)
    requires Valid(l) && 0 <= k <= |Contents(l)| && current == At(Order(l), k)
    ensures b <==> k < |Contents(l)|
  {
    current != Null
  }

  /** One step of the list iterator: at `Null` it throws, otherwise it returns
      the node's value and moves to its `next`.  `k` counts the values
      already returned. */
  function IteratorNext<E>(l: List<E>, current: Link, ghost k: int): (r: Result<(E, Link)>)
    requires Valid(l) && 0 <= k <= |Contents(l)| && current == At(Order(l), k)
    ensures r.Err? <==> k == |Contents(l)|
    ensures r.Err? ==> r.error == NoSuchElement
    ensures r.Ok? ==> r.value.0 == Contents(l)[k] && r.value.1 == At(Order(l), k + 1)
  {
    if current == Null then Err(NoSuchElement)
    else
      assert Linked(l, Order(l), k);
      Ok((l.arena[current.addr].data, l.arena[current.addr].next))
  }

  /** The forward order of toString() and of the iterator: from `head` along
      `next` until `Null`. */
  method ForwardOrder<E>(l: List<E>) returns (s: seq<E>)
    requires Valid(l)
    ensures s == Contents(l)
  {
    var current := IteratorStart(l);
    ghost var k := 0;
    s := [];
    while IteratorHasNext(l, current, k)
      invariant 0 <= k <= |Contents(l)| && current == At(Order(l), k)
      invariant s == Contents(l)[..k]
      decreases |Contents(l)| - k
    {
      var step := IteratorNext(l, current, k);
      s := s + [step.value.0];
      current := step.value.1;
      k := k + 1;
    }
  }

  /** The order of toReverseString(): from `tail` along `previous` until
      `Null`; it is the forward order reversed. */
  method ReverseOrder<E>(l: List<E>) returns (s: seq<E>)
    requires Valid(l)
    ensures |s| == |Contents(l)|
    ensures forall i :: 0 <= i < |s| ==> s[i] == Contents(l)[|s| - 1 - i]
  {
    ghost var o := Order(l);
    var current := l.tail;
    ghost var k := |o| - 1;
    s := [];
    while current != Null
      invariant -1 <= k < |o| && current == At(o, k)
      invariant |s| == |o| - 1 - k
      invariant forall i :: 0 <= i < |s| ==> s[i] == Contents(l)[|o| - 1 - i]
      decreases k + 1
    {
      assert Linked(l, o, k);
      s := s + [l.arena[current.addr].data];
      current := l.arena[current.addr].previous;
      k := k - 1;
    }
  }
}
