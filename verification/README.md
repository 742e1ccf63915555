# Array deque and doubly linked list

This project models the two in-memory containers of a small Java collections
repository and proves their behaviour against an abstract sequence of elements.

- **`ArrayDeque<E>`** is a double-ended queue kept in a circular array. Its
  state is the backing array plus the indices of the front and back elements,
  with `-1` in both meaning "empty". `size()` is a three-case formula over the
  indices. The array grows to `2 * length + 1` when an insertion finds it full,
  and the indices step with explicit wraparound.
- **`DoublyLinkedList<E>`** is a list of nodes with `data`, `previous` and
  `next`, plus `head`, `tail` and a stored `size`. It supports positional
  `get`, `set`, `add` and `remove`, which walk from the nearer end. It also has
  end operations, search by value, `clear`, forward and reverse rendering
  order, and an iterator.

The model is purely functional. Every Java mutator becomes a function or
method that returns the new state. Every thrown exception becomes an `Err`
value of `Outcomes.Result`, whose `Error` kinds are named after the Java
exception classes.

- `ArrayDeque.Deque` holds the backing array as `seq<Option<E>>`, where
  `None` is a Java `null` slot.
  - `ArrayDeque.Valid` is the representation invariant: the indices are both
    `-1` or both in range, and a slot is occupied exactly when it lies in the
    live window.
  - `ArrayDeque.Contents` reads the window from `first` with wraparound.
- `DoublyLinkedList.List` keeps its nodes in an arena: a sequence of nodes,
  and a link is `Null` or an arena address.
  - `DoublyLinkedList.Valid` says that some address sequence is the chain:
    `head` is its first address and `tail` its last, `next` and `previous`
    are mirror images, and `size` is its length.
  - The chain is unique (`OrderUnique`), which defines the abstraction
    function `DoublyLinkedList.Contents`.

Growth in the Java `ensureCapacity` has two defects (see Findings). The copy
loop at ArrayDeque.java:76-78 copies every element into the new array, so
growth is evidently meant to keep them all; the index reset that follows it
does not always do so. The code as written is modelled in
`DequeGrowthAsWritten`, with lemmas that exhibit the divergence. The corrected
growth is `ArrayDeque.EnsureCapacity`, and the rest of the deque model uses it.

## Model

| member | source | states |
|---|---|---|
| `ArrayDeque.New` | ArrayDeque.java:14-21 | A negative capacity is rejected with IllegalArgument, and only a negative one is. Otherwise the deque is valid and empty, has exactly the requested number of slots, and both indices are -1. |
| `ArrayDeque.NewDefault` | ArrayDeque.java:7-11 | The no-argument constructor gives a valid empty deque of 10 slots. |
| `ArrayDeque.SizeIsOccupiedSlotCount` | ArrayDeque.java:23-31 | For a valid deque, the three-case size formula equals the number of non-null slots. Hence 0 <= size <= length. |
| `ArrayDeque.IsFull` | ArrayDeque.java:33-35 | For a valid deque, full holds exactly when every slot of the array is occupied. |
| `ArrayDeque.IsEmpty` | ArrayDeque.java:37-39 | For a valid deque, empty holds exactly when the contents are the empty sequence, and exactly when every slot is null. |
| `ArrayDeque.Linearise` | ArrayDeque.java:74-78 | The copy loop places the i-th element of the contents at index i of the new array for i < size, and leaves the remaining slots null. |
| `ArrayDeque.EnsureCapacity` | ArrayDeque.java:72-85 | Corrected growth. A capacity no larger than the length changes nothing. A larger one gives an array of exactly that length, the same contents and a valid deque, with `first = 0` when the deque is non-empty. |
| `ArrayDeque.Grown` | ArrayDeque.java:42-44 | Over the corrected growth (see Findings), the growth guard of addFirst and addLast grows the array exactly when the deque is full, to exactly 2 * length + 1 slots. It always leaves room for one more element. |
| `ArrayDeque.PlaceFirstCorrect` | ArrayDeque.java:45-56 | On a valid, non-full deque, the insertion step of addFirst prepends x. An empty deque gets both indices at 0. Otherwise `first` steps back with explicit wraparound from -1 to length-1. |
| `ArrayDeque.PlaceLastCorrect` | ArrayDeque.java:63-68 | On a valid, non-full deque, the insertion step of addLast appends x. An empty deque goes through addFirst. Otherwise `last` advances modulo the length. |
| `ArrayDeque.AddFirst` | ArrayDeque.java:41-57 | Over the corrected growth (see Findings), the result is valid with contents [x] + old. The array grows exactly when it was full, to exactly 2 * length + 1 slots. A non-full, non-empty deque keeps `last` and moves `first` to (first - 1) mod length. |
| `ArrayDeque.AddLast` | ArrayDeque.java:59-69 | Over the corrected growth (see Findings), the result is valid with contents old + [x]. The array grows exactly when it was full, to exactly 2 * length + 1 slots, and a full non-empty deque then starts at slot 0. A non-full, non-empty deque keeps `first` and moves `last` to (last + 1) mod length. |
| `ArrayDeque.GetFirst` | ArrayDeque.java:87-93 | Fails with NoSuchElement exactly when the deque is empty; otherwise returns contents[0]. |
| `ArrayDeque.GetLast` | ArrayDeque.java:95-101 | Fails with NoSuchElement exactly when the deque is empty; otherwise returns the last element of the contents. |
| `ArrayDeque.RemoveFirst` | ArrayDeque.java:103-118 | Fails with NoSuchElement exactly when the deque is empty. Otherwise it returns contents[0] and leaves a valid deque of the same length holding contents[1..]. The vacated slot is null, and removing the sole element resets both indices to -1. |
| `ArrayDeque.RemoveLast` | ArrayDeque.java:120-139 | Fails with NoSuchElement exactly when the deque is empty. Otherwise it returns the last element and leaves a valid deque of the same length holding all but the last element. The vacated slot is null, and removing the sole element resets both indices to -1. |
| `ArrayDeque.SoleRemovalRestoresFreshDeque` | ArrayDeque.java:108-112 | Removing the only element from either end gives exactly the state of a freshly constructed deque of the same capacity, so later operations behave as on a new deque. |
| `ArrayDeque.RenderOrder` | ArrayDeque.java:141-153 | The toString loop visits elements[(first + i) % length] for i < size, and that order is exactly the contents. |
| `ArrayDeque.Next` | ArrayDeque.java:160-179 | The iterator's next() fails with NoSuchElement exactly when all elements have been returned. Otherwise it returns the element at the counter's position and advances to the slot of the next one. |
| `ArrayDeque.Iterate` | ArrayDeque.java:155-180 | Draining a fresh iterator yields exactly the contents, front to back. |
| `DequeGrowthAsWritten.EnsureCapacityAsWritten` | ArrayDeque.java:72-85 | ensureCapacity as written copies the contents to the front of the new array and sets `first = 0`. A capacity no larger than the length changes nothing. `last` becomes -1 for an empty deque and size - 1 for an unwrapped one. For a wrapped one it becomes size - 1 + (desired - length), because size() is re-read against the new array. |
| `DequeGrowthAsWritten.AddFirstAsWritten` | ArrayDeque.java:41-57 | addFirst over the as-written growth agrees with the corrected operation whenever the deque is not full. |
| `DequeGrowthAsWritten.AddLastAsWritten` | ArrayDeque.java:59-69 | addLast over the as-written growth agrees with the corrected operation whenever the deque is not full. |
| `DequeGrowthAsWritten.AddFirstAsWrittenCorrectExactly` | ArrayDeque.java:41-57 | addFirst as written yields the corrected state if and only if the deque is not full, or is full, non-empty and unwrapped. A full empty deque (capacity 0) and a full wrapped deque both go wrong. |
| `DequeGrowthAsWritten.AddLastAsWrittenCorrectExactly` | ArrayDeque.java:59-69 | addLast as written yields the corrected state if and only if the deque is not full, non-empty and wrapped at once. On capacity 0 it happens to give the right result. |
| `DequeGrowthAsWritten.AddLastWrappedDiverges` | ArrayDeque.java:59-83 | On every full, wrapped deque, addLast as written ends in a different state from the corrected operation, one with size 1. |
| `DequeGrowthAsWritten.GrowthAsWrittenAgreesOnlyWhenUnwrapped` | ArrayDeque.java:80-83 | Real growth as written yields the corrected state if and only if the deque is non-empty and its window does not wrap. |
| `DequeGrowthAsWritten.EmptyGrowthInventsElements` | ArrayDeque.java:81-83 | Growing an empty deque as written leaves `first = 0, last = -1`. size() reads that state as the full new capacity, and it breaks the representation invariant. |
| `DequeGrowthAsWritten.ZeroCapacityAddFirstLeavesLastOutOfRange` | ArrayDeque.java:41-47 | On a capacity-0 deque, addFirst as written yields size 1 with `last = -1`, an invalid state. The corrected operation yields [x]. |
| `DequeGrowthAsWritten.WrappedGrowthOverwritesFront` | ArrayDeque.java:41-83 | For the full, wrapped deque [2, 3, 4], addLast(5) as written overwrites slot 0, leaving size 1 with the value 2 lost. addFirst(9) as written also leaves size 1. The corrected addLast yields [2, 3, 4, 5]. |
| `DequeGrowthAsWritten.LifoAsWrittenLoses` | ArrayDeque.java:41-57 | On `new ArrayDeque(2)`, addFirst 1, 2, 3 as written ends with first = last = 4 and size 1. The second call has already wrapped the window. The corrected operations hold [3, 2, 1]. |
| `DequeGrowthAsWritten.PushAllLastAsWritten` | ArrayDeque.java:59-69 | From an empty deque or one whose window starts at slot 0, repeated addLast as written gives exactly the state of the corrected repeated addLast. |
| `DequeGrowthAsWritten.FifoAsWrittenHolds` | ArrayDeque.java:59-118 | With the growth exactly as written, values pushed with addLast on a fresh deque of any capacity come out of removeFirst in push order. |
| `DequeProperties.PushAllLast` | ArrayDeque.java:59-69 | Over the corrected growth (see Findings), repeated addLast appends the values in order, across any number of growths. |
| `DequeProperties.PushAllFirst` | ArrayDeque.java:41-57 | Over the corrected growth (see Findings), repeated addFirst prepends the values in reverse order. |
| `DequeProperties.PopAllFirst` | ArrayDeque.java:103-118 | Repeated removeFirst until NoSuchElement returns exactly the contents. |
| `DequeProperties.FifoRoundTrip` | ArrayDeque.java:59-118 | Over the corrected growth, values pushed with addLast come out of removeFirst in push order, for any initial capacity. |
| `DequeProperties.LifoReversal` | ArrayDeque.java:41-118 | Over the corrected growth (see Findings), values pushed with addFirst come out of removeFirst reversed. As written this fails (`DequeGrowthAsWritten.LifoAsWrittenLoses`). |
| `DequeProperties.WraparoundScenario` | ArrayDeque.java:41-118 | Capacity 3: addLast 1, 2, 3, then removeFirst returns 1, then addLast 4 wraps to slot 0. The deque now holds [2, 3, 4] in a full, wrapped window. |
| `DoublyLinkedList.OrderUnique` | DoublyLinkedList.java:20-22 | The chain that `head` and the `next`/`previous` links describe is unique, so the list denotes exactly one sequence. |
| `DoublyLinkedList.Empty` | DoublyLinkedList.java:24-27 | The constructor yields a valid list with no elements. |
| `DoublyLinkedList.Size` | DoublyLinkedList.java:249-251 | For a valid list, the stored count equals the number of elements. |
| `DoublyLinkedList.IsEmpty` | DoublyLinkedList.java:253-255 | For a valid list, empty holds exactly when there are no elements, and exactly when head is null and when tail is null. |
| `DoublyLinkedList.AddFirst` | DoublyLinkedList.java:100-109 | The result is valid with contents [x] + old. Its head is the new node, and in an empty list it is also the tail. |
| `DoublyLinkedList.AddLast` | DoublyLinkedList.java:111-118 | The result is valid with contents old + [x]. Its tail is the new node, and in an empty list it is also the head. |
| `DoublyLinkedList.Add` | DoublyLinkedList.java:120-123 | add(x) returns true and appends x. |
| `DoublyLinkedList.RemoveFirst` | DoublyLinkedList.java:169-185 | Fails with NoSuchElement exactly when the list is empty. Otherwise it returns the first element and leaves a valid list of the rest. Removing the sole node leaves both anchors null and size 0. |
| `DoublyLinkedList.RemoveLast` | DoublyLinkedList.java:187-203 | Fails with NoSuchElement exactly when the list is empty. Otherwise it returns the last element and leaves a valid list of the others. Removing the sole node leaves both anchors null and size 0. |
| `DoublyLinkedList.GetFirst` | DoublyLinkedList.java:205-210 | Fails with NoSuchElement exactly when the list is empty; otherwise returns the first element. |
| `DoublyLinkedList.GetLast` | DoublyLinkedList.java:212-217 | Fails with NoSuchElement exactly when the list is empty; otherwise returns the last element. |
| `DoublyLinkedList.CheckIndex` | DoublyLinkedList.java:76-80 | Succeeds exactly when 0 <= index < size, and fails with IndexOutOfBounds otherwise. |
| `DoublyLinkedList.NodeAt` | DoublyLinkedList.java:82-98 | Whichever end the walk starts from, it reaches the index-th node of the chain, which holds the index-th element. |
| `DoublyLinkedList.Get` | DoublyLinkedList.java:29-32 | Fails with IndexOutOfBounds exactly when the index is outside 0 .. size-1; otherwise returns the element at the index. |
| `DoublyLinkedList.Set` | DoublyLinkedList.java:34-40 | Fails with IndexOutOfBounds exactly outside 0 .. size-1. Otherwise it returns the old element and leaves a valid list whose contents differ only at the index, which now holds x. |
| `DoublyLinkedList.SpliceBeforeCorrect` | DoublyLinkedList.java:52-56 | Linking a new node before the k-th node of a valid list (0 < k < size) keeps the linkage symmetric. The new node becomes the k-th element. |
| `DoublyLinkedList.Insert` | DoublyLinkedList.java:42-58 | Fails with IndexOutOfBounds exactly outside 0 .. size. Otherwise it yields a valid list with contents old[..i] + [x] + old[i..], through addFirst and addLast at the ends. |
| `DoublyLinkedList.UnlinkCorrect` | DoublyLinkedList.java:147-160 | Unlinking the k-th node of a valid list keeps the linkage symmetric, with the head or tail moved when the node was at an end. The list loses exactly the k-th element. |
| `DoublyLinkedList.RemoveAt` | DoublyLinkedList.java:60-74 | Fails with IndexOutOfBounds exactly outside 0 .. size-1. Otherwise it returns the element at i and leaves a valid list with contents old[..i] + old[i+1..]. |
| `DoublyLinkedList.RemoveValue` | DoublyLinkedList.java:143-167 | Reports true exactly when x occurs. Without a match the list is unchanged. With a match, exactly the first occurrence is removed and the result is valid. |
| `DoublyLinkedList.IndexOf` | DoublyLinkedList.java:219-232 | Returns -1 exactly when x does not occur. Otherwise it returns an index holding x with no earlier occurrence. |
| `DoublyLinkedList.LastIndexOf` | DoublyLinkedList.java:234-247 | Returns -1 exactly when x does not occur. Otherwise it returns an index holding x with no later occurrence. |
| `DoublyLinkedList.Contains` | DoublyLinkedList.java:139-141 | True exactly when x occurs in the list. |
| `DoublyLinkedList.Clear` | DoublyLinkedList.java:125-137 | Yields a valid empty list with both anchors null. Every node of the old chain keeps its data and loses both links. |
| `DoublyLinkedList.IteratorStart` | DoublyLinkedList.java:290-296 | A new iterator starts at the first node of the chain, and is at the end exactly when the list is empty. |
| `DoublyLinkedList.IteratorHasNext` | DoublyLinkedList.java:298-300 | hasNext() holds exactly while values remain to be returned. |
| `DoublyLinkedList.IteratorNext` | DoublyLinkedList.java:302-309 | next() fails with NoSuchElement exactly at the end. Otherwise it returns the next element and moves to the following node of the chain. |
| `DoublyLinkedList.ForwardOrder` | DoublyLinkedList.java:257-272 | The walk from head along `next` (toString and the iterator) yields exactly the contents. |
| `DoublyLinkedList.ReverseOrder` | DoublyLinkedList.java:274-288 | The walk from tail along `previous` (toReverseString) yields the contents reversed. |

## Left out

- PhonebookApp.java is not part of this model. It is console and file I/O around a fixed array.
- String building in the `toString` methods is left out, since it depends on each element's own `toString`. Only the order in which elements are rendered is modelled.
- The Java `Iterator` object protocol is modelled as explicit cursor values. Mutating a container while an iterator is live is not modelled.
- Java `int` overflow is not modelled: integers are unbounded, so `2 * length + 1` never wraps.
- The unchecked generic array cast is left out, as is garbage collection. Nulling slots and clearing links is recorded as state, not as reclaimed memory.
- Nodes unlinked from the list stay in the arena, unreachable from `head`. The arena stands in for the Java heap.
- `Objects.equals` is modelled as Dafny equality on an equality-supporting element type, and user-defined `equals` is not modelled.
- Null elements are not modelled in either container. In the deque a stored Java `null` would fill a slot that reads as empty. The deque's `Valid`, `IsEmpty` ("every slot is null") and `IsFull` ("every slot is occupied") therefore assume non-null elements.
- The interior branch of `remove(int)` is modelled by `DoublyLinkedList.Unlink`, the same unlinking that `remove(Object)` performs. When both neighbours exist, the two do the same thing.
- `ensureCapacity` can also be called directly. The model provides it as `ArrayDeque.EnsureCapacity` (corrected) and `DequeGrowthAsWritten.EnsureCapacityAsWritten` (as written).
- `ArrayDeque.IsFull` and `ArrayDeque.IsEmpty` compute `size()` on any state. Their contracts speak only about valid states, where the formula is meaningful.

## Findings

| source | as written | input that shows it | evidently intended | confidence | as-written member | corrected member |
|---|---|---|---|---|---|---|
| ArrayDeque.java:80-83 | `size()` is re-read after `elements` has been replaced by the larger array. A wrapped window is then measured against the new length, so `last` becomes size - 1 + (newLength - length); for a full wrapped window that is `newLength - 1`. | A capacity-3 deque built by addLast 1, 2, 3, removeFirst, addLast 4 holds [2, 3, 4] with first = 1 and last = 0. Calling addLast(5) grows it, then writes 5 to slot 0, which held 2. The deque ends with size 1. addFirst(9) on the same deque also ends with size 1, losing all three old elements. Plain repeated addFirst reaches this case as well: on `new ArrayDeque(2)` the second addFirst wraps the window and the third ends with size 1. Repeated addLast from a fresh deque never wraps, so it is not affected. | The size is taken before the replacement, so `last = size - 1` and growth keeps every element. | not executed | `DequeGrowthAsWritten.WrappedGrowthOverwritesFront`, `DequeGrowthAsWritten.LifoAsWrittenLoses` | `ArrayDeque.EnsureCapacity` |
| ArrayDeque.java:81-83 | An empty deque that grows gets `first = 0, last = -1`. `size()` reads that state as the whole new capacity. | `new ArrayDeque(0)` then `addFirst(x)`: growth to capacity 1 gives first = 0, last = -1. The element goes to slot 0 with `last` still -1, so `getLast` would index -1. Only addFirst is affected: addLast on the same deque happens to reach the right state. | An empty deque keeps both indices at -1 through growth. | not executed | `DequeGrowthAsWritten.ZeroCapacityAddFirstLeavesLastOutOfRange` | `ArrayDeque.AddFirst` |
