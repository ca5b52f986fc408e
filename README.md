# Positional lists: one contract, seven implementations

This project models the `List<T>` interface of the MassiveMotion simulation and
the seven classes that implement it. The interface offers five calls:

- `add(pos, item)`
- `add(item)`
- `get(pos)`
- `remove(pos)`
- `size()`

The seven classes are:

- a growable array, in two copies (`src/ListImpl_ArrayList.java` and
  `src/ListImpls/ListImpl_ArrayList.java`);
- a singly-linked list from a head pointer, in two copies
  (`src/ListImpl_Linked.java` and `src/ListImpls/ListImpl_Linked.java`);
- a doubly-linked list with head and tail (`src/ListImpl_Double.java`);
- a singly-linked list behind a permanent sentinel node with a tail pointer, in
  two copies (`src/ListImpl_DummyHead.java` and
  `src/ListImpls/ListImpl_DummyHead.java`).

`ListSpec` (list_spec.dfy) states the interface on plain sequences:

- `InsertAt`, `Appended`, `ElementAt` and `RemoveAt` give the effect of each call;
- `Step` and `Run` give the effect of one call and of a series of calls.

An index-taking call that Java would answer with `IndexOutOfBoundsException` is
modelled as the result `OutOfBounds(index, size)`, and such a call changes nothing.

Each implementation is a Dafny class with the fields of its Java class, updated in
place by methods with the same loops. Each class has a ghost `Contents` sequence and
a `Valid()` invariant. The linked classes also keep a ghost `Nodes` sequence of the
chain's nodes and a `Repr` footprint. Every method is proved against the `ListSpec`
functions.

`ListConformance` (conformance.dfy) then proves that every class answers any series
of calls exactly as `ListSpec.Run` does. Any two implementations are therefore
indistinguishable through the interface.

Java's null references appear as `Option` values:

- an unused array slot holds `None`;
- the sentinel node's element is `None`;
- a null link is a Dafny `null`.

## Model

| member | source | states |
|---|---|---|
| ListSpec.InsertAt | src/List.java:4-12 | insertion succeeds exactly for 0 <= index <= size, otherwise fails with that index and size; on success the length grows by one, the new element is at `index`, earlier elements keep their places and later ones move one place right |
| ListSpec.Appended | src/List.java:14-20 | appending adds exactly one element, at the old size, and moves nothing else |
| ListSpec.ElementAt | src/List.java:22-29 | reading succeeds exactly for 0 <= index < size and yields the element there; otherwise fails with that index and size |
| ListSpec.RemoveAt | src/List.java:31-39 | removal succeeds exactly for 0 <= index < size; the length drops by one, earlier elements keep their places and later ones move one place left |
| ListSpec.AppendIsInsertAtSize | src/List.java:4-20 | `add(e)` has the same effect as `add(size, e)` |
| ListSpec.InsertThenRemove | src/List.java:4-39 | after inserting `e` at `i`, reading `i` yields `e` and removing `i` restores the original sequence |
| ListSpec.RemoveThenInsert | src/List.java:4-39 | removing position `i` and re-inserting the removed element there restores the original sequence |
| ListSpec.Boundaries | src/List.java:4-39 | reading or removing at `size` or at -1 fails; inserting at `size` succeeds and at `size + 1` fails |
| ListSpec.AppendAll | src/List.java:14-20 | appending n elements one by one lengthens the sequence by n |
| ListSpec.AppendAllKeepsOrder | src/List.java:14-20 | appending elements one by one places them after the existing elements in the order given |
| ListSpec.AppendedInOrder | src/List.java:14-29 | after appending `xs` to an empty list, `get(k)` yields `xs[k]` |
| ListSpec.Step | src/List.java:2-47 | a failed call leaves the sequence unchanged; `add(e)` always answers true; `get` and `size` never change the sequence |
| ListSpec.Run | src/List.java:2-47 | a series of calls yields exactly one reply per call |
| ListSpec.RunSize | src/List.java:2-47 | after a series of calls the size is the initial size plus the successful additions minus the successful removals |
| ListSpec.RunSnoc | src/List.java:2-47 | one more call extends a run by that call's effect and reply |
| ListSpec.ScenarioAdds | src/List.java:4-20 | add(A), add(B), add(1, C) on an empty list gives [A, C, B] |
| ListSpec.Scenario | src/List.java:2-47 | add(A), add(B), add(1, C), size(), remove(0), get(5) on an empty list answers true, true, done, 3, A, then out of bounds (5, 2), leaving [C, B] |
| ArrayListImpl.ArrayList.constructor | src/ListImpl_ArrayList.java:21-24 | a new list is empty with a buffer of capacity 10 |
| ArrayListImpl.ArrayList.GrowArray | src/ListImpl_ArrayList.java:26-31 | the buffer is replaced by a fresh one of twice the capacity, holding the first `size` slots unchanged and in order, with room for one more |
| ArrayListImpl.ArrayList.ShiftRight | src/ListImpl_ArrayList.java:49-51 | slots pos .. size-1 move one place right and every other slot keeps its value |
| ArrayListImpl.ArrayList.AddAt | src/ListImpl_ArrayList.java:42-54 | out-of-range `pos` fails with nothing changed; otherwise the contents become `InsertAt(old contents, pos, item)`; the buffer doubles exactly when it was full and is kept otherwise |
| ArrayListImpl.ArrayList.Add | src/ListImpl_ArrayList.java:64-70 | answers true and the contents become the old contents plus `item`; the buffer doubles exactly when it was full |
| ArrayListImpl.ArrayList.Get | src/ListImpl_ArrayList.java:79-84 | the answer is `ElementAt(contents, pos)`, and nothing changes |
| ArrayListImpl.ArrayList.Remove | src/ListImpl_ArrayList.java:94-107 | the answer is `ElementAt(old contents, pos)`; on success the contents become `RemoveAt(old contents, pos)` in the same buffer, with the freed slot cleared; on failure nothing changes |
| ArrayListImpl.ArrayList.Size | src/ListImpl_ArrayList.java:115-117 | the answer is the number of elements |
| ArrayListImpl.CapacityAfter | src/ListImpl_ArrayList.java:21-31 | the capacity after n appends to a new list is at least 10 and at least n, and stays 10 for the first ten |
| ArrayListImpl.CapacityAtMostDouble | src/ListImpl_ArrayList.java:26-31 | beyond ten elements, the capacity is less than twice the number of elements |
| ArrayListImpl.ElevenAppends | src/ListImpl_ArrayList.java:64-70 | ten appends keep capacity 10; the eleventh grows it once, to 20 |
| ArrayListImpl.FromElements | src/ListImpl_ArrayList.java:64-70 | appending `xs` to a new list leaves exactly `xs`, in order, in a buffer of capacity `CapacityAfter` of its length |
| PackagedArrayListImpl.Max | src/ListImpls/ListImpl_ArrayList.java:24 | the larger of two integers: at least both, and equal to one of them |
| PackagedArrayListImpl.ArrayList.constructor | src/ListImpls/ListImpl_ArrayList.java:17-20 | a new list is empty with a buffer of capacity 10 |
| PackagedArrayListImpl.ArrayList.GrowArray | src/ListImpls/ListImpl_ArrayList.java:23-29 | the buffer is replaced by a fresh one of capacity max(1, 2 × old capacity), holding the first `size` slots unchanged and in order, with room for one more |
| PackagedArrayListImpl.ArrayList.ShiftRight | src/ListImpls/ListImpl_ArrayList.java:38-40 | slots pos .. size-1 move one place right and every other slot keeps its value |
| PackagedArrayListImpl.ArrayList.AddAt | src/ListImpls/ListImpl_ArrayList.java:32-44 | out-of-range `pos` fails with nothing changed; otherwise the contents become `InsertAt(old contents, pos, item)`; the buffer grows to max(1, 2 × capacity) exactly when it was full |
| PackagedArrayListImpl.ArrayList.Add | src/ListImpls/ListImpl_ArrayList.java:47-53 | answers true and the contents become the old contents plus `item`; growth only when full |
| PackagedArrayListImpl.ArrayList.Get | src/ListImpls/ListImpl_ArrayList.java:56-61 | the answer is `ElementAt(contents, pos)`, and nothing changes |
| PackagedArrayListImpl.ArrayList.Remove | src/ListImpls/ListImpl_ArrayList.java:64-77 | the answer is `ElementAt(old contents, pos)`; on success the contents become `RemoveAt(old contents, pos)`; on failure nothing changes |
| PackagedArrayListImpl.ArrayList.Size | src/ListImpls/ListImpl_ArrayList.java:80-82 | the answer is the number of elements |
| LinkedImpl.Node.constructor | src/ListImpl_Linked.java:13-16 | a new node holds its value and has a null link |
| LinkedImpl.Linked.NodesDistinct | src/ListImpl_Linked.java:19-20 | the chain from `head` has no cycle: its `size` nodes are pairwise distinct |
| LinkedImpl.Linked.constructor | src/ListImpl_Linked.java:23-26 | a new list is empty, with a null head |
| LinkedImpl.Linked.Walk | src/ListImpl_Linked.java:44-50 | after `pos` steps, `prev` is the node at pos-1 (null for 0) and `cur` the node at `pos` (null at the end) |
| LinkedImpl.Linked.Splice | src/ListImpl_Linked.java:52-60 | the new node lands at `pos` in the chain and in the contents, and the chain stays well formed |
| LinkedImpl.Linked.AddAt | src/ListImpl_Linked.java:38-61 | out-of-range `pos` fails with nothing changed; otherwise the contents become `InsertAt(old contents, pos, item)` |
| LinkedImpl.Linked.Add | src/ListImpl_Linked.java:71-89 | answers true and the contents become the old contents plus `item` |
| LinkedImpl.Linked.Get | src/ListImpl_Linked.java:99-108 | the answer is `ElementAt(contents, pos)`, and nothing changes |
| LinkedImpl.Linked.Unlink | src/ListImpl_Linked.java:138-140 | the node at `pos` leaves the chain and the footprint, and its element leaves the contents |
| LinkedImpl.Linked.Remove | src/ListImpl_Linked.java:120-142 | the answer is `ElementAt(old contents, pos)`; on success the contents become `RemoveAt(old contents, pos)`; on failure nothing changes |
| LinkedImpl.Linked.Size | src/ListImpl_Linked.java:150-152 | the answer is the number of elements, which is the number of nodes |
| PackagedLinkedImpl.Linked.NodesDistinct | src/ListImpls/ListImpl_Linked.java:16-17 | the chain from `head` has no cycle: its `size` nodes are pairwise distinct |
| PackagedLinkedImpl.Linked.constructor | src/ListImpls/ListImpl_Linked.java:20-23 | a new list is empty, with a null head |
| PackagedLinkedImpl.Linked.LinkAfter | src/ListImpls/ListImpl_Linked.java:47-50 | the new node lands at `pos` after the node at pos-1; its link is null exactly when `pos == size` |
| PackagedLinkedImpl.Linked.AddAt | src/ListImpls/ListImpl_Linked.java:27-51 | out-of-range `pos` fails with nothing changed; otherwise, by the head branch or the walk to pos-1, the contents become `InsertAt(old contents, pos, item)` |
| PackagedLinkedImpl.Linked.Add | src/ListImpls/ListImpl_Linked.java:55-71 | answers true and the contents become the old contents plus `item` |
| PackagedLinkedImpl.Linked.Get | src/ListImpls/ListImpl_Linked.java:74-83 | the answer is `ElementAt(contents, pos)`, and nothing changes |
| PackagedLinkedImpl.Linked.Unlink | src/ListImpls/ListImpl_Linked.java:104-106 | the node at `pos` leaves the chain and the footprint, and its element leaves the contents |
| PackagedLinkedImpl.Linked.Remove | src/ListImpls/ListImpl_Linked.java:86-108 | the answer is `ElementAt(old contents, pos)`; on success the contents become `RemoveAt(old contents, pos)`; on failure nothing changes |
| PackagedLinkedImpl.Linked.Size | src/ListImpls/ListImpl_Linked.java:111-113 | the answer is the number of elements |
| DoubleLinkedImpl.Node.constructor | src/ListImpl_Double.java:13 | a new node holds its value and has null links both ways |
| DoubleLinkedImpl.DoubleLinked.NodesDistinct | src/ListImpl_Double.java:16-18 | the chain from `head` has no cycle: its `size` nodes are pairwise distinct |
| DoubleLinkedImpl.DoubleLinked.constructor | src/ListImpl_Double.java:21-25 | a new list is empty, with null head and tail |
| DoubleLinkedImpl.DoubleLinked.NodeAt | src/ListImpl_Double.java:28-38 | from either end, the node returned is the one at `index` |
| DoubleLinkedImpl.DoubleLinked.LinkFront | src/ListImpl_Double.java:65-79 | with no predecessor, the new node becomes the head before the old head, and forward and back links stay consistent |
| DoubleLinkedImpl.DoubleLinked.LinkBetween | src/ListImpl_Double.java:65-79 | the new node lands at `pos` between its two neighbours, and forward and back links stay consistent |
| DoubleLinkedImpl.DoubleLinked.AddAt | src/ListImpl_Double.java:51-80 | out-of-range `pos` fails with nothing changed; `pos == size` appends; otherwise the contents become `InsertAt(old contents, pos, item)` |
| DoubleLinkedImpl.DoubleLinked.LinkAfterTail | src/ListImpl_Double.java:94-98 | the new node is linked both ways after the tail and becomes the tail |
| DoubleLinkedImpl.DoubleLinked.Add | src/ListImpl_Double.java:90-101 | answers true and the contents become the old contents plus `item` |
| DoubleLinkedImpl.DoubleLinked.Get | src/ListImpl_Double.java:110-115 | the answer is `ElementAt(contents, pos)`, and nothing changes |
| DoubleLinkedImpl.DoubleLinked.Unlink | src/ListImpl_Double.java:160-168 | a middle node leaves the chain, its neighbours are linked to each other both ways, and its element leaves the contents |
| DoubleLinkedImpl.DoubleLinked.UnlinkFirst | src/ListImpl_Double.java:132-142 | the head leaves; the list is emptied (tail cleared) or the new head's back-link is cleared |
| DoubleLinkedImpl.DoubleLinked.UnlinkLast | src/ListImpl_Double.java:146-156 | the tail leaves; the new tail's forward link is cleared (or the list is emptied) |
| DoubleLinkedImpl.DoubleLinked.Remove | src/ListImpl_Double.java:126-170 | the answer is `ElementAt(old contents, pos)`; on success the contents become `RemoveAt(old contents, pos)`; on failure nothing changes |
| DoubleLinkedImpl.DoubleLinked.Size | src/ListImpl_Double.java:178-180 | the answer is the number of elements |
| DummyHeadImpl.Node.Sentinel | src/ListImpl_DummyHead.java:13 | the sentinel holds no element and has a null link |
| DummyHeadImpl.Node.constructor | src/ListImpl_DummyHead.java:14 | a new node holds its value and has a null link |
| DummyHeadImpl.DummyHead.NodesDistinct | src/ListImpl_DummyHead.java:17-19 | the chain from the sentinel has no cycle: its `size + 1` nodes are pairwise distinct |
| DummyHeadImpl.DummyHead.constructor | src/ListImpl_DummyHead.java:21-25 | a new list is empty and its tail is the sentinel |
| DummyHeadImpl.DummyHead.LinkAfterTail | src/ListImpl_DummyHead.java:46-51 | the new node is linked after the tail, becomes the tail, and its element is appended |
| DummyHeadImpl.DummyHead.Splice | src/ListImpl_DummyHead.java:61-66 | the new node lands at `pos` after its predecessor; the tail moves to it exactly when `pos == size` |
| DummyHeadImpl.DummyHead.AddAt | src/ListImpl_DummyHead.java:39-69 | out-of-range `pos` fails with nothing changed; otherwise the contents become `InsertAt(old contents, pos, item)` |
| DummyHeadImpl.DummyHead.Add | src/ListImpl_DummyHead.java:79-85 | answers true and the contents become the old contents plus `item` |
| DummyHeadImpl.DummyHead.Get | src/ListImpl_DummyHead.java:95-104 | the answer is `ElementAt(contents, pos)`, never the sentinel's empty element, and nothing changes |
| DummyHeadImpl.DummyHead.Unlink | src/ListImpl_DummyHead.java:125-132 | the node after the predecessor leaves the chain; the tail moves back to the predecessor exactly when the last node is removed |
| DummyHeadImpl.DummyHead.Remove | src/ListImpl_DummyHead.java:115-136 | the answer is `ElementAt(old contents, pos)`; on success the contents become `RemoveAt(old contents, pos)`; on failure nothing changes |
| DummyHeadImpl.DummyHead.Size | src/ListImpl_DummyHead.java:144-146 | the answer is the number of elements, one less than the number of nodes |
| PackagedDummyHeadImpl.DummyHead.NodesDistinct | src/ListImpls/ListImpl_DummyHead.java:14-16 | the chain from the sentinel has no cycle |
| PackagedDummyHeadImpl.DummyHead.constructor | src/ListImpls/ListImpl_DummyHead.java:19-23 | a new list is empty and its tail is the sentinel |
| PackagedDummyHeadImpl.DummyHead.LinkAfterTail | src/ListImpls/ListImpl_DummyHead.java:50-56 | the new node is linked after the tail, becomes the tail, and its element is appended |
| PackagedDummyHeadImpl.DummyHead.Splice | src/ListImpls/ListImpl_DummyHead.java:37-46 | the new node lands at `pos` after its predecessor; the tail moves to it exactly when the predecessor was the tail, that is when `pos == size` |
| PackagedDummyHeadImpl.DummyHead.AddAt | src/ListImpls/ListImpl_DummyHead.java:26-47 | out-of-range `pos` fails with nothing changed; otherwise the contents become `InsertAt(old contents, pos, item)` |
| PackagedDummyHeadImpl.DummyHead.Add | src/ListImpls/ListImpl_DummyHead.java:50-56 | answers true and the contents become the old contents plus `item` |
| PackagedDummyHeadImpl.DummyHead.Get | src/ListImpls/ListImpl_DummyHead.java:59-68 | the answer is `ElementAt(contents, pos)`, and nothing changes |
| PackagedDummyHeadImpl.DummyHead.Unlink | src/ListImpls/ListImpl_DummyHead.java:82-90 | the node after the predecessor leaves the chain; the tail moves back exactly when the last node is removed |
| PackagedDummyHeadImpl.DummyHead.Remove | src/ListImpls/ListImpl_DummyHead.java:71-94 | the answer is `ElementAt(old contents, pos)`; on success the contents become `RemoveAt(old contents, pos)`; on failure nothing changes |
| PackagedDummyHeadImpl.DummyHead.Size | src/ListImpls/ListImpl_DummyHead.java:97-99 | the answer is the number of elements |
| ListConformance.ApplyArrayList | src/ListImpl_ArrayList.java:8-118 | one call on the array list has exactly the effect and reply of `Step` |
| ListConformance.ReplayArrayList | src/ListImpl_ArrayList.java:8-118 | any series of calls on the array list has exactly the replies and final contents of `Run` |
| ListConformance.ApplyPackagedArrayList | src/ListImpls/ListImpl_ArrayList.java:4-83 | one call has exactly the effect and reply of `Step` |
| ListConformance.ReplayPackagedArrayList | src/ListImpls/ListImpl_ArrayList.java:4-83 | any series of calls has exactly the replies and final contents of `Run` |
| ListConformance.ApplyLinked | src/ListImpl_Linked.java:7-154 | one call has exactly the effect and reply of `Step` |
| ListConformance.ReplayLinked | src/ListImpl_Linked.java:7-154 | any series of calls has exactly the replies and final contents of `Run` |
| ListConformance.ApplyPackagedLinked | src/ListImpls/ListImpl_Linked.java:4-115 | one call has exactly the effect and reply of `Step` |
| ListConformance.ReplayPackagedLinked | src/ListImpls/ListImpl_Linked.java:4-115 | any series of calls has exactly the replies and final contents of `Run` |
| ListConformance.ApplyDoubleLinked | src/ListImpl_Double.java:6-181 | one call has exactly the effect and reply of `Step` |
| ListConformance.ReplayDoubleLinked | src/ListImpl_Double.java:6-181 | any series of calls has exactly the replies and final contents of `Run` |
| ListConformance.ApplyDummyHead | src/ListImpl_DummyHead.java:7-147 | one call has exactly the effect and reply of `Step` |
| ListConformance.ReplayDummyHead | src/ListImpl_DummyHead.java:7-147 | any series of calls has exactly the replies and final contents of `Run` |
| ListConformance.ApplyPackagedDummyHead | src/ListImpls/ListImpl_DummyHead.java:4-100 | one call has exactly the effect and reply of `Step` |
| ListConformance.ReplayPackagedDummyHead | src/ListImpls/ListImpl_DummyHead.java:4-100 | any series of calls has exactly the replies and final contents of `Run` |

Two details of the copies, as the code has them:

- Only the packaged array copy grows to max(1, 2 × capacity), at
  src/ListImpls/ListImpl_ArrayList.java:24. src/ListImpl_ArrayList.java:27 doubles
  without a minimum. The difference cannot be observed, because both copies start
  at capacity 10 and never shrink. The model of the unpackaged copy keeps
  `0 < capacity` as an invariant.
- In src/ListImpl_DummyHead.java:64-66, the `prev == tail` test in `add(pos, item)`
  never holds. The `pos == size` case has already returned at lines 46-51. The
  `Splice` contract shows this: the tail moves only when `pos == size`.

## Left out

- Java `int` arithmetic is modelled with unbounded integers. Overflow of `size`
  or of `2 * arr.length` past 2^31 - 1 is not modelled.
- Exceptions: `IndexOutOfBoundsException` objects and their message text are not
  modelled. The failure is the value `OutOfBounds(index, size)`.
- Node elements: `data` is a constant of each node. None of the classes ever
  assigns a node's `data` after construction.
- Performance:
  - constant and linear running times;
  - that `nodeAt` walks from the nearer end.

  Only the results of these operations are modelled. `NodeAt` does keep both walks
  and the `size / 2` choice between them.
- Garbage collection: removed nodes keep their links, as they do in Java. Nothing
  in the model depends on them after they leave `Repr`.
- In `add(pos, item)` of src/ListImpl_Double.java:56, the node allocated before
  the `pos == size` delegation is discarded. It is allocated in the model too, and
  it is never linked.
- src/MassiveMotion.java and src/Config.java are not part of this model:
  - the Swing panel, timer and painting;
  - the random spawning;
  - the floating-point motion;
  - the properties-file configuration.
