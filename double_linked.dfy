/** The doubly-linked list of src/ListImpl_Double.java: a chain of nodes from
    `head` to `tail`, each linked to the one after it and back to the one before
    it; the first back-link and the last forward link are null, and `head` and
    `tail` are null exactly when the list is empty. */
module DoubleLinkedImpl {
  import opened ListSpec

  /** A chain node with links both ways. Its element is fixed when the node is
      created: no operation ever stores into `data` again. */
  class Node<T> {
    const data: T
    var prev: Node?<T>
    var next: Node?<T>

    constructor (value: T)
      ensures data == value && prev == null && next == null
    {
      data := value;
      prev := null;
      next := null;
    }
  }

  class DoubleLinked<T> {
    var size: nat
    var head: Node?<T>
    var tail: Node?<T>
    /** The elements, in order. */
    ghost var Contents: seq<T>
    /** The nodes of the chain, in order from `head` to `tail`. */
    ghost var Nodes: seq<Node<T>>
    ghost var Repr: set<object>

    /** `head` and `tail` are the ends of a chain of exactly `size` nodes holding
        the elements in order, whose forward and backward links agree. */
    ghost predicate Valid()
      reads this, Repr
    {
      this in Repr &&
      (forall i :: 0 <= i < |Nodes| ==> Nodes[i] in Repr) &&
      |Nodes| == |Contents| == size &&
      head == (if size == 0 then null else Nodes[0]) &&
      tail == (if size == 0 then null else Nodes[size - 1]) &&
      (forall i :: 0 <= i < size ==> Nodes[i].data == Contents[i]) &&
      (forall i {:trigger Nodes[i].next} :: 0 <= i < size - 1 ==> Nodes[i].next == Nodes[i + 1]) &&
      (forall i {:trigger Nodes[i].prev} :: 0 < i < size ==> Nodes[i].prev == Nodes[i - 1]) &&
      (size > 0 ==> Nodes[0].prev == null && Nodes[size - 1].next == null)
    }

    /** The chain has no cycle: its `size` nodes are pairwise distinct objects. */
    lemma {:induction false} NodesDistinct(i: int, j: int)
      requires Valid() && 0 <= i < size && 0 <= j < size && i != j
      ensures Nodes[i] != Nodes[j]
      decreases size - (if i < j then i else j), if i < j then 0 else 1
    {
      if i > j {
        NodesDistinct(j, i);
      } else if j < size - 1 {
        assert Nodes[i].next == Nodes[i + 1] && Nodes[j].next == Nodes[j + 1];
        NodesDistinct(i + 1, j + 1);
      } else {
        assert Nodes[i].next == Nodes[i + 1];
      }
    }

    /** An empty list: no nodes, `head` and `tail` are null. */
    constructor ()
      ensures Valid() && fresh(Repr)
      ensures Contents == [] && head == null && tail == null
    {
      size := 0;
      head := null;
      tail := null;
      Contents := [];
      Nodes := [];
      Repr := {this};
    }

    /** `nodeAt(index)`: the node at `index`, reached by following forward links
        from `head` when `index` lies in the first half (below size / 2), and
        backward links from `tail` otherwise. */
    method NodeAt(index: int) returns (cur: Node<T>)
      requires Valid() && 0 <= index < size
      ensures cur == Nodes[index]
    {
      if index < size / 2 {
        cur := head;
        for i := 0 to index
          invariant cur == Nodes[i]
        {
          cur := cur.next;
        }
      } else {
        cur := tail;
        var i := size - 1;
        while i > index
          invariant index <= i < size && cur == Nodes[i]
        {
          cur := cur.prev;
          i := i - 1;
        }
      }
    }

    /** The splice of `add(pos, item)` at position 0 of a non-empty list: `n`
        is linked in before `nextNode`, the old head, and becomes the head. */
    method LinkFront(nextNode: Node<T>, n: Node<T>)
      requires Valid() && 0 < size && nextNode == Nodes[0] && n !in Repr
      modifies this, nextNode, n
      ensures Valid() && Repr == old(Repr) + {n}
      ensures Nodes == InsertAt(old(Nodes), 0, n).value
      ensures Contents == InsertAt(old(Contents), 0, n.data).value
    {
      ghost var nodes := Nodes;
      forall k | 0 < k < size
        ensures nodes[k] != nextNode
      {
        NodesDistinct(k, 0);
      }
      n.prev := null;
      n.next := nextNode;
      head := n;
      nextNode.prev := n;
      size := size + 1;
      Nodes := InsertAt(nodes, 0, n).value;
      Contents := InsertAt(Contents, 0, n.data).value;
      Repr := Repr + {n};
      forall i | 0 <= i < size - 1
        ensures Nodes[i].next == Nodes[i + 1]
      {
        if i > 0 {
          assert Nodes[i] == nodes[i - 1] && Nodes[i + 1] == nodes[i];
        }
      }
      forall i | 0 < i < size
        ensures Nodes[i].prev == Nodes[i - 1]
      {
        if i > 1 {
          assert Nodes[i] == nodes[i - 1] && Nodes[i - 1] == nodes[i - 2];
        }
      }
      forall i | 0 < i < size
        ensures Nodes[i] in Repr && Nodes[i].data == Contents[i]
      {
        assert Nodes[i] == nodes[i - 1];
      }
    }

    /** The splice of `add(pos, item)` after the head and before the end: `n` is
        linked in between `prevNode` and `nextNode`, the nodes at `pos - 1` and
        `pos`. */
    method LinkBetween(pos: int, prevNode: Node<T>, nextNode: Node<T>, n: Node<T>)
      requires Valid() && 0 < pos < size && n !in Repr
      requires prevNode == Nodes[pos - 1] && nextNode == Nodes[pos]
      modifies this, prevNode, nextNode, n
      ensures Valid() && Repr == old(Repr) + {n}
      ensures Nodes == InsertAt(old(Nodes), pos, n).value
      ensures Contents == InsertAt(old(Contents), pos, n.data).value
    {
      ghost var nodes := Nodes;
      forall k | 0 <= k < size
        ensures k != pos - 1 ==> nodes[k] != prevNode
        ensures k != pos ==> nodes[k] != nextNode
      {
        if k != pos - 1 {
          NodesDistinct(k, pos - 1);
        }
        if k != pos {
          NodesDistinct(k, pos);
        }
      }
      n.prev := prevNode;
      n.next := nextNode;
      prevNode.next := n;
      nextNode.prev := n;
      size := size + 1;
      Nodes := InsertAt(nodes, pos, n).value;
      Contents := InsertAt(Contents, pos, n.data).value;
      Repr := Repr + {n};
      forall i | 0 <= i < size - 1
        ensures Nodes[i].next == Nodes[i + 1]
      {
        if i < pos - 1 {
          assert Nodes[i] == nodes[i] && Nodes[i + 1] == nodes[i + 1];
        } else if i > pos {
          assert Nodes[i] == nodes[i - 1] && Nodes[i + 1] == nodes[i];
        }
      }
      forall i | 0 < i < size
        ensures Nodes[i].prev == Nodes[i - 1]
      {
        if i < pos {
          assert Nodes[i] == nodes[i] && Nodes[i - 1] == nodes[i - 1];
        } else if i > pos + 1 {
          assert Nodes[i] == nodes[i - 1] && Nodes[i - 1] == nodes[i - 2];
        }
      }
    }

    /** `add(pos, item)`: fails before any change when `pos` is out of 0 .. size;
        at `pos == size` it is `add(item)`; otherwise the new node is linked in
        before the node found by `nodeAt(pos)` and after that node's predecessor,
        becoming the head when there is none. */
    method AddAt(pos: int, item: T) returns (r: Result<()>)
      requires Valid()
      modifies Repr
      ensures Valid() && fresh(Repr - old(Repr))
      ensures r.Ok? == InsertAt(old(Contents), pos, item).Ok?
      ensures r.Ok? ==> Contents == InsertAt(old(Contents), pos, item).value
      ensures r.OutOfBounds? ==> r == OutOfBounds(pos, old(size)) && Repr == old(Repr) && unchanged(Repr)
    {
      if pos < 0 || pos > size {
        return OutOfBounds(pos, size);
      }
      var n := new Node(item);
      if pos == size {
        var _ := Add(item);
        AppendIsInsertAtSize(old(Contents), item);
        return Ok(());
      }
      var nextNode := NodeAt(pos);
      var prevNode := nextNode.prev;
      if prevNode == null {
        LinkFront(nextNode, n);
      } else {
        LinkBetween(pos, prevNode, nextNode, n);
      }
      r := Ok(());
    }

    /** The non-empty case of `add(item)`: `n` is linked after `tail`, back to it,
        and becomes the new `tail`. */
    method LinkAfterTail(n: Node<T>)
      requires Valid() && 0 < size && n !in Repr && n.next == null
      modifies this, tail, n
      ensures Valid() && Repr == old(Repr) + {n}
      ensures Nodes == Appended(old(Nodes), n)
      ensures Contents == Appended(old(Contents), n.data)
    {
      forall k | 0 <= k < size - 1
        ensures Nodes[k] != tail
      {
        NodesDistinct(k, size - 1);
      }
      n.prev := tail;
      tail.next := n;
      tail := n;
      size := size + 1;
      Nodes := Appended(Nodes, n);
      Contents := Appended(Contents, n.data);
      Repr := Repr + {n};
    }

    /** `add(item)`: the new node becomes both `head` and `tail` of an empty list,
        or is linked after `tail` and becomes the new `tail`; always answers true. */
    method Add(item: T) returns (b: bool)
      requires Valid()
      modifies Repr
      ensures Valid() && fresh(Repr - old(Repr))
      ensures b && Contents == Appended(old(Contents), item)
    {
      var n := new Node(item);
      if size == 0 {
        head := n;
        tail := n;
        size := size + 1;
        Nodes := [n];
        Contents := Appended(Contents, item);
        Repr := Repr + {n};
      } else {
        LinkAfterTail(n);
      }
      b := true;
    }

    /** `get(pos)`: the data of the node `nodeAt(pos)` finds, or the failure when
        `pos` is out of 0 .. size-1. */
    method Get(pos: int) returns (r: Result<T>)
      requires Valid()
      ensures r == ElementAt(Contents, pos)
    {
      if pos < 0 || pos >= size {
        return OutOfBounds(pos, size);
      }
      var node := NodeAt(pos);
      r := Ok(node.data);
    }

    /** The unlink of `remove(pos)` strictly between the ends: the nodes on either
        side of `target`, the node at `pos`, are linked to each other. */
    method Unlink(pos: int, target: Node<T>)
      requires Valid() && 0 < pos < size - 1 && target == Nodes[pos]
      modifies Repr
      ensures Valid() && Repr == old(Repr) - {target}
      ensures Nodes == RemoveAt(old(Nodes), pos).value
      ensures Contents == RemoveAt(old(Contents), pos).value
    {
      ghost var nodes := Nodes;
      var prevNode := target.prev;
      var nextNode := target.next;
      forall k | 0 <= k < size
        ensures k != pos - 1 ==> nodes[k] != prevNode
        ensures k != pos ==> nodes[k] != target
        ensures k != pos + 1 ==> nodes[k] != nextNode
      {
        if k != pos - 1 {
          NodesDistinct(k, pos - 1);
        }
        if k != pos {
          NodesDistinct(k, pos);
        }
        if k != pos + 1 {
          NodesDistinct(k, pos + 1);
        }
      }
      prevNode.next := nextNode;
      nextNode.prev := prevNode;
      size := size - 1;
      Nodes := RemoveAt(nodes, pos).value;
      Contents := RemoveAt(Contents, pos).value;
      Repr := Repr - {target};
      forall i | 0 <= i < size - 1
        ensures Nodes[i].next == Nodes[i + 1]
      {
        if i < pos - 1 {
          assert Nodes[i] == nodes[i] && Nodes[i + 1] == nodes[i + 1];
        } else if i >= pos {
          assert Nodes[i] == nodes[i + 1] && Nodes[i + 1] == nodes[i + 2];
        }
      }
      forall i | 0 < i < size
        ensures Nodes[i].prev == Nodes[i - 1]
      {
        if i < pos {
          assert Nodes[i] == nodes[i] && Nodes[i - 1] == nodes[i - 1];
        } else if i > pos {
          assert Nodes[i] == nodes[i + 1] && Nodes[i - 1] == nodes[i];
        }
      }
      forall i | 0 <= i < size
        ensures Nodes[i] in Repr && Nodes[i].data == Contents[i]
      {
        if i < pos {
          assert Nodes[i] == nodes[i];
        } else {
          assert Nodes[i] == nodes[i + 1];
        }
      }
    }

    /** The head case of `remove(pos)`: `head` moves to the second node; the list
        is then empty and `tail` is cleared too, or the new head's back-link is
        cleared. */
    method UnlinkFirst()
      requires Valid() && 0 < size
      modifies Repr
      ensures Valid() && Repr == old(Repr) - {old(head)}
      ensures Nodes == RemoveAt(old(Nodes), 0).value
      ensures Contents == RemoveAt(old(Contents), 0).value
    {
      ghost var nodes := Nodes;
      forall k | 0 <= k < size
        ensures k != 0 ==> nodes[k] != head
        ensures k != 1 && 1 < size ==> nodes[k] != nodes[1]
      {
        if k != 0 {
          NodesDistinct(k, 0);
        }
        if k != 1 && 1 < size {
          NodesDistinct(k, 1);
        }
      }
      var node := head;
      head := node.next;
      if head == null {
        tail := null;
      } else {
        head.prev := null;
      }
      size := size - 1;
      Nodes := RemoveAt(nodes, 0).value;
      Contents := RemoveAt(Contents, 0).value;
      Repr := Repr - {node};
      forall i | 0 <= i < size - 1
        ensures Nodes[i].next == Nodes[i + 1]
      {
        assert Nodes[i] == nodes[i + 1] && Nodes[i + 1] == nodes[i + 2];
      }
      forall i | 0 < i < size
        ensures Nodes[i].prev == Nodes[i - 1]
      {
        assert Nodes[i] == nodes[i + 1] && Nodes[i - 1] == nodes[i];
      }
      forall i | 0 <= i < size
        ensures Nodes[i] in Repr && Nodes[i].data == Contents[i]
      {
        assert Nodes[i] == nodes[i + 1];
      }
    }

    /** The tail case of `remove(pos)`: `tail` moves back to the node before it;
        the list is then empty and `head` is cleared too, or the new tail's forward
        link is cleared. */
    method UnlinkLast()
      requires Valid() && 0 < size
      modifies Repr
      ensures Valid() && Repr == old(Repr) - {old(tail)}
      ensures Nodes == RemoveAt(old(Nodes), old(size) - 1).value
      ensures Contents == RemoveAt(old(Contents), old(size) - 1).value
    {
      ghost var nodes := Nodes;
      forall k | 0 <= k < size
        ensures k != size - 1 ==> nodes[k] != tail
        ensures k != size - 2 && 1 < size ==> nodes[k] != nodes[size - 2]
      {
        if k != size - 1 {
          NodesDistinct(k, size - 1);
        }
        if k != size - 2 && 1 < size {
          NodesDistinct(k, size - 2);
        }
      }
      var node := tail;
      tail := node.prev;
      if tail == null {
        head := null;
      } else {
        tail.next := null;
      }
      size := size - 1;
      Nodes := RemoveAt(nodes, size).value;
      Contents := RemoveAt(Contents, size).value;
      Repr := Repr - {node};
      forall i | 0 <= i < size - 1
        ensures Nodes[i].next == Nodes[i + 1]
      {
        assert Nodes[i] == nodes[i] && Nodes[i + 1] == nodes[i + 1];
      }
      forall i | 0 < i < size
        ensures Nodes[i].prev == Nodes[i - 1]
      {
        assert Nodes[i] == nodes[i] && Nodes[i - 1] == nodes[i - 1];
      }
      forall i | 0 <= i < size
        ensures Nodes[i] in Repr && Nodes[i].data == Contents[i]
      {
        assert Nodes[i] == nodes[i];
      }
    }

    /** `remove(pos)`: fails before any change when `pos` is out of 0 .. size-1;
        position 0 moves `head` forward (emptying the list or clearing the new
        head's back-link), position size-1 moves `tail` back (clearing the new
        tail's forward link), and any other position unlinks the node `nodeAt(pos)`
        finds. Returns the removed node's data. */
    method Remove(pos: int) returns (r: Result<T>)
      requires Valid()
      modifies Repr
      ensures Valid() && Repr <= old(Repr)
      ensures r == ElementAt(old(Contents), pos)
      ensures r.Ok? ==> Contents == RemoveAt(old(Contents), pos).value
      ensures r.OutOfBounds? ==> Repr == old(Repr) && unchanged(Repr)
    {
      if pos < 0 || pos >= size {
        return OutOfBounds(pos, size);
      }
      if pos == 0 {
        var val := head.data;
        UnlinkFirst();
        return Ok(val);
      }
      if pos == size - 1 {
        var val := tail.data;
        UnlinkLast();
        return Ok(val);
      }
      var target := NodeAt(pos);
      var val := target.data;
      Unlink(pos, target);
      r := Ok(val);
    }

    /** `size()`: the number of elements, which is the number of nodes in the chain. */
    method Size() returns (n: nat)
      requires Valid()
      ensures n == |Contents| == |Nodes|
    {
      n := size;
    }
  }
}
