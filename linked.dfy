/** The singly-linked list of src/ListImpl_Linked.java: a chain of nodes from
    `head`, each holding one element and a link to the next; the last link is null
    and `head` is null exactly when the list is empty. */
module LinkedImpl {
  import opened ListSpec

  /** A chain node. Its element is fixed when the node is created: no operation
      ever stores into `data` again, so it is a constant here. */
  class Node<T> {
    const data: T
    var next: Node?<T>

    constructor (value: T)
      ensures data == value && next == null
    {
      data := value;
      next := null;
    }
  }

  class Linked<T> {
    var size: nat
    var head: Node?<T>
    /** The elements, in order. */
    ghost var Contents: seq<T>
    /** The nodes of the chain, in order from `head`. */
    ghost var Nodes: seq<Node<T>>
    ghost var Repr: set<object>

    /** `head` starts a chain of exactly `size` nodes holding the elements in
        order, and the last node's link is null. */
    ghost predicate Valid()
      reads this, Repr
    {
      this in Repr &&
      (forall i :: 0 <= i < |Nodes| ==> Nodes[i] in Repr) &&
      |Nodes| == |Contents| == size &&
      head == (if size == 0 then null else Nodes[0]) &&
      (forall i :: 0 <= i < size ==> Nodes[i].data == Contents[i]) &&
      (forall i {:trigger Nodes[i].next} :: 0 <= i < size - 1 ==> Nodes[i].next == Nodes[i + 1]) &&
      (size > 0 ==> Nodes[size - 1].next == null)
    }

    /** The chain has no cycle: its `size` nodes are pairwise distinct objects. */
    lemma {:induction false} NodesDistinct(i: int, j: int)
      requires Valid() && 0 <= i < size && 0 <= j < size && i != j
      ensures Nodes[i] != Nodes[j]
      decreases size - (if i < j then i else j), if i < j then 0 else 1
    {
      if i > j {
        NodesDistinct(j, i);
      } else if j < size - 1 {
        assert Nodes[i].next == Nodes[i + 1] && Nodes[j].next == Nodes[j + 1];
        NodesDistinct(i + 1, j + 1);
      } else {
        assert Nodes[i].next == Nodes[i + 1];
      }
    }

    /** An empty list: no nodes, `head` is null. */
    constructor ()
      ensures Valid() && fresh(Repr)
      ensures Contents == [] && head == null
    {
      size := 0;
      head := null;
      Contents := [];
      Nodes := [];
      Repr := {this};
    }

    /** The walk of `add(pos, item)`: `pos` steps from `head`, with `prev`
        trailing `cur`; `prev` ends at the node before position `pos` and `cur`
        at the node at `pos`, each null where there is none. */
    method Walk(pos: int) returns (prev: Node?<T>, cur: Node?<T>)
      requires Valid() && 0 <= pos <= size
      ensures prev == if pos == 0 then null else Nodes[pos - 1]
      ensures cur == if pos < size then Nodes[pos] else null
    {
      prev := null;
      cur := head;
      for i := 0 to pos
        invariant prev == if i == 0 then null else Nodes[i - 1]
        invariant cur == if i < size then Nodes[i] else null
      {
        prev := cur;
        cur := cur.next;
      }
    }

    /** The splice of `add(pos, item)`: links `n` before `cur` and after `prev`,
        or makes it the head when there is no `prev`. */
    method Splice(pos: int, prev: Node?<T>, n: Node<T>, cur: Node?<T>)
      requires Valid() && 0 <= pos <= size && n !in Repr
      requires prev == if pos == 0 then null else Nodes[pos - 1]
      requires cur == if pos < size then Nodes[pos] else null
      modifies this, n, prev
      ensures Valid() && Repr == old(Repr) + {n}
      ensures Nodes == InsertAt(old(Nodes), pos, n).value
      ensures Contents == InsertAt(old(Contents), pos, n.data).value
    {
      ghost var nodes := Nodes;
      forall k | 0 <= k < size && k != pos - 1
        ensures nodes[k] != prev
      {
        if pos > 0 {
          NodesDistinct(k, pos - 1);
        }
      }
      n.next := cur;
      if prev == null {
        head := n;
      } else {
        prev.next := n;
      }
      size := size + 1;
      Nodes := InsertAt(nodes, pos, n).value;
      Contents := InsertAt(Contents, pos, n.data).value;
      Repr := Repr + {n};
      forall i | 0 <= i < size - 1
        ensures Nodes[i].next == Nodes[i + 1]
      {
        if i < pos - 1 {
          assert Nodes[i] == nodes[i] && Nodes[i + 1] == nodes[i + 1];
        } else if i > pos {
          assert Nodes[i] == nodes[i - 1] && Nodes[i + 1] == nodes[i];
        }
      }
      forall i | 0 <= i < size
        ensures Nodes[i] in Repr && Nodes[i].data == Contents[i]
      {
        if i < pos {
          assert Nodes[i] == nodes[i];
        } else if i > pos {
          assert Nodes[i] == nodes[i - 1];
        }
      }
    }

    /** `add(pos, item)`: fails before any change when `pos` is out of 0 .. size;
        otherwise walks `pos` steps with `prev` trailing `cur` and splices the new
        node between them, making it the head when there is no `prev`. */
    method AddAt(pos: int, item: T) returns (r: Result<()>)
      requires Valid()
      modifies Repr
      ensures Valid() && fresh(Repr - old(Repr))
      ensures r.Ok? == InsertAt(old(Contents), pos, item).Ok?
      ensures r.Ok? ==> Contents == InsertAt(old(Contents), pos, item).value
      ensures r.OutOfBounds? ==> r == OutOfBounds(pos, old(size)) && Repr == old(Repr) && unchanged(Repr)
    {
      if pos < 0 || pos > size {
        return OutOfBounds(pos, size);
      }
      var n := new Node(item);
      var prev, cur := Walk(pos);
      Splice(pos, prev, n, cur);
      r := Ok(());
    }

    /** `add(item)`: the new node becomes the head of an empty list, or is linked
        after the node whose link is null; always answers true. */
    method Add(item: T) returns (b: bool)
      requires Valid()
      modifies Repr
      ensures Valid() && fresh(Repr - old(Repr))
      ensures b && Contents == Appended(old(Contents), item)
    {
      var n := new Node(item);
      if size == 0 {
        head := n;
      } else {
        var cur := head;
        ghost var i := 0;
        while cur.next != null
          invariant 0 <= i < size && cur == Nodes[i]
          decreases size - i
        {
          cur := cur.next;
          i := i + 1;
        }
        forall k | 0 <= k < size - 1
          ensures Nodes[k] != cur
        {
          NodesDistinct(k, size - 1);
        }
        cur.next := n;
      }
      size := size + 1;
      Nodes := Nodes + [n];
      Contents := Appended(Contents, item);
      Repr := Repr + {n};
      b := true;
    }

    /** `get(pos)`: the data of the node `pos` steps from `head`, or the failure
        when `pos` is out of 0 .. size-1. */
    method Get(pos: int) returns (r: Result<T>)
      requires Valid()
      ensures r == ElementAt(Contents, pos)
    {
      if pos < 0 || pos >= size {
        return OutOfBounds(pos, size);
      }
      var cur := head;
      for i := 0 to pos
        invariant cur == Nodes[i]
      {
        cur := cur.next;
      }
      r := Ok(cur.data);
    }

    /** The unlink of `remove(pos)` for a position after the head: `target` is
        the node after `prev`, and `prev` is re-linked to the node after it. */
    method Unlink(pos: int, prev: Node<T>) returns (target: Node<T>)
      requires Valid() && 0 < pos < size && prev == Nodes[pos - 1]
      modifies this, prev
      ensures Valid() && Repr == old(Repr) - {target}
      ensures target == old(Nodes[pos])
      ensures Nodes == RemoveAt(old(Nodes), pos).value
      ensures Contents == RemoveAt(old(Contents), pos).value
    {
      ghost var nodes := Nodes;
      target := prev.next;
      forall k | 0 <= k < size
        ensures k != pos - 1 ==> nodes[k] != prev
        ensures k != pos ==> nodes[k] != target
      {
        if k != pos - 1 {
          NodesDistinct(k, pos - 1);
        }
        if k != pos {
          NodesDistinct(k, pos);
        }
      }
      prev.next := target.next;
      size := size - 1;
      Nodes := RemoveAt(nodes, pos).value;
      Contents := RemoveAt(Contents, pos).value;
      Repr := Repr - {target};
      forall i | 0 <= i < size - 1
        ensures Nodes[i].next == Nodes[i + 1]
      {
        if i < pos - 1 {
          assert Nodes[i] == nodes[i] && Nodes[i + 1] == nodes[i + 1];
        } else if i >= pos {
          assert Nodes[i] == nodes[i + 1] && Nodes[i + 1] == nodes[i + 2];
        }
      }
      forall i | 0 <= i < size
        ensures Nodes[i] in Repr && Nodes[i].data == Contents[i]
      {
        if i < pos {
          assert Nodes[i] == nodes[i];
        } else {
          assert Nodes[i] == nodes[i + 1];
        }
      }
    }

    /** `remove(pos)`: fails before any change when `pos` is out of 0 .. size-1;
        removing position 0 moves `head` to the second node, any other position
        re-links the node before the target past it. Returns the target's data. */
    method Remove(pos: int) returns (r: Result<T>)
      requires Valid()
      modifies Repr
      ensures Valid() && Repr <= old(Repr)
      ensures r == ElementAt(old(Contents), pos)
      ensures r.Ok? ==> Contents == RemoveAt(old(Contents), pos).value
      ensures r.OutOfBounds? ==> Repr == old(Repr) && unchanged(Repr)
    {
      if pos < 0 || pos >= size {
        return OutOfBounds(pos, size);
      }
      if pos == 0 {
        ghost var nodes := Nodes;
        forall k | 0 < k < size
          ensures nodes[k] != head
        {
          NodesDistinct(k, 0);
        }
        var node := head;
        head := head.next;
        size := size - 1;
        Nodes := nodes[1..];
        Contents := RemoveAt(Contents, 0).value;
        Repr := Repr - {node};
        return Ok(node.data);
      }
      var prev := head;
      for i := 0 to pos - 1
        invariant prev == Nodes[i]
      {
        prev := prev.next;
      }
      var target := Unlink(pos, prev);
      r := Ok(target.data);
    }

    /** `size()`: the number of elements, which is the number of nodes in the chain. */
    method Size() returns (n: nat)
      requires Valid()
      ensures n == |Contents| == |Nodes|
    {
      n := size;
    }
  }
}
