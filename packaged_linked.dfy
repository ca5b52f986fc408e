/** The singly-linked list of src/ListImpls/ListImpl_Linked.java. Its chain,
    `get`, `remove` and `size` are those of src/ListImpl_Linked.java; `add(pos, item)`
    treats position 0 on its own and otherwise walks to the node before `pos`, and
    `add(item)` treats the empty list on its own. */
module PackagedLinkedImpl {
  import opened ListSpec
  import L = LinkedImpl

  class Linked<T> {
    var size: nat
    var head: L.Node?<T>
    /** The elements, in order. */
    ghost var Contents: seq<T>
    /** The nodes of the chain, in order from `head`. */
    ghost var Nodes: seq<L.Node<T>>
    ghost var Repr: set<object>

    /** `head` starts a chain of exactly `size` nodes holding the elements in
        order, and the last node's link is null. */
    ghost predicate Valid()
      reads this, Repr
    {
      this in Repr &&
      (forall i :: 0 <= i < |Nodes| ==> Nodes[i] in Repr) &&
      |Nodes| == |Contents| == size &&
      head == (if size == 0 then null else Nodes[0]) &&
      (forall i :: 0 <= i < size ==> Nodes[i].data == Contents[i]) &&
      (forall i {:trigger Nodes[i].next} :: 0 <= i < size - 1 ==> Nodes[i].next == Nodes[i + 1]) &&
      (size > 0 ==> Nodes[size - 1].next == null)
    }

    /** The chain has no cycle: its `size` nodes are pairwise distinct objects. */
    lemma {:induction false} NodesDistinct(i: int, j: int)
      requires Valid() && 0 <= i < size && 0 <= j < size && i != j
      ensures Nodes[i] != Nodes[j]
      decreases size - (if i < j then i else j), if i < j then 0 else 1
    {
      if i > j {
        NodesDistinct(j, i);
      } else if j < size - 1 {
        assert Nodes[i].next == Nodes[i + 1] && Nodes[j].next == Nodes[j + 1];
        NodesDistinct(i + 1, j + 1);
      } else {
        assert Nodes[i].next == Nodes[i + 1];
      }
    }

    /** An empty list: no nodes, `head` is null. */
    constructor ()
      ensures Valid() && fresh(Repr)
      ensures Contents == [] && head == null
    {
      size := 0;
      head := null;
      Contents := [];
      Nodes := [];
      Repr := {this};
    }

    /** The link of `add(pos, item)` after the head: `n` is linked in after
        `prev`, the node before position `pos`, and before the node that followed it. */
    method LinkAfter(pos: int, prev: L.Node<T>, n: L.Node<T>)
      requires Valid() && 0 < pos <= size && prev == Nodes[pos - 1] && n !in Repr
      modifies this, prev, n
      ensures Valid() && Repr == old(Repr) + {n}
      ensures (n.next == null) == (pos == old(size))
      ensures Nodes == InsertAt(old(Nodes), pos, n).value
      ensures Contents == InsertAt(old(Contents), pos, n.data).value
    {
      ghost var nodes := Nodes;
      forall k | 0 <= k < size && k != pos - 1
        ensures nodes[k] != prev
      {
        NodesDistinct(k, pos - 1);
      }
      n.next := prev.next;
      prev.next := n;
      size := size + 1;
      Nodes := InsertAt(nodes, pos, n).value;
      Contents := InsertAt(Contents, pos, n.data).value;
      Repr := Repr + {n};
      forall i | 0 <= i < size - 1
        ensures Nodes[i].next == Nodes[i + 1]
      {
        if i < pos - 1 {
          assert Nodes[i] == nodes[i] && Nodes[i + 1] == nodes[i + 1];
        } else if i > pos {
          assert Nodes[i] == nodes[i - 1] && Nodes[i + 1] == nodes[i];
        }
      }
      forall i | 0 <= i < size
        ensures Nodes[i] in Repr && Nodes[i].data == Contents[i]
      {
        if i < pos {
          assert Nodes[i] == nodes[i];
        } else if i > pos {
          assert Nodes[i] == nodes[i - 1];
        }
      }
    }

    /** `add(pos, item)`: fails before any change when `pos` is out of 0 .. size;
        position 0 makes a new head in front of the old one; any other position
        walks `pos - 1` steps to the node before it and links the new node after
        that node. */
    method AddAt(pos: int, item: T) returns (r: Result<()>)
      requires Valid()
      modifies Repr
      ensures Valid() && fresh(Repr - old(Repr))
      ensures r.Ok? == InsertAt(old(Contents), pos, item).Ok?
      ensures r.Ok? ==> Contents == InsertAt(old(Contents), pos, item).value
      ensures r.OutOfBounds? ==> r == OutOfBounds(pos, old(size)) && Repr == old(Repr) && unchanged(Repr)
    {
      if pos < 0 || pos > size {
        return OutOfBounds(pos, size);
      }
      if pos == 0 {
        var n := new L.Node(item);
        n.next := head;
        head := n;
        size := size + 1;
        Nodes := InsertAt(Nodes, 0, n).value;
        Contents := InsertAt(Contents, 0, item).value;
        Repr := Repr + {n};
        return Ok(());
      }
      var prev := head;
      for i := 0 to pos - 1
        invariant prev == Nodes[i]
      {
        prev := prev.next;
      }
      var n := new L.Node(item);
      LinkAfter(pos, prev, n);
      r := Ok(());
    }

    /** `add(item)`: a new node becomes the head of an empty list; otherwise the
        walk follows links until the node whose link is null and links a new node
        after it. Always answers true. */
    method Add(item: T) returns (b: bool)
      requires Valid()
      modifies Repr
      ensures Valid() && fresh(Repr - old(Repr))
      ensures b && Contents == Appended(old(Contents), item)
    {
      if size == 0 {
        var n := new L.Node(item);
        head := n;
        size := size + 1;
        Nodes := [n];
        Contents := Appended(Contents, item);
        Repr := Repr + {n};
        return true;
      }
      var node := head;
      ghost var i := 0;
      while node.next != null
        invariant 0 <= i < size && node == Nodes[i]
        decreases size - i
      {
        node := node.next;
        i := i + 1;
      }
      forall k | 0 <= k < size - 1
        ensures Nodes[k] != node
      {
        NodesDistinct(k, size - 1);
      }
      var n := new L.Node(item);
      node.next := n;
      size := size + 1;
      Nodes := Nodes + [n];
      Contents := Appended(Contents, item);
      Repr := Repr + {n};
      b := true;
    }

    /** `get(pos)`: the data of the node `pos` steps from `head`, or the failure
        when `pos` is out of 0 .. size-1. */
    method Get(pos: int) returns (r: Result<T>)
      requires Valid()
      ensures r == ElementAt(Contents, pos)
    {
      if pos < 0 || pos >= size {
        return OutOfBounds(pos, size);
      }
      var cur := head;
      for i := 0 to pos
        invariant cur == Nodes[i]
      {
        cur := cur.next;
      }
      r := Ok(cur.data);
    }

    /** The unlink of `remove(pos)` for a position after the head: `target` is
        the node after `prev`, and `prev` is re-linked to the node after it. */
    method Unlink(pos: int, prev: L.Node<T>) returns (target: L.Node<T>)
      requires Valid() && 0 < pos < size && prev == Nodes[pos - 1]
      modifies this, prev
      ensures Valid() && Repr == old(Repr) - {target}
      ensures target == old(Nodes[pos])
      ensures Nodes == RemoveAt(old(Nodes), pos).value
      ensures Contents == RemoveAt(old(Contents), pos).value
    {
      ghost var nodes := Nodes;
      target := prev.next;
      forall k | 0 <= k < size
        ensures k != pos - 1 ==> nodes[k] != prev
        ensures k != pos ==> nodes[k] != target
      {
        if k != pos - 1 {
          NodesDistinct(k, pos - 1);
        }
        if k != pos {
          NodesDistinct(k, pos);
        }
      }
      prev.next := target.next;
      size := size - 1;
      Nodes := RemoveAt(nodes, pos).value;
      Contents := RemoveAt(Contents, pos).value;
      Repr := Repr - {target};
      forall i | 0 <= i < size - 1
        ensures Nodes[i].next == Nodes[i + 1]
      {
        if i < pos - 1 {
          assert Nodes[i] == nodes[i] && Nodes[i + 1] == nodes[i + 1];
        } else if i >= pos {
          assert Nodes[i] == nodes[i + 1] && Nodes[i + 1] == nodes[i + 2];
        }
      }
      forall i | 0 <= i < size
        ensures Nodes[i] in Repr && Nodes[i].data == Contents[i]
      {
        if i < pos {
          assert Nodes[i] == nodes[i];
        } else {
          assert Nodes[i] == nodes[i + 1];
        }
      }
    }

    /** `remove(pos)`: fails before any change when `pos` is out of 0 .. size-1;
        removing position 0 moves `head` to the second node, any other position
        re-links the node before the target past it. Returns the target's data. */
    method Remove(pos: int) returns (r: Result<T>)
      requires Valid()
      modifies Repr
      ensures Valid() && Repr <= old(Repr)
      ensures r == ElementAt(old(Contents), pos)
      ensures r.Ok? ==> Contents == RemoveAt(old(Contents), pos).value
      ensures r.OutOfBounds? ==> Repr == old(Repr) && unchanged(Repr)
    {
      if pos < 0 || pos >= size {
        return OutOfBounds(pos, size);
      }
      if pos == 0 {
        ghost var nodes := Nodes;
        forall k | 0 < k < size
          ensures nodes[k] != head
        {
          NodesDistinct(k, 0);
        }
        var node := head;
        head := head.next;
        size := size - 1;
        Nodes := nodes[1..];
        Contents := RemoveAt(Contents, 0).value;
        Repr := Repr - {node};
        return Ok(node.data);
      }
      var prev := head;
      for i := 0 to pos - 1
        invariant prev == Nodes[i]
      {
        prev := prev.next;
      }
      var target := Unlink(pos, prev);
      r := Ok(target.data);
    }

    /** `size()`: the number of elements, which is the number of nodes in the chain. */
    method Size() returns (n: nat)
      requires Valid()
      ensures n == |Contents| == |Nodes|
    {
      n := size;
    }
  }
}
