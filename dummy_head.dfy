/** The sentinel-headed list of src/ListImpl_DummyHead.java: a chain that always
    starts with the node `dummy`, which holds no element, followed by one node per
    element; `tail` is the last node of the chain, which is `dummy` itself when the
    list is empty, and its link is null. */
module DummyHeadImpl {
  import opened ListSpec

  /** A chain node. The sentinel holds no element (a null `data` in the source);
      every other node holds one. A node's element is fixed when it is created. */
  class Node<T> {
    const data: Option<T>
    var next: Node?<T>

    /** The sentinel: no element, no successor. */
    constructor Sentinel()
      ensures data == None && next == null
    {
      data := None;
      next := null;
    }

    constructor (value: T)
      ensures data == Some(value) && next == null
    {
      data := Some(value);
      next := null;
    }
  }

  class DummyHead<T> {
    var size: nat
    const dummy: Node<T>
    var tail: Node<T>
    /** The elements, in order. */
    ghost var Contents: seq<T>
    /** The nodes of the chain, in order: `dummy` first, then one per element. */
    ghost var Nodes: seq<Node<T>>
    ghost var Repr: set<object>

    /** The chain from `dummy` has `size` nodes after it, holding the elements in
        order; `tail` is its last node, whose link is null. */
    ghost predicate Valid()
      reads this, Repr
    {
      this in Repr &&
      (forall i :: 0 <= i < |Nodes| ==> Nodes[i] in Repr) &&
      |Nodes| == size + 1 && |Contents| == size &&
      Nodes[0] == dummy && dummy.data == None && tail == Nodes[size] &&
      (forall i :: 0 <= i < size ==> Nodes[i + 1].data == Some(Contents[i])) &&
      (forall i {:trigger Nodes[i].next} :: 0 <= i < size ==> Nodes[i].next == Nodes[i + 1]) &&
      Nodes[size].next == null
    }

    /** The chain has no cycle: its `size + 1` nodes are pairwise distinct objects. */
    lemma {:induction false} NodesDistinct(i: int, j: int)
      requires Valid() && 0 <= i <= size && 0 <= j <= size && i != j
      ensures Nodes[i] != Nodes[j]
      decreases size - (if i < j then i else j), if i < j then 0 else 1
    {
      if i > j {
        NodesDistinct(j, i);
      } else if j < size {
        assert Nodes[i].next == Nodes[i + 1] && Nodes[j].next == Nodes[j + 1];
        NodesDistinct(i + 1, j + 1);
      } else {
        assert Nodes[i].next == Nodes[i + 1];
      }
    }

    /** An empty list: a fresh sentinel, which is also the tail. */
    constructor ()
      ensures Valid() && fresh(Repr)
      ensures Contents == [] && tail == dummy
    {
      size := 0;
      var d := new Node.Sentinel();
      dummy := d;
      tail := d;
      Contents := [];
      Nodes := [d];
      Repr := {this, d};
    }

    /** The append of `add(item)` and of `add(size, item)`: `n` is linked after
        `tail` and becomes the new `tail`. */
    method LinkAfterTail(n: Node<T>)
      requires Valid() && n !in Repr && n.next == null && n.data.Some?
      modifies this, tail
      ensures Valid() && Repr == old(Repr) + {n}
      ensures Nodes == Appended(old(Nodes), n)
      ensures Contents == Appended(old(Contents), n.data.value)
    {
      forall k | 0 <= k < size
        ensures Nodes[k] != tail
      {
        NodesDistinct(k, size);
      }
      tail.next := n;
      tail := n;
      size := size + 1;
      Nodes := Appended(Nodes, n);
      Contents := Appended(Contents, n.data.value);
      Repr := Repr + {n};
    }

    /** The splice of `add(pos, item)`: `n` is linked in after `prev`, the node
        before position `pos` (the sentinel for position 0), and before `curr`,
        the node that followed it; when `prev` was the tail, `n` becomes the tail. */
    method Splice(pos: int, prev: Node<T>, curr: Node?<T>, n: Node<T>)
      requires Valid() && 0 <= pos <= size && n !in Repr && n.data.Some?
      requires prev == Nodes[pos] && curr == prev.next
      modifies this, prev, n
      ensures Valid() && Repr == old(Repr) + {n}
      ensures tail == if pos == old(size) then n else old(tail)
      ensures Nodes == InsertAt(old(Nodes), pos + 1, n).value
      ensures Contents == InsertAt(old(Contents), pos, n.data.value).value
    {
      ghost var nodes := Nodes;
      forall k | 0 <= k <= size && k != pos
        ensures nodes[k] != prev
      {
        NodesDistinct(k, pos);
      }
      n.next := curr;
      prev.next := n;
      if prev == tail {
        tail := n;
      }
      size := size + 1;
      Nodes := InsertAt(nodes, pos + 1, n).value;
      Contents := InsertAt(Contents, pos, n.data.value).value;
      Repr := Repr + {n};
      forall i | 0 <= i < size
        ensures Nodes[i].next == Nodes[i + 1]
      {
        if i < pos {
          assert Nodes[i] == nodes[i] && Nodes[i + 1] == nodes[i + 1];
        } else if i > pos + 1 {
          assert Nodes[i] == nodes[i - 1] && Nodes[i + 1] == nodes[i];
        }
      }
      forall i | 0 <= i < size
        ensures Nodes[i + 1].data == Some(Contents[i])
      {
        if i < pos {
          assert Nodes[i + 1] == nodes[i + 1];
        } else if i > pos {
          assert Nodes[i + 1] == nodes[i];
        }
      }
    }

    /** `add(pos, item)`: fails before any change when `pos` is out of 0 .. size;
        at `pos == size` the new node is linked after `tail`; otherwise the walk
        from the sentinel, `pos` steps with `prev` trailing `curr`, finds where to
        link it in. */
    method AddAt(pos: int, item: T) returns (r: Result<()>)
      requires Valid()
      modifies Repr
      ensures Valid() && fresh(Repr - old(Repr))
      ensures r.Ok? == InsertAt(old(Contents), pos, item).Ok?
      ensures r.Ok? ==> Contents == InsertAt(old(Contents), pos, item).value
      ensures r.OutOfBounds? ==> r == OutOfBounds(pos, old(size)) && Repr == old(Repr) && unchanged(Repr)
    {
      if pos < 0 || pos > size {
        return OutOfBounds(pos, size);
      }
      var n := new Node(item);
      if pos == size {
        LinkAfterTail(n);
        AppendIsInsertAtSize(old(Contents), item);
        return Ok(());
      }
      var prev := dummy;
      var curr := dummy.next;
      for i := 0 to pos
        invariant prev == Nodes[i] && curr == Nodes[i + 1]
      {
        prev := curr;
        curr := curr.next;
      }
      Splice(pos, prev, curr, n);
      r := Ok(());
    }

    /** `add(item)`: the new node is linked after `tail` and becomes the new
        `tail`; always answers true. */
    method Add(item: T) returns (b: bool)
      requires Valid()
      modifies Repr
      ensures Valid() && fresh(Repr - old(Repr))
      ensures b && Contents == Appended(old(Contents), item)
    {
      var n := new Node(item);
      LinkAfterTail(n);
      b := true;
    }

    /** `get(pos)`: the element of the node `pos` steps past the sentinel's
        successor, or the failure when `pos` is out of 0 .. size-1. */
    method Get(pos: int) returns (r: Result<T>)
      requires Valid()
      ensures r == ElementAt(Contents, pos)
    {
      if pos < 0 || pos >= size {
        return OutOfBounds(pos, size);
      }
      var cur := dummy.next;
      for i := 0 to pos
        invariant cur == Nodes[i + 1]
      {
        cur := cur.next;
      }
      assert cur.data == Some(Contents[pos]);
      r := Ok(cur.data.value);
    }

    /** The unlink of `remove(pos)`: `target`, the node after `prev`, is skipped
        by re-linking `prev` past it; when `target` was the tail, `prev` becomes the
        tail. */
    method Unlink(pos: int, prev: Node<T>) returns (target: Node<T>)
      requires Valid() && 0 <= pos < size && prev == Nodes[pos]
      modifies this, prev
      ensures Valid() && Repr == old(Repr) - {target}
      ensures target == old(Nodes[pos + 1]) && target.data == Some(old(Contents[pos]))
      ensures tail == if pos == old(size) - 1 then prev else old(tail)
      ensures Nodes == RemoveAt(old(Nodes), pos + 1).value
      ensures Contents == RemoveAt(old(Contents), pos).value
    {
      ghost var nodes := Nodes;
      target := prev.next;
      forall k | 0 <= k <= size
        ensures k != pos ==> nodes[k] != prev
        ensures k != pos + 1 ==> nodes[k] != target
      {
        if k != pos {
          NodesDistinct(k, pos);
        }
        if k != pos + 1 {
          NodesDistinct(k, pos + 1);
        }
      }
      prev.next := target.next;
      if target == tail {
        tail := prev;
      }
      size := size - 1;
      Nodes := RemoveAt(nodes, pos + 1).value;
      Contents := RemoveAt(Contents, pos).value;
      Repr := Repr - {target};
      forall i | 0 <= i < size
        ensures Nodes[i].next == Nodes[i + 1]
      {
        if i < pos {
          assert Nodes[i] == nodes[i] && Nodes[i + 1] == nodes[i + 1];
        } else if i > pos {
          assert Nodes[i] == nodes[i + 1] && Nodes[i + 1] == nodes[i + 2];
        }
      }
      forall i | 0 <= i < size
        ensures Nodes[i + 1].data == Some(Contents[i])
      {
        if i < pos {
          assert Nodes[i + 1] == nodes[i + 1];
        } else {
          assert Nodes[i + 1] == nodes[i + 2];
        }
      }
    }

    /** `remove(pos)`: fails before any change when `pos` is out of 0 .. size-1;
        otherwise walks `pos` steps from the sentinel to the node before the
        target and unlinks the target. Returns the target's element. */
    method Remove(pos: int) returns (r: Result<T>)
      requires Valid()
      modifies Repr
      ensures Valid() && Repr <= old(Repr)
      ensures r == ElementAt(old(Contents), pos)
      ensures r.Ok? ==> Contents == RemoveAt(old(Contents), pos).value
      ensures r.OutOfBounds? ==> Repr == old(Repr) && unchanged(Repr)
    {
      if pos < 0 || pos >= size {
        return OutOfBounds(pos, size);
      }
      var prev := dummy;
      for i := 0 to pos
        invariant prev == Nodes[i]
      {
        prev := prev.next;
      }
      var target := Unlink(pos, prev);
      r := Ok(target.data.value);
    }

    /** `size()`: the number of elements, which is the number of nodes after the
        sentinel. */
    method Size() returns (n: nat)
      requires Valid()
      ensures n == |Contents| == |Nodes| - 1
    {
      n := size;
    }
  }
}
