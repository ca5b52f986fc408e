/** Every implementation of the `List<T>` interface (src/List.java) answers any
    series of calls exactly as the sequence model of ListSpec does: the same
    replies, in order, and the same final elements. Each implementation gets a
    dispatcher that performs one call and a replay of a whole series. */
module ListConformance {
  import opened ListSpec
  import ArrayListImpl
  import PackagedArrayListImpl
  import LinkedImpl
  import PackagedLinkedImpl
  import DoubleLinkedImpl
  import DummyHeadImpl
  import PackagedDummyHeadImpl

  /** One call on the list of src/ListImpl_ArrayList.java, with its reply. */
  method ApplyArrayList<T>(l: ArrayListImpl.ArrayList<T>, op: Op<T>) returns (reply: Reply<T>)
    requires l.Valid()
    modifies l.Repr
    ensures l.Valid() && fresh(l.Repr - old(l.Repr))
    ensures (l.Contents, reply) == Step(old(l.Contents), op)
  {
    match op
    case AddAtOp(i, x) =>
      var r := l.AddAt(i, x);
      reply := if r.Ok? then Done else Failed(r.index, r.size);
    case AddOp(x) =>
      var b := l.Add(x);
      reply := Added(b);
    case GetOp(i) =>
      var r := l.Get(i);
      reply := if r.Ok? then Element(r.value) else Failed(r.index, r.size);
    case RemoveOp(i) =>
      var r := l.Remove(i);
      reply := if r.Ok? then Element(r.value) else Failed(r.index, r.size);
    case SizeOp =>
      var k := l.Size();
      reply := Length(k);
  }

  /** A series of calls on the list of src/ListImpl_ArrayList.java: the replies and the final
      elements are those of the sequence model. */
  method ReplayArrayList<T>(l: ArrayListImpl.ArrayList<T>, ops: seq<Op<T>>) returns (replies: seq<Reply<T>>)
    requires l.Valid()
    modifies l.Repr
    ensures l.Valid() && fresh(l.Repr - old(l.Repr))
    ensures (l.Contents, replies) == Run(old(l.Contents), ops)
  {
    replies := [];
    for i := 0 to |ops|
      invariant l.Valid() && fresh(l.Repr - old(l.Repr))
      invariant (l.Contents, replies) == Run(old(l.Contents), ops[..i])
    {
      var reply := ApplyArrayList(l, ops[i]);
      RunSnoc(old(l.Contents), ops[..i], ops[i]);
      assert ops[..i + 1] == ops[..i] + [ops[i]];
      replies := replies + [reply];
    }
    assert ops[..|ops|] == ops;
  }

  /** One call on the list of src/ListImpls/ListImpl_ArrayList.java, with its reply. */
  method ApplyPackagedArrayList<T>(l: PackagedArrayListImpl.ArrayList<T>, op: Op<T>) returns (reply: Reply<T>)
    requires l.Valid()
    modifies l.Repr
    ensures l.Valid() && fresh(l.Repr - old(l.Repr))
    ensures (l.Contents, reply) == Step(old(l.Contents), op)
  {
    match op
    case AddAtOp(i, x) =>
      var r := l.AddAt(i, x);
      reply := if r.Ok? then Done else Failed(r.index, r.size);
    case AddOp(x) =>
      var b := l.Add(x);
      reply := Added(b);
    case GetOp(i) =>
      var r := l.Get(i);
      reply := if r.Ok? then Element(r.value) else Failed(r.index, r.size);
    case RemoveOp(i) =>
      var r := l.Remove(i);
      reply := if r.Ok? then Element(r.value) else Failed(r.index, r.size);
    case SizeOp =>
      var k := l.Size();
      reply := Length(k);
  }

  /** A series of calls on the list of src/ListImpls/ListImpl_ArrayList.java: the replies and the final
      elements are those of the sequence model. */
  method ReplayPackagedArrayList<T>(l: PackagedArrayListImpl.ArrayList<T>, ops: seq<Op<T>>) returns (replies: seq<Reply<T>>)
    requires l.Valid()
    modifies l.Repr
    ensures l.Valid() && fresh(l.Repr - old(l.Repr))
    ensures (l.Contents, replies) == Run(old(l.Contents), ops)
  {
    replies := [];
    for i := 0 to |ops|
      invariant l.Valid() && fresh(l.Repr - old(l.Repr))
      invariant (l.Contents, replies) == Run(old(l.Contents), ops[..i])
    {
      var reply := ApplyPackagedArrayList(l, ops[i]);
      RunSnoc(old(l.Contents), ops[..i], ops[i]);
      assert ops[..i + 1] == ops[..i] + [ops[i]];
      replies := replies + [reply];
    }
    assert ops[..|ops|] == ops;
  }

  /** One call on the list of src/ListImpl_Linked.java, with its reply. */
  method ApplyLinked<T>(l: LinkedImpl.Linked<T>, op: Op<T>) returns (reply: Reply<T>)
    requires l.Valid()
    modifies l.Repr
    ensures l.Valid() && fresh(l.Repr - old(l.Repr))
    ensures (l.Contents, reply) == Step(old(l.Contents), op)
  {
    match op
    case AddAtOp(i, x) =>
      var r := l.AddAt(i, x);
      reply := if r.Ok? then Done else Failed(r.index, r.size);
    case AddOp(x) =>
      var b := l.Add(x);
      reply := Added(b);
    case GetOp(i) =>
      var r := l.Get(i);
      reply := if r.Ok? then Element(r.value) else Failed(r.index, r.size);
    case RemoveOp(i) =>
      var r := l.Remove(i);
      reply := if r.Ok? then Element(r.value) else Failed(r.index, r.size);
    case SizeOp =>
      var k := l.Size();
      reply := Length(k);
  }

  /** A series of calls on the list of src/ListImpl_Linked.java: the replies and the final
      elements are those of the sequence model. */
  method ReplayLinked<T>(l: LinkedImpl.Linked<T>, ops: seq<Op<T>>) returns (replies: seq<Reply<T>>)
    requires l.Valid()
    modifies l.Repr
    ensures l.Valid() && fresh(l.Repr - old(l.Repr))
    ensures (l.Contents, replies) == Run(old(l.Contents), ops)
  {
    replies := [];
    for i := 0 to |ops|
      invariant l.Valid() && fresh(l.Repr - old(l.Repr))
      invariant (l.Contents, replies) == Run(old(l.Contents), ops[..i])
    {
      var reply := ApplyLinked(l, ops[i]);
      RunSnoc(old(l.Contents), ops[..i], ops[i]);
      assert ops[..i + 1] == ops[..i] + [ops[i]];
      replies := replies + [reply];
    }
    assert ops[..|ops|] == ops;
  }

  /** One call on the list of src/ListImpls/ListImpl_Linked.java, with its reply. */
  method ApplyPackagedLinked<T>(l: PackagedLinkedImpl.Linked<T>, op: Op<T>) returns (reply: Reply<T>)
    requires l.Valid()
    modifies l.Repr
    ensures l.Valid() && fresh(l.Repr - old(l.Repr))
    ensures (l.Contents, reply) == Step(old(l.Contents), op)
  {
    match op
    case AddAtOp(i, x) =>
      var r := l.AddAt(i, x);
      reply := if r.Ok? then Done else Failed(r.index, r.size);
    case AddOp(x) =>
      var b := l.Add(x);
      reply := Added(b);
    case GetOp(i) =>
      var r := l.Get(i);
      reply := if r.Ok? then Element(r.value) else Failed(r.index, r.size);
    case RemoveOp(i) =>
      var r := l.Remove(i);
      reply := if r.Ok? then Element(r.value) else Failed(r.index, r.size);
    case SizeOp =>
      var k := l.Size();
      reply := Length(k);
  }

  /** A series of calls on the list of src/ListImpls/ListImpl_Linked.java: the replies and the final
      elements are those of the sequence model. */
  method ReplayPackagedLinked<T>(l: PackagedLinkedImpl.Linked<T>, ops: seq<Op<T>>) returns (replies: seq<Reply<T>>)
    requires l.Valid()
    modifies l.Repr
    ensures l.Valid() && fresh(l.Repr - old(l.Repr))
    ensures (l.Contents, replies) == Run(old(l.Contents), ops)
  {
    replies := [];
    for i := 0 to |ops|
      invariant l.Valid() && fresh(l.Repr - old(l.Repr))
      invariant (l.Contents, replies) == Run(old(l.Contents), ops[..i])
    {
      var reply := ApplyPackagedLinked(l, ops[i]);
      RunSnoc(old(l.Contents), ops[..i], ops[i]);
      assert ops[..i + 1] == ops[..i] + [ops[i]];
      replies := replies + [reply];
    }
    assert ops[..|ops|] == ops;
  }

  /** One call on the list of src/ListImpl_Double.java, with its reply. */
  method ApplyDoubleLinked<T>(l: DoubleLinkedImpl.DoubleLinked<T>, op: Op<T>) returns (reply: Reply<T>)
    requires l.Valid()
    modifies l.Repr
    ensures l.Valid() && fresh(l.Repr - old(l.Repr))
    ensures (l.Contents, reply) == Step(old(l.Contents), op)
  {
    match op
    case AddAtOp(i, x) =>
      var r := l.AddAt(i, x);
      reply := if r.Ok? then Done else Failed(r.index, r.size);
    case AddOp(x) =>
      var b := l.Add(x);
      reply := Added(b);
    case GetOp(i) =>
      var r := l.Get(i);
      reply := if r.Ok? then Element(r.value) else Failed(r.index, r.size);
    case RemoveOp(i) =>
      var r := l.Remove(i);
      reply := if r.Ok? then Element(r.value) else Failed(r.index, r.size);
    case SizeOp =>
      var k := l.Size();
      reply := Length(k);
  }

  /** A series of calls on the list of src/ListImpl_Double.java: the replies and the final
      elements are those of the sequence model. */
  method ReplayDoubleLinked<T>(l: DoubleLinkedImpl.DoubleLinked<T>, ops: seq<Op<T>>) returns (replies: seq<Reply<T>>)
    requires l.Valid()
    modifies l.Repr
    ensures l.Valid() && fresh(l.Repr - old(l.Repr))
    ensures (l.Contents, replies) == Run(old(l.Contents), ops)
  {
    replies := [];
    for i := 0 to |ops|
      invariant l.Valid() && fresh(l.Repr - old(l.Repr))
      invariant (l.Contents, replies) == Run(old(l.Contents), ops[..i])
    {
      var reply := ApplyDoubleLinked(l, ops[i]);
      RunSnoc(old(l.Contents), ops[..i], ops[i]);
      assert ops[..i + 1] == ops[..i] + [ops[i]];
      replies := replies + [reply];
    }
    assert ops[..|ops|] == ops;
  }

  /** One call on the list of src/ListImpl_DummyHead.java, with its reply. */
  method ApplyDummyHead<T>(l: DummyHeadImpl.DummyHead<T>, op: Op<T>) returns (reply: Reply<T>)
    requires l.Valid()
    modifies l.Repr
    ensures l.Valid() && fresh(l.Repr - old(l.Repr))
    ensures (l.Contents, reply) == Step(old(l.Contents), op)
  {
    match op
    case AddAtOp(i, x) =>
      var r := l.AddAt(i, x);
      reply := if r.Ok? then Done else Failed(r.index, r.size);
    case AddOp(x) =>
      var b := l.Add(x);
      reply := Added(b);
    case GetOp(i) =>
      var r := l.Get(i);
      reply := if r.Ok? then Element(r.value) else Failed(r.index, r.size);
    case RemoveOp(i) =>
      var r := l.Remove(i);
      reply := if r.Ok? then Element(r.value) else Failed(r.index, r.size);
    case SizeOp =>
      var k := l.Size();
      reply := Length(k);
  }

  /** A series of calls on the list of src/ListImpl_DummyHead.java: the replies and the final
      elements are those of the sequence model. */
  method ReplayDummyHead<T>(l: DummyHeadImpl.DummyHead<T>, ops: seq<Op<T>>) returns (replies: seq<Reply<T>>)
    requires l.Valid()
    modifies l.Repr
    ensures l.Valid() && fresh(l.Repr - old(l.Repr))
    ensures (l.Contents, replies) == Run(old(l.Contents), ops)
  {
    replies := [];
    for i := 0 to |ops|
      invariant l.Valid() && fresh(l.Repr - old(l.Repr))
      invariant (l.Contents, replies) == Run(old(l.Contents), ops[..i])
    {
      var reply := ApplyDummyHead(l, ops[i]);
      RunSnoc(old(l.Contents), ops[..i], ops[i]);
      assert ops[..i + 1] == ops[..i] + [ops[i]];
      replies := replies + [reply];
    }
    assert ops[..|ops|] == ops;
  }

  /** One call on the list of src/ListImpls/ListImpl_DummyHead.java, with its reply. */
  method ApplyPackagedDummyHead<T>(l: PackagedDummyHeadImpl.DummyHead<T>, op: Op<T>) returns (reply: Reply<T>)
    requires l.Valid()
    modifies l.Repr
    ensures l.Valid() && fresh(l.Repr - old(l.Repr))
    ensures (l.Contents, reply) == Step(old(l.Contents), op)
  {
    match op
    case AddAtOp(i, x) =>
      var r := l.AddAt(i, x);
      reply := if r.Ok? then Done else Failed(r.index, r.size);
    case AddOp(x) =>
      var b := l.Add(x);
      reply := Added(b);
    case GetOp(i) =>
      var r := l.Get(i);
      reply := if r.Ok? then Element(r.value) else Failed(r.index, r.size);
    case RemoveOp(i) =>
      var r := l.Remove(i);
      reply := if r.Ok? then Element(r.value) else Failed(r.index, r.size);
    case SizeOp =>
      var k := l.Size();
      reply := Length(k);
  }

  /** A series of calls on the list of src/ListImpls/ListImpl_DummyHead.java: the replies and the final
      elements are those of the sequence model. */
  method ReplayPackagedDummyHead<T>(l: PackagedDummyHeadImpl.DummyHead<T>, ops: seq<Op<T>>) returns (replies: seq<Reply<T>>)
    requires l.Valid()
    modifies l.Repr
    ensures l.Valid() && fresh(l.Repr - old(l.Repr))
    ensures (l.Contents, replies) == Run(old(l.Contents), ops)
  {
    replies := [];
    for i := 0 to |ops|
      invariant l.Valid() && fresh(l.Repr - old(l.Repr))
      invariant (l.Contents, replies) == Run(old(l.Contents), ops[..i])
    {
      var reply := ApplyPackagedDummyHead(l, ops[i]);
      RunSnoc(old(l.Contents), ops[..i], ops[i]);
      assert ops[..i + 1] == ops[..i] + [ops[i]];
      replies := replies + [reply];
    }
    assert ops[..|ops|] == ops;
  }
}
