/** The contract shared by every list implementation (src/List.java), stated on
    sequences. A list's observable state is the sequence of its elements, in order,
    at 0-based positions. Every index-taking operation either succeeds or raises
    IndexOutOfBoundsException; the exception is modelled as the value
    OutOfBounds(index, size), carrying the offending index and the current size, and a
    call that raises it changes nothing. */
module ListSpec {

  /** A Java reference that may be null: an unused array slot, or the sentinel's
      missing element. */
  datatype Option<+T> = None | Some(value: T)

  /** The outcome of an index-taking call: its value, or the out-of-bounds failure. */
  datatype Result<+R> = Ok(value: R) | OutOfBounds(index: int, size: int)

  /** `add(index, e)`: defined for 0 <= index <= size; `e` lands at `index`, the
      elements before it stay put and those at or after it move one place right. */
  function InsertAt<T>(s: seq<T>, index: int, e: T): (r: Result<seq<T>>)
    ensures r.Ok? <==> 0 <= index <= |s|
    ensures r.OutOfBounds? ==> r == OutOfBounds(index, |s|)
    ensures r.Ok? ==> |r.value| == |s| + 1 && r.value[index] == e
    ensures r.Ok? ==> forall k :: 0 <= k < index ==> r.value[k] == s[k]
    ensures r.Ok? ==> forall k :: index < k <= |s| ==> r.value[k] == s[k - 1]
  {
    if 0 <= index <= |s| then Ok(s[..index] + [e] + s[index..]) else OutOfBounds(index, |s|)
  }

  /** `add(e)`: `e` becomes the last element and nothing else moves. */
  function Appended<T>(s: seq<T>, e: T): (r: seq<T>)
    ensures |r| == |s| + 1 && r[|s|] == e
    ensures forall k :: 0 <= k < |s| ==> r[k] == s[k]
  {
    s + [e]
  }

  /** `get(index)`: defined for 0 <= index < size, where it yields the element there. */
  function ElementAt<T>(s: seq<T>, index: int): (r: Result<T>)
    ensures r.Ok? <==> 0 <= index < |s|
    ensures r.Ok? ==> r.value == s[index]
    ensures r.OutOfBounds? ==> r == OutOfBounds(index, |s|)
  {
    if 0 <= index < |s| then Ok(s[index]) else OutOfBounds(index, |s|)
  }

  /** The sequence left by `remove(index)`: defined for 0 <= index < size; the
      elements before `index` stay put and those after it move one place left. */
  function RemoveAt<T>(s: seq<T>, index: int): (r: Result<seq<T>>)
    ensures r.Ok? <==> 0 <= index < |s|
    ensures r.OutOfBounds? ==> r == OutOfBounds(index, |s|)
    ensures r.Ok? ==> |r.value| == |s| - 1
    ensures r.Ok? ==> forall k :: 0 <= k < index ==> r.value[k] == s[k]
    ensures r.Ok? ==> forall k :: index <= k < |s| - 1 ==> r.value[k] == s[k + 1]
  {
    if 0 <= index < |s| then Ok(s[..index] + s[index + 1..]) else OutOfBounds(index, |s|)
  }

  /** `add(e)` is `add(size, e)`. */
  lemma AppendIsInsertAtSize<T>(s: seq<T>, e: T)
    ensures InsertAt(s, |s|, e) == Ok(Appended(s, e))
  {
    assert InsertAt(s, |s|, e).value == Appended(s, e);
  }

  /** Inserting `e` at `i` and then reading position `i` gives back `e`; removing
      position `i` right after restores the original sequence. */
  lemma InsertThenRemove<T>(s: seq<T>, i: int, e: T)
    requires 0 <= i <= |s|
    ensures ElementAt(InsertAt(s, i, e).value, i) == Ok(e)
    ensures RemoveAt(InsertAt(s, i, e).value, i) == Ok(s)
  {
    var t := InsertAt(s, i, e).value;
    assert RemoveAt(t, i).value == s;
  }

  /** Removing position `i` and re-inserting the removed element at `i` restores
      the original sequence. */
  lemma RemoveThenInsert<T>(s: seq<T>, i: int)
    requires 0 <= i < |s|
    ensures ElementAt(s, i) == Ok(s[i])
    ensures InsertAt(RemoveAt(s, i).value, i, s[i]) == Ok(s)
  {
    var t := RemoveAt(s, i).value;
    assert InsertAt(t, i, s[i]).value == s;
  }

  /** The boundaries: reading or removing at `size` or at -1 fails, inserting at
      `size` succeeds and inserting at `size + 1` fails. */
  lemma Boundaries<T>(s: seq<T>, e: T)
    ensures ElementAt(s, |s|) == OutOfBounds(|s|, |s|) && ElementAt(s, -1) == OutOfBounds(-1, |s|)
    ensures RemoveAt(s, |s|) == OutOfBounds(|s|, |s|) && RemoveAt(s, -1) == OutOfBounds(-1, |s|)
    ensures InsertAt(s, |s|, e).Ok? && InsertAt(s, |s| + 1, e) == OutOfBounds(|s| + 1, |s|)
  {
  }

  /** The sequence obtained by appending the elements of `xs` one by one, in order. */
  function AppendAll<T>(s: seq<T>, xs: seq<T>): (r: seq<T>)
    ensures |r| == |s| + |xs|
    decreases |xs|
  {
    if xs == [] then s else AppendAll(Appended(s, xs[0]), xs[1..])
  }

  /** Appending `e1, ..., en` one by one puts them after the existing elements in
      that same order. */
  lemma {:induction false} AppendAllKeepsOrder<T>(s: seq<T>, xs: seq<T>)
    ensures AppendAll(s, xs) == s + xs
    decreases |xs|
  {
    if xs != [] {
      AppendAllKeepsOrder(Appended(s, xs[0]), xs[1..]);
      assert Appended(s, xs[0]) + xs[1..] == s + xs;
    }
  }

  /** Reading back positions 0 .. n-1 of an empty list after appending `xs` yields
      the elements of `xs` in order. */
  lemma AppendedInOrder<T>(xs: seq<T>, k: int)
    requires 0 <= k < |xs|
    ensures ElementAt(AppendAll([], xs), k) == Ok(xs[k])
  {
    AppendAllKeepsOrder([], xs);
  }

  /** One call of the `List<T>` interface. */
  datatype Op<T> = AddAtOp(index: int, item: T) | AddOp(item: T) | GetOp(index: int) | RemoveOp(index: int) | SizeOp

  /** What one call returns to its caller. */
  datatype Reply<T> = Done | Added(b: bool) | Element(v: T) | Length(n: nat) | Failed(index: int, size: int)

  /** The effect of one call on the element sequence, and what the call returns. */
  function Step<T>(s: seq<T>, op: Op<T>): (r: (seq<T>, Reply<T>))
    ensures r.1.Failed? ==> r.0 == s
    ensures op.AddOp? ==> r.1 == Added(true)
    ensures op.GetOp? || op.SizeOp? ==> r.0 == s
  {
    match op
    case AddAtOp(i, x) =>
      (match InsertAt(s, i, x)
       case Ok(t) => (t, Done)
       case OutOfBounds(j, n) => (s, Failed(j, n)))
    case AddOp(x) => (Appended(s, x), Added(true))
    case GetOp(i) =>
      (match ElementAt(s, i)
       case Ok(v) => (s, Element(v))
       case OutOfBounds(j, n) => (s, Failed(j, n)))
    case RemoveOp(i) =>
      (match RemoveAt(s, i)
       case Ok(t) => (t, Element(s[i]))
       case OutOfBounds(j, n) => (s, Failed(j, n)))
    case SizeOp => (s, Length(|s|))
  }

  /** The final element sequence and the replies of a series of calls, in order. */
  function Run<T>(s: seq<T>, ops: seq<Op<T>>): (r: (seq<T>, seq<Reply<T>>))
    ensures |r.1| == |ops|
    decreases |ops|
  {
    if ops == [] then (s, [])
    else
      var (t, replies) := Run(s, ops[..|ops| - 1]);
      var (u, reply) := Step(t, ops[|ops| - 1]);
      (u, replies + [reply])
  }

  /** A run of calls none of which fails keeps, as its size, the number of
      additions minus the number of removals. */
  function Delta<T>(ops: seq<Op<T>>, replies: seq<Reply<T>>): int
    requires |replies| == |ops|
    decreases |ops|
  {
    if ops == [] then 0
    else
      var last := ops[|ops| - 1];
      var d := if replies[|ops| - 1].Failed? then 0
               else if last.AddAtOp? || last.AddOp? then 1
               else if last.RemoveOp? then -1
               else 0;
      Delta(ops[..|ops| - 1], replies[..|ops| - 1]) + d
  }

  lemma {:induction false} RunSize<T>(s: seq<T>, ops: seq<Op<T>>)
    ensures |Run(s, ops).0| == |s| + Delta(ops, Run(s, ops).1)
    decreases |ops|
  {
    if ops != [] {
      var prefix := ops[..|ops| - 1];
      RunSize(s, prefix);
      var (t, replies) := Run(s, prefix);
      var r := Run(s, ops).1;
      assert r[..|ops| - 1] == replies;
    }
  }

  /** Running one more call extends the run by that call's step. */
  lemma RunSnoc<T>(s: seq<T>, ops: seq<Op<T>>, op: Op<T>)
    ensures Run(s, ops + [op]) == (Step(Run(s, ops).0, op).0, Run(s, ops).1 + [Step(Run(s, ops).0, op).1])
  {
  }

  /** Start empty; add(A), add(B), add(1, C) gives [A, C, B]. */
  lemma ScenarioAdds<T>(a: T, b: T, c: T)
    ensures Run([], [AddOp(a), AddOp(b), AddAtOp(1, c)]) == ([a, c, b], [Added(true), Added(true), Done])
  {
    var ops0: seq<Op<T>> := [];
    var ops1 := ops0 + [AddOp(a)];
    RunSnoc([], ops0, AddOp(a));
    assert Run([], ops0) == ([], []);
    assert Run([], ops1).0 == [a];
    assert Run([], ops1).1 == [Added(true)];
    var ops2 := ops1 + [AddOp(b)];
    RunSnoc([], ops1, AddOp(b));
    assert Run([], ops2).0 == [a, b];
    assert Run([], ops2).1 == [Added(true), Added(true)];
    var ops3 := ops2 + [AddAtOp(1, c)];
    RunSnoc([], ops2, AddAtOp(1, c));
    assert InsertAt([a, b], 1, c).value == [a, c, b];
    assert Run([], ops3).0 == [a, c, b];
    assert Run([], ops3).1 == [Added(true), Added(true), Done];
    assert ops3 == [AddOp(a), AddOp(b), AddAtOp(1, c)];
  }

  /** Start empty; add(A), add(B), add(1, C) gives [A, C, B] of size 3; remove(0)
      returns A and leaves [C, B]; get(5) then fails with index 5 and size 2. */
  lemma Scenario<T>(a: T, b: T, c: T)
    ensures Run([], [AddOp(a), AddOp(b), AddAtOp(1, c), SizeOp, RemoveOp(0), GetOp(5)])
         == ([c, b], [Added(true), Added(true), Done, Length(3), Element(a), Failed(5, 2)])
  {
    var ops3 := [AddOp(a), AddOp(b), AddAtOp(1, c)];
    ScenarioAdds(a, b, c);
    var ops4 := ops3 + [SizeOp];
    RunSnoc([], ops3, SizeOp);
    assert Run([], ops4).0 == [a, c, b];
    assert Run([], ops4).1 == [Added(true), Added(true), Done, Length(3)];
    var ops5 := ops4 + [RemoveOp(0)];
    RunSnoc([], ops4, RemoveOp(0));
    assert RemoveAt([a, c, b], 0).value == [c, b];
    assert Run([], ops5).0 == [c, b];
    assert Run([], ops5).1 == [Added(true), Added(true), Done, Length(3), Element(a)];
    var ops6 := ops5 + [GetOp(5)];
    RunSnoc([], ops5, GetOp(5));
    assert Run([], ops6).0 == [c, b];
    assert Run([], ops6).1 == [Added(true), Added(true), Done, Length(3), Element(a), Failed(5, 2)];
    assert ops6 == [AddOp(a), AddOp(b), AddAtOp(1, c), SizeOp, RemoveOp(0), GetOp(5)];
  }
}
