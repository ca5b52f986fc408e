/** The packaged copy of the growable-array list, src/ListImpls/ListImpl_ArrayList.java.
    It differs from src/ListImpl_ArrayList.java only in its growth rule: the new
    capacity is max(1, 2 * capacity), so growth makes room even from an empty buffer
    and the buffer needs no minimum capacity. */
module PackagedArrayListImpl {
  import opened ListSpec

  /** Java's Math.max on the capacities. */
  function Max(a: int, b: int): (m: int)
    ensures m >= a && m >= b && (m == a || m == b)
  {
    if a > b then a else b
  }

  class ArrayList<T> {
    var arr: array<Option<T>>
    var size: nat
    ghost var Contents: seq<T>
    ghost var Repr: set<object>

    ghost predicate Valid()
      reads this, Repr
    {
      this in Repr && arr in Repr &&
      size <= arr.Length && |Contents| == size &&
      (forall k :: 0 <= k < size ==> arr[k] == Some(Contents[k])) &&
      (forall k :: size <= k < arr.Length ==> arr[k] == None)
    }

    /** An empty list over a buffer of capacity 10. */
    constructor ()
      ensures Valid() && fresh(Repr)
      ensures Contents == [] && arr.Length == 10
    {
      arr := new Option<T>[10](_ => None);
      size := 0;
      Contents := [];
      Repr := {this, arr};
    }

    /** Moves the elements to a fresh buffer of twice the capacity, and of at least one slot. */
    method GrowArray()
      requires Valid()
      modifies this
      ensures Valid() && fresh(arr) && fresh(Repr - old(Repr))
      ensures arr.Length == Max(1, 2 * old(arr.Length)) && size < arr.Length
      ensures size == old(size) && Contents == old(Contents)
      ensures forall k :: 0 <= k < size ==> arr[k] == old(arr[k])
    {
      var newCap := Max(1, arr.Length * 2);
      var newArr := new Option<T>[newCap](_ => None);
      for i := 0 to size
        modifies newArr
        invariant forall k :: 0 <= k < i ==> newArr[k] == arr[k]
        invariant forall k :: i <= k < newCap ==> newArr[k] == None
      {
        newArr[i] := arr[i];
      }
      arr := newArr;
      Repr := {this, arr};
    }

    /** The shift of `add(pos, item)`: walking down from `size`, each slot takes
        the value of the slot before it, so slots pos .. size-1 move one place
        right into pos+1 .. size; the other slots keep their values. */
    method ShiftRight(pos: int)
      requires Valid() && 0 <= pos <= size < arr.Length
      modifies arr
      ensures forall k :: 0 <= k <= pos ==> arr[k] == old(arr[k])
      ensures forall k :: pos < k <= size ==> arr[k] == old(arr[k - 1])
      ensures forall k :: size < k < arr.Length ==> arr[k] == old(arr[k])
    {
      var i := size;
      while i > pos
        invariant pos <= i <= size
        invariant forall k :: 0 <= k <= i ==> arr[k] == old(arr[k])
        invariant forall k :: i < k <= size ==> arr[k] == old(arr[k - 1])
        invariant forall k :: size < k < arr.Length ==> arr[k] == old(arr[k])
      {
        arr[i] := arr[i - 1];
        i := i - 1;
      }
    }

    /** `add(pos, item)`: fails before any change when `pos` is out of 0 .. size;
        otherwise grows a full buffer, shifts slots pos .. size-1 one place right
        and stores `item` at `pos`. */
    method AddAt(pos: int, item: T) returns (r: Result<()>)
      requires Valid()
      modifies Repr
      ensures Valid() && fresh(Repr - old(Repr))
      ensures r.Ok? == InsertAt(old(Contents), pos, item).Ok?
      ensures r.Ok? ==> Contents == InsertAt(old(Contents), pos, item).value
      ensures r.OutOfBounds? ==> r == OutOfBounds(pos, old(size)) && Repr == old(Repr) && unchanged(Repr)
      ensures r.Ok? && old(size) == old(arr.Length) ==> arr.Length == Max(1, 2 * old(arr.Length))
      ensures old(size) < old(arr.Length) ==> arr == old(arr)
    {
      if pos < 0 || pos > size {
        return OutOfBounds(pos, size);
      }
      if size == arr.Length {
        GrowArray();
      }
      ShiftRight(pos);
      arr[pos] := Some(item);
      size := size + 1;
      Contents := InsertAt(Contents, pos, item).value;
      r := Ok(());
    }

    /** `add(item)`: grows a full buffer, then stores `item` after the last element;
        always answers true. */
    method Add(item: T) returns (b: bool)
      requires Valid()
      modifies Repr
      ensures Valid() && fresh(Repr - old(Repr))
      ensures b && Contents == Appended(old(Contents), item)
      ensures old(size) == old(arr.Length) ==> arr.Length == Max(1, 2 * old(arr.Length))
      ensures old(size) < old(arr.Length) ==> arr == old(arr)
    {
      if size == arr.Length {
        GrowArray();
      }
      arr[size] := Some(item);
      size := size + 1;
      Contents := Appended(Contents, item);
      b := true;
    }

    /** `get(pos)`: the element at `pos`, or the failure when `pos` is out of 0 .. size-1. */
    method Get(pos: int) returns (r: Result<T>)
      requires Valid()
      ensures r == ElementAt(Contents, pos)
    {
      if pos < 0 || pos >= size {
        return OutOfBounds(pos, size);
      }
      r := Ok(arr[pos].value);
    }

    /** `remove(pos)`: fails before any change when `pos` is out of 0 .. size-1;
        otherwise returns the element at `pos`, shifts the later slots one place
        left and clears the slot that falls out of use. */
    method Remove(pos: int) returns (r: Result<T>)
      requires Valid()
      modifies Repr
      ensures Valid() && Repr == old(Repr) && arr == old(arr)
      ensures r == ElementAt(old(Contents), pos)
      ensures r.Ok? ==> Contents == RemoveAt(old(Contents), pos).value
      ensures r.OutOfBounds? ==> unchanged(Repr)
    {
      if pos < 0 || pos >= size {
        return OutOfBounds(pos, size);
      }
      var removed := arr[pos];
      ghost var a := arr[..];
      for i := pos to size - 1
        modifies arr
        invariant forall k :: 0 <= k < pos ==> arr[k] == a[k]
        invariant forall k :: pos <= k < i ==> arr[k] == a[k + 1]
        invariant forall k :: i <= k < arr.Length ==> arr[k] == a[k]
      {
        arr[i] := arr[i + 1];
      }
      arr[size - 1] := None;
      size := size - 1;
      Contents := RemoveAt(Contents, pos).value;
      r := Ok(removed.value);
    }

    /** `size()`: the number of elements. */
    method Size() returns (n: nat)
      requires Valid()
      ensures n == |Contents|
    {
      n := size;
    }
  }
}
