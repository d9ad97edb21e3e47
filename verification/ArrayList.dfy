/**
 The growable list that CircularArray updates by index: a backing array whose first `count`
 elements are the contents, with elements shifted one place on removal and on insertion.
 */
module ArrayLists {

  class ArrayList<T(0)> {
    var elems: array<T>
    var count: nat

    ghost predicate Valid()
      reads this
    {
      count <= elems.Length
    }

    ghost function Contents(): (s: seq<T>)
      requires Valid()
      reads this, elems
      ensures |s| == count
    {
      elems[..count]
    }

    constructor (capacity: nat)
      ensures Valid() && fresh(elems)
      ensures Contents() == []
    {
      elems := new T[capacity];
      count := 0;
    }

    method RemoveAt(index: nat)
      requires Valid() && index < count
      modifies this`count, elems
      ensures Valid()
      ensures Contents() == old(Contents()[..index] + Contents()[index + 1..])
    {
      ghost var was := Contents();
      count := count - 1;
      ShiftDown(elems, index, count);
      assert Contents() == was[..index] + was[index + 1..];
    }

    method InsertAt(index: nat, e: T)
      requires Valid() && index <= count
      modifies this, elems
      ensures Valid() && (elems == old(elems) || fresh(elems))
      ensures Contents() == old(Contents()[..index]) + [e] + old(Contents()[index..])
    {
      ghost var was := Contents();
      if count == elems.Length {
        elems := Larger(elems);
        assert elems[..count] == was;
      }
      assert elems[..index] == was[..index] && elems[index..count] == was[index..];
      ShiftUp(elems, index, count);
      elems[index] := e;
      count := count + 1;
      assert elems[..index] == was[..index] && elems[index + 1..count] == was[index..];
    }
  }

  /** Moves the elements index + 1 .. n one place towards the start. */
  method ShiftDown<T>(a: array<T>, index: nat, n: nat)
    requires index <= n < a.Length
    modifies a
    ensures a[..n] == old(a[..index] + a[index + 1..n + 1])
  {
    ghost var was := a[..];
    for i := index to n
      invariant a[..i] == was[..index] + was[index + 1..i + 1]
      invariant a[i..] == was[i..]
    {
      a[i] := a[i + 1];
    }
  }

  /** Moves the elements index .. n - 1 one place towards the end. */
  method ShiftUp<T>(a: array<T>, index: nat, n: nat)
    requires index <= n < a.Length
    modifies a
    ensures a[..index] == old(a[..index])
    ensures a[index + 1..n + 1] == old(a[index..n])
  {
    ghost var was := a[..];
    for i := n downto index
      invariant a[..i + 1] == was[..i + 1]
      invariant a[i + 1..n + 1] == was[i..n]
    {
      a[i + 1] := a[i];
      assert a[i + 1..n + 1] == [was[i]] + was[i + 1..n];
    }
  }

  /** A longer array that starts with the elements of a. */
  method Larger<T(0)>(a: array<T>) returns (b: array<T>)
    ensures fresh(b) && b.Length > a.Length
    ensures b[..a.Length] == a[..]
  {
    b := new T[a.Length + a.Length / 2 + 1];
    for i := 0 to a.Length
      invariant b[..i] == a[..i]
    {
      b[i] := a[i];
    }
  }
}
