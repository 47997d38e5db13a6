/**
 * The growable `int` list that backs a time column (fastutil's
 * `IntArrayList`): a backing array whose length is the capacity, of which
 * the first `size` slots are live. The slots beyond `size` keep whatever
 * they last held: zeros from allocation, or values left behind by `clear`.
 */
module IntArrayLists {
  import opened JavaLang

  /** Capacity after growing a full list: twice as large, and at least one slot more. */
  function GrownCapacity(capacity: nat): (r: nat)
    ensures r > capacity && r >= 2 * capacity
  {
    if capacity == 0 then 1 else 2 * capacity
  }

  class IntArrayList {
    var elements: array<int32>
    var size: nat

    ghost predicate Valid()
      reads this
    {
      size <= elements.Length
    }

    /** The live values, in order. */
    function Contents(): seq<int32>
      reads this, elements
      requires Valid()
    {
      elements[..size]
    }

    /** `new IntArrayList(capacity)`: empty, over a zero-filled backing array. */
    constructor (capacity: nat)
      ensures Valid() && fresh(elements) && size == 0
      ensures elements[..] == seq(capacity, _ => 0)
    {
      elements := new int32[capacity](_ => 0);
      size := 0;
    }

    /** `IntArrayList.wrap(a)`: a full list over `a` itself, not a copy of it. */
    constructor Wrap(a: array<int32>)
      ensures Valid() && elements == a && size == a.Length
    {
      elements := a;
      size := a.Length;
    }

    /**
     * `add(k)`: `k` becomes the last live value. A full list first moves to
     * a fresh, larger, zero-filled array holding the live values.
     */
    method Add(k: int32)
      requires Valid()
      modifies this, elements
      ensures Valid()
      ensures Contents() == old(Contents()) + [k]
      ensures old(size) < old(elements.Length) ==>
                elements == old(elements) && elements[size..] == old(elements[size + 1..])
      ensures old(size) == old(elements.Length) ==>
                && fresh(elements)
                && elements.Length == GrownCapacity(old(elements.Length))
                && elements[size..] == seq(elements.Length - size, _ => 0)
    {
      if size == elements.Length {
        var grown := new int32[GrownCapacity(elements.Length)](_ => 0);
        forall i | 0 <= i < size {
          grown[i] := elements[i];
        }
        elements := grown;
      }
      elements[size] := k;
      size := size + 1;
    }

    /** `clear()`: no live values; the backing array and its slots stay as they were. */
    method Clear()
      requires Valid()
      modifies this
      ensures Valid() && size == 0 && elements == old(elements)
    {
      size := 0;
    }
  }
}
