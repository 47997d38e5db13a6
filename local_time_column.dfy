/**
 * The LOCAL_TIME column: a named column whose values are packed times held
 * in a growable `int` list. Every query works on the packed values; only
 * `IsEqualTo` packs its argument, and only `Convert` parses text.
 */
module LocalTimeColumns {
  import opened JavaLang
  import opened IntSorting
  import opened IntArrayLists
  import opened ColumnSpecs
  import opened PackedLocalTimes

  /** Capacity of the list a new column starts with. */
  const DEFAULT_ARRAY_SIZE: nat := 128

  /** A column's logical type: LOCAL_TIME, or one of the types this model does not implement. */
  datatype ColumnType = LocalTimeType | OtherType(tag: string)

  /** A column of any type, as `append` and a table see it. */
  datatype Column = TimeColumn(column: LocalTimeColumn) | OtherColumn(kind: ColumnType) {
    function Type(): ColumnType {
      if TimeColumn? then LocalTimeType else kind
    }
  }

  ghost predicate Ascending(s: seq<int32>) {
    forall i, j :: 0 <= i < j < |s| ==> s[i] <= s[j]
  }

  ghost predicate Descending(s: seq<int32>) {
    forall i, j :: 0 <= i < j < |s| ==> s[i] >= s[j]
  }

  /**
   * `reverseIntComparator.compare(o2, o1)`: its parameters are declared in
   * swapped order, so it is negative exactly when the first argument is the
   * larger one.
   */
  function ReverseIntComparator(o2: int32, o1: int32): (r: int)
    ensures r < 0 <==> o2 > o1
    ensures r == 0 <==> o2 == o1
    ensures r > 0 <==> o2 < o1
  {
    if o1 < o2 then -1 else if o1 == o2 then 0 else 1
  }

  lemma ReverseIntComparatorIsIntOrder()
    ensures IsIntOrder(ReverseIntComparator)
  {
  }

  /** Sorting with `ReverseIntComparator` leaves values in non-increasing order. */
  lemma SortedByReverseIsDescending(s: seq<int32>)
    requires SortedBy(ReverseIntComparator, s)
    ensures Descending(s)
  {
    forall i, j | 0 <= i < j < |s| ensures s[i] >= s[j] {
      assert ReverseIntComparator(s[i], s[j]) <= 0;
    }
  }

  /** Sorting with `Integer.compare` leaves values in non-decreasing order. */
  lemma SortedByIntegerCompareIsAscending(s: seq<int32>)
    requires SortedBy(IntegerCompare, s)
    ensures Ascending(s)
  {
    forall i, j | 0 <= i < j < |s| ensures s[i] <= s[j] {
      assert IntegerCompare(s[i], s[j]) <= 0;
    }
  }

  /** Overwrites the first `|t|` slots of `a` with `t`, leaving the rest alone. */
  method WritePrefix(a: array<int32>, t: seq<int32>)
    requires |t| <= a.Length
    modifies a
    ensures a[..|t|] == t
    ensures a[|t|..] == old(a[|t|..])
  {
    forall i | 0 <= i < |t| {
      a[i] := t[i];
    }
  }

  // ---------------------------------------------------------------------------
  // Text entry point

  /** A cell that stands for a missing time: null, empty, a configured missing token, or "-1". */
  predicate IsMissingToken(value: Nullable<string>, missingIndicators: set<string>) {
    value.Null? || value.value == "" || value.value in missingIndicators || value.value == "-1"
  }

  /** The packed form of the time `text` parses to, or the exception parsing throws. */
  function PackParsed(codec: TimeCodec, text: string): Result<int32> {
    match codec.parse(text)
    case Ok(t) => Ok(codec.pack(t))
    case Err(e) => Err(e)
  }

  /**
   * `LocalTimeColumn.convert`: a missing token becomes the missing sentinel;
   * any other cell is left-padded with '0' to four characters, then parsed
   * and packed; a parse failure is thrown as it is.
   */
  function Convert(value: Nullable<string>, codec: TimeCodec): (r: Result<int32>)
    ensures IsMissingToken(value, codec.missingIndicators) ==> r == Ok(codec.missingValue)
    ensures !IsMissingToken(value, codec.missingIndicators) ==>
              var s := value.value;
              var text := if |s| < 4 then seq(4 - |s|, _ => '0') + s else s;
              && (r.Ok? <==> codec.parse(text).Ok?)
              && (r.Ok? ==> r.value == codec.pack(codec.parse(text).value))
              && (r.Err? ==> r.error == codec.parse(text).error)
  {
    if IsMissingToken(value, codec.missingIndicators) then
      Ok(codec.missingValue)
    else
      PackParsed(codec, PadStart(value.value, 4, '0'))
  }

  /**
   * A short token converts like its zero-padded form: "900" and "0900" give
   * the same packed time (unless the padded form is itself a missing token).
   * A token of four or more characters is parsed exactly as given.
   */
  lemma ConvertPadding(s: string, codec: TimeCodec)
    requires !IsMissingToken(NonNull(s), codec.missingIndicators)
    requires !IsMissingToken(NonNull(PadStart(s, 4, '0')), codec.missingIndicators)
    ensures Convert(NonNull(s), codec) == Convert(NonNull(PadStart(s, 4, '0')), codec)
    ensures |s| >= 4 ==> Convert(NonNull(s), codec) == PackParsed(codec, s)
  {
    PadStartIdempotent(s, 4, '0');
  }

  // ---------------------------------------------------------------------------
  // The column

  class LocalTimeColumn {
    var name: string
    var data: IntArrayList

    ghost predicate Valid()
      reads this, data
    {
      data.Valid()
    }

    /** The column's live packed values, row by row. */
    function Contents(): seq<int32>
      reads this, data, data.elements
      requires Valid()
    {
      data.Contents()
    }

    /** `create(name)`: an empty column over a list of the default capacity. */
    constructor (name: string)
      ensures Valid() && this.name == name && fresh(data) && fresh(data.elements)
      ensures Contents() == []
      ensures data.elements[..] == seq(DEFAULT_ARRAY_SIZE, _ => 0)
    {
      this.name := name;
      data := new IntArrayList(DEFAULT_ARRAY_SIZE);
    }

    /** `new LocalTimeColumn(name, initialSize)`: an empty column over a list of the given capacity. */
    constructor WithInitialSize(name: string, initialSize: nat)
      ensures Valid() && this.name == name && fresh(data) && fresh(data.elements)
      ensures Contents() == [] && data.elements[..] == seq(initialSize, _ => 0)
    {
      this.name := name;
      data := new IntArrayList(initialSize);
    }

    /** `create(fileName, times)`: a column over the list `times` itself, not a copy of it. */
    constructor Create(fileName: string, times: IntArrayList)
      requires times.Valid()
      ensures Valid() && name == fileName && data == times
    {
      name := fileName;
      data := times;
    }

    /** `size()`: the number of rows. */
    function Size(): (n: nat)
      reads this, data, data.elements
      requires Valid()
      ensures n == |Contents()|
    {
      data.size
    }

    /** `isEmpty()`. */
    function IsEmpty(): (b: bool)
      reads this, data, data.elements
      requires Valid()
      ensures b <==> Contents() == []
    {
      data.size == 0
    }

    function Type(): ColumnType {
      LocalTimeType
    }

    /** `getInt(index)`: the packed value of a row; any index outside the rows fails. */
    function GetInt(index: int): (r: Result<int32>)
      reads this, data, data.elements
      requires Valid()
      ensures r.Ok? <==> 0 <= index < Size()
      ensures r.Ok? ==> r.value == Contents()[index]
      ensures r.Err? ==> r.error == IndexOutOfBoundsException(index)
    {
      if 0 <= index < data.size then Ok(data.elements[index]) else Err(IndexOutOfBoundsException(index))
    }

    /**
     * `add(f)`: `f` becomes the last row. Slots beyond the new last row keep
     * what they held, or are zeros when the list had to grow.
     */
    method Add(f: int32)
      requires Valid()
      modifies data, data.elements
      ensures Valid()
      ensures Contents() == old(Contents()) + [f]
      ensures old(data.size) < old(data.elements.Length) ==>
                data.elements == old(data.elements) && data.elements[data.size..] == old(data.elements[data.size + 1..])
      ensures old(data.size) == old(data.elements.Length) ==>
                fresh(data.elements) && data.elements[data.size..] == seq(data.elements.Length - data.size, _ => 0)
    {
      data.Add(f);
    }

    /** `clear()`: no rows; the backing array, stale values included, is kept. */
    method Clear()
      requires Valid()
      modifies data
      ensures Valid() && Contents() == [] && data.elements == old(data.elements)
    {
      data.Clear();
    }

    /** `emptyCopy()`: a new empty column with the same name and the default capacity. */
    method EmptyCopy() returns (c: LocalTimeColumn)
      ensures fresh(c) && fresh(c.data) && fresh(c.data.elements)
      ensures c.Valid() && c.name == name && c.Contents() == []
      ensures c.data.elements[..] == seq(DEFAULT_ARRAY_SIZE, _ => 0)
    {
      c := new LocalTimeColumn(name);
    }

    /** `copy()`: a new column with the same name over the SAME list, so later changes to either show in both. */
    method Copy() returns (c: LocalTimeColumn)
      requires Valid()
      ensures fresh(c) && c.Valid() && c.name == name && c.data == data
    {
      c := new LocalTimeColumn.Create(name, data);
    }

    /**
     * `sortAscending()`, as written: sorts the WHOLE backing array, the
     * unused slots beyond the last row included.
     */
    method SortAscending()
      requires Valid()
      modifies data.elements
      ensures Valid()
      ensures Ascending(data.elements[..])
      ensures multiset(data.elements[..]) == multiset(old(data.elements[..]))
    {
      var a := data.elements;
      var sorted := SortBy(IntegerCompare, a[..]);
      IntegerCompareIsIntOrder();
      SortBySorted(IntegerCompare, a[..]);
      forall i | 0 <= i < a.Length {
        a[i] := sorted[i];
      }
      assert a[..] == sorted;
      SortedByIntegerCompareIsAscending(sorted);
    }

    /**
     * `sortDescending()`, as written: sorts the WHOLE backing array with
     * `reverseIntComparator`, the unused slots included.
     */
    method SortDescending()
      requires Valid()
      modifies data.elements
      ensures Valid()
      ensures Descending(data.elements[..])
      ensures multiset(data.elements[..]) == multiset(old(data.elements[..]))
    {
      var a := data.elements;
      var sorted := SortBy(ReverseIntComparator, a[..]);
      ReverseIntComparatorIsIntOrder();
      SortBySorted(ReverseIntComparator, a[..]);
      forall i | 0 <= i < a.Length {
        a[i] := sorted[i];
      }
      assert a[..] == sorted;
      SortedByReverseIsDescending(sorted);
    }

    /** `sortAscending()` as intended: sorts the rows and leaves the unused slots alone. */
    method SortAscendingLive()
      requires Valid()
      modifies data.elements
      ensures Valid()
      ensures Ascending(Contents())
      ensures multiset(Contents()) == multiset(old(Contents()))
      ensures data.elements[data.size..] == old(data.elements[data.size..])
    {
      var a := data.elements;
      var n := data.size;
      var sorted := SortBy(IntegerCompare, a[..n]);
      IntegerCompareIsIntOrder();
      SortBySorted(IntegerCompare, a[..n]);
      SortedByIntegerCompareIsAscending(sorted);
      WritePrefix(a, sorted);
    }

    /** `sortDescending()` as intended: sorts the rows and leaves the unused slots alone. */
    method SortDescendingLive()
      requires Valid()
      modifies data.elements
      ensures Valid()
      ensures Descending(Contents())
      ensures multiset(Contents()) == multiset(old(Contents()))
      ensures data.elements[data.size..] == old(data.elements[data.size..])
    {
      var a := data.elements;
      var n := data.size;
      var sorted := SortBy(ReverseIntComparator, a[..n]);
      ReverseIntComparatorIsIntOrder();
      SortBySorted(ReverseIntComparator, a[..n]);
      SortedByReverseIsDescending(sorted);
      WritePrefix(a, sorted);
    }

    /**
     * The counting loop of `summary()`: how often each packed value occurs,
     * `Integer.MIN_VALUE` counted under the missing sentinel.
     */
    method SummaryCounts(codec: TimeCodec) returns (counts: map<int32, int>)
      requires Valid()
      ensures IsCountOf(counts, Normalized(Contents(), codec.missingValue))
    {
      ghost var s := Normalized(Contents(), codec.missingValue);
      counts := map[];
      var i := 0;
      while i < data.size
        invariant 0 <= i <= data.size
        invariant IsCountOf(counts, s[..i])
      {
        var value;
        var next := data.elements[i];
        if next == INTEGER_MIN_VALUE {
          value := codec.missingValue;
        } else {
          value := next;
        }
        assert value == s[i];
        assert s[..i + 1] == s[..i] + [value];
        if value in counts {
          counts := counts[value := counts[value] + 1];
        } else {
          counts := counts[value := 1];
        }
        i := i + 1;
      }
      assert s[..i] == s;
    }

    /** `countUnique()`: the number of distinct packed values among the rows. */
    function CountUnique(): (r: nat)
      reads this, data, data.elements
      requires Valid()
      ensures r <= Size()
      ensures r == 0 <==> Size() == 0
    {
      ElementsBound(Contents());
      |Elements(Contents())|
    }

    /**
     * `unique()`: a new column named "<name> Unique values" holding each
     * distinct packed value once, over an array exactly that long.
     */
    method Unique() returns (c: LocalTimeColumn)
      requires Valid()
      ensures fresh(c) && fresh(c.data) && fresh(c.data.elements)
      ensures c.Valid() && c.name == name + " Unique values"
      ensures NoDuplicates(c.Contents())
      ensures Elements(c.Contents()) == Elements(Contents())
      ensures |c.Contents()| == CountUnique()
      ensures c.data.elements.Length == |c.Contents()|
    {
      var d := Distinct(Contents());
      DistinctCard(Contents());
      var a := new int32[|d|](i requires 0 <= i < |d| => d[i]);
      var list := new IntArrayList.Wrap(a);
      c := new LocalTimeColumn.Create(name + " Unique values", list);
      assert c.Contents() == d;
    }

    /** `addCell(text)`: converts a cell and adds it; only a null-pointer failure is decorated. */
    method AddCell(cell: Nullable<string>, codec: TimeCodec) returns (r: Outcome)
      requires Valid()
      modifies data, data.elements
      ensures Valid()
      ensures Convert(cell, codec).Ok? ==>
                r == Done && Contents() == old(Contents()) + [Convert(cell, codec).value]
      ensures Convert(cell, codec).Ok? && old(data.size) < old(data.elements.Length) ==>
                data.elements == old(data.elements) && data.elements[data.size..] == old(data.elements[data.size + 1..])
      ensures Convert(cell, codec).Ok? && old(data.size) == old(data.elements.Length) ==>
                fresh(data.elements) && data.elements[data.size..] == seq(data.elements.Length - data.size, _ => 0)
      ensures Convert(cell, codec).Err? ==> unchanged(data) && unchanged(data.elements)
      ensures Convert(cell, codec).Err? && Convert(cell, codec).error.NullPointerException? ==>
                r == Thrown(RuntimeException(name + ": " + StringValueOf(cell) + ": "
                                             + StringValueOf(Convert(cell, codec).error.detail)))
      ensures Convert(cell, codec).Err? && !Convert(cell, codec).error.NullPointerException? ==>
                r == Thrown(Convert(cell, codec).error)
    {
      match Convert(cell, codec)
      case Ok(v) =>
        Add(v);
        r := Done;
      case Err(e) =>
        if e.NullPointerException? {
          r := Thrown(RuntimeException(name + ": " + StringValueOf(cell) + ": " + StringValueOf(e.detail)));
        } else {
          r := Thrown(e);
        }
    }

    /** `rowComparator().compare(r1, r2)`: `Integer.compare` of the two rows' packed values. */
    function RowCompare(r1: int, r2: int): (r: Result<int>)
      reads this, data, data.elements
      requires Valid()
      ensures r.Ok? <==> 0 <= r1 < Size() && 0 <= r2 < Size()
      ensures r.Ok? ==> (r.value < 0 <==> Contents()[r1] < Contents()[r2])
      ensures r.Ok? ==> (r.value == 0 <==> Contents()[r1] == Contents()[r2])
      ensures r.Ok? ==> (r.value > 0 <==> Contents()[r1] > Contents()[r2])
      ensures !(0 <= r1 < Size()) ==> r == Err(IndexOutOfBoundsException(r1))
      ensures 0 <= r1 < Size() && !(0 <= r2 < Size()) ==> r == Err(IndexOutOfBoundsException(r2))
    {
      match GetInt(r1)
      case Err(e) => Err(e)
      case Ok(f1) =>
        match GetInt(r2)
        case Err(e) => Err(e)
        case Ok(f2) => Ok(IntegerCompare(f1, f2))
    }

    /** `isEqualTo(value)`: the rows, ascending, whose packed value is `value` packed. */
    method IsEqualTo(value: LocalTime, codec: TimeCodec) returns (results: seq<int>)
      requires Valid()
      ensures results == MatchingRows(Contents(), codec.pack(value))
      ensures StrictlyIncreasing(results)
      ensures forall i :: i in results <==> 0 <= i < Size() && Contents()[i] == codec.pack(value)
    {
      var packedLocalTime := codec.pack(value);
      results := [];
      var i := 0;
      while i < data.size
        invariant 0 <= i <= data.size
        invariant results == MatchingRows(data.elements[..i], packedLocalTime)
      {
        var next := data.elements[i];
        assert data.elements[..i + 1][..i] == data.elements[..i];
        if packedLocalTime == next {
          results := results + [i];
        }
        i := i + 1;
      }
    }

    /** `selectIf(IntPredicate)`: a new column, named like this one, of the rows whose packed value satisfies `p`. */
    method SelectIf(p: int32 -> bool) returns (c: LocalTimeColumn)
      requires Valid()
      ensures fresh(c) && fresh(c.data) && fresh(c.data.elements)
      ensures c.Valid() && c.name == name
      ensures c.Contents() == Filter(p, Contents())
      ensures forall k :: c.data.size <= k < c.data.elements.Length ==> c.data.elements[k] == 0
    {
      c := EmptyCopy();
      var i := 0;
      while i < data.size
        invariant 0 <= i <= data.size
        invariant fresh(c) && fresh(c.data) && fresh(c.data.elements)
        invariant c.Valid() && c.name == name
        invariant c.Contents() == Filter(p, data.elements[..i])
        invariant forall k :: c.data.size <= k < c.data.elements.Length ==> c.data.elements[k] == 0
      {
        var next := data.elements[i];
        assert data.elements[..i + 1][..i] == data.elements[..i];
        if p(next) {
          c.Add(next);
        }
        i := i + 1;
      }
    }

    /**
     * The slots past the last row hold what they held in `vals` while the
     * backing array is still `a`, and zeros once the list has moved.
     */
    ghost predicate SlotsFrom(a: array<int32>, vals: seq<int32>)
      reads this, data, data.elements
    {
      forall k :: data.size <= k < data.elements.Length ==>
        data.elements[k] == (if data.elements == a && k < |vals| then vals[k] else 0)
    }

    /** `add(f)`, seen from a loop that tracks the unused slots against a snapshot. */
    method AddKeepingSlots(f: int32, ghost a: array<int32>, ghost vals: seq<int32>)
      requires Valid() && SlotsFrom(a, vals)
      modifies data, data.elements
      ensures Valid() && Contents() == old(Contents()) + [f]
      ensures old(data.size) < old(data.elements.Length) ==> data.elements == old(data.elements)
      ensures data.elements == old(data.elements) || fresh(data.elements)
      ensures SlotsFrom(a, vals)
    {
      Add(f);
      forall k | data.size <= k < data.elements.Length
        ensures data.elements[k] == (if data.elements == a && k < |vals| then vals[k] else 0)
      {
        assert data.elements[k] == data.elements[data.size..][k - data.size];
      }
    }

    /**
     * `append(column)`, corrected: fails before changing anything unless
     * `column` is of type LOCAL_TIME and really a time column; otherwise
     * adds its rows, in order. Here the number of rows to copy is read
     * once, so appending a column to itself (or to a copy sharing its list)
     * doubles it; as written, the loop re-reads the growing size and does
     * not return in that case (`SelfAppendNeverExits`).
     */
    method Append(other: Column) returns (r: Outcome)
      requires Valid()
      requires other.TimeColumn? ==> other.column.Valid()
      requires other.TimeColumn? && other.column.data != data ==> other.column.data.elements != data.elements
      modifies data, data.elements
      ensures Valid()
      ensures other.Type() != LocalTimeType ==> r == Thrown(IllegalArgumentException)
      ensures other.Type() == LocalTimeType && other.OtherColumn? ==> r == Thrown(ClassCastException)
      ensures other.TimeColumn? ==> r == Done && Contents() == old(Contents()) + old(other.column.Contents())
      ensures other.TimeColumn? ==>
                && (data.elements == old(data.elements) || fresh(data.elements))
                && SlotsFrom(old(data.elements), old(data.elements[..]))
      ensures other.TimeColumn? && old(data.size + other.column.data.size) <= old(data.elements.Length) ==>
                data.elements == old(data.elements)
      ensures r.Thrown? ==> unchanged(data) && unchanged(data.elements)
    {
      if other.Type() != Type() {
        return Thrown(IllegalArgumentException);
      }
      if other.OtherColumn? {
        return Thrown(ClassCastException);
      }
      var c := other.column;
      ghost var before := Contents();
      ghost var src := c.Contents();
      ghost var a0, vals0 := data.elements, data.elements[..];
      var n := c.data.size;
      var i := 0;
      while i < n
        invariant 0 <= i <= n == |src|
        invariant Valid() && c.data.Valid()
        invariant Contents() == before + src[..i]
        invariant c.data == data ==> src == before
        invariant c.data != data ==> c.data.elements != data.elements && c.Contents() == src
        invariant data.elements == a0 || fresh(data.elements)
        invariant SlotsFrom(a0, vals0)
        invariant |before| + n <= a0.Length ==> data.elements == a0
      {
        assert i < |c.Contents()|;
        var v := c.data.elements[i];
        assert v == src[i];
        AddKeepingSlots(v, a0, vals0);
        assert src[..i + 1] == src[..i] + [v];
        i := i + 1;
      }
      assert src[..n] == src;
      r := Done;
    }
  }

  // ---------------------------------------------------------------------------
  // The whole-buffer sorts, shown on concrete columns

  /**
   * A new column holding the single packed value 5, sorted ascending: its
   * one row now reads 0, a zero moved in from an unused slot, and the 5 is
   * no longer among the rows.
   */
  method SortAscendingExample() returns (r: Result<int32>)
    ensures r == Ok(0)
  {
    var c := new LocalTimeColumn("t");
    c.Add(5);
    ghost var before := c.data.elements[..];
    assert before[0] == 5 && before[1] == 0;
    assert forall k :: 0 <= k < |before| ==> before[k] == 0 || before[k] == 5;
    c.SortAscending();
    ghost var after := c.data.elements[..];
    assert 0 in multiset(after) by {
      assert before[1] in multiset(before);
    }
    assert after[0] in multiset(before);
    r := c.GetInt(0);
  }

  /**
   * A column that held 3 and 9, was cleared, then given 3 again, sorted
   * descending: its one row now reads 9, a value cleared earlier.
   */
  method SortDescendingExample() returns (r: Result<int32>)
    ensures r == Ok(9)
  {
    var c := new LocalTimeColumn("t");
    c.Add(3);
    ghost var e1 := c.data.elements[..];
    assert forall k :: 1 <= k < |e1| ==> e1[k] == 0 by {
      forall k | 1 <= k < |e1| ensures e1[k] == 0 {
        assert e1[k] == c.data.elements[1..][k - 1];
      }
    }
    c.Add(9);
    ghost var e2 := c.data.elements[..];
    assert e2[1] == c.Contents()[1] == 9;
    assert forall k :: 2 <= k < |e2| ==> e2[k] == 0 by {
      forall k | 2 <= k < |e2| ensures e2[k] == 0 {
        assert e2[k] == c.data.elements[2..][k - 2] == e1[2..][k - 2];
      }
    }
    c.Clear();
    assert c.data.elements[..] == e2;
    c.Add(3);
    ghost var before := c.data.elements[..];
    assert before[0] == c.Contents()[0] == 3;
    assert forall k :: 1 <= k < |before| ==> before[k] == e2[k] by {
      forall k | 1 <= k < |before| ensures before[k] == e2[k] {
        assert before[k] == c.data.elements[1..][k - 1] == e2[1..][k - 1];
      }
    }
    assert forall k :: 0 <= k < |before| ==> before[k] == 0 || before[k] == 3 || before[k] == 9;
    c.SortDescending();
    ghost var after := c.data.elements[..];
    assert 9 in multiset(after) by {
      assert before[1] in multiset(before);
    }
    assert after[0] in multiset(before);
    r := c.GetInt(0);
  }
}
