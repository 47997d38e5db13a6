/**
 * `TimeEqualTo`: a filter, fixed at construction to a column reference and
 * a time, that selects the rows of the referenced time column holding that
 * time. A table is seen only through its name-to-column lookup.
 */
module TimeFilters {
  import opened JavaLang
  import opened ColumnSpecs
  import opened PackedLocalTimes
  import opened LocalTimeColumns

  /** `ColumnReference`: the name of the column a filter reads. */
  datatype ColumnReference = ColumnReference(columnName: string)

  /** A table, as its name-to-column lookup. */
  type Table = map<string, Column>

  /**
   * `new TimeEqualTo(reference, value)`. Being a value, a filter keeps the
   * reference and time it was built with for every `Apply`.
   */
  datatype TimeEqualTo = TimeEqualTo(columnReference: ColumnReference, value: LocalTime)

  /** The time column a filter would read in `t`, if the name resolves to one. */
  function TimeColumnNamed(t: Table, name: string): set<LocalTimeColumn> {
    if name in t && t[name].TimeColumn? then {t[name].column} else {}
  }

  /**
   * `apply(table)`: the rows, ascending, of the named column whose packed
   * value is the filter's time packed. An absent name fails, and so does a
   * column that is not a time column, at the cast.
   */
  function Apply(f: TimeEqualTo, t: Table, codec: TimeCodec): (r: Result<seq<int>>)
    reads TimeColumnNamed(t, f.columnReference.columnName)
    reads set c | c in TimeColumnNamed(t, f.columnReference.columnName) :: c.data
    reads set c | c in TimeColumnNamed(t, f.columnReference.columnName) :: c.data.elements
    requires forall c | c in TimeColumnNamed(t, f.columnReference.columnName) :: c.Valid()
    ensures f.columnReference.columnName !in t ==>
              r == Err(MissingColumnException(f.columnReference.columnName))
    ensures f.columnReference.columnName in t && t[f.columnReference.columnName].OtherColumn? ==>
              r == Err(ClassCastException)
    ensures r.Ok? <==> f.columnReference.columnName in t && t[f.columnReference.columnName].TimeColumn?
    ensures r.Ok? ==> StrictlyIncreasing(r.value)
    ensures r.Ok? ==>
              var c := t[f.columnReference.columnName].column;
              forall i :: i in r.value <==> 0 <= i < c.Size() && c.Contents()[i] == codec.pack(f.value)
  {
    var name := f.columnReference.columnName;
    if name !in t then
      Err(MissingColumnException(name))
    else
      match t[name]
      case OtherColumn(_) => Err(ClassCastException)
      case TimeColumn(c) =>
        assert c in TimeColumnNamed(t, name);
        Ok(MatchingRows(c.Contents(), codec.pack(f.value)))
  }

  /**
   * `apply` returns what the column's own `isEqualTo` returns for the
   * filter's time: the two share one definition of the selection.
   */
  method ApplyByIsEqualTo(f: TimeEqualTo, t: Table, codec: TimeCodec) returns (r: Result<seq<int>>)
    requires forall c | c in TimeColumnNamed(t, f.columnReference.columnName) :: c.Valid()
    ensures r == Apply(f, t, codec)
  {
    var name := f.columnReference.columnName;
    if name !in t {
      return Err(MissingColumnException(name));
    }
    match t[name]
    case OtherColumn(_) =>
      r := Err(ClassCastException);
    case TimeColumn(dateColumn) =>
      assert dateColumn in TimeColumnNamed(t, name);
      var rows := dateColumn.IsEqualTo(f.value, codec);
      r := Ok(rows);
  }
}
