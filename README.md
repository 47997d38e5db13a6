# LOCAL_TIME column store, modelled in Dafny

This project models the time-of-day column of the *outlier* table engine
(`LocalTimeColumn`) and the `TimeEqualTo` filter built on it.

A time column is a named column whose rows are *packed times*: each
`java.time.LocalTime` is packed into one 32-bit `int`, and every query,
sort and count works on those `int`s directly. The values live in a
growable `int` list (fastutil's `IntArrayList`): a backing array whose
length is the list's capacity (128 for a new column), of which the first
`size()` slots are the rows. The remaining slots keep whatever they last
held: zeros from allocation, or values left behind by `clear()`.

Modules, leaves first:

- `JavaLang` (`java_lang.dfy`): the 32-bit `int`, `Integer.compare`,
  nullable references, and the exceptions the operations throw, as values
  (`Result`, `Outcome`).
- `IntSorting` (`int_sorting.dfy`): comparators, a reference sort
  `SortBy`, proofs that it sorts and permutes, and that every sorted
  permutation is the same sequence, so the library sort used by the
  source leaves exactly what `SortBy` gives.
- `IntArrayLists` (`int_array_list.dfy`): the `IntArrayList` class the
  column keeps its rows in.
- `ColumnSpecs` (`column_specs.dfy`): reference definitions on the rows'
  values (rows equal to a key, filtering, distinct values, counts) and
  their lemmas.
- `PackedLocalTimes` (`packed_local_time.dfy`): `LocalTime`, zero padding,
  and `TimeCodec`, the collaborators whose bodies are not part of this
  model.
- `LocalTimeColumns` (`local_time_column.dfy`): the `LocalTimeColumn`
  class, `convert`, the descending comparator.
- `TimeFilters` (`time_equal_to.dfy`): `TimeEqualTo` and its `apply`.

The packing function `PackedLocalTime.pack`, `LocalTime.parse` with the
column's time formatter, the missing sentinel `MISSING_VALUE` and the set
of missing-value tokens `TypeUtils.MISSING_INDICATORS` are not part of this
model. They are the four fields of a `TimeCodec` value that every
operation needing them takes as a parameter, so everything proved holds
for any packing, any parser and any sentinel.

Four behaviours of the code that a reader might expect otherwise:

- a failed `append` type check throws `IllegalArgumentException`
  (Guava's `checkArgument`), not a dedicated type-mismatch error;
- `addCell` decorates only a `NullPointerException` with the column name
  and the cell; a parse failure propagates undecorated;
- `copy()` shares the list with the original rather than copying it;
- the sorts reorder the whole backing array (see Findings).

## Model

| member | source | states |
|---|---|---|
| `IntArrayLists.IntArrayList.constructor` | src/main/java/com/deathrayresearch/outlier/columns/LocalTimeColumn.java:46-49 | a new list is empty, over a fresh zero-filled array of the requested capacity |
| `IntArrayLists.IntArrayList.Wrap` | src/main/java/com/deathrayresearch/outlier/columns/LocalTimeColumn.java:157 | a wrapped array is a full list over that very array |
| `IntArrayLists.IntArrayList.Add` | src/main/java/com/deathrayresearch/outlier/columns/LocalTimeColumn.java:65-67 | the value becomes the last live value; the slots beyond keep their old values, or are zeros when the list moved to a fresh larger array |
| `IntArrayLists.IntArrayList.Clear` | src/main/java/com/deathrayresearch/outlier/columns/LocalTimeColumn.java:84-87 | no live values remain, and the backing array is kept as it was |
| `LocalTimeColumns.LocalTimeColumn.constructor` | src/main/java/com/deathrayresearch/outlier/columns/LocalTimeColumn.java:36-49 | `create(name)` gives an empty column with that name over a fresh list of capacity 128, all zeros |
| `LocalTimeColumns.LocalTimeColumn.WithInitialSize` | src/main/java/com/deathrayresearch/outlier/columns/LocalTimeColumn.java:56-59 | an empty column with that name over a fresh list whose slots, as many as the given capacity, are all zeros |
| `LocalTimeColumns.LocalTimeColumn.Create` | src/main/java/com/deathrayresearch/outlier/columns/LocalTimeColumn.java:40-44 | the new column's list is the given list itself, not a copy |
| `LocalTimeColumns.LocalTimeColumn.Size` | src/main/java/com/deathrayresearch/outlier/columns/LocalTimeColumn.java:61-63 | the size is the number of live values |
| `LocalTimeColumns.LocalTimeColumn.IsEmpty` | src/main/java/com/deathrayresearch/outlier/columns/LocalTimeColumn.java:160-163 | true exactly when the column has no rows |
| `LocalTimeColumns.LocalTimeColumn.GetInt` | src/main/java/com/deathrayresearch/outlier/columns/LocalTimeColumn.java:186-188 | an index inside the rows gives that row's packed value; any other index fails with an index-out-of-bounds error |
| `LocalTimeColumns.LocalTimeColumn.Add` | src/main/java/com/deathrayresearch/outlier/columns/LocalTimeColumn.java:65-67 | `add(f)` grows the size by one, `f` is the new last row, all earlier rows are unchanged |
| `LocalTimeColumns.LocalTimeColumn.Clear` | src/main/java/com/deathrayresearch/outlier/columns/LocalTimeColumn.java:84-87 | after `clear()` the size is 0 and the backing array is the same array |
| `LocalTimeColumns.LocalTimeColumn.EmptyCopy` | src/main/java/com/deathrayresearch/outlier/columns/LocalTimeColumn.java:79-82 | a new, empty column with the same name over a fresh list whose 128 slots are all zeros |
| `LocalTimeColumns.LocalTimeColumn.Copy` | src/main/java/com/deathrayresearch/outlier/columns/LocalTimeColumn.java:89-91 | a new column with the same name whose list IS this column's list, so every later change shows in both |
| `LocalTimeColumns.LocalTimeColumn.SortAscending` | src/main/java/com/deathrayresearch/outlier/columns/LocalTimeColumn.java:93-96 | the whole backing array, unused slots included, becomes a non-decreasing permutation of its previous contents |
| `LocalTimeColumns.LocalTimeColumn.SortDescending` | src/main/java/com/deathrayresearch/outlier/columns/LocalTimeColumn.java:98-101 | the whole backing array, unused slots included, becomes a non-increasing permutation of its previous contents |
| `LocalTimeColumns.LocalTimeColumn.SortAscendingLive` | src/main/java/com/deathrayresearch/outlier/columns/LocalTimeColumn.java:93-96 | corrected sort: the rows become a non-decreasing permutation of the old rows and the unused slots are untouched |
| `LocalTimeColumns.LocalTimeColumn.SortDescendingLive` | src/main/java/com/deathrayresearch/outlier/columns/LocalTimeColumn.java:98-101 | corrected sort: the rows become a non-increasing permutation of the old rows and the unused slots are untouched |
| `LocalTimeColumns.SortAscendingExample` | src/main/java/com/deathrayresearch/outlier/columns/LocalTimeColumn.java:93-96 | a new column holding 5, sorted ascending, reads 0 in its one row |
| `LocalTimeColumns.SortDescendingExample` | src/main/java/com/deathrayresearch/outlier/columns/LocalTimeColumn.java:98-101 | a column that held 3 and 9, was cleared and given 3 again, sorted descending, reads the cleared 9 in its one row |
| `IntSorting.WholeBufferSortDisplacesLiveValue` | src/main/java/com/deathrayresearch/outlier/columns/LocalTimeColumn.java:93-101 | whenever an unused slot holds a value that sorts before every row, a whole-array sort leaves rows that are not a permutation of the old rows |
| `JavaLang.IntegerCompare` | src/main/java/com/deathrayresearch/outlier/columns/LocalTimeColumn.java:210 | `Integer.compare` is negative, zero or positive exactly as the first value is below, equal to or above the second |
| `IntSorting.IntegerCompareIsIntOrder` | src/main/java/com/deathrayresearch/outlier/columns/LocalTimeColumn.java:93-96 | the natural order used by the ascending sort is a total order: sign-antisymmetric, zero only on equal values, transitive |
| `LocalTimeColumns.ReverseIntComparator` | src/main/java/com/deathrayresearch/outlier/columns/LocalTimeColumn.java:103-114 | `compare(a, b)` is negative exactly when `a > b`, zero exactly when `a == b`, positive exactly when `a < b` |
| `LocalTimeColumns.ReverseIntComparatorIsIntOrder` | src/main/java/com/deathrayresearch/outlier/columns/LocalTimeColumn.java:103-114 | the reversed comparator is a total order: sign-antisymmetric, zero only on equal values, transitive |
| `LocalTimeColumns.SortedByIntegerCompareIsAscending` | src/main/java/com/deathrayresearch/outlier/columns/LocalTimeColumn.java:93-96 | a sequence sorted by `Integer.compare` is non-decreasing |
| `LocalTimeColumns.SortedByReverseIsDescending` | src/main/java/com/deathrayresearch/outlier/columns/LocalTimeColumn.java:98-114 | a sequence sorted by the reversed comparator is non-increasing |
| `IntSorting.SortBy` | src/main/java/com/deathrayresearch/outlier/columns/LocalTimeColumn.java:93-101 | the reference sort returns a permutation of its input |
| `IntSorting.SortBySorted` | src/main/java/com/deathrayresearch/outlier/columns/LocalTimeColumn.java:93-101 | the reference sort's result is sorted by any comparator that is a total order |
| `IntSorting.SortedPermutationsEqual` | src/main/java/com/deathrayresearch/outlier/columns/LocalTimeColumn.java:93-101 | two sorted permutations of the same values are equal, so which sort algorithm runs is unobservable |
| `LocalTimeColumns.LocalTimeColumn.SummaryCounts` | src/main/java/com/deathrayresearch/outlier/columns/LocalTimeColumn.java:119-134 | the counting loop maps exactly the rows' values, `Integer.MIN_VALUE` read as the missing sentinel, each to its number of occurrences; a count cannot exceed the number of rows, itself a Java `int`, so the source's `int` counts cannot overflow |
| `LocalTimeColumns.LocalTimeColumn.CountUnique` | src/main/java/com/deathrayresearch/outlier/columns/LocalTimeColumn.java:148-152 | the number of distinct packed values is at most the size, and zero only for an empty column |
| `ColumnSpecs.ElementsBound` | src/main/java/com/deathrayresearch/outlier/columns/LocalTimeColumn.java:148-152 | a sequence has at most as many distinct values as elements, and none only when empty |
| `LocalTimeColumns.LocalTimeColumn.Unique` | src/main/java/com/deathrayresearch/outlier/columns/LocalTimeColumn.java:154-158 | a new column named "<name> Unique values" holding each distinct packed value exactly once, so its size is `countUnique()`, over a fresh list and a fresh array exactly that long |
| `ColumnSpecs.Distinct` | src/main/java/com/deathrayresearch/outlier/columns/LocalTimeColumn.java:156 | the distinct values have no duplicates and contain exactly the values of the input |
| `ColumnSpecs.NoDuplicatesCard` | src/main/java/com/deathrayresearch/outlier/columns/LocalTimeColumn.java:148-158 | a sequence without duplicates has as many distinct values as elements |
| `ColumnSpecs.DistinctCard` | src/main/java/com/deathrayresearch/outlier/columns/LocalTimeColumn.java:148-158 | the distinct values of a sequence number exactly as many as its set of values |
| `PackedLocalTimes.PadStart` | src/main/java/com/deathrayresearch/outlier/columns/LocalTimeColumn.java:171 | padding yields the original string behind pad characters, of length max(original, minimum); a long enough string is unchanged |
| `PackedLocalTimes.PadStartIdempotent` | src/main/java/com/deathrayresearch/outlier/columns/LocalTimeColumn.java:171 | padding a padded string changes nothing |
| `LocalTimeColumns.Convert` | src/main/java/com/deathrayresearch/outlier/columns/LocalTimeColumn.java:165-173 | null, empty, a missing-value token or "-1" give the missing sentinel; any other cell shorter than 4 characters is parsed behind as many zeros as bring it to 4, a longer one as given, and the result is the packed parsed time or the parser's own exception |
| `LocalTimeColumns.ConvertPadding` | src/main/java/com/deathrayresearch/outlier/columns/LocalTimeColumn.java:165-173 | a short token converts exactly like its zero-padded form, and a token of length 4 or more is parsed unchanged |
| `LocalTimeColumns.LocalTimeColumn.AddCell` | src/main/java/com/deathrayresearch/outlier/columns/LocalTimeColumn.java:175-184 | a converted cell is added as the last row; a null-pointer failure becomes a runtime error naming the column and the cell; any other failure propagates unchanged; a failure changes nothing; on success the slots past the new last row are those `add` leaves: kept in the same array, or zeros in a fresh grown one |
| `LocalTimeColumns.LocalTimeColumn.RowCompare` | src/main/java/com/deathrayresearch/outlier/columns/LocalTimeColumn.java:194-212 | comparing two rows has the sign of comparing their packed values; an out-of-range row fails, the first row checked first |
| `LocalTimeColumns.LocalTimeColumn.IsEqualTo` | src/main/java/com/deathrayresearch/outlier/columns/LocalTimeColumn.java:214-225 | returns exactly the row indices whose packed value equals the packed argument, strictly ascending, and changes nothing |
| `ColumnSpecs.MatchingRows` | src/main/java/com/deathrayresearch/outlier/columns/LocalTimeColumn.java:214-225 | the selection is strictly ascending, holds only in-range rows equal to the key, and every such row |
| `LocalTimeColumns.LocalTimeColumn.SelectIf` | src/main/java/com/deathrayresearch/outlier/columns/LocalTimeColumn.java:263-273 | a new column with the same name holding, in order, the rows whose packed value satisfies the predicate, over a fresh list and array whose slots past the last row are all zeros; the source column is unchanged |
| `ColumnSpecs.FilterCounts` | src/main/java/com/deathrayresearch/outlier/columns/LocalTimeColumn.java:263-273 | the filtered sequence keeps every occurrence of each value that satisfies the predicate and none of the others |
| `ColumnSpecs.FilterSatisfies` | src/main/java/com/deathrayresearch/outlier/columns/LocalTimeColumn.java:263-273 | every kept value satisfies the predicate |
| `ColumnSpecs.FilterOfPassing` | src/main/java/com/deathrayresearch/outlier/columns/LocalTimeColumn.java:263-273 | when every value satisfies the predicate, filtering returns the sequence itself |
| `ColumnSpecs.FilterKeepsAll` | src/main/java/com/deathrayresearch/outlier/columns/LocalTimeColumn.java:263-273 | filtering returns the sequence unchanged exactly when every value satisfies the predicate |
| `ColumnSpecs.FilterIdempotent` | src/main/java/com/deathrayresearch/outlier/columns/LocalTimeColumn.java:263-273 | selecting twice with the same predicate is selecting once |
| `LocalTimeColumns.LocalTimeColumn.Append` | src/main/java/com/deathrayresearch/outlier/columns/LocalTimeColumn.java:275-282 | a column not of type LOCAL_TIME fails with an illegal-argument error, one that is not a time column fails at the cast, both before any change; otherwise the rows become the old rows followed by all of the other column's rows, in order; the slots past the last row keep their old values while the array stays, are zeros once the list has grown, and the array stays when there is room for every new row. For a column sharing this column's list, reading the row count once is the correction of Findings row 3: as written the source does not return in that case |
| `LocalTimeColumns.LocalTimeColumn.AddKeepingSlots` | src/main/java/com/deathrayresearch/outlier/columns/LocalTimeColumn.java:280 | each `add` of `append`'s loop appends the value, keeps the array when there is room, and keeps every unused slot either as it was in the original array or zero in a fresh one |
| `ColumnSpecs.SelfAppendRounds` | src/main/java/com/deathrayresearch/outlier/columns/LocalTimeColumn.java:279-281 | each round of `append`'s loop over a column sharing this column's list adds one row |
| `ColumnSpecs.SelfAppendNeverExits` | src/main/java/com/deathrayresearch/outlier/columns/LocalTimeColumn.java:279-281 | appending a non-empty column to itself never leaves the loop: after any number of rounds the guard still holds |
| `TimeFilters.Apply` | src/main/java/com/deathrayresearch/outlier/filter/TimeEqualTo.java:14-24 | with the time fixed at construction: exactly the ascending rows of the named column whose packed value equals the packed time; an absent name fails; a column that is not a time column fails at the cast; nothing is written |
| `TimeFilters.ApplyByIsEqualTo` | src/main/java/com/deathrayresearch/outlier/filter/TimeEqualTo.java:21-24 | delegating to the column's `isEqualTo` returns exactly what `Apply` specifies, and changes no column |

## Findings

| source | as written | input that shows it | evidently intended | confidence | as-written member | corrected member |
|---|---|---|---|---|---|---|
| src/main/java/com/deathrayresearch/outlier/columns/LocalTimeColumn.java:95 | `sortAscending` sorts `data.elements()`, the whole backing array, so zeros in unused slots move into the rows | `create("t")`, `add(5)`, `sortAscending()`: `getInt(0)` returns 0 and the 5 is gone | sort only the first `size()` values | high; not executed | `LocalTimeColumns.LocalTimeColumn.SortAscending`, shown by `LocalTimeColumns.SortAscendingExample` | `LocalTimeColumns.LocalTimeColumn.SortAscendingLive` |
| src/main/java/com/deathrayresearch/outlier/columns/LocalTimeColumn.java:100 | `sortDescending` sorts the whole backing array, so values left by `clear()` move back into the rows | `create("t")`, `add(3)`, `add(9)`, `clear()`, `add(3)`, `sortDescending()`: `getInt(0)` returns 9 | sort only the first `size()` values | high; not executed | `LocalTimeColumns.LocalTimeColumn.SortDescending`, shown by `LocalTimeColumns.SortDescendingExample` | `LocalTimeColumns.LocalTimeColumn.SortDescendingLive` |
| src/main/java/com/deathrayresearch/outlier/columns/LocalTimeColumn.java:279 | the loop guard re-reads `intColumn.size()`, which grows with every `add` when the appended column shares this column's list | `c.append(c)` on a non-empty column never returns | copy the rows the other column had when `append` began | medium; not executed | `ColumnSpecs.SelfAppendRounds`, shown by `ColumnSpecs.SelfAppendNeverExits` | `LocalTimeColumns.LocalTimeColumn.Append` |

## Left out

- Decoding (`get`, `PackedLocalTime.asLocalTime`, `toShortTimeString`), `getString`, `print`, `toString`, `data()` and `iterator()`: the model works on packed values only; `iterator()` is the index loop in each scan.
- `selectIf(LocalTimePredicate)`: it tests decoded times, and decoding is not part of this model.
- `max(n)` and `min(n)`: unimplemented stubs that return null.
- `summary()` after its counting loop: building the two-column table, sorting it by count and keeping five rows use `Table`, which is not part of this model.
- The `LocalTimeColumn(ColumnMetadata)` constructor: column metadata is not part of this model.
- `IntArrayList` is library code and not part of this model; its behaviour is modelled as fastutil documents it: a full list grows to twice its capacity (at least one slot), copying only the live values into a zero-filled array, and `clear()` only resets the size. The cap on array size and an `int` overflow of the size are not modelled.
- `LocalTimeColumns.LocalTimeColumn.WithInitialSize`: takes a natural capacity, so the exception for a negative initial size is not modelled.
- `LocalTimeColumns.LocalTimeColumn.Unique`: promises each distinct value once but no order, because the source's order is that of a hash set, which is not part of this model.
- `LocalTimeColumns.LocalTimeColumn.Append`: requires that two different lists do not share a backing array, which holds for every list the column's operations create (each new column's list and array are fresh, and a grown list moves to a fresh array).
- `LocalTimeColumns.LocalTimeColumn.Append`: a null `column` argument, on which the source throws a `NullPointerException` at `column.type()`, is not modelled: `Column` is a non-null value.
- `LocalTimeColumns.LocalTimeColumn.IsEqualTo` and `TimeFilters.Apply`: a null `LocalTime` argument is not modelled, because `LocalTime` is a non-null value; what `PackedLocalTime.pack` does with null is not part of this model.
- `PackedLocalTimes.PadStart`: Guava counts UTF-16 code units while a Dafny `char` is a Unicode scalar value, so a token holding a character outside the Basic Multilingual Plane is padded with one more `'0'` in the model than in the source.
- The boxed `compare(Integer, Integer)` overloads of both comparators: they give the same results as the `int` ones; unboxing a null is not modelled.
- The parallelism of `Arrays.parallelSort` and `IntArrays.parallelQuickSort`: only the order they leave is modelled.
- `IntPredicate` is a pure function of the packed value; a predicate with side effects is not modelled.
- `Table.column(name)` is not part of this model: the table is its name-to-column map, an absent name is modelled as a missing-column failure, and case-insensitive lookup is not modelled.
- `ColumnReference` and `ColumnFilter` are reduced to the referenced column's name.
