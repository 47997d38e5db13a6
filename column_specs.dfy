/**
 * Reference definitions, on the sequence of live packed values, of what
 * the time column's scans compute: the rows equal to a key, the values a
 * predicate keeps, the distinct values, and per-value counts; and the
 * rounds of `append`'s loop, as written, when a column is appended to
 * itself.
 */
module ColumnSpecs {
  import opened JavaLang

  ghost predicate StrictlyIncreasing(r: seq<int>) {
    forall i, j :: 0 <= i < j < |r| ==> r[i] < r[j]
  }

  ghost predicate NoDuplicates(s: seq<int32>) {
    forall i, j :: 0 <= i < j < |s| ==> s[i] != s[j]
  }

  /** The set of values occurring in `s`. */
  function Elements(s: seq<int32>): set<int32> {
    set x | x in s
  }

  // ---------------------------------------------------------------------------
  // Equality selection

  /** The row indices of `s` holding `key`, ascending. */
  function MatchingRows(s: seq<int32>, key: int32): (r: seq<int>)
    ensures StrictlyIncreasing(r)
    ensures forall k :: 0 <= k < |r| ==> 0 <= r[k] < |s| && s[r[k]] == key
    ensures forall i :: 0 <= i < |s| && s[i] == key ==> i in r
  {
    if s == [] then []
    else
      var n := |s| - 1;
      MatchingRows(s[..n], key) + (if s[n] == key then [n] else [])
  }

  // ---------------------------------------------------------------------------
  // Filtering

  /** The values of `s` that satisfy `p`, in their original order. */
  function Filter(p: int32 -> bool, s: seq<int32>): (r: seq<int32>)
    ensures |r| <= |s|
  {
    if s == [] then []
    else
      var n := |s| - 1;
      Filter(p, s[..n]) + (if p(s[n]) then [s[n]] else [])
  }

  /** The filter keeps every occurrence of each value that satisfies `p`, and no other value. */
  lemma {:induction false} FilterCounts(p: int32 -> bool, s: seq<int32>)
    ensures forall x :: multiset(Filter(p, s))[x] == if p(x) then multiset(s)[x] else 0
  {
    if s != [] {
      var n := |s| - 1;
      FilterCounts(p, s[..n]);
      assert s == s[..n] + [s[n]];
    }
  }

  /** Every value the filter keeps satisfies the predicate. */
  lemma FilterSatisfies(p: int32 -> bool, s: seq<int32>)
    ensures forall k :: 0 <= k < |Filter(p, s)| ==> p(Filter(p, s)[k])
  {
    var r := Filter(p, s);
    FilterCounts(p, s);
    forall k | 0 <= k < |r| ensures p(r[k]) {
      assert multiset(r)[r[k]] > 0;
    }
  }

  lemma {:induction false} FilterOfPassing(p: int32 -> bool, s: seq<int32>)
    requires forall k :: 0 <= k < |s| ==> p(s[k])
    ensures Filter(p, s) == s
  {
    if s != [] {
      var n := |s| - 1;
      FilterOfPassing(p, s[..n]);
      assert s[..n] + [s[n]] == s;
    }
  }

  /** Filtering keeps everything exactly when every value satisfies the predicate. */
  lemma FilterKeepsAll(p: int32 -> bool, s: seq<int32>)
    ensures Filter(p, s) == s <==> forall k :: 0 <= k < |s| ==> p(s[k])
  {
    FilterSatisfies(p, s);
    if forall k :: 0 <= k < |s| ==> p(s[k]) {
      FilterOfPassing(p, s);
    }
  }

  /** Filtering twice with the same predicate is filtering once. */
  lemma FilterIdempotent(p: int32 -> bool, s: seq<int32>)
    ensures Filter(p, Filter(p, s)) == Filter(p, s)
  {
    FilterSatisfies(p, s);
    FilterKeepsAll(p, Filter(p, s));
  }

  // ---------------------------------------------------------------------------
  // Distinct values

  /** The distinct values of `s`, each once, in order of first occurrence. */
  function Distinct(s: seq<int32>): (r: seq<int32>)
    ensures NoDuplicates(r)
    ensures forall x :: x in r <==> x in s
  {
    if s == [] then []
    else
      var n := |s| - 1;
      var d := Distinct(s[..n]);
      assert forall x :: x in s <==> x in s[..n] || x == s[n];
      if s[n] in d then d else d + [s[n]]
  }

  /** A sequence without duplicates has as many elements as distinct values. */
  lemma {:induction false} NoDuplicatesCard(s: seq<int32>)
    requires NoDuplicates(s)
    ensures |Elements(s)| == |s|
  {
    if s != [] {
      var n := |s| - 1;
      NoDuplicatesCard(s[..n]);
      assert s[n] !in s[..n];
      assert Elements(s) == Elements(s[..n]) + {s[n]};
    }
  }

  /** A sequence has at most as many distinct values as elements, and none only when empty. */
  lemma {:induction false} ElementsBound(s: seq<int32>)
    ensures |Elements(s)| <= |s|
    ensures |Elements(s)| == 0 <==> s == []
  {
    if s != [] {
      var n := |s| - 1;
      ElementsBound(s[..n]);
      assert Elements(s) == Elements(s[..n]) + {s[n]};
      assert s[n] in Elements(s);
    }
  }

  /** `Distinct(s)` holds each distinct value of `s` exactly once. */
  lemma DistinctCard(s: seq<int32>)
    ensures Elements(Distinct(s)) == Elements(s)
    ensures |Distinct(s)| == |Elements(s)|
  {
    NoDuplicatesCard(Distinct(s));
  }

  // ---------------------------------------------------------------------------
  // Frequency counts

  /** `Integer.MIN_VALUE` read as the column's missing sentinel, any other value as itself. */
  function NormalizeMissing(v: int32, missingValue: int32): int32 {
    if v == INTEGER_MIN_VALUE then missingValue else v
  }

  function Normalized(s: seq<int32>, missingValue: int32): (r: seq<int32>)
    ensures |r| == |s|
    ensures forall k :: 0 <= k < |s| ==> r[k] == NormalizeMissing(s[k], missingValue)
  {
    seq(|s|, k requires 0 <= k < |s| => NormalizeMissing(s[k], missingValue))
  }

  /** `counts` maps exactly the values of `s`, each to its number of occurrences. */
  ghost predicate IsCountOf(counts: map<int32, int>, s: seq<int32>) {
    && (forall v :: v in counts <==> v in s)
    && (forall v :: v in counts ==> counts[v] == multiset(s)[v])
  }

  // ---------------------------------------------------------------------------
  // `append` of a column to itself, as written

  /**
   * The live values after `k` rounds of `append`'s loop when the appended
   * column shares this column's list: round `i` appends the value at index
   * `i`, and the loop guard `i < size()` reads the size that has just grown.
   */
  function SelfAppendRounds(s: seq<int32>, k: nat): (b: seq<int32>)
    requires |s| > 0 || k == 0
    ensures |b| == |s| + k
  {
    if k == 0 then s
    else
      var b := SelfAppendRounds(s, k - 1);
      b + [b[k - 1]]
  }

  /**
   * On a non-empty column the loop never exits: after any number `k` of
   * rounds the guard `k < size()` still holds, the old values are still in
   * front, and every appended value repeats the one `|s|` places earlier.
   */
  lemma {:induction false} SelfAppendNeverExits(s: seq<int32>, k: nat)
    requires |s| > 0
    ensures k < |SelfAppendRounds(s, k)|
    ensures SelfAppendRounds(s, k)[..|s|] == s
    ensures forall m :: 0 <= m < k ==> SelfAppendRounds(s, k)[|s| + m] == SelfAppendRounds(s, k)[m]
  {
    if k > 0 {
      SelfAppendNeverExits(s, k - 1);
      var b := SelfAppendRounds(s, k - 1);
      assert SelfAppendRounds(s, k) == b + [b[k - 1]];
    }
  }
}
