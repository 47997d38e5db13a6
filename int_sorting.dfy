/**
 * Comparator-driven sorting of packed `int` values.
 *
 * The column sorts its buffer with library sorts (`Arrays.parallelSort`,
 * `IntArrays.parallelQuickSort`); only the order they leave is modelled.
 * `SortBy` is a reference sort, and `SortedPermutationsEqual` shows that
 * every sort leaves the same array, so the choice of algorithm is invisible.
 */
module IntSorting {
  import opened JavaLang

  /** An `IntComparator`'s `compare(int, int)`. */
  type Comparator = (int32, int32) -> int

  /**
   * `cmp` orders `int` values totally: it is antisymmetric in sign,
   * zero exactly on equal values, and transitive.
   */
  ghost predicate IsIntOrder(cmp: Comparator) {
    && (forall a, b :: cmp(a, b) < 0 <==> cmp(b, a) > 0)
    && (forall a, b :: cmp(a, b) == 0 <==> a == b)
    && (forall a, b, c :: cmp(a, b) <= 0 && cmp(b, c) <= 0 ==> cmp(a, c) <= 0)
  }

  /** Every earlier element of `s` compares at most equal to every later one. */
  ghost predicate SortedBy(cmp: Comparator, s: seq<int32>) {
    forall i, j :: 0 <= i < j < |s| ==> cmp(s[i], s[j]) <= 0
  }

  lemma IntegerCompareIsIntOrder()
    ensures IsIntOrder(IntegerCompare)
  {
  }

  /** `x` inserted into `s` before the first element it does not follow. */
  function InsertBy(cmp: Comparator, x: int32, s: seq<int32>): (r: seq<int32>)
    ensures multiset(r) == multiset(s) + multiset{x}
  {
    if s == [] then [x]
    else if cmp(x, s[0]) <= 0 then [x] + s
    else
      assert s == [s[0]] + s[1..];
      [s[0]] + InsertBy(cmp, x, s[1..])
  }

  /** Insertion sort: the reference for every sort of the buffer. */
  function SortBy(cmp: Comparator, s: seq<int32>): (r: seq<int32>)
    ensures multiset(r) == multiset(s)
    ensures |r| == |s|
  {
    if s == [] then []
    else
      assert s == [s[0]] + s[1..];
      InsertBy(cmp, s[0], SortBy(cmp, s[1..]))
  }

  /** The first element of a sorted sequence precedes every element of it. */
  lemma SortedHeadPrecedes(cmp: Comparator, s: seq<int32>, x: int32)
    requires IsIntOrder(cmp) && SortedBy(cmp, s)
    requires x in s
    ensures cmp(s[0], x) <= 0
  {
    var k :| 0 <= k < |s| && s[k] == x;
    if k == 0 {
      assert cmp(x, x) == 0;
    }
  }

  /** Prefixing a sorted sequence with a value that precedes all of it keeps it sorted. */
  lemma ConsSorted(cmp: Comparator, x: int32, t: seq<int32>)
    requires SortedBy(cmp, t)
    requires forall k :: 0 <= k < |t| ==> cmp(x, t[k]) <= 0
    ensures SortedBy(cmp, [x] + t)
  {
    var r := [x] + t;
    forall i, j | 0 <= i < j < |r| ensures cmp(r[i], r[j]) <= 0 {
      assert r[j] == t[j - 1];
      if i > 0 {
        assert r[i] == t[i - 1];
      }
    }
  }

  /** A value that precedes `x` and all of `s` precedes all of `InsertBy(cmp, x, s)`. */
  lemma PrecedesInsert(cmp: Comparator, y: int32, x: int32, s: seq<int32>)
    requires cmp(y, x) <= 0
    requires forall k :: 0 <= k < |s| ==> cmp(y, s[k]) <= 0
    ensures forall k :: 0 <= k < |InsertBy(cmp, x, s)| ==> cmp(y, InsertBy(cmp, x, s)[k]) <= 0
  {
    var t := InsertBy(cmp, x, s);
    forall k | 0 <= k < |t| ensures cmp(y, t[k]) <= 0 {
      assert t[k] in multiset(t);
      if t[k] != x {
        assert t[k] in multiset(s);
        assert t[k] in s;
      }
    }
  }

  lemma {:induction false} InsertBySorted(cmp: Comparator, x: int32, s: seq<int32>)
    requires IsIntOrder(cmp) && SortedBy(cmp, s)
    ensures SortedBy(cmp, InsertBy(cmp, x, s))
  {
    if s == [] {
    } else if cmp(x, s[0]) <= 0 {
      forall k | 0 <= k < |s| ensures cmp(x, s[k]) <= 0 {
        if k > 0 {
          assert cmp(s[0], s[k]) <= 0;
        }
      }
      ConsSorted(cmp, x, s);
    } else {
      assert cmp(s[0], x) < 0;
      assert SortedBy(cmp, s[1..]);
      InsertBySorted(cmp, x, s[1..]);
      assert forall k :: 0 <= k < |s[1..]| ==> cmp(s[0], s[1..][k]) <= 0;
      PrecedesInsert(cmp, s[0], x, s[1..]);
      ConsSorted(cmp, s[0], InsertBy(cmp, x, s[1..]));
    }
  }

  lemma {:induction false} SortBySorted(cmp: Comparator, s: seq<int32>)
    requires IsIntOrder(cmp)
    ensures SortedBy(cmp, SortBy(cmp, s))
  {
    if s != [] {
      SortBySorted(cmp, s[1..]);
      InsertBySorted(cmp, s[0], SortBy(cmp, s[1..]));
    }
  }

  lemma SortedTail(cmp: Comparator, s: seq<int32>)
    requires s != [] && SortedBy(cmp, s)
    ensures SortedBy(cmp, s[1..])
  {
    forall i, j | 0 <= i < j < |s| - 1 ensures cmp(s[1..][i], s[1..][j]) <= 0 {
      assert s[1..][i] == s[i + 1] && s[1..][j] == s[j + 1];
    }
  }

  lemma TailMultiset(s: seq<int32>)
    requires s != []
    ensures multiset(s[1..]) == multiset(s) - multiset{s[0]}
  {
    assert s == [s[0]] + s[1..];
  }

  /** Sorted sequences holding the same values start with the same value. */
  lemma SortedHeadsEqual(cmp: Comparator, a: seq<int32>, b: seq<int32>)
    requires IsIntOrder(cmp)
    requires SortedBy(cmp, a) && SortedBy(cmp, b)
    requires multiset(a) == multiset(b) && a != []
    ensures b != [] && a[0] == b[0]
  {
    assert a[0] in multiset(b);
    assert b[0] in multiset(a);
    SortedHeadPrecedes(cmp, a, b[0]);
    SortedHeadPrecedes(cmp, b, a[0]);
    assert !(cmp(a[0], b[0]) < 0);
  }

  /**
   * Two sorted sequences holding the same values are equal: a sort's
   * result does not depend on the algorithm that produced it.
   */
  lemma {:induction false} SortedPermutationsEqual(cmp: Comparator, a: seq<int32>, b: seq<int32>)
    requires IsIntOrder(cmp)
    requires SortedBy(cmp, a) && SortedBy(cmp, b)
    requires multiset(a) == multiset(b)
    ensures a == b
  {
    if a == [] {
      assert |b| == |multiset(b)| == 0;
    } else {
      SortedHeadsEqual(cmp, a, b);
      TailMultiset(a);
      TailMultiset(b);
      SortedTail(cmp, a);
      SortedTail(cmp, b);
      SortedPermutationsEqual(cmp, a[1..], b[1..]);
    }
  }

  /**
   * Sorting a buffer whose first `n` slots are live, when an unused slot `j`
   * holds a value that sorts before every live value, leaves a live prefix
   * that is not a permutation of the old live values.
   */
  lemma WholeBufferSortDisplacesLiveValue(cmp: Comparator, buf: seq<int32>, after: seq<int32>, n: nat, j: nat)
    requires IsIntOrder(cmp)
    requires 0 < n <= j < |buf|
    requires forall k :: 0 <= k < n ==> cmp(buf[j], buf[k]) < 0
    requires SortedBy(cmp, after) && multiset(after) == multiset(buf)
    ensures |after| == |buf|
    ensures multiset(after[..n]) != multiset(buf[..n])
  {
    assert |after| == |multiset(after)| == |buf|;
    assert buf[j] in multiset(after);
    SortedHeadPrecedes(cmp, after, buf[j]);
    assert after[0] in multiset(after[..n]);
    forall k | 0 <= k < n ensures buf[k] != after[0] {
      assert cmp(buf[j], buf[k]) < 0;
      assert cmp(buf[k], buf[j]) > 0;
    }
    assert after[0] !in buf[..n];
  }
}
