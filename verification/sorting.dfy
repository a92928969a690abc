/**
 `qsort` with a three-way comparator. `qsort` is not stable, so what a call
 promises is only that its result is ordered by the comparator and is a
 permutation of its input; `IsQsortOf` says exactly that, and the lemmas
 elsewhere are stated for every result it admits. `Sort` (an insertion sort)
 is one such result, used where the model needs a concrete value.
 */
module Sorting {

  /** Every earlier element compares `<= 0` against every later one. */
  ghost predicate SortedBy<T>(cmp: (T, T) -> int, s: seq<T>) {
    forall i, j | 0 <= i < j < |s| :: cmp(s[i], s[j]) <= 0
  }

  /** `cmp` is a usable `qsort` comparator: any two elements are ordered one
      way or the other, and `<= 0` is transitive. */
  ghost predicate TotalPreorder<T(!new)>(cmp: (T, T) -> int) {
    && (forall a, b :: cmp(a, b) <= 0 || cmp(b, a) <= 0)
    && (forall a, b, c :: cmp(a, b) <= 0 && cmp(b, c) <= 0 ==> cmp(a, c) <= 0)
  }

  /** `r` is a result `qsort(s, cmp)` may produce. */
  ghost predicate IsQsortOf<T>(cmp: (T, T) -> int, s: seq<T>, r: seq<T>) {
    multiset(r) == multiset(s) && SortedBy(cmp, r)
  }

  /** Inserts `x` before the first element it compares strictly below. */
  function Insert<T>(cmp: (T, T) -> int, x: T, s: seq<T>): (r: seq<T>)
    ensures multiset(r) == multiset(s) + multiset{x}
    ensures |r| == |s| + 1
  {
    if |s| == 0 then [x]
    else if cmp(x, s[0]) <= 0 then [x] + s
    else
      assert s == [s[0]] + s[1..];
      [s[0]] + Insert(cmp, x, s[1..])
  }

  lemma {:induction false} InsertSorted<T(!new)>(cmp: (T, T) -> int, x: T, s: seq<T>)
    requires TotalPreorder(cmp)
    requires SortedBy(cmp, s)
    ensures SortedBy(cmp, Insert(cmp, x, s))
  {
    if |s| > 0 && cmp(x, s[0]) > 0 {
      InsertSorted(cmp, x, s[1..]);
      var r := Insert(cmp, x, s[1..]);
      assert cmp(s[0], x) <= 0;
      forall k | 0 <= k < |r|
        ensures cmp(s[0], r[k]) <= 0
      {
        assert r[k] in multiset(r);
        assert r[k] in multiset(s[1..]) + multiset{x};
        if r[k] != x {
          assert r[k] in multiset(s[1..]);
          var m :| 0 <= m < |s[1..]| && s[1..][m] == r[k];
          assert s[m + 1] == r[k];
        }
      }
    }
  }

  /** Insertion sort: one of the results `qsort` may produce. */
  function Sort<T>(cmp: (T, T) -> int, s: seq<T>): (r: seq<T>)
    ensures multiset(r) == multiset(s)
    ensures |r| == |s|
  {
    if |s| == 0 then []
    else
      assert s == [s[0]] + s[1..];
      Insert(cmp, s[0], Sort(cmp, s[1..]))
  }

  /** Insertion sort meets the `qsort` contract for every usable comparator. */
  lemma {:induction false} SortIsQsort<T(!new)>(cmp: (T, T) -> int, s: seq<T>)
    requires TotalPreorder(cmp)
    ensures IsQsortOf(cmp, s, Sort(cmp, s))
  {
    if |s| > 0 {
      SortIsQsort(cmp, s[1..]);
      InsertSorted(cmp, s[0], Sort(cmp, s[1..]));
    }
  }
}
