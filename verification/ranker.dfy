/**
 Ranking and the best pick (pkg_ping.c lines 924-1002). The probed mirrors
 are `qsort`ed by `diff`; with `-v` the array is scanned from the end to find
 the success, timeout and download-error groups, and the timeout and error
 groups are re-sorted with `label_rev_cmp` for the report. The run succeeds
 exactly when the first mirror's `diff` is below the ceiling `s`.
 */
module Ranker {
  import opened Sorting
  import opened Mirrors
  import opened Results

  ghost predicate DiffSorted(a: seq<Timing>) {
    SortedBy(ByDiff(), a)
  }

  /** Sorted by `diff_cmp` means the `diff`s ascend. */
  lemma DiffsAscend(a: seq<Timing>)
    requires DiffSorted(a)
    ensures forall i, j | 0 <= i < j < |a| :: a[i].diff <= a[j].diff
  {
    forall i, j | 0 <= i < j < |a|
      ensures a[i].diff <= a[j].diff
    {
      assert DiffCmp(a[i], a[j]) <= 0;
    }
  }

  /** The group bounds of lines 928-945, `-1` where a group is empty:
      successes end at `se`, timeouts span `ts..te`, errors `ds..de`. */
  datatype Groups = Groups(se: int, ts: int, te: int, ds: int, de: int)

  /** The backward scan of lines 930-945 over a `diff`-sorted array. */
  method FindGroups(a: seq<Timing>, s: real) returns (g: Groups)
    requires DiffSorted(a)
    ensures -1 <= g.se < |a|
    ensures forall i | 0 <= i < |a| :: a[i].diff < s <==> i <= g.se
    ensures forall i | 0 <= i < |a| :: a[i].diff == s <==> g.ts <= i <= g.te
    ensures forall i | 0 <= i < |a| :: a[i].diff > s <==> g.ds <= i <= g.de
    ensures g.ts == -1 <==> g.te == -1
    ensures g.ds == -1 <==> g.de == -1
    ensures g.ts != -1 ==> g.se < g.ts <= g.te < |a|
    ensures g.ds != -1 ==> g.se < g.ds <= g.de == |a| - 1
    ensures g.ts != -1 && g.ds != -1 ==> g.te < g.ds
  {
    DiffsAscend(a);
    var se, ts, te, ds, de := -1, -1, -1, -1, -1;
    var c := |a| - 1;
    while c >= 0
      invariant -1 <= c < |a|
      invariant se == -1
      invariant forall i | c < i < |a| :: a[i].diff >= s
      invariant ts == -1 <==> te == -1
      invariant ds == -1 <==> de == -1
      invariant forall i | c < i < |a| :: a[i].diff == s <==> ts <= i <= te
      invariant forall i | c < i < |a| :: a[i].diff > s <==> ds <= i <= de
      invariant ts != -1 ==> ts == c + 1 && ts <= te < |a|
      invariant ds != -1 ==> c < ds <= de == |a| - 1
      invariant ts != -1 && ds != -1 ==> te < ds
      invariant ts == -1 && ds != -1 ==> ds == c + 1
      decreases c
    {
      assert c + 1 < |a| ==> a[c].diff <= a[c + 1].diff;
      if a[c].diff < s {
        se := c;
        break;
      } else if a[c].diff == s {
        if ts == -1 {
          ts, te := c, c;
        } else {
          ts := c;
        }
      } else {
        if ds == -1 {
          ds, de := c, c;
        } else {
          ds := c;
        }
      }
      c := c - 1;
    }
    g := Groups(se, ts, te, ds, de);
  }

  /** `a` with `a[lo..hi]` replaced by `sorted`: `qsort` on a sub-array. */
  function Splice(a: seq<Timing>, lo: nat, hi: nat, sorted: seq<Timing>): (r: seq<Timing>)
    requires lo <= hi < |a| && |sorted| == hi - lo + 1
    ensures |r| == |a|
  {
    a[..lo] + sorted + a[hi + 1..]
  }

  /** A permutation of a run whose `diff`s all equal `d` has the same
      length and the same `diff`s. */
  lemma PermutedRunKeepsDiff(run: seq<Timing>, sorted: seq<Timing>, d: real)
    requires forall x <- run :: x.diff == d
    requires multiset(sorted) == multiset(run)
    ensures |sorted| == |run|
    ensures forall x <- sorted :: x.diff == d
  {
    assert |multiset(sorted)| == |multiset(run)|;
    forall x <- sorted
      ensures x.diff == d
    {
      assert x in multiset(run);
    }
  }

  /** Replacing a run of equal `diff`s by elements of the same `diff` keeps
      the array `diff`-sorted. */
  lemma SpliceKeepsDiffOrder(a: seq<Timing>, lo: nat, hi: nat, sorted: seq<Timing>)
    requires DiffSorted(a)
    requires lo <= hi < |a| && |sorted| == hi - lo + 1
    requires forall i | lo <= i <= hi :: a[i].diff == a[lo].diff
    requires forall x <- sorted :: x.diff == a[lo].diff
    ensures DiffSorted(Splice(a, lo, hi, sorted))
  {
    DiffsAscend(a);
    var r := Splice(a, lo, hi, sorted);
    forall i | 0 <= i < |r|
      ensures r[i].diff == (if lo <= i <= hi then a[lo].diff else a[i].diff)
    {
      if i < lo {
        assert r[i] == a[i];
      } else if i <= hi {
        assert r[i] == sorted[i - lo];
      } else {
        assert r[i] == a[i];
      }
    }
    forall i, j | 0 <= i < j < |r|
      ensures DiffCmp(r[i], r[j]) <= 0
    {
      var di := if lo <= i <= hi then lo else i;
      var dj := if lo <= j <= hi then lo else j;
      assert r[i].diff == a[di].diff && r[j].diff == a[dj].diff;
      assert di <= dj;
    }
  }

  /** Re-sorting a run of equal `diff`s (the timeout or the error group)
      keeps the array `diff`-sorted and a permutation of itself, keeps the
      `diff` at every position, leaves everything outside the run in place,
      and orders the run by label. */
  lemma ResortRun(a: seq<Timing>, lo: nat, hi: nat, sorted: seq<Timing>)
    requires DiffSorted(a)
    requires lo <= hi < |a|
    requires forall i | lo <= i <= hi :: a[i].diff == a[lo].diff
    requires IsQsortOf(ByLabelRev(), a[lo..hi + 1], sorted)
    ensures |sorted| == hi - lo + 1
    ensures DiffSorted(Splice(a, lo, hi, sorted))
    ensures multiset(Splice(a, lo, hi, sorted)) == multiset(a)
    ensures forall i | 0 <= i < |a| :: Splice(a, lo, hi, sorted)[i].diff == a[i].diff
    ensures forall i | 0 <= i < |a| && (i < lo || hi < i) :: Splice(a, lo, hi, sorted)[i] == a[i]
    ensures forall i, j | lo <= i < j <= hi ::
      LabelRevCmp(Splice(a, lo, hi, sorted)[i].mirror.name, Splice(a, lo, hi, sorted)[j].mirror.name) <= 0
  {
    RunShareDiff(a, lo, hi);
    PermutedRunKeepsDiff(a[lo..hi + 1], sorted, a[lo].diff);
    SpliceKeepsDiffOrder(a, lo, hi, sorted);
    SpliceMultiset(a, lo, hi, sorted);
    SpliceAt(a, lo, hi, sorted);
    var r := Splice(a, lo, hi, sorted);
    forall i | 0 <= i < |a| && lo <= i <= hi
      ensures r[i].diff == a[i].diff
    {
      assert sorted[i - lo] in sorted;
    }
    forall i, j | lo <= i < j <= hi
      ensures LabelRevCmp(r[i].mirror.name, r[j].mirror.name) <= 0
    {
      assert ByLabelRev()(sorted[i - lo], sorted[j - lo]) <= 0;
    }
  }

  /** Every element of a run of equal `diff`s carries the run's `diff`. */
  lemma RunShareDiff(a: seq<Timing>, lo: nat, hi: nat)
    requires lo <= hi < |a|
    requires forall i | lo <= i <= hi :: a[i].diff == a[lo].diff
    ensures forall x <- a[lo..hi + 1] :: x.diff == a[lo].diff
  {
    var run := a[lo..hi + 1];
    forall x <- run
      ensures x.diff == a[lo].diff
    {
      var k :| 0 <= k < |run| && run[k] == x;
      assert run[k] == a[lo + k];
    }
  }

  /** Position by position, the splice reads from `sorted` inside the run
      and from `a` outside it. */
  lemma SpliceAt(a: seq<Timing>, lo: nat, hi: nat, sorted: seq<Timing>)
    requires lo <= hi < |a| && |sorted| == hi - lo + 1
    ensures forall i | 0 <= i < |a| && lo <= i <= hi :: Splice(a, lo, hi, sorted)[i] == sorted[i - lo]
    ensures forall i | 0 <= i < |a| && (i < lo || hi < i) :: Splice(a, lo, hi, sorted)[i] == a[i]
  {
  }

  /** Splicing in a permutation of the run permutes the whole array. */
  lemma SpliceMultiset(a: seq<Timing>, lo: nat, hi: nat, sorted: seq<Timing>)
    requires lo <= hi < |a| && |sorted| == hi - lo + 1
    requires multiset(sorted) == multiset(a[lo..hi + 1])
    ensures multiset(Splice(a, lo, hi, sorted)) == multiset(a)
  {
    assert a == a[..lo] + a[lo..hi + 1] + a[hi + 1..];
  }

  /** The outcome codes the probe loop leaves: every `diff` above the
      ceiling is a download error, recorded as exactly `s + 1`. */
  ghost predicate OutcomeCoded(a: seq<Timing>, s: real) {
    forall i | 0 <= i < |a| :: a[i].diff > s ==> a[i].diff == s + 1.0
  }

  /** Within the timeout group and within the error group the mirrors are
      ordered by `label_rev_cmp`. */
  ghost predicate GroupsByLabel(a: seq<Timing>, s: real) {
    forall i, j | 0 <= i < j < |a| && a[i].diff == a[j].diff && a[i].diff >= s ::
      LabelRevCmp(a[i].mirror.name, a[j].mirror.name) <= 0
  }

  /** Sorting the run `a[lo..hi]` by label: the `qsort` calls at lines
      946-954, with `Sort` standing for the order `qsort` chose. */
  function ResortGroup(a: seq<Timing>, lo: int, hi: int): (r: seq<Timing>)
    requires -1 <= lo && hi < |a|
    requires lo == -1 ==> hi == -1
    requires lo != -1 ==> lo <= hi
    ensures |r| == |a|
    ensures multiset(r) == multiset(a)
    ensures hi <= lo ==> r == a
    ensures forall i | 0 <= i < |a| && (i < lo || hi < i) :: r[i] == a[i]
  {
    if hi > lo then
      var sorted := Sort(ByLabelRev(), a[lo..hi + 1]);
      SpliceAt(a, lo, hi, sorted);
      SpliceMultiset(a, lo, hi, sorted);
      Splice(a, lo, hi, sorted)
    else a
  }

  /** What re-sorting one group does, index by index: each position keeps
      its `diff`, positions outside the group keep their mirror, the array
      stays `diff`-sorted and a permutation, and the group is label-ordered. */
  lemma ResortGroupFacts(a: seq<Timing>, lo: int, hi: int)
    requires DiffSorted(a)
    requires -1 <= lo && hi < |a|
    requires lo == -1 ==> hi == -1
    requires lo != -1 ==> lo <= hi
    requires forall i | lo <= i <= hi && 0 <= i :: a[i].diff == a[lo].diff
    ensures DiffSorted(ResortGroup(a, lo, hi))
    ensures multiset(ResortGroup(a, lo, hi)) == multiset(a)
    ensures forall i | 0 <= i < |a| :: ResortGroup(a, lo, hi)[i].diff == a[i].diff
    ensures forall i | 0 <= i < |a| && (i < lo || hi < i) :: ResortGroup(a, lo, hi)[i] == a[i]
    ensures forall i, j | lo <= i < j <= hi && 0 <= i ::
      LabelRevCmp(ResortGroup(a, lo, hi)[i].mirror.name, ResortGroup(a, lo, hi)[j].mirror.name) <= 0
  {
    if hi > lo {
      ComparatorsAreTotalPreorders();
      SortIsQsort(ByLabelRev(), a[lo..hi + 1]);
      ResortRun(a, lo, hi, Sort(ByLabelRev(), a[lo..hi + 1]));
    }
  }

  /** The groups `FindGroups` reports: successes up to `se`, timeouts in
      `ts..te`, errors in `ds..de` (`-1` for an empty group). */
  ghost predicate Grouped(a: seq<Timing>, s: real, g: Groups) {
    && -1 <= g.se < |a|
    && (g.ts == -1 <==> g.te == -1)
    && (g.ds == -1 <==> g.de == -1)
    && (g.ts != -1 ==> g.se < g.ts <= g.te < |a|)
    && (g.ds != -1 ==> g.se < g.ds <= g.de == |a| - 1)
    && (forall i | 0 <= i < |a| :: a[i].diff < s <==> i <= g.se)
    && (forall i | 0 <= i < |a| :: a[i].diff == s <==> g.ts <= i <= g.te)
    && (forall i | 0 <= i < |a| :: a[i].diff > s <==> g.ds <= i <= g.de)
  }

  /** The array after both groups are re-sorted by label, the timeout
      group first: the same mirrors, with every success left in place. */
  function Regrouped(a: seq<Timing>, s: real, g: Groups): (r: seq<Timing>)
    requires Grouped(a, s, g)
    ensures |r| == |a|
    ensures multiset(r) == multiset(a)
    ensures forall i | 0 <= i <= g.se :: r[i] == a[i]
  {
    var mid := ResortGroup(a, g.ts, g.te);
    ResortGroup(mid, g.ds, g.de)
  }

  /** The first re-sort, of the timeout group, keeps the array in the shape
      the second one needs: `diff`-sorted with the error group intact. */
  lemma TimeoutGroupResorted(a: seq<Timing>, s: real, g: Groups)
    requires DiffSorted(a) && OutcomeCoded(a, s) && Grouped(a, s, g)
    ensures DiffSorted(ResortGroup(a, g.ts, g.te))
    ensures multiset(ResortGroup(a, g.ts, g.te)) == multiset(a)
    ensures forall i | 0 <= i < |a| :: ResortGroup(a, g.ts, g.te)[i].diff == a[i].diff
    ensures forall i | 0 <= i < |a| && a[i].diff != s :: ResortGroup(a, g.ts, g.te)[i] == a[i]
    ensures forall i, j | 0 <= i < j < |a| && a[i].diff == a[j].diff == s ::
      LabelRevCmp(ResortGroup(a, g.ts, g.te)[i].mirror.name, ResortGroup(a, g.ts, g.te)[j].mirror.name) <= 0
  {
    ResortGroupFacts(a, g.ts, g.te);
  }

  /** The second re-sort, of the error group, leaves every position with a
      `diff` other than `s + 1` alone. */
  lemma ErrorGroupResorted(mid: seq<Timing>, s: real, g: Groups)
    requires DiffSorted(mid) && OutcomeCoded(mid, s) && Grouped(mid, s, g)
    ensures DiffSorted(ResortGroup(mid, g.ds, g.de))
    ensures multiset(ResortGroup(mid, g.ds, g.de)) == multiset(mid)
    ensures forall i | 0 <= i < |mid| :: ResortGroup(mid, g.ds, g.de)[i].diff == mid[i].diff
    ensures forall i | 0 <= i < |mid| && mid[i].diff <= s :: ResortGroup(mid, g.ds, g.de)[i] == mid[i]
    ensures forall i, j | 0 <= i < j < |mid| && mid[i].diff == mid[j].diff > s ::
      LabelRevCmp(ResortGroup(mid, g.ds, g.de)[i].mirror.name, ResortGroup(mid, g.ds, g.de)[j].mirror.name) <= 0
  {
    ResortGroupFacts(mid, g.ds, g.de);
  }

  /** Grouping and outcome codes depend only on the `diff`s. */
  lemma SameDiffsSameGroups(a: seq<Timing>, b: seq<Timing>, s: real, g: Groups)
    requires |a| == |b| && forall i | 0 <= i < |a| :: b[i].diff == a[i].diff
    requires OutcomeCoded(a, s) && Grouped(a, s, g)
    ensures OutcomeCoded(b, s) && Grouped(b, s, g)
  {
  }

  /** What re-sorting both groups keeps: the `diff` order, the elements,
      the `diff` at every position and every success in place. */
  lemma RegroupedKeeps(a: seq<Timing>, s: real, g: Groups)
    requires DiffSorted(a) && OutcomeCoded(a, s) && Grouped(a, s, g)
    ensures DiffSorted(Regrouped(a, s, g))
    ensures multiset(Regrouped(a, s, g)) == multiset(a)
    ensures forall i | 0 <= i < |a| :: Regrouped(a, s, g)[i].diff == a[i].diff
    ensures forall i | 0 <= i < |a| && a[i].diff < s :: Regrouped(a, s, g)[i] == a[i]
  {
    var mid := ResortGroup(a, g.ts, g.te);
    TimeoutGroupResorted(a, s, g);
    SameDiffsSameGroups(a, mid, s, g);
    ErrorGroupResorted(mid, s, g);
  }

  /** After both re-sorts the timeout group and the error group are each
      ordered by label. */
  lemma RegroupedByLabel(a: seq<Timing>, s: real, g: Groups)
    requires DiffSorted(a) && OutcomeCoded(a, s) && Grouped(a, s, g)
    ensures GroupsByLabel(Regrouped(a, s, g), s)
  {
    var mid := ResortGroup(a, g.ts, g.te);
    TimeoutGroupResorted(a, s, g);
    SameDiffsSameGroups(a, mid, s, g);
    ErrorGroupResorted(mid, s, g);
    LabelOrderAcrossResorts(a, mid, ResortGroup(mid, g.ds, g.de), s);
  }

  /** Two re-sorts in a row, the first ordering the `diff == s` positions
      and the second the `diff > s` positions without touching the others,
      leave both groups label-ordered. */
  lemma LabelOrderAcrossResorts(a: seq<Timing>, mid: seq<Timing>, r: seq<Timing>, s: real)
    requires |mid| == |a| && |r| == |mid|
    requires forall i | 0 <= i < |a| :: mid[i].diff == a[i].diff
    requires forall i | 0 <= i < |mid| :: r[i].diff == mid[i].diff
    requires forall i | 0 <= i < |mid| && mid[i].diff <= s :: r[i] == mid[i]
    requires forall i, j | 0 <= i < j < |a| && a[i].diff == a[j].diff == s ::
      LabelRevCmp(mid[i].mirror.name, mid[j].mirror.name) <= 0
    requires forall i, j | 0 <= i < j < |mid| && mid[i].diff == mid[j].diff > s ::
      LabelRevCmp(r[i].mirror.name, r[j].mirror.name) <= 0
    ensures GroupsByLabel(r, s)
  {
    forall i, j | 0 <= i < j < |r| && r[i].diff == r[j].diff && r[i].diff >= s
      ensures LabelRevCmp(r[i].mirror.name, r[j].mirror.name) <= 0
    {
      assert mid[i].diff == r[i].diff && mid[j].diff == r[j].diff;
      if r[i].diff == s {
        assert a[i].diff == a[j].diff == s;
        assert r[i] == mid[i] && r[j] == mid[j];
      } else {
        assert mid[i].diff == mid[j].diff > s;
      }
    }
  }

  /** Lines 924-955 (the `-v` report): find the groups and re-sort the
      timeout and error groups by label. The array stays `diff`-sorted and a
      permutation of itself, the successes keep their places, and each
      group with a common `diff` at or above the ceiling is label-ordered. */
  method Regroup(a: seq<Timing>, s: real) returns (r: seq<Timing>)
    requires DiffSorted(a) && OutcomeCoded(a, s)
    ensures DiffSorted(r)
    ensures multiset(r) == multiset(a)
    ensures |r| == |a|
    ensures forall i | 0 <= i < |a| :: r[i].diff == a[i].diff
    ensures forall i | 0 <= i < |a| && a[i].diff < s :: r[i] == a[i]
    ensures GroupsByLabel(r, s)
  {
    var g := FindGroups(a, s);
    assert Grouped(a, s, g);
    RegroupedKeeps(a, s, g);
    RegroupedByLabel(a, s, g);
    r := Regrouped(a, s, g);
  }

  /** Why the run failed when no mirror answered within the ceiling. */
  datatype NoMirror = NoSuccessfulMirrors | ReleaseNotPresent

  /** Lines 995-1002: the first mirror is the pick unless its `diff` has
      reached the ceiling. */
  function Pick(ranked: seq<Timing>, s: real, current: bool, override: bool): (r: Result<Mirror, NoMirror>)
    requires |ranked| > 0
    ensures r.Success? <==> ranked[0].diff < s
    ensures r.Success? ==> r.value == ranked[0].mirror
    ensures r.Failure? ==> (r.error == ReleaseNotPresent <==> !current && override)
  {
    if ranked[0].diff >= s then
      Failure(if !current && override then ReleaseNotPresent else NoSuccessfulMirrors)
    else Success(ranked[0].mirror)
  }

  /** On a `diff`-sorted array the pick succeeds exactly when some mirror
      answered within the ceiling, and it is then a fastest mirror. */
  lemma PickIsFastest(ranked: seq<Timing>, s: real, current: bool, override: bool)
    requires |ranked| > 0 && DiffSorted(ranked)
    ensures Pick(ranked, s, current, override).Success? <==> exists i | 0 <= i < |ranked| :: ranked[i].diff < s
    ensures forall i | 0 <= i < |ranked| :: ranked[0].diff <= ranked[i].diff
  {
    DiffsAscend(ranked);
  }

  /** The head of any `diff`-sorted permutation of `t` comes from `t`, has
      the smallest `diff` in `t`, and is below the ceiling exactly when some
      element of `t` is. */
  lemma HeadOfPermutation(t: seq<Timing>, ranked: seq<Timing>, s: real)
    requires |t| > 0
    requires multiset(ranked) == multiset(t) && DiffSorted(ranked)
    ensures |ranked| == |t|
    ensures exists k | 0 <= k < |t| :: t[k] == ranked[0]
    ensures forall j | 0 <= j < |t| :: ranked[0].diff <= t[j].diff
    ensures ranked[0].diff < s <==> exists k | 0 <= k < |t| :: t[k].diff < s
  {
    assert |multiset(ranked)| == |multiset(t)|;
    DiffsAscend(ranked);
    assert ranked[0] in multiset(t);
    forall j | 0 <= j < |t|
      ensures ranked[0].diff <= t[j].diff
    {
      assert t[j] in multiset(ranked);
      var i :| 0 <= i < |ranked| && ranked[i] == t[j];
    }
  }

  /** Successes come before timeouts, and timeouts before download errors,
      in every `diff`-sorted array whose `diff`s carry the outcome codes. */
  lemma OutcomeClassesInOrder(ranked: seq<Timing>, s: real, i: nat, j: nat)
    requires DiffSorted(ranked)
    requires i < |ranked| && j < |ranked|
    requires (ranked[i].diff < s && ranked[j].diff >= s) || (ranked[i].diff == s && ranked[j].diff > s)
    ensures i < j
  {
    DiffsAscend(ranked);
  }
}
