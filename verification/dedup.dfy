/**
 The deduplicator of pkg_ping.c, run only in insecure mode: `qsort` the
 mirrors by base URL with `ftp_cmp`, then walk the array and, whenever two
 neighbours share a URL, delete the earlier one and shift the tail left.
 `Collapse` is the line-level statement of the walk; the loop in
 `RemoveAdjacentDuplicates` is proved to compute it, and the lemmas say what
 it achieves on a URL-sorted array.
 */
module Dedup {
  import opened CString
  import opened Sorting
  import opened Mirrors

  /** The set of URLs the mirrors carry. */
  function Urls(ms: seq<Mirror>): set<string> {
    set m <- ms :: m.url
  }

  /** The URLs of a non-empty array: the first one and those of the rest. */
  lemma UrlsCons(ms: seq<Mirror>)
    requires |ms| > 0
    ensures Urls(ms) == {ms[0].url} + Urls(ms[1..])
  {
    assert ms == [ms[0]] + ms[1..];
    forall x | x in Urls(ms)
      ensures x in {ms[0].url} + Urls(ms[1..])
    {
      var m :| m in ms && m.url == x;
    }
  }

  /** Reordering an array keeps its set of URLs. */
  lemma UrlsPermutation(a: seq<Mirror>, b: seq<Mirror>)
    requires multiset(a) == multiset(b)
    ensures Urls(a) == Urls(b)
  {
    forall x | x in Urls(a)
      ensures x in Urls(b)
    {
      var m :| m in a && m.url == x;
      assert m in multiset(b);
    }
    forall x | x in Urls(b)
      ensures x in Urls(a)
    {
      var m :| m in b && m.url == x;
      assert m in multiset(a);
    }
  }

  /** No two mirrors share a URL. */
  ghost predicate DistinctUrls(ms: seq<Mirror>) {
    forall i, j | 0 <= i < j < |ms| :: ms[i].url != ms[j].url
  }

  /** URLs strictly increase under `strcmp`. */
  ghost predicate StrictlyIncreasing(ms: seq<Mirror>) {
    forall i, j | 0 <= i < j < |ms| :: StrCmp(ms[i].url, ms[j].url) < 0
  }

  /** Of every run of neighbours with equal URLs only the last survives. */
  function Collapse(ms: seq<Mirror>): seq<Mirror> {
    if |ms| <= 1 then ms
    else if ms[0].url == ms[1].url then Collapse(ms[1..])
    else [ms[0]] + Collapse(ms[1..])
  }

  /** The walk at lines 748-760: `c` is the index of the right neighbour. */
  method RemoveAdjacentDuplicates(a0: seq<Mirror>) returns (a: seq<Mirror>)
    ensures a == Collapse(a0)
  {
    a := a0;
    var c := 1;
    while c < |a|
      invariant 1 <= c <= |a| + 1
      invariant |a| > 0 ==> c <= |a|
      invariant Collapse(a0) == a[..c - 1] + Collapse(a[c - 1..])
      decreases |a| - c
    {
      if a[c - 1].url == a[c].url {
        assert a[c - 1..][1..] == a[c..];
        ghost var prev := a;
        a := a[..c - 1] + a[c..];
        assert a[..c - 1] == prev[..c - 1];
        assert a[c - 1..] == prev[c..];
      } else {
        assert a[c - 1..] == [a[c - 1]] + a[c..];
        assert a[..c] == a[..c - 1] + [a[c - 1]];
        c := c + 1;
      }
    }
    if |a| > 0 {
      assert a[c - 1..] == [a[c - 1]];
      assert a == a[..c - 1] + a[c - 1..];
    }
  }

  /** The mirrors of a non-empty array: the first one and those of the
      rest. */
  lemma MultisetCons(ms: seq<Mirror>)
    requires |ms| > 0
    ensures multiset(ms) == multiset{ms[0]} + multiset(ms[1..])
  {
    assert ms == [ms[0]] + ms[1..];
  }

  /** The survivors are drawn from the input, each at most as often. */
  lemma {:induction false} CollapseIsSubmultiset(ms: seq<Mirror>)
    ensures multiset(Collapse(ms)) <= multiset(ms)
  {
    if |ms| > 1 {
      var tl := ms[1..];
      CollapseIsSubmultiset(tl);
      MultisetCons(ms);
      if ms[0].url != ms[1].url {
        var r := [ms[0]] + Collapse(tl);
        assert Collapse(ms) == r;
        MultisetCons(r);
        assert r[1..] == Collapse(tl);
      } else {
        assert Collapse(ms) == Collapse(tl);
      }
    }
  }

  /** Every URL of the input survives. */
  lemma {:induction false} CollapseKeepsUrls(ms: seq<Mirror>)
    ensures Urls(Collapse(ms)) == Urls(ms)
  {
    if |ms| > 1 {
      CollapseKeepsUrls(ms[1..]);
      UrlsCons(ms);
      UrlsCons(ms[1..]);
      if ms[0].url != ms[1].url {
        UrlsCons([ms[0]] + Collapse(ms[1..]));
        assert ([ms[0]] + Collapse(ms[1..]))[1..] == Collapse(ms[1..]);
      } else {
        assert ms[1..][0] == ms[1];
      }
    }
  }

  /** The tail of a URL-sorted array is URL-sorted. */
  lemma SortedTail(ms: seq<Mirror>)
    requires |ms| > 0 && SortedBy(ByUrl(), ms)
    ensures SortedBy(ByUrl(), ms[1..])
  {
    var tl := ms[1..];
    forall i, j | 0 <= i < j < |tl|
      ensures StrCmp(tl[i].url, tl[j].url) <= 0
    {
      assert tl[i] == ms[i + 1] && tl[j] == ms[j + 1];
    }
  }

  /** Putting a mirror whose URL is below every URL of a strictly
      increasing array in front keeps it strictly increasing. */
  lemma PrependIncreasing(m: Mirror, ms: seq<Mirror>)
    requires StrictlyIncreasing(ms)
    requires forall x <- ms :: StrCmp(m.url, x.url) < 0
    ensures StrictlyIncreasing([m] + ms)
  {
    var r := [m] + ms;
    forall i, j | 0 <= i < j < |r|
      ensures StrCmp(r[i].url, r[j].url) < 0
    {
      if i == 0 {
        assert r[j] == ms[j - 1];
      } else {
        assert r[i] == ms[i - 1] && r[j] == ms[j - 1];
      }
    }
  }

  /** On a URL-sorted array every survivor's URL is at least the first
      input URL, and the survivors are strictly increasing. */
  lemma {:induction false} CollapseIncreasing(ms: seq<Mirror>)
    requires SortedBy(ByUrl(), ms)
    ensures StrictlyIncreasing(Collapse(ms))
    ensures |ms| > 0 ==> forall m <- Collapse(ms) :: StrCmp(ms[0].url, m.url) <= 0
  {
    if |ms| > 1 {
      var tl := ms[1..];
      SortedTail(ms);
      CollapseIncreasing(tl);
      assert StrCmp(ms[0].url, ms[1].url) <= 0;
      forall m <- Collapse(tl)
        ensures StrCmp(ms[0].url, m.url) <= 0
      {
        StrCmpTransitive(ms[0].url, ms[1].url, m.url);
      }
      if ms[0].url != ms[1].url {
        StrCmpAntisymmetric(ms[0].url, ms[1].url);
        forall m <- Collapse(tl)
          ensures StrCmp(ms[0].url, m.url) < 0
        {
          StrCmpTransitive(ms[0].url, ms[1].url, m.url);
          StrCmpAntisymmetric(ms[0].url, m.url);
          StrCmpAntisymmetric(ms[1].url, m.url);
        }
        PrependIncreasing(ms[0], Collapse(tl));
      }
    }
  }

  lemma StrictlyIncreasingIsDistinct(ms: seq<Mirror>)
    requires StrictlyIncreasing(ms)
    ensures DistinctUrls(ms)
  {
  }

  /** A sequence with distinct URLs has as many elements as URLs. */
  lemma {:induction false} DistinctUrlsCount(ms: seq<Mirror>)
    requires DistinctUrls(ms)
    ensures |Urls(ms)| == |ms|
  {
    if |ms| > 0 {
      var tl := ms[1..];
      assert DistinctUrls(tl) by {
        forall i, j | 0 <= i < j < |tl|
          ensures tl[i].url != tl[j].url
        {
          assert tl[i] == ms[i + 1] && tl[j] == ms[j + 1];
        }
      }
      DistinctUrlsCount(tl);
      UrlsCons(ms);
      forall m | m in tl
        ensures m.url != ms[0].url
      {
        var k :| 0 <= k < |tl| && tl[k] == m;
        assert ms[k + 1] == m;
      }
    }
  }

  /** For every order `qsort` may leave the mirrors in, the survivors'
      URLs strictly increase, so no two survivors share one. */
  lemma DedupIncreasing(ms: seq<Mirror>, sorted: seq<Mirror>)
    requires IsQsortOf(ByUrl(), ms, sorted)
    ensures StrictlyIncreasing(Collapse(sorted))
    ensures DistinctUrls(Collapse(sorted))
  {
    CollapseIncreasing(sorted);
    StrictlyIncreasingIsDistinct(Collapse(sorted));
  }

  /** For every order `qsort` may leave the mirrors in, no URL is lost and
      there is exactly one survivor per distinct input URL. */
  lemma DedupKeepsUrls(ms: seq<Mirror>, sorted: seq<Mirror>)
    requires IsQsortOf(ByUrl(), ms, sorted)
    ensures Urls(Collapse(sorted)) == Urls(ms)
    ensures |Collapse(sorted)| == |Urls(ms)|
  {
    DedupIncreasing(ms, sorted);
    CollapseKeepsUrls(sorted);
    UrlsPermutation(sorted, ms);
    DistinctUrlsCount(Collapse(sorted));
  }

  /** For every order `qsort` may leave the mirrors in, every survivor is
      an input mirror, and none appears more often than in the input. */
  lemma DedupFromInput(ms: seq<Mirror>, sorted: seq<Mirror>)
    requires IsQsortOf(ByUrl(), ms, sorted)
    ensures multiset(Collapse(sorted)) <= multiset(ms)
  {
    CollapseIsSubmultiset(sorted);
  }

  /** Lines 747-760: sort by URL, then collapse neighbours. */
  method Deduplicate(ms: seq<Mirror>) returns (r: seq<Mirror>)
    ensures DistinctUrls(r)
    ensures Urls(r) == Urls(ms)
    ensures |r| == |Urls(ms)|
    ensures multiset(r) <= multiset(ms)
  {
    var sorted := Sort(ByUrl(), ms);
    ComparatorsAreTotalPreorders();
    SortIsQsort(ByUrl(), ms);
    r := RemoveAdjacentDuplicates(sorted);
    DedupIncreasing(ms, sorted);
    DedupKeepsUrls(ms, sorted);
    DedupFromInput(ms, sorted);
  }
}
