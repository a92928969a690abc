/**
 One run of pkg_ping.c from the fetched mirror index to the chosen mirror:
 parse the index, deduplicate it in insecure mode, sort it by label, probe
 every mirror in that order, sort by `diff`, regroup for the `-v` report and
 pick the head. The downloads are the one thing the model cannot compute;
 they are a parameter `download(url, bound)` saying what the `ftp` child
 did for that URL when waited for at most `bound` seconds.
 */
module PkgPing {
  import opened Results
  import opened Sorting
  import opened Mirrors
  import opened IndexParser
  import opened Suffix
  import opened Dedup
  import opened Scheduler
  import opened Ranker

  /** The settings the core reads: insecure mode (the default, cleared by
      `-S`), `-u` (omit USA mirrors), the `-v`/`-V` verbosity, `-O`
      (override) and `-s` (the ceiling in seconds). */
  datatype Options = Options(insecure: bool, omitUsa: bool, verbose: int, override: bool, s: real)

  /** Why a run ends without a mirror. */
  datatype PingError = IndexFailed(cause: ParseError) | NoneFast(why: NoMirror)

  /** What the `ftp` child did for a URL, waited for at most the bound. */
  type Downloader = (string, real) -> Probe

  function ParserConfig(opts: Options): Config {
    Config(opts.insecure, opts.omitUsa)
  }

  /** The probe suffix for this machine and kernel. */
  function ProbeTag(opts: Options, version: string, release: string, machine: string): string {
    Tag(Current(version, opts.verbose, opts.override), release, machine)
  }

  /** The mirror array with each mirror's recorded `diff`. */
  function Timings(ms: seq<Mirror>, diffs: seq<real>): (t: seq<Timing>)
    requires |ms| == |diffs|
    ensures |t| == |ms|
    ensures forall k | 0 <= k < |t| :: t[k].mirror == ms[k] && t[k].diff == diffs[k]
  {
    seq(|ms|, k requires 0 <= k < |ms| => Timing(ms[k], diffs[k]))
  }

  /** What the downloads give when `urls` are probed in order, each waited
      for with the bound the earlier rounds left. */
  function Outcomes(verbose: int, s: real, urls: seq<string>, download: Downloader): (ps: seq<Probe>)
    ensures |ps| == |urls|
    decreases |urls|
  {
    if |urls| == 0 then []
    else
      var prev := Outcomes(verbose, s, urls[..|urls| - 1], download);
      prev + [download(urls[|urls| - 1], Fold(verbose, s, prev).bound)]
  }

  /** Round `k` of the outcomes is the download of the `k`-th URL waited
      for with `Bounds(...)[k]`. */
  lemma {:induction false} OutcomesWaitForBounds(verbose: int, s: real, urls: seq<string>, download: Downloader)
    ensures forall k | 0 <= k < |urls| ::
      Outcomes(verbose, s, urls, download)[k] ==
        download(urls[k], Bounds(verbose, s, Outcomes(verbose, s, urls, download))[k])
    decreases |urls|
  {
    if |urls| > 0 {
      var init := urls[..|urls| - 1];
      OutcomesWaitForBounds(verbose, s, init, download);
      var prev := Outcomes(verbose, s, init, download);
      var ps := Outcomes(verbose, s, urls, download);
      assert ps[..|ps| - 1] == prev;
      forall k | 0 <= k < |urls|
        ensures ps[k] == download(urls[k], Bounds(verbose, s, ps)[k])
      {
        if k < |init| {
          assert ps[k] == prev[k] && urls[k] == init[k];
        }
      }
    }
  }

  /** The URL each round probes (lines 776-777), built in the `cap`-byte
      line buffer: since every base URL is shorter than the widest link,
      nothing is cut off and each is the base URL followed by the suffix. */
  function ProbeUrls(ms: seq<Mirror>, tag: string, cap: nat): (urls: seq<string>)
    requires forall m <- ms :: |m.url| + |tag| < cap
    ensures |urls| == |ms|
    ensures forall k | 0 <= k < |ms| :: urls[k] == ms[k].url + tag
  {
    seq(|ms|, k requires 0 <= k < |ms| => ProbeUrl(ms[k].url, tag, cap))
  }

  /** The probe loop of lines 774-908 over the probe URLs: one download per
      URL, in order, each waited for with the bound in force when its round
      began; the recorded `diff`s are those of the fold over the outcomes. */
  method ProbeAll(verbose: int, s: real, urls: seq<string>, download: Downloader)
    returns (probes: seq<Probe>, diffs: seq<real>)
    ensures probes == Outcomes(verbose, s, urls, download)
    ensures diffs == Fold(verbose, s, probes).diffs
  {
    probes, diffs := [], [];
    var bound := s;
    var k := 0;
    while k < |urls|
      invariant k <= |urls| && |probes| == k
      invariant Fold(verbose, s, probes).diffs == diffs
      invariant Fold(verbose, s, probes).bound == bound
      invariant probes == Outcomes(verbose, s, urls[..k], download)
    {
      var p := download(urls[k], bound);
      var round := Round(verbose, s, bound, p);
      FoldSnoc(verbose, s, probes, p);
      assert urls[..k + 1][..k] == urls[..k];
      probes := probes + [p];
      diffs := diffs + [round.diff];
      bound := round.bound;
      k := k + 1;
    }
    assert urls[..k] == urls;
  }

  /** Lines 924-955: sort by `diff`, and with `-v` regroup for the report. */
  method Rank(verbose: int, s: real, t: seq<Timing>) returns (ranked: seq<Timing>)
    requires OutcomeCoded(t, s)
    ensures multiset(ranked) == multiset(t)
    ensures DiffSorted(ranked)
    ensures verbose >= 1 ==> GroupsByLabel(ranked, s)
  {
    var sorted := Sort(ByDiff(), t);
    ComparatorsAreTotalPreorders();
    SortIsQsort(ByDiff(), t);
    OutcomeCodedPermutation(t, sorted, s);
    ranked := sorted;
    if verbose >= 1 {
      ranked := Regroup(sorted, s);
    }
  }

  /** The outcome coding survives any reordering. */
  lemma OutcomeCodedPermutation(t: seq<Timing>, r: seq<Timing>, s: real)
    requires OutcomeCoded(t, s) && multiset(r) == multiset(t)
    ensures OutcomeCoded(r, s)
  {
    forall i | 0 <= i < |r| && r[i].diff > s
      ensures r[i].diff == s + 1.0
    {
      assert r[i] in multiset(t);
    }
  }

  /** The mirrors left for probing (lines 745-766): they carry exactly the
      URLs of the parsed index; in insecure mode one mirror per distinct URL,
      otherwise every parsed mirror, reordered by label. */
  method Candidates(opts: Options, found: seq<Mirror>) returns (ms: seq<Mirror>)
    requires |found| > 0
    ensures forall m <- ms :: m in found
    ensures Urls(ms) == Urls(found)
    ensures opts.insecure ==> |ms| == |Urls(found)| && DistinctUrls(ms)
    ensures !opts.insecure ==> multiset(ms) == multiset(found)
    ensures !opts.insecure ==> |ms| == |found|
    ensures |ms| > 0
    ensures SortedBy(ByLabel(), ms)
  {
    ms := found;
    if opts.insecure {
      ms := Deduplicate(found);
      assert found[0].url in Urls(found);
    }
    ghost var unsorted := ms;
    ms := Sort(ByLabel(), ms);
    ComparatorsAreTotalPreorders();
    SortIsQsort(ByLabel(), unsorted);
    forall m <- ms
      ensures m in found
    {
      assert m in multiset(unsorted);
      assert m in multiset(found);
    }
    UrlsPermutation(unsorted, ms);
    if opts.insecure {
      DistinctUrlsPermutation(unsorted, ms);
    }
  }

  /** Distinct URLs stay distinct under reordering. */
  lemma DistinctUrlsPermutation(a: seq<Mirror>, b: seq<Mirror>)
    requires DistinctUrls(a) && multiset(b) == multiset(a)
    ensures DistinctUrls(b)
  {
    forall i, j | 0 <= i < j < |b|
      ensures b[i].url != b[j].url
    {
      if b[i].url == b[j].url {
        var ma := multiset(a);
        assert b[i] in ma && b[j] in ma;
        var x :| 0 <= x < |a| && a[x] == b[i];
        var y :| 0 <= y < |a| && a[y] == b[j];
        if x == y {
          assert b[i] == b[j];
          TwoOccurrences(b, i, j);
          assert multiset(a)[a[x]] >= 2;
          OneOccurrence(a, x);
        }
      }
    }
  }

  lemma TwoOccurrences(b: seq<Mirror>, i: nat, j: nat)
    requires i < j < |b| && b[i] == b[j]
    ensures multiset(b)[b[i]] >= 2
  {
    var x := b[i];
    assert b == b[..i] + [x] + b[i + 1..j] + [x] + b[j + 1..];
  }

  /** In a sequence with distinct URLs each element occurs once. */
  lemma OneOccurrence(a: seq<Mirror>, x: nat)
    requires DistinctUrls(a) && x < |a|
    ensures multiset(a)[a[x]] == 1
  {
    var m := a[x];
    assert a == a[..x] + [m] + a[x + 1..];
    assert m !in multiset(a[..x]) by {
      forall k | 0 <= k < x ensures a[..x][k] != m { assert a[k].url != m.url; }
    }
    var tail := a[x + 1..];
    assert m !in multiset(tail) by {
      forall k | 0 <= k < |tail| ensures tail[k] != m { assert tail[k] == a[x + 1 + k]; }
    }
  }

  /** A download that finished within the ceiling. */
  predicate Beats(p: Probe, s: real) {
    p.Finished? && p.elapsed < s
  }

  /** The probe at `k` finished within the ceiling and no finished probe
      was faster. */
  ghost predicate FastestProbeAt(probes: seq<Probe>, s: real, k: int) {
    && 0 <= k < |probes|
    && Beats(probes[k], s)
    && forall j | 0 <= j < |probes| && probes[j].Finished? :: probes[k].elapsed <= probes[j].elapsed
  }

  /** The entry the pick takes has the smallest `diff`; read back through
      the fold, its download finished within the ceiling and no finished
      download was faster. */
  lemma ChosenIsFastest(verbose: int, s: real, probes: seq<Probe>, best: real, k: nat)
    requires k < |probes|
    requires Fold(verbose, s, probes).diffs[k] == best < s
    requires forall j | 0 <= j < |probes| :: best <= Fold(verbose, s, probes).diffs[j]
    ensures FastestProbeAt(probes, s, k)
  {
    FoldClassifies(verbose, s, probes);
    var diffs := Fold(verbose, s, probes).diffs;
    forall j | 0 <= j < |probes| && probes[j].Finished?
      ensures probes[k].elapsed <= probes[j].elapsed
    {
      if probes[j].elapsed < s {
        assert diffs[j] == probes[j].elapsed;
      }
    }
  }

  /** What the pick means for the probes: read back through the timings
      and the fold, the head of any `diff`-sorted permutation is picked
      exactly when some download beat the ceiling, and the picked mirror's
      own download was then the fastest that finished. */
  lemma PickReadsBack(verbose: int, s: real, ms: seq<Mirror>, probes: seq<Probe>, probed: seq<string>,
                      tag: string, ranked: seq<Timing>, current: bool, override: bool)
    requires |ms| == |probes| == |probed| > 0
    requires forall k | 0 <= k < |ms| :: probed[k] == ms[k].url + tag
    requires multiset(ranked) == multiset(Timings(ms, Fold(verbose, s, probes).diffs))
    requires DiffSorted(ranked)
    ensures |ranked| > 0
    ensures Pick(ranked, s, current, override).Success? <==> exists k | 0 <= k < |probes| :: Beats(probes[k], s)
    ensures Pick(ranked, s, current, override).Success? ==>
      var m := Pick(ranked, s, current, override).value;
      m in ms && exists k :: FastestProbeAt(probes, s, k) && ms[k] == m && probed[k] == m.url + tag
  {
    var t := Timings(ms, Fold(verbose, s, probes).diffs);
    FoldClassifies(verbose, s, probes);
    HeadOfPermutation(t, ranked, s);
    if ranked[0].diff < s {
      var k :| 0 <= k < |t| && t[k] == ranked[0];
      ChosenIsFastest(verbose, s, probes, ranked[0].diff, k);
    }
  }

  /** `url` is the URL of a mirror of `found` with the suffix appended. */
  ghost predicate FromIndex(url: string, found: seq<Mirror>, tag: string) {
    exists m <- found :: url == m.url + tag
  }

  /** Every probe URL is an indexed mirror's URL with the suffix. */
  lemma ProbedFromIndex(found: seq<Mirror>, ms: seq<Mirror>, probed: seq<string>, tag: string)
    requires forall m <- ms :: m in found
    requires |probed| == |ms| && forall k | 0 <= k < |ms| :: probed[k] == ms[k].url + tag
    ensures forall k | 0 <= k < |probed| :: FromIndex(probed[k], found, tag)
  {
    forall k | 0 <= k < |probed|
      ensures FromIndex(probed[k], found, tag)
    {
      var m := ms[k];
      assert m in found && probed[k] == m.url + tag;
    }
  }

  /** The timings the probe loop leaves carry the outcome codes. */
  lemma FoldOutcomeCoded(verbose: int, s: real, ms: seq<Mirror>, probes: seq<Probe>)
    requires |ms| == |probes|
    ensures OutcomeCoded(Timings(ms, Fold(verbose, s, probes).diffs), s)
  {
    FoldClassifies(verbose, s, probes);
  }

  /** Every mirror of `found` is probed at its URL with the suffix. */
  ghost predicate EveryMirrorProbed(probed: seq<string>, found: seq<Mirror>, tag: string) {
    forall m <- found :: exists k | 0 <= k < |probed| :: probed[k] == m.url + tag
  }

  /** No URL is probed twice. */
  ghost predicate NoUrlTwice(probed: seq<string>) {
    forall i, j | 0 <= i < j < |probed| :: probed[i] != probed[j]
  }

  /** Two URLs with the same suffix appended are equal only if the URLs are. */
  lemma SuffixCancels(a: string, b: string, tag: string)
    requires a + tag == b + tag
    ensures a == b
  {
    assert a == (a + tag)[..|a|];
    assert b == (b + tag)[..|b|];
  }

  /** What the probe URLs built from the candidates cover. */
  lemma ProbedCoversIndex(opts: Options, found: seq<Mirror>, ms: seq<Mirror>, probed: seq<string>, tag: string)
    requires Urls(ms) == Urls(found)
    requires opts.insecure ==> DistinctUrls(ms)
    requires |probed| == |ms| && forall k | 0 <= k < |ms| :: probed[k] == ms[k].url + tag
    ensures EveryMirrorProbed(probed, found, tag)
    ensures opts.insecure ==> NoUrlTwice(probed)
  {
    forall m <- found
      ensures exists k | 0 <= k < |probed| :: probed[k] == m.url + tag
    {
      assert m.url in Urls(found);
      var c :| c in ms && c.url == m.url;
      var k :| 0 <= k < |ms| && ms[k] == c;
      assert probed[k] == m.url + tag;
    }
    if opts.insecure {
      forall i, j | 0 <= i < j < |probed|
        ensures probed[i] != probed[j]
      {
        if probed[i] == probed[j] {
          SuffixCancels(ms[i].url, ms[j].url, tag);
        }
      }
    }
  }

  /** Probing and ranking the mirrors of a parsed index (lines 745-1002):
      every candidate is probed at its URL with the suffix appended; a
      mirror is picked exactly when some download finished within the
      ceiling, and the pick is an indexed mirror whose download was the
      fastest that finished. */
  method Survey(opts: Options, found: seq<Mirror>, widest: nat, tag: string, current: bool,
                download: Downloader)
    returns (r: Result<Mirror, NoMirror>, probed: seq<string>, probes: seq<Probe>)
    requires |found| > 0 && forall m <- found :: |m.url| < widest
    ensures |probed| == |probes|
    ensures forall k | 0 <= k < |probed| :: FromIndex(probed[k], found, tag)
    ensures EveryMirrorProbed(probed, found, tag)
    ensures opts.insecure ==> NoUrlTwice(probed)
    ensures opts.insecure ==> |probed| == |Urls(found)|
    ensures !opts.insecure ==> |probed| == |found|
    ensures forall k | 0 <= k < |probes| ::
      probes[k] == download(probed[k], Bounds(opts.verbose, opts.s, probes)[k])
    ensures r.Success? <==> exists k | 0 <= k < |probes| :: Beats(probes[k], opts.s)
    ensures r.Success? ==>
      r.value in found && exists k :: FastestProbeAt(probes, opts.s, k) && probed[k] == r.value.url + tag
    ensures r.Failure? ==> (r.error == ReleaseNotPresent <==> !current && opts.override)
  {
    var ms := Candidates(opts, found);
    probed := ProbeUrls(ms, tag, widest + |tag|);
    var diffs;
    probes, diffs := ProbeAll(opts.verbose, opts.s, probed, download);
    ProbedFromIndex(found, ms, probed, tag);
    ProbedCoversIndex(opts, found, ms, probed, tag);
    FoldOutcomeCoded(opts.verbose, opts.s, ms, probes);
    OutcomesWaitForBounds(opts.verbose, opts.s, probed, download);
    var ranked := Rank(opts.verbose, opts.s, Timings(ms, diffs));
    PickReadsBack(opts.verbose, opts.s, ms, probes, probed, tag, ranked, current, opts.override);
    r := Pick(ranked, opts.s, current, opts.override);
  }

  /** One run, lines 603-1002. A malformed or empty index stops the run
      before any probe, with the parser's error; otherwise the run is the
      survey of the parsed mirrors with the suffix for this machine. */
  method Ping(opts: Options, index: string, version: string, release: string, machine: string,
              download: Downloader)
    returns (r: Result<Mirror, PingError>, probed: seq<string>, probes: seq<Probe>)
    ensures Parse(ParserConfig(opts), index).Failure? ==>
      r == Failure(IndexFailed(Parse(ParserConfig(opts), index).error)) && probed == [] && probes == []
    ensures r.Failure? && r.error.IndexFailed? ==> Parse(ParserConfig(opts), index).Failure?
    ensures |probed| == |probes|
    ensures Parse(ParserConfig(opts), index).Success? ==>
      var found := Parse(ParserConfig(opts), index).value.mirrors;
      && (forall k | 0 <= k < |probed| :: FromIndex(probed[k], found, ProbeTag(opts, version, release, machine)))
      && EveryMirrorProbed(probed, found, ProbeTag(opts, version, release, machine))
      && (opts.insecure ==> NoUrlTwice(probed))
      && (opts.insecure ==> |probed| == |Urls(found)|)
      && (!opts.insecure ==> |probed| == |found|)
    ensures forall k | 0 <= k < |probes| ::
      probes[k] == download(probed[k], Bounds(opts.verbose, opts.s, probes)[k])
    ensures r.Success? <==>
      Parse(ParserConfig(opts), index).Success? && exists k | 0 <= k < |probes| :: Beats(probes[k], opts.s)
    ensures r.Success? ==>
      && r.value in Parse(ParserConfig(opts), index).value.mirrors
      && exists k :: FastestProbeAt(probes, opts.s, k) && probed[k] == r.value.url + ProbeTag(opts, version, release, machine)
    ensures r.Failure? && r.error.NoneFast? ==>
      (r.error.why == ReleaseNotPresent <==> !Current(version, opts.verbose, opts.override) && opts.override)
  {
    var parsed := Parse(ParserConfig(opts), index);
    if parsed.Failure? {
      return Failure(IndexFailed(parsed.error)), [], [];
    }
    var found := parsed.value.mirrors;
    var survey;
    survey, probed, probes := Survey(opts, found, parsed.value.widest, ProbeTag(opts, version, release, machine),
                                     Current(version, opts.verbose, opts.override), download);
    r := if survey.Success? then Success(survey.value) else Failure(NoneFast(survey.error));
  }
}
