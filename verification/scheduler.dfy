/**
 The probe loop of pkg_ping.c (lines 768-908) with the child process and the
 `kevent` wait abstracted into what the round observed. Each round records a
 `diff` for its mirror and may tighten `S`, the bound the next round waits.
 The `diff` encodes the outcome: the elapsed seconds for a success, `s` for
 a timeout and `s + 1` for a download error, with `s` the ceiling from `-s`.
 */
module Scheduler {

  /** What one round observed: the wait for the download's exit ran out,
      the download exited non-zero, or it exited zero after `elapsed`
      seconds of wall-clock time. */
  datatype Probe = TimedOut | ExitNonZero | Finished(elapsed: real)

  /** The `diff` a round records and the bound `S` after it. */
  datatype RoundResult = RoundResult(diff: real, bound: real)

  /** One round, lines 866-908, entered with `S == bound`. */
  function Round(verbose: int, s: real, bound: real, p: Probe): (r: RoundResult)
    requires bound <= s
    ensures r.bound <= bound
    ensures verbose > 0 ==> r.bound == bound
    ensures r.bound < bound ==> verbose <= 0 && p.Finished? && r.diff == r.bound == p.elapsed
    ensures r.diff <= s + 1.0
    ensures r.diff < s <==> p.Finished? && p.elapsed < s
    ensures p.Finished? && p.elapsed < s ==> r.diff == p.elapsed
    ensures r.diff == s <==> p.TimedOut? || (p.Finished? && p.elapsed >= s)
    ensures r.diff == s + 1.0 <==> p.ExitNonZero?
  {
    match p
    case TimedOut => RoundResult(s, bound)
    case ExitNonZero => RoundResult(s + 1.0, bound)
    case Finished(e) =>
      if verbose >= 2 then RoundResult(if e >= s then s else e, bound)
      else if verbose <= 0 && e < bound then RoundResult(e, e)
      else RoundResult(if e > s then s else e, bound)
  }

  /** The `diff`s recorded so far and the bound in force. */
  datatype Rounds = Rounds(diffs: seq<real>, bound: real)

  /** The loop over `ps`, one round per mirror, starting from `S = s`. */
  function Fold(verbose: int, s: real, ps: seq<Probe>): (r: Rounds)
    ensures |r.diffs| == |ps|
    ensures r.bound <= s
    decreases |ps|
  {
    if |ps| == 0 then Rounds([], s)
    else
      var prev := Fold(verbose, s, ps[..|ps| - 1]);
      var last := Round(verbose, s, prev.bound, ps[|ps| - 1]);
      Rounds(prev.diffs + [last.diff], last.bound)
  }

  /** Every recorded `diff` classifies its round: below `s` exactly for a
      download that finished within the ceiling (and then it is the elapsed
      time), `s` for a timeout or a late finish, `s + 1` for an error. */
  lemma {:induction false} FoldClassifies(verbose: int, s: real, ps: seq<Probe>)
    ensures forall i | 0 <= i < |ps| :: Fold(verbose, s, ps).diffs[i] <= s + 1.0
    ensures forall i | 0 <= i < |ps| ::
      Fold(verbose, s, ps).diffs[i] < s <==> ps[i].Finished? && ps[i].elapsed < s
    ensures forall i | 0 <= i < |ps| && ps[i].Finished? && ps[i].elapsed < s ::
      Fold(verbose, s, ps).diffs[i] == ps[i].elapsed
    ensures forall i | 0 <= i < |ps| ::
      Fold(verbose, s, ps).diffs[i] == s <==> ps[i].TimedOut? || (ps[i].Finished? && ps[i].elapsed >= s)
    ensures forall i | 0 <= i < |ps| :: Fold(verbose, s, ps).diffs[i] == s + 1.0 <==> ps[i].ExitNonZero?
    decreases |ps|
  {
    if |ps| > 0 {
      var init := ps[..|ps| - 1];
      FoldClassifies(verbose, s, init);
      var d := Fold(verbose, s, ps).diffs;
      forall i | 0 <= i < |ps| - 1
        ensures d[i] == Fold(verbose, s, init).diffs[i] && ps[i] == init[i]
      {
      }
    }
  }

  /** The bound each round waits with: round `i` waits for `S` as the
      first `i` rounds left it. */
  function Bounds(verbose: int, s: real, ps: seq<Probe>): (b: seq<real>)
    ensures |b| == |ps|
    decreases |ps|
  {
    if |ps| == 0 then []
    else Bounds(verbose, s, ps[..|ps| - 1]) + [Fold(verbose, s, ps[..|ps| - 1]).bound]
  }

  /** Folding a longer prefix extends the recorded `diff`s, and round `i`
      waits with the bound the fold of the first `i` rounds ends in. */
  lemma {:induction false} FoldPrefix(verbose: int, s: real, ps: seq<Probe>, i: nat)
    requires i <= |ps|
    ensures Fold(verbose, s, ps[..i]).diffs == Fold(verbose, s, ps).diffs[..i]
    ensures Bounds(verbose, s, ps[..i]) == Bounds(verbose, s, ps)[..i]
    ensures i < |ps| ==> Bounds(verbose, s, ps)[i] == Fold(verbose, s, ps[..i]).bound
    decreases |ps|
  {
    if i < |ps| {
      var init := ps[..|ps| - 1];
      assert ps[..i] == init[..i];
      FoldPrefix(verbose, s, init, i);
      if i < |init| {
        assert Bounds(verbose, s, ps)[i] == Bounds(verbose, s, init)[i];
      }
    } else {
      assert ps[..i] == ps;
    }
  }

  /** The bound never grows from one round to a later one, never exceeds
      `s`, and stays `s` unless the run is quiet. */
  lemma {:induction false} BoundNonIncreasing(verbose: int, s: real, ps: seq<Probe>, i: nat, j: nat)
    requires i <= j < |ps|
    ensures Bounds(verbose, s, ps)[j] <= Bounds(verbose, s, ps)[i] <= s
    ensures verbose > 0 ==> Bounds(verbose, s, ps)[i] == s
    decreases |ps|
  {
    var init := ps[..|ps| - 1];
    if j < |ps| - 1 {
      BoundNonIncreasing(verbose, s, init, i, j);
    } else if i < j {
      BoundNonIncreasing(verbose, s, init, i, j - 1);
      FoldPrefix(verbose, s, init, j - 1);
      assert init[..j - 1] + [init[j - 1]] == init;
      FoldSnoc(verbose, s, init[..j - 1], init[j - 1]);
    } else {
      FoldBoundIsFastest(verbose, s, init);
    }
  }

  /** One more round extends the fold by that round's `diff` and bound,
      and the bounds by the one that round waited with. */
  lemma FoldSnoc(verbose: int, s: real, ps: seq<Probe>, p: Probe)
    ensures Fold(verbose, s, ps + [p]) ==
      var last := Round(verbose, s, Fold(verbose, s, ps).bound, p);
      Rounds(Fold(verbose, s, ps).diffs + [last.diff], last.bound)
    ensures Bounds(verbose, s, ps + [p]) == Bounds(verbose, s, ps) + [Fold(verbose, s, ps).bound]
  {
    assert (ps + [p])[..|ps|] == ps;
  }

  /** The smallest of `s` and every elapsed time of a successful round. */
  function Fastest(s: real, ps: seq<Probe>): (m: real)
    ensures m <= s
    ensures forall i | 0 <= i < |ps| && ps[i].Finished? :: m <= ps[i].elapsed
    ensures m == s || exists i | 0 <= i < |ps| :: ps[i].Finished? && ps[i].elapsed == m
    decreases |ps|
  {
    if |ps| == 0 then s
    else
      var rest := Fastest(s, ps[..|ps| - 1]);
      var p := ps[|ps| - 1];
      var m := if p.Finished? && p.elapsed < rest then p.elapsed else rest;
      assert forall i | 0 <= i < |ps| - 1 :: ps[..|ps| - 1][i] == ps[i];
      m
  }

  /** In quiet mode (`verbose <= 0`) the final bound is the fastest success
      time, or `s` when nothing beat it; otherwise it stays `s`. */
  lemma {:induction false} FoldBoundIsFastest(verbose: int, s: real, ps: seq<Probe>)
    ensures verbose <= 0 ==> Fold(verbose, s, ps).bound == Fastest(s, ps)
    ensures verbose > 0 ==> Fold(verbose, s, ps).bound == s
    decreases |ps|
  {
    if |ps| > 0 {
      FoldBoundIsFastest(verbose, s, ps[..|ps| - 1]);
    }
  }
}
