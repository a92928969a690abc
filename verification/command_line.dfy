/**
 The two pieces of option handling in pkg_ping.c that decide values the
 core uses: the text check and range check on the `-s` argument (lines
 227-251), and the verbosity that `-v` and `-V` build up (lines 259-267).
 */
module CommandLine {
  import opened CString
  import opened Results

  /** The errors `-s` can end the run with. */
  datatype SecondsError = NegativeSign | BadFormat | NoDigit | TooLarge | TooSmall

  predicate IsDigit(c: char) {
    '0' <= c <= '9'
  }

  /** Position `b` fails the character check: it is neither a digit nor
      the first decimal point. */
  ghost predicate BadAt(arg: string, b: int) {
    0 <= b < |arg| && !IsDigit(arg[b]) && (arg[b] != '.' || '.' in arg[..b])
  }

  /** `b` is the first position that fails the check. */
  ghost predicate FirstBadAt(arg: string, b: int) {
    BadAt(arg, b) && forall k | 0 <= k < b :: !BadAt(arg, k)
  }

  /** No position fails the check. */
  ghost predicate Admissible(arg: string) {
    forall k | 0 <= k < |arg| :: !BadAt(arg, k)
  }

  /** The text is digits with at most one decimal point. */
  ghost predicate DecimalText(arg: string) {
    && (forall k | 0 <= k < |arg| :: IsDigit(arg[k]) || arg[k] == '.')
    && (forall i, j | 0 <= i < j < |arg| :: !(arg[i] == '.' && arg[j] == '.'))
  }

  predicate HasDigit(arg: string) {
    exists k | 0 <= k < |arg| :: IsDigit(arg[k])
  }

  /** The position-by-position check accepts exactly the decimal texts. */
  lemma AdmissibleIsDecimalText(arg: string)
    ensures Admissible(arg) <==> DecimalText(arg)
  {
    if Admissible(arg) {
      forall i, j | 0 <= i < j < |arg| && arg[i] == '.'
        ensures arg[j] != '.'
      {
        assert arg[..j][i] == '.';
        assert !BadAt(arg, j);
      }
      forall k | 0 <= k < |arg|
        ensures IsDigit(arg[k]) || arg[k] == '.'
      {
        assert !BadAt(arg, k);
      }
      assert DecimalText(arg);
    }
    if DecimalText(arg) {
      forall b | 0 <= b < |arg|
        ensures !BadAt(arg, b)
      {
        forall k | 0 <= k < b
          ensures arg[b] != '.' || arg[..b][k] != '.'
        {
          assert arg[..b][k] == arg[k];
        }
      }
    }
  }

  function DigitValue(c: char): nat {
    if IsDigit(c) then (c - '0') as nat else 0
  }

  /** The number a run of digits spells in base ten. */
  function DigitsValue(d: string): nat
    decreases |d|
  {
    if |d| == 0 then 0 else DigitsValue(d[..|d| - 1]) * 10 + DigitValue(d[|d| - 1])
  }

  function Pow10(n: nat): (p: nat)
    ensures p >= 1
  {
    if n == 0 then 1 else 10 * Pow10(n - 1)
  }

  /** `x` with `k` zeros appended. */
  function Shift(x: nat, k: nat): nat {
    x * Pow10(k)
  }

  /** `v` times ten to the `k`. */
  function Scale(v: real, k: nat): real {
    v * Pow10(k) as real
  }

  /** The index of the decimal point, or `|arg|` when there is none. */
  function PointAt(arg: string): (p: nat)
    ensures p <= |arg|
    ensures p < |arg| ==> arg[p] == '.'
    ensures forall k | 0 <= k < p :: arg[k] != '.'
  {
    if |arg| == 0 || arg[0] == '.' then 0 else 1 + PointAt(arg[1..])
  }

  /** A run of `n` digits spells a number below `10^n`. */
  lemma {:induction false} DigitsBelowPow10(d: string)
    ensures DigitsValue(d) < Pow10(|d|)
    decreases |d|
  {
    if |d| > 0 {
      DigitsBelowPow10(d[..|d| - 1]);
    }
  }

  /** A proper fraction lies in [0, 1). */
  lemma FractionBelowOne(x: real, y: real)
    requires 0.0 <= x < y
    ensures 0.0 <= x / y < 1.0
  {
    assert x / y * y == x;
  }

  /** The digits before the point: all of the text when it has none. */
  function Whole(arg: string): (w: string)
    ensures w <= arg
    ensures forall k | 0 <= k < |w| :: w[k] != '.'
  {
    arg[..PointAt(arg)]
  }

  /** The digits after the point: none when the text has no point. */
  function Fraction(arg: string): (f: string)
    ensures PointAt(arg) < |arg| ==> arg == Whole(arg) + ['.'] + f
    ensures PointAt(arg) == |arg| ==> Whole(arg) == arg && f == []
  {
    var p := PointAt(arg);
    if p < |arg| then
      assert arg == arg[..p] + ['.'] + arg[p + 1..];
      arg[p + 1..]
    else
      assert arg[..p] == arg;
      []
  }

  /** The exact value of a decimal text: what `strtod` approximates. Its
      whole part is the number the digits before the point spell, and the
      digits after the point add less than one. */
  function DecimalValue(arg: string): (v: real)
    ensures DigitsValue(Whole(arg)) as real <= v < DigitsValue(Whole(arg)) as real + 1.0
  {
    var frac := Fraction(arg);
    DigitsBelowPow10(frac);
    FractionBelowOne(DigitsValue(frac) as real, Pow10(|frac|) as real);
    DigitsValue(Whole(arg)) as real + DigitsValue(frac) as real / Pow10(|frac|) as real
  }

  /** Appending digits shifts the number spelled so far left by as many
      places. */
  lemma {:induction false} DigitsValueAppend(a: string, b: string)
    ensures DigitsValue(a + b) == Shift(DigitsValue(a), |b|) + DigitsValue(b)
    decreases |b|
  {
    if |b| == 0 {
      assert a + b == a;
    } else {
      var b' := b[..|b| - 1];
      var ab := a + b;
      assert ab[..|ab| - 1] == a + b';
      assert ab[|ab| - 1] == b[|b| - 1];
      DigitsValueAppend(a, b');
      var x, y, z, d := DigitsValue(a), Pow10(|b'|), DigitsValue(b'), DigitValue(b[|b| - 1]);
      assert DigitsValue(ab) == (x * y + z) * 10 + d;
      assert Pow10(|b|) == 10 * y;
      assert DigitsValue(b) == z * 10 + d;
      ShiftDigit(x, y, z, d);
    }
  }

  lemma ShiftDigit(x: int, y: int, z: int, d: int)
    ensures (x * y + z) * 10 + d == x * (10 * y) + (z * 10 + d)
  {
    calc {
      (x * y + z) * 10 + d;
      x * y * 10 + z * 10 + d;
      x * (10 * y) + (z * 10 + d);
    }
  }

  /** A whole part plus a fraction over ten to the `k`, scaled by ten to
      the `k`, is the whole part shifted left plus the numerator. */
  lemma ClearFraction(v: real, w: nat, f: nat, k: nat, total: nat)
    requires v == w as real + f as real / Pow10(k) as real
    requires total == Shift(w, k) + f
    ensures Scale(v, k) == total as real
  {
    var n := Pow10(k);
    var nr := n as real;
    assert f as real / nr * nr == f as real;
    assert (w * n) as real == w as real * nr;
  }

  /** A text without a point has the value its digits spell. */
  lemma DecimalValueWithoutPoint(arg: string)
    ensures PointAt(arg) == |arg| ==> DecimalValue(arg) == DigitsValue(arg) as real
  {
    if PointAt(arg) == |arg| {
      assert Whole(arg) == arg && Fraction(arg) == [];
    }
  }

  /** The value of a decimal text in full: scaled by ten to the number of
      digits after the point, it is the number all its digits spell with the
      point removed. */
  lemma {:induction false} DecimalValueSpelled(arg: string)
    ensures Scale(DecimalValue(arg), |Fraction(arg)|) == DigitsValue(Whole(arg) + Fraction(arg)) as real
  {
    var w, f := Whole(arg), Fraction(arg);
    DigitsValueAppend(w, f);
    ClearFraction(DecimalValue(arg), DigitsValue(w), DigitsValue(f), |f|, DigitsValue(w + f));
  }

  /** Lines 227-251: the character loop, then the range checks on the
      value. The first failing character decides between the sign error
      and the format error; a text that passes needs a digit; and the value
      must lie in (0.01, 1000]. */
  method ParseSeconds(arg: string) returns (r: Result<real, SecondsError>)
    ensures forall b | FirstBadAt(arg, b) :: r == Failure(if arg[b] == '-' then NegativeSign else BadFormat)
    ensures !Admissible(arg) ==> r.Failure? && (r.error == NegativeSign || r.error == BadFormat)
    ensures Admissible(arg) && !HasDigit(arg) ==> r == Failure(NoDigit)
    ensures Admissible(arg) && HasDigit(arg) ==>
      (r.Success? <==> 0.01 < DecimalValue(arg) <= 1000.0) &&
      (r == Failure(TooLarge) <==> DecimalValue(arg) > 1000.0) &&
      (r == Failure(TooSmall) <==> DecimalValue(arg) <= 0.01)
    ensures r.Success? ==> r.value == DecimalValue(arg) && 0.01 < r.value <= 1000.0
  {
    var c := 0;
    var dots := 0;
    var digit := false;
    while c < |arg|
      invariant 0 <= c <= |arg|
      invariant forall k | 0 <= k < c :: !BadAt(arg, k)
      invariant digit <==> exists k | 0 <= k < c :: IsDigit(arg[k])
      invariant dots == 0 <==> '.' !in arg[..c]
    {
      assert arg[..c + 1] == arg[..c] + [arg[c]];
      if IsDigit(arg[c]) {
        digit := true;
      } else if arg[c] == '.' && dots == 0 {
        dots := 1;
      } else {
        assert FirstBadAt(arg, c);
        FirstBadUnique(arg, c);
        return Failure(if arg[c] == '-' then NegativeSign else BadFormat);
      }
      c := c + 1;
    }
    if !digit {
      return Failure(NoDigit);
    }
    var v := DecimalValue(arg);
    if v > 1000.0 {
      return Failure(TooLarge);
    }
    if v <= 0.01 {
      return Failure(TooSmall);
    }
    return Success(v);
  }

  /** There is only one first failing position. */
  lemma FirstBadUnique(arg: string, b: int)
    requires FirstBadAt(arg, b)
    ensures forall b' | FirstBadAt(arg, b') :: b' == b
  {
  }

  /** Base-ten text of a natural number. */
  function NatText(n: nat): (t: string)
    ensures |t| > 0
    ensures forall k | 0 <= k < |t| :: IsDigit(t[k])
  {
    if n < 10 then [('0' as int + n) as char]
    else NatText(n / 10) + [('0' as int + n % 10) as char]
  }

  /** Reading back the text of a number gives the number. */
  lemma {:induction false} NatTextRoundTrip(n: nat)
    ensures DigitsValue(NatText(n)) == n
  {
    if n >= 10 {
      NatTextRoundTrip(n / 10);
      var t := NatText(n);
      assert t[..|t| - 1] == NatText(n / 10);
    }
  }

  /** A whole number of seconds written out is accepted exactly when it is
      between 1 and 1000, and then it is the ceiling. */
  lemma WholeSeconds(n: nat)
    ensures Admissible(NatText(n)) && HasDigit(NatText(n))
    ensures DecimalValue(NatText(n)) == n as real
    ensures 0.01 < DecimalValue(NatText(n)) <= 1000.0 <==> 1 <= n <= 1000
  {
    var t := NatText(n);
    assert IsDigit(t[0]);
    NatTextRoundTrip(n);
    assert PointAt(t) == |t|;
    assert Whole(t) == t && Fraction(t) == [];
  }

  /** One `-v` or `-V` applied to the verbosity: `-V` silences for good,
      `-v` raises it by one up to 3 unless silenced. Other letters leave
      it alone. */
  function Bump(verbose: int, flag: char): (r: int)
    ensures flag == 'V' ==> r == -1
    ensures verbose == -1 ==> r == -1
    ensures -1 <= verbose <= 3 ==> -1 <= r <= 3
    ensures flag == 'v' && 0 <= verbose < 3 ==> r == verbose + 1
    ensures flag != 'V' && flag != 'v' ==> r == verbose
  {
    if flag == 'V' then -1
    else if flag == 'v' then (if verbose == -1 then -1 else Min(verbose + 1, 3))
    else verbose
  }

  /** The verbosity after the flags, starting from 0. */
  function Verbosity(flags: seq<char>): (v: int)
    ensures -1 <= v <= 3
    decreases |flags|
  {
    if |flags| == 0 then 0 else Bump(Verbosity(flags[..|flags| - 1]), flags[|flags| - 1])
  }

  function CountOf(flags: seq<char>, c: char): nat
    decreases |flags|
  {
    if |flags| == 0 then 0
    else CountOf(flags[..|flags| - 1], c) + (if flags[|flags| - 1] == c then 1 else 0)
  }

  /** The verbosity is -1 once any `-V` was given, and otherwise the
      number of `-v` flags capped at 3. */
  lemma {:induction false} VerbosityClosedForm(flags: seq<char>)
    ensures Verbosity(flags) == if 'V' in flags then -1 else Min(CountOf(flags, 'v'), 3)
    decreases |flags|
  {
    if |flags| > 0 {
      var init := flags[..|flags| - 1];
      VerbosityClosedForm(init);
      assert flags == init + [flags[|flags| - 1]];
      assert 'V' in flags <==> 'V' in init || flags[|flags| - 1] == 'V';
    }
  }
}
