/**
 The handful of C string routines the mirror pinger relies on, stated over
 NUL-free `string`s: the sign of `strcmp`, the prefix test `!strncmp(p, s, |p|)`,
 `strstr` as a containment test, and the truncating copies `strlcpy`/`strlcat`
 as they behave on a destination buffer of a given size. A `char` is one
 byte (a value below 256), so ordering by character code is `strcmp`'s
 order by unsigned byte.
 */
module CString {

  function Min(a: int, b: int): int {
    if a <= b then a else b
  }

  function Max(a: int, b: int): int {
    if a <= b then b else a
  }

  /** The sign of `strcmp(a, b)`: characters compare by code, and a proper
      prefix orders before the longer string. */
  function StrCmp(a: string, b: string): (r: int)
    ensures -1 <= r <= 1
    ensures r == 0 <==> a == b
  {
    if |a| == 0 || |b| == 0 then
      (if |a| == |b| then 0 else if |a| == 0 then -1 else 1)
    else if a[0] < b[0] then -1
    else if a[0] > b[0] then 1
    else
      assert a == [a[0]] + a[1..] && b == [b[0]] + b[1..];
      StrCmp(a[1..], b[1..])
  }

  /** Swapping the operands of `strcmp` flips the sign of the result. */
  lemma {:induction false} StrCmpAntisymmetric(a: string, b: string)
    ensures StrCmp(a, b) == -StrCmp(b, a)
  {
    if |a| > 0 && |b| > 0 && a[0] == b[0] {
      StrCmpAntisymmetric(a[1..], b[1..]);
    }
  }

  /** `strcmp(a, b) <= 0` is a transitive relation. */
  lemma {:induction false} StrCmpTransitive(a: string, b: string, c: string)
    requires StrCmp(a, b) <= 0 && StrCmp(b, c) <= 0
    ensures StrCmp(a, c) <= 0
  {
    if |a| > 0 && |b| > 0 && |c| > 0 && a[0] == b[0] && b[0] == c[0] {
      StrCmpTransitive(a[1..], b[1..], c[1..]);
    }
  }

  /** `a` orders before `b` lexicographically: it is a proper prefix of
      `b`, or the two first differ at a position where `a` has the smaller
      character. */
  ghost predicate LexLess(a: string, b: string) {
    || (|a| < |b| && b[..|a|] == a)
    || exists k | 0 <= k < |a| && k < |b| :: a[..k] == b[..k] && a[k] < b[k]
  }

  /** `strcmp` is negative exactly when `a` orders before `b`
      lexicographically by character code. */
  lemma {:induction false} StrCmpIsLexicographic(a: string, b: string)
    ensures StrCmp(a, b) < 0 <==> LexLess(a, b)
  {
    if |a| == 0 || |b| == 0 {
      if |a| == 0 && |b| > 0 {
        assert b[..0] == a;
      }
    } else if a[0] < b[0] {
      assert a[..0] == b[..0];
    } else if a[0] > b[0] {
      if |a| < |b| {
        assert b[..|a|][0] == b[0];
      }
      forall k | 0 < k <= |a| && k <= |b|
        ensures a[..k] != b[..k]
      {
        assert a[..k][0] == a[0] && b[..k][0] == b[0];
      }
    } else {
      var a', b' := a[1..], b[1..];
      StrCmpIsLexicographic(a', b');
      if LexLess(a', b') {
        if |a'| < |b'| && b'[..|a'|] == a' {
          assert b[..|a|] == [b[0]] + b'[..|a'|];
          assert a == [a[0]] + a';
        } else {
          var k :| 0 <= k < |a'| && k < |b'| && a'[..k] == b'[..k] && a'[k] < b'[k];
          assert a[..k + 1] == [a[0]] + a'[..k];
          assert b[..k + 1] == [b[0]] + b'[..k];
          assert a[k + 1] == a'[k] && b[k + 1] == b'[k];
        }
      }
      if LexLess(a, b) {
        if |a| < |b| && b[..|a|] == a {
          assert b'[..|a'|] == b[..|a|][1..];
          assert a' == a[1..];
        } else {
          var k :| 0 <= k < |a| && k < |b| && a[..k] == b[..k] && a[k] < b[k];
          assert k > 0;
          assert a'[..k - 1] == a[..k][1..];
          assert b'[..k - 1] == b[..k][1..];
          assert a'[k - 1] == a[k] && b'[k - 1] == b[k];
        }
      }
    }
  }

  /** `!strncmp(p, s, |p|)` on a NUL-terminated `s`: `s` begins with `p`. */
  predicate StartsWith(s: string, p: string) {
    |p| <= |s| && s[..|p|] == p
  }

  /** `strstr(s, t) != NULL`. */
  predicate Contains(s: string, t: string)
    decreases |s|
  {
    StartsWith(s, t) || (|s| > 0 && Contains(s[1..], t))
  }

  /** `t` occurs in `s` starting at offset `i`. */
  predicate OccursAt(s: string, t: string, i: nat) {
    i + |t| <= |s| && s[i..i + |t|] == t
  }

  /** `strstr` finds `t` exactly when some window of `s` spells it. */
  lemma {:induction false} ContainsWindow(s: string, t: string)
    ensures Contains(s, t) <==> exists i: nat :: OccursAt(s, t, i)
  {
    assert StartsWith(s, t) <==> OccursAt(s, t, 0);
    if |s| > 0 {
      ContainsWindow(s[1..], t);
      if Contains(s[1..], t) {
        var i: nat :| OccursAt(s[1..], t, i);
        assert s[i + 1..i + 1 + |t|] == s[1..][i..i + |t|];
        assert OccursAt(s, t, i + 1);
      }
      if i: nat :| OccursAt(s, t, i) {
        if i > 0 {
          assert s[1..][i - 1..i - 1 + |t|] == s[i..i + |t|];
          assert OccursAt(s[1..], t, i - 1);
        }
      }
    } else {
      if i: nat :| OccursAt(s, t, i) {
        assert OccursAt(s, t, 0);
      }
    }
  }

  /** The string `strlcpy(dst, src, size)` leaves in `dst`. */
  function StrlCpy(src: string, size: nat): (r: string)
    ensures StartsWith(src, r)
    ensures size > 0 ==> |r| < size
    ensures size > 0 ==> |r| == Min(|src|, size - 1)
    ensures r == src <==> |src| < size || |src| == 0
  {
    if size == 0 then "" else src[..Min(|src|, size - 1)]
  }

  /** The string `strlcat(dst, src, size)` leaves in `dst`: nothing is
      appended once `dst` already fills the buffer, otherwise as much of
      `src` as still fits beside the terminating NUL. */
  function StrlCat(dst: string, src: string, size: nat): (r: string)
    ensures StartsWith(r, dst)
    ensures StartsWith(src, r[|dst|..])
    ensures |dst| < size ==> |r| < size
    ensures |dst| >= size ==> r == dst
    ensures |dst| < size ==> |r| == Min(|dst| + |src|, size - 1)
    ensures r == dst + src <==> |dst| + |src| < size || |src| == 0
  {
    if |dst| >= size then dst else dst + StrlCpy(src, size - |dst|)
  }
}
