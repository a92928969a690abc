/**
 The mirror record (`struct mirror_st`) and the four `qsort` comparators of
 pkg_ping.c. A `Mirror` is what the index parser produces: a label and the
 base URL (`ftp_file`). A `Timing` is a mirror once probed, carrying `diff`,
 the seconds the probe took or the code for a timeout or download error.
 */
module Mirrors {
  import opened CString
  import opened Sorting

  /** `name` is the mirror's label (`label` is a Dafny keyword). */
  datatype Mirror = Mirror(name: string, url: string)

  datatype Timing = Timing(mirror: Mirror, diff: real)

  /** Labels of mirrors in the United States start with this prefix. */
  const UsaPrefix: string := "USA"

  predicate IsUsa(name: string) {
    StartsWith(name, UsaPrefix)
  }

  /** `diff_cmp`: ascending by `diff`. */
  function DiffCmp(a: Timing, b: Timing): (r: int)
    ensures -1 <= r <= 1
    ensures r < 0 <==> a.diff < b.diff
    ensures r == 0 <==> a.diff == b.diff
  {
    if a.diff < b.diff then -1 else if a.diff > b.diff then 1 else 0
  }

  /** `ftp_cmp`: `strcmp` on the base URLs. */
  function FtpCmp(a: Mirror, b: Mirror): (r: int)
    ensures -1 <= r <= 1
    ensures r == 0 <==> a.url == b.url
    ensures r < 0 <==> StrCmp(b.url, a.url) > 0
  {
    StrCmpAntisymmetric(a.url, b.url);
    StrCmp(a.url, b.url)
  }

  /** `label_cmp`: USA labels first, then ascending by `strcmp`. */
  function LabelCmp(a: string, b: string): (r: int)
    ensures -1 <= r <= 1
    ensures r == 0 <==> a == b
    ensures IsUsa(a) && !IsUsa(b) ==> r < 0
    ensures !IsUsa(a) && IsUsa(b) ==> r > 0
    ensures IsUsa(a) == IsUsa(b) ==> (r < 0 <==> StrCmp(a, b) < 0)
  {
    if IsUsa(a) != IsUsa(b) then (if IsUsa(a) then -1 else 1)
    else StrCmp(a, b)
  }

  /** `label_rev_cmp`: USA labels first, then descending by `strcmp`. */
  function LabelRevCmp(a: string, b: string): (r: int)
    ensures -1 <= r <= 1
    ensures r == 0 <==> a == b
    ensures IsUsa(a) && !IsUsa(b) ==> r < 0
    ensures !IsUsa(a) && IsUsa(b) ==> r > 0
    ensures IsUsa(a) == IsUsa(b) ==> (r < 0 <==> StrCmp(a, b) > 0)
  {
    StrCmpAntisymmetric(a, b);
    if IsUsa(a) != IsUsa(b) then (if IsUsa(a) then -1 else 1)
    else StrCmp(b, a)
  }

  /** Both label orders put every USA label strictly before every other
      label, whichever order the two are passed in. */
  lemma UsaFirst(a: string, b: string)
    requires IsUsa(a) && !IsUsa(b)
    ensures LabelCmp(a, b) < 0 && LabelCmp(b, a) > 0
    ensures LabelRevCmp(a, b) < 0 && LabelRevCmp(b, a) > 0
  {
  }

  /** Within the USA group and within the rest, `label_cmp` is ascending
      `strcmp` and `label_rev_cmp` is its mirror image. */
  lemma {:induction false} LabelOrdersWithinGroup(a: string, b: string)
    requires IsUsa(a) == IsUsa(b)
    ensures LabelCmp(a, b) < 0 <==> StrCmp(a, b) < 0
    ensures LabelRevCmp(a, b) < 0 <==> StrCmp(a, b) > 0
    ensures LabelRevCmp(a, b) == LabelCmp(b, a)
  {
    StrCmpAntisymmetric(a, b);
  }

  /** Each comparator is antisymmetric: `cmp(a, b) < 0` exactly when
      `cmp(b, a) > 0`, and `cmp(a, b) == 0` only for equal keys. */
  lemma {:induction false} ComparatorsAntisymmetric(a: Mirror, b: Mirror, x: Timing, y: Timing)
    ensures LabelCmp(a.name, b.name) < 0 <==> LabelCmp(b.name, a.name) > 0
    ensures LabelRevCmp(a.name, b.name) < 0 <==> LabelRevCmp(b.name, a.name) > 0
    ensures LabelCmp(a.name, b.name) == 0 <==> a.name == b.name
    ensures LabelRevCmp(a.name, b.name) == 0 <==> a.name == b.name
    ensures FtpCmp(a, b) < 0 <==> FtpCmp(b, a) > 0
    ensures FtpCmp(a, b) == 0 <==> a.url == b.url
    ensures DiffCmp(x, y) < 0 <==> DiffCmp(y, x) > 0
  {
    StrCmpAntisymmetric(a.name, b.name);
    StrCmpAntisymmetric(a.url, b.url);
  }

  /** The comparators as the function values handed to `qsort`. */
  function ByDiff(): (Timing, Timing) -> int {
    DiffCmp
  }

  function ByUrl(): (Mirror, Mirror) -> int {
    FtpCmp
  }

  function ByLabel(): (Mirror, Mirror) -> int {
    (a: Mirror, b: Mirror) => LabelCmp(a.name, b.name)
  }

  function ByLabelRev(): (Timing, Timing) -> int {
    (a: Timing, b: Timing) => LabelRevCmp(a.mirror.name, b.mirror.name)
  }

  /** `diff_cmp` is a total preorder. */
  lemma DiffCmpTotalPreorder()
    ensures TotalPreorder(ByDiff())
  {
  }

  /** `ftp_cmp` is a total preorder. */
  lemma FtpCmpTotalPreorder()
    ensures TotalPreorder(ByUrl())
  {
    forall a: Mirror, b: Mirror
      ensures FtpCmp(a, b) <= 0 || FtpCmp(b, a) <= 0
    {
      StrCmpAntisymmetric(a.url, b.url);
    }
    forall a: Mirror, b: Mirror, c: Mirror | FtpCmp(a, b) <= 0 && FtpCmp(b, c) <= 0
      ensures FtpCmp(a, c) <= 0
    {
      StrCmpTransitive(a.url, b.url, c.url);
    }
  }

  /** `label_cmp` is a total preorder: the USA group, then the rest, each
      ordered by `strcmp`. */
  lemma LabelCmpTotalPreorder()
    ensures TotalPreorder(ByLabel())
  {
    forall a: string, b: string
      ensures LabelCmp(a, b) <= 0 || LabelCmp(b, a) <= 0
    {
      StrCmpAntisymmetric(a, b);
    }
    forall a: string, b: string, c: string | LabelCmp(a, b) <= 0 && LabelCmp(b, c) <= 0
      ensures LabelCmp(a, c) <= 0
    {
      if IsUsa(a) == IsUsa(b) == IsUsa(c) {
        StrCmpTransitive(a, b, c);
      }
    }
  }

  /** `label_rev_cmp` is a total preorder. */
  lemma LabelRevCmpTotalPreorder()
    ensures TotalPreorder(ByLabelRev())
  {
    forall a: string, b: string
      ensures LabelRevCmp(a, b) <= 0 || LabelRevCmp(b, a) <= 0
    {
      StrCmpAntisymmetric(a, b);
    }
    forall a: string, b: string, c: string | LabelRevCmp(a, b) <= 0 && LabelRevCmp(b, c) <= 0
      ensures LabelRevCmp(a, c) <= 0
    {
      if IsUsa(a) == IsUsa(b) == IsUsa(c) {
        StrCmpTransitive(c, b, a);
      }
    }
  }

  /** Each of the four comparators is one `qsort` can sort with. */
  lemma ComparatorsAreTotalPreorders()
    ensures TotalPreorder(ByDiff())
    ensures TotalPreorder(ByUrl())
    ensures TotalPreorder(ByLabel())
    ensures TotalPreorder(ByLabelRev())
  {
    DiffCmpTotalPreorder();
    FtpCmpTotalPreorder();
    LabelCmpTotalPreorder();
    LabelRevCmpTotalPreorder();
  }
}
