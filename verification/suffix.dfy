/**
 The probe URL. Each mirror's base URL is probed at
 `<base>/<release or "snapshots">/<machine>/SHA256`. pkg_ping.c sizes the
 suffix buffer (`tag_len`) from the lengths of its pieces and then fills it
 with bounded `strlcpy`/`strlcat` calls, and sizes the probe URL buffer
 (`pos_max`) from the longest link line plus `tag_len`; the contracts here
 say that neither bounded copy ever truncates.
 */
module Suffix {
  import opened CString

  const Beta: string := "beta"
  const CurrentWord: string := "current"
  const Snapshots: string := "snapshots"
  const Sha256: string := "/SHA256"

  /** `strlcpy(release, name->release, 4 + 1)`: the release number, cut to
      its first four characters ("7.5" stays "7.5", "10.12" becomes "10.1"). */
  function ReleaseTag(release: string): (r: string)
    ensures |r| == Min(4, |release|)
    ensures StartsWith(release, r)
  {
    StrlCpy(release, 4 + 1)
  }

  /** The kernel version string names a beta or a -current kernel. */
  predicate IsSnapshotKernel(version: string) {
    Contains(version, Beta) || Contains(version, CurrentWord)
  }

  /** The `current` flag after option handling. `-O` inverts it, but the
      inversion sits inside the `verbose > 1` reporting block, so without at
      least two `-v` it has no effect. */
  function Current(version: string, verbose: int, override: bool): (r: bool)
    ensures !override || verbose <= 1 ==> (r <==> IsSnapshotKernel(version))
    ensures override && verbose > 1 ==> (r <==> !IsSnapshotKernel(version))
    ensures r <==>
      (exists i: nat :: OccursAt(version, Beta, i) || OccursAt(version, CurrentWord, i)) != (override && verbose > 1)
  {
    ContainsWindow(version, Beta);
    ContainsWindow(version, CurrentWord);
    var current := IsSnapshotKernel(version);
    if verbose > 1 && override then !current else current
  }

  /** The directory the probe looks in: the release number or "snapshots". */
  function Selector(current: bool, release: string): string {
    if current then Snapshots else ReleaseTag(release)
  }

  /** `tag_len`, summed from the lengths of the pieces. */
  function TagLen(current: bool, release: string, machine: string): nat {
    |"/"| + |Selector(current, release)| + |"/"| + |machine| + |Sha256|
  }

  /** The suffix as the bounded copies into a `tag_len + 1` buffer leave it:
      nothing is cut off, so it is exactly the pieces joined and exactly
      `tag_len` long. */
  function Tag(current: bool, release: string, machine: string): (r: string)
    ensures r == "/" + Selector(current, release) + "/" + machine + Sha256
    ensures |r| == TagLen(current, release, machine)
  {
    var size := TagLen(current, release, machine) + 1;
    var t0 := StrlCpy("/", size);
    var t1 := StrlCat(t0, Selector(current, release), size);
    var t2 := StrlCat(t1, "/", size);
    var t3 := StrlCat(t2, machine, size);
    StrlCat(t3, Sha256, size)
  }

  /** The probe URL as lines 776-777 build it in a `cap`-byte buffer:
      `strlcpy` the base, then `strlcpy` the suffix behind it. When the
      buffer has room for both and the NUL, it is the base followed by the
      suffix; it never holds more than `cap - 1` characters. */
  function ProbeUrl(url: string, tag: string, cap: nat): (r: string)
    requires |url| < cap
    ensures |url| + |tag| < cap ==> r == url + tag
    ensures |r| < cap
    ensures StartsWith(r, url)
  {
    StrlCpy(url, cap) + StrlCpy(tag, cap - |url|)
  }
}
