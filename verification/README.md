# pkg_ping mirror selection, modelled in Dafny

pkg_ping picks the fastest OpenBSD package mirror. It reads the filtered
mirror index as a stream of label lines and link lines and keeps a list of
mirrors. In insecure mode (the default) it drops duplicate base URLs, then
sorts the mirrors by label. It then times one download of
`<base>/<release or snapshots>/<machine>/SHA256` from each mirror in turn,
waiting at most `S` seconds. In quiet mode `S` shrinks to the fastest time
seen so far. Finally it sorts the mirrors by the recorded `diff`, regroups
the timeouts and download errors by label for the `-v` report, and takes the
first mirror unless its `diff` reached the ceiling `s`.

The model follows pkg_ping.c module by module:

- `CString`: the C string routines the program relies on (`strcmp`, `strncmp` as a prefix test, `strstr`, `strlcpy`, `strlcat`).
- `Sorting`: `qsort`. It is unstable, so a sort is "ordered by the comparator and a permutation" (`IsQsortOf`), and every ranking property is stated for any such result.
- `Mirrors`: `struct mirror_st` and the four comparators.
- `IndexParser`: the `getc` state machine of the index parser. A line-level reference reading (`Judge`, `Expected`) and a round-trip theorem connect it to the blocks of the index.
- `Suffix`: the `current` flag, the probe suffix and the probe URL.
- `Dedup`: the insecure-mode deduplication.
- `Scheduler`: the probe rounds and the shrinking bound `S`.
- `Ranker`: the `diff` sort, the grouping scan, the label re-sorts and the final pick.
- `CommandLine`: the `-s` check and the `-v`/`-V` verbosity.
- `PkgPing`: one whole run, `Ping`, from the index text to the chosen mirror.

The downloads are the one thing the model cannot compute. They are a
parameter `download(url, bound)`: the outcome of the `ftp` child for that URL
when waited for at most `bound` seconds. The outcome is a timeout, a
non-zero exit, or an exit after `elapsed` seconds.

## Model

| member | source | states |
|---|---|---|
| CString.StrCmp | pkg_ping.c:90 | the sign of `strcmp` lies in -1..1 and is 0 exactly for equal strings |
| CString.StrCmpIsLexicographic | pkg_ping.c:90 | `strcmp` is negative exactly when the first string orders before the second lexicographically: it is a proper prefix, or at the first difference it has the smaller character |
| CString.StrCmpAntisymmetric | pkg_ping.c:106 | swapping the operands of `strcmp` negates the result |
| CString.StrCmpTransitive | pkg_ping.c:90 | `strcmp(a, b) <= 0` is transitive, so `strcmp` orders strings consistently |
| CString.ContainsWindow | pkg_ping.c:202-205 | `strstr` finds a word exactly when some window of the text spells it |
| CString.StrlCpy | pkg_ping.c:515 | `strlcpy` leaves a prefix of the source that is shorter than the buffer, as long as the source or one less than the buffer, whichever is shorter, and the whole source exactly when it fits |
| CString.StrlCat | pkg_ping.c:533-542 | `strlcat` keeps the destination and appends a prefix of the source, the whole source exactly when it fits with the NUL; a destination that already fills the buffer is left alone, and otherwise the result is as long as both strings or one less than the buffer, whichever is shorter |
| Sorting.Sort | pkg_ping.c:766 | the concrete sort returns a permutation of its input |
| Sorting.SortIsQsort | pkg_ping.c:747 | for every total-preorder comparator, insertion sort yields a result `qsort` may produce: ordered and a permutation |
| Mirrors.DiffCmp | pkg_ping.c:72-82 | `diff_cmp` is negative exactly when the first `diff` is smaller and zero exactly when the `diff`s are equal |
| Mirrors.FtpCmp | pkg_ping.c:85-91 | `ftp_cmp` is zero exactly for equal base URLs, and negative exactly when `strcmp` with the operands swapped is positive |
| Mirrors.LabelCmp | pkg_ping.c:94-107 | `label_cmp` puts every USA label before every other label, is zero only for equal labels, and within a group is negative exactly when `strcmp` is |
| Mirrors.LabelRevCmp | pkg_ping.c:110-123 | `label_rev_cmp` puts every USA label before every other label, is zero only for equal labels, and within a group is negative exactly when `strcmp` is positive |
| Mirrors.LabelOrdersWithinGroup | pkg_ping.c:99-122 | within the USA group and within the rest, `label_cmp` is ascending `strcmp` and `label_rev_cmp` is its reverse |
| Mirrors.ComparatorsAntisymmetric | pkg_ping.c:72-123 | each comparator is antisymmetric; the label and URL comparators return 0 only for equal keys |
| Mirrors.FtpCmpTotalPreorder | pkg_ping.c:85-91 | `ftp_cmp` is a total preorder, so `qsort` with it is well defined |
| Mirrors.LabelCmpTotalPreorder | pkg_ping.c:94-107 | `label_cmp` (USA first, then `strcmp`) is a total preorder |
| Mirrors.LabelRevCmpTotalPreorder | pkg_ping.c:110-123 | `label_rev_cmp` (USA first, then reverse `strcmp`) is a total preorder |
| Mirrors.ComparatorsAreTotalPreorders | pkg_ping.c:72-123 | all four comparators handed to `qsort` are total preorders |
| IndexParser.Step | pkg_ping.c:614-721 | one character aborts the run exactly when a label or link buffer already holds 300 characters; a `break` happens only on a link line and keeps the stored mirrors; at most one mirror is stored, only at the newline ending a link line, from the pending label and the buffer minus its last character |
| IndexParser.Parse | pkg_ping.c:603-742 | a successful parse returns a non-empty list in which every mirror has a newline-free label under 300 characters, is not a USA mirror under `-u`, has a URL that, when non-empty, starts with `h`, is shorter than `pos_max`, and is https exactly in secure mode |
| IndexParser.Run | pkg_ping.c:614-722 | the `getc` loop: once it has left by `break` or aborted, no further input changes the outcome |
| IndexParser.RunKeepsInv | pkg_ping.c:614-722 | every turn of the `getc` loop keeps the parser invariant, so every stored mirror satisfies the acceptance conditions |
| IndexParser.RunOnlyAppends | pkg_ping.c:614-722 | unless the run aborts, the mirrors stored so far are a prefix of the mirrors at the end |
| IndexParser.RunAppend | pkg_ping.c:614 | reading `a + b` is reading `a` and then `b` from the state `a` left |
| IndexParser.ReadText | pkg_ping.c:621-625 | label characters, and link characters after the first, are appended to the buffer while it has room |
| IndexParser.LongLineAborts | pkg_ping.c:615-620 | a label or link line whose buffer reaches 300 characters aborts the whole run on the next character |
| IndexParser.SkipNoise | pkg_ping.c:652-654 | before a link starts, characters other than `h`, `f` and `r` are ignored in both modes |
| IndexParser.SkipToNewline | pkg_ping.c:629-636 | after a USA label under `-u`, the next line is swallowed whole, with no length limit, and parsing resumes at a label |
| IndexParser.UsaConsumesOneLine | pkg_ping.c:627-637 | under `-u`, a USA label and exactly one following line are consumed and nothing is stored |
| IndexParser.LinkLineRun | pkg_ping.c:652-668 | a link starting with `r` (insecure) or not with `h` (secure) stops the parse at once; otherwise the whole link, with a leading `f` widened to `ht`, lands in the buffer |
| IndexParser.RenderEntryRun | pkg_ping.c:621-721 | one label-and-link block stops, skips or stores exactly as the line-level verdict `Judge` says |
| IndexParser.RenderRun | pkg_ping.c:614-722 | reading any sequence of well-formed blocks stores exactly the line-level result `Expected` and never aborts; it ends in label mode exactly when no block stopped it |
| IndexParser.RenderRoundTrip | pkg_ping.c:614-738 | parsing the rendering of well-formed blocks returns the line-level result, and fails with "No mirror found" exactly when that is empty |
| IndexParser.LongLabelAbortsParse | pkg_ping.c:615-620 | an over-long line after any blocks that did not stop the parse fails the whole parse, whatever was found before |
| IndexParser.TrailingLabelDiscarded | pkg_ping.c:740-742 | a final label with no link line is dropped and changes neither the outcome nor the mirrors |
| Suffix.ReleaseTag | pkg_ping.c:515 | the release directory is the first `min(4, length)` characters of the release string |
| Suffix.Current | pkg_ping.c:279-299 | the snapshot flag is "some window of the kernel version spells `beta` or `current`", inverted by `-O` only when `verbose > 1` |
| Suffix.Tag | pkg_ping.c:517-542 | the suffix is exactly `/` + selector + `/` + machine + `/SHA256` and exactly `tag_len` long: the bounded copies never truncate |
| Suffix.ProbeUrl | pkg_ping.c:776-777 | the probe URL never exceeds the buffer, starts with the base URL, and is base URL + suffix whenever both fit |
| Dedup.RemoveAdjacentDuplicates | pkg_ping.c:748-760 | the delete-and-shift loop computes the line-level `Collapse`: of every run of equal neighbouring URLs only the last survives |
| Dedup.CollapseIsSubmultiset | pkg_ping.c:749-760 | the survivors are input mirrors, each at most as often as in the input |
| Dedup.CollapseKeepsUrls | pkg_ping.c:749-760 | no URL is lost by the collapse |
| Dedup.CollapseIncreasing | pkg_ping.c:747-760 | on a URL-sorted array the survivors' URLs strictly increase |
| Dedup.DedupIncreasing | pkg_ping.c:745-761 | for every order `qsort` may leave, the survivors' URLs strictly increase, so no two share a URL |
| Dedup.DedupKeepsUrls | pkg_ping.c:745-761 | for every order `qsort` may leave, the survivors carry exactly the input's URLs, one mirror per distinct URL |
| Dedup.DedupFromInput | pkg_ping.c:745-761 | for every order `qsort` may leave, every survivor is an input mirror, at most as often as in the input |
| Dedup.Deduplicate | pkg_ping.c:745-761 | insecure-mode deduplication leaves distinct URLs, all the input's URLs, one mirror per URL, and only input mirrors |
| Scheduler.Round | pkg_ping.c:866-908 | a round records below `s` exactly a download that finished within `s` (its elapsed time), `s` for a timeout or late finish, and `s + 1` for an error; the bound only shrinks, only in quiet mode, and only to a success time |
| Scheduler.Fold | pkg_ping.c:768-909 | the loop records one `diff` per mirror and leaves `S` at most `s` |
| Scheduler.FoldClassifies | pkg_ping.c:866-908 | every recorded `diff` classifies its round's outcome as `Round` does, for every mirror of the loop |
| Scheduler.FoldPrefix | pkg_ping.c:774-909 | later rounds never change earlier `diff`s, and round `i` waits with the bound the first `i` rounds left |
| Scheduler.BoundNonIncreasing | pkg_ping.c:901-906 | the bound each round waits with never grows from round to round, never exceeds `s`, and stays `s` unless the run is quiet |
| Scheduler.Fastest | pkg_ping.c:901-902 | the smallest of `s` and the success times: below or equal to each, and attained |
| Scheduler.FoldBoundIsFastest | pkg_ping.c:901-906 | in quiet mode the final `S` is the fastest success time (or `s`); otherwise `S` stays `s` |
| Ranker.FindGroups | pkg_ping.c:928-945 | on a `diff`-sorted array the backward scan reports successes as exactly `0..se`, timeouts as exactly `ts..te`, errors as exactly `ds..de`, in that order, with -1 for an empty group |
| Ranker.ResortRun | pkg_ping.c:947-955 | re-sorting a run of equal `diff`s by `label_rev_cmp` keeps the array `diff`-sorted and a permutation, keeps every `diff`, leaves everything outside the run in place, and label-orders the run |
| Ranker.ResortGroup | pkg_ping.c:947-954 | one guarded `qsort` of `array[lo..hi]`: a permutation of the array that leaves every position outside the run in place, and the whole array when the run has fewer than two entries |
| Ranker.Regrouped | pkg_ping.c:947-954 | the two guarded sorts in order, timeout group then error group: a permutation of the array with every success left in place |
| Ranker.ResortGroupFacts | pkg_ping.c:947-950 | the guarded re-sort of one group, including the one-element and empty cases, has the same properties |
| Ranker.RegroupedKeeps | pkg_ping.c:947-955 | re-sorting both groups keeps the `diff` order, the elements, the `diff` at every position and every success in place |
| Ranker.RegroupedByLabel | pkg_ping.c:947-955 | after both re-sorts, mirrors sharing a `diff` at or above `s` are in `label_rev_cmp` order |
| Ranker.Regroup | pkg_ping.c:926-955 | the `-v` regrouping keeps the array `diff`-sorted, a permutation, with the same `diff` at every position and the successes unchanged, and label-orders the timeout and error groups |
| Ranker.Pick | pkg_ping.c:995-1002 | the first mirror is chosen exactly when its `diff` is below `s`; otherwise the failure is "release not present" exactly for a release kernel under `-O`, else "no successful mirrors" |
| Ranker.PickIsFastest | pkg_ping.c:995 | on a `diff`-sorted array the pick succeeds exactly when some mirror is below `s`, and the first mirror has the smallest `diff` |
| Ranker.HeadOfPermutation | pkg_ping.c:924 | the head of any `diff`-sorted permutation is an element of the input with the smallest `diff`, and is below `s` exactly when some input element is |
| Ranker.OutcomeClassesInOrder | pkg_ping.c:959-964 | in a `diff`-sorted array every success precedes every timeout, and every timeout precedes every error, as the report's headings assume |
| PkgPing.OutcomesWaitForBounds | pkg_ping.c:857 | round `k` observes the download of the `k`-th URL waited for with exactly the bound the earlier rounds left |
| PkgPing.ProbeUrls | pkg_ping.c:776-777 | since every base URL is shorter than the widest link, each probe URL is exactly the base URL followed by the suffix |
| PkgPing.ProbeAll | pkg_ping.c:774-908 | the loop probes the URLs in order, each with the bound in force, and records the `diff`s of the fold over those outcomes |
| PkgPing.Rank | pkg_ping.c:924-955 | the ranked array is a `diff`-sorted permutation of the timings, and with `-v` its timeout and error groups are label-ordered |
| PkgPing.Candidates | pkg_ping.c:745-766 | the mirrors to probe come from the index and carry exactly its set of URLs; in insecure mode there is one per distinct URL and no two share a URL, otherwise they are the parsed mirrors themselves, reordered; they are in `label_cmp` order |
| PkgPing.ChosenIsFastest | pkg_ping.c:995 | an entry whose `diff` is the smallest and below `s` belongs to a download that finished within `s`, and no finished download was faster |
| PkgPing.PickReadsBack | pkg_ping.c:924-1002 | for any ranking of the probed timings, the pick succeeds exactly when some download beat `s`, and the mirror picked is then the one at a probe position whose own download finished within `s` and was the fastest |
| PkgPing.FoldOutcomeCoded | pkg_ping.c:875-908 | every `diff` above `s` the loop records is exactly `s + 1` |
| PkgPing.Survey | pkg_ping.c:745-1002 | every probed URL is an indexed base URL plus the suffix, and every indexed mirror is probed; in insecure mode no URL is probed twice and there is one probe per distinct URL, otherwise one per entry; each probe waits with the bound in force; a mirror is chosen exactly when some download beat `s`, and it is then the indexed mirror with the fastest download |
| PkgPing.Ping | pkg_ping.c:603-1002 | a bad or empty index, and only that, fails with the parser's error before any probe; otherwise every parsed mirror is probed at its URL with this machine's suffix (no URL twice in insecure mode), the run chooses a mirror exactly when some download beat `s`, and the mirror chosen has the fastest download; the failure kind follows the `current` flag and `-O` |
| CommandLine.AdmissibleIsDecimalText | pkg_ping.c:230-243 | the character-by-character check accepts exactly the texts made of digits with at most one decimal point |
| CommandLine.DecimalValue | pkg_ping.c:248 | the exact value `strtod` approximates: its whole part is the number the digits before the point spell, and the digits after the point add less than one |
| CommandLine.DigitsValueAppend | pkg_ping.c:248 | appending digits shifts the number spelled so far left by as many places and adds the number the new digits spell |
| CommandLine.DecimalValueWithoutPoint | pkg_ping.c:248 | a text without a decimal point has the value its digits spell |
| CommandLine.DecimalValueSpelled | pkg_ping.c:248 | the full value of a decimal text: scaled by ten to the number of digits after the point, it is the number all its digits spell with the point removed |
| CommandLine.ParseSeconds | pkg_ping.c:227-255 | the first rejected character gives "No negative sign." for `-` and the format error otherwise; an accepted text needs a digit; its value must lie in (0.01, 1000], and it is then the ceiling |
| CommandLine.NatTextRoundTrip | pkg_ping.c:248 | the decimal reading of a number's digits gives the number back |
| CommandLine.WholeSeconds | pkg_ping.c:227-255 | a whole number of seconds is accepted exactly when it is between 1 and 1000, and it is then the ceiling |
| CommandLine.Bump | pkg_ping.c:259-267 | one `-v` or `-V`: `-V` sets -1, which no later `-v` undoes; `-v` adds one below 3 and keeps the value in -1..3; other letters change nothing |
| CommandLine.Verbosity | pkg_ping.c:259-267 | the verbosity always lies in -1..3 |
| CommandLine.VerbosityClosedForm | pkg_ping.c:259-267 | the verbosity is -1 once `-V` was given, and otherwise the number of `-v` flags capped at 3 |

## Notes on the program's behaviour

The model follows the code in each of these cases.

- Deduplication (lines 748-760) deletes the earlier of two neighbours with equal URLs. Of each run of equal URLs it keeps the last in the order `qsort` left, which need not be the first in index order.
- Line 672 overwrites the last character of a link buffer, the trailing `/`. In insecure mode a link line holding only `h` therefore stores an empty URL, and the model allows empty URLs. Under `-S` the same line fails the `https` test at line 678, and the parse stops at line 679.
- In insecure mode a link starting with `r` ends the whole parse (`break` at lines 656-657); it is not skipped. In secure mode any link not starting with `h` does the same (lines 662-663).
- Under `-u` (lines 627-637) a USA label consumes exactly one following line, whatever it holds.
- After a link line is stored or skipped (lines 682 and 720), the parser is back in label mode, so a second link line for the same label is read as the next label.
- Insecure transport is the default (line 187); `-S` turns it off (line 225).
- The usage text (lines 133-136) describes `-O` as overriding the kernel kind outright. The code inverts `current` only inside the `verbose > 1` block (lines 279-299); without two `-v` the flag changes only which failure message line 996 selects.

## Left out

- Process handling: `fork`/`exec` of `ftp` and `sed`, the pipes, `kqueue`/`kevent` and `gettimeofday`. A download's outcome and elapsed time are the `download` parameter. The model's `download` is a function, so two probes of the same URL with the same bound have the same outcome.
- `sysctl`, `uname`, `pledge` and `unveil`: the kernel version, release and machine strings are parameters of `Ping`.
- `getopt` itself and the options `-h`, `-f` and stray arguments: the core reads only the decoded `Options`.
- The writer child, `/etc/installurl` and the final `dup2`/`printf` hand-off (lines 302-401 and 1004-1038).
- The progress counter and the `-v` report text (lines 779-802 and 957-992). Only the order the report relies on is modelled (`Ranker.OutcomeClassesInOrder`).
- Memory: `malloc`, `calloc` and `reallocarray` are taken to succeed, and array growth (`array_max`) is not modelled.
- Floating point: `diff`, `s` and `S` are exact reals, and the `timespec` conversion of `S` (lines 770-772 and 903-906) is not modelled.
- CommandLine.ParseSeconds: uses the exact decimal value where `strtod` rounds, and does not model the `ERANGE` failure (lines 249-250), which for extreme texts reports "strtod" instead of a range error.
- Strings are sequences of `char` without NUL: the C routines stop at the first NUL, and the filtered index contains none.
- Character encoding: each `char` stands for one byte of the filtered stream (a value below 256), with no decoding. With that reading the 300-character buffer limit (line 615) counts bytes as the C code does, and `StrCmp`'s order by character code is `strcmp`'s order by unsigned byte (lines 90 and 106).
