/**
 The mirror-index parser of pkg_ping.c. The filtered index arrives as a
 character stream of alternating label lines and link lines; `Step` is one
 turn of the `getc` loop and `Run` the whole loop. `Judge` and `Expected`
 restate the parser line by line, and `RenderRoundTrip` proves that the
 character machine and the line-level statement agree on every index built
 from well-formed entries. Each `char` is one byte of the filtered stream (a
 value below 256), so `LineMax` counts bytes as the C buffer does.
 */
module IndexParser {
  import opened CString
  import opened Mirrors
  import opened Results

  /** Size of the line buffer. A character read while the buffer already
      holds this many characters aborts the run. */
  const LineMax: nat := 300

  /** The two parser options: insecure transport (default; `-S` turns it
      off) and `-u`, which omits mirrors whose label starts with "USA". */
  datatype Config = Config(insecure: bool, omitUsa: bool)

  /** `LabelLine` and `LinkLine` are `num == 0` and `num == 1`; `SkipLine`
      is the inner `getc` loop that swallows the line after a USA label. */
  datatype Mode = LabelLine | LinkLine | SkipLine

  /** `line` holds `line[0..pos)`, `name` the pending label, `found` the
      mirrors stored so far and `widest` the running `pos_max`. */
  datatype Parser = Parser(mode: Mode, line: string, name: string, found: seq<Mirror>, widest: nat)

  /** The loop is still reading, has left it by `break`, or has aborted
      with "pos got too big". */
  datatype Scan = Reading(p: Parser) | Halted(found: seq<Mirror>, widest: nat) | TooLong

  datatype ParseError = LineTooLong | NoMirrorFound

  /** The parsed mirrors and `pos_max`, the longest link buffer seen. */
  datatype Index = Index(mirrors: seq<Mirror>, widest: nat)

  const Start: Parser := Parser(LabelLine, [], [], [], 0)

  /** A link line's text begins at the first of these characters. */
  predicate IsLinkStart(c: char) {
    c == 'h' || c == 'f' || c == 'r'
  }

  const Https: string := "https"

  /** What every stored mirror satisfies. */
  ghost predicate Accepted(cfg: Config, m: Mirror) {
    && '\n' !in m.name && |m.name| < LineMax
    && !(cfg.omitUsa && IsUsa(m.name))
    && '\n' !in m.url && |m.url| < LineMax - 1
    && (|m.url| > 0 ==> m.url[0] == 'h')
    && (cfg.insecure <==> !StartsWith(m.url, Https))
  }

  ghost predicate AllAccepted(cfg: Config, ms: seq<Mirror>, widest: nat) {
    forall m <- ms :: Accepted(cfg, m) && |m.url| < widest
  }

  ghost predicate Inv(cfg: Config, p: Parser) {
    && AllAccepted(cfg, p.found, p.widest)
    && '\n' !in p.line
    && (p.mode == SkipLine ==> p.line == [])
    && (p.mode == LinkLine ==> '\n' !in p.name && |p.name| < LineMax && !(cfg.omitUsa && IsUsa(p.name)))
    && (p.mode == LinkLine && |p.line| > 0 ==> p.line[0] == 'h')
  }

  ghost predicate ScanInv(cfg: Config, st: Scan) {
    match st
    case Reading(p) => Inv(cfg, p)
    case Halted(found, widest) => AllAccepted(cfg, found, widest)
    case TooLong => true
  }

  /** The mirrors stored so far (none once the run has aborted). */
  function Found(st: Scan): seq<Mirror> {
    match st
    case Reading(p) => p.found
    case Halted(found, _) => found
    case TooLong => []
  }

  /** One turn of the `getc` loop on character `c`. */
  function Step(cfg: Config, p: Parser, c: char): (r: Scan)
    ensures r.TooLong? <==> p.mode != SkipLine && |p.line| >= LineMax
    ensures r.Halted? ==> r.found == p.found && p.mode == LinkLine
    ensures r.Reading? ==> (r.p.found == p.found || (
      && p.mode == LinkLine && c == '\n' && |p.line| > 0
      && r.p.found == p.found + [Mirror(p.name, p.line[..|p.line| - 1])]))
  {
    match p.mode
    case SkipLine =>
      if c == '\n' then Reading(p.(mode := LabelLine, line := [])) else Reading(p)
    case LabelLine =>
      if |p.line| >= LineMax then TooLong
      else if c != '\n' then Reading(p.(line := p.line + [c]))
      else if cfg.omitUsa && IsUsa(p.line) then Reading(p.(mode := SkipLine, line := []))
      else Reading(p.(mode := LinkLine, name := p.line, line := []))
    case LinkLine =>
      if |p.line| >= LineMax then TooLong
      else if |p.line| == 0 && !IsLinkStart(c) then Reading(p)
      else if |p.line| == 0 && cfg.insecure && c == 'r' then Halted(p.found, p.widest)
      else if |p.line| == 0 && !cfg.insecure && c != 'h' then Halted(p.found, p.widest)
      else if |p.line| == 0 && c == 'f' then Reading(p.(line := "ht"))
      else if c != '\n' then Reading(p.(line := p.line + [c]))
      else
        var url := p.line[..|p.line| - 1];
        var widest := Max(p.widest, |p.line|);
        if !cfg.insecure && !StartsWith(url, Https) then Halted(p.found, widest)
        else if cfg.insecure && StartsWith(url, Https) then
          Reading(p.(mode := LabelLine, line := [], widest := widest))
        else
          Reading(Parser(LabelLine, [], p.name, p.found + [Mirror(p.name, url)], widest))
  }

  /** The `getc` loop over the rest of the input. */
  function Run(cfg: Config, st: Scan, input: string): (r: Scan)
    ensures !st.Reading? ==> r == st
    decreases |input|
  {
    if |input| == 0 then st
    else
      match st
      case Reading(p) => Run(cfg, Step(cfg, p, input[0]), input[1..])
      case _ => st
  }

  /** The whole parse: the loop from the start state, then the check for
      an empty result. */
  function Parse(cfg: Config, input: string): (r: Result<Index, ParseError>)
    ensures r.Success? ==> |r.value.mirrors| > 0
    ensures r.Success? ==> AllAccepted(cfg, r.value.mirrors, r.value.widest)
  {
    var st := Run(cfg, Reading(Start), input);
    RunKeepsInv(cfg, Reading(Start), input);
    if st.TooLong? then Failure(LineTooLong)
    else
      var widest := if st.Reading? then st.p.widest else st.widest;
      if |Found(st)| == 0 then Failure(NoMirrorFound)
      else Success(Index(Found(st), widest))
  }

  /** Every turn of the loop keeps the parser invariant, in particular
      that each stored mirror is `Accepted`. */
  lemma StepKeepsInv(cfg: Config, p: Parser, c: char)
    requires Inv(cfg, p)
    ensures ScanInv(cfg, Step(cfg, p, c))
  {
  }

  lemma {:induction false} RunKeepsInv(cfg: Config, st: Scan, input: string)
    requires ScanInv(cfg, st)
    ensures ScanInv(cfg, Run(cfg, st, input))
    decreases |input|
  {
    if |input| > 0 && st.Reading? {
      StepKeepsInv(cfg, st.p, input[0]);
      RunKeepsInv(cfg, Step(cfg, st.p, input[0]), input[1..]);
    }
  }

  /** The loop never drops a stored mirror: unless it aborts, what it has
      found so far is a prefix of what it ends with. */
  lemma {:induction false} RunOnlyAppends(cfg: Config, st: Scan, input: string)
    requires !Run(cfg, st, input).TooLong?
    ensures Found(st) <= Found(Run(cfg, st, input))
    decreases |input|
  {
    if |input| > 0 && st.Reading? {
      var next := Step(cfg, st.p, input[0]);
      RunOnlyAppends(cfg, next, input[1..]);
    }
  }

  // ---------------------------------------------------------------------
  // Run-level lemmas: how the loop consumes pieces of the stream.
  // ---------------------------------------------------------------------

  /** Reading `a + b` is reading `a`, then `b` from where `a` left off. */
  lemma {:induction false} RunAppend(cfg: Config, st: Scan, a: string, b: string)
    ensures Run(cfg, st, a + b) == Run(cfg, Run(cfg, st, a), b)
    decreases |a|
  {
    if |a| > 0 && st.Reading? {
      assert (a + b)[0] == a[0];
      assert (a + b)[1..] == a[1..] + b;
      RunAppend(cfg, Step(cfg, st.p, a[0]), a[1..], b);
    } else if |a| == 0 {
      assert a + b == b;
    }
  }

  /** Characters of a label, or of a link after its first character, are
      appended to the buffer while it has room. */
  lemma {:induction false} ReadText(cfg: Config, p: Parser, l: string)
    requires p.mode == LabelLine || (p.mode == LinkLine && |p.line| > 0)
    requires '\n' !in l
    requires |p.line| + |l| <= LineMax
    ensures Run(cfg, Reading(p), l) == Reading(p.(line := p.line + l))
    decreases |l|
  {
    if |l| > 0 {
      assert l[0] in l;
      var q := p.(line := p.line + [l[0]]);
      assert Step(cfg, p, l[0]) == Reading(q);
      assert forall k | 0 <= k < |l[1..]| :: l[1..][k] == l[k + 1];
      ReadText(cfg, q, l[1..]);
      assert q.line + l[1..] == p.line + l;
    } else {
      assert p.line + l == p.line;
    }
  }

  /** A label or link buffer that reaches `LineMax` characters aborts the
      run on the next character, whatever it is. */
  lemma {:induction false} LongLineAborts(cfg: Config, p: Parser, l: string)
    requires p.mode == LabelLine || (p.mode == LinkLine && |p.line| > 0)
    requires |p.line| <= LineMax < |p.line| + |l|
    requires '\n' !in l[..LineMax - |p.line|]
    ensures Run(cfg, Reading(p), l) == TooLong
  {
    var k := LineMax - |p.line|;
    assert l == l[..k] + l[k..];
    RunAppend(cfg, Reading(p), l[..k], l[k..]);
    ReadText(cfg, p, l[..k]);
  }

  /** At the start of a link line, characters other than `h`, `f` and `r`
      (tabs, blank lines) are skipped in either mode. */
  lemma {:induction false} SkipNoise(cfg: Config, p: Parser, w: string)
    requires p.mode == LinkLine && p.line == []
    requires forall k | 0 <= k < |w| :: !IsLinkStart(w[k])
    ensures Run(cfg, Reading(p), w) == Reading(p)
    decreases |w|
  {
    if |w| > 0 {
      SkipNoise(cfg, p, w[1..]);
    }
  }

  /** After a USA label under `-u`, the rest of the following line is
      swallowed without any length check. */
  lemma {:induction false} SkipToNewline(cfg: Config, p: Parser, x: string)
    requires p.mode == SkipLine
    requires '\n' !in x
    ensures Run(cfg, Reading(p), x) == Reading(p)
    ensures Run(cfg, Reading(p), x + "\n") == Reading(p.(mode := LabelLine, line := []))
    decreases |x|
  {
    if |x| > 0 {
      assert x[0] in x;
      assert (x + "\n")[1..] == x[1..] + "\n";
      assert forall k | 0 <= k < |x[1..]| :: x[1..][k] == x[k + 1];
      SkipToNewline(cfg, p, x[1..]);
    }
  }

  /** With `-u`, a label starting with "USA" stores nothing and consumes
      exactly one further line, whatever that line holds. */
  lemma UsaConsumesOneLine(cfg: Config, p: Parser, l: string, x: string, rest: string)
    requires cfg.omitUsa && IsUsa(l)
    requires p.mode == LabelLine && p.line == []
    requires '\n' !in l && |l| < LineMax && '\n' !in x
    ensures Run(cfg, Reading(p), l + "\n" + x + "\n" + rest) == Run(cfg, Reading(p), rest)
  {
    var skip := p.(mode := SkipLine, line := []);
    RunAppend(cfg, Reading(p), l, "\n" + x + "\n" + rest);
    assert l + "\n" + x + "\n" + rest == l + ("\n" + x + "\n" + rest);
    ReadText(cfg, p, l);
    assert Step(cfg, p.(line := l), '\n') == Reading(skip);
    assert ("\n" + x + "\n" + rest)[1..] == (x + "\n") + rest;
    RunAppend(cfg, Reading(skip), x + "\n", rest);
    SkipToNewline(cfg, skip, x);
    assert skip.(mode := LabelLine, line := []) == p;
  }

  // ---------------------------------------------------------------------
  // The line-level statement of the parser and the round trip.
  // ---------------------------------------------------------------------

  /** One block of the index: a label line and the link text of the line
      after it (the link line itself starts with a tab). */
  datatype Entry = Entry(name: string, link: string)

  ghost predicate WellFormed(e: Entry) {
    && '\n' !in e.name && |e.name| < LineMax
    && '\n' !in e.link && |e.link| > 0 && IsLinkStart(e.link[0])
    && |e.link| + 1 < LineMax
  }

  function RenderEntry(e: Entry): string {
    e.name + "\n" + "\t" + e.link + "\n"
  }

  /** The index text the filter would produce for these entries. */
  function Render(es: seq<Entry>): string {
    if |es| == 0 then "" else RenderEntry(es[0]) + Render(es[1..])
  }

  /** The link buffer: in insecure mode a leading `f` becomes `ht`, so that
      `ftp` reads as `http`. */
  function Buffer(cfg: Config, link: string): (b: string)
    requires |link| > 0
    ensures |b| > 0 && |b| <= |link| + 1
  {
    if cfg.insecure && link[0] == 'f' then "ht" + link[1..] else link
  }

  /** What the parser does with one block. */
  datatype Verdict = Skip | Stop | Keep(m: Mirror)

  function Judge(cfg: Config, e: Entry): Verdict
    requires WellFormed(e)
  {
    if cfg.omitUsa && IsUsa(e.name) then Skip
    else if cfg.insecure && e.link[0] == 'r' then Stop
    else if !cfg.insecure && e.link[0] != 'h' then Stop
    else
      var b := Buffer(cfg, e.link);
      var url := b[..|b| - 1];
      if cfg.insecure then
        (if StartsWith(url, Https) then Skip else Keep(Mirror(e.name, url)))
      else
        (if StartsWith(url, Https) then Keep(Mirror(e.name, url)) else Stop)
  }

  /** The mirrors a line-by-line reading of the blocks yields. */
  function Expected(cfg: Config, es: seq<Entry>): seq<Mirror>
    requires forall e <- es :: WellFormed(e)
  {
    if |es| == 0 then []
    else
      match Judge(cfg, es[0])
      case Skip => Expected(cfg, es[1..])
      case Stop => []
      case Keep(m) => [m] + Expected(cfg, es[1..])
  }

  /** No block stops the parse. */
  predicate Continues(cfg: Config, es: seq<Entry>)
    requires forall e <- es :: WellFormed(e)
  {
    forall e <- es :: !Judge(cfg, e).Stop?
  }

  /** The end of a link line: the buffer minus its last character is the
      URL; it stops the parse (secure, not https), is dropped with its
      label (insecure, https) or is stored with the pending label. */
  lemma LinkLineEnd(cfg: Config, l: Parser, b: string)
    requires l.mode == LinkLine && 0 < |b| < LineMax
    ensures var url := b[..|b| - 1];
      var r := Step(cfg, l.(line := b), '\n');
      && (!cfg.insecure && !StartsWith(url, Https) ==> r.Halted? && r.found == l.found)
      && (cfg.insecure && StartsWith(url, Https) ==>
            r.Reading? && r.p.mode == LabelLine && r.p.line == [] && r.p.found == l.found)
      && (cfg.insecure != StartsWith(url, Https) ==>
            r.Reading? && r.p.mode == LabelLine && r.p.line == [] && r.p.found == l.found + [Mirror(l.name, url)])
  {
  }

  /** A link line read from its first character: an `r` (insecure) or a
      non-`h` (secure) stops the parse at once, otherwise the whole text,
      with `f` widened to `ht`, lands in the buffer. */
  lemma {:induction false} LinkLineRun(cfg: Config, l: Parser, link: string)
    requires l.mode == LinkLine && l.line == []
    requires '\n' !in link && |link| > 0 && IsLinkStart(link[0]) && |link| + 1 < LineMax
    ensures var stop := (cfg.insecure && link[0] == 'r') || (!cfg.insecure && link[0] != 'h');
      && (stop ==> Run(cfg, Reading(l), link + "\n") == Halted(l.found, l.widest))
      && (!stop ==> Run(cfg, Reading(l), link + "\n") == Step(cfg, l.(line := Buffer(cfg, link)), '\n'))
  {
    var c := link[0];
    var after := link[1..] + "\n";
    assert link + "\n" == [c] + after;
    assert Run(cfg, Reading(l), link + "\n") == Run(cfg, Step(cfg, l, c), after);
    if (cfg.insecure && c == 'r') || (!cfg.insecure && c != 'h') {
      assert Step(cfg, l, c) == Halted(l.found, l.widest);
    } else {
      var first := if c == 'f' && cfg.insecure then "ht" else [c];
      var m := l.(line := first);
      assert Step(cfg, l, c) == Reading(m);
      assert Buffer(cfg, link) == first + link[1..];
      assert '\n' !in link[1..] by {
        assert forall k | 0 <= k < |link[1..]| :: link[1..][k] == link[k + 1];
      }
      RunAppend(cfg, Reading(m), link[1..], "\n");
      ReadText(cfg, m, link[1..]);
      var full := m.(line := first + link[1..]);
      assert Run(cfg, Reading(full), "\n") == Step(cfg, full, '\n');
    }
  }

  /** The label line of a block lands whole in the buffer. */
  lemma LabelPart(cfg: Config, p: Parser, e: Entry)
    requires p.mode == LabelLine && p.line == []
    requires WellFormed(e)
    ensures Run(cfg, Reading(p), RenderEntry(e))
         == Run(cfg, Step(cfg, p.(line := e.name), '\n'), "\t" + e.link + "\n")
  {
    var rest := "\t" + e.link + "\n";
    assert RenderEntry(e) == e.name + ("\n" + rest);
    RunAppend(cfg, Reading(p), e.name, "\n" + rest);
    ReadText(cfg, p, e.name);
    assert p.line + e.name == e.name;
    assert ("\n" + rest)[1..] == rest;
  }

  /** The link line of a block that was not skipped. */
  lemma LinkPart(cfg: Config, l: Parser, e: Entry)
    requires l.mode == LinkLine && l.line == [] && l.name == e.name
    requires WellFormed(e) && !(cfg.omitUsa && IsUsa(e.name))
    ensures var r := Run(cfg, Reading(l), "\t" + e.link + "\n");
      match Judge(cfg, e)
      case Stop => r.Halted? && r.found == l.found
      case Skip => r.Reading? && r.p.mode == LabelLine && r.p.line == [] && r.p.found == l.found
      case Keep(m) => r.Reading? && r.p.mode == LabelLine && r.p.line == [] && r.p.found == l.found + [m]
  {
    assert "\t" + e.link + "\n" == "\t" + (e.link + "\n");
    assert Step(cfg, l, '\t') == Reading(l);
    assert Run(cfg, Reading(l), "\t" + e.link + "\n") == Run(cfg, Reading(l), e.link + "\n");
    LinkLineRun(cfg, l, e.link);
    if !((cfg.insecure && e.link[0] == 'r') || (!cfg.insecure && e.link[0] != 'h')) {
      LinkLineEnd(cfg, l, Buffer(cfg, e.link));
    }
  }

  /** The state a `LabelLine` parser reaches after one block. */
  lemma RenderEntryRun(cfg: Config, p: Parser, e: Entry)
    requires p.mode == LabelLine && p.line == []
    requires WellFormed(e)
    ensures var r := Run(cfg, Reading(p), RenderEntry(e));
      match Judge(cfg, e)
      case Stop => r.Halted? && r.found == p.found
      case Skip => r.Reading? && r.p.mode == LabelLine && r.p.line == [] && r.p.found == p.found
      case Keep(m) => r.Reading? && r.p.mode == LabelLine && r.p.line == [] && r.p.found == p.found + [m]
  {
    LabelPart(cfg, p, e);
    var q := p.(line := e.name);
    if cfg.omitUsa && IsUsa(e.name) {
      var skip := q.(mode := SkipLine, line := []);
      assert Step(cfg, q, '\n') == Reading(skip);
      assert "\t" + e.link + "\n" == ("\t" + e.link) + "\n";
      assert '\n' !in "\t" + e.link;
      SkipToNewline(cfg, skip, "\t" + e.link);
    } else {
      var l := q.(mode := LinkLine, name := e.name, line := []);
      assert Step(cfg, q, '\n') == Reading(l);
      LinkPart(cfg, l, e);
    }
  }

  lemma ContinuesCons(cfg: Config, es: seq<Entry>)
    requires |es| > 0 && forall e <- es :: WellFormed(e)
    ensures forall e <- es[1..] :: WellFormed(e)
    ensures Continues(cfg, es) <==> !Judge(cfg, es[0]).Stop? && Continues(cfg, es[1..])
  {
    assert forall x <- es[1..] :: x in es;
    assert es == [es[0]] + es[1..];
  }

  /** The first block of a rendering: the run continues from where that
      block leaves the parser. */
  lemma RenderHead(cfg: Config, p: Parser, es: seq<Entry>)
    requires p.mode == LabelLine && p.line == []
    requires |es| > 0 && forall e <- es :: WellFormed(e)
    ensures var mid := Run(cfg, Reading(p), RenderEntry(es[0]));
      && Run(cfg, Reading(p), Render(es)) == Run(cfg, mid, Render(es[1..]))
      && (Judge(cfg, es[0]).Stop? ==> mid.Halted? && mid.found == p.found)
      && (Judge(cfg, es[0]).Stop? ==> Found(Run(cfg, Reading(p), Render(es))) == p.found)
      && (!Judge(cfg, es[0]).Stop? ==> mid.Reading? && mid.p.mode == LabelLine && mid.p.line == [])
      && (Judge(cfg, es[0]).Skip? ==> mid.p.found == p.found)
      && (Judge(cfg, es[0]).Keep? ==> mid.p.found == p.found + [Judge(cfg, es[0]).m])
  {
    assert es[0] in es;
    RunAppend(cfg, Reading(p), RenderEntry(es[0]), Render(es[1..]));
    RenderEntryRun(cfg, p, es[0]);
  }

  /** The line-level result of blocks, by the verdict on the first one. */
  lemma ExpectedHead(cfg: Config, es: seq<Entry>)
    requires |es| > 0 && forall e <- es :: WellFormed(e)
    ensures forall e <- es[1..] :: WellFormed(e)
    ensures Judge(cfg, es[0]).Stop? ==> Expected(cfg, es) == []
    ensures Judge(cfg, es[0]).Skip? ==> Expected(cfg, es) == Expected(cfg, es[1..])
    ensures Judge(cfg, es[0]).Keep? ==> Expected(cfg, es) == [Judge(cfg, es[0]).m] + Expected(cfg, es[1..])
  {
    assert forall x <- es[1..] :: x in es;
  }

  /** How the rendered blocks leave the parser: never aborted, and still
      reading, back in label mode, exactly when no block stopped it. */
  lemma {:induction false} RenderRunShape(cfg: Config, p: Parser, es: seq<Entry>)
    requires p.mode == LabelLine && p.line == []
    requires forall e <- es :: WellFormed(e)
    ensures var r := Run(cfg, Reading(p), Render(es));
      && (r.Reading? || r.Halted?)
      && (r.Reading? <==> Continues(cfg, es))
      && (r.Reading? ==> r.p.mode == LabelLine && r.p.line == [])
    decreases |es|
  {
    if |es| > 0 {
      RenderHead(cfg, p, es);
      ContinuesCons(cfg, es);
      var mid := Run(cfg, Reading(p), RenderEntry(es[0]));
      if mid.Reading? {
        RenderRunShape(cfg, mid.p, es[1..]);
      }
    }
  }

  /** Reading rendered blocks stores exactly the line-level result. */
  lemma {:induction false} RenderRunFound(cfg: Config, p: Parser, es: seq<Entry>)
    requires p.mode == LabelLine && p.line == []
    requires forall e <- es :: WellFormed(e)
    ensures Found(Run(cfg, Reading(p), Render(es))) == p.found + Expected(cfg, es)
    decreases |es|
  {
    if |es| == 0 {
      assert p.found + [] == p.found;
    } else {
      RenderHead(cfg, p, es);
      ExpectedHead(cfg, es);
      var mid := Run(cfg, Reading(p), RenderEntry(es[0]));
      var v := Judge(cfg, es[0]);
      if v.Stop? {
        assert p.found + [] == p.found;
      } else {
        var q := mid.p;
        var tail := Expected(cfg, es[1..]);
        RenderRunFound(cfg, q, es[1..]);
        assert Found(Run(cfg, Reading(p), Render(es))) == q.found + tail;
        if v.Keep? {
          assert p.found + [v.m] + tail == p.found + ([v.m] + tail);
        }
      }
    }
  }

  /** Reading rendered blocks yields exactly the line-level result, and the
      run ends back in label mode unless some block stopped it. */
  lemma RenderRun(cfg: Config, p: Parser, es: seq<Entry>)
    requires p.mode == LabelLine && p.line == []
    requires forall e <- es :: WellFormed(e)
    ensures var r := Run(cfg, Reading(p), Render(es));
      && !r.TooLong?
      && Found(r) == p.found + Expected(cfg, es)
      && (r.Reading? <==> Continues(cfg, es))
      && (r.Reading? ==> r.p.mode == LabelLine && r.p.line == [])
  {
    RenderRunShape(cfg, p, es);
    RenderRunFound(cfg, p, es);
  }

  /** Round trip: parsing the rendering of well-formed blocks gives the
      line-level result, and "No mirror found" exactly when that is empty. */
  lemma RenderRoundTrip(cfg: Config, es: seq<Entry>)
    requires forall e <- es :: WellFormed(e)
    ensures Parse(cfg, Render(es)).Success? <==> |Expected(cfg, es)| > 0
    ensures Parse(cfg, Render(es)).Success? ==> Parse(cfg, Render(es)).value.mirrors == Expected(cfg, es)
    ensures Parse(cfg, Render(es)).Failure? ==> Parse(cfg, Render(es)).error == NoMirrorFound
  {
    RenderRun(cfg, Start, es);
  }

  /** A line of `LineMax` or more characters after any number of blocks
      aborts the whole run, mirrors already found or not. */
  lemma LongLabelAbortsParse(cfg: Config, es: seq<Entry>, l: string)
    requires forall e <- es :: WellFormed(e)
    requires Continues(cfg, es)
    requires |l| > LineMax && '\n' !in l[..LineMax]
    ensures Parse(cfg, Render(es) + l) == Failure(LineTooLong)
  {
    RenderRun(cfg, Start, es);
    RunAppend(cfg, Reading(Start), Render(es), l);
    var r := Run(cfg, Reading(Start), Render(es));
    LongLineAborts(cfg, r.p, l);
  }

  /** A trailing label with no link line after it is discarded. */
  lemma TrailingLabelDiscarded(cfg: Config, es: seq<Entry>, l: string)
    requires forall e <- es :: WellFormed(e)
    requires Continues(cfg, es)
    requires '\n' !in l && |l| < LineMax
    ensures Parse(cfg, Render(es) + l + "\n").Success? <==> |Expected(cfg, es)| > 0
    ensures Parse(cfg, Render(es) + l + "\n").Success? ==>
      Parse(cfg, Render(es) + l + "\n").value.mirrors == Expected(cfg, es)
  {
    RenderRun(cfg, Start, es);
    var r := Run(cfg, Reading(Start), Render(es));
    assert Render(es) + l + "\n" == Render(es) + (l + "\n");
    RunAppend(cfg, Reading(Start), Render(es), l + "\n");
    RunAppend(cfg, r, l, "\n");
    ReadText(cfg, r.p, l);
  }
}
