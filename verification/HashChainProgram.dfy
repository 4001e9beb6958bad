/** The hash-chain program: `main`, what it prints, and what a reader of the printed text can rely on. */
module HashChainProgram {
  import opened Words
  import opened HashChain

  /** A component on the command line; `content` is None if it cannot be read. */
  datatype Component = Component(path: string, content: Option<seq<byte>>)

  const FINAL_HEADING: string := "final chain digest: "

  // The closing lines; the long ones in pieces short enough to be searched for a newline by evaluation.
  const IMPORTANT: string := "Important:"
  const ONLY_PROVES: string := "  This digest only " + "proves the measured " + "sequence."
  const BECOMES: string := "  It becomes a " + "security boundary " + "only if protected " + "or signed."

  function Sentences(): string {
    ONLY_PROVES + "\n" + (BECOMES + "\n")
  }

  function Closing(): string {
    "\n" + (IMPORTANT + "\n" + Sentences())
  }

  // ------------------------------------------------------------------ the text

  predicate AllRead(components: seq<Component>) {
    forall i | 0 <= i < |components| :: components[i].content.Some?
  }

  /** The contents of components that could all be read. */
  function Contents(components: seq<Component>): (r: seq<seq<byte>>)
    requires AllRead(components)
    ensures |r| == |components|
    ensures forall i | 0 <= i < |components| :: r[i] == components[i].content.value
  {
    seq(|components|, i requires 0 <= i < |components| => components[i].content.value)
  }

  function Line(heading: string, bytes: seq<byte>): string {
    heading + Hex(bytes) + "\n"
  }

  function Announcement(number: nat, path: string): string {
    Start(number) + path + "\n"
  }

  function Start(number: nat): string {
    "component[" + Digits(number) + "]: "
  }

  function Measured(digest: Digest): string {
    Line("  measurement: ", digest)
  }

  function Header(): string {
    Line("initial chain: ", ZeroDigest()) + "\n"
  }

  function BlockText(number: nat, path: string, digest: Digest, chain: seq<byte>): string {
    Announcement(number, path) + Measured(digest) + (Line("  chain:       ", chain) + "\n")
  }

  /** The header and the lines of components that could all be read. */
  function Blocks(H: Hash, components: seq<Component>): string
    requires AllRead(components)
    decreases |components|
  {
    if components == [] then Header()
    else
      var last := |components| - 1;
      var c := components[last];
      Blocks(H, components[..last]) +
      BlockText(last + 1, c.path, H(c.content.value), Chain(H, Contents(components)))
  }

  function DigestLine(H: Hash, components: seq<Component>): string
    requires AllRead(components)
  {
    FINAL_HEADING + Hex(Chain(H, Contents(components)))
  }

  /** Everything a successful run prints. */
  function FullText(H: Hash, components: seq<Component>): string
    requires AllRead(components)
  {
    Blocks(H, components) + (DigestLine(H, components) + "\n" + Closing())
  }

  /** What is printed for a component the program gives up on, before or after its measurement. */
  predicate GivenUp(H: Hash, number: nat, c: Component, text: string) {
    || text == Announcement(number, c.path)
    || (c.content.Some? && text == Announcement(number, c.path) + Measured(H(c.content.value)))
  }

  /** `out` is what a run prints that stops at component `k`. */
  predicate StoppedAt(H: Hash, components: seq<Component>, k: nat, out: string) {
    && k < |components| && AllRead(components[..k])
    && var before := Blocks(H, components[..k]);
       before <= out && GivenUp(H, k + 1, components[k], out[|before|..])
  }

  /** What `main` may return and print for its arguments. */
  ghost predicate Prints(H: Hash, components: seq<Component>, status: nat, out: string) {
    if components == [] then status == 1 && out == ""
    else if status == 0 then AllRead(components) && out == FullText(H, components)
    else status == 1 && exists k :: StoppedAt(H, components, k, out)
  }

  /** For one component the output reads, from its first to its last character: */
  lemma OneComponentText(H: Hash, path: string, content: seq<byte>)
    ensures var c := Component(path, Some(content));
            var zero, digest := Hex(seq(32, _ => 0)), H(content);
            var chain := Hex(H(seq(32, _ => 0) + digest));
            FullText(H, [c]) ==
            "initial chain: " + zero + "\n" + "\n" +
            ("component[" + "1" + "]: " + path + "\n" +
             ("  measurement: " + Hex(digest) + "\n") +
             ("  chain:       " + chain + "\n" + "\n")) +
            ("final chain digest: " + chain + "\n" +
             ("\n" + ("Important:" + "\n" +
              ("  This digest only " + "proves the measured " + "sequence." + "\n" +
               ("  It becomes a " + "security boundary " + "only if protected " + "or signed." + "\n")))))
  {
    var cs := [Component(path, Some(content))];
    var digest := H(content);
    assert cs[..0] == [] && Contents(cs) == [content];
    ChainOfOne(H, content);
    assert ZeroDigest() == seq(32, _ => 0);
    assert Digits(1) == "1";
    assert Blocks(H, []) == Header();
    assert Blocks(H, cs) == Header() + BlockText(1, path, digest, H(ZeroDigest() + digest));
  }

  // ------------------------------------------------------------------ the program

  /** What one more component that can be read adds to the chain and to the text. */
  lemma BlocksExtend(H: Hash, components: seq<Component>, i: nat)
    requires i < |components| && AllRead(components[..i]) && components[i].content.Some?
    ensures AllRead(components[..i + 1])
    ensures var chain, next := Chain(H, Contents(components[..i])), Chain(H, Contents(components[..i + 1]));
            var digest := H(components[i].content.value);
            && next == H(chain + digest)
            && Blocks(H, components[..i + 1]) ==
               Blocks(H, components[..i]) + BlockText(i + 1, components[i].path, digest, next)
  {
    var all := components[..i + 1];
    assert all[..i] == components[..i];
    assert Contents(all)[..i] == Contents(all[..i]);
  }

  /** One iteration of `main`: announce and measure a component and overwrite the chain with its extension. */
  method MeasureComponent(H: Hash, process: Process, chain: array<byte>, number: nat, c: Component)
    returns (ok: bool, text: string)
    requires chain.Length == SHA256_LEN
    modifies process, chain
    ensures ok <==> c.content.Some? && process.failures == old(process.failures)
    ensures process.failures >= old(process.failures)
    ensures ok ==> chain[..] == H(old(chain[..]) + H(c.content.value))
    ensures ok ==> text == BlockText(number, c.path, H(c.content.value), chain[..])
    ensures !ok ==> chain[..] == old(chain[..])
    ensures !ok ==> GivenUp(H, number, c, text)
    ensures process.files == old(process.files) && process.contexts == old(process.contexts)
  {
    text := "component[" + Digits(number) + "]: " + c.path + "\n";
    var measurement := Sha256File(H, process, c.content);
    if measurement.None? {
      return false, text;
    }
    var line := PrintHex("  measurement: ", measurement.value);
    text := text + line;
    var next := ExtendChain(H, process, chain[..], measurement.value);
    if next.None? {
      return false, text;
    }
    forall k | 0 <= k < SHA256_LEN {
      chain[k] := next.value[k];
    }
    assert chain[..] == next.value;
    line := PrintHex("  chain:       ", chain[..]);
    return true, text + (line + "\n");
  }

  /**
   * `main`: without arguments it prints nothing and fails; it succeeds exactly if every component can be
   * read and no call fails, and then prints the chain of all of them; else it stops at one component.
   */
  method MeasureComponents(H: Hash, process: Process, components: seq<Component>)
    returns (status: nat, out: string)
    modifies process
    ensures Prints(H, components, status, out)
    ensures status == 0 <==> components != [] && AllRead(components) && process.failures == old(process.failures)
    ensures process.files == old(process.files) && process.contexts == old(process.contexts)
  {
    out := "";
    if components == [] {
      return 1, out;
    }
    var chain := new byte[SHA256_LEN](_ => 0);
    assert chain[..] == ZeroDigest();
    var line := PrintHex("initial chain: ", chain[..]);
    out := line + "\n";
    var i := 0;
    while i < |components|
      invariant i <= |components| && AllRead(components[..i])
      invariant chain[..] == Chain(H, Contents(components[..i]))
      invariant out == Blocks(H, components[..i])
      invariant process.failures == old(process.failures)
      invariant process.files == old(process.files) && process.contexts == old(process.contexts)
    {
      var ok, text := MeasureComponent(H, process, chain, i + 1, components[i]);
      if !ok {
        assert (out + text)[|out|..] == text;
        assert StoppedAt(H, components, i, out + text);
        return 1, out + text;
      }
      BlocksExtend(H, components, i);
      out := out + text;
      i := i + 1;
    }
    assert components[..i] == components;
    line := PrintHex(FINAL_HEADING, chain[..]);
    return 0, out + (line + Closing());
  }

  // ------------------------------------------------------------------ reading the text

  /** A reader of the text: the line it is in, and the finished lines that reported a digest. */
  datatype Reader = Reader(line: string, reports: seq<string>)

  function ReportOf(line: string): seq<string> {
    if FINAL_HEADING <= line then [line] else []
  }

  function Next(r: Reader, c: char): Reader {
    if c == '\n' then Reader("", r.reports + ReportOf(r.line)) else Reader(r.line + [c], r.reports)
  }

  function Read(r: Reader, text: string): Reader {
    if text == "" then r else Next(Read(r, text[..|text| - 1]), text[|text| - 1])
  }

  /** The lines of a text that report a final digest. */
  function Reports(text: string): seq<string> {
    Read(Reader("", []), text).reports
  }

  predicate ForgedAt(path: string, j: nat) {
    j < |path| && path[j] == '\n' && FINAL_HEADING <= path[j + 1..]
  }

  /** A path with a line in it, not the first, that reports a digest. */
  predicate Forged(path: string) {
    exists j | 0 <= j < |path| :: ForgedAt(path, j)
  }

  lemma {:induction false} ReadOn(r: Reader, a: string, b: string)
    ensures Read(r, a + b) == Read(Read(r, a), b)
    decreases |b|
  {
    if b == "" {
      assert a + b == a;
    } else {
      var last := |b| - 1;
      assert (a + b)[..|a| + last] == a + b[..last] && (a + b)[|a| + last] == b[last];
      ReadOn(r, a, b[..last]);
    }
  }

  lemma {:induction false} ReadPlain(r: Reader, text: string)
    requires '\n' !in text
    ensures Read(r, text) == Reader(r.line + text, r.reports)
    decreases |text|
  {
    if text == "" {
      assert r.line + text == r.line;
    } else {
      var last := |text| - 1;
      ReadPlain(r, text[..last]);
      assert r.line + text == r.line + text[..last] + [text[last]];
    }
  }

  lemma ReadNewline(r: Reader)
    ensures Read(r, "\n") == Next(r, '\n')
  {
    assert "\n"[..0] == "";
  }

  /** What has been reported before does not matter for what is read next. */
  lemma {:induction false} ReportsAppend(line: string, reports: seq<string>, text: string)
    ensures var r := Read(Reader(line, []), text);
            Read(Reader(line, reports), text) == Reader(r.line, reports + r.reports)
    decreases |text|
  {
    if text == "" {
      assert reports + [] == reports;
    } else {
      var last := |text| - 1;
      ReportsAppend(line, reports, text[..last]);
      var r := Read(Reader(line, []), text[..last]);
      assert reports + r.reports + ReportOf(r.line) == reports + (r.reports + ReportOf(r.line));
    }
  }

  // ------------------------------------------------------------------ what the program's lines report

  /** At the beginning of a line, so many reports having been read. */
  function After(reports: seq<string>): Reader {
    Reader("", reports)
  }

  lemma ReadLine(reports: seq<string>, line: string)
    requires '\n' !in line
    ensures Read(After(reports), line + "\n") == After(reports + ReportOf(line))
  {
    ReadOn(After(reports), line, "\n");
    ReadPlain(After(reports), line);
    ReadNewline(Reader(line, reports));
    assert "" + line == line;
  }

  /** Only the heading of a report starts with an 'f'. */
  lemma ReadOtherLine(reports: seq<string>, line: string)
    requires '\n' !in line && (line == "" || line[0] != 'f')
    ensures Read(After(reports), line + "\n") == After(reports)
  {
    ReadLine(reports, line);
    assert FINAL_HEADING[0] == 'f';
    assert reports + [] == reports;
  }

  lemma {:induction false} HexHasNoNewline(bytes: seq<byte>)
    ensures '\n' !in Hex(bytes)
    decreases |bytes|
  {
    if bytes != [] {
      HexHasNoNewline(bytes[..|bytes| - 1]);
    }
  }

  lemma ReadHexLine(reports: seq<string>, heading: string, bytes: seq<byte>)
    requires heading != "" && heading[0] != 'f' && '\n' !in heading
    ensures Read(After(reports), Line(heading, bytes)) == After(reports)
    ensures Read(After(reports), Line(heading, bytes) + "\n") == After(reports)
  {
    HexHasNoNewline(bytes);
    ReadOtherLine(reports, heading + Hex(bytes));
    ReadOn(After(reports), Line(heading, bytes), "\n");
    ReadNewline(After(reports));
    assert reports + [] == reports;
  }

  /** A line that reports nothing before text that reports nothing. */
  lemma ReadTwo(reports: seq<string>, line: string, rest: string)
    requires '\n' !in line && (line == "" || line[0] != 'f')
    requires Read(After(reports), rest) == After(reports)
    ensures Read(After(reports), line + "\n" + rest) == After(reports)
  {
    ReadOtherLine(reports, line);
    ReadOn(After(reports), line + "\n", rest);
  }

  lemma ReadBecomes(reports: seq<string>)
    ensures Read(After(reports), BECOMES + "\n") == After(reports)
  {
    ReadOtherLine(reports, BECOMES);
  }

  lemma ReadSentences(reports: seq<string>)
    ensures Read(After(reports), Sentences()) == After(reports)
  {
    ReadBecomes(reports);
    ReadTwo(reports, ONLY_PROVES, BECOMES + "\n");
  }

  lemma ReadClosing(reports: seq<string>)
    ensures Read(After(reports), Closing()) == After(reports)
  {
    ReadSentences(reports);
    ReadTwo(reports, IMPORTANT, Sentences());
    ReadTwo(reports, "", IMPORTANT + "\n" + Sentences());
    assert "" + "\n" == "\n";
  }

  // ------------------------------------------------------------------ what the paths report

  /** The reader is in the line of `path` after position m. */
  predicate InLineAfter(path: string, m: nat, line: string) {
    m < |path| && path[m] == '\n' && line == path[m + 1..] && '\n' !in line
  }

  /** Having read a path, the reader has met a report in it, finished or not, exactly if it is forged. */
  ghost predicate PathRead(start: string, path: string, r: Reader) {
    && (if '\n' !in path then r == Reader(start + path, []) else exists m: nat :: InLineAfter(path, m, r.line))
    && (r.reports != [] || FINAL_HEADING <= r.line <==> Forged(path))
  }

  /** The heading contains no newline. */
  lemma HeadingBefore(tail: string, c: char)
    ensures FINAL_HEADING <= tail + [c] <==> FINAL_HEADING <= tail || (c != '\n' && FINAL_HEADING == tail + [c])
  {
    assert FINAL_HEADING[|FINAL_HEADING| - 1] == ' ';
    assert (tail + [c])[|tail|] == c;
  }

  lemma ForgedAtAppend(path: string, c: char, j: nat)
    requires j < |path|
    ensures ForgedAt(path + [c], j) <==>
            ForgedAt(path, j) || (c != '\n' && path[j] == '\n' && FINAL_HEADING == path[j + 1..] + [c])
  {
    assert (path + [c])[j + 1..] == path[j + 1..] + [c];
    HeadingBefore(path[j + 1..], c);
  }

  lemma ForgedAppendNewline(path: string)
    ensures Forged(path + ['\n']) <==> Forged(path)
  {
    forall j: nat | j < |path| ensures ForgedAt(path + ['\n'], j) <==> ForgedAt(path, j) {
      ForgedAtAppend(path, '\n', j);
    }
    assert !ForgedAt(path + ['\n'], |path|);
  }

  lemma ForgedAppendOther(path: string, c: char, m: nat, line: string)
    requires c != '\n' && InLineAfter(path, m, line)
    ensures Forged(path + [c]) <==> Forged(path) || FINAL_HEADING <= line + [c]
  {
    var longer := path + [c];
    forall j: nat | j < |path|
      ensures ForgedAt(longer, j) <==> ForgedAt(path, j) || (j == m && FINAL_HEADING == line + [c])
    {
      ForgedAtAppend(path, c, j);
      assert j < m ==> path[j + 1..][m - j - 1] == '\n';
      assert j > m ==> line[j - m - 1] == path[j];
      HeadingHasNoNewline(path[j + 1..] + [c]);
    }
    ForgedAtAppend(path, c, m);
    HeadingBefore(line, c);
    assert FINAL_HEADING <= line ==> ForgedAt(path, m);
    assert !ForgedAt(longer, |path|);
  }

  lemma HeadingHasNoNewline(text: string)
    ensures text == FINAL_HEADING ==> '\n' !in text
  {
  }

  lemma {:induction false} ReadPath(start: string, path: string)
    requires start != "" && start[0] != 'f'
    ensures PathRead(start, path, Read(Reader(start, []), path))
    decreases |path|
  {
    if path == "" {
      StartIsNoHeading(start, path);
    } else {
      var last := |path| - 1;
      var before, c := path[..last], path[last];
      ReadPath(start, before);
      assert path == before + [c];
      PathReadStep(start, before, c, Read(Reader(start, []), before));
    }
  }

  lemma StartIsNoHeading(start: string, path: string)
    requires start != "" && start[0] != 'f'
    ensures !(FINAL_HEADING <= start + path)
  {
    assert FINAL_HEADING[0] == 'f' && (start + path)[0] == start[0];
  }

  lemma PathReadStep(start: string, path: string, c: char, r: Reader)
    requires start != "" && start[0] != 'f' && PathRead(start, path, r)
    ensures PathRead(start, path + [c], Next(r, c))
  {
    var longer := path + [c];
    if c == '\n' {
      ForgedAppendNewline(path);
      assert InLineAfter(longer, |path|, "");
    } else if '\n' !in path {
      StartIsNoHeading(start, longer);
      assert start + longer == start + path + [c];
    } else {
      var m: nat :| InLineAfter(path, m, r.line);
      assert longer[m + 1..] == path[m + 1..] + [c];
      assert InLineAfter(longer, m, r.line + [c]);
      ForgedAppendOther(path, c, m, r.line);
      HeadingBefore(r.line, c);
    }
  }

  lemma ReadAnnouncementFirst(number: nat, path: string)
    ensures Read(After([]), Announcement(number, path)) == After(Reports(Announcement(number, path)))
    ensures Reports(Announcement(number, path)) != [] <==> Forged(path)
  {
    var start := Start(number);
    ReadOn(After([]), start + path, "\n");
    ReadOn(After([]), start, path);
    ReadPlain(After([]), start);
    assert "" + start == start;
    ReadPath(start, path);
    ReadNewline(Read(Reader(start, []), path));
  }

  /** The line for a component reports a digest exactly when its path is forged. */
  lemma AnnouncementReportsIff(number: nat, path: string)
    ensures Reports(Announcement(number, path)) != [] <==> Forged(path)
  {
    ReadAnnouncementFirst(number, path);
  }

  /** The reports that stand in the paths. */
  function PathReports(components: seq<Component>): seq<string>
    decreases |components|
  {
    if components == [] then []
    else
      var last := |components| - 1;
      PathReports(components[..last]) + Reports(Announcement(last + 1, components[last].path))
  }

  predicate SomeForged(components: seq<Component>) {
    exists i | 0 <= i < |components| :: Forged(components[i].path)
  }

  lemma SomeForgedSplits(components: seq<Component>, last: Component)
    ensures SomeForged(components + [last]) <==> SomeForged(components) || Forged(last.path)
  {
    var all := components + [last];
    if i :| 0 <= i < |all| && Forged(all[i].path) {
      assert i < |components| ==> Forged(components[i].path);
    }
    if i :| 0 <= i < |components| && Forged(components[i].path) {
      assert Forged(all[i].path);
    }
    assert all[|components|] == last;
  }

  lemma {:induction false} PathReportsIff(components: seq<Component>)
    ensures PathReports(components) != [] <==> SomeForged(components)
    decreases |components|
  {
    if components != [] {
      var last := |components| - 1;
      PathReportsIff(components[..last]);
      AnnouncementReportsIff(last + 1, components[last].path);
      assert components == components[..last] + [components[last]];
      SomeForgedSplits(components[..last], components[last]);
    }
  }

  // ------------------------------------------------------------------ what a run reports

  lemma ReadAnnouncement(reports: seq<string>, number: nat, path: string)
    ensures Read(After(reports), Announcement(number, path)) ==
            After(reports + Reports(Announcement(number, path)))
  {
    ReadAnnouncementFirst(number, path);
    ReportsAppend("", reports, Announcement(number, path));
  }

  lemma ReadGivenUp(H: Hash, reports: seq<string>, number: nat, c: Component, text: string)
    requires GivenUp(H, number, c, text)
    ensures Read(After(reports), text) == After(reports + Reports(Announcement(number, c.path)))
  {
    var after := reports + Reports(Announcement(number, c.path));
    ReadAnnouncement(reports, number, c.path);
    if c.content.Some? {
      ReadHexLine(after, "  measurement: ", H(c.content.value));
      ReadOn(After(reports), Announcement(number, c.path), Measured(H(c.content.value)));
    }
  }

  lemma ReadBlock(reports: seq<string>, number: nat, path: string, digest: Digest, chain: seq<byte>)
    ensures Read(After(reports), BlockText(number, path, digest, chain)) ==
            After(reports + Reports(Announcement(number, path)))
  {
    var after := reports + Reports(Announcement(number, path));
    ReadAnnouncement(reports, number, path);
    ReadHexLine(after, "  measurement: ", digest);
    ReadOn(After(reports), Announcement(number, path), Measured(digest));
    ReadHexLine(after, "  chain:       ", chain);
    ReadOn(After(reports), Announcement(number, path) + Measured(digest), Line("  chain:       ", chain) + "\n");
  }

  lemma {:induction false} ReadBlocks(H: Hash, components: seq<Component>)
    requires AllRead(components)
    ensures Read(After([]), Blocks(H, components)) == After(PathReports(components))
    decreases |components|
  {
    if components == [] {
      ReadHexLine([], "initial chain: ", ZeroDigest());
    } else {
      var last := |components| - 1;
      var before, c := components[..last], components[last];
      var digest, chain := H(c.content.value), Chain(H, Contents(components));
      ReadBlocks(H, before);
      ReadBlock(PathReports(before), last + 1, c.path, digest, chain);
      ReadOn(After([]), Blocks(H, before), BlockText(last + 1, c.path, digest, chain));
    }
  }

  lemma ReadDigestLine(H: Hash, components: seq<Component>, reports: seq<string>)
    requires AllRead(components)
    ensures Read(After(reports), DigestLine(H, components) + "\n") ==
            After(reports + [DigestLine(H, components)])
  {
    HexHasNoNewline(Chain(H, Contents(components)));
    ReadLine(reports, DigestLine(H, components));
  }

  lemma FullTextReports(H: Hash, components: seq<Component>)
    requires AllRead(components)
    ensures Reports(FullText(H, components)) == PathReports(components) + [DigestLine(H, components)]
  {
    var paths, line := PathReports(components), DigestLine(H, components);
    ReadBlocks(H, components);
    ReadDigestLine(H, components, paths);
    ReadClosing(paths + [line]);
    ReadOn(After(paths), line + "\n", Closing());
    ReadOn(After([]), Blocks(H, components), line + "\n" + Closing());
  }

  lemma StoppedReports(H: Hash, components: seq<Component>, k: nat, out: string)
    requires StoppedAt(H, components, k, out)
    ensures Reports(out) == PathReports(components[..k + 1])
  {
    var before := Blocks(H, components[..k]);
    assert out == before + out[|before|..];
    assert components[..k + 1][..k] == components[..k];
    ReadBlocks(H, components[..k]);
    ReadGivenUp(H, PathReports(components[..k]), k + 1, components[k], out[|before|..]);
    ReadOn(After([]), before, out[|before|..]);
  }

  /** A path that is forged: a newline and the heading in the name of a file. */
  lemma ForgedPathExists()
    ensures Forged("x\nfinal chain digest: ")
  {
    var path := "x\nfinal chain digest: ";
    assert path[2..] == FINAL_HEADING;
    assert ForgedAt(path, 1);
  }

  // ------------------------------------------------------------------ the theorems

  /** A run that fails at component `k` reports a digest if and only if a path up to `k` contains one. */
  lemma FailureReportsIffForged(H: Hash, components: seq<Component>, k: nat, out: string)
    requires StoppedAt(H, components, k, out)
    ensures Reports(out) != [] <==> exists i | 0 <= i <= k :: Forged(components[i].path)
  {
    StoppedReports(H, components, k, out);
    PathReportsIff(components[..k + 1]);
    forall i | 0 <= i <= k ensures components[..k + 1][i] == components[i] {
    }
  }

  /** If no path contains a report, the text reports a digest if and only if the run succeeded, and the right one. */
  lemma ReportMeansSuccess(H: Hash, components: seq<Component>, status: nat, out: string)
    requires Prints(H, components, status, out) && !SomeForged(components)
    ensures Reports(out) == if status == 0 then [DigestLine(H, components)] else []
  {
    if components != [] {
      if status == 0 {
        FullTextReports(H, components);
        PathReportsIff(components);
        assert [] + [DigestLine(H, components)] == [DigestLine(H, components)];
      } else {
        var k: nat :| StoppedAt(H, components, k, out);
        FailureReportsIffForged(H, components, k, out);
      }
    }
  }

  /**
   * Whatever the paths contain, the last report of a successful run is its own: two such runs with the
   * same last report have measured the same sequence, or show a break of the hash.
   */
  lemma EqualReportsExplained(H: Hash, a: seq<Component>, b: seq<Component>)
    requires AllRead(a) && AllRead(b)
    ensures var r, s := Reports(FullText(H, a)), Reports(FullText(H, b));
            && r != [] && s != []
            && var x, y := Contents(a), Contents(b);
               r[|r| - 1] == s[|s| - 1] ==> Substantiated(H, x, y, Explain(H, x, y))
  {
    FullTextReports(H, a);
    FullTextReports(H, b);
    if DigestLine(H, a) == DigestLine(H, b) {
      var n := |FINAL_HEADING|;
      assert Hex(Chain(H, Contents(a))) == DigestLine(H, a)[n..] == Hex(Chain(H, Contents(b)));
      HexInjective(Chain(H, Contents(a)), Chain(H, Contents(b)));
      EqualDigestsExplained(H, Contents(a), Contents(b));
    }
  }
}
