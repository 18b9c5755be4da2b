/**
 The report reader `parseMLCOutput` (parser.js): the tool version found anywhere in the
 text, and a single pass over the lines that cuts them into sections at marker lines
 and hands each closed section to its extractor.
 */
module Report {
  import opened Options
  import opened Passes
  import opened Text
  import opened Numbers
  import opened MatrixSection
  import PeakBandwidths
  import LoadedLatencies
  import CacheToCache

  /** The five kinds of section a marker line opens. */
  datatype Section = Idle | Peak | InterNode | Loaded | Cache

  /** The object the reader returns; `None` is the source's `null`. */
  datatype MlcReport = MlcReport(
    idleLatencies: Option<NodeMatrix>,
    peakBandwidths: Option<seq<PeakBandwidths.Bandwidth>>,
    interNodeBandwidths: Option<NodeMatrix>,
    loadedLatencies: Option<seq<LoadedLatencies.Sample>>,
    cacheToCache: Option<CacheToCache.CacheResult>,
    numaNodeCount: nat,
    toolVersion: string)

  /** Every section missing, no nodes counted. */
  function Fresh(version: string): MlcReport {
    MlcReport(None, None, None, None, None, 0, version)
  }

  // ---------------------------------------------------------------------------
  // The tool version

  const VersionLead: string := "Intel(R) Memory Latency Checker - v"

  predicate IsAsciiLetter(c: char) {
    ('a' <= c <= 'z') || ('A' <= c <= 'Z')
  }

  /** The version token of a banner starting at `p`: `v`, digits, a dot, digits and an
      optional ASCII letter, every digit run taken whole. */
  function VersionAt(s: string, p: nat): (r: Option<string>)
    requires p <= |s|
    ensures r.Some? ==> StartsWith(s[p..], VersionLead) && p + 34 + |r.value| <= |s|
    ensures r.Some? ==> r.value == s[p + 34..p + 34 + |r.value|] && |r.value| >= 4 && r.value[0] == 'v'
  {
    if !StartsWith(s[p..], VersionLead) then None
    else
      var a := p + 35;
      var e := DigitEnd(s, a);
      if e == a || e == |s| || s[e] != '.' then None
      else
        var f := DigitEnd(s, e + 1);
        if f == e + 1 then None
        else
          var g := if f < |s| && IsAsciiLetter(s[f]) then f + 1 else f;
          assert s[p + 34] == s[p..][..35][34];
          Some(s[p + 34..g])
  }

  /** The leftmost position at or after `p` where a banner with a version starts, or `|s|`. */
  function VersionIndex(s: string, p: nat): (r: nat)
    requires p <= |s|
    ensures p <= r <= |s|
    ensures r < |s| ==> VersionAt(s, r).Some?
    ensures forall q :: p <= q < r ==> VersionAt(s, q).None?
    decreases |s| - p
  {
    if p == |s| || VersionAt(s, p).Some? then p else VersionIndex(s, p + 1)
  }

  /** `text.match(toolVersionRegex)[1]`, or `""` without a match. */
  function ToolVersion(s: string): string {
    var k := VersionIndex(s, 0);
    if k < |s| then VersionAt(s, k).value else ""
  }

  // ---------------------------------------------------------------------------
  // Cutting the lines into sections

  const Banner: string := "Intel(R) Memory Latency Checker"

  /** The text a marker line of each section starts with. */
  function MarkerText(sec: Section): string {
    match sec
    case Idle => "Measuring idle latencies"
    case Peak => "Measuring Peak Injection Memory Bandwidths"
    case InterNode => "Measuring Memory Bandwidths between nodes"
    case Loaded => "Measuring Loaded Latencies"
    case Cache => "Measuring cache-to-cache transfer latency"
  }

  /** The section a (trimmed) marker line opens, tried in the source's order. */
  function MarkerOf(t: string): Option<Section> {
    if StartsWith(t, MarkerText(Idle)) then Some(Idle)
    else if StartsWith(t, MarkerText(Peak)) then Some(Peak)
    else if StartsWith(t, MarkerText(InterNode)) then Some(InterNode)
    else if StartsWith(t, MarkerText(Loaded)) then Some(Loaded)
    else if StartsWith(t, MarkerText(Cache)) then Some(Cache)
    else None
  }

  predicate Measuring(t: string) {
    StartsWith(t, "Measuring")
  }

  /** Whether the open section `sec` ends with line `i`; `ts` are the trimmed lines. */
  predicate SectionEnd(ts: seq<string>, i: nat, sec: Section)
    requires i < |ts|
  {
    i + 1 == |ts|
    || Measuring(ts[i + 1])
    || (sec == Cache && ts[i + 1] == "" && (i + 2 == |ts| || (i + 2 < |ts| && ts[i + 2] == "")))
    || (sec != Peak && ts[i] != "" && ts[i + 1] == ""
        && (i + 2 == |ts| || (i + 2 < |ts| && (ts[i + 2] == "" || Measuring(ts[i + 2])))))
  }

  /** A closed section: its kind and its trimmed lines, marker line first. */
  datatype Segment = Segment(section: Section, lines: seq<string>)

  /** The open section, if any, and the lines gathered for it. */
  datatype Cursor = Cursor(current: Option<Section>, buffer: seq<string>)

  /** The cursor after one line, and the section that line closed, if any. */
  type Moved = Move<Cursor, Segment>

  /** One line of the pass over the trimmed lines `ts`: a banner line is passed over, a
      marker line opens its section afresh, and a line of an open section is gathered
      and may close it. */
  function Advance(ts: seq<string>, i: nat, c: Cursor): Moved
    requires i < |ts|
  {
    var t := ts[i];
    if StartsWith(t, Banner) then Move(c, None)
    else
      var m := MarkerOf(t);
      var cur := if m.Some? then m else c.current;
      var buf := if m.Some? then [] else c.buffer;
      if cur.None? then Move(Cursor(None, buf), None)
      else if SectionEnd(ts, i, cur.value) then Move(Cursor(None, []), Some(Segment(cur.value, buf + [t])))
      else Move(Cursor(cur, buf + [t]), None)
  }

  /** Every line trimmed: `lines[i].trim()`, which the source computes wherever it looks
      at a line. */
  function TrimAll(lines: seq<string>): (ts: seq<string>)
    ensures |ts| == |lines| && forall k :: 0 <= k < |lines| ==> ts[k] == Trim(lines[k])
  {
    seq(|lines|, k requires 0 <= k < |lines| => Trim(lines[k]))
  }

  const Closed0: Cursor := Cursor(None, [])

  /** The node count after an idle or inter-node matrix: it grows to the matrix's. */
  function CountAfter(count: nat, m: NodeMatrix): (r: nat)
    ensures r >= count && r >= |m.nodes|
    ensures r == count || r == |m.nodes|
  {
    if |m.nodes| > count then |m.nodes| else count
  }

  /** A closed section handed to its extractor. */
  function Extract(r: MlcReport, seg: Segment): MlcReport {
    match seg.section
    case Idle =>
      var m := ParseMatrixSection(seg.lines);
      r.(idleLatencies := Some(m), numaNodeCount := CountAfter(r.numaNodeCount, m))
    case Peak => r.(peakBandwidths := Some(PeakBandwidths.ParsePeakBandwidths(seg.lines)))
    case InterNode =>
      var m := ParseMatrixSection(seg.lines);
      r.(interNodeBandwidths := Some(m), numaNodeCount := CountAfter(r.numaNodeCount, m))
    case Loaded => r.(loadedLatencies := Some(LoadedLatencies.ParseLoadedLatencies(seg.lines)))
    case Cache => r.(cacheToCache := Some(CacheToCache.ParseCacheToCache(seg.lines, r.numaNodeCount)))
  }

  function CloseWith(r: MlcReport, o: Option<Segment>): MlcReport {
    match o
    case None => r
    case Some(seg) => Extract(r, seg)
  }

  /** The step of the pass at line `j`; past the end it moves nothing. */
  function AdvanceOn(ts: seq<string>): (nat, Cursor) -> Moved {
    (j: nat, c: Cursor) => if j < |ts| then Advance(ts, j, c) else Move(c, None)
  }

  /** The loop from line `i`. */
  function Scan(lines: seq<string>, i: nat, r: MlcReport, c: Cursor): MlcReport
    requires i <= |lines|
  {
    Pass(|lines|, i, r, c, AdvanceOn(lines), CloseWith)
  }

  /** `parseMLCOutput(text)`. */
  function ParseMlcOutput(text: string): MlcReport {
    Scan(TrimAll(Split(text, '\n')), 0, Fresh(ToolVersion(text)), Closed0)
  }

  // ---------------------------------------------------------------------------
  // Reference description: the sections, then the extractors

  /** The sections closed from line `i` on, after those in `acc`. */
  function SegmentsFrom(lines: seq<string>, i: nat, c: Cursor, acc: seq<Segment>): seq<Segment>
    requires i <= |lines|
  {
    Closes(|lines|, i, c, acc, AdvanceOn(lines))
  }

  /** The sections the pass closes, in order. */
  function Segments(lines: seq<string>): seq<Segment> {
    SegmentsFrom(lines, 0, Closed0, [])
  }

  /** The extractors applied to the sections in order. */
  function Apply(r: MlcReport, segs: seq<Segment>): MlcReport
    decreases |segs|
  {
    if segs == [] then r else Extract(Apply(r, segs[..|segs| - 1]), segs[|segs| - 1])
  }

  lemma ApplySnoc(r: MlcReport, segs: seq<Segment>, o: Option<Segment>)
    ensures CloseWith(Apply(r, segs), o) == Apply(r, segs + AsSeq(o))
  {
    if o.Some? {
      assert (segs + [o.value])[..|segs|] == segs;
    } else {
      assert segs + [] == segs;
    }
  }

  /** The loop is the extractors applied, in order, to the sections it closes. */
  lemma ScanApplies(lines: seq<string>, i: nat, r: MlcReport, c: Cursor, acc: seq<Segment>)
    requires i <= |lines|
    ensures Scan(lines, i, Apply(r, acc), c) == Apply(r, SegmentsFrom(lines, i, c, acc))
  {
    forall s: seq<Segment>, o: Option<Segment>
      ensures CloseWith(Apply(r, s), o) == Apply(r, s + AsSeq(o))
    {
      ApplySnoc(r, s, o);
    }
    PassFolds(|lines|, i, c, acc, AdvanceOn(lines), CloseWith, s => Apply(r, s));
  }

  lemma ScanOn(lines: seq<string>, i: nat, r: MlcReport, c: Cursor)
    requires i < |lines|
    ensures Scan(lines, i, r, c) == Scan(lines, i + 1, CloseWith(r, Advance(lines, i, c).closed), Advance(lines, i, c).cursor)
  {
  }

  lemma SegmentsOn(lines: seq<string>, i: nat, c: Cursor, acc: seq<Segment>)
    requires i < |lines|
    ensures SegmentsFrom(lines, i, c, acc)
         == SegmentsFrom(lines, i + 1, Advance(lines, i, c).cursor, acc + AsSeq(Advance(lines, i, c).closed))
  {
  }

  /** The reader is the extractors applied, in order, to the sections the pass cuts. */
  lemma ParseIsFold(text: string)
    ensures ParseMlcOutput(text) == Apply(Fresh(ToolVersion(text)), Segments(TrimAll(Split(text, '\n'))))
  {
    ScanApplies(TrimAll(Split(text, '\n')), 0, Fresh(ToolVersion(text)), Closed0, []);
  }

  // ---------------------------------------------------------------------------
  // Where sections end

  /** Every section ends at the last line and before a line starting "Measuring". */
  lemma EndsBeforeMeasuring(ts: seq<string>, i: nat, sec: Section)
    requires i < |ts| && (i + 1 == |ts| || Measuring(ts[i + 1]))
    ensures SectionEnd(ts, i, sec)
  {
  }

  /** A peak-bandwidth section ends there and nowhere else: blank lines never end it. */
  lemma PeakEnd(ts: seq<string>, i: nat)
    requires i < |ts|
    ensures SectionEnd(ts, i, Peak) <==> i + 1 == |ts| || Measuring(ts[i + 1])
  {
  }

  /** The matrix and loaded-latency sections also end at a non-blank line followed by a
      blank line and then a blank line, the end, or a "Measuring" line. */
  lemma BlankEnd(ts: seq<string>, i: nat, sec: Section)
    requires i < |ts| && (sec == Idle || sec == InterNode || sec == Loaded)
    ensures SectionEnd(ts, i, sec) <==>
      i + 1 == |ts| || Measuring(ts[i + 1])
      || (ts[i] != "" && ts[i + 1] == "" && (i + 2 == |ts| || ts[i + 2] == "" || Measuring(ts[i + 2])))
  {
  }

  /** The cache-to-cache section also ends at any line followed by a blank line and then
      a blank line or the end. */
  lemma CacheEnd(ts: seq<string>, i: nat)
    requires i < |ts|
    ensures SectionEnd(ts, i, Cache) <==>
      i + 1 == |ts| || Measuring(ts[i + 1])
      || (ts[i + 1] == "" && (i + 2 == |ts| || ts[i + 2] == ""))
      || (ts[i] != "" && ts[i + 1] == "" && i + 2 < |ts| && Measuring(ts[i + 2]))
  {
  }

  // ---------------------------------------------------------------------------
  // What a section holds

  /** A section's lines: its marker line first, then lines that are neither markers nor
      banner lines. */
  predicate SegmentShape(seg: Segment) {
    |seg.lines| > 0 && MarkerOf(seg.lines[0]) == Some(seg.section) && !StartsWith(seg.lines[0], Banner)
    && forall k :: 1 <= k < |seg.lines| ==> Inner(seg.lines[k])
  }

  /** A line that opens no section and is not a banner line. */
  predicate Inner(t: string) {
    !StartsWith(t, Banner) && MarkerOf(t).None?
  }

  /** Nothing is gathered outside a section; inside one, the lines so far are shaped. */
  predicate CursorShape(c: Cursor) {
    match c.current
    case None => c.buffer == []
    case Some(sec) => SegmentShape(Segment(sec, c.buffer))
  }

  lemma ShapeGrows(sec: Section, b: seq<string>, t: string)
    requires SegmentShape(Segment(sec, b)) && Inner(t)
    ensures SegmentShape(Segment(sec, b + [t]))
  {
    assert forall k :: 0 <= k < |b| ==> (b + [t])[k] == b[k];
    assert (b + [t])[|b|] == t;
  }

  lemma AdvanceShape(ts: seq<string>, i: nat, c: Cursor)
    requires i < |ts| && CursorShape(c)
    ensures CursorShape(Advance(ts, i, c).cursor)
    ensures Advance(ts, i, c).closed.Some? ==> SegmentShape(Advance(ts, i, c).closed.value)
  {
    var t := ts[i];
    if !StartsWith(t, Banner) && MarkerOf(t).None? && c.current.Some? {
      ShapeGrows(c.current.value, c.buffer, t);
    }
  }

  lemma {:induction false} SegmentsFromShaped(ts: seq<string>, i: nat, c: Cursor, acc: seq<Segment>)
    requires i <= |ts| && CursorShape(c)
    requires forall k :: 0 <= k < |acc| ==> SegmentShape(acc[k])
    ensures forall k :: 0 <= k < |SegmentsFrom(ts, i, c, acc)| ==> SegmentShape(SegmentsFrom(ts, i, c, acc)[k])
    decreases |ts| - i
  {
    if i < |ts| {
      var mv := Advance(ts, i, c);
      AdvanceShape(ts, i, c);
      SegmentsOn(ts, i, c, acc);
      SegmentsFromShaped(ts, i + 1, mv.cursor, acc + AsSeq(mv.closed));
    }
  }

  /** Every section handed to an extractor starts with its own marker line and holds no
      other marker line and no banner line. */
  lemma SegmentsShaped(ts: seq<string>)
    ensures forall k :: 0 <= k < |Segments(ts)| ==> SegmentShape(Segments(ts)[k])
  {
    SegmentsFromShaped(ts, 0, Closed0, []);
  }

  lemma AdvanceIdle(ts: seq<string>, i: nat)
    requires i < |ts| && MarkerOf(ts[i]).None?
    ensures Advance(ts, i, Closed0) == Move(Closed0, None)
  {
  }

  /** Without a marker line no section opens. */
  lemma {:induction false} NoMarkerNoSegments(ts: seq<string>, i: nat, acc: seq<Segment>)
    requires i <= |ts| && forall k :: i <= k < |ts| ==> MarkerOf(ts[k]).None?
    ensures SegmentsFrom(ts, i, Closed0, acc) == acc
    decreases |ts| - i
  {
    hide MarkerOf, Advance;
    if i < |ts| {
      AdvanceIdle(ts, i);
      SegmentsOn(ts, i, Closed0, acc);
      assert acc + [] == acc;
      NoMarkerNoSegments(ts, i + 1, acc);
    }
  }

  /** A report without marker lines has every section `null` and no nodes. */
  lemma NoMarkersNoSections(text: string)
    requires forall k :: 0 <= k < |Split(text, '\n')| ==> MarkerOf(Trim(Split(text, '\n')[k])).None?
    ensures ParseMlcOutput(text) == Fresh(ToolVersion(text))
  {
    ParseIsFold(text);
    NoMarkerNoSegments(TrimAll(Split(text, '\n')), 0, []);
  }

  /** A banner line is passed over even inside a section, so a section whose last line
      is followed only by a banner line is never handed to its extractor. */
  lemma BannerLastDropsSection(ts: seq<string>, c: Cursor, acc: seq<Segment>)
    requires |ts| > 0 && StartsWith(ts[|ts| - 1], Banner)
    ensures SegmentsFrom(ts, |ts| - 1, c, acc) == acc
  {
    SegmentsOn(ts, |ts| - 1, c, acc);
    assert acc + [] == acc;
  }

  /** A line opens a section exactly when it starts with that section's marker text,
      whatever follows: the five marker texts differ at their eleventh character, so
      the order in which they are tried never matters. */
  lemma MarkerOfText(t: string, sec: Section)
    ensures MarkerOf(t) == Some(sec) <==> StartsWith(t, MarkerText(sec))
  {
    hide StartsWith, MarkerText;
    if StartsWith(t, MarkerText(sec)) {
      MarkerKey(sec);
      CharAt(t, MarkerText(sec));
      if sec != Idle { MarkerKey(Idle); NotMarker(t, MarkerText(Idle)); }
      if sec != Peak { MarkerKey(Peak); NotMarker(t, MarkerText(Peak)); }
      if sec != InterNode { MarkerKey(InterNode); NotMarker(t, MarkerText(InterNode)); }
      if sec != Loaded { MarkerKey(Loaded); NotMarker(t, MarkerText(Loaded)); }
    }
  }

  /** The eleventh character of each marker text, which tells the five apart. */
  lemma MarkerKey(sec: Section)
    ensures |MarkerText(sec)| > 10
    ensures MarkerText(sec)[10] == match sec
      case Idle => 'i' case Peak => 'P' case InterNode => 'M' case Loaded => 'L' case Cache => 'c'
  {
  }

  /** A line opens no section exactly when it starts with none of the marker texts. */
  lemma NoMarkerText(t: string)
    ensures MarkerOf(t).None? <==> forall sec: Section :: !StartsWith(t, MarkerText(sec))
  {
    if MarkerOf(t).Some? {
      MarkerOfText(t, MarkerOf(t).value);
    }
  }

  lemma CharAt(t: string, m: string)
    requires StartsWith(t, m) && |m| > 10
    ensures |t| > 10 && t[10] == m[10]
  {
    assert t[..|m|][10] == m[10];
  }

  lemma NotMarker(t: string, p: string)
    requires |p| > 10 && |t| > 10 && t[10] != p[10]
    ensures !StartsWith(t, p)
  {
  }

  // ---------------------------------------------------------------------------
  // The report's fields

  /** The last section of kind `sec`. */
  function LastOf(segs: seq<Segment>, sec: Section): (r: Option<nat>)
    ensures r.Some? ==> r.value < |segs| && segs[r.value].section == sec
    ensures r.Some? ==> forall k :: r.value < k < |segs| ==> segs[k].section != sec
    ensures r.None? ==> forall k :: 0 <= k < |segs| ==> segs[k].section != sec
    decreases |segs|
  {
    if segs == [] then None
    else if segs[|segs| - 1].section == sec then Some(|segs| - 1)
    else LastOf(segs[..|segs| - 1], sec)
  }

  lemma ExtractVersion(r: MlcReport, seg: Segment)
    ensures Extract(r, seg).toolVersion == r.toolVersion
  {
  }

  lemma {:induction false} ApplyVersion(r: MlcReport, segs: seq<Segment>)
    ensures Apply(r, segs).toolVersion == r.toolVersion
    decreases |segs|
  {
    if segs != [] {
      ApplyVersion(r, segs[..|segs| - 1]);
      assert Apply(r, segs) == Extract(Apply(r, segs[..|segs| - 1]), segs[|segs| - 1]);
      ExtractVersion(Apply(r, segs[..|segs| - 1]), segs[|segs| - 1]);
    }
  }

  /** The node count an idle or inter-node section contributes. */
  function MatrixNodes(seg: Segment): nat {
    if seg.section == Idle || seg.section == InterNode then |ParseMatrixSection(seg.lines).nodes| else 0
  }

  lemma ExtractCount(r: MlcReport, seg: Segment)
    ensures Extract(r, seg).numaNodeCount >= r.numaNodeCount && Extract(r, seg).numaNodeCount >= MatrixNodes(seg)
    ensures Extract(r, seg).numaNodeCount == r.numaNodeCount || Extract(r, seg).numaNodeCount == MatrixNodes(seg)
  {
  }

  /** The node count never falls and covers every matrix section's count. */
  lemma {:induction false} ApplyCountCovers(r: MlcReport, segs: seq<Segment>)
    ensures Apply(r, segs).numaNodeCount >= r.numaNodeCount
    ensures forall k :: 0 <= k < |segs| ==> Apply(r, segs).numaNodeCount >= MatrixNodes(segs[k])
    decreases |segs|
  {
    if segs != [] {
      var init := segs[..|segs| - 1];
      var last := segs[|segs| - 1];
      ApplyCountCovers(r, init);
      assert Apply(r, segs) == Extract(Apply(r, init), last);
      ExtractCount(Apply(r, init), last);
      InitAgrees(segs);
    }
  }

  lemma InitAgrees(segs: seq<Segment>)
    requires segs != []
    ensures forall k :: 0 <= k < |segs| - 1 ==> segs[k] == segs[..|segs| - 1][k]
  {
  }

  /** The node count is the starting count or some matrix section's: with
      `ApplyCountCovers`, it is their maximum. */
  lemma {:induction false} ApplyCountAttained(r: MlcReport, segs: seq<Segment>)
    ensures Apply(r, segs).numaNodeCount == r.numaNodeCount
      || exists k :: 0 <= k < |segs| && Apply(r, segs).numaNodeCount == MatrixNodes(segs[k])
    decreases |segs|
  {
    if segs != [] {
      var init := segs[..|segs| - 1];
      var last := segs[|segs| - 1];
      ApplyCountAttained(r, init);
      assert Apply(r, segs) == Extract(Apply(r, init), last);
      ExtractCount(Apply(r, init), last);
      if Apply(r, segs).numaNodeCount != r.numaNodeCount {
        if Apply(r, segs).numaNodeCount == MatrixNodes(last) {
          assert segs[|segs| - 1] == last;
        } else {
          var k :| 0 <= k < |init| && Apply(r, init).numaNodeCount == MatrixNodes(init[k]);
          assert segs[k] == init[k];
        }
      }
    }
  }

  lemma ExtractIdle(r: MlcReport, seg: Segment)
    ensures Extract(r, seg).idleLatencies
      == if seg.section == Idle then Some(ParseMatrixSection(seg.lines)) else r.idleLatencies
  {
  }

  lemma {:induction false} ApplyIdle(r: MlcReport, segs: seq<Segment>)
    ensures Apply(r, segs).idleLatencies == match LastOf(segs, Idle)
      case Some(k) => Some(ParseMatrixSection(segs[k].lines))
      case None => r.idleLatencies
    decreases |segs|
  {
    if segs != [] {
      var init := segs[..|segs| - 1];
      var last := segs[|segs| - 1];
      ApplyIdle(r, init);
      assert Apply(r, segs) == Extract(Apply(r, init), last);
      ExtractIdle(Apply(r, init), last);
      assert LastOf(segs, Idle) == if last.section == Idle then Some(|segs| - 1) else LastOf(init, Idle);
      if LastOf(init, Idle).Some? { assert segs[LastOf(init, Idle).value] == init[LastOf(init, Idle).value]; }
    }
  }

  lemma ExtractInterNode(r: MlcReport, seg: Segment)
    ensures Extract(r, seg).interNodeBandwidths
      == if seg.section == InterNode then Some(ParseMatrixSection(seg.lines)) else r.interNodeBandwidths
  {
  }

  lemma {:induction false} ApplyInterNode(r: MlcReport, segs: seq<Segment>)
    ensures Apply(r, segs).interNodeBandwidths == match LastOf(segs, InterNode)
      case Some(k) => Some(ParseMatrixSection(segs[k].lines))
      case None => r.interNodeBandwidths
    decreases |segs|
  {
    if segs != [] {
      var init := segs[..|segs| - 1];
      var last := segs[|segs| - 1];
      ApplyInterNode(r, init);
      assert Apply(r, segs) == Extract(Apply(r, init), last);
      ExtractInterNode(Apply(r, init), last);
      assert LastOf(segs, InterNode) == if last.section == InterNode then Some(|segs| - 1) else LastOf(init, InterNode);
      if LastOf(init, InterNode).Some? { assert segs[LastOf(init, InterNode).value] == init[LastOf(init, InterNode).value]; }
    }
  }

  lemma ExtractPeak(r: MlcReport, seg: Segment)
    ensures Extract(r, seg).peakBandwidths
      == if seg.section == Peak then Some(PeakBandwidths.ParsePeakBandwidths(seg.lines)) else r.peakBandwidths
  {
  }

  lemma {:induction false} ApplyPeak(r: MlcReport, segs: seq<Segment>)
    ensures Apply(r, segs).peakBandwidths == match LastOf(segs, Peak)
      case Some(k) => Some(PeakBandwidths.ParsePeakBandwidths(segs[k].lines))
      case None => r.peakBandwidths
    decreases |segs|
  {
    if segs != [] {
      var init := segs[..|segs| - 1];
      var last := segs[|segs| - 1];
      ApplyPeak(r, init);
      assert Apply(r, segs) == Extract(Apply(r, init), last);
      ExtractPeak(Apply(r, init), last);
      assert LastOf(segs, Peak) == if last.section == Peak then Some(|segs| - 1) else LastOf(init, Peak);
      if LastOf(init, Peak).Some? { assert segs[LastOf(init, Peak).value] == init[LastOf(init, Peak).value]; }
    }
  }

  lemma ExtractLoaded(r: MlcReport, seg: Segment)
    ensures Extract(r, seg).loadedLatencies
      == if seg.section == Loaded then Some(LoadedLatencies.ParseLoadedLatencies(seg.lines)) else r.loadedLatencies
  {
  }

  lemma {:induction false} ApplyLoaded(r: MlcReport, segs: seq<Segment>)
    ensures Apply(r, segs).loadedLatencies == match LastOf(segs, Loaded)
      case Some(k) => Some(LoadedLatencies.ParseLoadedLatencies(segs[k].lines))
      case None => r.loadedLatencies
    decreases |segs|
  {
    if segs != [] {
      var init := segs[..|segs| - 1];
      var last := segs[|segs| - 1];
      ApplyLoaded(r, init);
      assert Apply(r, segs) == Extract(Apply(r, init), last);
      ExtractLoaded(Apply(r, init), last);
      assert LastOf(segs, Loaded) == if last.section == Loaded then Some(|segs| - 1) else LastOf(init, Loaded);
      if LastOf(init, Loaded).Some? { assert segs[LastOf(init, Loaded).value] == init[LastOf(init, Loaded).value]; }
    }
  }

  lemma ExtractCache(r: MlcReport, seg: Segment)
    ensures Extract(r, seg).cacheToCache
      == if seg.section == Cache then Some(CacheToCache.ParseCacheToCache(seg.lines, r.numaNodeCount)) else r.cacheToCache
  {
  }

  /** The cache-to-cache section is read with the node count reached just before it. */
  lemma {:induction false} ApplyCache(r: MlcReport, segs: seq<Segment>)
    ensures Apply(r, segs).cacheToCache == match LastOf(segs, Cache)
      case Some(k) => Some(CacheToCache.ParseCacheToCache(segs[k].lines, Apply(r, segs[..k]).numaNodeCount))
      case None => r.cacheToCache
    decreases |segs|
  {
    if segs != [] {
      var init := segs[..|segs| - 1];
      var last := segs[|segs| - 1];
      ApplyCache(r, init);
      assert Apply(r, segs) == Extract(Apply(r, init), last);
      ExtractCache(Apply(r, init), last);
      assert LastOf(segs, Cache) == if last.section == Cache then Some(|segs| - 1) else LastOf(init, Cache);
      if LastOf(init, Cache).Some? {
        var k := LastOf(init, Cache).value;
        assert segs[k] == init[k] && segs[..k] == init[..k];
      }
    }
  }

  /** The version field is the version token, whatever the sections hold. */
  lemma ReportVersion(text: string)
    ensures ParseMlcOutput(text).toolVersion == ToolVersion(text)
  {
    ParseIsFold(text);
    ApplyVersion(Fresh(ToolVersion(text)), Segments(TrimAll(Split(text, '\n'))));
  }

  // ---------------------------------------------------------------------------
  // The version token

  /** Without the banner's leading text there is no version. */
  lemma NoLeadNoVersion(s: string)
    requires !Contains(s, VersionLead)
    ensures ToolVersion(s) == ""
  {
    var k := VersionIndex(s, 0);
    if k < |s| {
      ContainsAt(s, k, VersionLead);
    }
  }

  /** A banner at the front of the text gives back exactly its version token. */
  lemma VersionOfBanner(a: nat, b: nat, u: string, tail: string)
    requires |u| <= 1 && (u != [] ==> IsAsciiLetter(u[0]))
    requires u == [] ==> tail == [] || (!IsDigit(tail[0]) && !IsAsciiLetter(tail[0]))
    ensures ToolVersion(VersionLead + NatDigits(a) + "." + NatDigits(b) + u + tail)
      == "v" + NatDigits(a) + "." + NatDigits(b) + u
  {
    var x, y := NatDigits(a), NatDigits(b);
    var s := VersionLead + x + "." + y + u + tail;
    var e := 35 + |x|;
    var f := e + 1 + |y|;
    BannerLead(x, y, u, tail);
    FirstRun(x, y, u, tail);
    SecondRun(x, y, u, tail);
    var g := Suffix(x, y, u, tail);
    VersionAtIs(s, e, f, g);
    VersionSlice(x, y, u, tail);
  }

  lemma BannerLead(x: string, y: string, u: string, tail: string)
    ensures StartsWith((VersionLead + x + "." + y + u + tail)[0..], VersionLead)
  {
    var s := VersionLead + x + "." + y + u + tail;
    assert s[0..] == s;
    assert s[..35] == VersionLead;
  }

  lemma FirstRun(x: string, y: string, u: string, tail: string)
    requires AllDigits(x) && |x| > 0
    ensures DigitEnd(VersionLead + x + "." + y + u + tail, 35) == 35 + |x|
    ensures (VersionLead + x + "." + y + u + tail)[35 + |x|] == '.'
  {
    var rest := "." + y + u + tail;
    assert VersionLead + x + "." + y + u + tail == VersionLead + (x + rest);
    DigitEndConcat(x, rest, 0);
    DigitEndShifted(VersionLead, x + rest, 0);
  }

  lemma SecondRun(x: string, y: string, u: string, tail: string)
    requires AllDigits(y) && |y| > 0
    requires u + tail == [] || !IsDigit((u + tail)[0])
    ensures DigitEnd(VersionLead + x + "." + y + u + tail, 36 + |x|) == 36 + |x| + |y|
  {
    var p := VersionLead + x + ".";
    Associate(p, y, u, tail);
    RunAfter(p, y, u + tail);
  }

  /** A digit run after any prefix, ended by a non-digit or the end, is scanned whole. */
  lemma RunAfter(p: string, y: string, w: string)
    requires AllDigits(y) && (w == [] || !IsDigit(w[0]))
    ensures DigitEnd(p + (y + w), |p|) == |p| + |y|
  {
    DigitEndConcat(y, w, 0);
    DigitEndShifted(p, y + w, 0);
  }

  /** Where the token ends: after the optional letter. */
  lemma Suffix(x: string, y: string, u: string, tail: string) returns (g: nat)
    requires |u| <= 1 && (u != [] ==> IsAsciiLetter(u[0]))
    requires u == [] ==> tail == [] || (!IsDigit(tail[0]) && !IsAsciiLetter(tail[0]))
    ensures u + tail == [] || !IsDigit((u + tail)[0])
    ensures var s := VersionLead + x + "." + y + u + tail; var f := 36 + |x| + |y|;
      g == (if f < |s| && IsAsciiLetter(s[f]) then f + 1 else f) && g == f + |u|
  {
    var s := VersionLead + x + "." + y + u + tail;
    var f := 36 + |x| + |y|;
    assert s == (VersionLead + x + "." + y) + (u + tail);
    if u + tail != [] {
      assert s[f] == (u + tail)[0];
    }
    g := f + |u|;
  }

  lemma VersionAtIs(s: string, e: nat, f: nat, g: nat)
    requires 35 < e < |s| && e + 1 < f <= |s|
    requires StartsWith(s[0..], VersionLead) && DigitEnd(s, 35) == e && s[e] == '.' && DigitEnd(s, e + 1) == f
    requires g == (if f < |s| && IsAsciiLetter(s[f]) then f + 1 else f)
    ensures ToolVersion(s) == s[34..g]
  {
    assert VersionAt(s, 0) == Some(s[34..g]);
  }

  lemma VersionSlice(x: string, y: string, u: string, tail: string)
    ensures (VersionLead + x + "." + y + u + tail)[34..36 + |x| + |y| + |u|] == "v" + x + "." + y + u
  {
    var s := VersionLead + x + "." + y + u + tail;
    var body := x + "." + y + u;
    assert s == VersionLead + body + tail;
    assert s[34..35 + |body|] == VersionLead[34..] + body;
    assert VersionLead[34..] == "v";
  }
}
