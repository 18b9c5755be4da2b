/**
 The cache-to-cache reader `parseCacheToCache` (parser.js): two local latencies read
 from their own lines, and up to two remote HITM matrices, each collected from a
 buffer of lines that a "Remote Socket" heading opens and `parseMatrixSection` reads.
 */
module CacheToCache {
  import opened Options
  import opened Text
  import opened Numbers
  import opened MatrixSection

  /** Which remote matrix a heading routes its buffer to. */
  datatype Homing = WriterHomed | ReaderHomed

  /** The object the reader returns. */
  datatype CacheResult = CacheResult(localHit: Cell, localHitm: Cell, writerHomed: NodeMatrix, readerHomed: NodeMatrix)

  /** The reader's state between lines: the result so far, the open sub-section's
      homing (`currentSubSectionType`) and its buffered lines. */
  datatype State = State(data: CacheResult, kind: Option<Homing>, buffer: seq<string>)

  const HitPrefix: string := "Local Socket L2->L2 HIT  latency"
  const HitmPrefix: string := "Local Socket L2->L2 HITM latency"
  const RemoteHeading: string := "Remote Socket L2->L2 HITM latency"
  const WriterWording: string := "(data address homed in writer socket)"
  const ReaderWording: string := "(data address homed in reader socket)"

  const Empty: NodeMatrix := NodeMatrix([], [])

  /** Both scalars NaN, both matrices empty, no sub-section open. */
  const Init: State := State(CacheResult(NaN, NaN, Empty, Empty), None, [])

  /** The node-number backfill: an empty node list becomes `0..n-1` when `n > 0` and the
      first row has `n` cells. */
  function Backfill(m: NodeMatrix, n: nat): (r: NodeMatrix)
    ensures r.matrix == m.matrix
    ensures r.nodes != m.nodes ==> m.nodes == [] && n > 0 && |m.matrix| > 0 && |m.matrix[0]| == n
    ensures r.nodes != m.nodes ==> r.nodes == Range(n)
  {
    if m.nodes == [] && n > 0 && |m.matrix| > 0 && |m.matrix[0]| == n then NodeMatrix(Range(n), m.matrix) else m
  }

  function Store(d: CacheResult, k: Homing, m: NodeMatrix): CacheResult {
    match k
    case WriterHomed => d.(writerHomed := m)
    case ReaderHomed => d.(readerHomed := m)
  }

  /** `processSubSection()`: an open sub-section with buffered lines is parsed into its
      matrix; the buffer and the homing are cleared in any case. */
  function Flush(st: State, n: nat): (r: State)
    ensures r.kind == None && r.buffer == []
    ensures r.data.localHit == st.data.localHit && r.data.localHitm == st.data.localHitm
  {
    if st.kind.Some? && |st.buffer| > 0 then
      State(Store(st.data, st.kind.value, Backfill(ParseMatrixSection(st.buffer), n)), None, [])
    else State(st.data, None, [])
  }

  /** The homing a heading's wording names, if any. */
  function HomingOf(t: string): Option<Homing> {
    if Contains(t, WriterWording) then Some(WriterHomed)
    else if Contains(t, ReaderWording) then Some(ReaderHomed)
    else None
  }

  /** The value a local latency line ends with: `parseFloat(line.split(/\s+/).pop())`. */
  function LastValue(t: string): Cell {
    FloatCell(LastPiece(t))
  }

  /** A blank line right after a line that is whitespace only but not empty. */
  predicate AfterBlank(lines: seq<string>, i: nat)
    requires i < |lines|
  {
    i > 0 && lines[i - 1] != "" && Trim(lines[i - 1]) == ""
  }

  /** A blank line right before a "Remote Socket" line. */
  predicate BeforeRemote(lines: seq<string>, i: nat)
    requires i < |lines|
  {
    i + 1 < |lines| && StartsWith(Trim(lines[i + 1]), "Remote Socket")
  }

  /** What closes an open sub-section at line `i` whose trimmed text is `t`. */
  predicate Closes(lines: seq<string>, i: nat, t: string, st: State)
    requires i < |lines|
  {
    StartsWith(t, "Local Socket")
    || (t == "" && |st.buffer| > 0 && AfterBlank(lines, i))
    || (t == "" && |st.buffer| > 0 && BeforeRemote(lines, i))
  }

  function SetHit(st: State, v: Cell): State {
    st.(data := st.data.(localHit := v))
  }

  function SetHitm(st: State, v: Cell): State {
    st.(data := st.data.(localHitm := v))
  }

  /** A remote heading opens a sub-section: its homing, and the heading as the first
      buffered line. */
  function Open(st: State, t: string): State {
    State(st.data, HomingOf(t), st.buffer + [t])
  }

  /** The loop body on a trimmed line `t`; `closes` says whether the line closes an
      open sub-section, which depends on its neighbours. */
  function StepOn(t: string, closes: bool, st: State, n: nat): State {
    if StartsWith(t, HitPrefix) then SetHit(Flush(st, n), LastValue(t))
    else if StartsWith(t, HitmPrefix) then SetHitm(Flush(st, n), LastValue(t))
    else if Contains(t, RemoteHeading) then Open(Flush(st, n), t)
    else if st.kind.Some? then
      if closes then Flush(st, n)
      else if t != "" then st.(buffer := st.buffer + [t])
      else st
    else st
  }

  /** The loop body for line `i`; `n` is the node count the caller passes. */
  function Step(lines: seq<string>, i: nat, st: State, n: nat): State
    requires i < |lines|
  {
    var t := Trim(lines[i]);
    StepOn(t, Closes(lines, i, t, st), st, n)
  }

  /** The loop from line `i`, then the final `processSubSection()`. */
  function Scan(lines: seq<string>, i: nat, st: State, n: nat): State
    requires i <= |lines|
    decreases |lines| - i
  {
    if i == |lines| then Flush(st, n) else Scan(lines, i + 1, Step(lines, i, st, n), n)
  }

  /** `parseCacheToCache(lines, numaNodeCount)`. */
  function ParseCacheToCache(lines: seq<string>, n: nat): CacheResult {
    Scan(lines, 0, Init, n).data
  }

  // ---------------------------------------------------------------------------
  // Reference descriptions

  /** The last line before `j` whose trimmed text starts with `p`. */
  function LastBelow(lines: seq<string>, p: string, j: nat): (r: Option<nat>)
    requires j <= |lines|
    ensures r.Some? ==> r.value < j && StartsWith(Trim(lines[r.value]), p)
    ensures r.Some? ==> forall k :: r.value < k < j ==> !StartsWith(Trim(lines[k]), p)
    ensures r.None? ==> forall k :: 0 <= k < j ==> !StartsWith(Trim(lines[k]), p)
  {
    if j == 0 then None
    else if StartsWith(Trim(lines[j - 1]), p) then Some(j - 1)
    else LastBelow(lines, p, j - 1)
  }

  /** The value of the last line before `j` starting with `p`, or NaN. */
  function LastValueBelow(lines: seq<string>, p: string, j: nat): Cell
    requires j <= |lines|
  {
    match LastBelow(lines, p, j)
    case Some(k) => LastValue(Trim(lines[k]))
    case None => NaN
  }

  // ---------------------------------------------------------------------------
  // Properties

  /** A line cannot start with both local prefixes: they differ at the 24th character. */
  lemma PrefixesDiffer(t: string)
    ensures StartsWith(t, HitPrefix) ==> !StartsWith(t, HitmPrefix)
  {
    if StartsWith(t, HitPrefix) {
      assert t[23] == HitPrefix[23];
    }
  }

  /** A line's step sets the HIT value exactly when the line starts with its prefix. */
  lemma StepOnHit(t: string, c: bool, st: State, n: nat)
    ensures StepOn(t, c, st, n).data.localHit
      == if StartsWith(t, HitPrefix) then LastValue(t) else st.data.localHit
  {
  }

  lemma StepOnHitm(t: string, c: bool, st: State, n: nat)
    ensures StepOn(t, c, st, n).data.localHitm
      == if StartsWith(t, HitmPrefix) then LastValue(t) else st.data.localHitm
  {
    PrefixesDiffer(t);
  }

  lemma {:induction false} ScanHit(lines: seq<string>, i: nat, st: State, n: nat)
    requires i <= |lines| && st.data.localHit == LastValueBelow(lines, HitPrefix, i)
    ensures Scan(lines, i, st, n).data.localHit == LastValueBelow(lines, HitPrefix, |lines|)
    decreases |lines| - i
  {
    if i < |lines| {
      var t := Trim(lines[i]);
      StepOnHit(t, Closes(lines, i, t, st), st, n);
      ScanHit(lines, i + 1, Step(lines, i, st, n), n);
    }
  }

  lemma {:induction false} ScanHitm(lines: seq<string>, i: nat, st: State, n: nat)
    requires i <= |lines| && st.data.localHitm == LastValueBelow(lines, HitmPrefix, i)
    ensures Scan(lines, i, st, n).data.localHitm == LastValueBelow(lines, HitmPrefix, |lines|)
    decreases |lines| - i
  {
    if i < |lines| {
      var t := Trim(lines[i]);
      StepOnHitm(t, Closes(lines, i, t, st), st, n);
      ScanHitm(lines, i + 1, Step(lines, i, st, n), n);
    }
  }

  /** `localHit` and `localHitm` are the values of the last lines starting with their
      prefixes, and NaN when there is none. */
  lemma LocalLatencies(lines: seq<string>, n: nat)
    ensures ParseCacheToCache(lines, n).localHit == LastValueBelow(lines, HitPrefix, |lines|)
    ensures ParseCacheToCache(lines, n).localHitm == LastValueBelow(lines, HitmPrefix, |lines|)
  {
    ScanHit(lines, 0, Init, n);
    ScanHitm(lines, 0, Init, n);
  }

  /** A local latency line or a remote heading first closes the open sub-section: the
      matrices are as `processSubSection()` leaves them, and only a heading stays
      buffered. */
  lemma HeadingsFlush(t: string, c: bool, st: State, n: nat)
    requires StartsWith(t, HitPrefix) || StartsWith(t, HitmPrefix) || Contains(t, RemoteHeading)
    ensures StepOn(t, c, st, n).data.writerHomed == Flush(st, n).data.writerHomed
    ensures StepOn(t, c, st, n).data.readerHomed == Flush(st, n).data.readerHomed
    ensures StepOn(t, c, st, n).buffer
      == if StartsWith(t, HitPrefix) || StartsWith(t, HitmPrefix) then [] else [t]
  {
  }

  /** Only non-blank trimmed lines are buffered, a non-empty buffer starts with the
      remote heading that opened it, and an open sub-section has buffered its heading. */
  predicate BufferShape(st: State) {
    (st.kind.Some? ==> st.buffer != [])
    && (st.buffer != [] ==> Contains(st.buffer[0], RemoteHeading))
    && forall k :: 0 <= k < |st.buffer| ==> st.buffer[k] != "" && IsTrimmed(st.buffer[k])
  }

  lemma StepOnBuffer(t: string, c: bool, st: State, n: nat)
    requires IsTrimmed(t) && BufferShape(st)
    ensures BufferShape(StepOn(t, c, st, n))
  {
    if StartsWith(t, HitPrefix) || StartsWith(t, HitmPrefix) {
    } else if Contains(t, RemoteHeading) {
      ContainsLength(t, RemoteHeading);
      assert Flush(st, n).buffer + [t] == [t];
    } else if st.kind.Some? && !c && t != "" {
      assert (st.buffer + [t])[|st.buffer|] == t && (st.buffer + [t])[0] == st.buffer[0];
    }
  }

  lemma StepBuffer(lines: seq<string>, i: nat, st: State, n: nat)
    requires i < |lines| && BufferShape(st)
    ensures BufferShape(Step(lines, i, st, n))
  {
    var t := Trim(lines[i]);
    StepOnBuffer(t, Closes(lines, i, t, st), st, n);
  }

  /** The state before line `j` of a scan started at `i` in state `st`. */
  function StateAt(lines: seq<string>, i: nat, st: State, n: nat, j: nat): State
    requires i <= j <= |lines|
    decreases j - i
  {
    if i == j then st else StateAt(lines, i + 1, Step(lines, i, st, n), n, j)
  }

  /** A property every step keeps holds before every line of the scan. */
  lemma {:induction false} StateAtKeeps(lines: seq<string>, i: nat, st: State, n: nat, j: nat, p: State -> bool)
    requires i <= j <= |lines| && p(st)
    requires forall k: nat, s: State :: k < |lines| && p(s) ==> p(Step(lines, k, s, n))
    ensures p(StateAt(lines, i, st, n, j))
    decreases j - i
  {
    hide Step;
    if i < j {
      StateAtKeeps(lines, i + 1, Step(lines, i, st, n), n, j, p);
    }
  }

  /** The buffer keeps its shape before every line of the scan. */
  lemma ScanBuffer(lines: seq<string>, i: nat, st: State, n: nat, j: nat)
    requires i <= j <= |lines| && BufferShape(st)
    ensures BufferShape(StateAt(lines, i, st, n, j))
  {
    forall k: nat, s: State | k < |lines| && BufferShape(s)
      ensures BufferShape(Step(lines, k, s, n))
    {
      StepBuffer(lines, k, s, n);
    }
    StateAtKeeps(lines, i, st, n, j, BufferShape);
  }

  /** Every remote matrix is a matrix `parseMatrixSection` could return: each row is as
      wide as the node list. */
  predicate WellShaped(m: NodeMatrix) {
    forall k :: 0 <= k < |m.matrix| ==> |m.matrix[k]| == |m.nodes|
  }

  predicate ResultShaped(d: CacheResult) {
    WellShaped(d.writerHomed) && WellShaped(d.readerHomed)
  }

  /** The backfill never fires on a parsed matrix: an empty node list comes with an
      empty matrix. */
  lemma BackfillIsDead(ls: seq<string>, n: nat)
    ensures Backfill(ParseMatrixSection(ls), n) == ParseMatrixSection(ls)
  {
  }

  lemma FlushShaped(st: State, n: nat)
    requires ResultShaped(st.data)
    ensures ResultShaped(Flush(st, n).data)
  {
    if st.kind.Some? && |st.buffer| > 0 {
      BackfillIsDead(st.buffer, n);
    }
  }

  lemma StepOnShaped(t: string, c: bool, st: State, n: nat)
    requires ResultShaped(st.data)
    ensures ResultShaped(StepOn(t, c, st, n).data)
  {
    FlushShaped(st, n);
  }

  lemma {:induction false} ScanShaped(lines: seq<string>, i: nat, st: State, n: nat)
    requires i <= |lines| && ResultShaped(st.data)
    ensures ResultShaped(Scan(lines, i, st, n).data)
    decreases |lines| - i
  {
    if i == |lines| {
      FlushShaped(st, n);
    } else {
      var t := Trim(lines[i]);
      StepOnShaped(t, Closes(lines, i, t, st), st, n);
      ScanShaped(lines, i + 1, Step(lines, i, st, n), n);
    }
  }

  /** Both remote matrices are well shaped. */
  lemma CacheMatricesShaped(lines: seq<string>, n: nat)
    ensures ResultShaped(ParseCacheToCache(lines, n))
  {
    ScanShaped(lines, 0, Init, n);
  }

  /** No sub-section open, nothing buffered, both matrices empty. */
  predicate Idle(st: State) {
    st.kind == None && st.buffer == [] && st.data.writerHomed == Empty && st.data.readerHomed == Empty
  }

  lemma StepOnIdle(t: string, c: bool, st: State, n: nat)
    requires Idle(st) && !Contains(t, RemoteHeading)
    ensures Idle(StepOn(t, c, st, n))
  {
  }

  /** Without a remote heading no sub-section opens and both matrices stay empty. */
  lemma {:induction false} NoRemoteNoMatrices(lines: seq<string>, i: nat, st: State, n: nat)
    requires i <= |lines| && Idle(st)
    requires forall k :: i <= k < |lines| ==> !Contains(Trim(lines[k]), RemoteHeading)
    ensures Scan(lines, i, st, n).data.writerHomed == Empty && Scan(lines, i, st, n).data.readerHomed == Empty
    decreases |lines| - i
  {
    if i < |lines| {
      var t := Trim(lines[i]);
      StepOnIdle(t, Closes(lines, i, t, st), st, n);
      NoRemoteNoMatrices(lines, i + 1, Step(lines, i, st, n), n);
    }
  }

  /** On trimmed lines, as the report reader passes them, the rule closing a
      sub-section at a blank line after a blank line never fires: a trimmed line that
      trims to nothing is empty. */
  lemma AfterBlankNeverOnTrimmed(lines: seq<string>, i: nat)
    requires i < |lines| && forall k :: 0 <= k < |lines| ==> IsTrimmed(lines[k])
    ensures !AfterBlank(lines, i)
  {
    if i > 0 {
      TrimOfTrimmed(lines[i - 1]);
    }
  }

  // ---------------------------------------------------------------------------
  // What a sub-section reads

  /** A line inside a remote sub-section: trimmed, not blank, and neither a local
      latency line nor another heading. */
  predicate BodyLine(t: string) {
    t != "" && IsTrimmed(t) && !StartsWith(t, "Local Socket") && !Contains(t, RemoteHeading)
  }

  /** A trimmed line that opens a sub-section. */
  predicate HeadingLine(t: string) {
    IsTrimmed(t) && !StartsWith(t, "Local Socket") && Contains(t, RemoteHeading)
  }

  /** Both local prefixes begin with "Local Socket". */
  lemma LocalPrefixes(t: string)
    ensures StartsWith(t, HitPrefix) ==> StartsWith(t, "Local Socket")
    ensures StartsWith(t, HitmPrefix) ==> StartsWith(t, "Local Socket")
  {
    if StartsWith(t, HitPrefix) {
      assert t[..12] == t[..|HitPrefix|][..12];
    }
    if StartsWith(t, HitmPrefix) {
      assert t[..12] == t[..|HitmPrefix|][..12];
    }
  }

  /** A body line in an open sub-section is appended to the buffer. */
  lemma StepBody(lines: seq<string>, i: nat, st: State, n: nat)
    requires i < |lines| && st.kind.Some? && BodyLine(lines[i])
    ensures Step(lines, i, st, n) == st.(buffer := st.buffer + [lines[i]])
  {
    TrimOfTrimmed(lines[i]);
    LocalPrefixes(lines[i]);
  }

  /** A heading closes what was open and starts a buffer holding only itself. */
  lemma StepHeading(lines: seq<string>, i: nat, st: State, n: nat)
    requires i < |lines| && HeadingLine(lines[i])
    ensures Step(lines, i, st, n) == State(Flush(st, n).data, HomingOf(lines[i]), [lines[i]])
  {
    TrimOfTrimmed(lines[i]);
    LocalPrefixes(lines[i]);
  }

  /** Body lines up to the end are buffered one by one, in order, and the final
      close reads them all. */
  lemma {:induction false} BodyScanned(lines: seq<string>, i: nat, st: State, n: nat)
    requires i <= |lines| && st.kind.Some?
    requires forall k :: i <= k < |lines| ==> BodyLine(lines[k])
    ensures Scan(lines, i, st, n) == Flush(st.(buffer := st.buffer + lines[i..]), n)
    decreases |lines| - i
  {
    if i == |lines| {
      AppendNothing(st.buffer, lines, i);
    } else {
      StepBody(lines, i, st, n);
      BodyScanned(lines, i + 1, st.(buffer := st.buffer + [lines[i]]), n);
      AppendSlice(st.buffer, lines, i);
    }
  }

  lemma AppendNothing(a: seq<string>, xs: seq<string>, i: nat)
    requires i == |xs|
    ensures a + xs[i..] == a
  {
  }

  lemma AppendSlice(a: seq<string>, xs: seq<string>, i: nat)
    requires i < |xs|
    ensures a + [xs[i]] + xs[i + 1..] == a + xs[i..]
  {
    assert xs[i..] == [xs[i]] + xs[i + 1..];
  }

  /** A last sub-section, a heading naming its homing followed by body lines up to the
      end, is stored as `parseMatrixSection` of exactly those lines. */
  lemma LastSectionStored(lines: seq<string>, h: nat, st: State, n: nat, k: Homing)
    requires h < |lines| && HeadingLine(lines[h]) && HomingOf(lines[h]) == Some(k)
    requires forall j :: h < j < |lines| ==> BodyLine(lines[j])
    ensures Scan(lines, h, st, n).data == Store(Flush(st, n).data, k, ParseMatrixSection(lines[h..]))
  {
    var d := Flush(st, n).data;
    calc {
      Scan(lines, h, st, n).data;
      == { ScanOn(lines, h, st, n); StepHeading(lines, h, st, n); }
      Scan(lines, h + 1, State(d, Some(k), [lines[h]]), n).data;
      == { BodyScanned(lines, h + 1, State(d, Some(k), [lines[h]]), n); }
      Flush(State(d, Some(k), [lines[h]] + lines[h + 1..]), n).data;
      == { ConsSlice(lines, h); }
      Flush(State(d, Some(k), lines[h..]), n).data;
      == { FlushOpen(d, k, lines[h..], n); }
      Store(d, k, ParseMatrixSection(lines[h..]));
    }
  }

  lemma ScanOn(lines: seq<string>, i: nat, st: State, n: nat)
    requires i < |lines|
    ensures Scan(lines, i, st, n) == Scan(lines, i + 1, Step(lines, i, st, n), n)
  {
  }

  lemma ConsSlice(xs: seq<string>, i: nat)
    requires i < |xs|
    ensures [xs[i]] + xs[i + 1..] == xs[i..]
  {
  }

  /** Closing an open sub-section stores what `parseMatrixSection` reads from its buffer. */
  lemma FlushOpen(d: CacheResult, k: Homing, buf: seq<string>, n: nat)
    requires |buf| > 0
    ensures Flush(State(d, Some(k), buf), n).data == Store(d, k, ParseMatrixSection(buf))
  {
    BackfillIsDead(buf, n);
  }

  /** A report part that is one writer-homed sub-section yields that section's matrix
      and leaves the other empty. */
  lemma SingleSection(lines: seq<string>, n: nat)
    requires |lines| > 0 && HeadingLine(lines[0]) && HomingOf(lines[0]) == Some(WriterHomed)
    requires forall j :: 0 < j < |lines| ==> BodyLine(lines[j])
    ensures ParseCacheToCache(lines, n).writerHomed == ParseMatrixSection(lines)
    ensures ParseCacheToCache(lines, n).readerHomed == Empty
  {
    LastSectionStored(lines, 0, Init, n, WriterHomed);
    assert lines[0..] == lines;
  }

  /** The state before line `j + 1` is one step on from the state before line `j`. */
  lemma {:induction false} StateAtSnoc(lines: seq<string>, i: nat, st: State, n: nat, j: nat)
    requires i <= j < |lines|
    ensures StateAt(lines, i, st, n, j + 1) == Step(lines, j, StateAt(lines, i, st, n, j), n)
    decreases j - i
  {
    hide Step;
    if i < j {
      StateAtSnoc(lines, i + 1, Step(lines, i, st, n), n, j);
    }
  }

  /** The scan from `i` is the scan from any later line `j`, started in the state
      reached there. */
  lemma {:induction false} ScanSplit(lines: seq<string>, i: nat, st: State, n: nat, j: nat)
    requires i <= j <= |lines|
    ensures Scan(lines, i, st, n) == Scan(lines, j, StateAt(lines, i, st, n, j), n)
    decreases j - i
  {
    hide Step;
    if i < j {
      ScanSplit(lines, i + 1, Step(lines, i, st, n), n, j);
    }
  }

  /** Body lines before line `j` are buffered one by one, in order. */
  lemma {:induction false} BodyUpTo(lines: seq<string>, i: nat, st: State, n: nat, j: nat)
    requires i <= j <= |lines| && st.kind.Some?
    requires forall k :: i <= k < j ==> BodyLine(lines[k])
    ensures StateAt(lines, i, st, n, j) == st.(buffer := st.buffer + lines[i..j])
    decreases j - i
  {
    hide Step, BodyLine;
    if i == j {
      assert st.buffer + lines[i..j] == st.buffer;
    } else {
      StepBody(lines, i, st, n);
      BodyUpTo(lines, i + 1, st.(buffer := st.buffer + [lines[i]]), n, j);
      assert st.buffer + [lines[i]] + lines[i + 1..j] == st.buffer + lines[i..j] by {
        assert lines[i..j] == [lines[i]] + lines[i + 1..j];
      }
    }
  }

  /** Before line `j`, a sub-section opened by a heading at `h` and followed by body
      lines holds its kind and exactly the lines `h..j`, over what was there before
      the heading closed it. */
  lemma SectionOpen(lines: seq<string>, h: nat, j: nat, st: State, n: nat, k: Homing)
    requires h < j <= |lines| && HeadingLine(lines[h]) && HomingOf(lines[h]) == Some(k)
    requires forall m :: h < m < j ==> BodyLine(lines[m])
    ensures StateAt(lines, h, st, n, j) == State(Flush(st, n).data, Some(k), lines[h..j])
  {
    hide Step, Flush, BodyLine, HeadingLine, HomingOf;
    var d := Flush(st, n).data;
    StepHeading(lines, h, st, n);
    BodyUpTo(lines, h + 1, State(d, Some(k), [lines[h]]), n, j);
    assert [lines[h]] + lines[h + 1..j] == lines[h..j];
  }

  /** A sub-section closed by the next heading at `j` is stored as `parseMatrixSection`
      of its lines `h..j`, and the heading at `j` opens the next one. */
  lemma ClosedByHeading(lines: seq<string>, h: nat, j: nat, st: State, n: nat, k: Homing)
    requires h < j < |lines| && HeadingLine(lines[h]) && HomingOf(lines[h]) == Some(k)
    requires forall m :: h < m < j ==> BodyLine(lines[m])
    requires HeadingLine(lines[j])
    ensures StateAt(lines, h, st, n, j + 1).data == Store(Flush(st, n).data, k, ParseMatrixSection(lines[h..j]))
    ensures StateAt(lines, h, st, n, j + 1).kind == HomingOf(lines[j])
    ensures StateAt(lines, h, st, n, j + 1).buffer == [lines[j]]
  {
    hide *;
    var d := Flush(st, n).data;
    SectionOpen(lines, h, j, st, n, k);
    StateAtSnoc(lines, h, st, n, j);
    StepHeading(lines, j, State(d, Some(k), lines[h..j]), n);
    FlushOpen(d, k, lines[h..j], n);
  }

  /** A report part that is a writer-homed sub-section followed by a reader-homed one
      reads the writer matrix from the lines before the second heading and the reader
      matrix from the lines from it on. */
  lemma TwoSections(lines: seq<string>, h: nat, n: nat)
    requires 0 < h < |lines|
    requires HeadingLine(lines[0]) && HomingOf(lines[0]) == Some(WriterHomed)
    requires forall m :: 0 < m < h ==> BodyLine(lines[m])
    requires HeadingLine(lines[h]) && HomingOf(lines[h]) == Some(ReaderHomed)
    requires forall m :: h < m < |lines| ==> BodyLine(lines[m])
    ensures ParseCacheToCache(lines, n).writerHomed == ParseMatrixSection(lines[..h])
    ensures ParseCacheToCache(lines, n).readerHomed == ParseMatrixSection(lines[h..])
  {
    var w := ParseMatrixSection(lines[..h]);
    var st := StateAt(lines, 0, Init, n, h);
    SectionOpen(lines, 0, h, Init, n, WriterHomed);
    assert lines[0..h] == lines[..h];
    FlushOpen(Init.data, WriterHomed, lines[..h], n);
    ScanSplit(lines, 0, Init, n, h);
    LastSectionStored(lines, h, st, n, ReaderHomed);
  }
}
