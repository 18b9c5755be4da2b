/**
 The older reader in script.js. `parseMLCOutput` trims every line once, then walks the
 lines with index-returning scanners. Each scanner starts at a fixed offset from its
 marker line and writes into one shared result object, and the driver resumes one
 line past the index a scanner returns.
 */
module Legacy {
  import opened Options
  import opened Text
  import opened Numbers
  import opened Runs

  /** A node-indexed table as the older reader keeps it: the header's numbers and the
      rows' cells, rows stored as read, whatever their width. */
  datatype Grid = Grid(nodes: seq<Decimal>, values: seq<seq<Cell>>)

  /** The peak-bandwidth list: labels and values pushed in pairs. */
  datatype Labelled = Labelled(labels: seq<string>, values: seq<Decimal>)

  /** The loaded-latency columns; a delay is `parseInt`, `None` for NaN. */
  datatype Columns = Columns(delays: seq<Option<int>>, latencies: seq<Cell>, bandwidths: seq<Cell>)

  datatype CacheData = CacheData(localHit: Cell, localHitm: Cell, writer: Grid, reader: Grid)

  datatype LegacyData = LegacyData(idle: Grid, peak: Labelled, node: Grid, loaded: Columns, cache: CacheData)

  const NoGrid: Grid := Grid([], [])

  /** The result object before the walk: empty tables, `null` latencies. */
  const Start: LegacyData :=
    LegacyData(NoGrid, Labelled([], []), NoGrid, Columns([], [], []), CacheData(Null, Null, NoGrid, NoGrid))

  /** The first piece of `t.split(/\s+/)` for a trimmed `t`. */
  function FirstPiece(t: string): string {
    var parts := SplitTrimmed(t);
    if |parts| > 0 then parts[0] else ""
  }

  /** The index just past the last whitespace character of `s[..j]`, or 0. */
  function PieceStart(s: string, j: nat): (r: nat)
    requires j <= |s|
    ensures r <= j
    ensures forall k :: r <= k < j ==> !IsSpace(s[k])
    ensures r > 0 ==> IsSpace(s[r - 1])
  {
    if j == 0 then 0 else if IsSpace(s[j - 1]) then j else PieceStart(s, j - 1)
  }

  /** What `s.split(/\s+/).pop()` returns for any `s`: the longest suffix of `s`
      without whitespace, empty when `s` ends in whitespace. */
  function RawLastPiece(s: string): (r: string)
    ensures |r| <= |s| && r == s[|s| - |r|..]
    ensures NoSpace(r)
    ensures |r| < |s| ==> IsSpace(s[|s| - |r| - 1])
  {
    var a := PieceStart(s, |s|);
    assert forall k :: 0 <= k < |s| - a ==> s[a..][k] == s[a + k];
    s[a..]
  }

  // ---------------------------------------------------------------------------
  // parseMatrixData

  /** The tokens of a header line that `Number()` reads, as numbers, in order. */
  function NumbersOf(ws: seq<string>): (r: seq<Decimal>)
    ensures |r| <= |ws|
  {
    if ws == [] then []
    else
      match ParseNumber(ws[0])
      case Some(d) => [d] + NumbersOf(ws[1..])
      case None => NumbersOf(ws[1..])
  }

  function HeaderNodes(h: string): seq<Decimal> {
    NumbersOf(Words(h))
  }

  /** The numbers of two token lists in a row are those of the first, then those of
      the second: the filter keeps order and looks at each token alone. */
  lemma {:induction false} NumbersOfAppend(a: seq<string>, b: seq<string>)
    ensures NumbersOf(a + b) == NumbersOf(a) + NumbersOf(b)
    decreases |a|
  {
    hide ParseNumber;
    if a != [] {
      assert (a + b)[0] == a[0] && (a + b)[1..] == a[1..] + b;
      NumbersOfAppend(a[1..], b);
    } else {
      assert a + b == b;
    }
  }

  /** When `Number()` reads every token, each token gives its own number, in place. */
  lemma {:induction false} NumbersOfAll(ws: seq<string>)
    requires forall k :: 0 <= k < |ws| ==> ParseNumber(ws[k]).Some?
    ensures |NumbersOf(ws)| == |ws|
    ensures forall k :: 0 <= k < |ws| ==> ParseNumber(ws[k]) == Some(NumbersOf(ws)[k])
    decreases |ws|
  {
    hide ParseNumber;
    if ws != [] {
      NumbersOfAll(ws[1..]);
      assert NumbersOf(ws) == [ParseNumber(ws[0]).value] + NumbersOf(ws[1..]);
      forall k | 1 <= k < |ws| ensures ParseNumber(ws[k]) == Some(NumbersOf(ws)[k]) {
        assert ws[k] == ws[1..][k - 1];
      }
    }
  }

  /** When `Number()` rejects every token, there are no numbers. */
  lemma {:induction false} NumbersOfNone(ws: seq<string>)
    requires forall k :: 0 <= k < |ws| ==> ParseNumber(ws[k]).None?
    ensures NumbersOf(ws) == []
    decreases |ws|
  {
    hide ParseNumber;
    if ws != [] {
      assert ParseNumber(ws[0]).None?;
      NumbersOfNone(ws[1..]);
    }
  }

  /** A row line: non-empty, and the first token of its trim is a number. */
  predicate IsRow(l: string) {
    l != "" && ParseNumber(FirstPiece(Trim(l))).Some?
  }

  /** A row cell: `-` is `null`, anything else `parseFloat`. */
  function CellOf(v: string): (r: Cell)
    ensures r == Null <==> v == "-"
  {
    if v == "-" then Null else FloatCell(v)
  }

  /** The cells after the first token of the row's trim. */
  function RowOf(l: string): seq<Cell> {
    var parts := SplitTrimmed(Trim(l));
    if parts == [] then [] else seq(|parts| - 1, k requires 0 <= k < |parts| - 1 => CellOf(parts[k + 1]))
  }

  /** A row holds one cell for every piece of its trim after the first, `-` read as
      `null`. */
  lemma RowCells(l: string)
    ensures var parts := SplitTrimmed(Trim(l));
      |parts| > 0 && |RowOf(l)| + 1 == |parts|
      && forall k :: 0 <= k < |RowOf(l)| ==> (RowOf(l)[k] == Null <==> parts[k + 1] == "-")
  {
    var t := Trim(l);
    if t != [] {
      WordsNonEmpty(t);
    }
    var parts := SplitTrimmed(t);
    assert |parts| > 0;
    var r := RowOf(l);
    assert forall k :: 0 <= k < |r| ==> r[k] == CellOf(parts[k + 1]);
  }

  /** One step of the row loop: the row of line `l` appended. */
  function AddRow(values: seq<seq<Cell>>, l: string): seq<seq<Cell>> {
    values + [RowOf(l)]
  }

  /** The row loop from line `i`, `values` holding the rows so far. */
  function MatrixLoop(lines: seq<string>, i: nat, values: seq<seq<Cell>>): (r: (seq<seq<Cell>>, nat))
    requires i <= |lines|
    ensures i <= r.1 <= |lines|
  {
    TakeRun(lines, i, values, IsRow, AddRow)
  }

  /** `parseMatrixData(lines, start, target)`: the new grid and the index of the last
      line read. Reading the header past the end throws. */
  function ParseMatrixData(lines: seq<string>, start: nat, g: Grid): (r: Result<(Grid, nat)>)
    ensures r.Thrown? <==> start >= |lines|
    ensures r.Ok? ==> start <= r.value.1 < |lines|
  {
    if start >= |lines| then Thrown("TypeError: header line is undefined")
    else
      var m := MatrixLoop(lines, start + 1, g.values);
      Ok((Grid(HeaderNodes(lines[start]), m.0), m.1 - 1))
  }

  /** The first line at or after `i` that is not a row, or `|lines|`. */
  function RowEnd(lines: seq<string>, i: nat): (r: nat)
    requires i <= |lines|
    ensures i <= r <= |lines|
  {
    RunEnd(lines, i, IsRow)
  }

  /** Every line of the run is a row, and the line that ends it is not. */
  lemma RowEndStops(lines: seq<string>, i: nat)
    requires i <= |lines|
    ensures forall k :: i <= k < RowEnd(lines, i) ==> IsRow(lines[k])
    ensures RowEnd(lines, i) < |lines| ==> !IsRow(lines[RowEnd(lines, i)])
  {
    RunEndStops(lines, i, IsRow);
  }

  function RowsOf(ls: seq<string>): (r: seq<seq<Cell>>)
    ensures |r| == |ls|
  {
    MapSeq(RowOf, ls)
  }

  lemma MatrixLoopRows(lines: seq<string>, i: nat, values: seq<seq<Cell>>)
    requires i <= |lines|
    ensures var r := MatrixLoop(lines, i, values);
      r.0 == values + RowsOf(lines[i..RowEnd(lines, i)]) && r.1 == RowEnd(lines, i)
  {
    TakeRunIsRun(lines, i, values, IsRow, AddRow);
    PushEachMaps(values, lines[i..RowEnd(lines, i)], RowOf, AddRow);
  }

  /** The header's numbers replace the nodes, and the rows from the next line up to the
      first line that is not a row are appended to the values. Each row holds the cells
      after its first token. The index returned is that of the last row, or of the
      header when there are no rows. */
  lemma MatrixData(lines: seq<string>, start: nat, g: Grid)
    requires start < |lines|
    ensures var r := ParseMatrixData(lines, start, g); var e := RowEnd(lines, start + 1);
      r.Ok? && r.value.0.nodes == HeaderNodes(lines[start])
      && r.value.0.values == g.values + RowsOf(lines[start + 1..e]) && r.value.1 == e - 1
  {
    MatrixLoopRows(lines, start + 1, g.values);
  }

  // ---------------------------------------------------------------------------
  // parsePeakBandwidths

  /** `/^\d+:\d+ Reads-Writes/`. */
  predicate ReadsWritesLine(l: string) {
    var e := DigitEnd(l, 0);
    0 < e < |l| && l[e] == ':'
    && var f := DigitEnd(l, e + 1);
    f > e + 1 && StartsWith(l[f..], " Reads-Writes")
  }

  const StreamTriad := "Stream-triad like"

  predicate IsPeakData(l: string) {
    Contains(l, "ALL Reads") || ReadsWritesLine(l) || Contains(l, StreamTriad)
  }

  /** A data line's label, the trimmed text before its last colon, and its value, the
      first token after that colon; `None` without a colon or a number. */
  function PeakEntry(l: string): (r: Option<(string, Decimal)>)
    ensures r.Some? ==> ':' in l
  {
    var c := LastIndexOf(l, ':');
    if c < 0 then None
    else
      match ParseFloat(FirstPiece(Trim(l[c + 1..])))
      case Some(v) => Some((Trim(l[..c]), v))
      case None => None
  }

  /** A line printed as a trimmed label `name`, a colon, a space, a number and a
      colon-free tail that is empty or opens with whitespace (its units) reads back as
      that label and that number. The label is cut at the last colon, so it may hold
      colons itself. */
  lemma PeakEntryRoundTrip(name: string, v: Decimal, units: string)
    requires IsTrimmed(name)
    requires ':' !in units && (units == [] || IsSpace(units[0]))
    ensures PeakEntry(name + ": " + DecimalText(v) + units) == Some((name, v))
  {
    DecimalTextNoSpace(v);
    ReadPrinted(v);
    PeakEntryOfWord(name, DecimalText(v), units, v);
  }

  lemma PeakEntryOfWord(name: string, d: string, units: string, v: Decimal)
    requires IsTrimmed(name) && d != [] && NoSpace(d) && ':' !in d
    requires ':' !in units && (units == [] || IsSpace(units[0]))
    requires ParseFloat(d) == Some(v)
    ensures PeakEntry(name + ": " + d + units) == Some((name, v))
  {
    var rest := " " + d + units;
    var l := name + [':'] + rest;
    ColonThenRest(name, d, units);
    LastIndexOfJoin(name, ':', rest);
    JoinSides(name, ':', rest);
    TrimOfTrimmed(name);
    FirstPieceAfterSpace(d, units);
    PeakEntryAt(l, |name|, v);
  }

  lemma ColonThenRest(name: string, d: string, units: string)
    requires ':' !in d && ':' !in units
    ensures name + ": " + d + units == name + [':'] + (" " + d + units)
    ensures ':' !in " " + d + units
  {
  }

  lemma FirstPieceAfterSpace(d: string, units: string)
    requires d != [] && NoSpace(d) && (units == [] || IsSpace(units[0]))
    ensures FirstPiece(Trim(" " + d + units)) == d
  {
    FirstWordAfterSpace(d, units);
  }

  lemma PeakEntryAt(l: string, c: nat, v: Decimal)
    requires c == LastIndexOf(l, ':')
    requires ParseFloat(FirstPiece(Trim(l[c + 1..]))) == Some(v)
    ensures PeakEntry(l) == Some((Trim(l[..c]), v))
  {
  }

  /** What the scan needs to know about one line: the entry it contributes (data lines
      only), whether it is a data line, whether it is the "Stream-triad like" line, and
      whether, being no data line, it closes the list: non-blank, not starting with `-`
      and not mentioning "memory bandwidths" in any case. */
  datatype PeakLine = PeakLine(entry: Option<(string, Decimal)>, data: bool, triad: bool, closing: bool)

  function ClassifyPeak(l: string): (c: PeakLine)
    ensures c.entry.Some? ==> c.data
  {
    var data := IsPeakData(l);
    PeakLine(if data then PeakEntry(l) else None, data, Contains(l, StreamTriad),
             Trim(l) != "" && !StartsWith(l, "-") && !Contains(Lower(l), "memory bandwidths"))
  }

  function PeakLines(lines: seq<string>): (cls: seq<PeakLine>)
    ensures |cls| == |lines| && forall k :: 0 <= k < |lines| ==> cls[k] == ClassifyPeak(lines[k])
  {
    MapSeq(ClassifyPeak, lines)
  }

  function OneOf<T>(e: Option<T>): (r: seq<T>)
    ensures e.None? ==> r == []
    ensures e.Some? ==> r == [e.value]
  {
    match e
    case Some(x) => [x]
    case None => []
  }

  function Push(t: Labelled, e: Option<(string, Decimal)>): Labelled {
    match e
    case Some((name, v)) => Labelled(t.labels + [name], t.values + [v])
    case None => t
  }

  /** Whether the scan stops at a line, `seen` telling whether an entry is recorded:
      at the "Stream-triad like" data line, or, once an entry is recorded, at a
      closing line. */
  predicate Halts(c: PeakLine, seen: bool) {
    if c.data then c.triad else seen && c.closing
  }

  /** The scan over classified lines from `i`: the list, and the index it returns. */
  function PeakLoop(cls: seq<PeakLine>, i: nat, t: Labelled): (r: (Labelled, nat))
    requires i <= |cls|
    ensures i <= r.1 <= |cls|
    decreases |cls| - i
  {
    if i == |cls| then (t, i)
    else
      var t2 := Push(t, cls[i].entry);
      if Halts(cls[i], |t.labels| > 0) then (t2, i) else PeakLoop(cls, i + 1, t2)
  }

  /** `parsePeakBandwidths(lines, i, target)`: the list, and the index it returns, the
      stopping line's or `|lines|`. */
  function ParsePeakBandwidths(lines: seq<string>, i: nat, t: Labelled): (r: (Labelled, nat))
    requires i <= |lines|
    ensures i <= r.1 <= |lines|
  {
    PeakLoop(PeakLines(lines), i, t)
  }

  /** The entries of `cls`, in order. */
  function Entries(cls: seq<PeakLine>): (r: seq<(string, Decimal)>)
    ensures |r| <= |cls|
  {
    if cls == [] then [] else Entries(cls[..|cls| - 1]) + OneOf(cls[|cls| - 1].entry)
  }

  /** `t` with the entries `es` appended. */
  function PushAll(t: Labelled, es: seq<(string, Decimal)>): (r: Labelled)
    ensures |r.labels| == |t.labels| + |es| && |r.values| == |t.values| + |es|
  {
    Labelled(t.labels + seq(|es|, k requires 0 <= k < |es| => es[k].0),
             t.values + seq(|es|, k requires 0 <= k < |es| => es[k].1))
  }

  /** The entries come after the labels and values already there, in order. */
  lemma PushAllContent(t: Labelled, es: seq<(string, Decimal)>)
    ensures var r := PushAll(t, es);
      r.labels[..|t.labels|] == t.labels && r.values[..|t.values|] == t.values
      && forall k :: 0 <= k < |es| ==> r.labels[|t.labels| + k] == es[k].0 && r.values[|t.values| + k] == es[k].1
  {
  }

  /** Whether an entry is recorded before line `k` of a scan started at `i`. */
  predicate SeenBefore(cls: seq<PeakLine>, i: nat, k: nat, t: Labelled)
    requires i <= k <= |cls|
  {
    |t.labels| + |Entries(cls[i..k])| > 0
  }

  /** The lines a scan that returned `j` has examined end here. */
  function Through(n: nat, j: nat): nat {
    if j < n then j + 1 else j
  }

  lemma PushSnoc(t: Labelled, es: seq<(string, Decimal)>, e: Option<(string, Decimal)>)
    ensures Push(PushAll(t, es), e) == PushAll(t, es + OneOf(e))
  {
    var u := PushAll(t, es);
    var v := PushAll(t, es + OneOf(e));
    if e.Some? {
      assert u.labels + [e.value.0] == v.labels;
      assert u.values + [e.value.1] == v.values;
    } else {
      assert es + OneOf(e) == es;
    }
  }

  lemma EntriesSnoc(cls: seq<PeakLine>, i: nat, k: nat)
    requires i <= k < |cls|
    ensures Entries(cls[i..k + 1]) == Entries(cls[i..k]) + OneOf(cls[k].entry)
  {
    var cs := cls[i..k + 1];
    assert cs[..|cs| - 1] == cls[i..k];
    assert cs[|cs| - 1] == cls[k];
  }

  /** One step of the scan from line `k`, with the list built so far named. */
  lemma PeakStep(cls: seq<PeakLine>, i: nat, k: nat, t: Labelled)
    requires i <= k < |cls|
    ensures var u := PushAll(t, Entries(cls[i..k]));
      (|u.labels| > 0 <==> SeenBefore(cls, i, k, t))
      && Push(u, cls[k].entry) == PushAll(t, Entries(cls[i..k + 1]))
  {
    EntriesSnoc(cls, i, k);
    PushSnoc(t, Entries(cls[i..k]), cls[k].entry);
  }

  /** The scan from line `k`, started at `i` with `t`: what it has built by then. */
  function PeakAt(cls: seq<PeakLine>, i: nat, k: nat, t: Labelled): (r: (Labelled, nat))
    requires i <= k <= |cls|
  {
    PeakLoop(cls, k, PushAll(t, Entries(cls[i..k])))
  }

  /** One step of `PeakAt`: halting at line `k`, or going on at `k + 1`. */
  lemma PeakAtStep(cls: seq<PeakLine>, i: nat, k: nat, t: Labelled)
    requires i <= k < |cls|
    ensures Halts(cls[k], SeenBefore(cls, i, k, t)) ==>
      PeakAt(cls, i, k, t).0 == PushAll(t, Entries(cls[i..k + 1])) && PeakAt(cls, i, k, t).1 == k
    ensures !Halts(cls[k], SeenBefore(cls, i, k, t)) ==> PeakAt(cls, i, k, t) == PeakAt(cls, i, k + 1, t)
  {
    PeakStep(cls, i, k, t);
  }

  lemma {:induction false} PeakContent(cls: seq<PeakLine>, i: nat, k: nat, t: Labelled)
    requires i <= k <= |cls|
    ensures PeakAt(cls, i, k, t).0 == PushAll(t, Entries(cls[i..Through(|cls|, PeakAt(cls, i, k, t).1)]))
    decreases |cls| - k
  {
    if k < |cls| {
      PeakAtStep(cls, i, k, t);
      if !Halts(cls[k], SeenBefore(cls, i, k, t)) {
        PeakContent(cls, i, k + 1, t);
      }
    }
  }

  lemma {:induction false} PeakPassed(cls: seq<PeakLine>, i: nat, k: nat, t: Labelled, m: nat)
    requires i <= k <= |cls| && k <= m < PeakAt(cls, i, k, t).1
    ensures !Halts(cls[m], SeenBefore(cls, i, m, t))
    decreases m - k
  {
    PeakIndexStep(cls, i, k, t);
    if k < m {
      PeakPassed(cls, i, k + 1, t, m);
    }
  }

  /** The index half of `PeakAtStep`. */
  lemma PeakIndexStep(cls: seq<PeakLine>, i: nat, k: nat, t: Labelled)
    requires i <= k < |cls|
    ensures Halts(cls[k], SeenBefore(cls, i, k, t)) ==> PeakAt(cls, i, k, t).1 == k
    ensures !Halts(cls[k], SeenBefore(cls, i, k, t)) ==> PeakAt(cls, i, k, t).1 == PeakAt(cls, i, k + 1, t).1
  {
    PeakAtStep(cls, i, k, t);
  }

  lemma {:induction false} PeakStops(cls: seq<PeakLine>, i: nat, k: nat, t: Labelled)
    requires i <= k <= |cls|
    ensures var j := PeakAt(cls, i, k, t).1; j < |cls| ==> Halts(cls[j], SeenBefore(cls, i, j, t))
    decreases |cls| - k
  {
    if k < |cls| {
      PeakAtStep(cls, i, k, t);
      if !Halts(cls[k], SeenBefore(cls, i, k, t)) {
        PeakStops(cls, i, k + 1, t);
      }
    }
  }

  /** The scan appends, in order, the entry of every data line it examines. It passes
      over each line before the one it returns without halting there, and halts at
      that line when it is not the end. Labels and values stay paired. */
  lemma PeakScan(lines: seq<string>, i: nat, t: Labelled)
    requires i <= |lines|
    ensures var cls := PeakLines(lines); var r := ParsePeakBandwidths(lines, i, t);
      r.0 == PushAll(t, Entries(cls[i..Through(|lines|, r.1)]))
      && (forall m :: i <= m < r.1 ==> !Halts(cls[m], SeenBefore(cls, i, m, t)))
      && (r.1 < |lines| ==> Halts(cls[r.1], SeenBefore(cls, i, r.1, t)))
      && (|t.labels| == |t.values| ==> |r.0.labels| == |r.0.values|)
  {
    var cls := PeakLines(lines);
    assert cls[i..i] == [];
    assert PushAll(t, []) == t;
    var r := PeakAt(cls, i, i, t);
    assert r == ParsePeakBandwidths(lines, i, t);
    PeakContent(cls, i, i, t);
    PeakStops(cls, i, i, t);
    forall m | i <= m < r.1 ensures !Halts(cls[m], SeenBefore(cls, i, m, t)) {
      PeakPassed(cls, i, i, t, m);
    }
  }

  // ---------------------------------------------------------------------------
  // parseLoadedLatencies

  /** The column header, three spaces and four spaces apart. */
  const DelayHeader := "Delay   (ns)    MB/sec"

  /** The first line at or after `i` that starts with the column header, or `|lines|`. */
  function HeaderIndex(lines: seq<string>, i: nat): (h: nat)
    requires i <= |lines|
    ensures i <= h <= |lines|
    ensures h < |lines| ==> StartsWith(lines[h], DelayHeader)
    decreases |lines| - i
  {
    if i < |lines| && !StartsWith(lines[i], DelayHeader) then HeaderIndex(lines, i + 1) else i
  }

  /** No line the search passes over starts with the column header. */
  lemma {:induction false} HeaderIndexSkips(lines: seq<string>, i: nat)
    requires i <= |lines|
    ensures forall k :: i <= k < HeaderIndex(lines, i) ==> !StartsWith(lines[k], DelayHeader)
    decreases |lines| - i
  {
    if i < |lines| && !StartsWith(lines[i], DelayHeader) {
      HeaderIndexSkips(lines, i + 1);
    }
  }

  /** A sample line: non-blank, and its trim splits into exactly three pieces. */
  predicate IsSample(l: string) {
    l != "" && Trim(l) != "" && |SplitTrimmed(Trim(l))| == 3
  }

  /** A sample line's delay (`parseInt`), latency and bandwidth (`parseFloat`). */
  function SampleOf(l: string): (Option<int>, Cell, Cell) {
    var parts := SplitTrimmed(Trim(l));
    if |parts| == 3 then (ParseInt(parts[0]), FloatCell(parts[1]), FloatCell(parts[2]))
    else (None, NaN, NaN)
  }

  function DelayOf(l: string): Option<int> { SampleOf(l).0 }
  function LatencyOfSample(l: string): Cell { SampleOf(l).1 }
  function BandwidthOf(l: string): Cell { SampleOf(l).2 }

  function PushSample(c: Columns, l: string): Columns {
    Columns(c.delays + [DelayOf(l)], c.latencies + [LatencyOfSample(l)], c.bandwidths + [BandwidthOf(l)])
  }

  /** The sample loop from line `i`, which may lie past the end. */
  function SampleLoop(lines: seq<string>, i: nat, c: Columns): (r: (Columns, nat))
    ensures i <= r.1
    ensures i <= |lines| ==> r.1 <= |lines|
    ensures i >= |lines| ==> r == (c, i)
  {
    TakeRun(lines, i, c, IsSample, PushSample)
  }

  /** `parseLoadedLatencies(lines, start, target)`: the columns, and the index of the
      last sample, or of the line after the header without samples. */
  function ParseLoadedLatencies(lines: seq<string>, start: nat, c: Columns): (r: (Columns, nat))
    requires start <= |lines|
    ensures start < r.1 <= |lines| + 1
  {
    SamplesAfter(lines, HeaderIndex(lines, start), c)
  }

  /** The part of `parseLoadedLatencies` after the header found at line `h`. */
  function SamplesAfter(lines: seq<string>, h: nat, c: Columns): (r: (Columns, nat))
    requires h <= |lines|
    ensures h < r.1 <= |lines| + 1
  {
    var m := SampleLoop(lines, h + 2, c);
    (m.0, m.1 - 1)
  }

  /** The first line at or after `i` that is not a sample, or `|lines|`. */
  function SampleEnd(lines: seq<string>, i: nat): (r: nat)
    requires i <= |lines|
    ensures i <= r <= |lines|
  {
    RunEnd(lines, i, IsSample)
  }

  /** Every line of the run is a sample, and the line that ends it is not. */
  lemma SampleEndStops(lines: seq<string>, i: nat)
    requires i <= |lines|
    ensures forall k :: i <= k < SampleEnd(lines, i) ==> IsSample(lines[k])
    ensures SampleEnd(lines, i) < |lines| ==> !IsSample(lines[SampleEnd(lines, i)])
  {
    RunEndStops(lines, i, IsSample);
  }

  /** `c` with the samples of `ls` appended; the three columns grow together. */
  function AppendSamples(c: Columns, ls: seq<string>): (r: Columns)
    ensures |r.delays| == |c.delays| + |ls| && |r.latencies| == |c.latencies| + |ls|
    ensures |r.bandwidths| == |c.bandwidths| + |ls|
  {
    Columns(c.delays + MapSeq(DelayOf, ls), c.latencies + MapSeq(LatencyOfSample, ls),
            c.bandwidths + MapSeq(BandwidthOf, ls))
  }

  lemma AppendCons(c: Columns, lines: seq<string>, i: nat, e: nat)
    requires i < e <= |lines|
    ensures AppendSamples(PushSample(c, lines[i]), lines[i + 1..e]) == AppendSamples(c, lines[i..e])
  {
    var l := lines[i];
    MapSlice(DelayOf, lines, i, e);
    MapSlice(LatencyOfSample, lines, i, e);
    MapSlice(BandwidthOf, lines, i, e);
    AppendAssoc(c.delays, DelayOf(l), MapSeq(DelayOf, lines[i + 1..e]));
    AppendAssoc(c.latencies, LatencyOfSample(l), MapSeq(LatencyOfSample, lines[i + 1..e]));
    AppendAssoc(c.bandwidths, BandwidthOf(l), MapSeq(BandwidthOf, lines[i + 1..e]));
  }

  lemma SampleLoopRows(lines: seq<string>, i: nat, c: Columns)
    requires i <= |lines|
    ensures var r := SampleLoop(lines, i, c);
      r.0 == AppendSamples(c, lines[i..SampleEnd(lines, i)]) && r.1 == SampleEnd(lines, i)
  {
    TakeRunIsRun(lines, i, c, IsSample, PushSample);
    SamplesPushed(c, lines[i..SampleEnd(lines, i)]);
  }

  /** Pushing the samples of `ls` one at a time appends them to the columns. */
  lemma {:induction false} SamplesPushed(c: Columns, ls: seq<string>)
    ensures PushEach(c, ls, PushSample) == AppendSamples(c, ls)
    decreases |ls|
  {
    if ls == [] {
      EmptyAppend(c);
    } else {
      SamplesPushed(PushSample(c, ls[0]), ls[1..]);
      assert ls[0..|ls|] == ls;
      AppendCons(c, ls, 0, |ls|);
    }
  }

  /** The two halves of `ParseLoadedLatencies`, named, for the header found at `h`. */
  lemma LoadedFrom(lines: seq<string>, start: nat, c: Columns, h: nat)
    requires start <= |lines| && h == HeaderIndex(lines, start)
    ensures ParseLoadedLatencies(lines, start, c).0 == SampleLoop(lines, h + 2, c).0
    ensures ParseLoadedLatencies(lines, start, c).1 + 1 == SampleLoop(lines, h + 2, c).1
  {
    LoadedAtHeader(lines, start, c, h);
    SamplesAfterParts(lines, h, c);
  }

  lemma LoadedAtHeader(lines: seq<string>, start: nat, c: Columns, h: nat)
    requires start <= |lines| && h == HeaderIndex(lines, start)
    ensures ParseLoadedLatencies(lines, start, c) == SamplesAfter(lines, h, c)
  {
  }

  lemma SamplesAfterParts(lines: seq<string>, h: nat, c: Columns)
    requires h <= |lines|
    ensures SamplesAfter(lines, h, c).0 == SampleLoop(lines, h + 2, c).0
    ensures SamplesAfter(lines, h, c).1 + 1 == SampleLoop(lines, h + 2, c).1
  {
  }

  lemma EmptyAppend(c: Columns)
    ensures AppendSamples(c, []) == c
  {
    assert c.delays + [] == c.delays;
    assert c.latencies + [] == c.latencies;
    assert c.bandwidths + [] == c.bandwidths;
  }

  /** After the first column header at or after `start`, the loop skips the header and
      the rule under it, then appends one sample per line up to the first line that is
      not a sample, and returns the index of the last line it read. */
  lemma LoadedSamples(lines: seq<string>, start: nat, c: Columns)
    requires start <= |lines|
    ensures var h := HeaderIndex(lines, start);
      h + 2 <= |lines| ==>
        var e := SampleEnd(lines, h + 2);
        var r := ParseLoadedLatencies(lines, start, c);
        r.0 == AppendSamples(c, lines[h + 2..e]) && r.1 == e - 1
  {
    hide *;
    var h := HeaderIndex(lines, start);
    if h + 2 <= |lines| {
      LoadedSamplesAt(lines, start, c, h);
    }
  }

  /** `LoadedSamples` for the header at line `h`. */
  lemma LoadedSamplesAt(lines: seq<string>, start: nat, c: Columns, h: nat)
    requires start <= |lines| && h == HeaderIndex(lines, start) && h + 2 <= |lines|
    ensures var e := SampleEnd(lines, h + 2);
      var r := ParseLoadedLatencies(lines, start, c);
      r.0 == AppendSamples(c, lines[h + 2..e]) && r.1 == e - 1
  {
    hide *;
    LoadedFrom(lines, start, c, h);
    SampleLoopRows(lines, h + 2, c);
  }

  /** Without a column header the columns are left as they were, and the index returned
      lies one past the end. */
  lemma NoDelayHeader(lines: seq<string>, start: nat, c: Columns)
    requires start <= |lines|
    requires forall k :: start <= k < |lines| ==> !StartsWith(lines[k], DelayHeader)
    ensures var r := ParseLoadedLatencies(lines, start, c);
      r.0 == c && r.1 == |lines| + 1
  {
    var h := HeaderIndex(lines, start);
    assert h == |lines|;
  }

  // ---------------------------------------------------------------------------
  // parseCacheToCache

  const HitText := "Local Socket L2->L2 HIT  latency"
  const HitmText := "Local Socket L2->L2 HITM latency"
  const WriterHeading := "Remote Socket L2->L2 HITM latency (data address homed in writer socket)"
  const ReaderHeading := "Remote Socket L2->L2 HITM latency (data address homed in reader socket)"

  predicate HitLine(l: string) {
    Contains(l, HitText)
  }

  predicate HitmLine(l: string) {
    !Contains(l, HitText) && Contains(l, HitmText)
  }

  /** A line that opens one of the two remote tables. */
  predicate HeadingLine(l: string) {
    Contains(l, WriterHeading) || Contains(l, ReaderHeading)
  }

  /** `parseFloat` of the line's last piece. */
  function LatencyOf(l: string): Cell {
    FloatCell(RawLastPiece(l))
  }

  /** `parseCacheToCache(lines, i, target)`: the target and the index it returns. */
  function CacheLoop(lines: seq<string>, i: nat, t: CacheData): (r: Result<(CacheData, nat)>)
    ensures r.Ok? ==> i <= r.value.1 && (i <= |lines| ==> r.value.1 <= |lines|)
    decreases |lines| - i
  {
    if i >= |lines| then Ok((t, i))
    else
      var l := lines[i];
      if HitLine(l) then CacheLoop(lines, i + 1, t.(localHit := LatencyOf(l)))
      else if Contains(l, HitmText) then CacheLoop(lines, i + 1, t.(localHitm := LatencyOf(l)))
      else if Contains(l, WriterHeading) then
        match ParseMatrixData(lines, i + 2, t.writer)
        case Thrown(m) => Thrown(m)
        case Ok(x) => CacheLoop(lines, x.1 + 1, t.(writer := x.0))
      else if Contains(l, ReaderHeading) then
        match ParseMatrixData(lines, i + 2, t.reader)
        case Thrown(m) => Thrown(m)
        case Ok(x) => Ok((t.(reader := x.0), x.1))
      else CacheLoop(lines, i + 1, t)
  }

  /** The latency a HIT line reports. */
  function HitValue(l: string): Option<Cell> {
    if HitLine(l) then Some(LatencyOf(l)) else None
  }

  /** The latency a HITM line reports. */
  function HitmValue(l: string): Option<Cell> {
    if HitmLine(l) then Some(LatencyOf(l)) else None
  }

  /** The latency on the last HIT line in `lines[i..]`, else `d`. */
  function LatestHit(lines: seq<string>, i: nat, d: Cell): (r: Cell)
    requires i <= |lines|
    ensures (forall k :: i <= k < |lines| ==> !HitLine(lines[k])) ==> r == d
    ensures i < |lines| && HitLine(lines[|lines| - 1]) ==> r == LatencyOf(lines[|lines| - 1])
  {
    var xs := MapSeq(HitValue, lines);
    assert forall k :: i <= k < |lines| ==> (xs[k].None? <==> !HitLine(lines[k]));
    LastSome(xs, i, |lines|, d)
  }

  /** The latency on the last HITM line in `lines[i..]`, else `d`. */
  function LatestHitm(lines: seq<string>, i: nat, d: Cell): (r: Cell)
    requires i <= |lines|
    ensures (forall k :: i <= k < |lines| ==> !HitmLine(lines[k])) ==> r == d
    ensures i < |lines| && HitmLine(lines[|lines| - 1]) ==> r == LatencyOf(lines[|lines| - 1])
  {
    var xs := MapSeq(HitmValue, lines);
    assert forall k :: i <= k < |lines| ==> (xs[k].None? <==> !HitmLine(lines[k]));
    LastSome(xs, i, |lines|, d)
  }

  /** The latest HIT latency is that of the HIT line no later line repeats. */
  lemma LatestHitIs(lines: seq<string>, i: nat, d: Cell, k: nat)
    requires i <= k < |lines| && HitLine(lines[k])
    requires forall m :: k < m < |lines| ==> !HitLine(lines[m])
    ensures LatestHit(lines, i, d) == LatencyOf(lines[k])
  {
    var xs := MapSeq(HitValue, lines);
    assert forall m :: k < m < |lines| ==> xs[m].None?;
    LastSomeIs(xs, i, |lines|, d, k);
  }

  /** The latest HITM latency is that of the HITM line no later line repeats. */
  lemma LatestHitmIs(lines: seq<string>, i: nat, d: Cell, k: nat)
    requires i <= k < |lines| && HitmLine(lines[k])
    requires forall m :: k < m < |lines| ==> !HitmLine(lines[m])
    ensures LatestHitm(lines, i, d) == LatencyOf(lines[k])
  {
    var xs := MapSeq(HitmValue, lines);
    assert forall m :: k < m < |lines| ==> xs[m].None?;
    LastSomeIs(xs, i, |lines|, d, k);
  }

  /** Without a remote heading the loop runs to the end and keeps, for each local
      latency, the value on the last line that reports it. */
  lemma {:induction false} CacheLocal(lines: seq<string>, i: nat, t: CacheData)
    requires i <= |lines|
    requires forall k :: i <= k < |lines| ==> !HeadingLine(lines[k])
    ensures CacheLoop(lines, i, t)
      == Ok((t.(localHit := LatestHit(lines, i, t.localHit), localHitm := LatestHitm(lines, i, t.localHitm)), |lines|))
    decreases |lines| - i
  {
    if i < |lines| {
      var l := lines[i];
      assert !HeadingLine(l);
      LastSomeShift(MapSeq(HitValue, lines), i, |lines|, t.localHit);
      LastSomeShift(MapSeq(HitmValue, lines), i, |lines|, t.localHitm);
      var t2 := t.(localHit := if HitLine(l) then LatencyOf(l) else t.localHit,
                   localHitm := if HitmLine(l) then LatencyOf(l) else t.localHitm);
      CacheLocal(lines, i + 1, t2);
      if HitLine(l) {
        assert t2 == t.(localHit := LatencyOf(l));
      } else if Contains(l, HitmText) {
        assert t2 == t.(localHitm := LatencyOf(l));
      } else {
        assert t2 == t;
      }
    }
  }

  /** The reader table is read from two lines below its heading, and the loop stops
      there; with no line at that place the read throws. */
  lemma CacheReader(lines: seq<string>, i: nat, t: CacheData)
    requires i < |lines|
    requires !Contains(lines[i], HitText) && !Contains(lines[i], HitmText)
    requires !Contains(lines[i], WriterHeading) && Contains(lines[i], ReaderHeading)
    ensures CacheLoop(lines, i, t).Thrown? <==> i + 2 >= |lines|
    ensures i + 2 < |lines| ==>
      var e := RowEnd(lines, i + 3);
      CacheLoop(lines, i, t)
        == Ok((t.(reader := Grid(HeaderNodes(lines[i + 2]), t.reader.values + RowsOf(lines[i + 3..e]))), e - 1))
  {
    hide CacheLoop, Contains, HeaderNodes, RowsOf, RowEnd, ParseMatrixData;
    var m := ParseMatrixData(lines, i + 2, t.reader);
    if i + 2 < |lines| {
      var e := RowEnd(lines, i + 3);
      MatrixDataIs(lines, i + 2, t.reader, e, Grid(HeaderNodes(lines[i + 2]), t.reader.values + RowsOf(lines[i + 3..e])));
    }
    ReaderTurn(lines, i, t, m);
  }

  /** One turn of the loop at a reader heading, for the outcome `m` of the table read. */
  lemma ReaderTurn(lines: seq<string>, i: nat, t: CacheData, m: Result<(Grid, nat)>)
    requires i < |lines|
    requires !Contains(lines[i], HitText) && !Contains(lines[i], HitmText)
    requires !Contains(lines[i], WriterHeading) && Contains(lines[i], ReaderHeading)
    requires m == ParseMatrixData(lines, i + 2, t.reader)
    ensures m.Thrown? ==> CacheLoop(lines, i, t).Thrown?
    ensures m.Ok? ==> CacheLoop(lines, i, t) == Ok((t.(reader := m.value.0), m.value.1))
  {
    hide Contains, ParseMatrixData, LatencyOf;
  }

  /** The writer table is read from two lines below its heading, and the loop goes on
      from the first line after it that is not a row; with no line at that place the
      read throws. */
  lemma CacheWriter(lines: seq<string>, i: nat, t: CacheData)
    requires i < |lines|
    requires !Contains(lines[i], HitText) && !Contains(lines[i], HitmText) && Contains(lines[i], WriterHeading)
    ensures i + 2 >= |lines| ==> CacheLoop(lines, i, t).Thrown?
    ensures i + 2 < |lines| ==>
      var e := RowEnd(lines, i + 3);
      CacheLoop(lines, i, t)
        == CacheLoop(lines, e, t.(writer := Grid(HeaderNodes(lines[i + 2]), t.writer.values + RowsOf(lines[i + 3..e]))))
  {
    if i + 2 < |lines| {
      var e := RowEnd(lines, i + 3);
      var g := Grid(HeaderNodes(lines[i + 2]), t.writer.values + RowsOf(lines[i + 3..e]));
      MatrixDataIs(lines, i + 2, t.writer, e, g);
      WriterStep(lines, i, t, e, g);
    } else {
      WriterTurn(lines, i, t, ParseMatrixData(lines, i + 2, t.writer));
    }
  }

  /** `MatrixData` as one equation, for the end `e` of the rows and the grid `x`. */
  lemma MatrixDataIs(lines: seq<string>, start: nat, g: Grid, e: nat, x: Grid)
    requires start < |lines| && e == RowEnd(lines, start + 1)
    requires x == Grid(HeaderNodes(lines[start]), g.values + RowsOf(lines[start + 1..e]))
    ensures ParseMatrixData(lines, start, g) == Ok((x, e - 1))
  {
    MatrixData(lines, start, g);
  }

  /** One turn of the loop at a writer heading, for the outcome `m` of the table read. */
  lemma WriterTurn(lines: seq<string>, i: nat, t: CacheData, m: Result<(Grid, nat)>)
    requires i < |lines|
    requires !Contains(lines[i], HitText) && !Contains(lines[i], HitmText) && Contains(lines[i], WriterHeading)
    requires m == ParseMatrixData(lines, i + 2, t.writer)
    ensures m.Thrown? ==> CacheLoop(lines, i, t).Thrown?
    ensures m.Ok? ==> CacheLoop(lines, i, t) == CacheLoop(lines, m.value.1 + 1, t.(writer := m.value.0))
  {
    hide Contains, ParseMatrixData, LatencyOf;
  }

  lemma WriterStep(lines: seq<string>, i: nat, t: CacheData, e: nat, g: Grid)
    requires i + 2 < |lines|
    requires !Contains(lines[i], HitText) && !Contains(lines[i], HitmText) && Contains(lines[i], WriterHeading)
    requires ParseMatrixData(lines, i + 2, t.writer) == Ok((g, e - 1)) && e > 0
    ensures CacheLoop(lines, i, t) == CacheLoop(lines, e, t.(writer := g))
  {
    hide CacheLoop, Contains, ParseMatrixData, LatencyOf;
    WriterTurn(lines, i, t, ParseMatrixData(lines, i + 2, t.writer));
  }

  // ---------------------------------------------------------------------------
  // parseMLCOutput

  const IdleMarker := "Measuring idle latencies for random access"
  const PeakMarker := "Measuring Peak Injection Memory Bandwidths"
  const NodeMarker := "Measuring Memory Bandwidths between nodes"
  const LoadedMarker := "Measuring Loaded Latencies for the system"
  const CacheMarker := "Measuring cache-to-cache transfer latency"

  /** A line that starts one of the five scanners. */
  predicate MarkerLine(l: string) {
    Contains(l, IdleMarker) || Contains(l, PeakMarker) || Contains(l, NodeMarker)
    || Contains(l, LoadedMarker) || Contains(l, CacheMarker)
  }

  /** What the walk does at line `i`: the result object after the scanner the line
      starts, if any, and the line to go on from, one past the index the scanner
      returns. */
  function Step(lines: seq<string>, i: nat, d: LegacyData): (r: Result<(LegacyData, nat)>)
    requires i < |lines|
    ensures r.Ok? ==> i < r.value.1
  {
    var l := lines[i];
    if Contains(l, IdleMarker) then
      match ParseMatrixData(lines, i + 2, d.idle)
      case Thrown(m) => Thrown(m)
      case Ok(x) => Ok((d.(idle := x.0), x.1 + 1))
    else if Contains(l, PeakMarker) then
      var x := ParsePeakBandwidths(lines, i, d.peak);
      Ok((d.(peak := x.0), x.1 + 1))
    else if Contains(l, NodeMarker) then
      match ParseMatrixData(lines, i + 3, d.node)
      case Thrown(m) => Thrown(m)
      case Ok(x) => Ok((d.(node := x.0), x.1 + 1))
    else if Contains(l, LoadedMarker) then
      var x := ParseLoadedLatencies(lines, i, d.loaded);
      Ok((d.(loaded := x.0), x.1 + 1))
    else if Contains(l, CacheMarker) then
      match CacheLoop(lines, i, d.cache)
      case Thrown(m) => Thrown(m)
      case Ok(x) => Ok((d.(cache := x.0), x.1 + 1))
    else Ok((d, i + 1))
  }

  /** The walk from line `i`; an exception ends it. */
  function Walk(lines: seq<string>, i: nat, d: LegacyData): Result<LegacyData>
    decreases |lines| - i
  {
    if i >= |lines| then Ok(d)
    else
      match Step(lines, i, d)
      case Thrown(m) => Thrown(m)
      case Ok(x) => Walk(lines, x.1, x.0)
  }

  /** `parseMLCOutput(output)` of script.js: the report split at `\n`, every line
      trimmed, then walked from the first line. */
  function LegacyParse(output: string): Result<LegacyData> {
    Walk(TrimmedLines(output), 0, Start)
  }

  /** The report's lines, each trimmed. */
  function TrimmedLines(output: string): (ts: seq<string>)
    ensures |ts| == |Split(output, '\n')|
    ensures forall k :: 0 <= k < |ts| ==> ts[k] == Trim(Split(output, '\n')[k])
  {
    var parts := Split(output, '\n');
    seq(|parts|, k requires 0 <= k < |parts| => Trim(parts[k]))
  }

  /** The peak list pairs every label with a value, and the three loaded columns have
      one entry per sample. */
  predicate Paired(d: LegacyData) {
    |d.peak.labels| == |d.peak.values|
    && |d.loaded.delays| == |d.loaded.latencies| == |d.loaded.bandwidths|
  }

  lemma StepPaired(lines: seq<string>, i: nat, d: LegacyData)
    requires i < |lines| && Paired(d)
    ensures Step(lines, i, d).Ok? ==> Paired(Step(lines, i, d).value.0)
  {
    var l := lines[i];
    if !Contains(l, IdleMarker) && Contains(l, PeakMarker) {
      PeakScan(lines, i, d.peak);
    } else if !Contains(l, IdleMarker) && !Contains(l, NodeMarker) && Contains(l, LoadedMarker) {
      LoadedPaired(lines, i, d.loaded);
    }
  }

  /** The walk keeps the lists paired. */
  lemma {:induction false} WalkPaired(lines: seq<string>, i: nat, d: LegacyData)
    requires Paired(d)
    ensures Walk(lines, i, d).Ok? ==> Paired(Walk(lines, i, d).value)
    decreases |lines| - i
  {
    if i < |lines| {
      StepPaired(lines, i, d);
      var r := Step(lines, i, d);
      if r.Ok? {
        WalkPaired(lines, r.value.1, r.value.0);
      }
    }
  }

  lemma LoadedPaired(lines: seq<string>, start: nat, c: Columns)
    requires start <= |lines|
    requires |c.delays| == |c.latencies| == |c.bandwidths|
    ensures var r := ParseLoadedLatencies(lines, start, c).0;
      |r.delays| == |r.latencies| == |r.bandwidths|
  {
    var h := HeaderIndex(lines, start);
    LoadedFrom(lines, start, c, h);
    if h + 2 <= |lines| {
      LoadedSamples(lines, start, c);
    } else {
      assert SampleLoop(lines, h + 2, c).0 == c;
    }
  }

  /** A report without marker lines leaves the result object as it was. */
  lemma {:induction false} NoMarkersNoData(lines: seq<string>, i: nat, d: LegacyData)
    requires forall k :: i <= k < |lines| ==> !MarkerLine(lines[k])
    ensures Walk(lines, i, d) == Ok(d)
    decreases |lines| - i
  {
    if i < |lines| {
      assert !MarkerLine(lines[i]);
      assert Step(lines, i, d) == Ok((d, i + 1));
      NoMarkersNoData(lines, i + 1, d);
    }
  }

  /** A step that does not throw hands the walk on to the line it names. */
  lemma WalkOn(lines: seq<string>, i: nat, d: LegacyData)
    requires i < |lines| && Step(lines, i, d).Ok?
    ensures Walk(lines, i, d) == Walk(lines, Step(lines, i, d).value.1, Step(lines, i, d).value.0)
  {
  }

  lemma StepIdle(lines: seq<string>, i: nat, d: LegacyData)
    requires i < |lines| && Contains(lines[i], IdleMarker)
    ensures Step(lines, i, d).Thrown? <==> i + 2 >= |lines|
    ensures i + 2 < |lines| ==>
      var r := Step(lines, i, d).value; var e := RowEnd(lines, i + 3);
      r.1 == e && r.0 == d.(idle := Grid(HeaderNodes(lines[i + 2]), d.idle.values + RowsOf(lines[i + 3..e])))
  {
    if i + 2 < |lines| {
      MatrixData(lines, i + 2, d.idle);
    }
  }

  /** The idle table's header is read two lines below the marker and its rows from
      the line after that; the walk resumes at the first line that is not a row. A
      marker within two lines of the end throws. */
  lemma IdleAt(lines: seq<string>, i: nat, d: LegacyData)
    requires i < |lines| && Contains(lines[i], IdleMarker)
    ensures i + 2 >= |lines| ==> Walk(lines, i, d).Thrown?
    ensures i + 2 < |lines| ==>
      var e := RowEnd(lines, i + 3);
      Walk(lines, i, d)
        == Walk(lines, e, d.(idle := Grid(HeaderNodes(lines[i + 2]), d.idle.values + RowsOf(lines[i + 3..e]))))
  {
    StepIdle(lines, i, d);
    if i + 2 < |lines| {
      WalkOn(lines, i, d);
    }
  }

  lemma StepNode(lines: seq<string>, i: nat, d: LegacyData)
    requires i < |lines| && Contains(lines[i], NodeMarker)
    requires !Contains(lines[i], IdleMarker) && !Contains(lines[i], PeakMarker)
    ensures Step(lines, i, d).Thrown? <==> i + 3 >= |lines|
    ensures i + 3 < |lines| ==>
      var r := Step(lines, i, d).value; var e := RowEnd(lines, i + 4);
      r.1 == e && r.0 == d.(node := Grid(HeaderNodes(lines[i + 3]), d.node.values + RowsOf(lines[i + 4..e])))
  {
    if i + 3 < |lines| {
      MatrixData(lines, i + 3, d.node);
    }
  }

  /** The node-to-node table's header is read three lines below its marker. */
  lemma NodeAt(lines: seq<string>, i: nat, d: LegacyData)
    requires i < |lines| && Contains(lines[i], NodeMarker)
    requires !Contains(lines[i], IdleMarker) && !Contains(lines[i], PeakMarker)
    ensures i + 3 >= |lines| ==> Walk(lines, i, d).Thrown?
    ensures i + 3 < |lines| ==>
      var e := RowEnd(lines, i + 4);
      Walk(lines, i, d)
        == Walk(lines, e, d.(node := Grid(HeaderNodes(lines[i + 3]), d.node.values + RowsOf(lines[i + 4..e]))))
  {
    StepNode(lines, i, d);
    if i + 3 < |lines| {
      WalkOn(lines, i, d);
    }
  }

  /** The cache-to-cache scan starts on its marker line itself; an exception it
      throws ends the walk, and otherwise the walk goes on from the line after the
      one the scan returns, with the scan's latencies and tables stored. */
  lemma CacheAt(lines: seq<string>, i: nat, d: LegacyData)
    requires i < |lines| && Contains(lines[i], CacheMarker)
    requires !Contains(lines[i], IdleMarker) && !Contains(lines[i], PeakMarker)
    requires !Contains(lines[i], NodeMarker) && !Contains(lines[i], LoadedMarker)
    ensures CacheLoop(lines, i, d.cache).Thrown? ==> Walk(lines, i, d).Thrown?
    ensures CacheLoop(lines, i, d.cache).Ok? ==>
      var x := CacheLoop(lines, i, d.cache).value;
      Walk(lines, i, d) == Walk(lines, x.1 + 1, d.(cache := x.0))
  {
    StepCache(lines, i, d);
    if CacheLoop(lines, i, d.cache).Ok? {
      WalkOn(lines, i, d);
    }
  }

  lemma StepCache(lines: seq<string>, i: nat, d: LegacyData)
    requires i < |lines| && Contains(lines[i], CacheMarker)
    requires !Contains(lines[i], IdleMarker) && !Contains(lines[i], PeakMarker)
    requires !Contains(lines[i], NodeMarker) && !Contains(lines[i], LoadedMarker)
    ensures CacheLoop(lines, i, d.cache).Thrown? ==> Step(lines, i, d).Thrown?
    ensures CacheLoop(lines, i, d.cache).Ok? ==>
      Step(lines, i, d).Ok? && Step(lines, i, d).value.0 == d.(cache := CacheLoop(lines, i, d.cache).value.0)
      && Step(lines, i, d).value.1 == CacheLoop(lines, i, d.cache).value.1 + 1
  {
  }

  /** When the peak scan starts at a marker line it passes over, reads one entry from
      the next line and meets a closing line right after, it stops at that closing
      line and returns its index, so the walk goes on from the line after it. When the
      closing line is itself a marker, such as the loaded-latency marker, that marker
      is never dispatched and its section is not read. */
  lemma PeakSwallowsClosingLine(lines: seq<string>, i: nat, d: LegacyData)
    requires i + 2 < |lines|
    requires Contains(lines[i], PeakMarker) && !Contains(lines[i], IdleMarker)
    requires !ClassifyPeak(lines[i]).data && !ClassifyPeak(lines[i]).closing
    requires IsPeakData(lines[i + 1]) && !Contains(lines[i + 1], StreamTriad) && PeakEntry(lines[i + 1]).Some?
    requires !ClassifyPeak(lines[i + 2]).data && ClassifyPeak(lines[i + 2]).closing
    ensures Step(lines, i, d).Ok?
    ensures Step(lines, i, d).value.1 == i + 3
    ensures Step(lines, i, d).value.0 == d.(peak := Push(d.peak, PeakEntry(lines[i + 1])))
    ensures Walk(lines, i, d) == Walk(lines, i + 3, d.(peak := Push(d.peak, PeakEntry(lines[i + 1]))))
  {
    var cls := PeakLines(lines);
    var t1 := Push(d.peak, PeakEntry(lines[i + 1]));
    assert cls[i].entry == None;
    assert Push(d.peak, None) == d.peak;
    assert cls[i + 1].entry == PeakEntry(lines[i + 1]);
    assert |t1.labels| > 0;
    var r := PeakLoop(cls, i, d.peak);
    assert r == PeakLoop(cls, i + 1, d.peak);
    assert r == PeakLoop(cls, i + 2, t1);
    assert r.0 == t1 && r.1 == i + 2;
    WalkOn(lines, i, d);
  }

  /** A report none of whose lines names a section leaves every table empty and
      both local latencies `null`. */
  lemma LegacyNoMarkers(output: string)
    requires forall k :: 0 <= k < |Split(output, '\n')| ==> !MarkerLine(Trim(Split(output, '\n')[k]))
    ensures LegacyParse(output) == Ok(Start)
  {
    NoMarkersNoData(TrimmedLines(output), 0, Start);
  }

  /** Whenever the legacy reader returns, its peak labels and values pair up and its
      three loaded-latency columns have the same length. */
  lemma LegacyPaired(output: string)
    ensures LegacyParse(output).Ok? ==> Paired(LegacyParse(output).value)
  {
    WalkPaired(TrimmedLines(output), 0, Start);
  }
}
