/**
 The node-indexed matrix reader `parseMatrixSection` (parser.js): it finds the node
 numbers in a "Numa node" header line, or infers them from the first data row, and
 collects one row of cells per data line, each exactly as wide as the node list.
 */
module MatrixSection {
  import opened Options
  import opened Text
  import opened Numbers
  import opened Runs

  /** The `{nodes, matrix}` object the reader returns. */
  datatype NodeMatrix = NodeMatrix(nodes: seq<int>, matrix: seq<seq<Cell>>)

  /** A line every scan of a matrix section passes over: blank, a `===` rule or a `---N` divider. */
  predicate Skippable(t: string) {
    t == "" || StartsWith(t, "===") || StartsWith(t, "---N")
  }

  /** A summary line the row scan ignores: it mentions "average" or "total" in any case. */
  predicate IsSummary(t: string) {
    Contains(Lower(t), "average") || Contains(Lower(t), "total")
  }

  /** `t` matches `^[-=]+$`. */
  predicate IsRule(t: string) {
    |t| > 0 && forall k :: 0 <= k < |t| ==> t[k] == '-' || t[k] == '='
  }

  // ---------------------------------------------------------------------------
  // The header `(?:Numa node|Reader Numa Node|Writer Numa Node)\s+((?:\s*\d+\s*)+)$`, case-insensitive

  predicate IsNodeListChar(c: char) {
    IsSpace(c) || IsDigit(c)
  }

  /** What may follow a header keyword up to the end of the line: whitespace, then
      only whitespace and digits with at least one digit. */
  predicate NodeTail(s: string) {
    |s| > 0 && IsSpace(s[0]) && AllChars(s, IsNodeListChar) && !AllSpace(s)
  }

  /** A node-list capture: a digit, then only digits and whitespace. */
  predicate NodeList(g: string) {
    |g| > 0 && IsDigit(g[0]) && AllChars(g, IsNodeListChar)
  }

  /** The node-list capture when the keyword `kw` (written in lower case) matches at `p`. */
  function KeywordTail(t: string, p: nat, kw: string): (r: Option<string>)
    requires p <= |t|
    ensures r.Some? ==> StartsWithNoCase(t[p..], kw) && NodeTail(t[p + |kw|..]) && NodeList(r.value)
  {
    if StartsWithNoCase(t[p..], kw) && NodeTail(t[p + |kw|..]) then
      var q := SkipSpaces(t, p + |kw|);
      NodeTailCapture(t, p + |kw|);
      Some(t[q..])
    else None
  }

  /** After the whitespace that opens a node tail comes a node list. */
  lemma NodeTailCapture(t: string, i: nat)
    requires i <= |t| && NodeTail(t[i..])
    ensures NodeList(t[SkipSpaces(t, i)..])
  {
    var s := t[i..];
    var q := SkipSpaces(t, i);
    var k :| 0 <= k < |s| && !IsSpace(s[k]);
    assert s[k] == t[i + k];
    SkipSpacesStops(t, i, i + k);
    assert t[q] == s[q - i];
    var g := t[q..];
    forall m | 0 <= m < |g| ensures IsNodeListChar(g[m]) {
      assert g[m] == s[q - i + m];
    }
  }

  /** The header alternatives tried in order at position `p`. */
  function HeaderAt(t: string, p: nat): (r: Option<string>)
    requires p <= |t|
    ensures r.Some? ==> NodeList(r.value)
  {
    match KeywordTail(t, p, "numa node")
    case Some(g) => Some(g)
    case None =>
      match KeywordTail(t, p, "reader numa node")
      case Some(g) => Some(g)
      case None => KeywordTail(t, p, "writer numa node")
  }

  /** The node-list capture at the leftmost position `>= p` where the header matches. */
  function HeaderTail(t: string, p: nat): (r: Option<string>)
    requires p <= |t|
    ensures r.Some? ==> NodeList(r.value)
    decreases |t| - p
  {
    match HeaderAt(t, p)
    case Some(g) => Some(g)
    case None => if p == |t| then None else HeaderTail(t, p + 1)
  }

  /** The integers among `ws`: `ws.map(n => parseInt(n)).filter(n => !isNaN(n))`. */
  function ParsedInts(ws: seq<string>): (r: seq<int>)
    ensures |r| <= |ws|
  {
    if ws == [] then []
    else
      match ParseInt(ws[0])
      case Some(n) => [n] + ParsedInts(ws[1..])
      case None => ParsedInts(ws[1..])
  }

  /** The node numbers a header line announces, or `None` when the line is no header. */
  function HeaderNodes(t: string): Option<seq<int>> {
    match HeaderTail(t, 0)
    case Some(g) => Some(ParsedInts(SplitTrimmed(Trim(g))))
    case None => None
  }

  /** The node list of a line the header search accepts: it is not skippable and
      announces at least one node. */
  function HeaderLine(line: string): (r: Option<seq<int>>)
    ensures r.Some? ==> |r.value| > 0
  {
    var t := Trim(line);
    if Skippable(t) then None
    else
      match HeaderNodes(t)
      case Some(ns) => if |ns| > 0 then Some(ns) else None
      case None => None
  }

  function HeaderLines(lines: seq<string>): (r: seq<Option<seq<int>>>)
    ensures |r| == |lines| && forall k :: 0 <= k < |lines| ==> r[k] == HeaderLine(lines[k])
  {
    seq(|lines|, k requires 0 <= k < |lines| => HeaderLine(lines[k]))
  }

  /** Where rows begin after the header at `h`: one `^[-=]+$` line right after it is skipped. */
  function DataStart(lines: seq<string>, h: nat): (r: nat)
    requires h < |lines|
    ensures h + 1 <= r <= |lines|
    ensures r == h + 2 <==> h + 1 < |lines| && IsRule(Trim(lines[h + 1]))
  {
    if h + 1 < |lines| && IsRule(Trim(lines[h + 1])) then h + 2 else h + 1
  }

  /** The number of cells a line announces when the fallback accepts it: it is not
      skippable and has more than one word, the first of which `parseInt` reads. */
  function RowWidth(line: string): (r: Option<nat>)
    ensures r.Some? ==> r.value > 0
  {
    var t := Trim(line);
    var parts := Words(t);
    if !Skippable(t) && |parts| > 1 && ParseInt(parts[0]).Some? then Some(|parts| - 1) else None
  }

  function RowWidths(lines: seq<string>): (r: seq<Option<nat>>)
    ensures |r| == |lines| && forall k :: 0 <= k < |lines| ==> r[k] == RowWidth(lines[k])
  {
    seq(|lines|, k requires 0 <= k < |lines| => RowWidth(lines[k]))
  }

  /** The node numbers `0, 1, ..., n - 1`. */
  function Range(n: nat): (r: seq<int>)
    ensures |r| == n && forall k :: 0 <= k < n ==> r[k] == k
  {
    seq(n, k => k)
  }

  // ---------------------------------------------------------------------------
  // Rows

  /** One cell of a data row: `-` and `N/A` are NaN, anything else is `parseFloat`'s reading. */
  function CellOf(v: string): Cell {
    if v == "-" || v == "N/A" then NaN else FloatCell(v)
  }

  function Cells(ws: seq<string>): (r: seq<Cell>)
    ensures |r| == |ws| && forall k :: 0 <= k < |ws| ==> r[k] == CellOf(ws[k])
  {
    seq(|ws|, k requires 0 <= k < |ws| => CellOf(ws[k]))
  }

  /** The row a data line contributes for a node list of length `width`: the line
      must have a second word and an all-digit first word; its cells are cut to
      `width`, and a line with too few cells contributes nothing. */
  function RowOf(t: string, width: nat): (r: Option<seq<Cell>>)
    ensures r.Some? ==> |r.value| == width && width > 0
  {
    var parts := Words(t);
    if |parts| > 1 && IsDigitRun(parts[0]) then
      var row := Cells(parts[1..]);
      if |row| == width then Some(row)
      else if |row| > width && width > 0 then Some(row[..width])
      else None
    else None
  }

  /** How the row scan treats one line: a blank, `===` or `---N` line divides, a summary
      line or one that yields no row is passed over, and a data line gives its row. */
  function ClassifyRow(line: string, width: nat): (r: LineKind<seq<Cell>>)
    ensures r.Data? ==> |r.item| == width
  {
    var t := Trim(line);
    if Skippable(t) then Divider
    else if IsSummary(t) then Ignored
    else
      match RowOf(t, width)
      case Some(row) => Data(row)
      case None => Ignored
  }

  function RowLines(lines: seq<string>, width: nat): (r: seq<LineKind<seq<Cell>>>)
    ensures |r| == |lines| && forall k :: 0 <= k < |lines| ==> r[k] == ClassifyRow(lines[k], width)
  {
    seq(|lines|, k requires 0 <= k < |lines| => ClassifyRow(lines[k], width))
  }

  /** The node list and the index of the first line the row scan looks at: from the
      first header line, else from the first line the fallback accepts, else none. */
  function Layout(lines: seq<string>): (r: Option<(seq<int>, nat)>)
    ensures r.Some? ==> |r.value.0| > 0 && r.value.1 <= |lines|
  {
    var hs := HeaderLines(lines);
    var h := FirstSome(hs, 0);
    if h < |lines| then Some((hs[h].value, DataStart(lines, h)))
    else
      var ws := RowWidths(lines);
      var j := FirstSome(ws, 0);
      if j < |lines| then Some((Range(ws[j].value), j)) else None
  }

  /** `parseMatrixSection(lines, ...)`. The source's two keyword arguments are unused by it. */
  function ParseMatrixSection(lines: seq<string>): (r: NodeMatrix)
    ensures forall k :: 0 <= k < |r.matrix| ==> |r.matrix[k]| == |r.nodes|
    ensures r.nodes == [] ==> r.matrix == []
  {
    match Layout(lines)
    case Some((ns, start)) =>
      var cls := RowLines(lines, |ns|);
      CollectKeeps(cls, start, [], (row: seq<Cell>) => |row| == |ns|);
      NodeMatrix(ns, Collect(cls, start, []))
    case None => NodeMatrix([], [])
  }

  // ---------------------------------------------------------------------------
  // Properties

  /** The rows of a matrix are the rows of its data lines from the first one at or after
      where the scan begins up to the next blank, `===` or `---N` line, in input order. */
  lemma MatrixRows(lines: seq<string>, ns: seq<int>, start: nat)
    requires Layout(lines) == Some((ns, start))
    ensures ParseMatrixSection(lines) == NodeMatrix(ns, Run(RowLines(lines, |ns|), start))
  {
    MatrixCollects(lines, ns, start);
    CollectRun(RowLines(lines, |ns|), start);
  }

  lemma MatrixCollects(lines: seq<string>, ns: seq<int>, start: nat)
    requires Layout(lines) == Some((ns, start))
    ensures ParseMatrixSection(lines) == NodeMatrix(ns, Collect(RowLines(lines, |ns|), start, []))
  {
  }

  /** The first header line fixes the nodes and where the rows begin. */
  lemma HeaderLayout(lines: seq<string>, h: nat)
    requires h < |lines| && HeaderLine(lines[h]).Some?
    requires forall k :: 0 <= k < h ==> HeaderLine(lines[k]).None?
    ensures Layout(lines) == Some((HeaderLine(lines[h]).value, DataStart(lines, h)))
  {
    var hs := HeaderLines(lines);
    assert hs[h].Some?;
    assert FirstSome(hs, 0) == h;
  }

  /** Without a header line, the nodes are `0..k-2` for the first line of `k > 1` tokens
      opening with an integer, and the rows begin at that line. */
  lemma InferredLayout(lines: seq<string>, j: nat)
    requires forall k :: 0 <= k < |lines| ==> HeaderLine(lines[k]).None?
    requires j < |lines| && RowWidth(lines[j]).Some?
    requires forall k :: 0 <= k < j ==> RowWidth(lines[k]).None?
    ensures Layout(lines) == Some((Range(RowWidth(lines[j]).value), j))
  {
    var hs := HeaderLines(lines);
    assert FirstSome(hs, 0) == |lines|;
    var ws := RowWidths(lines);
    assert ws[j].Some?;
    assert FirstSome(ws, 0) == j;
  }

  /** With neither a header line nor a line to infer nodes from, both parts are empty. */
  lemma NoLayout(lines: seq<string>)
    requires forall k :: 0 <= k < |lines| ==> HeaderLine(lines[k]).None? && RowWidth(lines[k]).None?
    ensures ParseMatrixSection(lines) == NodeMatrix([], [])
  {
    assert FirstSome(HeaderLines(lines), 0) == |lines|;
    assert FirstSome(RowWidths(lines), 0) == |lines|;
  }

  /** The special case for `-` and `N/A` cells agrees with `parseFloat`, which reads
      neither of them as a number: both are NaN either way. */
  lemma DashCellIsNaN(v: string)
    ensures CellOf(v) == FloatCell(v)
  {
    if v == "-" {
      NoNumberAtFront(v);
    } else if v == "N/A" {
      NoNumberAtFront(v);
    }
  }

  /** `parseFloat` finds no number in a text that opens with neither a sign, a digit
      nor a point, or with a lone sign. */
  lemma NoNumberAtFront(v: string)
    requires |v| > 0 && !IsSpace(v[0]) && !IsDigit(v[0]) && v[0] != '.'
    requires v[0] == '-' || v[0] == '+' ==> |v| == 1 || !(IsDigit(v[1]) || v[1] == '.')
    ensures ParseFloat(v) == None
  {
    TrimStartNoLead(v);
  }

  /** The values of a sequence of digit runs. */
  function DigitValues(ws: seq<string>): (r: seq<int>)
    requires forall k :: 0 <= k < |ws| ==> IsDigitRun(ws[k])
    ensures |r| == |ws|
  {
    if ws == [] then []
    else
      assert IsDigitRun(ws[0]);
      [DigitsValue(ws[0])] + DigitValues(ws[1..])
  }

  /** `parseInt` reads every one of a sequence of digit runs, so none is filtered out. */
  lemma {:induction false} ParsedIntsOfDigitRuns(ws: seq<string>)
    requires forall k :: 0 <= k < |ws| ==> IsDigitRun(ws[k])
    ensures ParsedInts(ws) == DigitValues(ws)
    decreases |ws|
  {
    if ws != [] {
      DigitRunReadsAlike(ws[0]);
      ParsedIntsOfDigitRuns(ws[1..]);
    }
  }

  /** The words of a node list are digit runs, and there is at least one. */
  lemma NodeListWords(g: string)
    requires NodeList(g)
    ensures var ws := Words(Trim(g));
      |ws| > 0 && Trim(g) != [] && forall k :: 0 <= k < |ws| ==> IsDigitRun(ws[k])
  {
    TrimNodeList(g);
    NodeCharWords(Trim(g));
    WordsOfLeadingWord(Trim(g));
  }

  /** Trimming a node list leaves a non-blank text of node-list characters. */
  lemma TrimNodeList(g: string)
    requires NodeList(g)
    ensures var u := Trim(g); u != [] && !IsSpace(u[0]) && AllChars(u, IsNodeListChar)
  {
    TrimShape(g);
    assert !AllSpace(g) by { assert !IsSpace(g[0]); }
    var u := Trim(g);
    forall m | 0 <= m < |u| ensures IsNodeListChar(u[m]) {
      assert u[m] == g[TrimOffset(g) + m];
    }
  }

  /** The words of a text of node-list characters are digit runs. */
  lemma NodeCharWords(u: string)
    requires AllChars(u, IsNodeListChar)
    ensures forall k :: 0 <= k < |Words(u)| ==> IsDigitRun(Words(u)[k])
  {
    var ws := Words(u);
    WordsChars(u, IsNodeListChar);
    WordsShape(u);
    forall k | 0 <= k < |ws| ensures IsDigitRun(ws[k]) {
      assert ws[k] in ws;
      NodeWordIsDigits(ws[k]);
    }
  }

  lemma NodeWordIsDigits(w: string)
    requires w != [] && NoSpace(w) && AllChars(w, IsNodeListChar)
    ensures IsDigitRun(w)
  {
  }

  /** A text opening with a non-space character has a word. */
  lemma WordsOfLeadingWord(u: string)
    requires u != [] && !IsSpace(u[0])
    ensures |Words(u)| > 0
  {
    assert SkipSpaces(u, 0) == 0;
  }

  /** A matched header announces one node per word of its node list, each the value of
      that word's digits; so the list is never empty. */
  lemma HeaderNodesAreDigits(t: string)
    requires HeaderTail(t, 0).Some?
    ensures var ws := Words(Trim(HeaderTail(t, 0).value));
      |ws| > 0 && (forall k :: 0 <= k < |ws| ==> IsDigitRun(ws[k]))
      && HeaderNodes(t) == Some(DigitValues(ws))
  {
    var g := HeaderTail(t, 0).value;
    NodeListWords(g);
    var ws := Words(Trim(g));
    assert SplitTrimmed(Trim(g)) == ws;
    ParsedIntsOfDigitRuns(ws);
  }

  /** The header search accepts exactly the non-skippable lines the header pattern
      matches: the source's check for a non-empty node list never fails. */
  lemma HeaderLineIsMatch(line: string)
    ensures HeaderLine(line).Some? <==> !Skippable(Trim(line)) && HeaderTail(Trim(line), 0).Some?
  {
    if HeaderTail(Trim(line), 0).Some? {
      HeaderNodesAreDigits(Trim(line));
    }
  }

  // ---------------------------------------------------------------------------
  // Printed tables read back

  /** The digits of each node number. */
  function NatTexts(ns: seq<nat>): (r: seq<string>)
    ensures |r| == |ns| && forall k :: 0 <= k < |ns| ==> r[k] == NatDigits(ns[k])
  {
    if ns == [] then [] else [NatDigits(ns[0])] + NatTexts(ns[1..])
  }

  /** The printed text of each value. */
  function DecimalTexts(ds: seq<Decimal>): (r: seq<string>)
    ensures |r| == |ds| && forall k :: 0 <= k < |ds| ==> r[k] == DecimalText(ds[k])
  {
    seq(|ds|, k requires 0 <= k < |ds| => DecimalText(ds[k]))
  }

  function Nums(ds: seq<Decimal>): (r: seq<Cell>)
    ensures |r| == |ds| && forall k :: 0 <= k < |ds| ==> r[k] == Num(ds[k])
  {
    seq(|ds|, k requires 0 <= k < |ds| => Num(ds[k]))
  }

  lemma {:induction false} ParsedIntsOfNatTexts(ns: seq<nat>)
    ensures ParsedInts(NatTexts(ns)) == ns
    decreases |ns|
  {
    if ns != [] {
      var w := NatDigits(ns[0]);
      var rest := NatTexts(ns[1..]);
      NatTextsCons(ns);
      DigitRunReadsAlike(w);
      NatDigitsValue(ns[0]);
      ParsedIntsCons(w, rest, ns[0]);
      ParsedIntsOfNatTexts(ns[1..]);
      ConsTail(ns);
    }
  }

  lemma NatTextsCons(ns: seq<nat>)
    requires ns != []
    ensures NatTexts(ns) == [NatDigits(ns[0])] + NatTexts(ns[1..])
  {
  }

  /** A word `parseInt` reads as `n`, put in front, puts `n` in front. */
  lemma ParsedIntsCons(w: string, rest: seq<string>, n: int)
    requires ParseInt(w) == Some(n)
    ensures ParsedInts([w] + rest) == [n] + ParsedInts(rest)
  {
    assert ([w] + rest)[1..] == rest;
  }

  /** The digit texts of node numbers joined by spaces. */
  lemma NodeListText(ns: seq<nat>)
    requires |ns| > 0
    ensures var u := Unwords(NatTexts(ns));
      |u| > 0 && IsDigit(u[0]) && IsTrimmed(u) && AllChars(u, IsNodeListChar)
      && Words(u) == NatTexts(ns)
  {
    var ws := NatTexts(ns);
    forall k | 0 <= k < |ws| ensures AllChars(ws[k], IsNodeListChar) && NoSpace(ws[k]) {
      assert AllDigits(ws[k]);
    }
    UnwordsChars(ws, IsNodeListChar);
    UnwordsEnds(ws);
    WordsUnwords(ws);
    var u := Unwords(ws);
    assert IsDigit(u[0]) && IsDigit(u[|u| - 1]) by {
      assert AllDigits(ws[0]) && AllDigits(ws[|ws| - 1]);
    }
  }

  /** A header printed as a keyword of the source, a space and space-separated node
      numbers announces exactly those numbers. */
  lemma HeaderRoundTrip(kw: string, ns: seq<nat>)
    requires kw == "Numa node" || kw == "Reader Numa Node" || kw == "Writer Numa Node"
    requires |ns| > 0
    ensures HeaderNodes(kw + " " + Unwords(NatTexts(ns))) == Some(ns)
  {
    var u := Unwords(NatTexts(ns));
    var t := kw + " " + u;
    NodeListText(ns);
    HeaderAtStart(kw, u);
    assert HeaderTail(t, 0) == Some(u);
    TrimOfTrimmed(u);
    ParsedIntsOfNatTexts(ns);
  }

  /** The header alternative that matches a printed header is the one it was printed with. */
  lemma HeaderAtStart(kw: string, u: string)
    requires kw == "Numa node" || kw == "Reader Numa Node" || kw == "Writer Numa Node"
    requires NodeList(u)
    ensures HeaderAt(kw + " " + u, 0) == Some(u)
  {
    var t := kw + " " + u;
    if kw == "Numa node" {
      LowerNumaNode();
      KeywordTailAt(kw, "numa node", u);
    } else if kw == "Reader Numa Node" {
      LowerReaderNumaNode();
      FirstLetterMisses(t, "numa node");
      KeywordTailAt(kw, "reader numa node", u);
    } else {
      LowerWriterNumaNode();
      FirstLetterMisses(t, "numa node");
      FirstLetterMisses(t, "reader numa node");
      KeywordTailAt(kw, "writer numa node", u);
    }
  }

  lemma LowerNumaNode()
    ensures Lower("Numa node") == "numa node"
  {
  }

  lemma LowerReaderNumaNode()
    ensures Lower("Reader Numa Node") == "reader numa node"
  {
  }

  lemma LowerWriterNumaNode()
    ensures Lower("Writer Numa Node") == "writer numa node"
  {
  }

  /** A text whose first letter differs from the keyword's in every case does not open with it. */
  lemma FirstLetterMisses(t: string, p: string)
    requires |t| > 0 && |p| > 0 && LowerChar(t[0]) != p[0]
    ensures KeywordTail(t, 0, p) == None
  {
    assert t[0..] == t;
    if |p| <= |t| {
      assert Lower(t[..|p|])[0] == LowerChar(t[0]);
    }
  }

  /** A keyword, one space and a node list: the keyword's alternative captures the list. */
  lemma KeywordTailAt(kw: string, lkw: string, u: string)
    requires Lower(kw) == lkw && NodeList(u)
    ensures KeywordTail(kw + " " + u, 0, lkw) == Some(u)
  {
    var t := kw + " " + u;
    var n := |kw|;
    KeywordOpens(kw, " " + u, lkw);
    assert t[n..] == " " + u;
    SpacedNodeTail(u);
    assert t[n] == ' ' && t[n + 1] == u[0];
    assert SkipSpaces(t, n) == n + 1 by {
      assert SkipSpaces(t, n + 1) == n + 1;
    }
    assert t[n + 1..] == u;
  }

  lemma KeywordOpens(kw: string, rest: string, lkw: string)
    requires Lower(kw) == lkw
    ensures StartsWithNoCase((kw + rest)[0..], lkw)
  {
    assert (kw + rest)[0..][..|kw|] == kw;
  }

  /** One space before a node list makes a node tail. */
  lemma SpacedNodeTail(u: string)
    requires NodeList(u)
    ensures NodeTail(" " + u)
  {
    var s := " " + u;
    assert !IsSpace(s[1]);
    forall k | 0 <= k < |s| ensures IsNodeListChar(s[k]) {
      if k > 0 { assert s[k] == u[k - 1]; }
    }
  }

  /** A printed value reads back as that number. */
  lemma CellOfDecimalText(d: Decimal)
    ensures CellOf(DecimalText(d)) == Num(d)
  {
    var v := DecimalText(d);
    assert v != "-" && v != "N/A" by {
      assert IsDigit(v[|v| - 1]);
    }
    ParseFloatOfDecimalText(d, "");
    assert v + "" == v;
  }

  /** A data line printed as a row number followed by space-separated values, read for
      `w` nodes, gives its first `w` values when it has at least `w` of them, and no row
      when it has fewer (or when there are no nodes). */
  lemma RowRoundTrip(id: nat, ds: seq<Decimal>, w: nat)
    requires |ds| > 0
    ensures RowOf(Unwords([NatDigits(id)] + DecimalTexts(ds)), w)
         == if 0 < w <= |ds| then Some(Nums(ds[..w])) else None
  {
    var t := Unwords([NatDigits(id)] + DecimalTexts(ds));
    PrintedRowWords(id, ds);
    RowOfWords(t, w, Nums(ds));
    if w == |ds| {
      assert ds[..w] == ds;
    } else if 0 < w < |ds| {
      assert Nums(ds)[..w] == Nums(ds[..w]);
    }
  }

  /** The words of a printed row are the row number and the printed values, and the
      values read back as number cells. */
  lemma PrintedRowWords(id: nat, ds: seq<Decimal>)
    requires |ds| > 0
    ensures var ws := Words(Unwords([NatDigits(id)] + DecimalTexts(ds)));
      |ws| > 1 && IsDigitRun(ws[0]) && Cells(ws[1..]) == Nums(ds)
  {
    var ws := [NatDigits(id)] + DecimalTexts(ds);
    forall k | 0 <= k < |ws| ensures ws[k] != [] && NoSpace(ws[k]) {
      if k == 0 {
        assert AllDigits(ws[0]);
      } else {
        assert ws[k] == DecimalText(ds[k - 1]);
        DecimalTextNoSpace(ds[k - 1]);
      }
    }
    WordsUnwords(ws);
    assert ws[1..] == DecimalTexts(ds);
    forall k | 0 <= k < |ds| ensures CellOf(DecimalTexts(ds)[k]) == Num(ds[k]) {
      CellOfDecimalText(ds[k]);
    }
    assert Cells(ws[1..]) == Nums(ds);
  }

  lemma RowOfWords(t: string, w: nat, row: seq<Cell>)
    requires |Words(t)| > 1 && IsDigitRun(Words(t)[0]) && Cells(Words(t)[1..]) == row
    ensures RowOf(t, w) == if |row| == w then Some(row) else if |row| > w && w > 0 then Some(row[..w]) else None
  {
  }
}
