/**
 The loaded-latency reader `parseLoadedLatencies` (parser.js): after a header line
 naming the inject delay, latency and bandwidth columns, every data line gives one
 sample, in line order, until a blank line follows a sample.
 */
module LoadedLatencies {
  import opened Options
  import opened Text
  import opened Numbers
  import opened Runs

  /** One `{delay, latency, bandwidth}` sample; the delay is `parseInt`'s reading, which
      may be NaN (`None`). */
  datatype Sample = Sample(delay: Option<int>, latency: Cell, bandwidth: Cell)

  // ---------------------------------------------------------------------------
  // The header `Inject(?:\s+Delay)?\s+Latency(?:\s+Cycles)?\s+Bandwidth`, case-insensitive,
  // anywhere in the line. Its letters are ASCII, so matching without case is matching
  // the lower-cased line against the lower-case words; whitespace is unaffected by
  // lower-casing.

  /** Whitespace from `i`, then the word `w`: the index after the word. A greedy `\s+`
      followed by a letter never needs to give whitespace back. */
  function SpacedWord(s: string, i: nat, w: string): (r: Option<nat>)
    requires i <= |s|
    ensures r.Some? ==> i < r.value <= |s|
  {
    var j := SkipSpaces(s, i);
    if j > i && StartsWith(s[j..], w) && |w| > 0 then Some(j + |w|) else None
  }

  predicate BandwidthFrom(s: string, i: nat)
    requires i <= |s|
  {
    SpacedWord(s, i, "bandwidth").Some?
  }

  /** `(?:\s+Cycles)?\s+Bandwidth` from `i`, trying the optional part first. */
  predicate CyclesFrom(s: string, i: nat)
    requires i <= |s|
  {
    (match SpacedWord(s, i, "cycles") case Some(j) => BandwidthFrom(s, j) case None => false)
    || BandwidthFrom(s, i)
  }

  predicate LatencyFrom(s: string, i: nat)
    requires i <= |s|
  {
    match SpacedWord(s, i, "latency") case Some(j) => CyclesFrom(s, j) case None => false
  }

  /** What must follow `inject`: `(?:\s+Delay)?\s+Latency...`, trying the optional part first. */
  predicate AfterInject(s: string, i: nat)
    requires i <= |s|
  {
    (match SpacedWord(s, i, "delay") case Some(j) => LatencyFrom(s, j) case None => false)
    || LatencyFrom(s, i)
  }

  /** The header matches at some position at or after `p`. */
  predicate HeaderFrom(s: string, p: nat)
    requires p <= |s|
    decreases |s| - p
  {
    (StartsWith(s[p..], "inject") && AfterInject(s, p + 6)) || (p < |s| && HeaderFrom(s, p + 1))
  }

  predicate IsHeader(t: string) {
    HeaderFrom(Lower(t), 0)
  }

  // ---------------------------------------------------------------------------
  // Data lines

  /** The groups of `^(\d+)\s+([0-9.]+)\s+(?:[0-9.]+\s+)?([0-9.]+)`. Each greedy run is
      followed by something its last character cannot be, so it never gives
      characters back; only the optional column is dropped when no value follows it. */
  function DataMatch(t: string): (r: Option<(string, string, string)>)
    ensures r.Some? ==> IsDigitRun(r.value.0)
    ensures r.Some? ==> r.value.1 != [] && r.value.2 != []
    ensures r.Some? ==> forall k :: 0 <= k < |r.value.1| ==> IsNumChar(r.value.1[k])
    ensures r.Some? ==> forall k :: 0 <= k < |r.value.2| ==> IsNumChar(r.value.2[k])
  {
    var d := DigitEnd(t, 0);
    var w1 := SkipSpaces(t, d);
    var n1 := NumCharEnd(t, w1);
    var w2 := SkipSpaces(t, n1);
    var n2 := NumCharEnd(t, w2);
    if d == 0 || w1 == d || n1 == w1 || w2 == n1 || n2 == w2 then None
    else
      var w3 := SkipSpaces(t, n2);
      var n3 := NumCharEnd(t, w3);
      DigitEndRun(t, 0);
      NumCharEndRun(t, w1);
      NumCharEndRun(t, w2);
      NumCharEndRun(t, w3);
      var last := if w3 > n2 && n3 > w3 then t[w3..n3] else t[w2..n2];
      assert forall k :: 0 <= k < d ==> t[..d][k] == t[k];
      Some((t[..d], t[w1..n1], last))
  }

  /** The sample of a non-blank data line: by its words when there are at least three
      and the first, second and last read as numbers, else by the pattern's groups. */
  function RowOf(t: string): Option<Sample> {
    var parts := SplitTrimmed(t);
    if |parts| >= 3 && ParseFloat(parts[0]).Some? && ParseFloat(parts[1]).Some?
       && ParseFloat(parts[|parts| - 1]).Some? then
      Some(Sample(ParseInt(parts[0]), Num(ParseFloat(parts[1]).value), Num(ParseFloat(parts[|parts| - 1]).value)))
    else
      match DataMatch(t)
      case Some((g1, g2, g3)) => Some(Sample(ParseInt(g1), FloatCell(g2), FloatCell(g3)))
      case None => None
  }

  // ---------------------------------------------------------------------------
  // The loop

  /** `parseLoadedLatencies(lines)` from line `i`, with the `headerFound` flag and the
      samples so far. */
  function LoadedLoop(lines: seq<string>, i: nat, found: bool, acc: seq<Sample>): seq<Sample>
    requires i <= |lines|
    decreases |lines| - i
  {
    if i == |lines| then acc
    else
      var t := Trim(lines[i]);
      if IsHeader(t) then LoadedLoop(lines, i + 1, true, acc)
      else if StartsWith(t, "======") || t == "" then
        if found && |acc| > 0 && t == "" then acc else LoadedLoop(lines, i + 1, found, acc)
      else if !found then LoadedLoop(lines, i + 1, found, acc)
      else
        match RowOf(t)
        case Some(x) => LoadedLoop(lines, i + 1, found, acc + [x])
        case None => LoadedLoop(lines, i + 1, found, acc)
  }

  function ParseLoadedLatencies(lines: seq<string>): seq<Sample> {
    LoadedLoop(lines, 0, false, [])
  }

  // ---------------------------------------------------------------------------
  // A reference description

  /** How a line is treated once the header has been seen. */
  function KindOf(line: string): LineKind<Sample> {
    var t := Trim(line);
    if IsHeader(t) then Ignored
    else if t == "" then Divider
    else if StartsWith(t, "======") then Ignored
    else
      match RowOf(t)
      case Some(x) => Data(x)
      case None => Ignored
  }

  /** This module's `KindOf` applied to every line; `PeakBandwidths.Kinds` is the same
      map for that reader's own line kinds. */
  function Kinds(lines: seq<string>): (r: seq<LineKind<Sample>>)
    ensures |r| == |lines| && forall k :: 0 <= k < |lines| ==> r[k] == KindOf(lines[k])
  {
    seq(|lines|, k requires 0 <= k < |lines| => KindOf(lines[k]))
  }

  /** The first header line at or after `i`, or `|lines|`. */
  function FirstHeader(lines: seq<string>, i: nat): (r: nat)
    requires i <= |lines|
    ensures i <= r <= |lines|
    ensures r < |lines| ==> IsHeader(Trim(lines[r]))
    decreases |lines| - i
  {
    if i == |lines| || IsHeader(Trim(lines[i])) then i else FirstHeader(lines, i + 1)
  }

  /** No line before the first header matches the header pattern. */
  lemma {:induction false} FirstHeaderSkips(lines: seq<string>, i: nat)
    requires i <= |lines|
    ensures forall k :: i <= k < FirstHeader(lines, i) ==> !IsHeader(Trim(lines[k]))
    decreases |lines| - i
  {
    hide IsHeader, Trim;
    if i < |lines| && !IsHeader(Trim(lines[i])) { FirstHeaderSkips(lines, i + 1); }
  }

  /** The samples of the data lines after the first header, in line order, from the
      first one up to the next blank line; none without a header. */
  function SamplesRun(lines: seq<string>): seq<Sample> {
    var h := FirstHeader(lines, 0);
    if h == |lines| then [] else Run(Kinds(lines), h + 1)
  }

  // ---------------------------------------------------------------------------
  // Properties

  /** Before the header, every line is passed over. */
  lemma {:induction false} LoopBeforeHeader(lines: seq<string>, i: nat)
    requires i <= |lines|
    ensures LoadedLoop(lines, i, false, []) == LoadedLoop(lines, FirstHeader(lines, i), false, [])
    decreases |lines| - i
  {
    if i < |lines| && !IsHeader(Trim(lines[i])) {
      LoopBeforeHeader(lines, i + 1);
    }
  }

  /** One step of the loop after the header, by the kind of the line. */
  lemma LoopStep(lines: seq<string>, i: nat, acc: seq<Sample>)
    requires i < |lines|
    ensures var kind := KindOf(lines[i]);
      LoadedLoop(lines, i, true, acc)
        == if kind.Data? then LoadedLoop(lines, i + 1, true, acc + [kind.item])
           else if kind.Divider? && |acc| > 0 then acc
           else LoadedLoop(lines, i + 1, true, acc)
  {
  }

  /** After the header, the loop is the shared collecting loop over the line kinds. */
  lemma {:induction false} LoopIsCollect(lines: seq<string>, i: nat, acc: seq<Sample>)
    requires i <= |lines|
    ensures LoadedLoop(lines, i, true, acc) == Collect(Kinds(lines), i, acc)
    decreases |lines| - i
  {
    if i < |lines| {
      var kind := KindOf(lines[i]);
      LoopStep(lines, i, acc);
      if kind.Data? {
        LoopIsCollect(lines, i + 1, acc + [kind.item]);
      } else if !(kind.Divider? && |acc| > 0) {
        LoopIsCollect(lines, i + 1, acc);
      }
    }
  }

  lemma NoHeader(lines: seq<string>)
    requires FirstHeader(lines, 0) == |lines|
    ensures ParseLoadedLatencies(lines) == []
  {
    LoopBeforeHeader(lines, 0);
  }

  lemma HeaderAt(lines: seq<string>, h: nat)
    requires h == FirstHeader(lines, 0) && h < |lines|
    ensures ParseLoadedLatencies(lines) == Collect(Kinds(lines), h + 1, [])
  {
    hide LoadedLoop, Collect, Kinds, FirstHeader, IsHeader, Trim;
    calc {
      ParseLoadedLatencies(lines);
      == { LoopBeforeHeader(lines, 0); }
      LoadedLoop(lines, h, false, []);
      == { HeaderStep(lines, h, false, []); }
      LoadedLoop(lines, h + 1, true, []);
      == { LoopIsCollect(lines, h + 1, []); }
      Collect(Kinds(lines), h + 1, []);
    }
  }

  /** A header line sets the flag and collects nothing. */
  lemma HeaderStep(lines: seq<string>, i: nat, found: bool, acc: seq<Sample>)
    requires i < |lines| && IsHeader(Trim(lines[i]))
    ensures LoadedLoop(lines, i, found, acc) == LoadedLoop(lines, i + 1, true, acc)
  {
  }

  /** The loop computes the reference description: nothing is collected before the
      header, and the samples keep line order. */
  lemma LoadedSamples(lines: seq<string>)
    ensures ParseLoadedLatencies(lines) == SamplesRun(lines)
  {
    var h := FirstHeader(lines, 0);
    if h == |lines| {
      NoHeader(lines);
    } else {
      HeaderAt(lines, h);
      CollectRun(Kinds(lines), h + 1);
    }
  }

  /** A row printed as a delay, a latency, any further words and a bandwidth gives the
      delay, the latency and the bandwidth: middle columns are ignored. */
  lemma RowRoundTrip(delay: nat, latency: Decimal, middle: seq<string>, bandwidth: Decimal)
    requires forall k :: 0 <= k < |middle| ==> middle[k] != [] && NoSpace(middle[k])
    ensures RowOf(Unwords([NatDigits(delay), DecimalText(latency)] + middle + [DecimalText(bandwidth)]))
      == Some(Sample(Some(delay), Num(latency), Num(bandwidth)))
  {
    var ws := [NatDigits(delay), DecimalText(latency)] + middle + [DecimalText(bandwidth)];
    var t := Unwords(ws);
    RowWords(delay, latency, middle, bandwidth);
    assert SplitTrimmed(t) == ws by { UnwordsNonEmpty(ws); }
    DelayReads(delay);
    ReadPrinted(latency);
    ReadPrinted(bandwidth);
  }

  lemma RowWords(delay: nat, latency: Decimal, middle: seq<string>, bandwidth: Decimal)
    requires forall k :: 0 <= k < |middle| ==> middle[k] != [] && NoSpace(middle[k])
    ensures var ws := [NatDigits(delay), DecimalText(latency)] + middle + [DecimalText(bandwidth)];
      Words(Unwords(ws)) == ws && |ws| >= 3 && ws[0] == NatDigits(delay) && ws[1] == DecimalText(latency)
      && ws[|ws| - 1] == DecimalText(bandwidth)
  {
    hide Words, WordsFrom, Unwords, DecimalText, NatDigits;
    var ws := [NatDigits(delay), DecimalText(latency)] + middle + [DecimalText(bandwidth)];
    DecimalTextNoSpace(latency);
    DecimalTextNoSpace(bandwidth);
    var front := [NatDigits(delay), DecimalText(latency)];
    assert AllWords(front) by { assert AllDigits(front[0]); }
    AllWordsJoin(front, middle);
    AllWordsJoin(front + middle, [DecimalText(bandwidth)]);
    WordsUnwords(ws);
  }

  /** Words joined by spaces make a non-empty text when the first word is non-empty. */
  lemma UnwordsNonEmpty(ws: seq<string>)
    requires |ws| > 0 && ws[0] != []
    ensures Unwords(ws) != []
  {
  }

  lemma DelayReads(n: nat)
    ensures ParseFloat(NatDigits(n)) == Some(Decimal(n, 0)) && ParseInt(NatDigits(n)) == Some(n)
  {
    DigitRunReadsAlike(NatDigits(n));
    NatDigitsValue(n);
  }

  /** A run of whitespace that `\s+` matches. */
  predicate IsGap(g: string) {
    g != [] && AllSpace(g)
  }

  /** The compact phrasing `Inject Latency Bandwidth`, in any letter case and with any
      whitespace between the words, is recognised wherever it stands in the line. */
  lemma CompactHeader(pre: string, inj: string, g1: string, lat: string, g2: string, bw: string, post: string)
    requires Lower(inj) == "inject" && Lower(lat) == "latency" && Lower(bw) == "bandwidth"
    requires IsGap(g1) && IsGap(g2)
    ensures IsHeader(pre + inj + g1 + lat + g2 + bw + post)
  {
    LowerAppend(pre + inj + g1 + lat + g2 + bw, post);
    LowerAppend(pre + inj + g1 + lat + g2, bw);
    LowerAppend(pre + inj + g1 + lat, g2);
    LowerAppend(pre + inj + g1, lat);
    LowerAppend(pre + inj, g1);
    LowerAppend(pre, inj);
    LowerSpaces(g1);
    LowerSpaces(g2);
    CompactFrom(Lower(pre), g1, g2, Lower(post));
  }

  /** The verbose phrasing `Inject Delay Latency Cycles Bandwidth`, in any letter case and
      with any whitespace between the words, is recognised wherever it stands in the line. */
  lemma VerboseHeader(pre: string, inj: string, g1: string, del: string, g2: string, lat: string,
                      g3: string, cyc: string, g4: string, bw: string, post: string)
    requires Lower(inj) == "inject" && Lower(del) == "delay" && Lower(lat) == "latency"
    requires Lower(cyc) == "cycles" && Lower(bw) == "bandwidth"
    requires IsGap(g1) && IsGap(g2) && IsGap(g3) && IsGap(g4)
    ensures IsHeader(pre + inj + g1 + del + g2 + lat + g3 + cyc + g4 + bw + post)
  {
    LowerAppend(pre + inj + g1 + del + g2 + lat + g3 + cyc + g4 + bw, post);
    LowerAppend(pre + inj + g1 + del + g2 + lat + g3 + cyc + g4, bw);
    LowerAppend(pre + inj + g1 + del + g2 + lat + g3 + cyc, g4);
    LowerAppend(pre + inj + g1 + del + g2 + lat + g3, cyc);
    LowerAppend(pre + inj + g1 + del + g2 + lat, g3);
    LowerAppend(pre + inj + g1 + del + g2, lat);
    LowerAppend(pre + inj + g1 + del, g2);
    LowerAppend(pre + inj + g1, del);
    LowerAppend(pre + inj, g1);
    LowerAppend(pre, inj);
    LowerSpaces(g1);
    LowerSpaces(g2);
    LowerSpaces(g3);
    LowerSpaces(g4);
    VerboseFrom(Lower(pre), g1, g2, g3, g4, Lower(post));
  }

  /** The header line the tool prints is recognised. */
  lemma PrintedHeader()
    ensures IsHeader("Inject  Latency Bandwidth")
  {
    assert "Inject  Latency Bandwidth" == "" + "Inject" + "  " + "Latency" + " " + "Bandwidth" + "";
    assert Lower("Inject") == "inject" && Lower("Latency") == "latency" && Lower("Bandwidth") == "bandwidth";
    assert IsGap("  ") && IsGap(" ");
    CompactHeader("", "Inject", "  ", "Latency", " ", "Bandwidth", "");
  }

  lemma CompactFrom(p: string, g1: string, g2: string, q: string)
    requires IsGap(g1) && IsGap(g2)
    ensures HeaderFrom(p + "inject" + g1 + "latency" + g2 + "bandwidth" + q, 0)
  {
    hide SpacedWord, HeaderFrom, StartsWith, SkipSpaces;
    var r2 := g2 + ("bandwidth" + q);
    var r1 := g1 + ("latency" + r2);
    var s := p + ("inject" + r1);
    assert p + "inject" + g1 + "latency" + g2 + "bandwidth" + q == s;
    var i := |p|;
    SliceAfter(s, p, "inject" + r1);
    var j := GapWordAt(s, i + 6, g1, "latency", r2);
    var _ := GapWordAt(s, j, g2, "bandwidth", q);
    assert LatencyFrom(s, i + 6);
    InjectAt(s, i, r1);
  }

  lemma VerboseFrom(p: string, g1: string, g2: string, g3: string, g4: string, q: string)
    requires IsGap(g1) && IsGap(g2) && IsGap(g3) && IsGap(g4)
    ensures HeaderFrom(p + "inject" + g1 + "delay" + g2 + "latency" + g3 + "cycles" + g4 + "bandwidth" + q, 0)
  {
    hide SpacedWord, HeaderFrom, StartsWith, SkipSpaces;
    var r4 := g4 + ("bandwidth" + q);
    var r3 := g3 + ("cycles" + r4);
    var r2 := g2 + ("latency" + r3);
    var r1 := g1 + ("delay" + r2);
    var s := p + ("inject" + r1);
    VerboseNest(p, g1, g2, g3, g4, q);
    var i := |p|;
    SliceAfter(s, p, "inject" + r1);
    var j1 := GapWordAt(s, i + 6, g1, "delay", r2);
    var j2 := GapWordAt(s, j1, g2, "latency", r3);
    var j3 := GapWordAt(s, j2, g3, "cycles", r4);
    var _ := GapWordAt(s, j3, g4, "bandwidth", q);
    assert CyclesFrom(s, j2);
    assert LatencyFrom(s, j1);
    assert AfterInject(s, i + 6);
    InjectAt(s, i, r1);
  }

  lemma VerboseNest(p: string, g1: string, g2: string, g3: string, g4: string, q: string)
    ensures p + "inject" + g1 + "delay" + g2 + "latency" + g3 + "cycles" + g4 + "bandwidth" + q
         == p + ("inject" + (g1 + ("delay" + (g2 + ("latency" + (g3 + ("cycles" + (g4 + ("bandwidth" + q))))))))) 
  {
  }

  lemma SliceAfter(s: string, x: string, y: string)
    requires s == x + y
    ensures s[|x|..] == y
  {
  }

  /** Read from `i`, where the gap `g` and the word `w` stand, the word ends after both,
      and what follows it is `rest`. */
  lemma GapWordAt(s: string, i: nat, g: string, w: string, rest: string) returns (j: nat)
    requires i <= |s| && s[i..] == g + (w + rest) && IsGap(g) && w != [] && !IsSpace(w[0])
    ensures j == i + |g| + |w| && SpacedWord(s, i, w) == Some(j) && s[j..] == rest
  {
    j := i + |g| + |w|;
    assert s[i + |g|] == w[0] && forall k :: i <= k < i + |g| ==> s[k] == g[k - i];
    SkipSpacesOver(s, i, |g|);
    assert s[i + |g|..] == w + rest;
    assert s[i + |g|..][..|w|] == w;
    assert s[j..] == rest;
  }

  /** Skipping whitespace from `i` passes the `n` whitespace characters there and stops
      at the next character that is not whitespace. */
  lemma {:induction false} SkipSpacesOver(s: string, i: nat, n: nat)
    requires i + n < |s| && !IsSpace(s[i + n])
    requires forall k :: i <= k < i + n ==> IsSpace(s[k])
    ensures SkipSpaces(s, i) == i + n
    decreases n
  {
    if n > 0 { SkipSpacesOver(s, i + 1, n - 1); }
  }

  /** A header that starts at index `i`, whatever follows it, is found by the search
      from the start. */
  lemma InjectAt(s: string, i: nat, rest: string)
    requires i <= |s| && s[i..] == "inject" + rest && AfterInject(s, i + 6)
    ensures HeaderFrom(s, 0)
  {
    assert s[i..][..6] == "inject";
    HeaderFromAt(s, 0, i);
  }

  /** The search finds a match that lies at or after where it starts. */
  lemma {:induction false} HeaderFromAt(s: string, i: nat, k: nat)
    requires i <= k <= |s| && k + 6 <= |s| && StartsWith(s[k..], "inject") && AfterInject(s, k + 6)
    ensures HeaderFrom(s, i)
    decreases k - i
  {
    if i < k { HeaderFromAt(s, i + 1, k); }
  }
}
