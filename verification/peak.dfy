/**
 The peak-injection-bandwidth reader `parsePeakBandwidths` (parser.js): from the first
 line that announces the table or already holds a `label : value` pair, every such
 line gives one entry, in line order, until a blank line follows an entry.
 */
module PeakBandwidths {
  import opened Options
  import opened Text
  import opened Numbers
  import opened Runs

  /** One `{label, value}` entry; `label` is a reserved word here, so the field is `name`. */
  datatype Bandwidth = Bandwidth(name: string, value: Cell)

  // ---------------------------------------------------------------------------
  // The entry pattern `^(.*?\S+.*?)\s*:\s*([0-9.]+)\s*(?:MB\/sec)?`, case-insensitive,
  // on a trimmed line. The trailing `\s*(?:MB\/sec)?` always matches, so it decides
  // nothing; `[0-9.]+` is greedy and nothing after it can fail, so the value is the
  // whole run.

  /** The label may end at `z`: whitespace, a colon, whitespace and a `[0-9.]` follow. */
  predicate ColonAt(t: string, z: nat)
    requires z <= |t|
  {
    var c := SkipSpaces(t, z);
    c < |t| && t[c] == ':' && var q := SkipSpaces(t, c + 1); q < |t| && IsNumChar(t[q])
  }

  /** Where the value begins when the label ends at `z`. */
  function ValueStart(t: string, z: nat): (q: nat)
    requires z <= |t| && ColonAt(t, z)
    ensures z < q < |t| && IsNumChar(t[q])
  {
    SkipSpaces(t, SkipSpaces(t, z) + 1)
  }

  /** The smallest label end in `z..hi`, as a lazy `.*?` tries them. */
  function ColonUp(t: string, z: nat, hi: nat): (r: Option<nat>)
    requires z <= hi <= |t|
    ensures r.Some? ==> z <= r.value <= hi && ColonAt(t, r.value)
    ensures r.Some? ==> forall k :: z <= k < r.value ==> !ColonAt(t, k)
    ensures r.None? ==> forall k :: z <= k <= hi ==> !ColonAt(t, k)
    decreases hi - z
  {
    if ColonAt(t, z) then Some(z) else if z == hi then None else ColonUp(t, z + 1, hi)
  }

  /** The largest label end in `lo..z`, as a greedy `\S+` gives characters back. */
  function ColonDown(t: string, z: nat, lo: nat): (r: Option<nat>)
    requires z <= |t|
    ensures r.Some? ==> lo <= r.value <= z && ColonAt(t, r.value)
    ensures r.Some? ==> forall k :: r.value < k <= z ==> !ColonAt(t, k)
    ensures r.None? ==> forall k :: lo <= k <= z ==> !ColonAt(t, k)
    decreases z
  {
    if z < lo then None else if ColonAt(t, z) then Some(z) else if z == 0 then None else ColonDown(t, z - 1, lo)
  }

  /** Where the pattern's label group ends on the trimmed line `t`, if it matches. The
      group starts at the first word: with the whole first word taken, its lazy tail
      tries every end up to the first line break; failing that, the word gives back
      characters one by one. */
  function LabelEnd(t: string): (r: Option<nat>)
    requires IsTrimmed(t)
    ensures r.Some? ==> 1 <= r.value <= |t| && ColonAt(t, r.value)
  {
    if t == [] then None
    else
      var e := WordEnd(t, 0);
      match ColonUp(t, e, BreakFrom(t, e))
      case Some(z) => Some(z)
      case None => ColonDown(t, e - 1, 1)
  }

  /** The pattern matches a trimmed line exactly when some label end lies between the
      line's first character and its first line break after the first word; the label
      group then ends at the first such end past the first word, or else at the last one
      inside it. */
  lemma LabelEndMatches(t: string)
    requires IsTrimmed(t) && t != []
    ensures var e := WordEnd(t, 0); var hi := BreakFrom(t, e);
      (LabelEnd(t).Some? <==> exists z :: 1 <= z <= hi && ColonAt(t, z))
      && (LabelEnd(t).Some? && LabelEnd(t).value >= e ==> forall k :: e <= k < LabelEnd(t).value ==> !ColonAt(t, k))
      && (LabelEnd(t).Some? && LabelEnd(t).value < e ==>
            (forall k :: e <= k <= hi ==> !ColonAt(t, k)) && forall k :: LabelEnd(t).value < k < e ==> !ColonAt(t, k))
  {
    var e := WordEnd(t, 0);
    var hi := BreakFrom(t, e);
    var up := ColonUp(t, e, hi);
    if up.None? {
      var down := ColonDown(t, e - 1, 1);
      if down.None? {
        assert forall z :: 1 <= z <= hi ==> !ColonAt(t, z) by {
          forall z | 1 <= z <= hi ensures !ColonAt(t, z) {
            if z < e { assert z <= e - 1; } else { assert e <= z <= hi; }
          }
        }
      }
    }
  }

  // ---------------------------------------------------------------------------
  // Labels

  /** `s.replace(/\s*\(.*?\)/gi, "")` from index `p`: at each position, whitespace, an
      opening parenthesis and the nearest closing one on the same line are cut out;
      otherwise one character is kept. */
  function RemoveParens(s: string, p: nat): string
    requires p <= |s|
    decreases |s| - p
  {
    if p == |s| then []
    else
      var w := SkipSpaces(s, p);
      if w < |s| && s[w] == '(' then
        var j := CloseFrom(s, w + 1);
        if j < |s| && s[j] == ')' then RemoveParens(s, j + 1)
        else [s[p]] + RemoveParens(s, p + 1)
      else [s[p]] + RemoveParens(s, p + 1)
  }

  /** The first closing parenthesis or line terminator at or after `i`, or `|s|`. */
  function CloseFrom(s: string, i: nat): (r: nat)
    requires i <= |s|
    ensures i <= r <= |s|
    ensures r < |s| ==> s[r] == ')' || IsLineTerminator(s[r])
    decreases |s| - i
  {
    if i < |s| && s[i] != ')' && !IsLineTerminator(s[i]) then CloseFrom(s, i + 1) else i
  }

  /** The scan passes over neither a closing parenthesis nor a line terminator. */
  lemma {:induction false} CloseFromRun(s: string, i: nat)
    requires i <= |s|
    ensures forall k :: i <= k < CloseFrom(s, i) ==> s[k] != ')' && !IsLineTerminator(s[k])
    decreases |s| - i
  {
    if i < |s| && s[i] != ')' && !IsLineTerminator(s[i]) { CloseFromRun(s, i + 1); }
  }

  /** The label an entry shows: the group trimmed, parenthesised text removed, trimmed
      again, and one trailing `MB/sec` cut off. */
  function CleanLabel(g: string): string {
    var l := Trim(RemoveParens(Trim(g), 0));
    if EndsWith(l, "MB/sec") then Trim(l[..|l| - 6]) else l
  }

  /** The entry a trimmed line gives when the pattern matches it. */
  function EntryOf(t: string): (r: Option<Bandwidth>)
    requires IsTrimmed(t)
    ensures r.Some? <==> LabelEnd(t).Some?
    ensures r.Some? ==> r.value.value != Null
  {
    match LabelEnd(t)
    case Some(z) =>
      var q := ValueStart(t, z);
      Some(Bandwidth(CleanLabel(t[..z]), FloatCell(t[q..NumCharEnd(t, q)])))
    case None => None
  }

  // ---------------------------------------------------------------------------
  // The loop

  /** A line that switches parsing on. */
  predicate Opens(t: string)
    requires IsTrimmed(t)
  {
    Contains(Lower(t), "peak memory bandwidths") || Contains(Lower(t), "read-write ratios")
    || LabelEnd(t).Some?
  }

  /** A line the loop passes over once parsing is on: blank, `===` or `---`. */
  predicate Passed(t: string) {
    t == "" || StartsWith(t, "===") || StartsWith(t, "---")
  }

  /** `parsePeakBandwidths(lines)` from line `i`, with the `startParsing` flag and the
      entries so far. */
  function PeakLoop(lines: seq<string>, i: nat, started: bool, acc: seq<Bandwidth>): seq<Bandwidth>
    requires i <= |lines|
    decreases |lines| - i
  {
    if i == |lines| then acc
    else
      var t := Trim(lines[i]);
      var on := started || Opens(t);
      if !on || Passed(t) then
        if on && |acc| > 0 && t == "" then acc else PeakLoop(lines, i + 1, on, acc)
      else
        match EntryOf(t)
        case Some(b) => PeakLoop(lines, i + 1, on, acc + [b])
        case None => PeakLoop(lines, i + 1, on, acc)
  }

  function ParsePeakBandwidths(lines: seq<string>): seq<Bandwidth> {
    PeakLoop(lines, 0, false, [])
  }

  // ---------------------------------------------------------------------------
  // A reference description

  /** How a line is treated once parsing is on. */
  function KindOf(line: string): LineKind<Bandwidth> {
    var t := Trim(line);
    if t == "" then Divider
    else if Passed(t) then Ignored
    else
      match EntryOf(t)
      case Some(b) => Data(b)
      case None => Ignored
  }

  /** This module's `KindOf` applied to every line; `LoadedLatencies.Kinds` is the same
      map for that reader's own line kinds. */
  function Kinds(lines: seq<string>): (r: seq<LineKind<Bandwidth>>)
    ensures |r| == |lines| && forall k :: 0 <= k < |lines| ==> r[k] == KindOf(lines[k])
  {
    seq(|lines|, k requires 0 <= k < |lines| => KindOf(lines[k]))
  }

  /** The first line at or after `i` that switches parsing on, or `|lines|`. */
  function FirstOpen(lines: seq<string>, i: nat): (r: nat)
    requires i <= |lines|
    ensures i <= r <= |lines|
    ensures r < |lines| ==> Opens(Trim(lines[r]))
    decreases |lines| - i
  {
    if i == |lines| || Opens(Trim(lines[i])) then i else FirstOpen(lines, i + 1)
  }

  /** No line before the first opening line switches parsing on. */
  lemma {:induction false} FirstOpenSkips(lines: seq<string>, i: nat)
    requires i <= |lines|
    ensures forall k :: i <= k < FirstOpen(lines, i) ==> !Opens(Trim(lines[k]))
    decreases |lines| - i
  {
    if i < |lines| && !Opens(Trim(lines[i])) { FirstOpenSkips(lines, i + 1); }
  }

  // ---------------------------------------------------------------------------
  // Properties

  /** Before parsing is switched on, every line is passed over. */
  lemma {:induction false} LoopBeforeOpen(lines: seq<string>, i: nat)
    requires i <= |lines|
    ensures PeakLoop(lines, i, false, []) == PeakLoop(lines, FirstOpen(lines, i), false, [])
    decreases |lines| - i
  {
    if i < |lines| && !Opens(Trim(lines[i])) {
      LoopBeforeOpen(lines, i + 1);
    }
  }

  /** Once parsing is on, the loop is the shared collecting loop over the line kinds. */
  lemma {:induction false} LoopIsCollect(lines: seq<string>, i: nat, acc: seq<Bandwidth>)
    requires i <= |lines|
    ensures PeakLoop(lines, i, true, acc) == Collect(Kinds(lines), i, acc)
    decreases |lines| - i
  {
    if i < |lines| {
      var kind := KindOf(lines[i]);
      LoopStep(lines, i, acc);
      assert Kinds(lines)[i] == kind;
      CollectStep(Kinds(lines), i, acc);
      if kind.Data? {
        LoopIsCollect(lines, i + 1, acc + [kind.item]);
      } else if !(kind.Divider? && |acc| > 0) {
        LoopIsCollect(lines, i + 1, acc);
      }
    }
  }

  /** One step of the loop once parsing is on, by the kind of the line. */
  lemma LoopStep(lines: seq<string>, i: nat, acc: seq<Bandwidth>)
    requires i < |lines|
    ensures var kind := KindOf(lines[i]);
      PeakLoop(lines, i, true, acc)
        == if kind.Data? then PeakLoop(lines, i + 1, true, acc + [kind.item])
           else if kind.Divider? && |acc| > 0 then acc
           else PeakLoop(lines, i + 1, true, acc)
  {
  }

  /** The switch-on line is read like every later one. */
  lemma OpenLine(lines: seq<string>, i: nat, acc: seq<Bandwidth>)
    requires i < |lines| && Opens(Trim(lines[i]))
    ensures PeakLoop(lines, i, false, acc) == PeakLoop(lines, i, true, acc)
  {
  }

  /** The entries of the lines the pattern matches, in line order, from the first line
      that switches parsing on (itself included) to the first blank line after an entry;
      nothing before that line counts. */
  function EntriesRun(lines: seq<string>): seq<Bandwidth> {
    var s := FirstOpen(lines, 0);
    if s == |lines| then [] else Run(Kinds(lines), s)
  }

  /** The loop computes the reference description. */
  lemma PeakEntries(lines: seq<string>)
    ensures ParsePeakBandwidths(lines) == EntriesRun(lines)
  {
    var s := FirstOpen(lines, 0);
    if s == |lines| {
      NeverOpened(lines);
    } else {
      OpenedAt(lines, s);
      CollectRun(Kinds(lines), s);
    }
  }

  lemma NeverOpened(lines: seq<string>)
    requires FirstOpen(lines, 0) == |lines|
    ensures ParsePeakBandwidths(lines) == []
  {
    LoopBeforeOpen(lines, 0);
  }

  lemma OpenedAt(lines: seq<string>, s: nat)
    requires s == FirstOpen(lines, 0) && s < |lines|
    ensures ParsePeakBandwidths(lines) == Collect(Kinds(lines), s, [])
  {
    LoopBeforeOpen(lines, 0);
    LoopFromOpen(lines, s);
  }

  lemma LoopFromOpen(lines: seq<string>, s: nat)
    requires s < |lines| && Opens(Trim(lines[s]))
    ensures PeakLoop(lines, s, false, []) == Collect(Kinds(lines), s, [])
  {
    OpenLine(lines, s, []);
    LoopIsCollect(lines, s, []);
  }

  /** Every label is free of a parenthesised part: no `(` in it is followed by a `)`. */
  predicate NoParenPair(s: string) {
    forall i, j :: 0 <= i < j < |s| && s[i] == '(' ==> s[j] != ')'
  }

  /** Text with no closing parenthesis keeps none. */
  lemma {:induction false} RemoveParensCloseFree(s: string, p: nat)
    requires p <= |s| && forall k :: p <= k < |s| ==> s[k] != ')'
    ensures forall k :: 0 <= k < |RemoveParens(s, p)| ==> RemoveParens(s, p)[k] != ')'
    decreases |s| - p
  {
    if p < |s| {
      RemoveParensCloseFree(s, p + 1);
      KeptFirst(s, p);
    }
  }

  /** Where no parenthesised part starts at `p`, the first character is kept. */
  lemma KeptFirst(s: string, p: nat)
    requires p < |s|
    requires forall k :: p <= k < |s| ==> s[k] != ')'
    ensures RemoveParens(s, p) == [s[p]] + RemoveParens(s, p + 1)
  {
  }

  /** Removal leaves no parenthesised part in a text without line breaks. */
  lemma {:induction false} RemoveParensNoPair(s: string, p: nat)
    requires p <= |s| && forall k :: 0 <= k < |s| ==> !IsLineTerminator(s[k])
    ensures NoParenPair(RemoveParens(s, p))
    decreases |s| - p
  {
    if p < |s| {
      var w := SkipSpaces(s, p);
      if w < |s| && s[w] == '(' && CloseFrom(s, w + 1) < |s| && s[CloseFrom(s, w + 1)] == ')' {
        RemoveParensNoPair(s, CloseFrom(s, w + 1) + 1);
      } else {
        RemoveParensNoPair(s, p + 1);
        KeptNoPair(s, p);
      }
    }
  }

  /** A kept character cannot open a parenthesised part of the result. */
  lemma KeptNoPair(s: string, p: nat)
    requires p < |s| && forall k :: 0 <= k < |s| ==> !IsLineTerminator(s[k])
    requires NoParenPair(RemoveParens(s, p + 1))
    requires var w := SkipSpaces(s, p);
      !(w < |s| && s[w] == '(' && CloseFrom(s, w + 1) < |s| && s[CloseFrom(s, w + 1)] == ')')
    ensures RemoveParens(s, p) == [s[p]] + RemoveParens(s, p + 1)
    ensures NoParenPair(RemoveParens(s, p))
  {
    var rest := RemoveParens(s, p + 1);
    if s[p] == '(' {
      assert SkipSpaces(s, p) == p;
      CloseFromRun(s, p + 1);
      RemoveParensCloseFree(s, p + 1);
    }
    ConsNoPair(s[p], rest);
  }

  lemma ConsNoPair(c: char, rest: string)
    requires NoParenPair(rest)
    requires c == '(' ==> forall k :: 0 <= k < |rest| ==> rest[k] != ')'
    ensures NoParenPair([c] + rest)
  {
    var s := [c] + rest;
    forall i, j | 0 <= i < j < |s| && s[i] == '(' ensures s[j] != ')' {
      assert s[j] == rest[j - 1];
      if i > 0 { assert s[i] == rest[i - 1]; }
    }
  }

  /** A slice of a text without parenthesised parts has none either. */
  lemma SliceNoPair(s: string, a: nat, b: nat)
    requires a <= b <= |s| && NoParenPair(s)
    ensures NoParenPair(s[a..b])
  {
    var u := s[a..b];
    forall i, j | 0 <= i < j < |u| && u[i] == '(' ensures u[j] != ')' {
      assert u[i] == s[a + i] && u[j] == s[a + j];
    }
  }

  /** Trimming keeps a text free of parenthesised parts. */
  lemma TrimNoPair(s: string)
    requires NoParenPair(s)
    ensures NoParenPair(Trim(s))
  {
    TrimShape(s);
    SliceNoPair(s, TrimOffset(s), TrimOffset(s) + |Trim(s)|);
  }

  /** The label group holds no line break: `.` and `\S` match none. */
  lemma LabelHasNoBreak(t: string)
    requires IsTrimmed(t) && LabelEnd(t).Some?
    ensures forall k :: 0 <= k < |t[..LabelEnd(t).value]| ==> !IsLineTerminator(t[..LabelEnd(t).value][k])
  {
    var e := WordEnd(t, 0);
    var z := LabelEnd(t).value;
    WordEndRun(t, 0);
    BreakFromRun(t, e);
    assert z <= BreakFrom(t, e);
    forall k | 0 <= k < z ensures !IsLineTerminator(t[k]) {
      if k < e { assert !IsSpace(t[k]); }
    }
  }

  /** A text without line breaks keeps none under trimming. */
  lemma TrimNoBreak(s: string)
    requires forall k :: 0 <= k < |s| ==> !IsLineTerminator(s[k])
    ensures forall k :: 0 <= k < |Trim(s)| ==> !IsLineTerminator(Trim(s)[k])
  {
    TrimShape(s);
    forall k | 0 <= k < |Trim(s)| ensures !IsLineTerminator(Trim(s)[k]) {
      assert Trim(s)[k] == s[TrimOffset(s) + k];
    }
  }

  /** Every entry's label is free of parenthesised parts. */
  lemma EntryLabelNoParens(t: string)
    requires IsTrimmed(t) && EntryOf(t).Some?
    ensures NoParenPair(EntryOf(t).value.name)
  {
    var g := t[..LabelEnd(t).value];
    LabelHasNoBreak(t);
    TrimNoBreak(g);
    RemoveParensNoPair(Trim(g), 0);
    var l := Trim(RemoveParens(Trim(g), 0));
    TrimNoPair(RemoveParens(Trim(g), 0));
    if EndsWith(l, "MB/sec") {
      SliceNoPair(l, 0, |l| - 6);
      TrimNoPair(l[..|l| - 6]);
    }
  }

  /** Text without an opening parenthesis comes back from removal unchanged. */
  lemma {:induction false} RemoveParensOpenFree(s: string, p: nat)
    requires p <= |s| && forall k :: 0 <= k < |s| ==> s[k] != '('
    ensures RemoveParens(s, p) == s[p..]
    decreases |s| - p
  {
    if p < |s| {
      RemoveParensOpenFree(s, p + 1);
      assert s[p..] == [s[p]] + s[p + 1..];
    }
  }

  // ---------------------------------------------------------------------------
  // Printed entries read back

  /** A label as a report prints it: trimmed, non-empty, on one line, without
      parentheses, and not ending in the unit. */
  predicate PlainLabel(l: string) {
    l != [] && IsTrimmed(l) && !EndsWith(l, "MB/sec")
    && forall k :: 0 <= k < |l| ==> l[k] != '(' && !IsLineTerminator(l[k])
  }

  /** A label cut into its first word `w` and the rest `r`: the first word may hold
      colons, as in `3:1 Reads-Writes`, and the rest holds none. */
  predicate LabelWords(w: string, r: string) {
    w != [] && NoSpace(w) && (r == [] || IsSpace(r[0]))
    && forall k :: 0 <= k < |r| ==> r[k] != ':'
  }

  /** A line `label : value` with a plain label whose colons all lie in its first word,
      and a value the group `[0-9.]+` can take (no sign), gives exactly that entry. */
  lemma EntryRoundTrip(w: string, r: string, d: Decimal)
    requires PlainLabel(w + r) && LabelWords(w, r) && d.mantissa >= 0
    ensures IsTrimmed(w + r + " : " + DecimalText(d))
    ensures EntryOf(w + r + " : " + DecimalText(d)) == Some(Bandwidth(w + r, Num(d)))
  {
    var l := w + r;
    var t := l + " : " + DecimalText(d);
    PrintedLabelEnd(w, r, DecimalText(d));
    EntryAt(t, |l|);
    PrintedValue(l, d);
    CleanPlainLabel(l);
  }

  /** The entry of a line whose label group ends at `z`. */
  lemma EntryAt(t: string, z: nat)
    requires IsTrimmed(t) && LabelEnd(t) == Some(z)
    ensures var q := ValueStart(t, z);
      EntryOf(t) == Some(Bandwidth(CleanLabel(t[..z]), FloatCell(t[q..NumCharEnd(t, q)])))
  {
  }

  lemma PrintedShape(l: string, v: string)
    requires PlainLabel(l) && |v| > 0 && IsDigit(v[0]) && IsDigit(v[|v| - 1])
    ensures var t := l + " : " + v;
      IsTrimmed(t) && t[..|l|] == l && t[|l|] == ' ' && t[|l| + 1] == ':' && t[|l| + 2] == ' '
      && t[|l| + 3..] == v
  {
  }

  /** The label group of a printed line is the label: the lazy search from the end of
      the first word meets no colon before the separator. */
  lemma PrintedLabelEnd(w: string, r: string, v: string)
    requires PlainLabel(w + r) && LabelWords(w, r) && |v| > 0 && IsDigit(v[0]) && IsDigit(v[|v| - 1])
    ensures IsTrimmed(w + r + " : " + v) && LabelEnd(w + r + " : " + v) == Some(|w + r|)
  {
    var l := w + r;
    var t := l + " : " + v;
    var n := |l|;
    PrintedShape(l, v);
    var e := WordEnd(t, 0);
    WordEndRun(t, 0);
    assert e <= n by { assert IsSpace(t[n]); }
    assert |w| <= e;
    var hi := BreakFrom(t, e);
    forall k | e <= k < n ensures !IsLineTerminator(t[k]) { assert t[k] == l[k]; }
    BreakFromPast(t, e, n);
    assert ColonAt(t, n) by {
      assert SkipSpaces(t, n) == n + 1 by { assert SkipSpaces(t, n + 1) == n + 1; }
      assert SkipSpaces(t, n + 2) == n + 3;
    }
    forall z | e <= z < n ensures !ColonAt(t, z) {
      NoColonInLabel(w, r, v, z);
    }
    ColonUpFinds(t, e, hi, n);
  }

  /** No label end lies in a plain label past its first word. */
  lemma NoColonInLabel(w: string, r: string, v: string, z: nat)
    requires PlainLabel(w + r) && LabelWords(w, r) && |w| <= z < |w + r|
    ensures !ColonAt(w + r + " : " + v, z)
  {
    var l := w + r;
    var t := l + " : " + v;
    var c := SkipSpaces(t, z);
    assert t[|l| - 1] == l[|l| - 1];
    SkipSpacesStops(t, z, |l| - 1);
    assert t[c] == r[c - |w|];
  }

  /** The lazy search finds the first label end. */
  lemma ColonUpFinds(t: string, z: nat, hi: nat, m: nat)
    requires z <= m <= hi <= |t| && ColonAt(t, m)
    requires forall k :: z <= k < m ==> !ColonAt(t, k)
    ensures ColonUp(t, z, hi) == Some(m)
  {
  }

  /** The value group of a printed line is the printed value. */
  lemma PrintedValue(l: string, d: Decimal)
    requires PlainLabel(l) && d.mantissa >= 0
    ensures var t := l + " : " + DecimalText(d);
      ColonAt(t, |l|) && t[..|l|] == l
      && var q := ValueStart(t, |l|); FloatCell(t[q..NumCharEnd(t, q)]) == Num(d)
  {
    var v := DecimalText(d);
    PrintedShape(l, v);
    PrintedValueStart(l, v);
    PrintedValueRun(l, d);
    ReadPrinted(d);
  }

  lemma PrintedValueStart(l: string, v: string)
    requires PlainLabel(l) && |v| > 0 && IsDigit(v[0]) && IsDigit(v[|v| - 1])
    ensures var t := l + " : " + v; ColonAt(t, |l|) && ValueStart(t, |l|) == |l| + 3
  {
    var t := l + " : " + v;
    var n := |l|;
    PrintedShape(l, v);
    assert SkipSpaces(t, n + 1) == n + 1;
    assert SkipSpaces(t, n + 2) == n + 3;
  }

  lemma PrintedValueRun(l: string, d: Decimal)
    requires d.mantissa >= 0
    ensures var t := l + " : " + DecimalText(d);
      NumCharEnd(t, |l| + 3) == |t| && t[|l| + 3..|t|] == DecimalText(d)
  {
    var v := DecimalText(d);
    var t := l + " : " + v;
    DecimalTextNumChars(d);
    forall k | |l| + 3 <= k < |t| ensures IsNumChar(t[k]) { assert t[k] == v[k - |l| - 3]; }
    NumCharsToEnd(t, |l| + 3);
  }

  lemma {:induction false} NumCharsToEnd(t: string, i: nat)
    requires i <= |t| && forall k :: i <= k < |t| ==> IsNumChar(t[k])
    ensures NumCharEnd(t, i) == |t|
    decreases |t| - i
  {
    if i < |t| { NumCharsToEnd(t, i + 1); }
  }

  /** A plain label is shown as it is. */
  lemma CleanPlainLabel(l: string)
    requires PlainLabel(l)
    ensures CleanLabel(l) == l
  {
    TrimOfTrimmed(l);
    RemoveParensOpenFree(l, 0);
    assert l[0..] == l;
  }
}
