/**
 Strings as JavaScript sees them in the parser: `trim`, `split`, the `\s` class,
 `startsWith`, `endsWith`, `includes` and ASCII case folding.
 */
module Text {

  /** A code point that `String.prototype.trim` removes and the regular-expression
      class `\s` matches: the ECMAScript WhiteSpace set (TAB, VT, FF, SP, NBSP,
      ZWNBSP and the Zs category) together with the LineTerminator set. */
  predicate IsSpace(c: char) {
    var n := c as int;
    n == 0x20 || (0x09 <= n <= 0x0D) || (0xA0 <= n && IsWideSpace(n))
  }

  /** The whitespace code points above the ASCII range. */
  predicate IsWideSpace(n: int) {
    n == 0xA0 || n == 0x1680 || (0x2000 <= n <= 0x200A) || n == 0x2028 || n == 0x2029
    || n == 0x202F || n == 0x205F || n == 0x3000 || n == 0xFEFF
  }

  /** The code points a regular-expression `.` refuses to match. */
  predicate IsLineTerminator(c: char) {
    c == '\n' || c == '\r' || c as int == 0x2028 || c as int == 0x2029
  }

  predicate IsDigit(c: char) {
    '0' as int <= c as int <= '9' as int
  }

  predicate AllSpace(s: string) {
    forall k :: 0 <= k < |s| ==> IsSpace(s[k])
  }

  predicate NoSpace(s: string) {
    forall k :: 0 <= k < |s| ==> !IsSpace(s[k])
  }

  /** Neither end of `s` is whitespace. */
  predicate IsTrimmed(s: string) {
    s == [] || (!IsSpace(s[0]) && !IsSpace(s[|s| - 1]))
  }

  /** The first index at or after `i` that is not whitespace, or `|s|`. */
  function SkipSpaces(s: string, i: nat): (r: nat)
    requires i <= |s|
    ensures i <= r <= |s|
    ensures r == |s| || !IsSpace(s[r])
    decreases |s| - i
  {
    if i < |s| && IsSpace(s[i]) then SkipSpaces(s, i + 1) else i
  }

  /** Everything the whitespace scan passes over is whitespace. */
  lemma {:induction false} SkipSpacesRun(s: string, i: nat)
    requires i <= |s|
    ensures forall k :: i <= k < SkipSpaces(s, i) ==> IsSpace(s[k])
    decreases |s| - i
  {
    if i < |s| && IsSpace(s[i]) { SkipSpacesRun(s, i + 1); }
  }

  /** The smallest index `r` in `lo..j` such that `s[r..j]` is all whitespace. */
  function SkipSpacesBack(s: string, j: nat, lo: nat): (r: nat)
    requires lo <= j <= |s|
    ensures lo <= r <= j
    ensures r == lo || !IsSpace(s[r - 1])
    decreases j
  {
    if j > lo && IsSpace(s[j - 1]) then SkipSpacesBack(s, j - 1, lo) else j
  }

  /** Everything the backward whitespace scan passes over is whitespace. */
  lemma {:induction false} SkipSpacesBackRun(s: string, j: nat, lo: nat)
    requires lo <= j <= |s|
    ensures forall k :: SkipSpacesBack(s, j, lo) <= k < j ==> IsSpace(s[k])
    decreases j
  {
    if j > lo && IsSpace(s[j - 1]) { SkipSpacesBackRun(s, j - 1, lo); }
  }

  /** The whitespace scan stops at or before any non-whitespace character. */
  lemma SkipSpacesStops(s: string, i: nat, m: nat)
    requires i <= m < |s| && !IsSpace(s[m])
    ensures SkipSpaces(s, i) <= m
  {
    SkipSpacesRun(s, i);
  }

  /** The first whitespace index at or after `i`, or `|s|`. */
  function WordEnd(s: string, i: nat): (r: nat)
    requires i <= |s|
    ensures i <= r <= |s|
    ensures r == |s| || IsSpace(s[r])
    decreases |s| - i
  {
    if i < |s| && !IsSpace(s[i]) then WordEnd(s, i + 1) else i
  }

  /** A word has no whitespace in it. */
  lemma {:induction false} WordEndRun(s: string, i: nat)
    requires i <= |s|
    ensures forall k :: i <= k < WordEnd(s, i) ==> !IsSpace(s[k])
    decreases |s| - i
  {
    if i < |s| && !IsSpace(s[i]) { WordEndRun(s, i + 1); }
  }

  /** The first line terminator at or after `i`, or `|s|`: how far a regular
      expression's `.` can reach from `i`. */
  function BreakFrom(s: string, i: nat): (r: nat)
    requires i <= |s|
    ensures i <= r <= |s|
    ensures r == |s| || IsLineTerminator(s[r])
    decreases |s| - i
  {
    if i < |s| && !IsLineTerminator(s[i]) then BreakFrom(s, i + 1) else i
  }

  /** The stretch before the first line terminator holds none. */
  lemma {:induction false} BreakFromRun(s: string, i: nat)
    requires i <= |s|
    ensures forall k :: i <= k < BreakFrom(s, i) ==> !IsLineTerminator(s[k])
    decreases |s| - i
  {
    if i < |s| && !IsLineTerminator(s[i]) { BreakFromRun(s, i + 1); }
  }

  /** A stretch without line terminators lies before the first one. */
  lemma {:induction false} BreakFromPast(s: string, i: nat, m: nat)
    requires i <= m <= |s| && forall k :: i <= k < m ==> !IsLineTerminator(s[k])
    ensures m <= BreakFrom(s, i)
    decreases m - i
  {
    if i < m { BreakFromPast(s, i + 1, m); }
  }

  /** `s` with its leading whitespace removed: `s.trimStart()`. */
  function TrimStart(s: string): (r: string)
    ensures |r| <= |s| && r == s[|s| - |r|..]
    ensures r == [] || !IsSpace(r[0])
  {
    s[SkipSpaces(s, 0)..]
  }

  /** The number of whitespace characters `trim` removes from the front of `s`. */
  function TrimOffset(s: string): nat {
    SkipSpaces(s, 0)
  }

  /** JavaScript's `s.trim()`: `s` with both whitespace ends cut. */
  function Trim(s: string): (r: string)
    ensures IsTrimmed(r)
  {
    var a := SkipSpaces(s, 0);
    s[a..SkipSpacesBack(s, |s|, a)]
  }

  /** `Trim(s)` is the slice of `s` between its whitespace ends, and it is empty
      exactly when `s` is all whitespace. */
  lemma TrimShape(s: string)
    ensures TrimOffset(s) + |Trim(s)| <= |s|
    ensures Trim(s) == s[TrimOffset(s)..TrimOffset(s) + |Trim(s)|]
    ensures AllSpace(s[..TrimOffset(s)]) && AllSpace(s[TrimOffset(s) + |Trim(s)|..])
    ensures Trim(s) == [] <==> AllSpace(s)
  {
    var a := SkipSpaces(s, 0);
    var b := SkipSpacesBack(s, |s|, a);
    SkipSpacesRun(s, 0);
    SkipSpacesBackRun(s, |s|, a);
    var front := s[..a];
    var back := s[b..];
    assert AllSpace(front) by {
      forall k | 0 <= k < |front| ensures IsSpace(front[k]) { assert front[k] == s[k]; }
    }
    assert AllSpace(back) by {
      forall k | 0 <= k < |back| ensures IsSpace(back[k]) { assert back[k] == s[b + k]; }
    }
    if b == a {
      AllSpaceJoin(front, back);
      assert front + back == s;
    } else {
      assert !IsSpace(s[a]);
    }
  }

  /** `trimStart` leaves the trimmed string followed by the trailing whitespace. */
  lemma TrimStartSplit(s: string) returns (tail: string)
    ensures TrimStart(s) == Trim(s) + tail && AllSpace(tail)
  {
    TrimShape(s);
    tail := s[TrimOffset(s) + |Trim(s)|..];
  }

  lemma AllSpaceJoin(a: string, b: string)
    requires AllSpace(a) && AllSpace(b)
    ensures AllSpace(a + b)
  {
    forall k | 0 <= k < |a + b| ensures IsSpace((a + b)[k]) {
      if k < |a| { assert (a + b)[k] == a[k]; } else { assert (a + b)[k] == b[k - |a|]; }
    }
  }

  /** The maximal whitespace-free runs of `s` at or after index `i`, left to right. */
  function WordsFrom(s: string, i: nat): seq<string>
    requires i <= |s|
    decreases |s| - i
  {
    var a := SkipSpaces(s, i);
    if a == |s| then []
    else [s[a..WordEnd(s, a)]] + WordsFrom(s, WordEnd(s, a))
  }

  /** The maximal whitespace-free runs of `s`, left to right:
      JavaScript's `s.split(/\s+/).filter(p => p !== "")`. */
  function Words(s: string): seq<string> {
    WordsFrom(s, 0)
  }

  /** A non-empty trimmed string has at least one word. */
  lemma WordsNonEmpty(s: string)
    requires s != [] && IsTrimmed(s)
    ensures Words(s) != []
  {
    assert SkipSpaces(s, 0) == 0;
  }

  /** Every word is non-empty and free of whitespace. */
  lemma WordsShape(s: string)
    ensures forall k :: 0 <= k < |Words(s)| ==> Words(s)[k] != [] && NoSpace(Words(s)[k])
  {
    assert Words(s) == WordsFrom(s, 0);
    WordsFromShape(s, 0);
  }

  lemma {:induction false} WordsFromShape(s: string, i: nat)
    requires i <= |s|
    ensures forall k :: 0 <= k < |WordsFrom(s, i)| ==>
      WordsFrom(s, i)[k] != [] && NoSpace(WordsFrom(s, i)[k])
    decreases |s| - i
  {
    var a := SkipSpaces(s, i);
    if a < |s| {
      var b := WordEnd(s, a);
      var w := s[a..b];
      var rest := WordsFrom(s, b);
      var ws := WordsFrom(s, i);
      WordsFromShape(s, b);
      WordEndRun(s, a);
      assert ws == [w] + rest;
      assert w != [] && NoSpace(w) by {
        forall k | 0 <= k < |w| ensures !IsSpace(w[k]) { assert w[k] == s[a + k]; }
      }
      forall k | 0 <= k < |ws| ensures ws[k] != [] && NoSpace(ws[k]) {
        if k > 0 { assert ws[k] == rest[k - 1]; } else { assert ws[k] == w; }
      }
    }
  }

  /** JavaScript's `t.split(/\s+/)` for a string `t` that has no whitespace at
      either end (every call site in the parser splits a trimmed string):
      the empty string splits into one empty piece. */
  function SplitTrimmed(t: string): seq<string> {
    if t == [] then [""] else Words(t)
  }

  /** The last piece of `t.split(/\s+/)`: what `parts.pop()` returns. */
  function LastPiece(t: string): string {
    var parts := SplitTrimmed(t);
    if |parts| == 0 then "" else parts[|parts| - 1]
  }

  /** `ws` joined with single spaces. */
  function Unwords(ws: seq<string>): string {
    if ws == [] then ""
    else if |ws| == 1 then ws[0]
    else ws[0] + " " + Unwords(ws[1..])
  }

  /** The first occurrence of `c` in `s`. */
  function IndexOf(s: string, c: char): (r: nat)
    requires c in s
    ensures r < |s| && s[r] == c && c !in s[..r]
  {
    if s[0] == c then 0
    else
      var r := IndexOf(s[1..], c);
      assert s[..r + 1] == [s[0]] + s[1..][..r];
      r + 1
  }

  /** The last occurrence of `c` in `s`, or -1: `s.lastIndexOf(c)`. */
  function LastIndexOf(s: string, c: char): (r: int)
    ensures -1 <= r < |s|
    ensures r >= 0 ==> s[r] == c
    ensures forall k :: r < k < |s| ==> s[k] != c
  {
    if |s| == 0 then -1
    else if s[|s| - 1] == c then |s| - 1
    else LastIndexOf(s[..|s| - 1], c)
  }

  /** JavaScript's `s.split(sep)` for a one-character separator. */
  function Split(s: string, sep: char): (r: seq<string>)
    ensures |r| > 0
    ensures forall k :: 0 <= k < |r| ==> sep !in r[k]
    decreases |s|
  {
    if sep in s then
      var i := IndexOf(s, sep);
      [s[..i]] + Split(s[i + 1..], sep)
    else [s]
  }

  /** The pieces joined back with `sep` between them: `parts.join(sep)`. */
  function Join(parts: seq<string>, sep: char): string
    requires |parts| > 0
  {
    if |parts| == 1 then parts[0] else parts[0] + [sep] + Join(parts[1..], sep)
  }

  predicate StartsWith(s: string, p: string) {
    |p| <= |s| && s[..|p|] == p
  }

  predicate EndsWith(s: string, p: string) {
    |p| <= |s| && s[|s| - |p|..] == p
  }

  /** `s.includes(p)`. */
  predicate Contains(s: string, p: string)
    decreases |s|
  {
    StartsWith(s, p) || (|s| > 0 && Contains(s[1..], p))
  }

  /** A string containing `p` is at least as long as `p`. */
  lemma {:induction false} ContainsLength(s: string, p: string)
    requires Contains(s, p)
    ensures |p| <= |s|
    decreases |s|
  {
    if !StartsWith(s, p) {
      ContainsLength(s[1..], p);
    }
  }

  /** A string contains whatever one of its suffixes starts with. */
  lemma {:induction false} ContainsAt(s: string, k: nat, p: string)
    requires k <= |s| && StartsWith(s[k..], p)
    ensures Contains(s, p)
    decreases k
  {
    if k == 0 {
      assert s[k..] == s;
    } else {
      assert s[1..][k - 1..] == s[k..];
      ContainsAt(s[1..], k - 1, p);
    }
  }

  function LowerChar(c: char): char {
    if 'A' <= c <= 'Z' then (c as int + 32) as char else c
  }

  /** `s.toLowerCase()` restricted to ASCII letters. */
  function Lower(s: string): (r: string)
    ensures |r| == |s|
  {
    seq(|s|, k requires 0 <= k < |s| => LowerChar(s[k]))
  }

  /** `s` begins with `p` when compared ASCII-case-insensitively, as a regular
      expression with the `i` flag compares; `p` is written in lower case. */
  predicate StartsWithNoCase(s: string, p: string) {
    |p| <= |s| && Lower(s[..|p|]) == p
  }

  /** Lower-casing works character by character, so it distributes over joining. */
  lemma LowerAppend(a: string, b: string)
    ensures Lower(a + b) == Lower(a) + Lower(b)
  {
    assert forall k :: 0 <= k < |a + b| ==> Lower(a + b)[k] == (Lower(a) + Lower(b))[k];
  }

  /** Whitespace has no case. */
  lemma LowerSpaces(g: string)
    requires AllSpace(g)
    ensures Lower(g) == g
  {
    assert forall k :: 0 <= k < |g| ==> Lower(g)[k] == g[k];
  }

  // ---------------------------------------------------------------------------
  // Properties

  /** Trimming is idempotent. */
  lemma TrimIdempotent(s: string)
    ensures Trim(Trim(s)) == Trim(s)
  {
    TrimOfTrimmed(Trim(s));
  }

  /** A string without whitespace ends is its own trim. */
  lemma TrimOfTrimmed(s: string)
    requires IsTrimmed(s)
    ensures Trim(s) == s
  {
  }

  /** A string whose first character is not whitespace keeps its front under `trimStart`. */
  lemma TrimStartNoLead(s: string)
    requires |s| > 0 && !IsSpace(s[0])
    ensures TrimStart(s) == s
  {
  }

  /** The splitter and the joiner are inverse: `text.split(sep).join(sep) == text`. */
  lemma {:induction false} JoinSplit(s: string, sep: char)
    ensures Join(Split(s, sep), sep) == s
    decreases |s|
  {
    if sep in s {
      var i := IndexOf(s, sep);
      JoinSplit(s[i + 1..], sep);
      assert s == s[..i] + [sep] + s[i + 1..];
    }
  }

  /** Pieces free of the separator come back unchanged from a join followed by a split. */
  lemma {:induction false} SplitJoin(parts: seq<string>, sep: char)
    requires |parts| > 0
    requires forall k :: 0 <= k < |parts| ==> sep !in parts[k]
    ensures Split(Join(parts, sep), sep) == parts
    decreases |parts|
  {
    if |parts| > 1 {
      var tail := parts[1..];
      SeparatorFreeTail(parts, sep);
      SplitCons(parts[0], sep, Join(tail, sep));
      SplitJoin(tail, sep);
      ConsTail(parts);
    }
  }

  lemma SeparatorFreeTail(parts: seq<string>, sep: char)
    requires |parts| > 0
    requires forall k :: 0 <= k < |parts| ==> sep !in parts[k]
    ensures forall k :: 0 <= k < |parts[1..]| ==> sep !in parts[1..][k]
  {
    forall k | 0 <= k < |parts[1..]| ensures sep !in parts[1..][k] { assert parts[1..][k] == parts[k + 1]; }
  }

  lemma ConsTail<T>(xs: seq<T>)
    requires |xs| > 0
    ensures [xs[0]] + xs[1..] == xs
  {
  }

  /** A separator-free piece followed by the separator is the first piece. */
  lemma SplitCons(p: string, sep: char, rest: string)
    requires sep !in p
    ensures Split(p + [sep] + rest, sep) == [p] + Split(rest, sep)
  {
    var s := p + [sep] + rest;
    assert s[..|p|] == p;
    IndexOfAt(s, sep, |p|);
    assert s[|p| + 1..] == rest;
  }

  /** The first occurrence of `c` is at `i` when `s[i]` is `c` and no earlier character is. */
  lemma {:induction false} IndexOfAt(s: string, c: char, i: nat)
    requires i < |s| && s[i] == c && c !in s[..i]
    ensures IndexOf(s, c) == i
    decreases i
  {
    if i > 0 {
      assert s[0] == s[..i][0];
      assert s[1..][..i - 1] == s[1..i];
      assert s[1..i] == s[..i][1..];
      IndexOfAt(s[1..], c, i - 1);
    }
  }

  /** Every one of `ws` is a word: non-empty and free of whitespace. */
  predicate AllWords(ws: seq<string>) {
    forall k :: 0 <= k < |ws| ==> ws[k] != [] && NoSpace(ws[k])
  }

  /** Joining two lists of words gives a list of words. */
  lemma AllWordsJoin(a: seq<string>, b: seq<string>)
    requires AllWords(a) && AllWords(b)
    ensures AllWords(a + b)
  {
    forall k | 0 <= k < |a + b| ensures (a + b)[k] != [] && NoSpace((a + b)[k]) {
      if k < |a| { assert (a + b)[k] == a[k]; } else { assert (a + b)[k] == b[k - |a|]; }
    }
  }

  /** Words separated by single spaces split back into the same words. */
  lemma {:induction false} WordsUnwords(ws: seq<string>)
    requires forall k :: 0 <= k < |ws| ==> ws[k] != [] && NoSpace(ws[k])
    ensures Words(Unwords(ws)) == ws
    decreases |ws|
  {
    if |ws| == 1 {
      WordsCons(ws[0], "");
      assert Unwords(ws) == ws[0] + "";
    } else if |ws| > 1 {
      var rest := Unwords(ws[1..]);
      WordsCons(ws[0], " " + rest);
      assert Unwords(ws) == ws[0] + (" " + rest);
      WordsSkipsLeadingSpace(rest);
      WordsUnwords(ws[1..]);
    }
  }

  /** After trimming a space, a word and a tail that is empty or opens with whitespace,
      that word is the first of the words. */
  lemma FirstWordAfterSpace(w: string, u: string)
    requires w != [] && NoSpace(w) && (u == [] || IsSpace(u[0]))
    ensures Trim(" " + w + u) != [] && Words(Trim(" " + w + u))[0] == w
  {
    hide Words, WordsFrom, WordEnd, Trim;
    var u' := TrimAfterSpace(w, u);
    WordsCons(w, u');
  }

  /** Trimming `" " + w + u` keeps `w` and a prefix of `u` that starts with whitespace. */
  lemma TrimAfterSpace(w: string, u: string) returns (u': string)
    requires w != [] && NoSpace(w) && (u == [] || IsSpace(u[0]))
    ensures Trim(" " + w + u) == w + u' && (u' == [] || IsSpace(u'[0]))
  {
    var b := TrimBounds(w, u);
    hide Trim, SkipSpaces, SkipSpacesBack, NoSpace;
    u' := u[..b - 1 - |w|];
    SliceAfterSpace(w, u, b);
    if u' != [] { assert u'[0] == u[0]; }
  }

  /** `Trim(" " + w + u)` cuts the leading space and ends at or after the end of `w`. */
  lemma TrimBounds(w: string, u: string) returns (b: nat)
    requires w != [] && NoSpace(w)
    ensures 1 + |w| <= b <= 1 + |w| + |u| && Trim(" " + w + u) == (" " + w + u)[1..b]
  {
    hide Words, WordsFrom, WordEnd;
    var x := " " + w + u;
    assert x[1] == w[0];
    assert SkipSpaces(x, 0) == 1 by { assert SkipSpaces(x, 0) == SkipSpaces(x, 1); }
    b := SkipSpacesBack(x, |x|, 1);
    SkipSpacesBackRun(x, |x|, 1);
    assert b >= 1 + |w| by {
      assert x[|w|] == w[|w| - 1];
    }
  }

  /** The slice of `" " + w + u` from 1 to `b` is `w` and the first part of `u`. */
  lemma SliceAfterSpace(w: string, u: string, b: nat)
    requires 1 + |w| <= b <= 1 + |w| + |u|
    ensures (" " + w + u)[1..b] == w + u[..b - 1 - |w|]
  {
    var x := " " + w + u;
    var y := w + u;
    assert x == " " + y;
    assert x[1..b] == y[..b - 1];
    PrefixOfJoin(w, u, b - 1);
  }

  lemma PrefixOfJoin(w: string, u: string, n: nat)
    requires |w| <= n <= |w| + |u|
    ensures (w + u)[..n] == w + u[..n - |w|]
  {
  }

  /** The last occurrence of `c` in `a + [c] + b` is the one after `a` when `b` holds none. */
  lemma {:induction false} LastIndexOfJoin(a: string, c: char, b: string)
    requires c !in b
    ensures LastIndexOf(a + [c] + b, c) == |a|
    decreases |b|
  {
    var s := a + [c] + b;
    if b != [] {
      var b' := b[..|b| - 1];
      assert s[|s| - 1] == b[|b| - 1];
      assert s[..|s| - 1] == a + [c] + b';
      assert c !in b' by {
        forall k | 0 <= k < |b'| ensures b'[k] != c { assert b'[k] == b[k]; }
      }
      LastIndexOfJoin(a, c, b');
    }
  }

  /** The text on either side of the `c` placed between `a` and `b`. */
  lemma JoinSides(a: string, c: char, b: string)
    ensures (a + [c] + b)[..|a|] == a && (a + [c] + b)[|a| + 1..] == b
  {
  }

  /** A word followed by nothing or by whitespace is the first of the words. */
  lemma WordsCons(w: string, rest: string)
    requires w != [] && NoSpace(w)
    requires rest == [] || IsSpace(rest[0])
    ensures Words(w + rest) == [w] + Words(rest)
  {
    var s := w + rest;
    assert s[0] == w[0];
    assert SkipSpaces(s, 0) == 0;
    if rest != [] { assert s[|w|] == rest[0]; }
    WordEndAt(s, 0, |w|);
    assert s[0..|w|] == w;
    WordsFromShift(w, rest, 0);
  }

  /** A whitespace-free run `s[i..j]` followed by whitespace or the end is where the
      word scan from `i` stops. */
  lemma {:induction false} WordEndAt(s: string, i: nat, j: nat)
    requires i <= j <= |s|
    requires forall k :: i <= k < j ==> !IsSpace(s[k])
    requires j == |s| || IsSpace(s[j])
    ensures WordEnd(s, i) == j
    decreases j - i
  {
    if i < j { WordEndAt(s, i + 1, j); }
  }

  /** Prefixing `x` shifts the whitespace scan by `|x|`. */
  lemma {:induction false} SkipSpacesShift(x: string, y: string, i: nat)
    requires i <= |y|
    ensures SkipSpaces(x + y, |x| + i) == |x| + SkipSpaces(y, i)
    decreases |y| - i
  {
    if i < |y| {
      assert (x + y)[|x| + i] == y[i];
      if IsSpace(y[i]) { SkipSpacesShift(x, y, i + 1); }
    }
  }

  /** Prefixing `x` shifts the word-end scan by `|x|`. */
  lemma {:induction false} WordEndShift(x: string, y: string, i: nat)
    requires i <= |y|
    ensures WordEnd(x + y, |x| + i) == |x| + WordEnd(y, i)
    decreases |y| - i
  {
    if i < |y| {
      assert (x + y)[|x| + i] == y[i];
      if !IsSpace(y[i]) { WordEndShift(x, y, i + 1); }
    }
  }

  /** The words of `x + y` after `x` are the words of `y`. */
  lemma {:induction false} WordsFromShift(x: string, y: string, i: nat)
    requires i <= |y|
    ensures WordsFrom(x + y, |x| + i) == WordsFrom(y, i)
    decreases |y| - i
  {
    hide WordsFrom, WordEnd, SkipSpaces;
    var a := SkipSpaces(y, i);
    SkipSpacesShift(x, y, i);
    if a < |y| {
      var b := WordEnd(y, a);
      WordEndShift(x, y, a);
      SliceShift(x, y, a, b);
      WordsFromShift(x, y, b);
      WordsFromStepAt(x + y, |x| + i, |x| + a, |x| + b);
      WordsFromStepAt(y, i, a, b);
    } else {
      WordsFromEnd(x + y, |x| + i);
      WordsFromEnd(y, i);
    }
  }

  lemma WordsFromStepAt(s: string, i: nat, a: nat, b: nat)
    requires i <= a < |s| && a == SkipSpaces(s, i) && b == WordEnd(s, a)
    ensures WordsFrom(s, i) == [s[a..b]] + WordsFrom(s, b)
  {
  }

  lemma WordsFromEnd(s: string, i: nat)
    requires i <= |s| && SkipSpaces(s, i) == |s|
    ensures WordsFrom(s, i) == []
  {
  }

  lemma SliceShift(x: string, y: string, a: nat, b: nat)
    requires a <= b <= |y|
    ensures (x + y)[|x| + a..|x| + b] == y[a..b]
  {
  }

  /** One leading space does not change the words of a string. */
  lemma WordsSkipsLeadingSpace(s: string)
    ensures Words(" " + s) == Words(s)
  {
    var t := " " + s;
    assert SkipSpaces(t, 0) == SkipSpaces(t, 1);
    assert WordsFrom(t, 0) == WordsFrom(t, 1);
    WordsFromShift(" ", s, 0);
  }

  /** Every character of `s` satisfies `p`. */
  predicate AllChars(s: string, p: char -> bool) {
    forall k :: 0 <= k < |s| ==> p(s[k])
  }

  /** The words of a string whose characters all satisfy `p` consist of such characters. */
  lemma WordsChars(s: string, p: char -> bool)
    requires AllChars(s, p)
    ensures forall w :: w in Words(s) ==> AllChars(w, p)
  {
    WordsFromChars(s, 0, p);
  }

  lemma {:induction false} WordsFromChars(s: string, i: nat, p: char -> bool)
    requires i <= |s| && AllChars(s, p)
    ensures forall w :: w in WordsFrom(s, i) ==> AllChars(w, p)
    decreases |s| - i
  {
    var a := SkipSpaces(s, i);
    if a < |s| {
      var b := WordEnd(s, a);
      var w := s[a..b];
      assert AllChars(w, p) by {
        forall k | 0 <= k < |w| ensures p(w[k]) { assert w[k] == s[a + k]; }
      }
      WordsFromChars(s, b, p);
      assert WordsFrom(s, i) == [w] + WordsFrom(s, b);
    }
  }

  /** Words joined by spaces consist of the words' characters and spaces. */
  lemma {:induction false} UnwordsChars(ws: seq<string>, p: char -> bool)
    requires p(' ')
    requires forall k :: 0 <= k < |ws| ==> AllChars(ws[k], p)
    ensures AllChars(Unwords(ws), p)
    decreases |ws|
  {
    if |ws| > 1 {
      UnwordsChars(ws[1..], p);
      var rest := Unwords(ws[1..]);
      var s := ws[0] + " " + rest;
      forall k | 0 <= k < |s| ensures p(s[k]) {
        if k < |ws[0]| {
          assert s[k] == ws[0][k];
        } else if k > |ws[0]| {
          assert s[k] == rest[k - |ws[0]| - 1];
        }
      }
    }
  }

  /** Words joined by spaces begin with the first word's first character and end
      with the last word's last character. */
  lemma {:induction false} UnwordsEnds(ws: seq<string>)
    requires |ws| > 0
    requires forall k :: 0 <= k < |ws| ==> ws[k] != []
    ensures var s := Unwords(ws);
      |s| > 0 && s[0] == ws[0][0] && s[|s| - 1] == ws[|ws| - 1][|ws[|ws| - 1]| - 1]
    decreases |ws|
  {
    if |ws| > 1 {
      UnwordsEnds(ws[1..]);
      var rest := Unwords(ws[1..]);
      var s := ws[0] + " " + rest;
      assert s[|s| - 1] == rest[|rest| - 1];
    }
  }
}
