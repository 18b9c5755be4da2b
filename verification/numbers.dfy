/**
 The number readers the parser calls: `parseFloat`, `parseInt` and `Number(...)`
 applied to a string. Values are exact decimals; IEEE rounding is not modelled.
 */
module Numbers {
  import opened Options
  import opened Text

  /** The exact number `mantissa / 10^scale`. */
  datatype Decimal = Decimal(mantissa: int, scale: nat)

  predicate AllDigits(s: string) {
    forall k :: 0 <= k < |s| ==> IsDigit(s[k])
  }

  /** `s` matches `^\d+$`. */
  predicate IsDigitRun(s: string) {
    |s| > 0 && AllDigits(s)
  }

  /** The value of a digit character. */
  function DigitValue(c: char): int {
    c as int - '0' as int
  }

  function DigitChar(n: nat): (c: char)
    requires n < 10
    ensures IsDigit(c) && DigitValue(c) == n
  {
    ('0' as int + n) as char
  }

  /** The value of a string of decimal digits, most significant first. */
  function DigitsValue(d: string): int {
    if d == [] then 0 else DigitsValue(d[..|d| - 1]) * 10 + DigitValue(d[|d| - 1])
  }

  /** The character class `[0-9.]`. */
  predicate IsNumChar(c: char) {
    IsDigit(c) || c == '.'
  }

  /** The first index at or after `i` outside `[0-9.]`, or `|s|`: where a greedy
      `[0-9.]+` starting at `i` stops. */
  function NumCharEnd(s: string, i: nat): (r: nat)
    requires i <= |s|
    ensures i <= r <= |s|
    ensures r == |s| || !IsNumChar(s[r])
    decreases |s| - i
  {
    if i < |s| && IsNumChar(s[i]) then NumCharEnd(s, i + 1) else i
  }

  /** Every character the scan passes over is a digit or a dot. */
  lemma {:induction false} NumCharEndRun(s: string, i: nat)
    requires i <= |s|
    ensures forall k :: i <= k < NumCharEnd(s, i) ==> IsNumChar(s[k])
    decreases |s| - i
  {
    if i < |s| && IsNumChar(s[i]) { NumCharEndRun(s, i + 1); }
  }

  /** The first index at or after `i` that is not a decimal digit, or `|s|`. */
  function DigitEnd(s: string, i: nat): (r: nat)
    requires i <= |s|
    ensures i <= r <= |s|
    ensures r == |s| || !IsDigit(s[r])
    decreases |s| - i
  {
    if i < |s| && IsDigit(s[i]) then DigitEnd(s, i + 1) else i
  }

  /** Every character the scan passes over is a digit. */
  lemma {:induction false} DigitEndRun(s: string, i: nat)
    requires i <= |s|
    ensures forall k :: i <= k < DigitEnd(s, i) ==> IsDigit(s[k])
    decreases |s| - i
  {
    if i < |s| && IsDigit(s[i]) { DigitEndRun(s, i + 1); }
  }

  /** Whether `t` opens with a minus sign, and `t` without its optional `+` or `-`. */
  function SplitSign(t: string): (bool, string) {
    if |t| > 0 && (t[0] == '+' || t[0] == '-') then (t[0] == '-', t[1..]) else (false, t)
  }

  /** `u` opens with an unsigned decimal literal: a digit, or a point and a digit. */
  predicate StartsUnsigned(u: string) {
    (|u| > 0 && IsDigit(u[0])) || (|u| > 1 && u[0] == '.' && IsDigit(u[1]))
  }

  /** `t` opens with a decimal literal: an optional sign, then an unsigned literal. */
  predicate StartsNumeric(t: string) {
    StartsUnsigned(SplitSign(t).1)
  }

  /** Where the digits after the point end, for a literal whose integer digits end
      at `e`; `e` itself when no point follows. */
  function FractionEnd(u: string, e: nat): (f: nat)
    requires e <= |u|
    ensures e <= f <= |u|
  {
    if e < |u| && u[e] == '.' then DigitEnd(u, e + 1) else e
  }

  /** The digits of the literal `u[..f]` whose integer digits end at `e`, with the
      point left out. */
  function LiteralDigits(u: string, e: nat, f: nat): string
    requires e <= f <= |u|
  {
    if f == e then u[..e] else u[..e] + u[e + 1..f]
  }

  /** The longest unsigned decimal literal `\d+(\.\d*)?|\.\d+` at the front of `u`: the
      value of its digits, the number of digits after its point, and its length. */
  function UnsignedPrefix(u: string): (r: Option<(int, nat, nat)>)
    ensures r.Some? <==> StartsUnsigned(u)
    ensures r.Some? ==> 0 < r.value.2 <= |u|
  {
    var e := DigitEnd(u, 0);
    var f := FractionEnd(u, e);
    if f <= e + 1 && e == 0 then None
    else Some((DigitsValue(LiteralDigits(u, e, f)), if f == e then 0 else f - e - 1, f))
  }

  /** The longest decimal literal `[+-]?(\d+(\.\d*)?|\.\d+)` at the front of `t`,
      with the number of characters it spans. */
  function DecimalPrefix(t: string): (r: Option<(Decimal, nat)>)
    ensures r.Some? <==> StartsNumeric(t)
    ensures r.Some? ==> r.value.1 <= |t|
  {
    var (negative, u) := SplitSign(t);
    match UnsignedPrefix(u)
    case None => None
    case Some((m, scale, len)) => Some((Decimal(if negative then -m else m, scale), |t| - |u| + len))
  }

  /** JavaScript's `parseFloat(s)`: the decimal literal at the front of `s` after
      leading whitespace, or `None` where JavaScript yields NaN. */
  function ParseFloat(s: string): (r: Option<Decimal>)
    ensures r.Some? <==> StartsNumeric(TrimStart(s))
  {
    match DecimalPrefix(TrimStart(s))
    case Some((d, _)) => Some(d)
    case None => None
  }

  /** JavaScript's `parseInt(s)` in base ten: the integer literal `[+-]?\d+` at the
      front of `s` after leading whitespace, or `None` for NaN. */
  function ParseInt(s: string): (r: Option<int>)
    ensures r.Some? <==> var u := SplitSign(TrimStart(s)).1; |u| > 0 && IsDigit(u[0])
  {
    var (negative, u) := SplitSign(TrimStart(s));
    var e := DigitEnd(u, 0);
    if e == 0 then None
    else
      var m := DigitsValue(u[..e]);
      Some(if negative then -m else m)
  }

  /** JavaScript's `Number(s)` for a string: the whole trimmed string must be one
      decimal literal; a blank string is zero. */
  function ParseNumber(s: string): (r: Option<Decimal>)
    ensures Trim(s) == [] ==> r == Some(Decimal(0, 0))
    ensures Trim(s) != [] && r.Some? ==> StartsNumeric(Trim(s))
  {
    var t := Trim(s);
    if t == [] then Some(Decimal(0, 0))
    else
      match DecimalPrefix(t)
      case Some((d, len)) => if len == |t| then Some(d) else None
      case None => None
  }

  /** One JavaScript value in a parsed table: a number, `NaN`, or `null`. */
  datatype Cell = Num(value: Decimal) | NaN | Null

  /** `parseFloat(s)` as a table value. */
  function FloatCell(s: string): (r: Cell)
    ensures r != Null
  {
    match ParseFloat(s)
    case Some(d) => Num(d)
    case None => NaN
  }

  // ---------------------------------------------------------------------------
  // Printing, the inverse of reading

  /** The digits of `n` with no leading zero. */
  function NatDigits(n: nat): (r: string)
    ensures |r| > 0 && AllDigits(r)
  {
    if n < 10 then [DigitChar(n)] else NatDigits(n / 10) + [DigitChar(n % 10)]
  }

  function Zeros(n: nat): (r: string)
    ensures |r| == n && AllDigits(r)
  {
    if n == 0 then [] else Zeros(n - 1) + "0"
  }

  /** The digits of `n` padded with zeros to at least `width` characters. */
  function PaddedDigits(n: nat, width: nat): (r: string)
    ensures |r| >= width && |r| > 0 && AllDigits(r)
  {
    var ds := NatDigits(n);
    if |ds| < width then Zeros(width - |ds|) + ds else ds
  }

  function Magnitude(d: Decimal): nat {
    if d.mantissa < 0 then -d.mantissa else d.mantissa
  }

  /** The digits of `|d.mantissa|`, padded so that at least one precedes the point. */
  function Padded(d: Decimal): (r: string)
    ensures |r| > d.scale && AllDigits(r)
  {
    PaddedDigits(Magnitude(d), d.scale + 1)
  }

  /** The digits `d` prints before its point. */
  function WholeDigits(d: Decimal): string {
    Padded(d)[..|Padded(d)| - d.scale]
  }

  /** The `d.scale` digits `d` prints after its point. */
  function FracDigits(d: Decimal): string {
    Padded(d)[|Padded(d)| - d.scale..]
  }

  /** The text JavaScript would print for `d` with exactly `d.scale` fraction digits. */
  function DecimalText(d: Decimal): (r: string)
    ensures |r| > 0 && (r[0] == '-' || IsDigit(r[0])) && IsDigit(r[|r| - 1])
  {
    var p := Padded(d);
    var w := WholeDigits(d);
    var r := (if d.mantissa < 0 then "-" else "") + w
      + (if d.scale > 0 then "." + FracDigits(d) else "");
    assert r[|r| - 1] == p[|p| - 1];
    assert d.mantissa >= 0 ==> r[0] == p[0];
    r
  }

  /** The text of an integer: optional minus sign, then its digits. */
  function IntText(n: int): (r: string)
    ensures |r| > 0 && (r[0] == '-' || IsDigit(r[0])) && IsDigit(r[|r| - 1])
  {
    var ds := NatDigits(if n < 0 then -n else n);
    var r := (if n < 0 then "-" else "") + ds;
    assert r[|r| - 1] == ds[|ds| - 1];
    assert n >= 0 ==> r[0] == ds[0];
    r
  }

  // ---------------------------------------------------------------------------
  // Properties

  lemma {:induction false} NatDigitsValue(n: nat)
    ensures DigitsValue(NatDigits(n)) == n
  {
    if n >= 10 {
      NatDigitsValue(n / 10);
      var r := NatDigits(n);
      assert r[..|r| - 1] == NatDigits(n / 10);
    }
  }

  /** Leading zeros do not change the value of a digit string. */
  lemma {:induction false} ZerosPrefixValue(k: nat, ds: string)
    ensures DigitsValue(Zeros(k) + ds) == DigitsValue(ds)
    decreases |ds|
  {
    var z := Zeros(k);
    if ds == [] {
      assert z + ds == z;
      ZerosValue(k);
    } else {
      var ds' := ds[..|ds| - 1];
      assert (z + ds)[..|z + ds| - 1] == z + ds';
      assert (z + ds)[|z + ds| - 1] == ds[|ds| - 1];
      ZerosPrefixValue(k, ds');
    }
  }

  lemma {:induction false} ZerosValue(n: nat)
    ensures DigitsValue(Zeros(n)) == 0
  {
    if n > 0 {
      ZerosValue(n - 1);
      assert Zeros(n)[..n - 1] == Zeros(n - 1);
    }
  }

  lemma PaddedDigitsValue(n: nat, width: nat)
    ensures DigitsValue(PaddedDigits(n, width)) == n
  {
    var ds := NatDigits(n);
    NatDigitsValue(n);
    if |ds| < width {
      ZerosPrefixValue(width - |ds|, ds);
    }
  }

  /** Both sides of a cut through a digit string are digit strings. */
  lemma DigitsCut(p: string, i: nat)
    requires AllDigits(p) && i <= |p|
    ensures AllDigits(p[..i]) && AllDigits(p[i..]) && p[..i] + p[i..] == p
  {
    assert forall k :: 0 <= k < i ==> p[..i][k] == p[k];
    assert forall k :: i <= k < |p| ==> p[i..][k - i] == p[k];
  }

  /** A digit run `s[i..j]` followed by a non-digit or the end is where the digit scan
      from `i` stops. */
  lemma {:induction false} DigitEndAt(s: string, i: nat, j: nat)
    requires i <= j <= |s|
    requires forall k :: i <= k < j ==> IsDigit(s[k])
    requires j == |s| || !IsDigit(s[j])
    ensures DigitEnd(s, i) == j
    decreases j - i
  {
    if i < j { DigitEndAt(s, i + 1, j); }
  }

  /** The digit scan over `x + y` from inside the digits `x` runs to the end of `x`
      when `y` opens with a non-digit. */
  lemma DigitEndConcat(x: string, y: string, i: nat)
    requires i <= |x| && AllDigits(x)
    requires y == [] || !IsDigit(y[0])
    ensures DigitEnd(x + y, i) == |x|
  {
    var s := x + y;
    assert forall k :: i <= k < |x| ==> s[k] == x[k];
    if y != [] { assert s[|x|] == y[0]; }
    DigitEndAt(s, i, |x|);
  }

  /** The unsigned literal at the front of digits, an optional point with more digits,
      and then a character that cannot extend it. */
  lemma UnsignedPrefixOf(whole: string, frac: string, dotted: bool, tail: string)
    requires AllDigits(whole) && AllDigits(frac) && |whole| > 0
    requires !dotted ==> frac == []
    requires tail == [] || !(IsDigit(tail[0]) || tail[0] == '.')
    ensures var dots := if dotted then "." + frac else "";
      UnsignedPrefix(whole + dots + tail) == Some((DigitsValue(whole + frac), |frac|, |whole| + |dots|))
  {
    if dotted {
      DottedParts(whole, frac, tail);
    } else {
      assert whole + "" + tail == whole + tail && whole + frac == whole;
      UndottedParts(whole, tail);
    }
  }

  lemma UndottedParts(whole: string, tail: string)
    requires AllDigits(whole) && |whole| > 0
    requires tail == [] || !(IsDigit(tail[0]) || tail[0] == '.')
    ensures UnsignedPrefix(whole + tail) == Some((DigitsValue(whole), 0, |whole|))
  {
    var u := whole + tail;
    var e := |whole|;
    DigitEndConcat(whole, tail, 0);
    assert FractionEnd(u, e) == e by {
      if e < |u| { assert u[e] == tail[0]; }
    }
    assert LiteralDigits(u, e, e) == whole by { assert u[..e] == whole; }
  }

  lemma DottedParts(whole: string, frac: string, tail: string)
    requires AllDigits(whole) && AllDigits(frac) && |whole| > 0
    requires tail == [] || !(IsDigit(tail[0]) || tail[0] == '.')
    ensures UnsignedPrefix(whole + ("." + frac) + tail)
         == Some((DigitsValue(whole + frac), |frac|, |whole| + 1 + |frac|))
  {
    DottedScan(whole, frac, tail);
    DottedSlices(whole, frac, tail);
  }

  lemma DottedScan(whole: string, frac: string, tail: string)
    requires AllDigits(whole) && AllDigits(frac)
    requires tail == [] || !(IsDigit(tail[0]) || tail[0] == '.')
    ensures var u := whole + ("." + frac) + tail;
      DigitEnd(u, 0) == |whole| && FractionEnd(u, |whole|) == |whole| + 1 + |frac|
  {
    var u := whole + ("." + frac) + tail;
    Associate3(whole, "." + frac, tail);
    DigitEndConcat(whole, ("." + frac) + tail, 0);
    DottedFraction(whole, frac, tail);
  }

  lemma DottedFraction(whole: string, frac: string, tail: string)
    requires AllDigits(frac)
    requires tail == [] || !(IsDigit(tail[0]) || tail[0] == '.')
    ensures var u := whole + ("." + frac) + tail;
      u[|whole|] == '.' && DigitEnd(u, |whole| + 1) == |whole| + 1 + |frac|
  {
    Associate4(whole, ".", frac, tail);
    DigitEndConcat(frac, tail, 0);
    DigitEndShifted(whole + ".", frac + tail, 0);
  }

  lemma DottedSlices(whole: string, frac: string, tail: string)
    ensures var u := whole + ("." + frac) + tail;
      u[..|whole|] == whole && u[|whole| + 1..|whole| + 1 + |frac|] == frac
  {
  }

  lemma Associate(a: string, b: string, c: string, d: string)
    ensures a + b + c + d == a + (b + (c + d))
  {
  }

  lemma Associate3(a: string, b: string, c: string)
    ensures a + b + c == a + (b + c)
  {
  }

  lemma Associate4(a: string, b: string, c: string, d: string)
    ensures a + (b + c) + d == (a + b) + (c + d)
  {
  }

  /** Prefixing `x` shifts the digit scan by `|x|`. */
  lemma {:induction false} DigitEndShifted(x: string, y: string, i: nat)
    requires i <= |y|
    ensures DigitEnd(x + y, |x| + i) == |x| + DigitEnd(y, i)
    decreases |y| - i
  {
    if i < |y| {
      assert (x + y)[|x| + i] == y[i];
      if IsDigit(y[i]) { DigitEndShifted(x, y, i + 1); }
    }
  }

  /** A text that opens with an optional minus sign and then a digit or a point splits at the sign. */
  lemma SignedSplit(sign: string, body: string)
    requires sign == "" || sign == "-"
    requires |body| > 0 && (IsDigit(body[0]) || body[0] == '.')
    ensures SplitSign(sign + body) == (sign == "-", body)
  {
    if sign == "-" {
      assert (sign + body)[1..] == body;
    } else {
      assert sign + body == body;
    }
  }

  /** The printed text of `d`: a sign, the integer digits, and `d.scale` fraction
      digits after a point when `d.scale > 0`. */
  lemma DecimalTextShape(d: Decimal) returns (whole: string, frac: string)
    ensures AllDigits(whole) && AllDigits(frac) && |whole| > 0 && |frac| == d.scale
    ensures DigitsValue(whole + frac) == Magnitude(d)
    ensures DecimalText(d)
         == (if d.mantissa < 0 then "-" else "") + whole + (if d.scale > 0 then "." + frac else "")
  {
    var p := Padded(d);
    PaddedDigitsValue(Magnitude(d), d.scale + 1);
    whole := WholeDigits(d);
    frac := FracDigits(d);
    DigitsCut(p, |p| - d.scale);
  }

  /** Reading back printed text: the literal at the front of the text of `d` is `d`,
      spanning the whole text, whatever follows as long as it cannot extend the literal. */
  lemma DecimalTextRoundTrip(d: Decimal, tail: string)
    requires tail == [] || !(IsDigit(tail[0]) || tail[0] == '.')
    ensures DecimalPrefix(DecimalText(d) + tail) == Some((d, |DecimalText(d)|))
  {
    hide DecimalPrefix, DigitsValue, DecimalText, AllDigits;
    var whole, frac := DecimalTextShape(d);
    SignedLiteral(d.mantissa < 0, whole, frac, d.scale > 0, tail);
  }

  /** The literal at the front of a signed digit text followed by `tail`. */
  lemma SignedLiteral(negative: bool, whole: string, frac: string, dotted: bool, tail: string)
    requires AllDigits(whole) && AllDigits(frac) && |whole| > 0
    requires !dotted ==> frac == []
    requires tail == [] || !(IsDigit(tail[0]) || tail[0] == '.')
    ensures var sign := if negative then "-" else "";
      var dots := if dotted then "." + frac else "";
      var m := DigitsValue(whole + frac);
      DecimalPrefix(sign + whole + dots + tail)
        == Some((Decimal(if negative then -m else m, |frac|), |sign| + |whole| + |dots|))
  {
    var sign := if negative then "-" else "";
    var dots := if dotted then "." + frac else "";
    SignedBody(sign, whole, dots, tail);
    UnsignedPrefixOf(whole, frac, dotted, tail);
  }

  /** Splitting the sign off a signed digit text leaves the unsigned text. */
  lemma SignedBody(sign: string, whole: string, dots: string, tail: string)
    requires sign == "" || sign == "-"
    requires |whole| > 0 && IsDigit(whole[0])
    ensures SplitSign(sign + whole + dots + tail) == (sign == "-", whole + dots + tail)
  {
    Associate(sign, whole, dots, tail);
    Associate3(whole, dots, tail);
    SignedSplit(sign, whole + (dots + tail));
  }

  /** `parseFloat` reads the printed text of a decimal back, whatever non-numeric text follows. */
  lemma ParseFloatOfDecimalText(d: Decimal, tail: string)
    requires tail == [] || !(IsDigit(tail[0]) || tail[0] == '.')
    ensures ParseFloat(DecimalText(d) + tail) == Some(d)
  {
    var t := DecimalText(d) + tail;
    DecimalTextRoundTrip(d, tail);
    assert t[0] == DecimalText(d)[0];
    TrimStartNoLead(t);
  }

  /** `parseFloat` reads the text of every decimal back. */
  lemma ReadPrinted(d: Decimal)
    ensures ParseFloat(DecimalText(d)) == Some(d) && FloatCell(DecimalText(d)) == Num(d)
  {
    ParseFloatOfDecimalText(d, "");
    assert DecimalText(d) + "" == DecimalText(d);
  }

  /** The printed text of a decimal is one word: it holds no whitespace, and no colon. */
  lemma DecimalTextNoSpace(d: Decimal)
    ensures NoSpace(DecimalText(d))
    ensures ':' !in DecimalText(d)
  {
    hide DecimalPrefix, DigitsValue, DecimalText;
    var whole, frac := DecimalTextShape(d);
    var t := DecimalText(d);
    var sign := if d.mantissa < 0 then "-" else "";
    var dots := if d.scale > 0 then "." + frac else "";
    assert t == sign + whole + dots;
    assert forall k :: 0 <= k < |sign| ==> t[k] == '-';
    assert forall k :: |sign| <= k < |sign| + |whole| ==> t[k] == whole[k - |sign|];
    assert forall k :: |sign| + |whole| < k < |t| ==> t[k] == frac[k - |sign| - |whole| - 1];
  }

  /** The text of a non-negative decimal is a run of `[0-9.]`. */
  lemma DecimalTextNumChars(d: Decimal)
    requires d.mantissa >= 0
    ensures forall k :: 0 <= k < |DecimalText(d)| ==> IsNumChar(DecimalText(d)[k])
  {
    var whole, frac := DecimalTextShape(d);
    var t := DecimalText(d);
    assert forall k :: 0 <= k < |whole| ==> t[k] == whole[k];
    assert forall k :: |whole| < k < |t| ==> t[k] == frac[k - |whole| - 1];
  }

  /** `parseInt` recovers an integer from its text when no digit follows it. */
  lemma IntTextRoundTrip(n: int, tail: string)
    requires tail == [] || !IsDigit(tail[0])
    ensures ParseInt(IntText(n) + tail) == Some(n)
  {
    var m := if n < 0 then -n else n;
    var ds := NatDigits(m);
    var sign := if n < 0 then "-" else "";
    var body := ds + tail;
    var t := sign + body;
    assert IntText(n) + tail == t;
    assert t[0] == IntText(n)[0];
    TrimStartNoLead(t);
    SignedSplit(sign, body);
    DigitEndConcat(ds, tail, 0);
    assert body[..|ds|] == ds;
    NatDigitsValue(m);
    ParseIntParts(t, n < 0, body, |ds|);
  }

  /** `parseInt` of a text with no leading whitespace, read off its sign and its
      leading run of digits. */
  lemma ParseIntParts(t: string, negative: bool, body: string, e: nat)
    requires TrimStart(t) == t && SplitSign(t) == (negative, body)
    requires 0 < e == DigitEnd(body, 0)
    ensures ParseInt(t) == Some(if negative then -DigitsValue(body[..e]) else DigitsValue(body[..e]))
  {
  }

  /** `Number(s)` reads the text of every decimal back. */
  lemma NumberOfDecimalText(d: Decimal)
    ensures ParseNumber(DecimalText(d)) == Some(d)
  {
    var t := DecimalText(d);
    TrimOfTrimmed(t);
    DecimalTextRoundTrip(d, "");
    assert t + "" == t;
  }

  /** `Number(s)` rejects the text of a decimal followed by anything that neither
      extends the literal nor is trailing whitespace: the whole trimmed string must
      be the literal. */
  lemma NumberRejectsTail(d: Decimal, tail: string)
    requires tail != [] && !(IsDigit(tail[0]) || tail[0] == '.') && !IsSpace(tail[|tail| - 1])
    ensures ParseNumber(DecimalText(d) + tail) == None
  {
    var t := DecimalText(d) + tail;
    DecimalTextRoundTrip(d, tail);
    DecimalTextNoSpace(d);
    assert t[0] == DecimalText(d)[0];
    assert IsTrimmed(t);
    TrimOfTrimmed(t);
  }

  /** Where `Number(s)` accepts a non-blank string, `parseFloat(s)` reads the same value. */
  lemma NumberAgreesWithParseFloat(s: string)
    requires Trim(s) != [] && ParseNumber(s).Some?
    ensures ParseFloat(s) == ParseNumber(s)
  {
    var tail := TrimStartSplit(s);
    DecimalPrefixExtends(Trim(s), tail);
  }

  /** A literal that spans all of `t` is unaffected by whitespace after it. */
  lemma DecimalPrefixExtends(t: string, tail: string)
    requires DecimalPrefix(t).Some? && DecimalPrefix(t).value.1 == |t|
    requires AllSpace(tail)
    ensures DecimalPrefix(t + tail) == DecimalPrefix(t)
  {
    SplitSignAppend(t, tail);
    UnsignedPrefixExtends(SplitSign(t).1, tail);
  }

  lemma SplitSignAppend(t: string, tail: string)
    requires |t| > 0
    ensures SplitSign(t + tail) == (SplitSign(t).0, SplitSign(t).1 + tail)
  {
    assert (t + tail)[0] == t[0];
    if t[0] == '+' || t[0] == '-' { assert (t + tail)[1..] == t[1..] + tail; }
  }

  /** An unsigned literal that spans all of `u` is unaffected by whitespace after it. */
  lemma UnsignedPrefixExtends(u: string, tail: string)
    requires UnsignedPrefix(u).Some? && UnsignedPrefix(u).value.2 == |u|
    requires AllSpace(tail)
    ensures UnsignedPrefix(u + tail) == UnsignedPrefix(u)
  {
    var e := DigitEnd(u, 0);
    SpaceEndsLiteral(tail);
    if e == |u| {
      ExtendUndotted(u, tail);
    } else {
      ExtendDotted(u, tail, e);
    }
    KeptDigits(u, tail, e, FractionEnd(u, e));
  }

  /** Whitespace cannot extend a literal. */
  lemma SpaceEndsLiteral(tail: string)
    requires AllSpace(tail)
    ensures tail == [] || !(IsDigit(tail[0]) || tail[0] == '.')
  {
    if tail != [] { assert IsSpace(tail[0]); }
  }

  lemma ExtendUndotted(u: string, tail: string)
    requires DigitEnd(u, 0) == |u|
    requires tail == [] || !(IsDigit(tail[0]) || tail[0] == '.')
    ensures DigitEnd(u + tail, 0) == |u| && FractionEnd(u + tail, |u|) == |u|
  {
    DigitEndAppend(u, tail, 0);
    if tail != [] { assert (u + tail)[|u|] == tail[0]; }
  }

  lemma ExtendDotted(u: string, tail: string, e: nat)
    requires e == DigitEnd(u, 0) && e < |u| && FractionEnd(u, e) == |u|
    requires tail == [] || !(IsDigit(tail[0]) || tail[0] == '.')
    ensures DigitEnd(u + tail, 0) == e && FractionEnd(u + tail, e) == |u|
  {
    DigitEndAppend(u, tail, 0);
    assert (u + tail)[e] == u[e];
    DigitEndAppend(u, tail, e + 1);
  }

  /** The digits of a literal inside `u` are the same in `u + tail`. */
  lemma KeptDigits(u: string, tail: string, e: nat, f: nat)
    requires e <= f <= |u|
    ensures LiteralDigits(u + tail, e, f) == LiteralDigits(u, e, f)
  {
    assert (u + tail)[..e] == u[..e];
    if e < f { assert (u + tail)[e + 1..f] == u[e + 1..f]; }
  }

  /** A digit scan over `u` that stops inside `u`, or at its end before a non-digit,
      stops at the same place over `u + tail`. */
  lemma DigitEndAppend(u: string, tail: string, i: nat)
    requires i <= |u|
    requires tail == [] || !IsDigit(tail[0])
    ensures DigitEnd(u + tail, i) == DigitEnd(u, i)
  {
    var s := u + tail;
    var e := DigitEnd(u, i);
    assert forall k :: i <= k < e ==> s[k] == u[k];
    if e < |u| { assert s[e] == u[e]; } else if tail != [] { assert s[e] == tail[0]; }
    DigitEndRun(u, i);
    DigitEndAt(s, i, e);
  }

  /** A run of digits reads the same under `parseInt` and `parseFloat`. */
  lemma DigitRunReadsAlike(s: string)
    requires IsDigitRun(s)
    ensures ParseInt(s) == Some(DigitsValue(s))
    ensures ParseFloat(s) == Some(Decimal(DigitsValue(s), 0))
  {
    TrimStartNoLead(s);
    DigitEndConcat(s, "", 0);
    assert s + "" == s;
    assert s[..|s|] == s;
  }
}
