/** Reading a score cell: a number with a unit, or a word on the ordinal scale.

    The numeric form is what the regular expression of the repository matches; the word form is looked up. A cell that
    is neither is plain text and compares with nothing but its equal.

    The missing-data policy `zero` renders a zero for a cell; the lemmas say where that text reads as zero again. */
module Scores {
  import opened Options
  import opened Text
  import Digits

  datatype Parsed =
    | Numeric(value: real, unit: string)
    | Ordinal(rank: nat)

  function OrdinalRank(word: string): Option<nat> {
    if word == "none" then Some(0)
    else if word in ["very low", "minimal"] then Some(1)
    else if word in ["low", "small", "slow", "limited"] then Some(2)
    else if word in ["medium", "moderate", "ok"] then Some(3)
    else if word in ["high", "large", "fast", "good"] then Some(4)
    else if word in ["very high", "severe", "best"] then Some(5)
    else None
  }

  /** The key under which cells, dimensions and words are compared. */
  function Key(s: string): string {
    Lower(Trim(s))
  }

  predicate IsDigitOrComma(c: char) {
    Digits.IsDigit(c) || c == ','
  }

  predicate StartsNumber(c: char) {
    Digits.IsDigit(c) || c == '+' || c == '-'
  }

  predicate PrecedesNumber(c: char) {
    !StartsNumber(c)
  }

  predicate NotSpace(c: char) {
    !IsSpace(c)
  }

  predicate IsMagnitude(c: char) {
    LowerChar(c) == 'k' || LowerChar(c) == 'm' || LowerChar(c) == 'b'
  }

  /** The length of the longest prefix whose characters all satisfy `p`. */
  function Span(s: string, p: char -> bool): (n: nat)
    ensures n <= |s| && (forall i :: 0 <= i < n ==> p(s[i])) && (n < |s| ==> !p(s[n]))
  {
    if s != [] && p(s[0]) then 1 + Span(s[1..], p) else 0
  }

  function DigitValue(c: char): real
    requires Digits.IsDigit(c)
  {
    (c as int - '0' as int) as real
  }

  function Whole(s: string): (v: real)
    requires forall i :: 0 <= i < |s| ==> IsDigitOrComma(s[i])
  {
    if s == [] then 0.0
    else
      var init, last := s[..|s| - 1], s[|s| - 1];
      assert IsDigitOrComma(last);
      if last == ',' then Whole(init) else 10.0 * Whole(init) + DigitValue(last)
  }

  function Fraction(s: string): (v: real)
    requires forall i :: 0 <= i < |s| ==> Digits.IsDigit(s[i])
  {
    if s == [] then 0.0 else (DigitValue(s[0]) + Fraction(s[1..])) / 10.0
  }

  function Multiplied(v: real, c: char): real {
    match LowerChar(c)
    case 'k' => 1000.0 * v
    case 'm' => 1000000.0 * v
    case 'b' => 1000000000.0 * v
    case _ => v
  }

  /** A word, and the rest squeezed, if any. */
  function Joined(word: string, rest: string): string {
    if rest == [] then word else word + " " + rest
  }

  /** Runs of white space become one blank, none at the ends. */
  function Squeeze(s: string): (r: string)
    ensures |r| <= |s|
  {
    if s == [] then []
    else if IsSpace(s[0]) then Squeeze(s[1..])
    else
      var n := Span(s, NotSpace);
      Joined(s[..n], Squeeze(s[n..]))
  }

  function Unit(s: string): (u: string)
    ensures |u| <= |s|
  {
    Lower(Squeeze(s))
  }

  /** Where the parts of a numeric score end: the prefix at `a`, the sign at `d`, the digits at `e`, the
      fraction at `f` (`e` if there is none) and the magnitude letter at `k`. */
  datatype Cuts = Cuts(a: nat, d: nat, e: nat, f: nat, k: nat)

  ghost predicate CutsFit(s: string, c: Cuts) {
    && c.a <= c.d < c.e <= c.f <= c.k <= |s| && c.a < |s|
    && (forall i :: c.d <= i < c.e ==> IsDigitOrComma(s[i]))
    && (forall i :: c.e < i < c.f ==> Digits.IsDigit(s[i]))
    && (c.f < c.k ==> IsMagnitude(s[c.f]))
  }

  /** Past the fraction that starts at `e`, if one does. */
  function FractionEnd(s: string, e: nat): (f: nat)
    requires e <= |s|
    ensures e <= f <= |s| && forall i :: e < i < f ==> Digits.IsDigit(s[i])
  {
    if e + 1 < |s| && s[e] == '.' && Digits.IsDigit(s[e + 1]) then e + 1 + Span(s[e + 1..], Digits.IsDigit) else e
  }

  /** Where the digits start when the number starts at `a`: there, or past a sign. */
  function DigitsStart(s: string, a: nat): (d: Option<nat>)
    requires a < |s|
    ensures d.Some? ==> a <= d.value < |s| && Digits.IsDigit(s[d.value])
  {
    if Digits.IsDigit(s[a]) then Some(a)
    else if a + 1 < |s| && Digits.IsDigit(s[a + 1]) then Some(a + 1)
    else None
  }

  function CutsFrom(s: string, a: nat, d: nat): (c: Cuts)
    requires a <= d < |s| && Digits.IsDigit(s[d])
    ensures CutsFit(s, c) && c.a == a && c.d == d
  {
    var e := d + Span(s[d..], IsDigitOrComma);
    var f := FractionEnd(s, e);
    Cuts(a, d, e, f, if f < |s| && IsMagnitude(s[f]) then f + 1 else f)
  }

  /** An optional prefix, a signed number with thousands commas, an optional magnitude letter, and the rest. */
  function Match(s: string): (r: Option<Cuts>)
    ensures r.Some? ==> CutsFit(s, r.value)
  {
    var a := Span(s, PrecedesNumber);
    if a == |s| || DigitsStart(s, a).None? then None
    else Some(CutsFrom(s, a, DigitsStart(s, a).value))
  }

  function Magnitude(s: string, c: Cuts): real
    requires CutsFit(s, c)
  {
    var unsigned := Whole(s[c.d..c.e]) + (if c.f > c.e then Fraction(s[c.e + 1..c.f]) else 0.0);
    var signed := if s[c.a] == '-' then -unsigned else unsigned;
    if c.k > c.f then Multiplied(signed, s[c.f]) else signed
  }

  /** The number, in the unit that prefix and rest make together. The rest may not contain a line break. */
  function ParseNumeric(s: string): Option<Parsed> {
    var m := Match(s);
    if m.None? || '\n' in s[m.value.k..] then None
    else Some(Numeric(Magnitude(s, m.value), Unit(s[..m.value.a] + s[m.value.k..])))
  }

  function ParseComparable(s: string): Option<Parsed> {
    var numeric := ParseNumeric(s);
    if numeric.Some? then numeric
    else if OrdinalRank(Key(s)).Some? then Some(Ordinal(OrdinalRank(Key(s)).value))
    else None
  }

  /** What a missing cell is filled with, given the score it is compared with. */
  function RenderZero(p: Parsed): string {
    match p
    case Numeric(_, unit) => "0" + unit
    case Ordinal(_) => "none"
  }

  function ValueOf(p: Parsed): real {
    match p
    case Numeric(v, _) => v
    case Ordinal(r) => r as real
  }

  predicate SameScale(p: Parsed, q: Parsed) {
    match (p, q)
    case (Numeric(_, u), Numeric(_, v)) => u == v
    case (Ordinal(_), Ordinal(_)) => true
    case _ => false
  }

  // ---------------------------------------------------------------- a filled zero is zero

  /** A rendered zero may read back on another scale ("0ms" is in units of "s"); where it reads back on the
      scale it was rendered for, its value is 0. */
  lemma ZeroReadsBackAsZero(p: Parsed)
    requires ParseComparable(RenderZero(p)).Some? && SameScale(ParseComparable(RenderZero(p)).value, p)
    ensures ValueOf(ParseComparable(RenderZero(p)).value) == 0.0
  {
    match p
    case Ordinal(_) => OrdinalZero();
    case Numeric(_, unit) => NumericZero(unit);
  }

  lemma WordIsNoNumber(s: string)
    requires forall i :: 0 <= i < |s| ==> !StartsNumber(s[i])
    ensures ParseNumeric(s).None?
  {
  }

  lemma KeyOfKey(s: string)
    requires Trimmed(s) && forall i :: 0 <= i < |s| ==> LowerChar(s[i]) == s[i]
    ensures Key(s) == s
  {
    TrimIsTrimmed(s);
    assert Lower(s) == s;
  }

  lemma OrdinalZero()
    ensures ParseComparable("none") == Some(Ordinal(0))
  {
    WordIsNoNumber("none");
    KeyOfKey("none");
  }

  lemma NumericZero(unit: string)
    requires ParseNumeric("0" + unit).Some? && ParseNumeric("0" + unit).value.unit == unit
    ensures ParseNumeric("0" + unit).value.value == 0.0
  {
    var s := "0" + unit;
    ZeroCuts(unit);
    var c := Match(s).value;
    assert s[..0] + s[c.k..] == s[c.k..];
    assert |unit| <= |s| - c.k;
    assert s[0..1] == "0";
    ZeroDigits();
  }

  lemma ZeroDigits()
    ensures Whole("0") == 0.0
  {
    assert "0"[..0] == [];
  }

  lemma ZeroCuts(unit: string)
    ensures var m := Match("0" + unit); m.Some? && m.value.a == m.value.d == 0
  {
    var s := "0" + unit;
    assert s[0] == '0' && s[0..] == s;
  }

  // ---------------------------------------------------------------- case does not matter

  lemma {:induction false} SpanIgnoresCase(s: string, p: char -> bool)
    requires forall c :: p(LowerChar(c)) == p(c)
    ensures Span(Lower(s), p) == Span(s, p)
  {
    if s != [] && p(s[0]) {
      assert Lower(s)[1..] == Lower(s[1..]);
      SpanIgnoresCase(s[1..], p);
    }
  }

  lemma LowerSlice(s: string, i: nat, j: nat)
    requires i <= j <= |s|
    ensures Lower(s)[i..j] == Lower(s[i..j])
  {
  }

  lemma LowerConcat(a: string, b: string)
    ensures Lower(a + b) == Lower(a) + Lower(b)
  {
  }

  lemma LowerTwice(s: string)
    ensures Lower(Lower(s)) == Lower(s)
  {
  }

  lemma LowerJoined(word: string, rest: string)
    ensures Lower(Joined(word, rest)) == Joined(Lower(word), Lower(rest))
  {
    LowerConcat(word, " " + rest);
    LowerConcat(" ", rest);
    assert Lower(" ") == " " && word + " " + rest == word + (" " + rest);
  }

  lemma {:induction false} SqueezeIgnoresCase(s: string)
    ensures Squeeze(Lower(s)) == Lower(Squeeze(s))
    decreases |s|
  {
    hide Span, Joined;
    if s == [] {
    } else if IsSpace(s[0]) {
      assert Lower(s)[1..] == Lower(s[1..]);
      SqueezeIgnoresCase(s[1..]);
    } else {
      var n := Span(s, NotSpace);
      SpanIgnoresCase(s, NotSpace);
      SqueezeIgnoresCase(s[n..]);
      LowerJoined(s[..n], Squeeze(s[n..]));
      assert Lower(s)[..n] == Lower(s[..n]) && Lower(s)[n..] == Lower(s[n..]);
    }
  }

  lemma UnitIgnoresCase(s: string)
    ensures Unit(Lower(s)) == Unit(s)
  {
    SqueezeIgnoresCase(s);
    LowerTwice(Squeeze(s));
  }

  lemma FractionEndIgnoresCase(s: string, e: nat)
    requires e <= |s|
    ensures FractionEnd(Lower(s), e) == FractionEnd(s, e)
  {
    if e + 1 < |s| {
      LowerSlice(s, e + 1, |s|);
      SpanIgnoresCase(s[e + 1..], Digits.IsDigit);
      assert Lower(s)[e + 1..] == Lower(s[e + 1..]);
    }
  }

  lemma CutsIgnoreCase(s: string, a: nat, d: nat)
    requires a <= d < |s| && Digits.IsDigit(s[d])
    ensures Lower(s)[d] == s[d] && CutsFrom(Lower(s), a, d) == CutsFrom(s, a, d)
  {
    hide FractionEnd, Lower;
    var e := d + Span(s[d..], IsDigitOrComma);
    assert e == d + Span(Lower(s)[d..], IsDigitOrComma) by {
      LowerSlice(s, d, |s|);
      assert Lower(s)[d..] == Lower(s[d..]);
      SpanIgnoresCase(s[d..], IsDigitOrComma);
    }
    FractionEndIgnoresCase(s, e);
  }

  lemma MatchIgnoresCase(s: string)
    ensures Match(Lower(s)) == Match(s)
  {
    var a := Span(s, PrecedesNumber);
    SpanIgnoresCase(s, PrecedesNumber);
    if a < |s| {
      assert DigitsStart(Lower(s), a) == DigitsStart(s, a);
      if DigitsStart(s, a).Some? {
        CutsIgnoreCase(s, a, DigitsStart(s, a).value);
      }
    }
  }

  lemma LowerKeepsDigits(s: string, i: nat, j: nat)
    requires i <= j <= |s| && forall k :: i <= k < j ==> IsDigitOrComma(s[k])
    ensures Lower(s)[i..j] == s[i..j]
  {
  }

  lemma MagnitudeIgnoresCase(s: string, c: Cuts)
    requires CutsFit(s, c) && CutsFit(Lower(s), c)
    ensures Magnitude(Lower(s), c) == Magnitude(s, c)
  {
    LowerKeepsDigits(s, c.d, c.e);
    if c.f > c.e {
      LowerKeepsDigits(s, c.e + 1, c.f);
    }
  }

  lemma LineBreakIgnoresCase(s: string)
    ensures '\n' in Lower(s) <==> '\n' in s
  {
    if '\n' in s {
      var i :| 0 <= i < |s| && s[i] == '\n';
      assert Lower(s)[i] == '\n';
    }
  }

  lemma AroundIgnoresCase(s: string, a: nat, k: nat)
    requires a <= k <= |s|
    ensures Unit(Lower(s)[..a] + Lower(s)[k..]) == Unit(s[..a] + s[k..])
    ensures '\n' in Lower(s)[k..] <==> '\n' in s[k..]
  {
    LowerSlice(s, 0, a);
    LowerSlice(s, k, |s|);
    LineBreakIgnoresCase(s[k..]);
    LowerConcat(s[..a], s[k..]);
    UnitIgnoresCase(s[..a] + s[k..]);
    assert Lower(s)[..a] == Lower(s[..a]) && Lower(s)[k..] == Lower(s[k..]);
  }

  lemma ParseIgnoresCase(s: string)
    ensures ParseNumeric(Lower(s)) == ParseNumeric(s)
  {
    MatchIgnoresCase(s);
    if Match(s).Some? {
      var c := Match(s).value;
      MagnitudeIgnoresCase(s, c);
      AroundIgnoresCase(s, c.a, c.k);
    }
  }
}
