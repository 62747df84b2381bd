/** How a score text reads: what number stands in it, in which unit, and on which rung a word stands. */
module ScoreText {
  import opened Options
  import opened Text
  import Digits
  import opened Scores

  datatype Sign = NoSign | Plus | Minus

  /** The parts of a numeric score: text before the number, a sign, digits with commas, digits behind the point, a
      magnitude letter, and text after it. Every part but the digits may be empty. */
  datatype NumberText = NumberText(prefix: string, sign: Sign, digits: string, fraction: string, letter: string, rest: string) {
    function Text(): string {
      prefix + (SignText() + (digits + (Point() + (letter + rest))))
    }

    function SignText(): string {
      if sign.Minus? then "-" else if sign.Plus? then "+" else ""
    }

    function Point(): string {
      if fraction == "" then "" else "." + fraction
    }

    /** The parts are what their names say, and the rest does not carry the number on. */
    predicate WellFormed() {
      && (forall i :: 0 <= i < |prefix| ==> PrecedesNumber(prefix[i]))
      && digits != "" && Digits.IsDigit(digits[0]) && (forall i :: 0 <= i < |digits| ==> IsDigitOrComma(digits[i]))
      && Digits.AllDigits(fraction)
      && |letter| <= 1 && (letter != "" ==> letter[0] in {'k', 'K', 'm', 'M', 'b', 'B'})
      && (letter == "" && rest != "" ==> !CarriesOn())
    }

    predicate CarriesOn()
      requires rest != ""
    {
      || Digits.IsDigit(rest[0]) || rest[0] in {'k', 'K', 'm', 'M', 'b', 'B'}
      || (fraction == "" && (rest[0] == ',' || (|rest| > 1 && rest[0] == '.' && Digits.IsDigit(rest[1]))))
    }

    /** The decimal digits without the commas, and the fraction. */
    function Plain(): real
      requires WellFormed()
    {
      WithoutCommasIsDigits(digits);
      Digits.Read(WithoutCommas(digits)) as real + Digits.Read(fraction) as real / Digits.Power(|fraction|) as real
    }

    /** The number: with the letter's thousands and the sign. */
    function Amount(): real
      requires WellFormed()
    {
      var scaled := Plain() * (if letter == "" then 1.0
                               else if letter[0] in {'k', 'K'} then 1000.0
                               else if letter[0] in {'m', 'M'} then 1000000.0
                               else 1000000000.0);
      if sign.Minus? then -scaled else scaled
    }
  }

  function WithoutCommas(s: string): string {
    if s == "" then ""
    else WithoutCommas(s[..|s| - 1]) + if s[|s| - 1] == ',' then "" else [s[|s| - 1]]
  }

  lemma {:induction false} WithoutCommasIsDigits(s: string)
    requires forall i :: 0 <= i < |s| ==> IsDigitOrComma(s[i])
    ensures Digits.AllDigits(WithoutCommas(s))
    decreases |s|
  {
    if s != "" {
      assert IsDigitOrComma(s[|s| - 1]);
      WithoutCommasIsDigits(s[..|s| - 1]);
    }
  }

  lemma {:induction false} DigitsHaveNoCommas(s: string)
    requires Digits.AllDigits(s)
    ensures WithoutCommas(s) == s
    decreases |s|
  {
    if s != "" {
      DigitsHaveNoCommas(s[..|s| - 1]);
      assert s == s[..|s| - 1] + [s[|s| - 1]];
    }
  }

  // ---------------------------------------------------------------- the digits

  lemma {:induction false} WholeReads(s: string)
    requires forall i :: 0 <= i < |s| ==> IsDigitOrComma(s[i])
    ensures Digits.AllDigits(WithoutCommas(s)) && Whole(s) == Digits.Read(WithoutCommas(s)) as real
    decreases |s|
  {
    WithoutCommasIsDigits(s);
    if s != "" {
      var init, last := s[..|s| - 1], s[|s| - 1];
      assert IsDigitOrComma(last);
      WholeReads(init);
      var t := WithoutCommas(s);
      if last == ',' {
        assert t == WithoutCommas(init);
      } else {
        var r := Digits.Read(WithoutCommas(init));
        assert t[..|t| - 1] == WithoutCommas(init) && t[|t| - 1] == last;
        assert (10 * r + Digits.DigitOf(last)) as real == 10.0 * r as real + DigitValue(last);
      }
    }
  }

  lemma ReadLast(s: string)
    requires Digits.AllDigits(s) && s != ""
    ensures Digits.Read(s) == 10 * Digits.Read(s[..|s| - 1]) + Digits.DigitOf(s[|s| - 1])
  {
  }

  lemma TenTimes(width: nat)
    ensures Digits.Power(width + 1) == 10 * Digits.Power(width) && Digits.Power(0) == 1 && Digits.Read("") == 0
  {
  }

  lemma {:induction false} ReadFromLeft(s: string)
    requires Digits.AllDigits(s) && s != ""
    ensures Digits.Read(s) == Digits.DigitOf(s[0]) * Digits.Power(|s| - 1) + Digits.Read(s[1..])
    decreases |s|
  {
    hide Digits.Read, Digits.Power, Digits.DigitOf;
    TenTimes(0);
    ReadLast(s);
    if |s| > 1 {
      var init, d := s[..|s| - 1], Digits.DigitOf(s[0]);
      ReadFromLeft(init);
      assert init[1..] == s[1..][..|s[1..]| - 1];
      ReadLast(s[1..]);
      var p := Digits.Power(|s| - 2);
      TenTimes(|s| - 2);
      assert 10 * (d * p) == d * (10 * p);
    } else {
      assert s[1..] == "" && s[..0] == "";
    }
  }

  lemma RealSum(d: nat, p: nat, r: nat)
    ensures (d * p + r) as real == d as real * p as real + r as real && (10 * p) as real == 10.0 * p as real
  {
  }

  lemma TenthTimes(d: real, q: real, p: real, r: real)
    requires q * p == r
    ensures ((d + q) / 10.0) * (10.0 * p) == d * p + r
  {
    assert (d + q) * p == d * p + q * p;
  }

  lemma {:induction false} FractionTimes(f: string)
    requires Digits.AllDigits(f)
    ensures Fraction(f) * Digits.Power(|f|) as real == Digits.Read(f) as real
    decreases |f|
  {
    hide Digits.Read, Digits.Power, Digits.DigitOf, DigitValue;
    TenTimes(0);
    if f != "" {
      var d, p, r := Digits.DigitOf(f[0]), Digits.Power(|f| - 1), Digits.Read(f[1..]);
      FractionTimes(f[1..]);
      ReadFromLeft(f);
      TenTimes(|f| - 1);
      RealSum(d, p, r);
      DigitIsReal(f[0]);
      TenthTimes(d as real, Fraction(f[1..]), p as real, r as real);
    }
  }

  lemma DigitIsReal(c: char)
    requires Digits.IsDigit(c)
    ensures DigitValue(c) == Digits.DigitOf(c) as real
  {
  }

  lemma Divided(x: real, p: real, r: real)
    requires p >= 1.0 && x * p == r
    ensures x == r / p
  {
  }

  lemma FractionReads(f: string)
    requires Digits.AllDigits(f)
    ensures Fraction(f) == Digits.Read(f) as real / Digits.Power(|f|) as real
  {
    hide Fraction, Digits.Read, Digits.Power;
    FractionTimes(f);
    Divided(Fraction(f), Digits.Power(|f|) as real, Digits.Read(f) as real);
  }

  // ---------------------------------------------------------------- the parts

  lemma SpanOf(s: string, a: string, b: string, p: char -> bool)
    requires s == a + b && (forall i :: 0 <= i < |a| ==> p(a[i])) && (b != "" ==> !p(b[0]))
    ensures Span(s, p) == |a|
  {
    assert forall i :: 0 <= i < |a| ==> s[i] == a[i];
    assert b != "" ==> s[|a|] == b[0];
  }

  /** Where the parts of the text end. */
  function CutsAt(x: NumberText): Cuts {
    var a := |x.prefix|;
    var d := a + |x.SignText()|;
    var e := d + |x.digits|;
    var f := e + |x.Point()|;
    Cuts(a, d, e, f, f + |x.letter|)
  }

  /** What stands behind the digits. */
  function Behind(x: NumberText): string {
    x.Point() + (x.letter + x.rest)
  }

  /** The next part of a text. */
  lemma Cut(s: string, i: nat, u: string, v: string)
    requires i <= |s| && s[i..] == u + v
    ensures i + |u| <= |s| && s[i..i + |u|] == u && s[i + |u|..] == v
    ensures u != "" ==> s[i] == u[0]
  {
    var t := s[i..];
    assert s[i..i + |u|] == t[..|u|] && s[i + |u|..] == t[|u|..];
  }

  lemma PrefixCut(x: NumberText)
    ensures var s, c := x.Text(), CutsAt(x);
            c.a <= |s| && s[..c.a] == x.prefix && s[c.a..] == x.SignText() + (x.digits + Behind(x))
  {
    hide NumberText.Point, NumberText.SignText;
  }

  lemma DigitsCut(x: NumberText)
    ensures var s, c := x.Text(), CutsAt(x);
            c.d <= c.e <= |s| && s[c.d..] == x.digits + Behind(x) && s[c.d..c.e] == x.digits && s[c.e..] == Behind(x)
  {
    PrefixCut(x);
    hide NumberText.Text, NumberText.Point, NumberText.SignText, Behind;
    var s, c := x.Text(), CutsAt(x);
    Cut(s, c.a, x.SignText(), x.digits + Behind(x));
    Cut(s, c.d, x.digits, Behind(x));
  }

  lemma LetterCut(x: NumberText)
    ensures var s, c := x.Text(), CutsAt(x);
            c.e <= c.f <= c.k <= |s| && s[c.e..c.f] == x.Point() && s[c.f..] == x.letter + x.rest
            && s[c.f..c.k] == x.letter && s[c.k..] == x.rest && |s| == c.f + |x.letter + x.rest|
            && (x.letter != "" ==> s[c.f] == x.letter[0]) && (c.f < |s| ==> s[c.f] == (x.letter + x.rest)[0])
  {
    DigitsCut(x);
    hide NumberText.Text, NumberText.Point, NumberText.SignText;
    var s, c := x.Text(), CutsAt(x);
    Cut(s, c.e, x.Point(), x.letter + x.rest);
    Cut(s, c.f, x.letter, x.rest);
    Cut(s, c.f, x.letter + x.rest, "");
  }

  lemma SignOf(x: NumberText)
    requires x.WellFormed()
    ensures var tail := x.SignText() + (x.digits + Behind(x));
            && tail != "" && StartsNumber(tail[0]) && (tail[0] == '-' <==> x.sign.Minus?)
            && (x.sign.NoSign? <==> Digits.IsDigit(tail[0])) && |x.SignText()| == if x.sign.NoSign? then 0 else 1
  {
    hide NumberText.CarriesOn, NumberText.Point;
    var tail := x.SignText() + (x.digits + Behind(x));
    assert Digits.IsDigit(x.digits[0]);
    assert x.sign.NoSign? ==> tail[0] == x.digits[0];
  }

  lemma NumberStarts(x: NumberText)
    requires x.WellFormed()
    ensures var s, c := x.Text(), CutsAt(x);
            && Span(s, PrecedesNumber) == c.a < |s| && DigitsStart(s, c.a) == Some(c.d)
            && (s[c.a] == '-' <==> x.sign.Minus?)
  {
    assert Digits.IsDigit(x.digits[0]) && forall i :: 0 <= i < |x.prefix| ==> PrecedesNumber(x.prefix[i]);
    SignOf(x);
    PrefixCut(x);
    DigitsCut(x);
    hide NumberText.WellFormed, NumberText.Text, NumberText.SignText, NumberText.Point, Behind, Span;
    var s, c := x.Text(), CutsAt(x);
    var tail := x.SignText() + (x.digits + Behind(x));
    assert s == x.prefix + tail;
    SpanOf(s, x.prefix, tail, PrecedesNumber);
    assert s[c.a] == s[c.a..][0];
    assert s[c.d] == s[c.d..][0] == x.digits[0];
  }

  lemma BehindStarts(x: NumberText)
    requires x.WellFormed()
    ensures Behind(x) != "" ==> !IsDigitOrComma(Behind(x)[0])
    ensures x.letter + x.rest != "" && x.fraction != "" ==> !Digits.IsDigit((x.letter + x.rest)[0])
    ensures x.fraction == "" ==>
              var t := Behind(x); t == x.letter + x.rest && !(|t| > 1 && t[0] == '.' && Digits.IsDigit(t[1]))
    ensures var t := x.letter + x.rest; t != "" ==> (IsMagnitude(t[0]) <==> x.letter != "")
  {
    if x.letter != "" {
      assert (x.letter + x.rest)[0] == x.letter[0];
    } else {
      assert x.letter + x.rest == x.rest;
    }
    if x.fraction == "" {
      assert Behind(x) == x.letter + x.rest;
    } else {
      assert Behind(x)[0] == '.';
    }
  }

  lemma PointEnds(s: string, e: nat, fraction: string, tail: string)
    requires e <= |s| && s[e..] == "." + fraction + tail && fraction != "" && Digits.AllDigits(fraction)
    requires tail != "" ==> !Digits.IsDigit(tail[0])
    ensures FractionEnd(s, e) == e + 1 + |fraction| && s[e + 1 + |fraction|..] == tail
  {
    hide Span, Digits.IsDigit;
    var t := s[e..];
    assert s[e] == t[0] && s[e + 1] == t[1] && t[1] == fraction[0];
    assert s[e + 1..] == t[1..] && t[1..] == fraction + tail;
    SpanOf(s[e + 1..], fraction, tail, Digits.IsDigit);
    assert s[e + 1 + |fraction|..] == t[1..][|fraction|..];
  }

  lemma NoPointEnds(s: string, e: nat, t: string)
    requires e <= |s| && s[e..] == t && !(|t| > 1 && t[0] == '.' && Digits.IsDigit(t[1]))
    ensures FractionEnd(s, e) == e
  {
    hide Span;
    assert e + 1 < |s| ==> s[e] == t[0] && s[e + 1] == t[1];
  }

  lemma FractionEnds(x: NumberText, s: string, e: nat)
    requires x.WellFormed() && e <= |s| && s[e..] == Behind(x)
    ensures FractionEnd(s, e) == e + |x.Point()| && s[e + |x.Point()|..] == x.letter + x.rest
  {
    assert Digits.AllDigits(x.fraction);
    BehindStarts(x);
    hide Span, NumberText.WellFormed, IsMagnitude, IsDigitOrComma, FractionEnd;
    if x.fraction != "" {
      assert Behind(x) == "." + x.fraction + (x.letter + x.rest);
      PointEnds(s, e, x.fraction, x.letter + x.rest);
    } else {
      NoPointEnds(s, e, Behind(x));
    }
  }

  lemma DigitsSpan(x: NumberText)
    requires x.WellFormed()
    ensures var s, c := x.Text(), CutsAt(x); c.d <= c.e <= |s| && c.d + Span(s[c.d..], IsDigitOrComma) == c.e
  {
    PartsAreSound(x);
    BehindStarts(x);
    DigitsCut(x);
    hide NumberText.Text, NumberText.WellFormed, NumberText.Point, NumberText.SignText, Behind, Span, IsMagnitude;
    SpanOf(x.Text()[CutsAt(x).d..], x.digits, Behind(x), IsDigitOrComma);
  }

  lemma LetterEnds(x: NumberText)
    requires x.WellFormed()
    ensures var s, c := x.Text(), CutsAt(x);
            c.e <= c.f <= |s| && c.k == if c.f < |s| && IsMagnitude(s[c.f]) then c.f + 1 else c.f
  {
    PartsAreSound(x);
    BehindStarts(x);
    LetterCut(x);
    hide NumberText.Text, NumberText.WellFormed, NumberText.Point, NumberText.SignText, Behind, IsMagnitude;
  }

  lemma PointSpan(x: NumberText)
    requires x.WellFormed()
    ensures var s, c := x.Text(), CutsAt(x); c.e <= |s| && FractionEnd(s, c.e) == c.f
  {
    DigitsCut(x);
    hide NumberText.Text, NumberText.WellFormed, NumberText.Point, NumberText.SignText, Behind, FractionEnd;
    FractionEnds(x, x.Text(), CutsAt(x).e);
  }

  lemma CutsOf(x: NumberText)
    requires x.WellFormed()
    ensures Match(x.Text()) == Some(CutsAt(x))
  {
    hide *;
    NumberStarts(x);
    DigitsSpan(x);
    PointSpan(x);
    LetterEnds(x);
    CutsAssemble(x.Text(), CutsAt(x));
  }

  lemma CutsAssemble(s: string, c: Cuts)
    requires Span(s, PrecedesNumber) == c.a < |s| && DigitsStart(s, c.a) == Some(c.d) && c.d <= c.e <= c.f <= |s|
    requires c.d + Span(s[c.d..], IsDigitOrComma) == c.e && FractionEnd(s, c.e) == c.f
    requires c.k == if c.f < |s| && IsMagnitude(s[c.f]) then c.f + 1 else c.f
    ensures Match(s) == Some(c)
  {
    hide Span, DigitsStart, FractionEnd, IsMagnitude;
  }

  lemma PartsAreSound(x: NumberText)
    requires x.WellFormed()
    ensures (forall i :: 0 <= i < |x.digits| ==> IsDigitOrComma(x.digits[i])) && |x.letter| <= 1
    ensures Digits.AllDigits(x.fraction)
    ensures x.letter == "" || x.letter[0] in {'k', 'K', 'm', 'M', 'b', 'B'}
  {
  }

  lemma LetterScales(v: real, letter: char)
    ensures letter in {'k', 'K'} ==> Multiplied(v, letter) == 1000.0 * v
    ensures letter in {'m', 'M'} ==> Multiplied(v, letter) == 1000000.0 * v
    ensures letter in {'b', 'B'} ==> Multiplied(v, letter) == 1000000000.0 * v
  {
  }

  lemma PointParts(x: NumberText)
    ensures x.fraction != "" ==> x.Point()[1..] == x.fraction && |x.Point()| == 1 + |x.fraction|
    ensures x.fraction == "" ==> x.Point() == ""
  {
  }

  lemma FractionAt(x: NumberText)
    requires x.fraction != ""
    ensures var s, c := x.Text(), CutsAt(x); c.e < c.f <= |s| && s[c.e + 1..c.f] == x.fraction
  {
    LetterCut(x);
    PointParts(x);
    hide NumberText.Text, NumberText.SignText, NumberText.Point;
    var s, c := x.Text(), CutsAt(x);
    assert s[c.e + 1..c.f] == s[c.e..c.f][1..];
  }

  /** What the cuts hold. */
  lemma NumberAt(x: NumberText)
    requires x.WellFormed() && CutsFit(x.Text(), CutsAt(x))
    ensures var s, c := x.Text(), CutsAt(x);
            && Whole(s[c.d..c.e]) == Whole(x.digits) && (s[c.a] == '-' <==> x.sign.Minus?)
            && (c.f > c.e <==> x.fraction != "") && (c.f > c.e ==> Fraction(s[c.e + 1..c.f]) == Fraction(x.fraction))
            && (c.k > c.f <==> x.letter != "") && (c.k > c.f ==> s[c.f] == x.letter[0])
  {
    hide Whole, Fraction, NumberText.Text, NumberText.WellFormed, NumberText.Point, NumberText.SignText, Behind;
    DigitsCut(x);
    NumberStarts(x);
    LetterCut(x);
    PointParts(x);
    if x.fraction != "" {
      FractionAt(x);
    }
  }

  lemma PlainOf(x: NumberText)
    requires x.WellFormed()
    ensures x.Plain() == Whole(x.digits) + if x.fraction == "" then 0.0 else Fraction(x.fraction)
  {
    PartsAreSound(x);
    hide NumberText.WellFormed, Whole, Fraction, WithoutCommas, Digits.Read, Digits.Power;
    WholeReads(x.digits);
    FractionReads(x.fraction);
    EmptyFraction();
  }

  lemma AmountOf(x: NumberText, v: real)
    requires x.WellFormed() && v == x.Plain()
    ensures x.Amount() == if x.letter == "" then if x.sign.Minus? then -v else v
                          else Multiplied(if x.sign.Minus? then -v else v, x.letter[0])
  {
    PartsAreSound(x);
    hide NumberText.WellFormed, NumberText.Plain, Multiplied;
    if x.letter != "" {
      LetterScales(v, x.letter[0]);
      LetterScales(-v, x.letter[0]);
    }
  }

  lemma MagnitudeBy(s: string, c: Cuts, plain: real, negative: bool)
    requires CutsFit(s, c) && (negative <==> s[c.a] == '-')
    requires plain == Whole(s[c.d..c.e]) + if c.f > c.e then Fraction(s[c.e + 1..c.f]) else 0.0
    ensures Magnitude(s, c) == if c.k > c.f then Multiplied(if negative then -plain else plain, s[c.f])
                               else if negative then -plain else plain
  {
    hide Whole, Fraction, Multiplied;
  }

  lemma MagnitudeOf(x: NumberText)
    requires x.WellFormed() && CutsFit(x.Text(), CutsAt(x))
    ensures Magnitude(x.Text(), CutsAt(x)) == x.Amount()
  {
    hide Whole, Fraction, Multiplied, Magnitude, NumberText.Text, NumberText.WellFormed, NumberText.Plain, NumberText.Amount, CutsAt;
    NumberAt(x);
    PlainOf(x);
    AmountOf(x, x.Plain());
    MagnitudeBy(x.Text(), CutsAt(x), x.Plain(), x.sign.Minus?);
  }

  lemma EmptyFraction()
    ensures Digits.Read("") == 0 && Digits.Power(0) == 1
  {
  }

  /** A score text reads as its number, in the unit that the text around the number makes; with a line break after the
      number it is no score. */
  lemma ScoreTextReads(x: NumberText)
    requires x.WellFormed()
    ensures '\n' !in x.rest ==> ParseComparable(x.Text()) == Some(Numeric(x.Amount(), Unit(x.prefix + x.rest)))
    ensures '\n' in x.rest ==> ParseNumeric(x.Text()) == None
  {
    CutsOf(x);
    MagnitudeOf(x);
    PrefixCut(x);
    LetterCut(x);
    hide Match, Magnitude, Unit, NumberText.Text, NumberText.Point, NumberText.SignText, Behind;
  }

  // ---------------------------------------------------------------- whole numbers

  function Decimal(n: int): string {
    if n < 0 then "-" + Digits.Render(-n) else Digits.Render(n)
  }

  lemma NoUnit()
    ensures Unit("") == ""
  {
  }

  /** The parts of a whole number written in decimal digits. */
  function DecimalText(n: int): NumberText {
    NumberText("", if n < 0 then Minus else NoSign, Digits.Render(if n < 0 then -n else n), "", "", "")
  }

  lemma DecimalIsWellFormed(n: int)
    ensures DecimalText(n).WellFormed() && DecimalText(n).Text() == Decimal(n)
  {
    hide Digits.Render, NumberText.CarriesOn;
    var x := DecimalText(n);
    assert Digits.IsDigit(x.digits[0]);
    assert x.prefix + x.SignText() == x.SignText() && x.letter + x.rest == "" && x.Point() + "" == "";
  }

  lemma DecimalAmount(n: int)
    requires DecimalText(n).WellFormed()
    ensures DecimalText(n).Amount() == n as real
  {
    hide Digits.Render, Digits.Read, WithoutCommas, NumberText.WellFormed, Digits.Power;
    var k: nat := if n < 0 then -n else n;
    DigitsHaveNoCommas(Digits.Render(k));
    Digits.ReadRender(k);
    EmptyFraction();
  }

  lemma DecimalIsTrimmed(n: int)
    ensures Trim(Decimal(n)) == Decimal(n) && Decimal(n) != "" && Decimal(n) != "-"
  {
    hide Digits.Render, Trim;
    var digits := Digits.Render(if n < 0 then -n else n);
    assert Digits.IsDigit(digits[0]) && Digits.IsDigit(digits[|digits| - 1]);
    TrimIsTrimmed(Decimal(n));
  }

  /** Every whole number reads as itself, without a unit. */
  lemma DecimalReads(n: int)
    ensures ParseComparable(Decimal(n)) == Some(Numeric(n as real, ""))
  {
    hide *;
    DecimalIsWellFormed(n);
    DecimalAmount(n);
    ScoreTextReads(DecimalText(n));
    NothingAround(n);
    NoUnit();
  }

  lemma NothingAround(n: int)
    ensures DecimalText(n).prefix + DecimalText(n).rest == ""
  {
  }

  // ---------------------------------------------------------------- units

  lemma {:induction false} SqueezeSpaces(blanks: string, s: string)
    requires AllSpace(blanks)
    ensures Squeeze(blanks + s) == Squeeze(s)
    decreases |blanks|
  {
    if blanks == "" {
      assert blanks + s == s;
    } else {
      assert (blanks + s)[0] == blanks[0] && (blanks + s)[1..] == blanks[1..] + s;
      SqueezeSpaces(blanks[1..], s);
    }
  }

  lemma SqueezeWord(word: string, s: string)
    requires word != "" && (forall i :: 0 <= i < |word| ==> NotSpace(word[i])) && (s != "" ==> IsSpace(s[0]))
    ensures Squeeze(word + s) == Joined(word, Squeeze(s))
  {
    hide Span, IsSpace;
    var t := word + s;
    assert t[0] == word[0];
    SpanOf(t, word, s, NotSpace);
    assert t[..|word|] == word && t[|word|..] == s;
  }

  /** A unit is its words in small letters, one blank between them, whatever white space is around them. */
  lemma UnitOfWords(left: string, one: string, gap: string, two: string, right: string)
    requires AllSpace(left) && AllSpace(gap) && gap != "" && AllSpace(right) && one != "" && two != ""
    requires (forall i :: 0 <= i < |one| ==> NotSpace(one[i])) && forall i :: 0 <= i < |two| ==> NotSpace(two[i])
    ensures Unit(left + (one + right)) == Lower(one)
    ensures Unit(left + (one + (gap + (two + right)))) == Lower(one) + " " + Lower(two)
  {
    hide Squeeze, IsSpace, NotSpace;
    SqueezeSpaces(left, one + right);
    SqueezeSpaces(left, one + (gap + (two + right)));
    SqueezeSpaces(gap, two + right);
    SqueezeSpaces(right, "");
    assert right + "" == right;
    NoUnit();
    assert right != "" ==> IsSpace(right[0]);
    SqueezeWord(one, right);
    SqueezeWord(two, right);
    assert (gap + (two + right))[0] == gap[0];
    SqueezeWord(one, gap + (two + right));
    SqueezeNothing();
    LowerConcat(one + " ", two);
    LowerConcat(one, " ");
    assert Lower(" ") == " ";
  }

  lemma SqueezeNothing()
    ensures Squeeze("") == ""
  {
  }

  // ---------------------------------------------------------------- words

  /** Small letters and blanks, none at the ends. */
  predicate IsWord(w: string) {
    w != "" && (forall i :: 0 <= i < |w| ==> 'a' <= w[i] <= 'z' || w[i] == ' ') && w[0] != ' ' && w[|w| - 1] != ' '
  }

  lemma WordReads(w: string)
    requires IsWord(w)
    ensures ParseComparable(w) == if OrdinalRank(w).Some? then Some(Ordinal(OrdinalRank(w).value)) else None
  {
    hide OrdinalRank;
    WordIsNoNumber(w);
    KeyOfKey(w);
  }

  lemma LowRungs(w: string)
    requires w in {"none", "very low", "minimal", "low", "small", "slow", "limited"}
    ensures IsWord(w) && OrdinalRank(w) == Some(if w == "none" then 0 else if w in {"very low", "minimal"} then 1 else 2)
  {
  }

  lemma MiddleRungs(w: string)
    requires w in {"medium", "moderate", "ok"}
    ensures IsWord(w) && OrdinalRank(w) == Some(3)
  {
  }

  lemma HighRungs(w: string)
    requires w in {"high", "large", "fast", "good"}
    ensures IsWord(w) && OrdinalRank(w) == Some(4)
  {
  }

  lemma TopRungs(w: string)
    requires w in {"very high", "severe", "best"}
    ensures IsWord(w) && OrdinalRank(w) == Some(5)
  {
  }

  /** The words of the ordinal scale, from none to very high. */
  lemma OrdinalScale(w: string)
    ensures w == "none" ==> ParseComparable(w) == Some(Ordinal(0))
    ensures w in {"very low", "minimal"} ==> ParseComparable(w) == Some(Ordinal(1))
    ensures w in {"low", "small", "slow", "limited"} ==> ParseComparable(w) == Some(Ordinal(2))
    ensures w in {"medium", "moderate", "ok"} ==> ParseComparable(w) == Some(Ordinal(3))
    ensures w in {"high", "large", "fast", "good"} ==> ParseComparable(w) == Some(Ordinal(4))
    ensures w in {"very high", "severe", "best"} ==> ParseComparable(w) == Some(Ordinal(5))
  {
    hide ParseComparable, OrdinalRank, IsWord;
    if w in {"none", "very low", "minimal", "low", "small", "slow", "limited"} {
      LowRungs(w);
      WordReads(w);
    }
    if w in {"medium", "moderate", "ok"} {
      MiddleRungs(w);
      WordReads(w);
    }
    if w in {"high", "large", "fast", "good"} {
      HighRungs(w);
      WordReads(w);
    }
    if w in {"very high", "severe", "best"} {
      TopRungs(w);
      WordReads(w);
    }
  }
}
