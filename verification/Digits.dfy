/** Decimal digits: rendering a number, padding it to a width, and reading it back.

    `Read` undoes `Render`, and padding adds leading zeros that reading ignores.

    Claim identifiers, item numbers, version numbers and times are written with these functions, so whether they can
    be told apart or read again is decided here. */
module Digits {

  predicate IsDigit(c: char) {
    '0' <= c <= '9'
  }

  predicate AllDigits(s: string) {
    forall i :: 0 <= i < |s| ==> IsDigit(s[i])
  }

  function DigitChar(d: nat): (c: char)
    requires d < 10
    ensures IsDigit(c) && DigitOf(c) == d
  {
    '0' + d as char
  }

  function DigitOf(c: char): (d: nat)
    requires IsDigit(c)
    ensures d < 10
  {
    c as int - '0' as int
  }

  function Render(n: nat): (s: string)
    ensures s != [] && AllDigits(s)
  {
    if n < 10 then [DigitChar(n)] else Render(n / 10) + [DigitChar(n % 10)]
  }

  function Read(s: string): nat
    requires AllDigits(s)
  {
    if s == [] then 0 else 10 * Read(s[..|s| - 1]) + DigitOf(s[|s| - 1])
  }

  /** Zeros on the left up to the width. */
  function Padded(n: nat, width: nat): (s: string)
    ensures AllDigits(s) && s != [] && |s| >= width
  {
    PadLeft(Render(n), width)
  }

  function PadLeft(s: string, width: nat): (r: string)
    requires AllDigits(s)
    ensures AllDigits(r) && |r| >= |s| && |r| >= width && (|s| <= width ==> |r| == width)
    decreases width - |s|
  {
    if |s| >= width then s else PadLeft("0" + s, width)
  }

  lemma {:induction false} ReadRender(n: nat)
    ensures Read(Render(n)) == n
  {
    if n >= 10 {
      ReadRender(n / 10);
      assert Render(n)[..|Render(n)| - 1] == Render(n / 10);
    } else {
      assert [DigitChar(n)][..0] == [];
    }
  }

  lemma {:induction false} ReadLeadingZero(s: string)
    requires AllDigits(s)
    ensures AllDigits("0" + s) && Read("0" + s) == Read(s)
    decreases |s|
  {
    if s == [] {
      assert ("0" + s)[..0] == [];
    } else {
      ReadLeadingZero(s[..|s| - 1]);
      assert ("0" + s)[..|s|] == "0" + s[..|s| - 1];
    }
  }

  lemma {:induction false} ReadPadLeft(s: string, width: nat)
    requires AllDigits(s)
    ensures Read(PadLeft(s, width)) == Read(s)
    decreases width - |s|
  {
    if |s| < width {
      ReadLeadingZero(s);
      ReadPadLeft("0" + s, width);
    }
  }

  lemma ReadPadded(n: nat, width: nat)
    ensures Read(Padded(n, width)) == n
  {
    ReadRender(n);
    ReadPadLeft(Render(n), width);
  }

  function Power(width: nat): (p: nat)
    ensures p >= 1
  {
    if width == 0 then 1 else 10 * Power(width - 1)
  }

  lemma {:induction false} RenderLength(n: nat, width: nat)
    requires width >= 1 && n < Power(width)
    ensures |Render(n)| <= width
    decreases width
  {
    assert Power(0) == 1 && Power(1) == 10 * Power(0);
    if n >= 10 {
      assert Power(width) == 10 * Power(width - 1);
      RenderLength(n / 10, width - 1);
    }
  }

  /** A number of so many digits is below the power of ten. */
  lemma {:induction false} ReadBelow(s: string)
    requires AllDigits(s)
    ensures Read(s) < Power(|s|)
    decreases |s|
  {
    if s != [] {
      ReadBelow(s[..|s| - 1]);
    }
  }
}
