/** Times as the artifact file writes them: which come back when they are read again.

    The layout writes the date and the clock of the zone that a time carries, and a literal Z. Reading that text gives
    a time in UTC.

    So a time comes back exactly if it was in UTC, had no fraction of a second, and had a year of four digits. */
module TimeText {
  import opened Options
  import opened Text
  import opened Frontmatter
  import Digits

  /** What the layout can hold: a year of four digits. */
  predicate FourDigitYear(t: Time) {
    0 <= t.year <= 9999
  }

  /** What is read for a written time: its calendar and clock, taken as UTC; the zero time if the year is out of range. */
  function Reread(t: Time): Time {
    if FourDigitYear(t) then t.(nanos := 0, offset := 0) else ZERO_TIME
  }

  lemma TwoDigits(n: nat)
    requires n < 100
    ensures var s := Digits.Padded(n, 2); |s| == 2 && Digits.AllDigits(s) && Digits.Read(s) == n
  {
    hide Digits.Render, Digits.Read, Digits.PadLeft;
    assert Digits.Power(2) == 10 * Digits.Power(1) && Digits.Power(1) == 10 * Digits.Power(0);
    Digits.RenderLength(n, 2);
    Digits.ReadPadded(n, 2);
  }

  lemma FourDigits(n: nat)
    ensures var s := Digits.Padded(n, 4); Digits.AllDigits(s) && Digits.Read(s) == n && (|s| == 4 <==> n < 10000)
  {
    hide Digits.Render, Digits.Read, Digits.PadLeft;
    assert Digits.Power(2) == 10 * Digits.Power(1) && Digits.Power(1) == 10 * Digits.Power(0);
    assert Digits.Power(4) == 10 * Digits.Power(3) && Digits.Power(3) == 10 * Digits.Power(2);
    if n < 10000 {
      Digits.RenderLength(n, 4);
    }
    Digits.ReadPadded(n, 4);
    Digits.ReadBelow(Digits.Padded(n, 4));
  }

  /** Six fields between their marks. */
  lemma Slices(y: string, mo: string, d: string, h: string, mi: string, se: string)
    requires |y| == 4 && |mo| == |d| == |h| == |mi| == |se| == 2
    ensures var s := y + "-" + mo + "-" + d + "T" + h + ":" + mi + ":" + se + "Z";
            && |s| == 20 && s[..4] == y && s[5..7] == mo && s[8..10] == d && s[11..13] == h && s[14..16] == mi && s[17..19] == se
            && s[4] == '-' && s[7] == '-' && s[10] == 'T' && s[13] == ':' && s[16] == ':' && s[19] == 'Z'
  {
  }

  /** A time whose year has four digits reads as its own clock in UTC. */
  lemma FormatReads(c: Calendar, t: Time)
    requires FourDigitYear(t)
    ensures ReadTime(c, Format(t)) == Some(Reread(t))
  {
    hide Digits.Padded, Digits.Read, DaysIn;
    FourDigits(t.year);
    DaysFit(t.year, t.month);
    TwoDigits(t.month);
    TwoDigits(t.day);
    TwoDigits(t.hour);
    TwoDigits(t.minute);
    TwoDigits(t.second);
    Slices(Digits.Padded(t.year, 4), Digits.Padded(t.month, 2), Digits.Padded(t.day, 2),
           Digits.Padded(t.hour, 2), Digits.Padded(t.minute, 2), Digits.Padded(t.second, 2));
  }

  lemma DaysFit(year: int, month: int)
    ensures DaysIn(year, month) <= 31
  {
  }

  /** Any other year is not read at all: it is written with a sign or with more digits. */
  lemma FormatFails(c: Calendar, t: Time)
    requires !FourDigitYear(t)
    ensures ReadTime(c, Format(t)) == None
  {
    hide Digits.Padded, Digits.Read;
    var s, y := Format(t), YearText(t.year);
    FourDigits(if t.year < 0 then -t.year else t.year);
    assert |y| >= 5 && s[..|y|] == y;
    if t.year < 0 {
      assert s[..4][0] == y[0] == '-';
    } else {
      assert s[4] == y[4] && Digits.IsDigit(y[4]);
    }
  }

  /** Reading a time back: exactly the times of four-digit years shown in UTC and without a fraction survive. */
  lemma TimeSurvivesIff(c: Calendar, t: Time)
    ensures ReadTime(c, Format(t)) == Some(t) <==> FourDigitYear(t) && t.offset == 0 && t.nanos == 0
    ensures Reread(t) == t <==> FourDigitYear(t) && t.offset == 0 && t.nanos == 0
  {
    hide ReadTime, Format;
    if FourDigitYear(t) {
      FormatReads(c, t);
    } else {
      FormatFails(c, t);
    }
  }

  predicate TimeChar(ch: char) {
    Digits.IsDigit(ch) || ch == '-' || ch == 'T' || ch == ':' || ch == 'Z'
  }

  /** A written time is one line, and neither trimming nor unquoting touches it. */
  lemma FormatIsPlain(t: Time)
    ensures '\n' !in Format(t) && Value(Format(t)) == Format(t)
  {
    hide Digits.Padded, Trim;
    var s := Format(t);
    assert forall i :: 0 <= i < |s| ==> TimeChar(s[i]);
    assert s[|s| - 1] == 'Z';
    TrimIsTrimmed(s);
  }

  /** What the parser holds after reading a written time into a field still unset. */
  lemma TimeReads(c: Calendar, t: Time)
    ensures TimeOr(c, Value(Format(t)), ZERO_TIME) == Reread(t) && '\n' !in Format(t)
  {
    hide ReadTime, Format, Value;
    FormatIsPlain(t);
    if FourDigitYear(t) {
      FormatReads(c, t);
    } else {
      FormatFails(c, t);
    }
  }
}
