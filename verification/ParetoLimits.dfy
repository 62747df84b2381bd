/** Where dominance can cycle and leave the front empty, exactly, for each missing-data policy. */
module ParetoLimits {
  import opened Options
  import opened Text
  import Digits
  import opened Lists
  import opened Scores
  import opened Comparison
  import opened Pareto

  /** Three variants `a`, `b`, `c` scored on three dimensions. */
  function Square(a: string, b: string, c: string, d: string, e: string, f: string,
                  row1: (string, string, string), row2: (string, string, string), row3: (string, string, string),
                  policy: string): Contest {
    Contest(map[a := [(d, row1.0), (e, row1.1), (f, row1.2)],
                b := [(d, row2.0), (e, row2.1), (f, row2.2)],
                c := [(d, row3.0), (e, row3.1), (f, row3.2)]],
            [Dimension(d, "target", HIGHER), Dimension(e, "target", HIGHER), Dimension(f, "target", HIGHER)],
            policy)
  }

  lemma RowCells(t: Table, v: string, d: string, e: string, f: string, x: string, y: string, z: string)
    requires v in t && t[v] == [(d, x), (e, y), (f, z)] && d != e && d != f && e != f
    ensures Cell(t, v, d) == x && Cell(t, v, e) == y && Cell(t, v, f) == z
  {
    hide Folded, Key;
    var row := t[v];
    assert row[1..] == [(e, y), (f, z)] && row[1..][1..] == [(f, z)];
    assert Exact(row, d) == Some(x);
    assert Exact(row, e) == Exact(row[1..], e) == Some(y);
    assert Exact(row, f) == Exact(row[1..], f) == Exact(row[1..][1..], f) == Some(z);
  }

  /** `left` is at least as good as `right`, or not compared with it. */
  ghost predicate Holds(left: string, right: string, policy: string) {
    var v := CompareValues(left, right, HIGHER, policy);
    v.status.Excluded? || (v.status.Comparable? && v.sign >= 0)
  }

  lemma BeatsOnThree(c: Contest, v: string, w: string, d: Dimension, e: Dimension, f: Dimension)
    requires c.dims == [d, e, f] && d.polarity == e.polarity == f.polarity == HIGHER
    requires Holds(c.CellOf(v, d), c.CellOf(w, d), c.policy)
    requires Holds(c.CellOf(v, e), c.CellOf(w, e), c.policy)
    requires Holds(c.CellOf(v, f), c.CellOf(w, f), c.policy)
    requires || CompareValues(c.CellOf(v, d), c.CellOf(w, d), HIGHER, c.policy) == Verdict(1, Comparable)
             || CompareValues(c.CellOf(v, e), c.CellOf(w, e), HIGHER, c.policy) == Verdict(1, Comparable)
             || CompareValues(c.CellOf(v, f), c.CellOf(w, f), HIGHER, c.policy) == Verdict(1, Comparable)
    ensures c.Beats(v, w)
  {
    hide Dominates, CompareValues, Cell;
    BeatsByDimension(c, v, w);
    assert d in c.dims && e in c.dims && f in c.dims;
  }

  /** If `hi` beats `lo` outright, and both hold against `mid`, rotating them over three dimensions makes three
      variants beat each other in a circle: the front is empty. */
  lemma RotationEmptiesFront(a: string, b: string, c: string, d: string, e: string, f: string,
                             hi: string, mid: string, lo: string, policy: string)
    requires a != b && a != c && b != c && d != e && d != f && e != f
    requires CompareValues(hi, lo, HIGHER, policy) == Verdict(1, Comparable)
    requires Holds(mid, hi, policy) && Holds(lo, mid, policy)
    ensures var s := Square(a, b, c, d, e, f, (hi, mid, lo), (lo, hi, mid), (mid, lo, hi), policy);
            && Front(s, [a, b, c]) == []
            && CellsFrom(s, [a, b, c], {hi, mid, lo})
            && Climb(s, [a, c, b, a])
  {
    hide Dominates, CompareValues, Cell;
    var s := Square(a, b, c, d, e, f, (hi, mid, lo), (lo, hi, mid), (mid, lo, hi), policy);
    RowCells(s.t, a, d, e, f, hi, mid, lo);
    RowCells(s.t, b, d, e, f, lo, hi, mid);
    RowCells(s.t, c, d, e, f, mid, lo, hi);
    BeatsOnThree(s, a, b, s.dims[0], s.dims[1], s.dims[2]);
    BeatsOnThree(s, b, c, s.dims[0], s.dims[1], s.dims[2]);
    BeatsOnThree(s, c, a, s.dims[0], s.dims[1], s.dims[2]);
    HeadIsMember(Front(s, [a, b, c]));
  }

  // ---------------------------------------------------------------- exclude

  lemma DigitCuts(s: string)
    requires |s| == 1 && Digits.IsDigit(s[0])
    ensures Match(s) == Some(Cuts(0, 0, 1, 1, 1))
  {
    assert s[0..] == s && s[1..] == [];
    assert Span(s, PrecedesNumber) == 0;
    assert Span(s, IsDigitOrComma) == 1 + Span(s[1..], IsDigitOrComma) == 1;
  }

  lemma DigitMagnitude(s: string)
    requires |s| == 1 && Digits.IsDigit(s[0])
    ensures Magnitude(s, Cuts(0, 0, 1, 1, 1)) == DigitValue(s[0])
  {
    hide Multiplied, Fraction;
    assert s[0..1] == s && s[..|s| - 1] == [] && IsDigitOrComma(s[0]);
    assert Whole(s) == 10.0 * Whole([]) + DigitValue(s[0]);
  }

  lemma OneDigit(s: string)
    requires |s| == 1 && Digits.IsDigit(s[0])
    ensures ParseComparable(s) == Some(Numeric(DigitValue(s[0]), ""))
    ensures !Missing(s) && Trim(s) == s
  {
    hide Match, OrdinalRank, Key, Magnitude, Unit, Lower;
    DigitCuts(s);
    DigitMagnitude(s);
    NoUnit();
    TrimIsTrimmed(s);
    assert s[1..] == [] && s[..0] + s[1..] == [];
  }

  lemma NoUnit()
    ensures Unit([]) == []
  {
  }

  lemma TwoBeatsOne(policy: string)
    ensures CompareValues("2", "1", HIGHER, policy) == Verdict(1, Comparable)
  {
    hide ParseComparable, Lower, Trim;
    OneDigit("2");
    OneDigit("1");
    assert Lower("2")[0] == '2' && Lower("1")[0] == '1';
    TrimIsTrimmed(HIGHER);
  }

  lemma MissingIsExcluded(x: string)
    ensures Holds("", x, EXCLUDE) && Holds(x, "", EXCLUDE)
  {
    hide Trim, Lower, ParseComparable, Key, ZeroFill, CompareParsed, Orient;
    TrimIsTrimmed("");
    TrimTwice(x);
  }

  /** Three variants, each missing one score: under `exclude` each beats the next, and nothing is left. */
  lemma ExcludeCanEmptyTheFront()
    ensures exists c: Contest, field: seq<string> :: c.policy == EXCLUDE && field != [] && Front(c, field) == []
  {
    hide CompareValues, Dominates, Cell;
    TwoBeatsOne(EXCLUDE);
    MissingIsExcluded("2");
    MissingIsExcluded("1");
    RotationEmptiesFront("a", "b", "c", "d", "e", "f", "2", "", "1", EXCLUDE);
    var c := Square("a", "b", "c", "d", "e", "f", ("2", "", "1"), ("1", "2", ""), ("", "1", "2"), EXCLUDE);
    assert c.policy == EXCLUDE && ["a", "b", "c"] != [] && Front(c, ["a", "b", "c"]) == [];
  }

  // ---------------------------------------------------------------- the tie tolerance

  /** Two cells that can be compared and do not tie, with one that ties both, rotate. */
  lemma InconsistentTiesEmptyAFront(cells: set<string>, policy: string, x: string, y: string, z: string)
    requires x in cells && y in cells && z in cells
    requires Ties(x, y, policy) && Ties(y, z, policy) && Comparables(x, z, policy) && !Ties(x, z, policy)
    ensures EmptiesAFront(cells, policy)
  {
    hide CompareValues, Dominates, Cell;
    MirroredValues(x, z, HIGHER, policy);
    TiesMirrored(x, y, policy);
    TiesMirrored(y, z, policy);
    SignRange(x, z, HIGHER, policy);
    var rising := CompareValues(x, z, HIGHER, policy).sign == 1;
    RotatingEmptiesAFront(cells, policy, if rising then x else z, y, if rising then z else x);
  }

  /** Some comparison over the cells has an empty front. */
  ghost predicate EmptiesAFront(cells: set<string>, policy: string) {
    exists c: Contest, field: seq<string> ::
      c.policy == policy && CellsFrom(c, field, cells) && field != [] && Front(c, field) == []
  }

  lemma RotatingEmptiesAFront(cells: set<string>, policy: string, hi: string, mid: string, lo: string)
    requires hi in cells && mid in cells && lo in cells
    requires CompareValues(hi, lo, HIGHER, policy) == Verdict(1, Comparable)
    requires Holds(mid, hi, policy) && Holds(lo, mid, policy)
    ensures EmptiesAFront(cells, policy)
  {
    hide CompareValues, Dominates, Cell, Front;
    RotationEmptiesFront("a", "b", "c", "d", "e", "f", hi, mid, lo, policy);
    var c := Square("a", "b", "c", "d", "e", "f", (hi, mid, lo), (lo, hi, mid), (mid, lo, hi), policy);
    assert c.policy == policy && CellsFrom(c, ["a", "b", "c"], cells) && ["a", "b", "c"] != []
        && Front(c, ["a", "b", "c"]) == [];
  }

  /** Under every policy but `exclude`, all comparisons over the given cells have a non-empty front if and only if
      ties are consistent on those cells. */
  lemma FrontNonEmptyIffTiesConsistent(cells: set<string>, policy: string)
    requires policy != EXCLUDE
    ensures TiesConsistent(cells, policy) <==> !EmptiesAFront(cells, policy)
  {
    hide Ties, Comparables, Front, Cell;
    if TiesConsistent(cells, policy) {
      forall c: Contest, field: seq<string> | c.policy == policy && CellsFrom(c, field, cells) && field != []
        ensures Front(c, field) != []
      {
        forall d | d in c.dims ensures CellsOn(c, field, d) <= cells {
        }
        FrontReachedByClimbing(c, field);
      }
    } else {
      var x, y, z :| x in cells && y in cells && z in cells && Ties(x, y, policy) && Ties(y, z, policy)
                     && Comparables(x, z, policy) && !Ties(x, z, policy);
      InconsistentTiesEmptyAFront(cells, policy, x, y, z);
    }
  }

  /** Under `explicit_abstain` that is transitivity of ties: what ties with a third can be compared. */
  lemma FrontNonEmptyIffTiesTransitive(cells: set<string>)
    ensures TiesTransitive(cells) <==>
            forall c: Contest, field: seq<string> ::
              c.policy == ABSTAIN && CellsFrom(c, field, cells) && field != [] ==> Front(c, field) != []
  {
    hide CompareValues, Front, CellsFrom;
    FrontNonEmptyIffTiesConsistent(cells, ABSTAIN);
    forall x, y, z | Tied(x, y) && Tied(y, z) ensures Comparables(x, z, ABSTAIN) {
      AbstainComparableTransitive(x, y, z, HIGHER);
    }
  }

  // ---------------------------------------------------------------- exclude, exactly

  predicate StrictlyAbove(x: string, y: string) {
    CompareValues(x, y, HIGHER, EXCLUDE) == Verdict(1, Comparable)
  }

  /** No two cells are ordered, or none is missing and ties are transitive. */
  ghost predicate ExcludeSafe(cells: set<string>) {
    || (forall x, y :: x in cells && y in cells ==> !StrictlyAbove(x, y))
    || ((forall x :: x in cells ==> !Missing(x)) && TiesTransitive(cells))
  }

  lemma MissingHolds(m: string, x: string)
    requires Missing(m)
    ensures Holds(m, x, EXCLUDE) && Holds(x, m, EXCLUDE)
  {
    hide Trim, Key, ParseComparable, RenderZero;
    TrimTwice(m);
    TrimTwice(x);
  }

  /** Where nothing is ordered, nothing dominates. */
  lemma UnorderedNeverBeats(c: Contest, field: seq<string>, cells: set<string>, v: string, w: string)
    requires c.policy == EXCLUDE && CellsFrom(c, field, cells) && v in field && w in field
    requires forall x, y :: x in cells && y in cells ==> !StrictlyAbove(x, y)
    ensures !c.Beats(v, w)
  {
    hide Dominates, CompareValues, Cell, Trim;
    BeatsByDimension(c, v, w);
    forall d | d in c.dims ensures c.Versus(v, w, d) != Verdict(1, Comparable) {
      var x, y := c.CellOf(v, d), c.CellOf(w, d);
      PolarityTurnsSign(x, y, d.polarity, EXCLUDE);
      MirroredValues(x, y, HIGHER, EXCLUDE);
      assert !StrictlyAbove(x, y) && !StrictlyAbove(y, x);
    }
  }

  /** Where no cell is missing, `exclude` compares as `explicit_abstain` does. */
  lemma PresentBeatsAlike(c: Contest, field: seq<string>, cells: set<string>, v: string, w: string)
    requires CellsFrom(c, field, cells) && v in field && w in field && forall x :: x in cells ==> !Missing(x)
    ensures c.Beats(v, w) <==> c.(policy := ABSTAIN).Beats(v, w)
  {
    hide Dominates, CompareValues, Cell, Missing;
    var other := c.(policy := ABSTAIN);
    BeatsByDimension(c, v, w);
    BeatsByDimension(other, v, w);
    forall d | d in c.dims ensures c.Versus(v, w, d) == other.Versus(v, w, d) {
      PresentCompare(c.CellOf(v, d), c.CellOf(w, d), c.policy);
    }
  }

  lemma SafeExcludeHasFront(c: Contest, field: seq<string>, cells: set<string>)
    requires ExcludeSafe(cells) && c.policy == EXCLUDE && CellsFrom(c, field, cells) && field != []
    ensures Front(c, field) != []
  {
    hide Dominates, Missing, StrictlyAbove, TiesTransitive, Cell;
    if forall x, y :: x in cells && y in cells ==> !StrictlyAbove(x, y) {
      forall w | w in field ensures !c.Beats(w, field[0]) {
        UnorderedNeverBeats(c, field, cells, w, field[0]);
      }
      assert field[0] in Front(c, field);
    } else {
      var other := c.(policy := ABSTAIN);
      AbstainFrontDominates(other, field, cells);
      var v := Front(other, field)[0];
      assert v in Front(other, field);
      forall w | w in field ensures !c.Beats(w, v) {
        PresentBeatsAlike(c, field, cells, w, v);
      }
      assert v in Front(c, field);
    }
  }

  lemma UnsafeExcludeEmptiesAFront(cells: set<string>)
    requires !ExcludeSafe(cells)
    ensures EmptiesAFront(cells, EXCLUDE)
  {
    hide CompareValues, Missing, Front, CellsFrom;
    var hi, lo :| hi in cells && lo in cells && StrictlyAbove(hi, lo);
    if m :| m in cells && Missing(m) {
      MissingHolds(m, hi);
      MissingHolds(m, lo);
      RotatingEmptiesAFront(cells, EXCLUDE, hi, m, lo);
    } else {
      var x, y, z :| x in cells && y in cells && z in cells && Tied(x, y) && Tied(y, z) && !Tied(x, z);
      AbstainComparableTransitive(x, y, z, HIGHER);
      PresentCompare(x, y, EXCLUDE);
      PresentCompare(y, z, EXCLUDE);
      PresentCompare(x, z, EXCLUDE);
      InconsistentTiesEmptyAFront(cells, EXCLUDE, x, y, z);
    }
  }

  /** Under `exclude` every comparison over the given cells has a non-empty front if and only if no two cells are
      ordered, or none is missing and ties are transitive. */
  lemma ExcludeFrontNonEmptyIff(cells: set<string>)
    ensures ExcludeSafe(cells) <==>
            forall c: Contest, field: seq<string> ::
              c.policy == EXCLUDE && CellsFrom(c, field, cells) && field != [] ==> Front(c, field) != []
  {
    hide ExcludeSafe, Front, CellsFrom;
    if ExcludeSafe(cells) {
      forall c: Contest, field: seq<string> | c.policy == EXCLUDE && CellsFrom(c, field, cells) && field != []
        ensures Front(c, field) != []
      {
        SafeExcludeHasFront(c, field, cells);
      }
    } else {
      UnsafeExcludeEmptiesAFront(cells);
    }
  }

  // ---------------------------------------------------------------- ties are not transitive in general

  function Pad(n: nat, s: string): (r: string)
    ensures (forall i :: 0 <= i < |s| ==> Digits.IsDigit(s[i])) ==> forall i :: 0 <= i < |r| ==> Digits.IsDigit(r[i])
    ensures s != [] ==> r != []
  {
    if n == 0 then s else "0" + Pad(n - 1, s)
  }

  function Ten(n: nat): (r: real)
    ensures r > 0.0
  {
    if n == 0 then 1.0 else 10.0 * Ten(n - 1)
  }

  lemma {:induction false} PaddedFraction(n: nat, s: string)
    requires forall i :: 0 <= i < |s| ==> Digits.IsDigit(s[i])
    ensures Fraction(Pad(n, s)) == Fraction(s) / Ten(n)
  {
    if n > 0 {
      PaddedFraction(n - 1, s);
      assert Pad(n, s)[1..] == Pad(n - 1, s);
      assert Fraction(Pad(n, s)) == Fraction(Pad(n - 1, s)) / 10.0;
    }
  }

  lemma DecimalCuts(f: string)
    requires f != [] && forall i :: 0 <= i < |f| ==> Digits.IsDigit(f[i])
    ensures var s := "0." + f; Match(s) == Some(Cuts(0, 0, 1, |s|, |s|))
  {
    var s := "0." + f;
    assert s[0] == '0' && s[1] == '.' && s[2..] == f && s[0..] == s && Digits.IsDigit(s[2]);
    assert Span(s, PrecedesNumber) == 0;
    var n := Span(s, IsDigitOrComma);
    assert n == 1;
    assert Span(f, Digits.IsDigit) == |f|;
    assert FractionEnd(s, 1) == |s|;
  }

  lemma DecimalMagnitude(f: string)
    requires f != [] && forall i :: 0 <= i < |f| ==> Digits.IsDigit(f[i])
    ensures var s := "0." + f;
            CutsFit(s, Cuts(0, 0, 1, |s|, |s|)) && Magnitude(s, Cuts(0, 0, 1, |s|, |s|)) == Fraction(f)
  {
    hide Multiplied;
    var s := "0." + f;
    DecimalCuts(f);
    assert s[2..|s|] == f && s[0..1] == "0";
    ZeroDigits();
  }

  lemma DecimalTrimmed(f: string)
    requires f != [] && forall i :: 0 <= i < |f| ==> Digits.IsDigit(f[i])
    ensures !Missing("0." + f) && Trim("0." + f) == "0." + f
  {
    var s := "0." + f;
    assert s[|s| - 1] == f[|f| - 1] && s[0] == '0';
    TrimIsTrimmed(s);
  }

  /** A decimal fraction reads as its value, without a unit. */
  lemma DecimalText(f: string)
    requires f != [] && forall i :: 0 <= i < |f| ==> Digits.IsDigit(f[i])
    ensures ParseComparable("0." + f) == Some(Numeric(Fraction(f), ""))
  {
    hide Match, OrdinalRank, Key, Magnitude, Unit, Lower, Fraction;
    var s := "0." + f;
    DecimalCuts(f);
    DecimalMagnitude(f);
    NoUnit();
    assert s[|s|..] == [] && s[..0] + s[|s|..] == [];
  }

  lemma ShortFractions()
    ensures Fraction("6") == 0.6 && Fraction("12") == 0.12
  {
    assert "6"[1..] == "" && "12"[1..] == "2" && "2"[1..] == "";
    assert Fraction("2") == 0.2;
  }

  lemma PowersOfTen()
    ensures Ten(8) == 100000000.0 && Ten(9) == 1000000000.0
  {
  }

  /** 0 ties with 0.0000000006 and that with 0.0000000012, but 0 does not tie with 0.0000000012. */
  lemma ToleranceIsNotTransitive()
    ensures !TiesTransitive({"0", "0." + Pad(9, "6"), "0." + Pad(8, "12")})
  {
    hide CompareValues, ParseComparable, Missing, Trim, Pad, Fraction, Ten;
    var x, y, z := "0", "0." + Pad(9, "6"), "0." + Pad(8, "12");
    OneDigit(x);
    forall f | f == Pad(9, "6") || f == Pad(8, "12")
      ensures ParseComparable("0." + f) == Some(Numeric(Fraction(f), "")) && !Missing("0." + f) && Trim("0." + f) == "0." + f
    {
      DecimalText(f);
      DecimalTrimmed(f);
    }
    PaddedFraction(9, "6");
    PaddedFraction(8, "12");
    ShortFractions();
    PowersOfTen();
    PresentCompare(x, y, ABSTAIN);
    PresentCompare(y, z, ABSTAIN);
    PresentCompare(x, z, ABSTAIN);
    TiesByWorth(x, y, ABSTAIN);
    TiesByWorth(y, z, ABSTAIN);
    TiesByWorth(x, z, ABSTAIN);
  }
}
