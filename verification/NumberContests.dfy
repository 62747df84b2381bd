/** Comparing plain numbers: what the comparison of texts comes to when the cells are decimal numbers. */
module NumberContests {
  import opened Options
  import opened Text
  import opened Lists
  import opened Scores
  import opened Comparison
  import opened Pareto
  import opened ScoreText
  import opened Elimination
  import Digits

  // ---------------------------------------------------------------- two numbers

  /** A number is not a missing cell. */
  lemma NotMissing(x: NumberText)
    requires x.WellFormed() && Trim(x.Text()) == x.Text() && '\n' !in x.rest
    ensures !Missing(x.Text())
  {
    hide Trim, ParseComparable, NumberText.Text, NumberText.WellFormed, NumberText.Amount, Unit;
    ScoreTextReads(x);
    NothingReads();
  }

  lemma NothingReads()
    ensures ParseComparable("").None? && ParseComparable("-").None?
  {
    hide OrdinalRank;
    KeyOfKey("");
    KeyOfKey("-");
    NoRank();
    assert Span("", PrecedesNumber) == 0 && Span("-", PrecedesNumber) == 0;
  }

  lemma NoRank()
    ensures OrdinalRank("").None? && OrdinalRank("-").None?
  {
  }

  /** Two numbers in one unit: the greater is better or worse as the polarity has it; numbers less than a thousandth
      of a millionth apart tie, and without one of the two polarities all numbers do. */
  lemma NumbersCompare(x: NumberText, y: NumberText, polarity: string, policy: string)
    requires x.WellFormed() && y.WellFormed() && Trim(x.Text()) == x.Text() && Trim(y.Text()) == y.Text()
    requires Unit(x.prefix + x.rest) == Unit(y.prefix + y.rest) && '\n' !in x.rest && '\n' !in y.rest
    ensures var a, b, v := x.Amount(), y.Amount(), CompareValues(x.Text(), y.Text(), polarity, policy);
            && v.status.Comparable?
            && (polarity == "higher_better" ==>
                  v.sign == if -0.000000001 < a - b < 0.000000001 then 0 else if a > b then 1 else -1)
            && (polarity == "lower_better" ==>
                  v.sign == if -0.000000001 < a - b < 0.000000001 then 0 else if a < b then 1 else -1)
            && (Trim(polarity) !in {"higher_better", "lower_better"} ==> v.sign == 0)
  {
    hide Trim, Key, ParseComparable, NumberText.Text, NumberText.WellFormed, NumberText.Amount, Unit;
    ScoreTextReads(x);
    ScoreTextReads(y);
    NotMissing(x);
    NotMissing(y);
    TrimIsTrimmed(x.Text());
    TrimIsTrimmed(y.Text());
    TrimIsTrimmed("higher_better");
    TrimIsTrimmed("lower_better");
    if Key(x.Text()) == Key(y.Text()) {
      SameKeySameScore(x.Text(), y.Text());
    }
  }

  /** A missing cell against a number: left out under `exclude`, taken for zero under `zero`, else undecided. */
  lemma MissingAgainstNumber(m: string, n: int, policy: string)
    requires Trim(m) == "" || Trim(m) == "-"
    ensures var v := CompareValues(m, Decimal(n), "higher_better", policy);
            && (policy == "exclude" ==> v == Verdict(0, Excluded))
            && (policy == "zero" ==> v == Verdict(if n == 0 then 0 else if n < 0 then 1 else -1, Comparable))
            && (policy !in {"exclude", "zero"} ==> v == Verdict(0, Unresolved))
  {
    hide Trim, Key, ParseComparable, Decimal;
    DecimalReads(n);
    DecimalReads(0);
    DecimalIsTrimmed(n);
    ZeroText();
    NothingReads();
    TrimTwice(m);
    TrimIsTrimmed(Decimal(n));
    TrimIsTrimmed(Trim(m));
    TrimIsTrimmed("higher_better");
    if Key(Trim(m)) == Key(Decimal(n)) {
      TrimTwice(m);
      TrimIsTrimmed(m);
      SameKeySameScore(Trim(m), Decimal(n));
    }
  }

  lemma ZeroText()
    ensures Decimal(0) == "0" && "0" + "" == "0"
  {
    assert '0' + 0 as char == '0';
  }

  /** Every other pair of cells, by what they read as. The same text ties with itself, letter case and outer blanks aside;
      plain text, two units, or a word and a number decide nothing; two words compare by their rungs. */
  lemma OtherCellsCompare(x: string, y: string, policy: string)
    requires !Missing(x) && !Missing(y)
    ensures var p, q, v := ParseComparable(Trim(x)), ParseComparable(Trim(y)), CompareValues(x, y, "higher_better", policy);
            if Lower(Trim(x)) == Lower(Trim(y)) then v == Verdict(0, Comparable)
            else if p.None? || q.None? || p.value.Numeric? != q.value.Numeric? then v == Verdict(0, Unresolved)
            else if p.value.Numeric? && p.value.unit != q.value.unit then v == Verdict(0, Unresolved)
            else if p.value.Ordinal? then
              v == Verdict(if p.value.rank == q.value.rank then 0 else if p.value.rank > q.value.rank then 1 else -1, Comparable)
            else v.status.Comparable?
  {
    hide Trim, Lower, ParseComparable;
    TrimTwice(x);
    TrimTwice(y);
    TrimIsTrimmed("higher_better");
  }

  /** Two missing cells tie if they are missing alike; else they are left out or decide nothing. */
  lemma MissingCellsCompare(x: string, y: string, polarity: string, policy: string)
    requires Trim(x) in {"", "-"} && Trim(y) in {"", "-"}
    ensures CompareValues(x, y, polarity, policy)
            == if Trim(x) == Trim(y) then Verdict(0, Comparable)
               else if policy == "exclude" then Verdict(0, Excluded)
               else Verdict(0, Unresolved)
  {
    hide Trim, ParseComparable;
    TrimTwice(x);
    TrimTwice(y);
    DashIsItsOwnLower(Trim(x));
    DashIsItsOwnLower(Trim(y));
  }

  // ---------------------------------------------------------------- contests over whole numbers

  /** Every cell of the field is a whole number in decimal digits: `n(v, d)` on dimension `d`. */
  ghost predicate OverNumbers(c: Contest, field: seq<string>, n: (string, Dimension) -> int) {
    forall v, d :: v in field && d in c.dims ==> c.CellOf(v, d) == Decimal(n(v, d))
  }

  /** The dimension prefers the first number to the second. */
  predicate Prefers(d: Dimension, a: int, b: int) {
    (d.polarity == "higher_better" && a > b) || (d.polarity == "lower_better" && a < b)
  }

  lemma NumbersVersus(c: Contest, v: string, w: string, d: Dimension, a: int, b: int)
    requires c.CellOf(v, d) == Decimal(a) && c.CellOf(w, d) == Decimal(b)
    requires d.polarity in {"higher_better", "lower_better"}
    ensures c.Versus(v, w, d) == Verdict(if Prefers(d, a, b) then 1 else if Prefers(d, b, a) then -1 else 0, Comparable)
  {
    hide CompareValues, Trim, Cell, Decimal, DecimalText, Unit, NumberText.Text, NumberText.WellFormed, NumberText.Amount;
    DecimalIsWellFormed(a);
    DecimalIsWellFormed(b);
    DecimalIsTrimmed(a);
    DecimalIsTrimmed(b);
    DecimalAmount(a);
    DecimalAmount(b);
    NothingAround(a);
    NothingAround(b);
    NumbersCompare(DecimalText(a), DecimalText(b), d.polarity, c.policy);
  }

  /** On whole numbers dominance is that of numbers, under every policy: nowhere less preferred, somewhere preferred. */
  lemma DominanceOfNumbers(c: Contest, field: seq<string>, n: (string, Dimension) -> int, v: string, w: string)
    requires OverNumbers(c, field, n) && v in field && w in field
    requires forall d :: d in c.dims ==> d.polarity in {"higher_better", "lower_better"}
    ensures c.Beats(v, w) <==>
              && (forall d :: d in c.dims ==> !Prefers(d, n(w, d), n(v, d)))
              && (exists d :: d in c.dims && Prefers(d, n(v, d), n(w, d)))
  {
    hide Dominates, At, Cell, Decimal;
    BeatsByDimension(c, v, w);
    forall d | d in c.dims
      ensures c.Versus(v, w, d) == Verdict(if Prefers(d, n(v, d), n(w, d)) then 1 else if Prefers(d, n(w, d), n(v, d)) then -1 else 0,
                                           Comparable)
    {
      NumbersVersus(c, v, w, d, n(v, d), n(w, d));
    }
  }

  /** With one dimension where higher is better, the front holds just the variants with the greatest number. */
  lemma FrontOfNumbers(c: Contest, field: seq<string>, n: (string, Dimension) -> int, d: Dimension, v: string)
    requires OverNumbers(c, field, n) && c.dims == [d] && d.polarity == "higher_better"
    ensures v in Front(c, field) <==> v in field && forall w :: w in field ==> n(w, d) <= n(v, d)
  {
    hide Dominates, Decimal, Cell, OverNumbers;
    assert d in c.dims;
    forall w | w in field && v in field ensures c.Beats(w, v) <==> n(w, d) > n(v, d) {
      DominanceOfNumbers(c, field, n, w, v);
    }
  }

  // ---------------------------------------------------------------- two contenders under one constraint

  lemma NumberIsNoLabel(n: int)
    ensures !IsFailLabel(Decimal(n)) && !Blank(Decimal(n))
  {
    hide Trim, Decimal;
    DecimalIsTrimmed(n);
    NumberStartsPlain(n);
    assert Key(Decimal(n))[0] == LowerChar(Decimal(n)[0]) == Decimal(n)[0];
  }

  lemma NumberStartsPlain(n: int)
    ensures Decimal(n) != "" && (Decimal(n)[0] == '-' || '0' <= Decimal(n)[0] <= '9')
  {
    hide Digits.Render;
    var digits := Digits.Render(if n < 0 then -n else n);
    assert Digits.IsDigit(digits[0]);
  }

  lemma NumbersDuel(t: Table, d: Dimension, v: string, w: string, a: int, b: int)
    requires d.polarity in {"higher_better", "lower_better"}
    requires Cell(t, v, d.name) == Decimal(a) && Cell(t, w, d.name) == Decimal(b)
    ensures Duel(t, d, v, w) == Verdict(if Prefers(d, a, b) then 1 else if Prefers(d, b, a) then -1 else 0, Comparable)
  {
    hide CompareValues, Cell, Decimal;
    NumbersVersus(Contest(t, [d], EXCLUDE), v, w, d, a, b);
  }

  /** Of two variants with different numbers a constraint removes the one with the number less preferred; with the same
      number both stay. */
  lemma LesserIsRemoved(t: Table, d: Dimension, v: string, w: string, a: int, b: int)
    requires v != w && d.role == "constraint" && d.polarity in {"higher_better", "lower_better"}
    requires Cell(t, v, d.name) == Decimal(a) && Cell(t, w, d.name) == Decimal(b)
    ensures Removed(t, Constraints([d]), [v, w])
            == if Prefers(d, b, a) then {v} else if Prefers(d, a, b) then {w} else {}
  {
    hide Cell, Decimal, Duel, IsFailLabel, Blank, Prefers;
    NumbersDuel(t, d, v, w, a, b);
    NumbersDuel(t, d, w, v, b, a);
    NumberIsNoLabel(a);
    NumberIsNoLabel(b);
    PrefersOneWay(d, a, b);
    var pool := [v, w];
    assert [d][1..] == [] && Constraints([d]) == [d];
    assert Labels(t, [d], pool) == {};
    NothingOut(v, w);
    TwoSwept(Judge(t, d, pool), v, w);
    assert UniqueWorst(t, d, v, pool, {}) <==> Prefers(d, b, a) by {
      assert w in pool;
    }
    assert UniqueWorst(t, d, w, pool, {}) <==> Prefers(d, a, b) by {
      assert v in pool;
    }
    assert !UniqueWorst(t, d, w, pool, {v});
    assert Sweep(t, [d], pool, {}) == Sweep(t, [], pool, SweepBy(Judge(t, d, pool), pool, {}));
  }

  lemma PrefersOneWay(d: Dimension, a: int, b: int)
    ensures !(Prefers(d, a, b) && Prefers(d, b, a))
  {
  }

  lemma NothingOut(v: string, w: string)
    ensures Without([v, w], {}) == [v, w]
  {
    assert [v, w][1..] == [w] && [w][1..] == [];
    assert Without([w], {}) == [w] + Without([], {});
  }

  lemma TwoSwept(worst: (string, set<string>) -> bool, v: string, w: string)
    requires v != w
    ensures SweepBy(worst, [v, w], {}) ==
              var out := if worst(v, {}) then {v} else {};
              if worst(w, out) then out + {w} else out
  {
    assert [v, w][1..] == [w] && [w][1..] == [];
    var out := if worst(v, {}) then {v} else {};
    assert {} + {v} == {v};
    assert SweepBy(worst, [v, w], {}) == SweepBy(worst, [w], out);
    assert SweepBy(worst, [], out) == out;
  }
}
