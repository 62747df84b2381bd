/** The Pareto front of the surviving variants, and when it can be trusted. */
module Pareto {
  import opened Options
  import opened Text
  import opened Scores
  import opened Comparison

  /** What dominance is decided by: the score table, the dimensions and the missing-data policy. */
  datatype Contest = Contest(t: Table, dims: seq<Dimension>, policy: string) {
    predicate Beats(left: string, right: string) {
      Dominates(left, right, t, dims, policy)
    }

    function Versus(left: string, right: string, d: Dimension): Verdict {
      At(left, right, t, d, policy)
    }

    function CellOf(v: string, d: Dimension): string {
      Cell(t, v, d.name)
    }
  }

  /** The variants that no other one beats, in their order. */
  function FrontOf(c: Contest, candidates: seq<string>, field: seq<string>): (front: seq<string>)
    ensures forall v :: v in front <==> v in candidates && forall w :: w in field ==> !c.Beats(w, v)
  {
    hide Dominates;
    if candidates == [] then []
    else
      var v := candidates[0];
      (if forall w :: w in field ==> !c.Beats(w, v) then [v] else []) + FrontOf(c, candidates[1..], field)
  }

  function Front(c: Contest, field: seq<string>): seq<string> {
    FrontOf(c, field, field)
  }

  /** A climb: each variant is beaten by the next. */
  ghost predicate Climb(c: Contest, chain: seq<string>) {
    forall i :: 0 <= i < |chain| - 1 ==> c.Beats(chain[i + 1], chain[i])
  }

  lemma BeatsByDimension(c: Contest, left: string, right: string)
    ensures c.Beats(left, right) <==>
              && (forall d :: d in c.dims ==> var v := c.Versus(left, right, d);
                    v.status.Excluded? || (v.status.Comparable? && v.sign >= 0))
              && (exists d :: d in c.dims && c.Versus(left, right, d) == Verdict(1, Comparable))
  {
    hide Dominates, At;
    DominanceByDimension(left, right, c.t, c.dims, c.policy);
  }

  lemma OnlyExcludeExcludes(c: Contest, left: string, right: string, d: Dimension)
    requires c.policy != EXCLUDE
    ensures !c.Versus(left, right, d).status.Excluded?
  {
    hide ParseComparable, Key, Trim, RenderZero, Cell;
  }

  /** The cells of `field` on the contest's dimensions all come from `cells`. */
  ghost predicate CellsFrom(c: Contest, field: seq<string>, cells: set<string>) {
    forall v, d :: v in field && d in c.dims ==> c.CellOf(v, d) in cells
  }

  // ---------------------------------------------------------------- comparing and tying

  const HIGHER := "higher_better"

  predicate Comparables(x: string, y: string, policy: string) {
    CompareValues(x, y, HIGHER, policy).status.Comparable?
  }

  predicate Ties(x: string, y: string, policy: string) {
    CompareValues(x, y, HIGHER, policy) == Verdict(0, Comparable)
  }

  /** Where two cells tie with a third and can be compared with each other, they tie too. */
  ghost predicate TiesConsistent(cells: set<string>, policy: string) {
    forall x, y, z :: x in cells && y in cells && z in cells && Ties(x, y, policy) && Ties(y, z, policy) ==>
      Comparables(x, z, policy) ==> Ties(x, z, policy)
  }

  lemma TiesByWorth(x: string, y: string, policy: string)
    requires Comparables(x, y, policy)
    ensures CompareValues(x, y, HIGHER, policy).sign == Ordered(Worth(x), Worth(y))
    ensures Ties(x, y, policy) <==> -TIE < Worth(x) - Worth(y) < TIE
  {
    hide CompareValues, Worth, Trim;
    ComparedByWorth(x, y, HIGHER, policy);
    TrimIsTrimmed(HIGHER);
  }

  lemma TiesMirrored(x: string, y: string, policy: string)
    ensures Ties(x, y, policy) <==> Ties(y, x, policy)
    ensures Comparables(x, y, policy) <==> Comparables(y, x, policy)
  {
    hide CompareValues;
    MirroredValues(x, y, HIGHER, policy);
  }

  lemma TiesItself(x: string, policy: string)
    ensures Ties(x, x, policy)
  {
    hide Trim, Key, ParseComparable, ZeroFill;
  }

  /** The polarity turns the sign and leaves the rest. */
  lemma PolarityTurnsSign(x: string, y: string, polarity: string, policy: string)
    ensures var v, w := CompareValues(x, y, polarity, policy), CompareValues(x, y, HIGHER, policy);
            && v.status == w.status
            && (v.status.Comparable? ==> v.sign == Orient(w.sign, polarity))
  {
    hide CompareValues, Worth, Trim;
    StatusIgnoresPolarity(x, y, polarity, policy);
    if Comparables(x, y, policy) {
      TiesByWorth(x, y, policy);
      ComparedByWorth(x, y, polarity, policy);
    }
  }

  lemma StatusIgnoresPolarity(x: string, y: string, polarity: string, policy: string)
    ensures CompareValues(x, y, polarity, policy).status == CompareValues(x, y, HIGHER, policy).status
  {
    hide ParseComparable, Key, Trim, RenderZero;
  }

  lemma MissingIsWorthNothing(m: string)
    requires Missing(m)
    ensures Worth(m) == 0.0
  {
    hide Trim, ParseComparable;
  }

  // ---------------------------------------------------------------- what can be compared

  /** Without a missing cell the policy does not matter: two cells compare if their keys agree or both read on one
      scale. */
  predicate ReadAlike(x: string, y: string) {
    || Key(Trim(x)) == Key(Trim(y))
    || (ParseComparable(Trim(x)).Some? && ParseComparable(Trim(y)).Some?
        && SameScale(ParseComparable(Trim(x)).value, ParseComparable(Trim(y)).value))
  }

  lemma PresentCompare(x: string, y: string, policy: string)
    requires !Missing(x) && !Missing(y)
    ensures Comparables(x, y, policy) <==> ReadAlike(x, y)
    ensures forall other, polarity ::
              CompareValues(x, y, polarity, policy) == CompareValues(x, y, polarity, other)
  {
    hide ParseComparable, Key, Trim, RenderZero, Orient;
    TrimTwice(x);
    TrimTwice(y);
  }

  /** A missing cell is filled with a zero on the other cell's scale; that compares if the zero reads back there. */
  predicate ReadsZero(x: string) {
    var p := ParseComparable(Trim(x));
    p.Some? && var z := ParseComparable(RenderZero(p.value)); z.Some? && SameScale(z.value, p.value)
  }

  lemma MissingCompare(x: string, m: string, policy: string)
    requires !Missing(x) && Missing(m)
    ensures Comparables(x, m, policy) <==> policy == ZERO && ReadsZero(x)
  {
    hide ParseComparable, Key, Trim, RenderZero, Orient;
    TrimTwice(x);
    TrimTwice(m);
    if Key(Trim(x)) == Key(Trim(m)) {
      TrimIsTrimmed(x);
      TrimIsTrimmed(m);
      SameKeySameScore(Trim(x), Trim(m));
    }
  }

  lemma ReadAlikeComposes(x: string, y: string, z: string)
    requires ReadAlike(x, y)
    ensures ReadAlike(y, z) ==> ReadAlike(x, z)
    ensures ReadsZero(x) <==> ReadsZero(y)
  {
    hide ParseComparable, Key, Trim;
    TrimIsTrimmed(x);
    TrimIsTrimmed(y);
    TrimIsTrimmed(z);
    if Key(Trim(x)) == Key(Trim(y)) {
      SameKeySameScore(Trim(x), Trim(y));
    } else {
      SameScaleSameZero(ParseComparable(Trim(x)).value, ParseComparable(Trim(y)).value);
      if Key(Trim(y)) == Key(Trim(z)) {
        SameKeySameScore(Trim(y), Trim(z));
      }
    }
  }

  lemma SameScaleSameZero(p: Parsed, q: Parsed)
    requires SameScale(p, q)
    ensures RenderZero(p) == RenderZero(q)
  {
  }

  /** Of three cells of which at most the last is missing, the first compares with whatever the second does. */
  lemma ComparesOn(x: string, y: string, z: string, policy: string)
    requires !Missing(x) && !Missing(y) && Comparables(x, y, policy) && Comparables(y, z, policy)
    ensures Comparables(x, z, policy)
  {
    hide Comparables, ReadAlike, ReadsZero, Missing;
    PresentCompare(x, y, policy);
    ReadAlikeComposes(x, y, z);
    if Missing(z) {
      MissingCompare(x, z, policy);
      MissingCompare(y, z, policy);
    } else {
      PresentCompare(y, z, policy);
      PresentCompare(x, z, policy);
    }
  }

  /** All missing cells compare alike with a cell that is there. */
  lemma MissingAlike(x: string, m: string, n: string, policy: string)
    requires !Missing(x) && Missing(m) && Missing(n)
    ensures Comparables(x, m, policy) <==> Comparables(x, n, policy)
    ensures Ties(x, m, policy) <==> Ties(x, n, policy)
  {
    hide CompareValues, Missing, ReadsZero, Worth;
    MissingCompare(x, m, policy);
    MissingCompare(x, n, policy);
    MissingIsWorthNothing(m);
    MissingIsWorthNothing(n);
    if Comparables(x, m, policy) {
      TiesByWorth(x, m, policy);
      TiesByWorth(x, n, policy);
    }
  }

  // ---------------------------------------------------------------- the rank of a cell

  /** The cells that tie with `x`. */
  ghost function TieClass(cells: set<string>, policy: string, x: string): set<string> {
    set y | y in cells && Ties(x, y, policy)
  }

  ghost function Best(cells: set<string>): (best: string)
    requires cells != {}
    ensures best in cells && forall x :: x in cells ==> Worth(x) <= Worth(best)
  {
    hide Worth;
    var x :| x in cells;
    if cells == {x} then x
    else
      assert cells == {x} + (cells - {x});
      var y := Best(cells - {x});
      if Worth(y) < Worth(x) then x else y
  }

  predicate TiesMissing(cells: set<string>, policy: string, x: string) {
    exists m :: m in cells && Missing(m) && Ties(x, m, policy)
  }

  /** The largest worth among the cells that tie, and 0 beside a missing cell. */
  ghost function Rank(cells: set<string>, policy: string, x: string): real
    requires x in cells
  {
    hide Ties, Worth, Missing;
    if TiesMissing(cells, policy, x) then 0.0
    else
      TiesItself(x, policy);
      assert x in TieClass(cells, policy, x);
      Worth(Best(TieClass(cells, policy, x)))
  }

  lemma TiesMissingAlike(cells: set<string>, policy: string, x: string, y: string)
    requires TiesConsistent(cells, policy) && x in cells && y in cells && Ties(x, y, policy)
    requires TiesMissing(cells, policy, x)
    ensures TiesMissing(cells, policy, y)
  {
    hide CompareValues, Missing;
    TiesMirrored(x, y, policy);
    TiesItself(y, policy);
    if !Missing(y) {
      if Missing(x) {
        assert Ties(y, x, policy);
      } else {
        var m :| m in cells && Missing(m) && Ties(x, m, policy);
        ComparesOn(y, x, m, policy);
      }
    }
  }

  lemma TiedRanks(cells: set<string>, policy: string, x: string, y: string)
    requires TiesConsistent(cells, policy) && x in cells && y in cells && Ties(x, y, policy)
    ensures Rank(cells, policy, x) == Rank(cells, policy, y)
  {
    hide CompareValues, Missing, Worth, TiesMissing;
    TiesMirrored(x, y, policy);
    if TiesMissing(cells, policy, x) {
      TiesMissingAlike(cells, policy, x, y);
    } else if TiesMissing(cells, policy, y) {
      TiesMissingAlike(cells, policy, y, x);
    } else {
      ClassWithin(cells, policy, x, y);
      ClassWithin(cells, policy, y, x);
      assert TieClass(cells, policy, x) == TieClass(cells, policy, y);
    }
  }

  lemma PresentUnlessTied(cells: set<string>, policy: string, x: string)
    requires x in cells && !TiesMissing(cells, policy, x)
    ensures !Missing(x) && forall y :: y in TieClass(cells, policy, x) ==> !Missing(y)
  {
    hide CompareValues, Missing;
    TiesItself(x, policy);
  }

  lemma ClassWithin(cells: set<string>, policy: string, x: string, y: string)
    requires TiesConsistent(cells, policy) && x in cells && y in cells && Ties(x, y, policy)
    requires !TiesMissing(cells, policy, x) && !TiesMissing(cells, policy, y)
    ensures TieClass(cells, policy, x) <= TieClass(cells, policy, y)
  {
    hide CompareValues, Missing, TiesMissing;
    PresentUnlessTied(cells, policy, x);
    PresentUnlessTied(cells, policy, y);
    TiesMirrored(x, y, policy);
    forall a | a in TieClass(cells, policy, x) ensures a in TieClass(cells, policy, y) {
      ComparesOn(y, x, a, policy);
    }
  }

  /** What a cell's rank can differ from its worth: less than the tolerance, and upwards only. */
  lemma RankNearWorth(cells: set<string>, policy: string, x: string)
    requires x in cells && !TiesMissing(cells, policy, x)
    ensures Worth(x) <= Rank(cells, policy, x) < Worth(x) + TIE
  {
    hide CompareValues, Worth, TiesMissing, Missing;
    TiesItself(x, policy);
    assert x in TieClass(cells, policy, x);
    var best := Best(TieClass(cells, policy, x));
    assert best in TieClass(cells, policy, x);
    TiesByWorth(x, best, policy);
  }

  lemma TiesMissingNearZero(cells: set<string>, policy: string, x: string)
    requires TiesMissing(cells, policy, x)
    ensures -TIE < Worth(x) < TIE
  {
    hide CompareValues, Missing, Worth;
    var m :| m in cells && Missing(m) && Ties(x, m, policy);
    TiesByWorth(x, m, policy);
    MissingIsWorthNothing(m);
  }

  /** Beside a cell that ties a missing one, a worse cell is worth less than the tolerance below zero. */
  lemma WorseThanZero(cells: set<string>, policy: string, x: string, y: string)
    requires TiesConsistent(cells, policy) && x in cells && y in cells && TiesMissing(cells, policy, x)
    requires CompareValues(x, y, HIGHER, policy) == Verdict(1, Comparable)
    ensures !TiesMissing(cells, policy, y) && Worth(y) <= -TIE
  {
    hide CompareValues, Missing, Worth, TiesMissing;
    TiesMissingNearZero(cells, policy, x);
    TiesByWorth(x, y, policy);
    TiesMirrored(x, y, policy);
    if Missing(y) {
      MissingIsWorthNothing(y);
    } else {
      var m := MissingTied(cells, policy, x);
      MissingIsWorthNothing(m);
      if Missing(x) {
        MissingIsWorthNothing(x);
        MissingAlike(y, x, m, policy);
      } else {
        ComparesOn(y, x, m, policy);
      }
      TiesByWorth(y, m, policy);
      TiesMirrored(m, y, policy);
      if TiesMissing(cells, policy, y) {
        var n := MissingTied(cells, policy, y);
        MissingAlike(y, m, n, policy);
        TiesItself(x, policy);
      }
    }
  }

  lemma MissingTied(cells: set<string>, policy: string, x: string) returns (m: string)
    requires TiesMissing(cells, policy, x)
    ensures m in cells && Missing(m) && Ties(x, m, policy)
  {
    hide CompareValues, Missing;
    m :| m in cells && Missing(m) && Ties(x, m, policy);
  }

  /** A better cell ranks strictly higher. */
  lemma BetterRanks(cells: set<string>, policy: string, x: string, y: string)
    requires TiesConsistent(cells, policy) && x in cells && y in cells
    requires CompareValues(x, y, HIGHER, policy) == Verdict(1, Comparable)
    ensures Rank(cells, policy, x) > Rank(cells, policy, y)
  {
    hide CompareValues, Missing, Worth, TiesMissing, TiesConsistent;
    TiesByWorth(x, y, policy);
    if TiesMissing(cells, policy, x) {
      WorseThanZero(cells, policy, x, y);
      RankNearWorth(cells, policy, y);
    } else {
      RankNearWorth(cells, policy, x);
      if TiesMissing(cells, policy, y) {
        TiesMissingNearZero(cells, policy, y);
      } else {
        RankNearWorth(cells, policy, y);
      }
    }
  }

  // ---------------------------------------------------------------- each step climbs

  /** The cells of the field on one dimension. */
  function CellsOn(c: Contest, field: seq<string>, d: Dimension): set<string> {
    set v | v in field :: c.CellOf(v, d)
  }

  /** On no dimension do ties contradict a comparison. */
  ghost predicate Consistent(c: Contest, field: seq<string>) {
    forall d :: d in c.dims ==> TiesConsistent(CellsOn(c, field, d), c.policy)
  }

  ghost function DimensionRank(c: Contest, field: seq<string>, v: string, d: Dimension): real
    requires v in field
  {
    var rank := Rank(CellsOn(c, field, d), c.policy, c.CellOf(v, d));
    if Trim(d.polarity) == HIGHER then rank
    else if Trim(d.polarity) == "lower_better" then -rank
    else 0.0
  }

  ghost function Height(c: Contest, field: seq<string>, dims: seq<Dimension>, v: string): real
    requires v in field
  {
    if dims == [] then 0.0 else DimensionRank(c, field, v, dims[0]) + Height(c, field, dims[1..], v)
  }

  lemma DimensionClimbs(c: Contest, field: seq<string>, left: string, right: string, d: Dimension)
    requires left in field && right in field && TiesConsistent(CellsOn(c, field, d), c.policy)
    requires var v := c.Versus(left, right, d); v.status.Comparable? && v.sign >= 0
    ensures DimensionRank(c, field, left, d) >= DimensionRank(c, field, right, d)
    ensures c.Versus(left, right, d).sign == 1 ==> DimensionRank(c, field, left, d) > DimensionRank(c, field, right, d)
  {
    hide CompareValues, Trim, Cell, Rank, TiesConsistent;
    var cells, x, y := CellsOn(c, field, d), c.CellOf(left, d), c.CellOf(right, d);
    PolarityTurnsSign(x, y, d.polarity, c.policy);
    SignRange(x, y, HIGHER, c.policy);
    MirroredValues(x, y, HIGHER, c.policy);
    if CompareValues(x, y, HIGHER, c.policy).sign == 0 {
      TiedRanks(cells, c.policy, x, y);
    } else if CompareValues(x, y, HIGHER, c.policy).sign == 1 {
      BetterRanks(cells, c.policy, x, y);
    } else {
      BetterRanks(cells, c.policy, y, x);
    }
  }

  lemma {:induction false} HeightsCompare(c: Contest, field: seq<string>, dims: seq<Dimension>, left: string, right: string)
    requires left in field && right in field
    requires forall d :: d in dims ==> DimensionRank(c, field, left, d) >= DimensionRank(c, field, right, d)
    ensures Height(c, field, dims, left) >= Height(c, field, dims, right)
    ensures (exists d :: d in dims && DimensionRank(c, field, left, d) > DimensionRank(c, field, right, d)) ==>
              Height(c, field, dims, left) > Height(c, field, dims, right)
  {
    hide DimensionRank;
    if dims != [] {
      HeightsCompare(c, field, dims[1..], left, right);
      if d :| d in dims && DimensionRank(c, field, left, d) > DimensionRank(c, field, right, d) {
        assert d == dims[0] || d in dims[1..];
      }
    }
  }

  /** Under any policy but `exclude`, a dominating variant stands strictly higher. */
  lemma BeatingIsHigher(c: Contest, field: seq<string>, left: string, right: string)
    requires c.policy != EXCLUDE && Consistent(c, field) && left in field && right in field
    requires c.Beats(left, right)
    ensures Height(c, field, c.dims, left) > Height(c, field, c.dims, right)
  {
    hide Dominates, At, DimensionRank, TiesConsistent, Cell;
    BeatsByDimension(c, left, right);
    forall d | d in c.dims
      ensures DimensionRank(c, field, left, d) >= DimensionRank(c, field, right, d)
      ensures c.Versus(left, right, d).sign == 1 ==> DimensionRank(c, field, left, d) > DimensionRank(c, field, right, d)
    {
      OnlyExcludeExcludes(c, left, right, d);
      DimensionClimbs(c, field, left, right, d);
    }
    HeightsCompare(c, field, c.dims, left, right);
  }

  lemma {:induction false} ClimbIsHigher(c: Contest, field: seq<string>, chain: seq<string>)
    requires c.policy != EXCLUDE && Consistent(c, field)
    requires |chain| >= 2 && Climb(c, chain) && forall v :: v in chain ==> v in field
    ensures chain[0] in field && chain[|chain| - 1] in field
    ensures Height(c, field, c.dims, chain[|chain| - 1]) > Height(c, field, c.dims, chain[0])
    decreases |chain|
  {
    hide Dominates, Height, Consistent;
    var n := |chain| - 1;
    assert chain[0] in chain && chain[n] in chain && chain[n - 1] in chain && c.Beats(chain[n - 1 + 1], chain[n - 1]);
    BeatingIsHigher(c, field, chain[n], chain[n - 1]);
    if n > 1 {
      ClimbIsHigher(c, field, chain[..n]);
    }
  }

  /** No sequence of dominance steps returns to its start, under `explicit_abstain`, `zero` or any other
      policy but `exclude`. */
  lemma DominanceIsAcyclic(c: Contest, field: seq<string>)
    requires c.policy != EXCLUDE && Consistent(c, field)
    ensures forall chain :: |chain| >= 2 && Climb(c, chain) && (forall v :: v in chain ==> v in field) ==>
              chain[0] != chain[|chain| - 1]
  {
    hide Dominates, Height, Consistent;
    forall chain | |chain| >= 2 && Climb(c, chain) && (forall v :: v in chain ==> v in field)
      ensures chain[0] != chain[|chain| - 1]
    {
      ClimbIsHigher(c, field, chain);
    }
  }

  ghost function Above(c: Contest, field: seq<string>, v: string): set<string>
    requires v in field
  {
    set w | w in field && Height(c, field, c.dims, w) > Height(c, field, c.dims, v)
  }

  /** From every variant a climb leads to the front. */
  lemma {:induction false} ClimbToFront(c: Contest, field: seq<string>, v: string) returns (chain: seq<string>)
    requires c.policy != EXCLUDE && Consistent(c, field) && v in field
    ensures |chain| >= 1 && chain[0] == v && Climb(c, chain) && chain[|chain| - 1] in Front(c, field)
    decreases |Above(c, field, v)|
  {
    hide Dominates, Height, Consistent;
    chain := [v];
    if w :| w in field && c.Beats(w, v) {
      BeatingIsHigher(c, field, w, v);
      assert w in Above(c, field, v) && w !in Above(c, field, w);
      assert Above(c, field, w) < Above(c, field, v);
      SmallerSet(Above(c, field, w), Above(c, field, v));
      var rest := ClimbToFront(c, field, w);
      chain := [v] + rest;
      forall i | 0 <= i < |chain| - 1 ensures c.Beats(chain[i + 1], chain[i]) {
        if i > 0 {
          assert c.Beats(rest[i - 1 + 1], rest[i - 1]);
        }
      }
    }
  }

  lemma SmallerSet<T>(a: set<T>, b: set<T>)
    requires a < b
    ensures |a| < |b|
  {
    assert b == a + (b - a);
  }

  /** A non-empty field has a non-empty front, and every variant off the front is dominated through a climb
      that ends in a front member. */
  lemma FrontReachedByClimbing(c: Contest, field: seq<string>)
    requires c.policy != EXCLUDE && Consistent(c, field)
    ensures field != [] ==> Front(c, field) != []
    ensures forall v :: v in field && v !in Front(c, field) ==>
              exists chain :: |chain| >= 2 && chain[0] == v && Climb(c, chain) && chain[|chain| - 1] in Front(c, field)
  {
    hide Dominates, Consistent;
    if field != [] {
      var chain := ClimbToFront(c, field, field[0]);
    }
    forall v | v in field && v !in Front(c, field)
      ensures exists chain :: |chain| >= 2 && chain[0] == v && Climb(c, chain) && chain[|chain| - 1] in Front(c, field)
    {
      var chain := ClimbToFront(c, field, v);
      assert |chain| >= 2;
    }
  }

  /** Values that the tie tolerance would merge are equal. */
  ghost predicate Separated(c: Contest, field: seq<string>) {
    forall v, w, d :: v in field && w in field && d in c.dims && c.Versus(v, w, d).status.Comparable? ==>
      var x, y := Worth(c.CellOf(v, d)), Worth(c.CellOf(w, d));
      -TIE < x - y < TIE ==> x == y
  }

  /** Values further apart than the tolerance are one way to be consistent. */
  lemma SeparatedIsConsistent(c: Contest, field: seq<string>)
    requires Separated(c, field)
    ensures Consistent(c, field)
  {
    hide CompareValues, Worth, Cell;
    forall d | d in c.dims ensures TiesConsistent(CellsOn(c, field, d), c.policy) {
      forall u, v, w | u in field && v in field && w in field
                       && Ties(c.CellOf(u, d), c.CellOf(v, d), c.policy) && Ties(c.CellOf(v, d), c.CellOf(w, d), c.policy)
                       && Comparables(c.CellOf(u, d), c.CellOf(w, d), c.policy)
        ensures Ties(c.CellOf(u, d), c.CellOf(w, d), c.policy)
      {
        var x, y, z := c.CellOf(u, d), c.CellOf(v, d), c.CellOf(w, d);
        StatusIgnoresPolarity(x, y, d.polarity, c.policy);
        StatusIgnoresPolarity(y, z, d.polarity, c.policy);
        TiesByWorth(x, y, c.policy);
        TiesByWorth(y, z, c.policy);
        TiesByWorth(x, z, c.policy);
      }
    }
  }

  // ---------------------------------------------------------------- abstaining: a strict partial order

  predicate Tied(x: string, y: string) {
    Ties(x, y, ABSTAIN)
  }

  ghost predicate TiesTransitive(cells: set<string>) {
    forall x, y, z :: x in cells && y in cells && z in cells && Tied(x, y) && Tied(y, z) ==> Tied(x, z)
  }

  /** Under abstention two cells compare exactly when both are there and read alike, or when their keys agree. */
  lemma AbstainComparable(x: string, y: string, polarity: string)
    ensures CompareValues(x, y, polarity, ABSTAIN).status.Comparable? <==>
              if Missing(x) || Missing(y) then Key(Trim(x)) == Key(Trim(y)) else ReadAlike(x, y)
    ensures !CompareValues(x, y, polarity, ABSTAIN).status.Excluded?
  {
    hide ParseComparable, Key, Trim, RenderZero;
    TrimTwice(x);
    TrimTwice(y);
  }

  lemma AbstainComparableTransitive(x: string, y: string, z: string, polarity: string)
    requires CompareValues(x, y, polarity, ABSTAIN).status.Comparable?
    requires CompareValues(y, z, polarity, ABSTAIN).status.Comparable?
    ensures CompareValues(x, z, polarity, ABSTAIN).status.Comparable?
  {
    hide ParseComparable, Key, Trim, CompareValues, ReadAlike;
    AbstainComparable(x, y, polarity);
    AbstainComparable(y, z, polarity);
    AbstainComparable(x, z, polarity);
    if Key(Trim(x)) == Key(Trim(y)) {
      SameKeyMissing(x, y);
    }
    if Key(Trim(y)) == Key(Trim(z)) {
      SameKeyMissing(y, z);
    }
    if ReadAlike(x, y) {
      ReadAlikeComposes(x, y, z);
    }
  }

  lemma SameKeyMissing(x: string, y: string)
    requires Key(Trim(x)) == Key(Trim(y))
    ensures Missing(x) == Missing(y)
  {
    hide Trim, Key, ParseComparable;
    TrimIsTrimmed(x);
    TrimIsTrimmed(y);
    TrimTwice(x);
    TrimTwice(y);
    SameKeySameScore(Trim(x), Trim(y));
  }

  /** Not-worse steps compose, and a strict step stays strict, where ties are transitive. */
  lemma NotWorseComposes(x: string, y: string, z: string, polarity: string)
    requires Tied(x, y) && Tied(y, z) ==> Tied(x, z)
    requires Tied(x, z) && Tied(z, y) ==> Tied(x, y)
    requires Tied(y, x) && Tied(x, z) ==> Tied(y, z)
    requires var v := CompareValues(x, y, polarity, ABSTAIN); v.status.Comparable? && v.sign >= 0
    requires var v := CompareValues(y, z, polarity, ABSTAIN); v.status.Comparable? && v.sign >= 0
    ensures var v := CompareValues(x, z, polarity, ABSTAIN);
            && v.status.Comparable? && v.sign >= 0
            && (CompareValues(x, y, polarity, ABSTAIN).sign == 1 || CompareValues(y, z, polarity, ABSTAIN).sign == 1 ==>
                  v.sign == 1)
  {
    hide CompareValues, Worth, Trim;
    AbstainComparableTransitive(x, y, z, polarity);
    StatusIgnoresPolarity(x, y, polarity, ABSTAIN);
    StatusIgnoresPolarity(y, z, polarity, ABSTAIN);
    StatusIgnoresPolarity(x, z, polarity, ABSTAIN);
    TiesMirrored(x, y, ABSTAIN);
    TiesMirrored(y, z, ABSTAIN);
    TiesMirrored(x, z, ABSTAIN);
    TiesByWorth(x, y, ABSTAIN);
    TiesByWorth(y, z, ABSTAIN);
    TiesByWorth(x, z, ABSTAIN);
    ComparedByWorth(x, y, polarity, ABSTAIN);
    ComparedByWorth(y, z, polarity, ABSTAIN);
    ComparedByWorth(x, z, polarity, ABSTAIN);
  }

  lemma DominanceComposes(c: Contest, field: seq<string>, cells: set<string>, u: string, v: string, w: string)
    requires c.policy == ABSTAIN && CellsFrom(c, field, cells) && TiesTransitive(cells)
    requires u in field && v in field && w in field && c.Beats(u, v) && c.Beats(v, w)
    ensures c.Beats(u, w)
  {
    hide Dominates, CompareValues, Cell;
    BeatsByDimension(c, u, v);
    BeatsByDimension(c, v, w);
    BeatsByDimension(c, u, w);
    forall d | d in c.dims
      ensures var r := c.Versus(u, w, d);
              && r.status.Comparable? && r.sign >= 0
              && (c.Versus(u, v, d).sign == 1 ==> r == Verdict(1, Comparable))
    {
      AbstainComparable(c.CellOf(u, d), c.CellOf(v, d), d.polarity);
      AbstainComparable(c.CellOf(v, d), c.CellOf(w, d), d.polarity);
      NotWorseComposes(c.CellOf(u, d), c.CellOf(v, d), c.CellOf(w, d), d.polarity);
    }
  }

  ghost function Beaters(c: Contest, field: seq<string>, v: string): set<string> {
    set w | w in field && c.Beats(w, v)
  }

  lemma {:induction false} BeatenByFrontMember(c: Contest, field: seq<string>, cells: set<string>, v: string)
    requires c.policy == ABSTAIN && CellsFrom(c, field, cells) && TiesTransitive(cells) && v in field
    ensures v in Front(c, field) || exists f :: f in Front(c, field) && c.Beats(f, v)
    decreases |Beaters(c, field, v)|
  {
    hide Dominates, TiesTransitive, CellsFrom;
    if w :| w in field && c.Beats(w, v) {
      forall u | u in Beaters(c, field, w) ensures u in Beaters(c, field, v) {
        DominanceComposes(c, field, cells, u, w, v);
      }
      NeverDominatesItself(w, c.t, c.dims, c.policy);
      assert w in Beaters(c, field, v) && w !in Beaters(c, field, w);
      SmallerSet(Beaters(c, field, w), Beaters(c, field, v));
      BeatenByFrontMember(c, field, cells, w);
      if f :| f in Front(c, field) && c.Beats(f, w) {
        DominanceComposes(c, field, cells, f, w, v);
      }
    }
  }

  /** Under `explicit_abstain` dominance is a strict partial order: the front is non-empty, and every variant
      off the front is directly dominated by a front member. */
  lemma AbstainFrontDominates(c: Contest, field: seq<string>, cells: set<string>)
    requires c.policy == ABSTAIN && CellsFrom(c, field, cells) && TiesTransitive(cells)
    ensures field != [] ==> Front(c, field) != []
    ensures forall v :: v in field && v !in Front(c, field) ==> exists f :: f in Front(c, field) && c.Beats(f, v)
    ensures forall v :: v in field ==> !c.Beats(v, v)
    ensures forall u, v, w :: u in field && v in field && w in field && c.Beats(u, v) && c.Beats(v, w) ==> c.Beats(u, w)
  {
    hide Dominates, TiesTransitive, CellsFrom;
    forall v | v in field
      ensures v in Front(c, field) || exists f :: f in Front(c, field) && c.Beats(f, v)
      ensures !c.Beats(v, v)
    {
      BeatenByFrontMember(c, field, cells, v);
      NeverDominatesItself(v, c.t, c.dims, c.policy);
    }
    if field != [] {
      assert field[0] in field;
    }
    forall u, v, w | u in field && v in field && w in field && c.Beats(u, v) && c.Beats(v, w) ensures c.Beats(u, w) {
      DominanceComposes(c, field, cells, u, v, w);
    }
  }
}
