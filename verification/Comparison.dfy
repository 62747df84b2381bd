/** Comparing two variants: cell by cell under a missing-data policy, then over all dimensions. */
module Comparison {
  import opened Options
  import opened Text
  import opened Scores

  const EXCLUDE := "exclude"
  const ABSTAIN := "explicit_abstain"
  const ZERO := "zero"

  /** Values closer than this are tied. */
  const TIE: real := 0.000000001

  // ---------------------------------------------------------------- two cells

  datatype Status = Comparable | Excluded | Unresolved

  /** `sign` is 1 if the left cell is better, -1 if the right one is, 0 for a tie or no comparison. */
  datatype Verdict = Verdict(sign: int, status: Status)

  predicate Missing(s: string) {
    Trim(s) == "" || Trim(s) == "-"
  }

  function Ordered(left: real, right: real): (sign: int)
    ensures sign == 0 <==> -TIE < left - right < TIE
    ensures sign == 1 <==> left - right >= TIE
    ensures sign == -1 <==> right - left >= TIE
  {
    if -TIE < left - right < TIE then 0
    else if left > right then 1
    else -1
  }

  function Orient(raw: int, polarity: string): int {
    if Trim(polarity) == "higher_better" then raw
    else if Trim(polarity) == "lower_better" then -raw
    else 0
  }

  /** Fills the one missing cell with a zero on the other cell's scale. */
  function ZeroFill(left: string, right: string): Option<(string, string)>
    requires Missing(left) || Missing(right)
  {
    if Missing(left) && Missing(right) then None
    else if Missing(left) then
      var p := ParseComparable(right);
      if p.None? then None else Some((RenderZero(p.value), right))
    else
      var p := ParseComparable(left);
      if p.None? then None else Some((left, RenderZero(p.value)))
  }

  function CompareParsed(left: string, right: string, polarity: string): Verdict {
    var p, q := ParseComparable(left), ParseComparable(right);
    if p.None? || q.None? || !SameScale(p.value, q.value) then Verdict(0, Unresolved)
    else Verdict(Orient(Ordered(ValueOf(p.value), ValueOf(q.value)), polarity), Comparable)
  }

  function CompareValues(left: string, right: string, polarity: string, policy: string): Verdict {
    var l, r := Trim(left), Trim(right);
    if Key(l) == Key(r) then Verdict(0, Comparable)
    else if Missing(l) || Missing(r) then
      if policy == EXCLUDE then Verdict(0, Excluded)
      else if policy == ZERO && ZeroFill(l, r).Some? then
        var filled := ZeroFill(l, r).value;
        CompareParsed(filled.0, filled.1, polarity)
      else Verdict(0, Unresolved)
    else CompareParsed(l, r, polarity)
  }

  /** What a cell is worth on its own: its number or rank, and 0 if it is missing or cannot be read. */
  function Worth(cell: string): real {
    if Missing(cell) then 0.0
    else
      var p := ParseComparable(Trim(cell));
      if p.Some? then ValueOf(p.value) else 0.0
  }

  lemma DashIsItsOwnLower(s: string)
    ensures (s == "" <==> Lower(s) == "") && (s == "-" <==> Lower(s) == "-")
  {
    if Lower(s) == "-" {
      assert LowerChar(s[0]) == '-';
    }
  }

  /** Cells with the same key read as the same score. */
  lemma SameKeySameScore(left: string, right: string)
    requires Trimmed(left) && Trimmed(right) && Key(left) == Key(right)
    ensures ParseComparable(left) == ParseComparable(right)
    ensures Missing(left) == Missing(right)
  {
    hide ParseNumeric, OrdinalRank, Lower;
    TrimIsTrimmed(left);
    TrimIsTrimmed(right);
    assert Lower(left) == Lower(right);
    ParseIgnoresCase(left);
    ParseIgnoresCase(right);
    DashIsItsOwnLower(left);
    DashIsItsOwnLower(right);
  }

  /** Every comparison is a comparison of worths, filled zeros included. */
  lemma ComparedByWorth(left: string, right: string, polarity: string, policy: string)
    requires CompareValues(left, right, polarity, policy).status.Comparable?
    ensures CompareValues(left, right, polarity, policy).sign == Orient(Ordered(Worth(left), Worth(right)), polarity)
  {
    hide ParseComparable, Key, Trim, RenderZero;
    var l, r := Trim(left), Trim(right);
    TrimTwice(left);
    TrimTwice(right);
    if Key(l) == Key(r) {
      TrimIsTrimmed(left);
      TrimIsTrimmed(right);
      SameKeySameScore(l, r);
    } else if Missing(l) {
      ZeroReadsBackAsZero(ParseComparable(r).value);
    } else if Missing(r) {
      ZeroReadsBackAsZero(ParseComparable(l).value);
    }
  }

  /** Exchanging the cells exchanges the verdict. */
  lemma MirroredValues(left: string, right: string, polarity: string, policy: string)
    ensures var v, w := CompareValues(left, right, polarity, policy), CompareValues(right, left, polarity, policy);
            w == Verdict(-v.sign, v.status)
  {
    hide ParseComparable, Key, Trim, RenderZero;
  }

  // ---------------------------------------------------------------- two variants

  /** A Go map, as the entries in the order an iteration meets them. */
  type Row = seq<(string, string)>
  type Table = map<string, Row>

  datatype Dimension = Dimension(name: string, role: string, polarity: string)

  function Exact(row: Row, name: string): Option<string> {
    if row == [] then None
    else if row[0].0 == name then Some(row[0].1)
    else Exact(row[1..], name)
  }

  function Folded(row: Row, key: string): Option<string> {
    if row == [] then None
    else if Key(row[0].0) == key then Some(row[0].1)
    else Folded(row[1..], key)
  }

  /** The cell of a variant: the entry of that very name, else one whose name folds to it, else empty. */
  function Cell(t: Table, variant: string, name: string): string {
    var row := if variant in t then t[variant] else [];
    if Exact(row, name).Some? then Exact(row, name).value
    else if Folded(row, Key(name)).Some? then Folded(row, Key(name)).value
    else ""
  }

  lemma {:induction false} ExactIs(row: Row, name: string)
    ensures Exact(row, name).Some? <==> exists e :: e in row && e.0 == name
    ensures Exact(row, name).Some? ==> (name, Exact(row, name).value) in row
  {
    if row != [] {
      ExactIs(row[1..], name);
      assert row == [row[0]] + row[1..];
    }
  }

  lemma {:induction false} FoldedIs(row: Row, key: string)
    ensures Folded(row, key).Some? <==> exists e :: e in row && Key(e.0) == key
    ensures Folded(row, key).Some? ==> exists e :: e in row && Key(e.0) == key && e.1 == Folded(row, key).value
  {
    hide Key;
    if row != [] {
      FoldedIs(row[1..], key);
      assert row == [row[0]] + row[1..];
    }
  }

  /** Where a cell is found: under the dimension's very name; without that under a name that differs in letter case or
      blanks around it alone; and it is empty for a variant or a dimension without an entry. */
  lemma CellIsFound(t: Table, variant: string, name: string)
    ensures variant !in t ==> Cell(t, variant, name) == ""
    ensures variant in t && (exists e :: e in t[variant] && e.0 == name) ==> (name, Cell(t, variant, name)) in t[variant]
    ensures variant in t && !(exists e :: e in t[variant] && e.0 == name)
            && (exists e :: e in t[variant] && Lower(Trim(e.0)) == Lower(Trim(name))) ==>
              exists e :: e in t[variant] && Lower(Trim(e.0)) == Lower(Trim(name)) && e.1 == Cell(t, variant, name)
    ensures variant in t && !(exists e :: e in t[variant] && Lower(Trim(e.0)) == Lower(Trim(name))) ==>
              Cell(t, variant, name) == ""
  {
    hide Trim, Lower, Exact, Folded;
    if variant in t {
      ExactIs(t[variant], name);
      FoldedIs(t[variant], Key(name));
    } else {
      ExactIs([], name);
      FoldedIs([], Key(name));
    }
  }

  function At(left: string, right: string, t: Table, d: Dimension, policy: string): Verdict {
    CompareValues(Cell(t, left, d.name), Cell(t, right, d.name), d.polarity, policy)
  }

  function Verdicts(left: string, right: string, t: Table, dims: seq<Dimension>, policy: string): (vs: seq<Verdict>)
    ensures |vs| == |dims| && forall i :: 0 <= i < |dims| ==> vs[i] == At(left, right, t, dims[i], policy)
  {
    seq(|dims|, i requires 0 <= i < |dims| => At(left, right, t, dims[i], policy))
  }

  datatype Relation = Tie | LeftDominates | RightDominates | Incomparable

  predicate AnyComparable(vs: seq<Verdict>) {
    exists v :: v in vs && v.status.Comparable?
  }

  predicate AnyUnresolved(vs: seq<Verdict>) {
    exists v :: v in vs && v.status.Unresolved?
  }

  /** One verdict for each dimension decides the pair. */
  function Relate(vs: seq<Verdict>): Relation {
    var leftBetter := Verdict(1, Comparable) in vs;
    var rightBetter := Verdict(-1, Comparable) in vs;
    if !AnyComparable(vs) || AnyUnresolved(vs) then Incomparable
    else if leftBetter && !rightBetter then LeftDominates
    else if rightBetter && !leftBetter then RightDominates
    else if !leftBetter && !rightBetter then Tie
    else Incomparable
  }

  predicate Dominates(left: string, right: string, t: Table, dims: seq<Dimension>, policy: string) {
    Relate(Verdicts(left, right, t, dims, policy)) == LeftDominates
  }

  function ComparableNames(left: string, right: string, t: Table, dims: seq<Dimension>, policy: string): set<string> {
    set d | d in dims && At(left, right, t, d, policy).status.Comparable? :: d.name
  }

  lemma SignRange(left: string, right: string, polarity: string, policy: string)
    ensures -1 <= CompareValues(left, right, polarity, policy).sign <= 1
  {
    hide ParseComparable, Key, Trim, RenderZero;
  }

  /** Nothing unresolved, nothing worse, something better. */
  ghost predicate NoneWorse(vs: seq<Verdict>) {
    forall v :: v in vs ==> v.status.Excluded? || (v.status.Comparable? && v.sign >= 0)
  }

  lemma LeftDominatesIff(vs: seq<Verdict>)
    requires forall v :: v in vs ==> -1 <= v.sign <= 1
    ensures Relate(vs) == LeftDominates <==> NoneWorse(vs) && Verdict(1, Comparable) in vs
  {
  }

  function Mirror(v: Verdict): Verdict {
    Verdict(-v.sign, v.status)
  }

  ghost predicate Mirrored(vs: seq<Verdict>, ws: seq<Verdict>) {
    |vs| == |ws| && forall i :: 0 <= i < |vs| ==> ws[i] == Mirror(vs[i])
  }

  lemma MirroredMembers(vs: seq<Verdict>, ws: seq<Verdict>)
    requires Mirrored(vs, ws)
    ensures forall v :: v in vs <==> Mirror(v) in ws
  {
    forall v ensures v in vs <==> Mirror(v) in ws {
      if v in vs {
        var i :| 0 <= i < |vs| && vs[i] == v;
        assert ws[i] in ws;
      }
      if Mirror(v) in ws {
        var i :| 0 <= i < |ws| && ws[i] == Mirror(v);
        assert vs[i] in vs;
      }
    }
  }

  lemma MirroredAny(vs: seq<Verdict>, ws: seq<Verdict>)
    requires Mirrored(vs, ws)
    ensures AnyComparable(vs) == AnyComparable(ws) && AnyUnresolved(vs) == AnyUnresolved(ws)
    ensures Verdict(1, Comparable) in ws <==> Verdict(-1, Comparable) in vs
    ensures Verdict(-1, Comparable) in ws <==> Verdict(1, Comparable) in vs
  {
    MirroredMembers(vs, ws);
    forall w | w in ws ensures Mirror(w) in vs {
      assert Mirror(Mirror(w)) == w;
    }
    assert Mirror(Verdict(-1, Comparable)) == Verdict(1, Comparable);
    assert Mirror(Verdict(1, Comparable)) == Verdict(-1, Comparable);
  }

  lemma MirroredRelate(vs: seq<Verdict>, ws: seq<Verdict>)
    requires Mirrored(vs, ws)
    ensures Relate(vs) == RightDominates <==> Relate(ws) == LeftDominates
  {
    hide AnyComparable, AnyUnresolved, Mirrored;
    MirroredAny(vs, ws);
  }

  /** Dominance, dimension by dimension. */
  lemma DominanceByDimension(left: string, right: string, t: Table, dims: seq<Dimension>, policy: string)
    ensures Dominates(left, right, t, dims, policy) <==>
              && (forall d :: d in dims ==> var v := At(left, right, t, d, policy);
                    v.status.Excluded? || (v.status.Comparable? && v.sign >= 0))
              && (exists d :: d in dims && At(left, right, t, d, policy) == Verdict(1, Comparable))
  {
    hide At, Relate;
    var vs := Verdicts(left, right, t, dims, policy);
    forall v | v in vs ensures -1 <= v.sign <= 1 {
      var i :| 0 <= i < |vs| && vs[i] == v;
      AtRange(left, right, t, dims[i], policy);
    }
    LeftDominatesIff(vs);
    forall d | d in dims ensures At(left, right, t, d, policy) in vs {
      var i :| 0 <= i < |dims| && dims[i] == d;
      assert vs[i] in vs;
    }
  }

  lemma AtRange(left: string, right: string, t: Table, d: Dimension, policy: string)
    ensures -1 <= At(left, right, t, d, policy).sign <= 1
  {
    hide CompareValues;
    SignRange(Cell(t, left, d.name), Cell(t, right, d.name), d.polarity, policy);
  }

  /** Exchanging the variants exchanges the relation, so each pair needs comparing once. */
  lemma MirroredRelation(left: string, right: string, t: Table, dims: seq<Dimension>, policy: string)
    ensures Relate(Verdicts(left, right, t, dims, policy)) == RightDominates <==> Dominates(right, left, t, dims, policy)
  {
    hide CompareValues, Relate, Cell;
    forall i | 0 <= i < |dims|
      ensures At(right, left, t, dims[i], policy) == Mirror(At(left, right, t, dims[i], policy))
      ensures -1 <= At(left, right, t, dims[i], policy).sign <= 1
    {
      var d := dims[i];
      MirroredValues(Cell(t, left, d.name), Cell(t, right, d.name), d.polarity, policy);
      AtRange(left, right, t, dims[i], policy);
    }
    MirroredRelate(Verdicts(left, right, t, dims, policy), Verdicts(right, left, t, dims, policy));
  }

  lemma NeverDominatesItself(v: string, t: Table, dims: seq<Dimension>, policy: string)
    ensures !Dominates(v, v, t, dims, policy)
  {
    hide At, Relate;
    MirroredRelation(v, v, t, dims, policy);
  }

  method ComparePair(left: string, right: string, t: Table, dims: seq<Dimension>, policy: string)
    returns (relation: Relation, comparable: set<string>)
    ensures relation == Relate(Verdicts(left, right, t, dims, policy))
    ensures comparable == ComparableNames(left, right, t, dims, policy)
  {
    hide At;
    var leftBetter, rightBetter, unresolved := false, false, false;
    var count := 0;
    comparable := {};
    ghost var vs := Verdicts(left, right, t, dims, policy);
    for i := 0 to |dims|
      invariant comparable == ComparableNames(left, right, t, dims[..i], policy)
      invariant count >= 0 && (count == 0 <==> forall v :: v in vs[..i] ==> !v.status.Comparable?)
      invariant leftBetter == (Verdict(1, Comparable) in vs[..i])
      invariant rightBetter == (Verdict(-1, Comparable) in vs[..i])
      invariant unresolved == exists v :: v in vs[..i] && v.status.Unresolved?
    {
      var verdict := At(left, right, t, dims[i], policy);
      assert vs[..i + 1] == vs[..i] + [verdict] && dims[..i + 1] == dims[..i] + [dims[i]];
      match verdict.status
      case Excluded =>
      case Unresolved => unresolved := true;
      case Comparable =>
        comparable := comparable + {dims[i].name};
        count := count + 1;
        if verdict.sign == 1 {
          leftBetter := true;
        } else if verdict.sign == -1 {
          rightBetter := true;
        }
    }
    assert vs[..|dims|] == vs && dims[..|dims|] == dims;
    if count == 0 || unresolved {
      relation := Incomparable;
    } else if leftBetter && !rightBetter {
      relation := LeftDominates;
    } else if rightBetter && !leftBetter {
      relation := RightDominates;
    } else if !leftBetter && !rightBetter {
      relation := Tie;
    } else {
      relation := Incomparable;
    }
  }
}
