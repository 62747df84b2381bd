/** Hard constraints, before dominance: failing labels first, then whatever is strictly worse than all others left. */
module Elimination {
  import opened Text
  import opened Lists
  import opened Scores
  import opened Comparison

  /** Why a variant was removed. */
  datatype Reason =
    | Label(dimension: string, cell: string)
    | Worst(dimension: string, cell: string, other: string, otherCell: string)

  predicate IsFailLabel(cell: string) {
    Key(cell) in ["fail", "violated", "no", "false"]
  }

  predicate Blank(cell: string) {
    Trim(cell) == ""
  }

  function Constraints(dims: seq<Dimension>): (cs: seq<Dimension>)
    ensures forall d :: d in cs <==> d in dims && d.role == "constraint"
  {
    if dims == [] then []
    else (if dims[0].role == "constraint" then [dims[0]] else []) + Constraints(dims[1..])
  }

  /** Some constraint cell of the variant is an explicit failing label. */
  predicate Labelled(t: Table, cs: seq<Dimension>, v: string) {
    exists d :: d in cs && IsFailLabel(Cell(t, v, d.name))
  }

  function Without(variants: seq<string>, out: set<string>): (r: seq<string>)
    ensures forall v :: v in r <==> v in variants && v !in out
  {
    if variants == [] then []
    else (if variants[0] !in out then [variants[0]] else []) + Without(variants[1..], out)
  }

  // ---------------------------------------------------------------- the relative pass

  function Duel(t: Table, d: Dimension, v: string, w: string): Verdict {
    CompareValues(Cell(t, v, d.name), Cell(t, w, d.name), d.polarity, EXCLUDE)
  }

  predicate StrictlyWorse(t: Table, d: Dimension, v: string, w: string) {
    Duel(t, d, v, w) == Verdict(-1, Comparable)
  }

  /** `w` is still in and can be compared with `v`. */
  predicate Rival(t: Table, d: Dimension, v: string, w: string, out: set<string>) {
    w != v && w !in out && !Blank(Cell(t, w, d.name)) && Duel(t, d, v, w).status.Comparable?
  }

  /** `v` has a rival and is strictly worse than each of them. */
  predicate UniqueWorst(t: Table, d: Dimension, v: string, pool: seq<string>, out: set<string>) {
    && !Blank(Cell(t, v, d.name))
    && (exists w :: w in pool && Rival(t, d, v, w, out))
    && (forall w :: w in pool && Rival(t, d, v, w, out) ==> StrictlyWorse(t, d, v, w))
  }

  /** The test one dimension puts a candidate to, given who is out already. */
  function Judge(t: Table, d: Dimension, pool: seq<string>): (string, set<string>) -> bool {
    (v, out) => UniqueWorst(t, d, v, pool, out)
  }

  /** Candidates are judged in order, each against those still in. */
  function SweepBy(worst: (string, set<string>) -> bool, candidates: seq<string>, out: set<string>): (r: set<string>)
    ensures out <= r && forall v :: v in r - out ==> v in candidates
  {
    if candidates == [] then out
    else
      var v := candidates[0];
      var out' := if v !in out && worst(v, out) then out + {v} else out;
      var r := SweepBy(worst, candidates[1..], out');
      assert forall x :: x in r - out ==> x == v || x in r - out';
      r
  }

  /** One sweep for each constraint. */
  function Sweep(t: Table, cs: seq<Dimension>, pool: seq<string>, out: set<string>): (r: set<string>)
    ensures out <= r && forall v :: v in r - out ==> v in pool
  {
    if cs == [] then out
    else Sweep(t, cs[1..], pool, SweepBy(Judge(t, cs[0], pool), pool, out))
  }

  function Labels(t: Table, cs: seq<Dimension>, variants: seq<string>): set<string> {
    set v | v in variants && Labelled(t, cs, v)
  }

  /** Everything the two passes remove. */
  function Removed(t: Table, cs: seq<Dimension>, variants: seq<string>): set<string> {
    var labelled := Labels(t, cs, variants);
    Sweep(t, cs, Without(variants, labelled), labelled)
  }

  /** What counts as a failing label, in any letter case and between blanks, on a dimension with the constraint role. */
  lemma LabelledIff(t: Table, dims: seq<Dimension>, v: string)
    ensures Labelled(t, Constraints(dims), v) <==>
              exists d :: d in dims && d.role == "constraint"
                          && Lower(Trim(Cell(t, v, d.name))) in {"fail", "violated", "no", "false"}
  {
    hide Cell, Trim, Lower;
  }

  /** A failing label eliminates its variant, whatever the others scored. */
  lemma LabelEliminates(t: Table, dims: seq<Dimension>, variants: seq<string>, v: string, d: Dimension)
    requires v in variants && d in dims && d.role == "constraint"
    requires Lower(Trim(Cell(t, v, d.name))) in {"fail", "violated", "no", "false"}
    ensures v in Removed(t, Constraints(dims), variants)
  {
    hide Cell, Trim, Lower, Sweep;
    LabelledIff(t, dims, v);
  }

  // ---------------------------------------------------------------- the last variant stays

  lemma {:induction false} SweepByLeavesOne(worst: (string, set<string>) -> bool, candidates: seq<string>,
                                            pool: seq<string>, out: set<string>)
    requires forall v, o :: worst(v, o) ==> exists w :: w in pool && w != v && w !in o
    requires exists v :: v in pool && v !in out
    ensures exists v :: v in pool && v !in SweepBy(worst, candidates, out)
  {
    if candidates != [] {
      var v := candidates[0];
      SweepByLeavesOne(worst, candidates[1..], pool, if v !in out && worst(v, out) then out + {v} else out);
    }
  }

  lemma {:induction false} SweepLeavesOne(t: Table, cs: seq<Dimension>, pool: seq<string>, out: set<string>)
    requires exists v :: v in pool && v !in out
    ensures exists v :: v in pool && v !in Sweep(t, cs, pool, out)
  {
    hide Cell, Duel, Blank;
    if cs != [] {
      SweepByLeavesOne(Judge(t, cs[0], pool), pool, pool, out);
      SweepLeavesOne(t, cs[1..], pool, SweepBy(Judge(t, cs[0], pool), pool, out));
    }
  }

  /** Everything is removed exactly when every variant carries an explicit failing label: the relative pass
      never removes the last variant, for any constraints and any order. */
  lemma AllRemovedIffAllLabelled(t: Table, cs: seq<Dimension>, variants: seq<string>)
    ensures Without(variants, Removed(t, cs, variants)) == [] <==> forall v :: v in variants ==> Labelled(t, cs, v)
  {
    hide Labelled, Sweep, UniqueWorst;
    var labelled := Labels(t, cs, variants);
    var pool := Without(variants, labelled);
    if v :| v in variants && !Labelled(t, cs, v) {
      assert v in pool;
      SweepLeavesOne(t, cs, pool, labelled);
      var w :| w in pool && w !in Sweep(t, cs, pool, labelled);
      assert w in Without(variants, Removed(t, cs, variants));
    } else {
      NoMembers(Without(variants, Removed(t, cs, variants)), variants, labelled);
    }
  }

  lemma NoMembers(s: seq<string>, all: seq<string>, out: set<string>)
    requires forall v :: v in s ==> v in all && v !in out
    requires forall v :: v in all ==> v in out
    ensures s == []
  {
    HeadIsMember(s);
  }

  // ---------------------------------------------------------------- one constraint: removed for a better survivor

  lemma StrictlyWorseCells(x: string, y: string, polarity: string)
    requires CompareValues(x, y, polarity, EXCLUDE) == Verdict(-1, Comparable)
    ensures !Missing(x) && !Missing(y)
    ensures ParseComparable(Trim(x)).Some? && ParseComparable(Trim(y)).Some?
    ensures SameScale(ParseComparable(Trim(x)).value, ParseComparable(Trim(y)).value)
    ensures Orient(Ordered(Worth(x), Worth(y)), polarity) == -1
  {
    hide ParseComparable, Key, Trim, ZeroFill;
    ComparedByWorth(x, y, polarity, EXCLUDE);
    TrimTwice(x);
    TrimTwice(y);
  }

  lemma StrictlyWorseComposes(x: string, y: string, z: string, polarity: string)
    requires CompareValues(x, y, polarity, EXCLUDE) == Verdict(-1, Comparable)
    requires CompareValues(y, z, polarity, EXCLUDE) == Verdict(-1, Comparable)
    ensures CompareValues(x, z, polarity, EXCLUDE) == Verdict(-1, Comparable)
  {
    hide ParseComparable, Trim, Key, ZeroFill, Worth;
    StrictlyWorseCells(x, y, polarity);
    StrictlyWorseCells(y, z, polarity);
    TrimTwice(x);
    TrimTwice(z);
    assert CompareValues(x, z, polarity, EXCLUDE).status.Comparable?;
    ComparedByWorth(x, z, polarity, EXCLUDE);
  }

  function Worse(t: Table, d: Dimension): (string, string) -> bool {
    (v, w) => StrictlyWorse(t, d, v, w)
  }

  ghost predicate Transitive(worse: (string, string) -> bool) {
    forall u, v, w :: worse(u, v) && worse(v, w) ==> worse(u, w)
  }

  lemma {:induction false} RemovedForBetter(worst: (string, set<string>) -> bool, worse: (string, string) -> bool,
                                            candidates: seq<string>, pool: seq<string>, out: set<string>)
    requires Transitive(worse)
    requires forall v, o :: worst(v, o) ==> exists w :: w in pool && w != v && w !in o && worse(v, w)
    ensures var r := SweepBy(worst, candidates, out);
            forall v :: v in r - out ==> exists w :: w in pool && w !in r && worse(v, w)
  {
    if candidates != [] {
      var v0 := candidates[0];
      var out' := if v0 !in out && worst(v0, out) then out + {v0} else out;
      var r := SweepBy(worst, candidates, out);
      RemovedForBetter(worst, worse, candidates[1..], pool, out');
      assert r == SweepBy(worst, candidates[1..], out');
      forall v | v in r - out ensures exists w :: w in pool && w !in r && worse(v, w) {
        if v in r - out' {
        } else {
          var w :| w in pool && w != v0 && w !in out && worse(v0, w);
          if w in r {
            assert w in r - out';
            var u :| u in pool && u !in r && worse(w, u);
            assert worse(v0, u);
          }
        }
      }
    }
  }

  lemma BetterSurvivor(worst: (string, set<string>) -> bool, worse: (string, string) -> bool,
                       candidates: seq<string>, pool: seq<string>, out: set<string>, v: string) returns (w: string)
    requires Transitive(worse) && v in SweepBy(worst, candidates, out) && v !in out
    requires forall v, o :: worst(v, o) ==> exists w :: w in pool && w != v && w !in o && worse(v, w)
    ensures w in pool && w !in SweepBy(worst, candidates, out) && worse(v, w)
  {
    RemovedForBetter(worst, worse, candidates, pool, out);
    var r := SweepBy(worst, candidates, out);
    assert v in r - out;
    assert exists w :: w in pool && w !in r && worse(v, w);
    w :| w in pool && w !in SweepBy(worst, candidates, out) && worse(v, w);
  }

  lemma UniqueWorstHasBetter(t: Table, d: Dimension, v: string, pool: seq<string>, out: set<string>)
    requires UniqueWorst(t, d, v, pool, out)
    ensures exists w :: w in pool && w != v && w !in out && StrictlyWorse(t, d, v, w)
  {
    hide Cell, Duel, Blank;
  }

  /** With a single constraint, every variant the relative pass removes is strictly worse than a survivor. */
  lemma SingleConstraintRemovesForSurvivor(t: Table, d: Dimension, variants: seq<string>, v: string)
    requires v in Removed(t, [d], variants) && !Labelled(t, [d], v)
    ensures exists w :: w in Without(variants, Removed(t, [d], variants)) && StrictlyWorse(t, d, v, w)
  {
    hide Labelled, UniqueWorst, CompareValues, Cell;
    var labelled := Labels(t, [d], variants);
    var pool := Without(variants, labelled);
    var worst, worse := Judge(t, d, pool), Worse(t, d);
    forall x, o | worst(x, o) ensures exists w :: w in pool && w != x && w !in o && worse(x, w) {
      UniqueWorstHasBetter(t, d, x, pool, o);
      var w :| w in pool && w != x && w !in o && StrictlyWorse(t, d, x, w);
      assert worse(x, w);
    }
    forall x, y, z | worse(x, y) && worse(y, z) ensures worse(x, z) {
      StrictlyWorseComposes(Cell(t, x, d.name), Cell(t, y, d.name), Cell(t, z, d.name), d.polarity);
    }
    assert [d][0] == d && [d][1..] == [];
    assert Removed(t, [d], variants) == Sweep(t, [], pool, SweepBy(worst, pool, labelled)) == SweepBy(worst, pool, labelled);
    var w := BetterSurvivor(worst, worse, pool, pool, labelled, v);
    assert StrictlyWorse(t, d, v, w);
  }

  // ---------------------------------------------------------------- the two passes

  /** A recorded reason tells the truth about the variant it removed. */
  ghost predicate Justified(t: Table, cs: seq<Dimension>, v: string, r: Reason) {
    exists d :: d in cs && JustifiedBy(t, d, v, r)
  }

  ghost predicate JustifiedBy(t: Table, d: Dimension, v: string, r: Reason) {
    && d.name == r.dimension
    && r.cell == Cell(t, v, d.name)
    && (r.Label? ==> IsFailLabel(r.cell))
    && (r.Worst? ==> r.otherCell == Cell(t, r.other, d.name) && StrictlyWorse(t, d, v, r.other))
  }

  lemma LabelJustifies(t: Table, d: Dimension, v: string)
    requires IsFailLabel(Cell(t, v, d.name))
    ensures JustifiedBy(t, d, v, Label(d.name, Cell(t, v, d.name)))
  {
  }

  method ExplicitPass(t: Table, cs: seq<Dimension>, variants: seq<string>) returns (eliminated: map<string, Reason>)
    ensures eliminated.Keys == Labels(t, cs, variants)
    ensures forall v :: v in eliminated ==> Justified(t, cs, v, eliminated[v])
  {
    hide Cell, IsFailLabel, JustifiedBy;
    eliminated := map[];
    for i := 0 to |cs|
      invariant eliminated.Keys == Labels(t, cs[..i], variants)
      invariant forall v :: v in eliminated ==> Justified(t, cs, v, eliminated[v])
    {
      for j := 0 to |variants|
        invariant eliminated.Keys == Labels(t, cs[..i], variants) + Labels(t, cs[..i + 1], variants[..j])
        invariant forall v :: v in eliminated ==> Justified(t, cs, v, eliminated[v])
      {
        var v := variants[j];
        assert variants[..j + 1] == variants[..j] + [v];
        assert cs[..i + 1] == cs[..i] + [cs[i]];
        assert Labelled(t, cs[..i + 1], v) <==> Labelled(t, cs[..i], v) || IsFailLabel(Cell(t, v, cs[i].name));
        if v !in eliminated {
          var cell := Cell(t, v, cs[i].name);
          if IsFailLabel(cell) {
            LabelJustifies(t, cs[i], v);
            eliminated := eliminated[v := Label(cs[i].name, cell)];
          }
        }
      }
      assert variants[..|variants|] == variants;
      assert cs[..i + 1] == cs[..i] + [cs[i]];
      assert Labels(t, cs[..i], variants) <= Labels(t, cs[..i + 1], variants);
    }
    assert cs[..|cs|] == cs;
  }

  lemma WorseJustifies(t: Table, d: Dimension, v: string, w: string)
    requires StrictlyWorse(t, d, v, w)
    ensures JustifiedBy(t, d, v, Worst(d.name, Cell(t, v, d.name), w, Cell(t, w, d.name)))
  {
    hide Cell, CompareValues, Blank;
  }

  /** Counts the rivals of `v` and those it is strictly worse than, as the relative pass does. */
  method JudgeCandidate(t: Table, d: Dimension, v: string, pool: seq<string>, eliminated: map<string, Reason>)
    returns (worst: bool, reason: Reason)
    requires !Blank(Cell(t, v, d.name))
    ensures worst <==> UniqueWorst(t, d, v, pool, eliminated.Keys)
    ensures worst ==> JustifiedBy(t, d, v, reason)
  {
    hide Cell, CompareValues, Blank, JustifiedBy;
    var cell := Cell(t, v, d.name);
    var comparable, worse := 0, 0;
    reason := Worst(d.name, cell, "", "");
    for i := 0 to |pool|
      invariant 0 <= worse <= comparable
      invariant comparable == 0 <==> forall w :: w in pool[..i] ==> !Rival(t, d, v, w, eliminated.Keys)
      invariant worse == comparable <==>
                forall w :: w in pool[..i] && Rival(t, d, v, w, eliminated.Keys) ==> StrictlyWorse(t, d, v, w)
      invariant worse > 0 ==> JustifiedBy(t, d, v, reason)
    {
      var other := pool[i];
      assert pool[..i + 1] == pool[..i] + [other];
      var otherCell := Cell(t, other, d.name);
      if other != v && other !in eliminated && !Blank(otherCell) {
        var verdict := CompareValues(cell, otherCell, d.polarity, EXCLUDE);
        if verdict.status.Comparable? {
          assert Rival(t, d, v, other, eliminated.Keys);
          comparable := comparable + 1;
          if verdict.sign == -1 {
            worse := worse + 1;
            reason := Worst(d.name, cell, other, otherCell);
            WorseJustifies(t, d, v, other);
          }
        }
      }
    }
    assert pool[..|pool|] == pool;
    worst := comparable > 0 && worse == comparable;
  }

  method RelativePass(t: Table, cs: seq<Dimension>, pool: seq<string>, labelled: map<string, Reason>)
    returns (eliminated: map<string, Reason>)
    requires forall v :: v in labelled ==> Justified(t, cs, v, labelled[v])
    ensures eliminated.Keys == Sweep(t, cs, pool, labelled.Keys)
    ensures forall v :: v in eliminated ==> Justified(t, cs, v, eliminated[v])
  {
    hide Cell, CompareValues, Blank, UniqueWorst, JustifiedBy;
    eliminated := labelled;
    for i := 0 to |cs|
      invariant Sweep(t, cs, pool, labelled.Keys) == Sweep(t, cs[i..], pool, eliminated.Keys)
      invariant forall v :: v in eliminated ==> Justified(t, cs, v, eliminated[v])
    {
      ghost var before := eliminated.Keys;
      var d := cs[i];
      assert cs[i..][0] == d && cs[i..][1..] == cs[i + 1..];
      for j := 0 to |pool|
        invariant SweepBy(Judge(t, d, pool), pool, before) == SweepBy(Judge(t, d, pool), pool[j..], eliminated.Keys)
        invariant forall v :: v in eliminated ==> Justified(t, cs, v, eliminated[v])
      {
        var v := pool[j];
        assert pool[j..][0] == v && pool[j..][1..] == pool[j + 1..];
        var worst, reason := false, Label("", "");
        if v !in eliminated && !Blank(Cell(t, v, d.name)) {
          worst, reason := JudgeCandidate(t, d, v, pool, eliminated);
        }
        BlankIsNotWorst(t, d, v, pool, eliminated.Keys);
        assert Judge(t, d, pool)(v, eliminated.Keys) == UniqueWorst(t, d, v, pool, eliminated.Keys);
        assert v !in eliminated ==> worst == UniqueWorst(t, d, v, pool, eliminated.Keys);
        ghost var keys := eliminated.Keys;
        if worst {
          assert JustifiedBy(t, d, v, reason);
          eliminated := eliminated[v := reason];
        }
        assert eliminated.Keys == if v !in keys && Judge(t, d, pool)(v, keys) then keys + {v} else keys;
      }
      assert pool[|pool|..] == [];
    }
    assert cs[|cs|..] == [];
  }

  lemma BlankIsNotWorst(t: Table, d: Dimension, v: string, pool: seq<string>, out: set<string>)
    ensures Blank(Cell(t, v, d.name)) ==> !UniqueWorst(t, d, v, pool, out)
  {
  }

  /** Both passes; without constraints nothing is removed. */
  method EliminateConstraintViolations(variants: seq<string>, t: Table, dims: seq<Dimension>)
    returns (surviving: seq<string>, eliminated: map<string, Reason>)
    ensures eliminated.Keys == Removed(t, Constraints(dims), variants)
    ensures surviving == Without(variants, eliminated.Keys)
    ensures forall v :: v in eliminated ==> v in variants && Justified(t, Constraints(dims), v, eliminated[v])
  {
    hide Labelled, UniqueWorst, JustifiedBy;
    var cs := Constraints(dims);
    var labelled := ExplicitPass(t, cs, variants);
    var pool := Without(variants, labelled.Keys);
    eliminated := RelativePass(t, cs, pool, labelled);
    surviving := Without(variants, eliminated.Keys);
  }
}
