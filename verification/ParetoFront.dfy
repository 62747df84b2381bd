/** Computing the front: eliminate, compare every pair once, keep what nothing dominates. */
module ParetoFront {
  import opened Comparison
  import opened Pareto
  import opened Elimination

  /** The variants that enter dominance: the survivors, or everyone if no one survives. */
  function Field(t: Table, dims: seq<Dimension>, variants: seq<string>): seq<string> {
    var surviving := Without(variants, Removed(t, Constraints(dims), variants));
    if surviving == [] then variants else surviving
  }

  /** The everyone-is-out fallback fires exactly when every variant carries an explicit failing label. */
  lemma FallbackIffAllLabelled(t: Table, dims: seq<Dimension>, variants: seq<string>)
    ensures Without(variants, Removed(t, Constraints(dims), variants)) == [] <==>
            forall v :: v in variants ==> Labelled(t, Constraints(dims), v)
    ensures variants != [] ==> Field(t, dims, variants) != []
  {
    AllRemovedIffAllLabelled(t, Constraints(dims), variants);
  }

  /** The pairs already compared when the outer loop is at `left` and the inner loop at `right`. */
  ghost predicate Compared(left: int, right: int, a: int, b: int) {
    0 <= a < b && (a < left || (a == left && b < right))
  }

  ghost predicate AllSound(c: Contest, field: seq<string>, dominatedBy: map<string, set<string>>) {
    && dominatedBy.Keys == (set v | v in field)
    && forall v, w :: v in dominatedBy && w in dominatedBy[v] ==> w in field && c.Beats(w, v)
  }

  ghost predicate AllRecorded(c: Contest, field: seq<string>, dominatedBy: map<string, set<string>>, left: int, right: int)
    requires dominatedBy.Keys == (set v | v in field)
  {
    forall a, b :: Compared(left, right, a, b) && b < |field| ==>
      && (c.Beats(field[a], field[b]) ==> field[a] in dominatedBy[field[b]])
      && (c.Beats(field[b], field[a]) ==> field[b] in dominatedBy[field[a]])
  }

  function Recorded(dominatedBy: map<string, set<string>>, v: string, w: string, relation: Relation): map<string, set<string>>
    requires v in dominatedBy && w in dominatedBy
  {
    match relation
    case LeftDominates => dominatedBy[w := dominatedBy[w] + {v}]
    case RightDominates => dominatedBy[v := dominatedBy[v] + {w}]
    case _ => dominatedBy
  }

  lemma RecordStep(c: Contest, field: seq<string>, dominatedBy: map<string, set<string>>, left: nat, right: nat)
    requires left < right < |field|
    requires AllSound(c, field, dominatedBy) && AllRecorded(c, field, dominatedBy, left, right)
    ensures var relation := Relate(Verdicts(field[left], field[right], c.t, c.dims, c.policy));
            var after := Recorded(dominatedBy, field[left], field[right], relation);
            AllSound(c, field, after) && AllRecorded(c, field, after, left, right + 1)
  {
    hide Verdicts, Relate, At;
    var v, w := field[left], field[right];
    MirroredRelation(v, w, c.t, c.dims, c.policy);
    var relation := Relate(Verdicts(v, w, c.t, c.dims, c.policy));
    var after := Recorded(dominatedBy, v, w, relation);
    assert after.Keys == dominatedBy.Keys;
    assert forall x :: x in dominatedBy ==> dominatedBy[x] <= after[x];
    forall a, b | Compared(left, right + 1, a, b) && b < |field|
      ensures c.Beats(field[a], field[b]) ==> field[a] in after[field[b]]
      ensures c.Beats(field[b], field[a]) ==> field[b] in after[field[a]]
    {
      assert (a == left && b == right) || Compared(left, right, a, b);
    }
  }

  /** The dimensions on which some pair of the field can be compared. */
  ghost predicate EverComparable(c: Contest, field: seq<string>, left: int, right: int, name: string) {
    exists a, b :: Compared(left, right, a, b) && b < |field| && name in ComparableNames(field[a], field[b], c.t, c.dims, c.policy)
  }

  ghost predicate Tracks(c: Contest, field: seq<string>, pairs: nat, names: set<string>, left: int, right: int) {
    && (pairs == 0 <==> names == {})
    && forall name :: name in names <==> EverComparable(c, field, left, right, name)
  }

  lemma TrackStep(c: Contest, field: seq<string>, pairs: nat, names: set<string>, left: nat, right: nat)
    requires left < right < |field| && Tracks(c, field, pairs, names, left, right)
    ensures var more := ComparableNames(field[left], field[right], c.t, c.dims, c.policy);
            Tracks(c, field, if more == {} then pairs else pairs + 1, names + more, left, right + 1)
  {
    hide ComparableNames;
    var more := ComparableNames(field[left], field[right], c.t, c.dims, c.policy);
    forall name ensures name in names + more <==> EverComparable(c, field, left, right + 1, name) {
      if name in more {
        assert Compared(left, right + 1, left, right);
      }
      if name in names {
        var a, b :| Compared(left, right, a, b) && b < |field| && name in ComparableNames(field[a], field[b], c.t, c.dims, c.policy);
        assert Compared(left, right + 1, a, b);
      }
      if EverComparable(c, field, left, right + 1, name) && name !in more {
        var a, b :| Compared(left, right + 1, a, b) && b < |field| && name in ComparableNames(field[a], field[b], c.t, c.dims, c.policy);
        assert Compared(left, right, a, b);
      }
    }
  }

  lemma NextRow(c: Contest, field: seq<string>, dominatedBy: map<string, set<string>>, pairs: nat, names: set<string>, left: nat)
    requires left < |field| && AllSound(c, field, dominatedBy)
    ensures AllRecorded(c, field, dominatedBy, left, |field|) ==> AllRecorded(c, field, dominatedBy, left + 1, 0)
    ensures AllRecorded(c, field, dominatedBy, left, 0) ==> AllRecorded(c, field, dominatedBy, left, left + 1)
    ensures Tracks(c, field, pairs, names, left, |field|) ==> Tracks(c, field, pairs, names, left + 1, 0)
    ensures Tracks(c, field, pairs, names, left, 0) ==> Tracks(c, field, pairs, names, left, left + 1)
  {
    hide ComparableNames, Dominates;
    forall a, b | b < |field| ensures Compared(left, |field|, a, b) <==> Compared(left + 1, 0, a, b) {
    }
    forall a, b ensures Compared(left, 0, a, b) <==> Compared(left, left + 1, a, b) {
    }
    forall name
      ensures EverComparable(c, field, left, |field|, name) <==> EverComparable(c, field, left + 1, 0, name)
      ensures EverComparable(c, field, left, 0, name) <==> EverComparable(c, field, left, left + 1, name)
    {
    }
  }

  /** Compares each pair once and notes who dominates whom. */
  method CompareAll(c: Contest, field: seq<string>)
    returns (dominatedBy: map<string, set<string>>, pairs: nat, names: set<string>)
    ensures AllSound(c, field, dominatedBy) && AllRecorded(c, field, dominatedBy, |field|, 0)
    ensures Tracks(c, field, pairs, names, |field|, 0)
  {
    hide Dominates, Relate, Verdicts, ComparableNames, AllRecorded, EverComparable;
    dominatedBy := map v | v in field :: {};
    pairs, names := 0, {};
    NothingCompared(c, field, dominatedBy);
    for left := 0 to |field|
      invariant AllSound(c, field, dominatedBy) && AllRecorded(c, field, dominatedBy, left, 0)
      invariant Tracks(c, field, pairs, names, left, 0)
    {
      NextRow(c, field, dominatedBy, pairs, names, left);
      for right := left + 1 to |field|
        invariant AllSound(c, field, dominatedBy) && AllRecorded(c, field, dominatedBy, left, right)
        invariant Tracks(c, field, pairs, names, left, right)
      {
        var relation, more := ComparePair(field[left], field[right], c.t, c.dims, c.policy);
        RecordStep(c, field, dominatedBy, left, right);
        TrackStep(c, field, pairs, names, left, right);
        if more != {} {
          pairs := pairs + 1;
        }
        names := names + more;
        dominatedBy := Recorded(dominatedBy, field[left], field[right], relation);
      }
      NextRow(c, field, dominatedBy, pairs, names, left);
    }
  }

  lemma NothingCompared(c: Contest, field: seq<string>, dominatedBy: map<string, set<string>>)
    requires dominatedBy == map v | v in field :: {}
    ensures AllRecorded(c, field, dominatedBy, 0, 0) && Tracks(c, field, 0, {}, 0, 0)
  {
    hide Dominates, ComparableNames;
    forall a, b ensures !Compared(0, 0, a, b) {
    }
  }

  method ComputeFront(c: Contest, field: seq<string>) returns (front: seq<string>, pairs: nat, names: set<string>)
    ensures front == Front(c, field)
    ensures Tracks(c, field, pairs, names, |field|, 0)
  {
    hide *;
    var dominatedBy;
    dominatedBy, pairs, names := CompareAll(c, field);
    front := Undominated(c, field, dominatedBy);
  }

  /** Keeps, in order, the variants that nothing was recorded to dominate. */
  method Undominated(c: Contest, field: seq<string>, dominatedBy: map<string, set<string>>) returns (front: seq<string>)
    requires AllSound(c, field, dominatedBy) && AllRecorded(c, field, dominatedBy, |field|, 0)
    ensures front == Front(c, field)
  {
    hide *;
    front := [];
    FrontStart(c, field);
    for i := 0 to |field|
      invariant front + FrontOf(c, field[i..], field) == Front(c, field)
    {
      UndominatedIffEmpty(c, field, dominatedBy, i);
      FrontStep(c, front, field, i);
      if dominatedBy[field[i]] == {} {
        front := front + [field[i]];
      }
    }
    FrontEnd(c, front, field);
  }

  lemma FrontStart(c: Contest, field: seq<string>)
    ensures [] + FrontOf(c, field[0..], field) == Front(c, field)
  {
    assert field[0..] == field;
  }

  lemma FrontStep(c: Contest, front: seq<string>, field: seq<string>, i: nat)
    requires i < |field|
    ensures front + FrontOf(c, field[i..], field) ==
            (if forall w :: w in field ==> !c.Beats(w, field[i]) then front + [field[i]] else front)
            + FrontOf(c, field[i + 1..], field)
  {
    hide Dominates;
    assert field[i..][0] == field[i] && field[i..][1..] == field[i + 1..];
  }

  lemma FrontEnd(c: Contest, front: seq<string>, field: seq<string>)
    ensures front + FrontOf(c, field[|field|..], field) == front
  {
    assert field[|field|..] == [];
  }

  lemma UndominatedIffEmpty(c: Contest, field: seq<string>, dominatedBy: map<string, set<string>>, i: nat)
    requires AllSound(c, field, dominatedBy) && AllRecorded(c, field, dominatedBy, |field|, 0) && i < |field|
    ensures field[i] in dominatedBy
    ensures dominatedBy[field[i]] == {} <==> forall w :: w in field ==> !c.Beats(w, field[i])
  {
    hide Dominates;
    var v := field[i];
    forall w | w in field && c.Beats(w, v) ensures w in dominatedBy[v] {
      var k :| 0 <= k < |field| && field[k] == w;
      NeverDominatesItself(w, c.t, c.dims, c.policy);
      var a, b := if k < i then k else i, if k < i then i else k;
      assert Compared(|field|, 0, a, b);
    }
    if w :| w in dominatedBy[v] {
      assert c.Beats(w, v);
    }
  }

  function Names(dims: seq<Dimension>): (names: seq<string>)
    ensures forall d :: d in dims ==> d.name in names
  {
    if dims == [] then [] else [dims[0].name] + Names(dims[1..])
  }

  datatype Result = Result(front: seq<string>, eliminated: map<string, Reason>, comparablePairs: nat, indecisive: seq<string>)

  /** The whole computation on the dominance-relevant dimensions. */
  method ComputeParetoFront(t: Table, variants: seq<string>, dims: seq<Dimension>, policy: string) returns (r: Result)
    ensures r.front == if dims == [] then variants else Front(Contest(t, dims, policy), Field(t, dims, variants))
    ensures r.eliminated.Keys == if dims == [] then {} else Removed(t, Constraints(dims), variants)
    ensures forall v :: v in r.eliminated ==> v in variants && Justified(t, Constraints(dims), v, r.eliminated[v])
    ensures var c, field := Contest(t, dims, policy), Field(t, dims, variants);
            if dims == [] then r.indecisive == []
            else
              && (r.comparablePairs == 0 <==> forall name :: !EverComparable(c, field, |field|, 0, name))
              && (forall name :: name in r.indecisive <==> name in Names(dims) && !EverComparable(c, field, |field|, 0, name))
  {
    if dims == [] {
      return Result(variants, map[], 0, []);
    }
    hide Justified, EverComparable, Removed;
    var surviving, eliminated := EliminateConstraintViolations(variants, t, dims);
    var field := if surviving == [] then variants else surviving;
    var front, pairs, comparable := ComputeFront(Contest(t, dims, policy), field);
    assert comparable == {} <==> forall name :: name !in comparable;
    r := Result(front, eliminated, pairs, Without(Names(dims), comparable));
  }
}
