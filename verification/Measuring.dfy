/** One measurement run: the evidence it writes, the transaction that stores it, and what the run leaves. */
module Measuring {
  import opened Text
  import opened Lists
  import opened Sorting
  import opened Claims
  import opened Evidence
  import opened Measurement
  import Digits

  /** The two scopes are the criteria resolved against the declared acceptance criteria. */
  datatype Input = Input(findings: string, verdict: string, met: seq<string>, notMet: seq<string>,
                         metScope: seq<string>, notMetScope: seq<string>, id: string, hasBaseline: bool)

  // ---------------------------------------------------------------- what a run writes

  predicate Matched(v: Vocabulary, labels: seq<Label>, values: seq<string>, i: nat) {
    exists value :: value in values && ResolveAlias(v, labels, value) == At(i)
  }

  predicate IsMet(v: Vocabulary, labels: seq<Label>, input: Input, i: nat) {
    Matched(v, labels, input.met + NormalizeScope(input.metScope), i)
  }

  predicate IsNotMet(v: Vocabulary, labels: seq<Label>, input: Input, i: nat) {
    Matched(v, labels, input.notMet + NormalizeScope(input.notMetScope), i)
  }

  predicate Touched(v: Vocabulary, labels: seq<Label>, input: Input, i: nat) {
    IsMet(v, labels, input, i) || IsNotMet(v, labels, input, i)
  }

  function ClaimVerdict(met: bool, notMet: bool): string {
    if met && notMet then "weakens" else if met then "supports" else "refutes"
  }

  function Congruence(input: Input): int {
    if input.hasBaseline then 3 else 1
  }

  function CoverageScope(input: Input): seq<string> {
    NormalizeScope(NormalizeScope(input.metScope) + NormalizeScope(input.notMetScope))
  }

  /** The scope entries about claim `i`, and those about no claim. */
  function ScopeOf(v: Vocabulary, labels: seq<Label>, scope: seq<string>, i: nat): seq<string> {
    if scope == [] then []
    else
      var r := ResolveAlias(v, labels, scope[0]);
      (if r == NoIndex || r == At(i) then [scope[0]] else []) + ScopeOf(v, labels, scope[1..], i)
  }

  function ClaimItem(v: Vocabulary, labels: seq<Label>, input: Input, i: nat, position: nat): Item
    requires i < |labels|
  {
    Item(input.id + "-claim-" + Digits.Padded(position + 1, 3), MEASUREMENT,
         ClaimVerdict(IsMet(v, labels, input, i), IsNotMet(v, labels, input, i)), Congruence(input),
         [labels[i].id], NormalizeScope(ScopeOf(v, labels, CoverageScope(input), i)))
  }

  /** The positions marked, in order. */
  function Marked(marks: seq<bool>): (list: seq<nat>)
    ensures forall k :: 0 <= k < |list| ==> list[k] < |marks| && marks[list[k]]
    ensures forall k, l :: 0 <= k < l < |list| ==> list[k] < list[l]
  {
    if marks == [] then []
    else
      var before := Marked(marks[..|marks| - 1]);
      if marks[|marks| - 1] then before + [|marks| - 1] else before
  }

  lemma {:induction false} MarkedIsListed(marks: seq<bool>, i: nat) returns (k: nat)
    requires i < |marks| && marks[i]
    ensures k < |Marked(marks)| && Marked(marks)[k] == i
    decreases |marks|
  {
    var before := Marked(marks[..|marks| - 1]);
    if i < |marks| - 1 {
      k := MarkedIsListed(marks[..|marks| - 1], i);
    } else {
      k := |before|;
    }
  }

  function Marks(v: Vocabulary, labels: seq<Label>, input: Input): (marks: seq<bool>)
    ensures |marks| == |labels| && forall i: nat :: i < |labels| ==> marks[i] == Touched(v, labels, input, i)
  {
    hide Touched;
    seq(|labels|, i requires 0 <= i < |labels| => Touched(v, labels, input, i))
  }

  /** The touched claims, in claim order. */
  function AllTouched(v: Vocabulary, labels: seq<Label>, input: Input): (list: seq<nat>)
    ensures forall k :: 0 <= k < |list| ==> list[k] < |labels|
    ensures forall k, l :: 0 <= k < l < |list| ==> list[k] < list[l]
  {
    Marked(Marks(v, labels, input))
  }

  lemma TouchedIsListed(v: Vocabulary, labels: seq<Label>, input: Input, i: nat) returns (p: nat)
    requires i < |labels| && Touched(v, labels, input, i)
    ensures p < |AllTouched(v, labels, input)| && AllTouched(v, labels, input)[p] == i
  {
    hide Touched, Marked;
    p := MarkedIsListed(Marks(v, labels, input), i);
  }

  lemma ListedIsTouched(v: Vocabulary, labels: seq<Label>, input: Input, p: nat)
    requires p < |AllTouched(v, labels, input)|
    ensures Touched(v, labels, input, AllTouched(v, labels, input)[p])
  {
    hide Touched, Marked;
  }

  /** One item for each touched claim; a run that touches no claim writes one item, bound to none. */
  function Items(v: Vocabulary, labels: seq<Label>, input: Input): (items: seq<Item>)
    ensures var list := AllTouched(v, labels, input);
            && |items| == (if list == [] then 1 else |list|)
            && (forall k :: 0 <= k < |list| ==> items[k] == ClaimItem(v, labels, input, list[k], k))
  {
    var list := AllTouched(v, labels, input);
    if list == [] then [Item(input.id, MEASUREMENT, input.verdict, Congruence(input), [], CoverageScope(input))]
    else seq(|list|, k requires 0 <= k < |list| => ClaimItem(v, labels, input, list[k], k))
  }

  ghost predicate CleanLabels(labels: seq<Label>) {
    && (forall i :: 0 <= i < |labels| ==> labels[i].id != "" && Trim(labels[i].id) == labels[i].id)
    && (forall i, j :: 0 <= i < j < |labels| ==> labels[i].id != labels[j].id)
  }

  lemma NormalClaimsHaveCleanLabels(claims: seq<Claim>)
    requires Normal(claims)
    ensures CleanLabels(Labels(claims))
  {
    hide Trim, NormalizeStatus;
    forall i | 0 <= i < |claims| ensures claims[i] in claims && Trim(claims[i].id) == claims[i].id {
      assert Clean(claims[i]) == claims[i];
    }
  }

  lemma SingleRef(id: string)
    requires id != "" && Trim(id) == id
    ensures Dedupe([id]) == [id]
  {
    hide Trim;
    assert Trims([id]) == [id];
    UniqueKeepsUnique([id]);
  }

  /** The item of a claim binds that claim and no other. */
  lemma ClaimItemBindsItsClaim(v: Vocabulary, labels: seq<Label>, input: Input, i: nat, k: nat, id: string)
    requires CleanLabels(labels) && i < |labels|
    ensures Binds(v, labels, ClaimItem(v, labels, input, i, k), id) <==> id == labels[i].id
    ensures Active(ClaimItem(v, labels, input, i, k))
    ensures Active(Canonical(ClaimItem(v, labels, input, i, k)))
  {
    hide Trim, Lower, Dedupe, NormalizeScope, ScopeIds, IsMet, IsNotMet;
    SingleRef(labels[i].id);
    assert labels[i] in labels;
    PlainVerdicts();
  }

  lemma {:induction false} UnresolvedScopeBindsNothing(v: Vocabulary, labels: seq<Label>, scope: seq<string>)
    requires forall s :: s in scope ==> ResolveAlias(v, labels, s) == NoIndex
    ensures ScopeIds(v, labels, scope) == []
  {
    hide ResolveAlias;
    if scope != [] {
      UnresolvedScopeBindsNothing(v, labels, scope[1..]);
    }
  }

  lemma ScopeMembers(scope: seq<string>, s: string)
    requires s in NormalizeScope(scope)
    ensures exists w :: w in scope && Trim(w) == s
  {
    hide Trim, Sort;
    ScopeTwice(scope);
    var i :| 0 <= i < |scope| && Trims(scope)[i] == s;
    assert scope[i] in scope;
  }

  lemma ScopeIsTrimmed(scope: seq<string>, s: string)
    requires s in NormalizeScope(scope)
    ensures Trim(s) == s
  {
    hide Trim, Sort;
    ScopeTwice(scope);
    DedupeTrims(scope);
  }

  lemma CoverageMembers(input: Input, s: string)
    requires s in NormalizeScope(CoverageScope(input))
    ensures s in NormalizeScope(input.metScope) || s in NormalizeScope(input.notMetScope)
  {
    hide Trim, Sort, Dedupe, NormalizeScope;
    var both := NormalizeScope(input.metScope) + NormalizeScope(input.notMetScope);
    ScopeTwice(both);
    ScopeMembers(both, s);
    var w :| w in both && Trim(w) == s;
    if w in NormalizeScope(input.metScope) {
      ScopeIsTrimmed(input.metScope, w);
    } else {
      ScopeIsTrimmed(input.notMetScope, w);
    }
  }

  /** If no claim is touched, the one item written binds no claim: its scope resolves to nothing. */
  lemma UntouchedRunBindsNothing(v: Vocabulary, labels: seq<Label>, input: Input, id: string)
    requires AllTouched(v, labels, input) == []
    ensures !Binds(v, labels, Items(v, labels, input)[0], id)
  {
    hide NormalizeScope, ResolveAlias, CoverageScope, ClaimItem, AllTouched;
    var scope := NormalizeScope(CoverageScope(input));
    forall s | s in scope ensures ResolveAlias(v, labels, s) == NoIndex {
      CoverageMembers(input, s);
      var r := ResolveAlias(v, labels, s);
      if r.At? {
        assert s in input.met + NormalizeScope(input.metScope) || s in input.notMet + NormalizeScope(input.notMetScope);
        assert Touched(v, labels, input, r.i);
        var p := TouchedIsListed(v, labels, input, r.i);
      }
    }
    UnresolvedScopeBindsNothing(v, labels, scope);
    NoRefs();
  }

  lemma NoRefs()
    ensures Dedupe([]) == []
  {
  }

  lemma ItemsAreFaithful(v: Vocabulary, labels: seq<Label>, input: Input)
    requires CleanLabels(labels)
    ensures Faithful(v, labels, Items(v, labels, input))
    ensures forall it :: it in Items(v, labels, input) ==> it.kind == MEASUREMENT && it.congruence != 0
  {
    hide Touched, Binds, Canonical, CleanLabels, NormalizeScope, AllTouched;
    var items, list := Items(v, labels, input), AllTouched(v, labels, input);
    if list == [] {
      forall id ensures !Binds(v, labels, items[0], id) {
        UntouchedRunBindsNothing(v, labels, input, id);
      }
    } else {
      forall k | 0 <= k < |items|
        ensures Active(Canonical(items[k])) == Active(items[k]) && items[k].kind == MEASUREMENT && items[k].congruence != 0
      {
        ClaimItemBindsItsClaim(v, labels, input, list[k], k, "");
      }
    }
  }

  lemma {:induction false} ScopeOfMembers(v: Vocabulary, labels: seq<Label>, scope: seq<string>, i: nat, s: string)
    ensures s in ScopeOf(v, labels, scope, i) <==> s in scope && ResolveAlias(v, labels, s) in {NoIndex, At(i)}
  {
    hide ResolveAlias;
    if scope != [] {
      ScopeOfMembers(v, labels, scope[1..], i, s);
      assert scope == [scope[0]] + scope[1..];
    }
  }

  /** The entry is among the criteria of the run, met or not, as they were declared. */
  predicate InScope(input: Input, s: string) {
    s != "" && exists w :: w in input.metScope + input.notMetScope && Trim(w) == s
  }

  lemma CoverageIs(input: Input, s: string)
    ensures s in CoverageScope(input) <==> InScope(input, s)
  {
    hide Trim, NormalizeScope;
    var both := NormalizeScope(input.metScope) + NormalizeScope(input.notMetScope);
    ScopeIs(both, s);
    forall w ensures w in both <==> InScope(input, w) {
      ScopeIs(input.metScope, w);
      ScopeIs(input.notMetScope, w);
    }
    forall w | w in both ensures Trim(w) == w {
      if w in NormalizeScope(input.metScope) {
        ScopeIsTrimmed(input.metScope, w);
      } else {
        ScopeIsTrimmed(input.notMetScope, w);
      }
    }
  }

  lemma ScopeOfItem(v: Vocabulary, labels: seq<Label>, input: Input, i: nat, s: string)
    ensures s in NormalizeScope(ScopeOf(v, labels, CoverageScope(input), i)) <==>
              InScope(input, s) && ResolveAlias(v, labels, s) in {NoIndex, At(i)}
  {
    hide Trim, NormalizeScope, ResolveAlias, CoverageScope, ScopeOf;
    var kept := ScopeOf(v, labels, CoverageScope(input), i);
    forall w ensures w in kept <==> InScope(input, w) && ResolveAlias(v, labels, w) in {NoIndex, At(i)} {
      ScopeOfMembers(v, labels, CoverageScope(input), i, w);
      CoverageIs(input, w);
    }
    ScopeIs(kept, s);
    forall w | InScope(input, w) ensures Trim(w) == w {
      var u :| u in input.metScope + input.notMetScope && Trim(u) == w;
      TrimTwice(u);
    }
  }

  /** What a run writes, item by item: numbered from one in claim order, for each claim touched its verdict, its
      identifier and the criteria about it or about no claim. */
  lemma ItemsInFull(v: Vocabulary, labels: seq<Label>, input: Input, k: nat)
    requires k < |AllTouched(v, labels, input)|
    ensures var it, i := Items(v, labels, input)[k], AllTouched(v, labels, input)[k];
            && it.id == input.id + "-claim-" + Digits.Padded(k + 1, 3) && it.kind == "measurement"
            && it.congruence == (if input.hasBaseline then 3 else 1) && it.refs == [labels[i].id]
            && it.verdict == (if !IsNotMet(v, labels, input, i) then "supports"
                              else if !IsMet(v, labels, input, i) then "refutes" else "weakens")
            && (forall s :: s in it.scope <==> InScope(input, s) && ResolveAlias(v, labels, s) in {NoIndex, At(i)})
  {
    hide NormalizeScope, IsMet, IsNotMet, Digits.Padded, AllTouched, ResolveAlias, InScope, CoverageScope, ScopeOf;
    var i := AllTouched(v, labels, input)[k];
    ListedIsTouched(v, labels, input, k);
    forall s {
      ScopeOfItem(v, labels, input, i, s);
    }
  }

  /** A run that touches no claim writes what the caller gave, bound to none. */
  lemma OneItemInFull(v: Vocabulary, labels: seq<Label>, input: Input)
    requires forall i :: 0 <= i < |labels| ==> !Touched(v, labels, input, i)
    ensures AllTouched(v, labels, input) == [] && |Items(v, labels, input)| == 1
    ensures var it := Items(v, labels, input)[0];
            && it.id == input.id && it.kind == "measurement" && it.verdict == input.verdict && it.refs == []
            && it.congruence == (if input.hasBaseline then 3 else 1) && (forall s :: s in it.scope <==> InScope(input, s))
  {
    hide Touched, InScope, CoverageScope, AllTouched;
    if AllTouched(v, labels, input) != [] {
      ListedIsTouched(v, labels, input, 0);
    }
    forall s {
      CoverageIs(input, s);
    }
  }

  // ---------------------------------------------------------------- what a run leaves

  /** Row `k` is a measurement in force bound to the claim. */
  predicate BoundAt(v: Vocabulary, labels: seq<Label>, rows: seq<Row>, artifact: string, k: nat, id: string) {
    && k < |rows| && rows[k].artifact == artifact && rows[k].item.kind == MEASUREMENT
    && Active(Canonical(rows[k].item)) && Binds(v, labels, Canonical(rows[k].item), id)
  }

  ghost predicate SingleBindings(v: Vocabulary, labels: seq<Label>, rows: seq<Row>, artifact: string) {
    forall k: nat, x, y :: BoundAt(v, labels, rows, artifact, k, x) && BoundAt(v, labels, rows, artifact, k, y) ==> x == y
  }

  lemma BoundInKeys(v: Vocabulary, labels: seq<Label>, it: Item, i: nat)
    requires i < |labels| && Binds(v, labels, it, labels[i].id)
    ensures BindingKey(labels, labels[i].id) in BindingKeys(v, labels, it)
  {
    hide Binds, BindingKey;
    assert labels[i] in labels;
  }

  /** Two items bound to the same claim overlap. */
  lemma SharedClaimOverlaps(v: Vocabulary, labels: seq<Label>, existing: Item, it: Item, i: nat)
    requires i < |labels| && Binds(v, labels, existing, labels[i].id) && Binds(v, labels, it, labels[i].id)
    ensures KeysOverlap(BindingKeys(v, labels, existing), BindingKeys(v, labels, it))
  {
    hide Binds, BindingKeys, BindingKey;
    BoundInKeys(v, labels, existing, i);
    BoundInKeys(v, labels, it, i);
    assert BindingKey(labels, labels[i].id) in BindingKeys(v, labels, existing) * BindingKeys(v, labels, it);
  }

  /** A measurement in force bound to a touched claim is superseded. */
  lemma TouchedIsSuperseded(v: Vocabulary, labels: seq<Label>, rows: seq<Row>, artifact: string, input: Input, i: nat, k: nat)
    requires CleanLabels(labels) && i < |labels| && Touched(v, labels, input, i)
    requires BoundAt(v, labels, rows, artifact, k, labels[i].id)
    ensures ToSupersede(v, labels, Canonical(rows[k].item), Items(v, labels, input))
  {
    hide Binds, Canonical, Touched, ClaimItem, BindingKeys, CleanLabels, AllTouched, Items, KeysOverlap;
    var p := TouchedIsListed(v, labels, input, i);
    var it := Items(v, labels, input)[p];
    assert it == ClaimItem(v, labels, input, i, p) && it in Items(v, labels, input);
    ClaimItemBindsItsClaim(v, labels, input, i, p, labels[i].id);
    SharedClaimOverlaps(v, labels, Canonical(rows[k].item), it, i);
    CanonicalKind(rows[k].item);
  }

  lemma CanonicalKind(it: Item)
    ensures Canonical(it).kind == it.kind
  {
  }

  /** The row of a touched claim binds that claim alone. */
  lemma NewRowBinds(v: Vocabulary, labels: seq<Label>, rows: seq<Row>, artifact: string, input: Input, p: nat, id: string)
    requires CleanLabels(labels) && p < |AllTouched(v, labels, input)|
    ensures BoundAt(v, labels, Committed(v, labels, rows, artifact, Items(v, labels, input)), artifact, |rows| + p, id)
        <==> id == labels[AllTouched(v, labels, input)[p]].id
  {
    hide Binds, Canonical, SupersededIds, ClaimItem, AllTouched, Touched;
    var i, it := AllTouched(v, labels, input)[p], Items(v, labels, input)[p];
    var after := Committed(v, labels, rows, artifact, Items(v, labels, input));
    assert after[|rows| + p] == Row(artifact, Canonical(it));
    CanonicalTwice(it);
    CanonicalKind(it);
    CanonicalMeansTheSame(v, labels, it, id);
    ClaimItemBindsItsClaim(v, labels, input, i, p, id);
    assert it.kind == MEASUREMENT by {
      ItemsAreFaithful(v, labels, input);
      assert it in Items(v, labels, input);
    }
  }

  /** After a run exactly one measurement in force is bound to each claim the run touched. */
  lemma TouchedClaimHasOneRow(v: Vocabulary, labels: seq<Label>, rows: seq<Row>, artifact: string, input: Input, i: nat)
    requires CleanLabels(labels) && UniqueIds(rows) && i < |labels| && Touched(v, labels, input, i)
    ensures var after := Committed(v, labels, rows, artifact, Items(v, labels, input));
            exists k: nat :: BoundAt(v, labels, after, artifact, k, labels[i].id)
                             && forall j: nat :: BoundAt(v, labels, after, artifact, j, labels[i].id) ==> j == k
  {
    hide Binds, Canonical, Touched, SupersededIds, ClaimItem, AllTouched, Items;
    var items, list := Items(v, labels, input), AllTouched(v, labels, input);
    var after, id := Committed(v, labels, rows, artifact, items), labels[i].id;
    var p := TouchedIsListed(v, labels, input, i);
    NewRowBinds(v, labels, rows, artifact, input, p, id);
    forall j: nat | BoundAt(v, labels, after, artifact, j, id) ensures j == |rows| + p {
      if j < |rows| {
        OldRowUnbound(v, labels, rows, artifact, input, i, j);
      } else {
        NewRowBinds(v, labels, rows, artifact, input, j - |rows|, id);
      }
    }
  }

  lemma OldRowUnbound(v: Vocabulary, labels: seq<Label>, rows: seq<Row>, artifact: string, input: Input, i: nat, j: nat)
    requires CleanLabels(labels) && UniqueIds(rows) && i < |labels| && Touched(v, labels, input, i) && j < |rows|
    ensures !BoundAt(v, labels, Committed(v, labels, rows, artifact, Items(v, labels, input)), artifact, j, labels[i].id)
  {
    hide Binds, Canonical, Touched, ToSupersede, SupersededIds, Items, CleanLabels;
    var items := Items(v, labels, input);
    var after := Committed(v, labels, rows, artifact, items);
    if rows[j].artifact == artifact {
      OldRowAfter(v, labels, rows, artifact, items, j);
      if BoundAt(v, labels, rows, artifact, j, labels[i].id) {
        TouchedIsSuperseded(v, labels, rows, artifact, input, i, j);
      }
    }
  }

  // ---------------------------------------------------------------- untouched claims

  lemma BaseRowUnbound(v: Vocabulary, labels: seq<Label>, rows: seq<Row>, artifact: string, input: Input, id: string)
    requires AllTouched(v, labels, input) == []
    ensures !BoundAt(v, labels, Committed(v, labels, rows, artifact, Items(v, labels, input)), artifact, |rows|, id)
  {
    hide Binds, Canonical, SupersededIds, ClaimItem, AllTouched;
    var it := Items(v, labels, input)[0];
    assert Committed(v, labels, rows, artifact, Items(v, labels, input))[|rows|] == Row(artifact, Canonical(it));
    UntouchedRunBindsNothing(v, labels, input, id);
    CanonicalTwice(it);
    CanonicalMeansTheSame(v, labels, it, id);
  }

  /** An old row still bound after the run was bound before it. */
  lemma OldRowWasBound(v: Vocabulary, labels: seq<Label>, rows: seq<Row>, artifact: string, items: seq<Item>, k: nat, id: string)
    requires UniqueIds(rows) && k < |rows| && BoundAt(v, labels, Committed(v, labels, rows, artifact, items), artifact, k, id)
    ensures BoundAt(v, labels, rows, artifact, k, id)
    ensures Committed(v, labels, rows, artifact, items)[k] == rows[k]
    ensures !ToSupersede(v, labels, Canonical(rows[k].item), items)
  {
    hide Binds, Canonical, ToSupersede, SupersededIds;
    OldRowAfter(v, labels, rows, artifact, items, k);
  }

  lemma BoundInRange(v: Vocabulary, labels: seq<Label>, rows: seq<Row>, artifact: string, items: seq<Item>, k: nat, id: string)
    requires BoundAt(v, labels, Committed(v, labels, rows, artifact, items), artifact, k, id)
    ensures k < |rows| + |items|
  {
  }

  /** A row that the run wrote binds at most one claim. */
  lemma NewRowIsSingle(v: Vocabulary, labels: seq<Label>, rows: seq<Row>, artifact: string, input: Input, k: nat, x: string, y: string)
    requires CleanLabels(labels) && k >= |rows|
    requires BoundAt(v, labels, Committed(v, labels, rows, artifact, Items(v, labels, input)), artifact, k, x)
    requires BoundAt(v, labels, Committed(v, labels, rows, artifact, Items(v, labels, input)), artifact, k, y)
    ensures x == y
  {
    hide *;
    var list := AllTouched(v, labels, input);
    BoundInRange(v, labels, rows, artifact, Items(v, labels, input), k, x);
    if list == [] {
      BaseRowUnbound(v, labels, rows, artifact, input, x);
    } else {
      NewRowBinds(v, labels, rows, artifact, input, k - |rows|, x);
      NewRowBinds(v, labels, rows, artifact, input, k - |rows|, y);
    }
  }

  /** Every run keeps the property that a measurement in force binds at most one claim. */
  lemma SingleBindingsKept(v: Vocabulary, labels: seq<Label>, rows: seq<Row>, artifact: string, input: Input)
    requires CleanLabels(labels) && UniqueIds(rows) && SingleBindings(v, labels, rows, artifact)
    ensures SingleBindings(v, labels, Committed(v, labels, rows, artifact, Items(v, labels, input)), artifact)
  {
    hide BoundAt, Items, AllTouched, CleanLabels, Committed;
    var items := Items(v, labels, input);
    var after := Committed(v, labels, rows, artifact, items);
    forall k: nat, x, y | BoundAt(v, labels, after, artifact, k, x) && BoundAt(v, labels, after, artifact, k, y) ensures x == y {
      if k < |rows| {
        OldRowWasBound(v, labels, rows, artifact, items, k, x);
        OldRowWasBound(v, labels, rows, artifact, items, k, y);
      } else {
        NewRowIsSingle(v, labels, rows, artifact, input, k, x, y);
      }
    }
  }
}
