/** What a measurement run does to claims it does not touch: which evidence they lose, and when their status stays. */
module UntouchedClaims {
  import opened Text
  import opened Lists
  import opened Claims
  import opened Evidence
  import opened Measurement
  import opened Measuring

  // ---------------------------------------------------------------- reading the committed table

  lemma ReadRowsLast(rows: seq<Row>, last: Row, artifact: string)
    ensures ReadRows(rows + [last], artifact) == ReadRows([last], artifact) + ReadRows(rows, artifact)
  {
    hide Canonical;
    assert (rows + [last])[..|rows|] == rows && [last][..0] == [];
  }

  lemma {:induction false} ReadRowsAppend(a: seq<Row>, b: seq<Row>, artifact: string)
    ensures ReadRows(a + b, artifact) == ReadRows(b, artifact) + ReadRows(a, artifact)
    decreases |b|
  {
    hide ReadRows;
    if b == [] {
      assert a + b == a;
      NoRowsRead(artifact);
    } else {
      var init, last := b[..|b| - 1], b[|b| - 1];
      assert b == init + [last];
      assert a + b == a + init + [last];
      ReadRowsAppend(a, init, artifact);
      ReadRowsLast(a + init, last, artifact);
      ReadRowsLast(init, last, artifact);
    }
  }

  lemma NoRowsRead(artifact: string)
    ensures ReadRows([], artifact) == []
  {
  }

  lemma {:induction false} BoundAppend(v: Vocabulary, labels: seq<Label>, a: seq<Item>, b: seq<Item>, id: string)
    ensures BoundItems(v, labels, a + b, id) == BoundItems(v, labels, a, id) + BoundItems(v, labels, b, id)
    decreases |b|
  {
    hide Binds, Active;
    if b == [] {
      assert a + b == a;
    } else {
      BoundAppend(v, labels, a, b[..|b| - 1], id);
      assert (a + b)[..|a + b| - 1] == a + b[..|b| - 1];
    }
  }

  /** The items, in order, that the incoming ones do not supersede. */
  function Spared(v: Vocabulary, labels: seq<Label>, items: seq<Item>, incoming: seq<Item>): (r: seq<Item>)
    ensures |r| <= |items|
  {
    if items == [] then []
    else
      var last := items[|items| - 1];
      Spared(v, labels, items[..|items| - 1], incoming) + if ToSupersede(v, labels, last, incoming) then [] else [last]
  }

  lemma {:induction false} SparedAppend(v: Vocabulary, labels: seq<Label>, a: seq<Item>, b: seq<Item>, incoming: seq<Item>)
    ensures Spared(v, labels, a + b, incoming) == Spared(v, labels, a, incoming) + Spared(v, labels, b, incoming)
    decreases |b|
  {
    hide ToSupersede;
    if b == [] {
      assert a + b == a;
    } else {
      SparedAppend(v, labels, a, b[..|b| - 1], incoming);
      assert (a + b)[..|a + b| - 1] == a + b[..|b| - 1];
    }
  }

  lemma {:induction false} AllSparedIff(v: Vocabulary, labels: seq<Label>, items: seq<Item>, incoming: seq<Item>)
    ensures Spared(v, labels, items, incoming) == items <==> forall it :: it in items ==> !ToSupersede(v, labels, it, incoming)
    decreases |items|
  {
    hide ToSupersede;
    if items != [] {
      var init, last := items[..|items| - 1], items[|items| - 1];
      assert items == init + [last];
      AllSparedIff(v, labels, init, incoming);
      if !ToSupersede(v, labels, last, incoming) {
        assert (Spared(v, labels, init, incoming) + [last])[..|Spared(v, labels, init, incoming)|] == Spared(v, labels, init, incoming);
      }
    }
  }

  /** One row in place of another: the same, or out of force if the incoming items supersede it. */
  ghost predicate Settles(v: Vocabulary, labels: seq<Label>, before: Row, after: Row, artifact: string, incoming: seq<Item>) {
    && after.artifact == before.artifact
    && (before.artifact == artifact ==>
          if ToSupersede(v, labels, Canonical(before.item), incoming) then !Active(Canonical(after.item)) else after == before)
  }

  lemma OneRowSettled(v: Vocabulary, labels: seq<Label>, before: Row, after: Row, artifact: string, incoming: seq<Item>, id: string)
    requires Settles(v, labels, before, after, artifact, incoming)
    ensures BoundItems(v, labels, ReadRows([after], artifact), id)
            == Spared(v, labels, BoundItems(v, labels, ReadRows([before], artifact), id), incoming)
  {
    hide ToSupersede, Canonical, Active, Binds;
    assert [after][..0] == [] && [before][..0] == [];
    if before.artifact == artifact {
      var it := Canonical(before.item);
      assert [it][..0] == [] && [Canonical(after.item)][..0] == [];
    }
  }

  lemma {:induction false} OldRowsSettled(v: Vocabulary, labels: seq<Label>, before: seq<Row>, after: seq<Row>, artifact: string,
                                          incoming: seq<Item>, id: string)
    requires |after| == |before|
    requires forall k :: 0 <= k < |before| ==> Settles(v, labels, before[k], after[k], artifact, incoming)
    ensures BoundItems(v, labels, ReadRows(after, artifact), id)
            == Spared(v, labels, BoundItems(v, labels, ReadRows(before, artifact), id), incoming)
    decreases |before|
  {
    hide ReadRows, BoundItems, Spared, Settles;
    if before == [] {
      NothingRead(v, labels, artifact, incoming, id);
    } else {
      var n := |before| - 1;
      assert before == before[..n] + [before[n]] && after == after[..n] + [after[n]];
      OldRowsSettled(v, labels, before[..n], after[..n], artifact, incoming, id);
      OneRowSettled(v, labels, before[n], after[n], artifact, incoming, id);
      ReadRowsAppend(before[..n], [before[n]], artifact);
      ReadRowsAppend(after[..n], [after[n]], artifact);
      BoundAppend(v, labels, ReadRows([before[n]], artifact), ReadRows(before[..n], artifact), id);
      BoundAppend(v, labels, ReadRows([after[n]], artifact), ReadRows(after[..n], artifact), id);
      SparedAppend(v, labels, BoundItems(v, labels, ReadRows([before[n]], artifact), id),
                   BoundItems(v, labels, ReadRows(before[..n], artifact), id), incoming);
    }
  }

  lemma NothingRead(v: Vocabulary, labels: seq<Label>, artifact: string, incoming: seq<Item>, id: string)
    ensures BoundItems(v, labels, ReadRows([], artifact), id) == Spared(v, labels, BoundItems(v, labels, ReadRows([], artifact), id), incoming)
  {
  }

  /** What a run writes binds no untouched claim. */
  lemma NewItemBindsTouched(v: Vocabulary, labels: seq<Label>, input: Input, it: Item, i: nat)
    requires CleanLabels(labels) && it in Items(v, labels, input) && i < |labels| && !Touched(v, labels, input, i)
    ensures !Binds(v, labels, it, labels[i].id)
  {
    hide Binds, Touched, ClaimItem, CleanLabels, AllTouched, Items;
    var items, list := Items(v, labels, input), AllTouched(v, labels, input);
    var p :| 0 <= p < |items| && items[p] == it;
    if list == [] {
      UntouchedRunBindsNothing(v, labels, input, labels[i].id);
    } else {
      ListedIsTouched(v, labels, input, p);
      ClaimItemBindsItsClaim(v, labels, input, list[p], p, labels[i].id);
      if labels[list[p]].id == labels[i].id {
        LabelsApart(labels, list[p], i);
      }
    }
  }

  lemma LabelsApart(labels: seq<Label>, i: nat, j: nat)
    requires CleanLabels(labels) && i < |labels| && j < |labels| && labels[i].id == labels[j].id
    ensures i == j
  {
    hide Trim;
  }

  lemma NewRowsUnbound(v: Vocabulary, labels: seq<Label>, artifact: string, input: Input, i: nat)
    requires CleanLabels(labels) && i < |labels| && !Touched(v, labels, input, i)
    ensures BoundItems(v, labels, ReadRows(NewRows(artifact, Items(v, labels, input)), artifact), labels[i].id) == []
  {
    hide Binds, Canonical, Touched, CleanLabels, Items, ReadRows, BoundItems, Active;
    var items, id := Items(v, labels, input), labels[i].id;
    var read := ReadRows(NewRows(artifact, items), artifact);
    if BoundItems(v, labels, read, id) != [] {
      var it := BoundItems(v, labels, read, id)[0];
      BoundItemsAreTheBound(v, labels, read, id, it);
      ReadRowsMembers(NewRows(artifact, items), artifact, it);
      var r :| r in NewRows(artifact, items) && r.artifact == artifact && Canonical(r.item) == it;
      var k: nat :| k < |items| && NewRows(artifact, items)[k] == r;
      var own := items[k];
      assert own in items;
      CanonicalTwice(own);
      CanonicalMeansTheSame(v, labels, own, id);
      NewItemBindsTouched(v, labels, input, own, i);
    }
  }

  /** The evidence in force of an untouched claim after a run, in order: what was there before and is not superseded. */
  lemma UntouchedEvidence(v: Vocabulary, labels: seq<Label>, rows: seq<Row>, artifact: string, input: Input, i: nat)
    requires CleanLabels(labels) && UniqueIds(rows) && i < |labels| && !Touched(v, labels, input, i)
    ensures var items := Items(v, labels, input);
            BoundItems(v, labels, ReadRows(Committed(v, labels, rows, artifact, items), artifact), labels[i].id)
            == Spared(v, labels, BoundItems(v, labels, ReadRows(rows, artifact), labels[i].id), items)
  {
    hide Canonical, Touched, CleanLabels, Items, ReadRows, BoundItems, Spared, ToSupersede, SupersededIds, NewRows, Active;
    var items, id := Items(v, labels, input), labels[i].id;
    var settled := Supersede(rows, SupersededIds(v, labels, ReadRows(rows, artifact), items));
    forall k | 0 <= k < |rows| ensures Settles(v, labels, rows[k], settled[k], artifact, items) {
      if rows[k].artifact == artifact {
        OldRowAfter(v, labels, rows, artifact, items, k);
      }
    }
    OldRowsSettled(v, labels, rows, settled, artifact, items, id);
    ReadRowsAppend(settled, NewRows(artifact, items), artifact);
    BoundAppend(v, labels, ReadRows(NewRows(artifact, items), artifact), ReadRows(settled, artifact), id);
    NewRowsUnbound(v, labels, artifact, input, i);
  }

  // ---------------------------------------------------------------- what is superseded

  /** No touched claim has the binding key of the claim: a caller can compare the keys before the run. */
  ghost predicate KeyApart(v: Vocabulary, labels: seq<Label>, input: Input, i: nat)
    requires i < |labels|
  {
    forall j: nat :: j < |labels| && Touched(v, labels, input, j) ==> !SameKey(labels, i, j)
  }

  predicate SameKey(labels: seq<Label>, i: nat, j: nat)
    requires i < |labels| && j < |labels|
  {
    BindingKey(labels, labels[i].id) == BindingKey(labels, labels[j].id)
  }

  /** No identifier holds the separator of binding keys. */
  ghost predicate PlainIds(labels: seq<Label>) {
    forall l :: l in labels ==> '\0' !in l.id
  }

  /** Without the separator in identifiers no two claims share a key. */
  lemma PlainIdsKeepApart(v: Vocabulary, labels: seq<Label>, input: Input, i: nat)
    requires CleanLabels(labels) && PlainIds(labels) && i < |labels| && !Touched(v, labels, input, i)
    ensures KeyApart(v, labels, input, i)
  {
    hide Touched, CleanLabels, PlainIds;
    forall j: nat | j < |labels| && Touched(v, labels, input, j) ensures !SameKey(labels, i, j) {
      if SameKey(labels, i, j) {
        KeyNamesClaim(labels, i, j);
      }
    }
  }

  lemma KeyNamesClaim(labels: seq<Label>, i: nat, j: nat)
    requires CleanLabels(labels) && PlainIds(labels) && i < |labels| && j < |labels| && SameKey(labels, i, j)
    ensures i == j
  {
    hide Trim, ObservableOf;
    var a, b := labels[i], labels[j];
    assert a in labels && b in labels;
    SplitAtNul(a.id, b.id, Trim(ObservableOf(labels, a.id)), Trim(ObservableOf(labels, b.id)));
    LabelsApart(labels, i, j);
  }

  /** With it they can: the separator may stand in the identifier of one claim and in the observable of another. */
  lemma KeysCanClash()
    ensures var labels := [Label("a", "", "b\0c", ""), Label("a\0b", "", "c", "")];
            CleanLabels(labels) && SameKey(labels, 0, 1)
  {
    hide Trim;
    var labels := [Label("a", "", "b\0c", ""), Label("a\0b", "", "c", "")];
    var init := labels[..1];
    assert init[|init| - 1].id == "a" && labels[|labels| - 1].id == "a\0b" && |"a"| != |"a\0b"|;
    forall s | s == "a" || s == "a\0b" || s == "c" || s == "b\0c" ensures Trim(s) == s {
      assert 'a' <= s[0] <= 'c' && 'a' <= s[|s| - 1] <= 'c';
      TrimIsTrimmed(s);
    }
    assert "a" + "\0" + "b\0c" == "a\0b" + "\0" + "c";
  }

  /** An item bound to one claim alone has that claim's key alone. */
  lemma OneKey(v: Vocabulary, labels: seq<Label>, it: Item, i: nat)
    requires i < |labels| && forall id :: Binds(v, labels, it, id) <==> id == labels[i].id
    ensures BindingKeys(v, labels, it) == {BindingKey(labels, labels[i].id)}
  {
    hide Binds, BindingKey;
    BoundInKeys(v, labels, it, i);
  }

  lemma NewItemKeys(v: Vocabulary, labels: seq<Label>, input: Input, p: nat)
    requires CleanLabels(labels) && p < |AllTouched(v, labels, input)|
    ensures BindingKeys(v, labels, Items(v, labels, input)[p])
            == {BindingKey(labels, labels[AllTouched(v, labels, input)[p]].id)}
  {
    hide Binds, BindingKey, BindingKeys, ClaimItem, CleanLabels, AllTouched;
    var i, it := AllTouched(v, labels, input)[p], Items(v, labels, input)[p];
    forall id ensures Binds(v, labels, it, id) <==> id == labels[i].id {
      ClaimItemBindsItsClaim(v, labels, input, i, p, id);
    }
    OneKey(v, labels, it, i);
  }

  lemma NoKeys(v: Vocabulary, labels: seq<Label>, input: Input)
    requires AllTouched(v, labels, input) == []
    ensures BindingKeys(v, labels, Items(v, labels, input)[0]) == {}
  {
    hide Binds, BindingKey, ClaimItem, AllTouched;
    var it := Items(v, labels, input)[0];
    forall id ensures !Binds(v, labels, it, id) {
      UntouchedRunBindsNothing(v, labels, input, id);
    }
  }

  /** A measurement that binds some claim with the key of a touched one: a caller can see this before the run. */
  ghost predicate Caught(v: Vocabulary, labels: seq<Label>, input: Input, it: Item) {
    it.kind == MEASUREMENT && exists k: nat, j: nat :: Meet(v, labels, input, it, k, j)
  }

  predicate Meet(v: Vocabulary, labels: seq<Label>, input: Input, it: Item, k: nat, j: nat) {
    k < |labels| && j < |labels| && Binds(v, labels, it, labels[k].id) && Touched(v, labels, input, j) && SameKey(labels, k, j)
  }

  lemma KeyIsBound(v: Vocabulary, labels: seq<Label>, it: Item, key: string) returns (k: nat)
    requires key in BindingKeys(v, labels, it)
    ensures k < |labels| && Binds(v, labels, it, labels[k].id) && BindingKey(labels, labels[k].id) == key
  {
    hide Binds, BindingKey;
    var id :| id in LabelIds(labels) && Binds(v, labels, it, id) && BindingKey(labels, id) == key;
    var l :| l in labels && l.id == id;
    k :| 0 <= k < |labels| && labels[k] == l;
  }

  lemma OverlapMeets(v: Vocabulary, labels: seq<Label>, own: Item, input: Input, i: nat)
    requires CleanLabels(labels) && i < |labels| && Binds(v, labels, own, labels[i].id)
    requires Overlaps(v, labels, own, Items(v, labels, input))
    ensures exists k: nat, j: nat :: Meet(v, labels, input, own, k, j)
  {
    hide Binds, BindingKey, BindingKeys, CleanLabels, AllTouched, Items, Meet;
    var items, list := Items(v, labels, input), AllTouched(v, labels, input);
    var it :| it in items && KeysOverlap(BindingKeys(v, labels, own), BindingKeys(v, labels, it));
    BoundInKeys(v, labels, own, i);
    var key := SharedKey(BindingKeys(v, labels, own), BindingKeys(v, labels, it), BindingKey(labels, labels[i].id));
    var k := KeyIsBound(v, labels, own, key);
    var p: nat :| p < |items| && items[p] == it;
    if list == [] {
      NoKeys(v, labels, input);
    } else {
      MeetsAt(v, labels, own, input, k, p, key);
    }
  }

  lemma SharedKey(a: set<string>, b: set<string>, known: string) returns (key: string)
    requires KeysOverlap(a, b) && known in a
    ensures key in a && key in b
  {
    key :| key in a * b;
  }

  lemma MeetsAt(v: Vocabulary, labels: seq<Label>, own: Item, input: Input, k: nat, p: nat, key: string)
    requires CleanLabels(labels) && p < |AllTouched(v, labels, input)| && key in BindingKeys(v, labels, Items(v, labels, input)[p])
    requires k < |labels| && Binds(v, labels, own, labels[k].id) && BindingKey(labels, labels[k].id) == key
    ensures Meet(v, labels, input, own, k, AllTouched(v, labels, input)[p])
  {
    hide Binds, BindingKey, BindingKeys, CleanLabels, AllTouched, Items, Touched;
    NewItemKeys(v, labels, input, p);
    ListedIsTouched(v, labels, input, p);
  }

  lemma MeetOverlaps(v: Vocabulary, labels: seq<Label>, own: Item, input: Input, k: nat, j: nat)
    requires CleanLabels(labels) && Meet(v, labels, input, own, k, j)
    ensures Overlaps(v, labels, own, Items(v, labels, input))
  {
    hide Binds, BindingKey, BindingKeys, CleanLabels, AllTouched, Items, Touched;
    var p := TouchedIsListed(v, labels, input, j);
    NewItemKeys(v, labels, input, p);
    BoundInKeys(v, labels, own, k);
    var it := Items(v, labels, input)[p];
    assert BindingKey(labels, labels[k].id) in BindingKeys(v, labels, own) * BindingKeys(v, labels, it);
    assert it in Items(v, labels, input);
  }

  /** Evidence in force of a claim is superseded exactly if it is caught. */
  lemma SupersededIffCaught(v: Vocabulary, labels: seq<Label>, own: Item, input: Input, i: nat)
    requires CleanLabels(labels) && i < |labels| && Binds(v, labels, own, labels[i].id) && Active(own)
    ensures ToSupersede(v, labels, own, Items(v, labels, input)) <==> Caught(v, labels, input, own)
  {
    hide Binds, CleanLabels, Items, Meet, Overlaps, Active;
    if ToSupersede(v, labels, own, Items(v, labels, input)) {
      OverlapMeets(v, labels, own, input, i);
    }
    if Caught(v, labels, input, own) {
      var k: nat, j: nat :| Meet(v, labels, input, own, k, j);
      MeetOverlaps(v, labels, own, input, k, j);
    }
  }

  /** Whatever the table, an untouched claim keeps its evidence in force, in order, exactly if no measurement among it
      is caught. */
  lemma UntouchedEvidenceKeptIff(v: Vocabulary, labels: seq<Label>, rows: seq<Row>, artifact: string, input: Input, i: nat)
    requires CleanLabels(labels) && UniqueIds(rows) && i < |labels| && !Touched(v, labels, input, i)
    ensures var before := BoundItems(v, labels, ReadRows(rows, artifact), labels[i].id);
            var after := ReadRows(Committed(v, labels, rows, artifact, Items(v, labels, input)), artifact);
            BoundItems(v, labels, after, labels[i].id) == before <==> forall it :: it in before ==> !Caught(v, labels, input, it)
  {
    hide Binds, Touched, CleanLabels, Items, Committed, ReadRows, BoundItems, Spared, ToSupersede, Caught, Active;
    var read, items := ReadRows(rows, artifact), Items(v, labels, input);
    var before := BoundItems(v, labels, read, labels[i].id);
    UntouchedEvidence(v, labels, rows, artifact, input, i);
    AllSparedIff(v, labels, before, items);
    forall it | it in before ensures ToSupersede(v, labels, it, items) <==> Caught(v, labels, input, it) {
      BoundItemsAreTheBound(v, labels, read, labels[i].id, it);
      SupersededIffCaught(v, labels, it, input, i);
    }
  }

  // ---------------------------------------------------------------- the status

  /** The run leaves the status of the claim as its evidence already gave it. */
  ghost predicate KeepsStatus(v: Vocabulary, labels: seq<Label>, rows: seq<Row>, artifact: string, input: Input, i: nat)
    requires i < |labels|
  {
    StatusFor(v, labels, ReadRows(Committed(v, labels, rows, artifact, Items(v, labels, input)), artifact), labels[i].id)
    == StatusFor(v, labels, ReadRows(rows, artifact), labels[i].id)
  }

  lemma BearsByBound(v: Vocabulary, labels: seq<Label>, items: seq<Item>, id: string, c: Class)
    ensures Bears(v, labels, items, id, c) <==> exists it :: it in BoundItems(v, labels, items, id) && ClassOf(it.verdict) == c
  {
    hide Binds, ClassOf, Active, BoundItems;
    if Bears(v, labels, items, id, c) {
      var it :| it in items && Active(it) && Binds(v, labels, it, id) && ClassOf(it.verdict) == c;
      BoundItemsAreTheBound(v, labels, items, id, it);
    }
    if it :| it in BoundItems(v, labels, items, id) && ClassOf(it.verdict) == c {
      BoundItemsAreTheBound(v, labels, items, id, it);
    }
  }

  lemma StatusByBound(v: Vocabulary, labels: seq<Label>, a: seq<Item>, b: seq<Item>, id: string)
    requires BoundItems(v, labels, a, id) == BoundItems(v, labels, b, id)
    ensures StatusFor(v, labels, a, id) == StatusFor(v, labels, b, id)
  {
    hide ClassOf, StatusOf, BoundItems, Bears;
    forall c ensures Bears(v, labels, a, id, c) <==> Bears(v, labels, b, id, c) {
      BearsByBound(v, labels, a, id, c);
      BearsByBound(v, labels, b, id, c);
    }
  }

  /** Where no measurement in force binds two claims, only a shared key can catch the evidence of an untouched claim. */
  lemma SingleIsCaughtByKey(v: Vocabulary, labels: seq<Label>, rows: seq<Row>, artifact: string, input: Input, i: nat, it: Item)
    requires CleanLabels(labels) && SingleBindings(v, labels, rows, artifact) && i < |labels| && KeyApart(v, labels, input, i)
    requires it in BoundItems(v, labels, ReadRows(rows, artifact), labels[i].id)
    ensures !Caught(v, labels, input, it)
  {
    hide Binds, Canonical, CleanLabels, Touched, BoundItems, ReadRows, SameKey, Active;
    BoundItemsAreTheBound(v, labels, ReadRows(rows, artifact), labels[i].id, it);
    ReadRowsMembers(rows, artifact, it);
    var r :| r in rows && r.artifact == artifact && Canonical(r.item) == it;
    var n: nat :| n < |rows| && rows[n] == r;
    CanonicalKind(r.item);
    if k: nat, j: nat :| it.kind == MEASUREMENT && Meet(v, labels, input, it, k, j) {
      assert BoundAt(v, labels, rows, artifact, n, labels[i].id) && BoundAt(v, labels, rows, artifact, n, labels[k].id);
      LabelsApart(labels, i, k);
    }
  }

  /** While every measurement in force binds at most one claim, a run keeps the status of each untouched claim whose
      binding key is its own. */
  lemma UntouchedKeepsStatus(v: Vocabulary, labels: seq<Label>, rows: seq<Row>, artifact: string, input: Input, i: nat)
    requires CleanLabels(labels) && UniqueIds(rows) && SingleBindings(v, labels, rows, artifact)
    requires i < |labels| && !Touched(v, labels, input, i) && KeyApart(v, labels, input, i)
    ensures KeepsStatus(v, labels, rows, artifact, input, i)
  {
    hide Touched, CleanLabels, KeyApart, Items, Committed, ReadRows, SingleBindings, StatusFor, BoundItems, Caught;
    forall it | it in BoundItems(v, labels, ReadRows(rows, artifact), labels[i].id) ensures !Caught(v, labels, input, it) {
      SingleIsCaughtByKey(v, labels, rows, artifact, input, i, it);
    }
    UntouchedEvidenceKeptIff(v, labels, rows, artifact, input, i);
    StatusByBound(v, labels, ReadRows(Committed(v, labels, rows, artifact, Items(v, labels, input)), artifact),
                  ReadRows(rows, artifact), labels[i].id);
  }

  // ---------------------------------------------------------------- tables that lose a status

  /** One measurement that supports the claims. */
  function SupportOf(artifact: string, refs: seq<string>): Row {
    Row(artifact, Item("", MEASUREMENT, "supports", 1, refs, []))
  }

  ghost predicate CleanRefs(labels: seq<Label>, refs: seq<string>) {
    && refs != [] && (forall id :: id in refs ==> id != "" && Trim(id) == id && id in LabelIds(labels))
    && forall a, b :: 0 <= a < b < |refs| ==> refs[a] != refs[b]
  }

  lemma SupportBinds(v: Vocabulary, labels: seq<Label>, artifact: string, refs: seq<string>, id: string)
    requires CleanRefs(labels, refs)
    ensures var it := Canonical(SupportOf(artifact, refs).item);
            && (Binds(v, labels, it, id) <==> id in refs)
            && Active(it) && it.kind == MEASUREMENT && ClassOf(it.verdict) == Support
  {
    hide Trim, Lower, Unique, NormalizeScope, ScopeIds;
    var own := SupportOf(artifact, refs).item;
    assert Trims(refs) == refs;
    UniqueKeepsUnique(refs);
    PlainVerdicts();
    CanonicalMeansTheSame(v, labels, own, id);
  }

  lemma OneRowRead(row: Row)
    ensures ReadRows([row], row.artifact) == [Canonical(row.item)]
  {
    hide Canonical;
    assert [row][..0] == [];
  }

  lemma OneBound(v: Vocabulary, labels: seq<Label>, it: Item, id: string)
    requires Active(it) && Binds(v, labels, it, id)
    ensures BoundItems(v, labels, [it], id) == [it]
  {
    hide Active, Binds;
    assert [it][..0] == [];
  }

  lemma SparedNone(v: Vocabulary, labels: seq<Label>, it: Item, incoming: seq<Item>)
    requires ToSupersede(v, labels, it, incoming)
    ensures Spared(v, labels, [it], incoming) == []
  {
    hide ToSupersede;
    assert [it][..0] == [];
  }

  lemma StatusOfOne(v: Vocabulary, labels: seq<Label>, items: seq<Item>, id: string)
    ensures BoundItems(v, labels, items, id) == [] ==> StatusFor(v, labels, items, id) == UNVERIFIED
    ensures (exists it :: BoundItems(v, labels, items, id) == [it] && ClassOf(it.verdict) == Support) ==>
              StatusFor(v, labels, items, id) == SUPPORTED
  {
    hide ClassOf, BoundItems, Bears;
    BearsByBound(v, labels, items, id, Support);
    BearsByBound(v, labels, items, id, Weaken);
    BearsByBound(v, labels, items, id, Refute);
    BearsByBound(v, labels, items, id, Other);
  }

  /** A claim whose only evidence is caught falls from supported to unverified. */
  lemma CaughtLosesStatus(v: Vocabulary, labels: seq<Label>, artifact: string, refs: seq<string>, input: Input, i: nat, k: nat, j: nat)
    requires CleanLabels(labels) && CleanRefs(labels, refs) && i < |labels| && !Touched(v, labels, input, i)
    requires labels[i].id in refs && k < |labels| && labels[k].id in refs
    requires j < |labels| && Touched(v, labels, input, j) && SameKey(labels, k, j)
    ensures var rows, id := [SupportOf(artifact, refs)], labels[i].id;
            && UniqueIds(rows)
            && StatusFor(v, labels, ReadRows(rows, artifact), id) == SUPPORTED
            && StatusFor(v, labels, ReadRows(Committed(v, labels, rows, artifact, Items(v, labels, input)), artifact), id) == UNVERIFIED
  {
    hide Binds, Canonical, Touched, CleanLabels, CleanRefs, SameKey, Items, Committed, ReadRows, ClassOf, Active, ToSupersede,
         BoundItems, Spared, StatusFor;
    var row := SupportOf(artifact, refs);
    var it, id, items := Canonical(row.item), labels[i].id, Items(v, labels, input);
    SupportBinds(v, labels, artifact, refs, id);
    SupportBinds(v, labels, artifact, refs, labels[k].id);
    OneRowRead(row);
    OneBound(v, labels, it, id);
    StatusOfOne(v, labels, [it], id);
    assert Meet(v, labels, input, it, k, j);
    SupersededIffCaught(v, labels, it, input, i);
    UntouchedEvidence(v, labels, [row], artifact, input, i);
    SparedNone(v, labels, it, items);
    StatusOfOne(v, labels, ReadRows(Committed(v, labels, [row], artifact, items), artifact), id);
  }

  /** If a touched claim has the claim's key, a run supersedes the claim's own measurement. */
  lemma SharedKeyLosesStatus(v: Vocabulary, labels: seq<Label>, artifact: string, input: Input, i: nat)
    requires CleanLabels(labels) && i < |labels| && !Touched(v, labels, input, i) && !KeyApart(v, labels, input, i)
    ensures var rows := [SupportOf(artifact, [labels[i].id])];
            UniqueIds(rows) && SingleBindings(v, labels, rows, artifact) && !KeepsStatus(v, labels, rows, artifact, input, i)
  {
    hide Binds, Canonical, Touched, SameKey, Items, Committed, ReadRows, ClassOf, Active, StatusFor, Trim;
    var refs := [labels[i].id];
    assert labels[i] in labels;
    forall k: nat, x | BoundAt(v, labels, [SupportOf(artifact, refs)], artifact, k, x) ensures x == labels[i].id {
      SupportBinds(v, labels, artifact, refs, x);
    }
    var j: nat :| j < |labels| && Touched(v, labels, input, j) && SameKey(labels, i, j);
    CaughtLosesStatus(v, labels, artifact, refs, input, i, i, j);
    StatusesDiffer();
  }

  lemma StatusesDiffer()
    ensures SUPPORTED != UNVERIFIED
  {
    assert |SUPPORTED| != |UNVERIFIED|;
  }

  /** A measurement attached to two claims: measuring one of them costs the other its status, whatever the keys. */
  lemma SharedMeasurementLosesStatus(v: Vocabulary, labels: seq<Label>, artifact: string, input: Input, i: nat, j: nat)
    requires CleanLabels(labels) && i < |labels| && !Touched(v, labels, input, i)
    requires j < |labels| && Touched(v, labels, input, j)
    ensures var rows, id := [SupportOf(artifact, [labels[i].id, labels[j].id])], labels[i].id;
            && UniqueIds(rows)
            && StatusFor(v, labels, ReadRows(rows, artifact), id) == SUPPORTED
            && StatusFor(v, labels, ReadRows(Committed(v, labels, rows, artifact, Items(v, labels, input)), artifact), id) == UNVERIFIED
  {
    hide Binds, Canonical, Touched, Items, Committed, ReadRows, StatusFor, Trim;
    assert labels[i] in labels && labels[j] in labels;
    CaughtLosesStatus(v, labels, artifact, [labels[i].id, labels[j].id], input, i, j, j);
  }

  // ---------------------------------------------------------------- over all tables

  /** Every run keeps the status of an untouched claim, for all tables whose measurements in force bind one claim each,
      exactly if no touched claim has the claim's binding key. */
  lemma UntouchedKeepsStatusIff(v: Vocabulary, labels: seq<Label>, artifact: string, input: Input, i: nat)
    requires CleanLabels(labels) && i < |labels| && !Touched(v, labels, input, i)
    ensures (forall rows :: UniqueIds(rows) && SingleBindings(v, labels, rows, artifact) ==>
                              KeepsStatus(v, labels, rows, artifact, input, i))
            <==> KeyApart(v, labels, input, i)
  {
    hide Touched, CleanLabels, KeyApart, KeepsStatus, UniqueIds, SingleBindings;
    if KeyApart(v, labels, input, i) {
      forall rows | UniqueIds(rows) && SingleBindings(v, labels, rows, artifact)
        ensures KeepsStatus(v, labels, rows, artifact, input, i)
      {
        UntouchedKeepsStatus(v, labels, rows, artifact, input, i);
      }
    } else {
      SharedKeyLosesStatus(v, labels, artifact, input, i);
    }
  }

  /** For all tables it does so exactly if it touches no claim at all. */
  lemma AlwaysKeepsStatusIff(v: Vocabulary, labels: seq<Label>, artifact: string, input: Input, i: nat)
    requires CleanLabels(labels) && i < |labels| && !Touched(v, labels, input, i)
    ensures (forall rows :: UniqueIds(rows) ==> KeepsStatus(v, labels, rows, artifact, input, i))
            <==> forall j: nat :: j < |labels| ==> !Touched(v, labels, input, j)
  {
    hide Touched, CleanLabels, UniqueIds, StatusFor, Items, Committed, ReadRows, BoundItems, Binds, SameKey;
    if j: nat :| j < |labels| && Touched(v, labels, input, j) {
      SharedMeasurementLosesStatus(v, labels, artifact, input, i, j);
      StatusesDiffer();
    } else {
      forall rows | UniqueIds(rows) ensures KeepsStatus(v, labels, rows, artifact, input, i) {
        UntouchedEvidenceKeptIff(v, labels, rows, artifact, input, i);
        StatusByBound(v, labels, ReadRows(Committed(v, labels, rows, artifact, Items(v, labels, input)), artifact),
                      ReadRows(rows, artifact), labels[i].id);
      }
    }
  }
}
