/** The evidence table and the stored decisions, changed in place by measurement runs. A run commits entirely or
    not at all. */
module EvidenceStores {
  import opened Text
  import opened Lists
  import opened Claims
  import opened Evidence
  import opened Measurement
  import opened Measuring
  import opened TouchedClaims

  // ---------------------------------------------------------------- building the items of a run

  method Resolve(v: Vocabulary, labels: seq<Label>, index: map<string, nat>, value: string) returns (r: Index)
    requires IsAliasIndex(v, labels, index)
    ensures r == ResolveAlias(v, labels, value)
  {
    hide Owner;
    var keys := v.aliasKeys(value);
    for j := 0 to |keys|
      invariant FirstOwned(v, labels, keys) == FirstOwned(v, labels, keys[j..])
    {
      if keys[j] in index {
        return At(index[keys[j]]);
      }
    }
    r := NoIndex;
  }

  method MatchCriteria(v: Vocabulary, labels: seq<Label>, index: map<string, nat>, values: seq<string>)
    returns (matches: seq<bool>)
    requires IsAliasIndex(v, labels, index)
    ensures |matches| == |labels| && forall i: nat :: i < |labels| ==> matches[i] == Matched(v, labels, values, i)
  {
    hide ResolveAlias, IsAliasIndex;
    matches := seq(|labels|, _ => false);
    for j := 0 to |values|
      invariant |matches| == |labels|
      invariant forall i: nat :: i < |labels| ==> matches[i] == Matched(v, labels, values[..j], i)
    {
      assert values[..j + 1] == values[..j] + [values[j]];
      var r := Resolve(v, labels, index, values[j]);
      if r.At? {
        matches := matches[r.i := true];
      }
    }
    assert values[..|values|] == values;
  }

  function Numbered(v: Vocabulary, labels: seq<Label>, input: Input, list: seq<nat>): (items: seq<Item>)
    requires forall k :: 0 <= k < |list| ==> list[k] < |labels|
    ensures |items| == |list|
    ensures forall k :: 0 <= k < |list| ==> items[k] == ClaimItem(v, labels, input, list[k], k)
  {
    seq(|list|, k requires 0 <= k < |list| => ClaimItem(v, labels, input, list[k], k))
  }

  /** One more claim: no item if it is not touched, else the item with the next number. */
  lemma NumberedStep(v: Vocabulary, labels: seq<Label>, input: Input, i: nat)
    requires i < |labels|
    ensures var marks := Marks(v, labels, input);
            var before := Numbered(v, labels, input, Marked(marks[..i]));
            Numbered(v, labels, input, Marked(marks[..i + 1]))
            == if marks[i] then before + [ClaimItem(v, labels, input, i, |before|)] else before
  {
    hide ClaimItem, Touched;
    var marks := Marks(v, labels, input);
    assert marks[..i + 1][..i] == marks[..i];
  }

  lemma NumberedStart(v: Vocabulary, labels: seq<Label>, input: Input)
    ensures Numbered(v, labels, input, Marked(Marks(v, labels, input)[..0])) == []
  {
  }

  lemma NumberedEnd(v: Vocabulary, labels: seq<Label>, input: Input)
    ensures var numbered := Numbered(v, labels, input, Marked(Marks(v, labels, input)[..|labels|]));
            Items(v, labels, input)
            == if numbered == [] then [Item(input.id, MEASUREMENT, input.verdict, Congruence(input), [], CoverageScope(input))]
               else numbered
  {
    hide ClaimItem, Touched, CoverageScope;
    var marks := Marks(v, labels, input);
    assert marks[..|labels|] == marks;
  }

  /** One item for each claim met or not met, numbered in claim order; without any, the one item of the run. */
  method MeasurementItems(v: Vocabulary, labels: seq<Label>, input: Input) returns (items: seq<Item>)
    ensures items == Items(v, labels, input)
  {
    hide Matched, ClaimItem, CoverageScope, NormalizeScope, Marked, Items, Numbered, IsAliasIndex;
    var index := BuildAliasIndex(v, labels);
    var met := MatchCriteria(v, labels, index, input.met + NormalizeScope(input.metScope));
    var notMet := MatchCriteria(v, labels, index, input.notMet + NormalizeScope(input.notMetScope));
    items := [];
    NumberedStart(v, labels, input);
    for i := 0 to |labels|
      invariant items == Numbered(v, labels, input, Marked(Marks(v, labels, input)[..i]))
    {
      NumberedStep(v, labels, input, i);
      if met[i] || notMet[i] {
        items := items + [ClaimItem(v, labels, input, i, |items|)];
      }
    }
    NumberedEnd(v, labels, input);
    if items == [] {
      items := [Item(input.id, MEASUREMENT, input.verdict, Congruence(input), [], CoverageScope(input))];
    }
  }

  // ---------------------------------------------------------------- forecasting

  method OverlapsAny(v: Vocabulary, labels: seq<Label>, existing: Item, incoming: seq<Item>) returns (overlaps: bool)
    ensures overlaps == Overlaps(v, labels, existing, incoming)
  {
    hide BindingKeys, KeysOverlap;
    var keys := BindingKeys(v, labels, existing);
    for j := 0 to |incoming|
      invariant forall it :: it in incoming[..j] ==> !KeysOverlap(keys, BindingKeys(v, labels, it))
    {
      if KeysOverlap(keys, BindingKeys(v, labels, incoming[j])) {
        return true;
      }
      assert incoming[..j + 1] == incoming[..j] + [incoming[j]];
    }
    assert incoming[..|incoming|] == incoming;
    overlaps := false;
  }

  lemma NothingStored(v: Vocabulary, labels: seq<Label>, incoming: seq<Item>)
    ensures Forecast(v, labels, [], incoming) == incoming
  {
  }

  lemma ForecastStep(v: Vocabulary, labels: seq<Label>, items: seq<Item>, incoming: seq<Item>, i: nat)
    requires i < |items|
    ensures Forecast(v, labels, items[i..], incoming) ==
            (if Active(items[i]) && !(items[i].kind == MEASUREMENT && Overlaps(v, labels, items[i], incoming)) then [items[i]] else [])
            + Forecast(v, labels, items[i + 1..], incoming)
  {
    hide Overlaps;
    assert items[i..][1..] == items[i + 1..];
  }

  /** The evidence in force after the run, predicted without writing anything. */
  method ForecastEvidence(v: Vocabulary, labels: seq<Label>, items: seq<Item>, incoming: seq<Item>) returns (active: seq<Item>)
    ensures active == Forecast(v, labels, items, incoming)
  {
    hide Overlaps, Forecast;
    active := [];
    for i := 0 to |items|
      invariant Forecast(v, labels, items, incoming) == active + Forecast(v, labels, items[i..], incoming)
    {
      ForecastStep(v, labels, items, incoming, i);
      var item := items[i];
      if Active(item) {
        if item.kind != MEASUREMENT {
          active := active + [item];
        } else {
          var overlaps := OverlapsAny(v, labels, item, incoming);
          if !overlaps {
            active := active + [item];
          }
        }
      }
    }
    assert items[|items|..] == [];
    NothingStored(v, labels, incoming);
    active := active + incoming;
  }

  // ---------------------------------------------------------------- the store

  lemma SupersededStep(v: Vocabulary, labels: seq<Label>, items: seq<Item>, incoming: seq<Item>, i: nat)
    requires i < |items|
    ensures SupersededIds(v, labels, items[..i + 1], incoming) ==
            SupersededIds(v, labels, items[..i], incoming)
            + if ToSupersede(v, labels, items[i], incoming) then {items[i].id} else {}
  {
    hide ToSupersede;
    assert items[..i + 1] == items[..i] + [items[i]];
  }

  method IdsToSupersede(v: Vocabulary, labels: seq<Label>, items: seq<Item>, incoming: seq<Item>) returns (ids: seq<string>)
    ensures (set id | id in ids) == SupersededIds(v, labels, items, incoming)
  {
    hide Overlaps;
    ids := [];
    for i := 0 to |items|
      invariant (set id | id in ids) == SupersededIds(v, labels, items[..i], incoming)
    {
      SupersededStep(v, labels, items, incoming, i);
      var item := items[i];
      if item.kind == MEASUREMENT && Active(item) {
        var overlaps := OverlapsAny(v, labels, item, incoming);
        if overlaps {
          ids := ids + [item.id];
        }
      }
    }
    assert items[..|items|] == items;
  }

  /** Supporting evidence may not be stored at the lowest congruence level. */
  predicate Refused(item: Item) {
    item.congruence == 0 && Lower(Trim(CanonicalVerdict(item.kind, item.verdict))) == "supports"
  }

  /** In words: at level 0 what supports is refused, in the older word too, and what weakens or refutes is not. */
  lemma RefusedWords(item: Item)
    ensures item.congruence != 0 ==> !Refused(item)
    ensures item.congruence == 0 && item.verdict == "supports" ==> Refused(item)
    ensures item.congruence == 0 && item.verdict == "accepted" && item.kind == "measurement" ==> Refused(item)
    ensures item.verdict in {"weakens", "refutes", "partial", "failed", "inconclusive"} ==> !Refused(item)
  {
    hide Trim, Lower;
    PlainWords();
    OlderWords(item.kind, item.verdict);
  }

  lemma PlainWords()
    ensures forall w :: w in {"supports", "accepted", "weakens", "refutes", "partial", "failed", "inconclusive", "measurement"} ==>
              Trim(w) == w && Lower(w) == w
  {
    hide Trim, Lower;
    PlainWord("supports");
    PlainWord("accepted");
    PlainWord("weakens");
    PlainWord("refutes");
    PlainWord("partial");
    PlainWord("failed");
    PlainWord("inconclusive");
    PlainWord("measurement");
  }

  predicate HoldsId(rows: seq<Row>, id: string) {
    exists r :: r in rows && r.item.id == id
  }

  /** The items can be inserted one after the other: none is refused and every identifier is new. */
  ghost predicate Insertable(rows: seq<Row>, items: seq<Item>) {
    && (forall i :: 0 <= i < |items| ==> !Refused(items[i]) && !HoldsId(rows, items[i].id))
    && (forall i, j :: 0 <= i < j < |items| ==> items[i].id != items[j].id)
  }

  function ClaimsOf(stored: Fields): (claims: seq<Claim>)
    ensures Normal(claims)
  {
    NormalizeIsNormal(stored.claims);
    NormalizeIsNormal(FromPredictions(stored.predictions));
    Unmarshal(stored).claims
  }

  lemma SupersedeKeepsIds(rows: seq<Row>, ids: set<string>)
    ensures UniqueIds(rows) ==> UniqueIds(Supersede(rows, ids))
    ensures forall id :: HoldsId(Supersede(rows, ids), id) <==> HoldsId(rows, id)
  {
    hide Supersede;
    var after := Supersede(rows, ids);
    forall id ensures HoldsId(after, id) <==> HoldsId(rows, id) {
      if r :| r in rows && r.item.id == id {
        var i :| 0 <= i < |rows| && rows[i] == r;
        assert after[i] in after && after[i].item.id == id;
      }
      if r :| r in after && r.item.id == id {
        var i :| 0 <= i < |after| && after[i] == r;
        assert rows[i] in rows && rows[i].item.id == id;
      }
    }
  }

  /** After the first `j` items a new identifier is one that neither the old rows nor those items hold. */
  lemma AppendedIds(rows: seq<Row>, kept: seq<Row>, artifact: string, items: seq<Item>, j: nat)
    requires j < |items| && forall id :: HoldsId(kept, id) <==> HoldsId(rows, id)
    ensures HoldsId(kept + NewRows(artifact, items[..j]), items[j].id) <==>
              HoldsId(rows, items[j].id) || exists i :: 0 <= i < j && items[i].id == items[j].id
  {
    hide CanonicalVerdict, NormalizeScope, Dedupe;
    var added, id := NewRows(artifact, items[..j]), items[j].id;
    if i :| 0 <= i < j && items[i].id == id {
      assert added[i].item.id == id && added[i] in kept + added;
    }
    if r :| r in kept && r.item.id == id {
      assert r in kept + added;
    }
    if r :| r in added && r.item.id == id {
      var i :| 0 <= i < |added| && added[i] == r;
      assert items[i].id == id;
    }
  }

  lemma NothingInsertable(rows: seq<Row>)
    ensures Insertable(rows, [])
  {
  }

  lemma NotInsertable(rows: seq<Row>, items: seq<Item>, j: nat)
    requires j < |items|
    requires Refused(items[j]) || HoldsId(rows, items[j].id) || exists i :: 0 <= i < j && items[i].id == items[j].id
    ensures !Insertable(rows, items)
  {
    hide Refused, HoldsId;
  }

  /** Which items can be inserted depends only on the identifiers taken. */
  lemma InsertableAlike(a: seq<Row>, b: seq<Row>, items: seq<Item>)
    requires forall id :: HoldsId(a, id) <==> HoldsId(b, id)
    ensures Insertable(a, items) <==> Insertable(b, items)
  {
    hide Refused, HoldsId;
  }

  lemma InsertableStep(rows: seq<Row>, items: seq<Item>, j: nat)
    requires j < |items| && Insertable(rows, items[..j]) && !Refused(items[j]) && !HoldsId(rows, items[j].id)
    requires forall i :: 0 <= i < j ==> items[i].id != items[j].id
    ensures Insertable(rows, items[..j + 1])
  {
    hide Refused, HoldsId;
  }

  /** Rebuilt claims are read back from the store as they were rebuilt. */
  lemma StoredClaims(v: Vocabulary, claims: seq<Claim>, items: seq<Item>)
    requires Normal(claims)
    ensures var updated := Rebuild(v, claims, items);
            && ClaimsOf(Marshal(Fields(updated, PredictionsFromClaims(updated)))) == updated
            && Labels(updated) == Labels(claims)
  {
    hide Normalize, Rebuild;
    var updated := Rebuild(v, claims, items);
    RebuildKeepsLabels(v, claims, items);
    NormalIsFixed(updated);
    var f := Fields(updated, PredictionsFromClaims(updated));
    MarshalRoundTrip(f);
    if updated == [] {
      NothingFromNothing();
    }
  }

  /** Supported if the criteria that name the claim were met, refuted if they were not, weakened if both. */
  predicate HasMeasuredStatus(v: Vocabulary, labels: seq<Label>, input: Input, i: nat, stored: seq<Claim>) {
    && i < |stored|
    && (IsMet(v, labels, input, i) && !IsNotMet(v, labels, input, i) ==> stored[i].status == "supported")
    && (!IsMet(v, labels, input, i) && IsNotMet(v, labels, input, i) ==> stored[i].status == "refuted")
    && (IsMet(v, labels, input, i) && IsNotMet(v, labels, input, i) ==> stored[i].status == "weakened")
  }

  lemma MeasuredStatuses(v: Vocabulary, claims: seq<Claim>, rows: seq<Row>, decision: string, input: Input)
    requires Normal(claims) && UniqueIds(rows)
    ensures var labels := Labels(claims);
            var after := ReadRows(Committed(v, labels, rows, decision, Items(v, labels, input)), decision);
            forall i: nat :: i < |claims| && Touched(v, labels, input, i)
                             && NothingLasting(v, labels, ReadRows(rows, decision), claims[i].id) ==>
              HasMeasuredStatus(v, labels, input, i, Rebuild(v, claims, after))
  {
    hide Normal, UniqueIds, Touched, IsMet, IsNotMet, Items, Committed, ReadRows, NothingLasting, StatusFor, CleanLabels;
    var labels := Labels(claims);
    var after := ReadRows(Committed(v, labels, rows, decision, Items(v, labels, input)), decision);
    NormalClaimsHaveCleanLabels(claims);
    forall i: nat | i < |claims| && Touched(v, labels, input, i)
                    && NothingLasting(v, labels, ReadRows(rows, decision), claims[i].id)
      ensures HasMeasuredStatus(v, labels, input, i, Rebuild(v, claims, after))
    {
      MeasuredStatus(v, labels, rows, decision, input, i);
    }
  }

  class EvidenceStore {
    const v: Vocabulary
    var rows: seq<Row>
    var decisions: map<string, Fields>

    ghost predicate Valid()
      reads this
    {
      UniqueIds(rows)
    }

    constructor (v: Vocabulary)
      ensures Valid() && this.v == v && rows == [] && decisions == map[]
    {
      this.v := v;
      rows := [];
      decisions := map[];
    }

    method SupersedeByIds(ids: seq<string>)
      modifies this`rows
      ensures rows == Supersede(old(rows), set id | id in ids)
    {
      for j := 0 to |ids|
        invariant rows == Supersede(old(rows), set id | id in ids[..j])
      {
        assert ids[..j + 1] == ids[..j] + [ids[j]];
        rows := Supersede(rows, {ids[j]});
      }
      assert ids[..|ids|] == ids;
    }

    method AddItem(artifact: string, item: Item) returns (ok: bool)
      requires Valid()
      modifies this`rows
      ensures Valid()
      ensures ok <==> !Refused(item) && !HoldsId(old(rows), item.id)
      ensures rows == if ok then old(rows) + [Row(artifact, Canonical(item))] else old(rows)
    {
      hide Refused, CanonicalVerdict, NormalizeScope, Dedupe;
      ok := !Refused(item) && !HoldsId(rows, item.id);
      if ok {
        forall i | 0 <= i < |rows| ensures rows[i].item.id != item.id {
          assert rows[i] in rows;
        }
        rows := rows + [Row(artifact, Canonical(item))];
      }
    }

    /** Inserts the items one after the other, up to the first that cannot be. */
    method AddItems(artifact: string, items: seq<Item>) returns (ok: bool)
      requires Valid()
      modifies this`rows
      ensures Valid()
      ensures ok <==> Insertable(old(rows), items)
      ensures ok ==> rows == old(rows) + NewRows(artifact, items)
    {
      hide Refused, Canonical, Insertable, HoldsId;
      ghost var kept := rows;
      assert items[..0] == [];
      NothingInsertable(kept);
      for j := 0 to |items|
        invariant Valid() && rows == kept + NewRows(artifact, items[..j])
        invariant Insertable(kept, items[..j])
      {
        AppendedIds(kept, kept, artifact, items, j);
        var added := AddItem(artifact, items[j]);
        if !added {
          NotInsertable(kept, items, j);
          return false;
        }
        assert items[..j + 1] == items[..j] + [items[j]];
        InsertableStep(kept, items, j);
      }
      assert items[..|items|] == items;
      ok := true;
    }

    /** Stores the decision and its measurement in one transaction, or changes nothing. */
    method CommitMeasurement(decision: string, stored: Fields, items: seq<Item>) returns (ok: bool)
      requires Valid()
      modifies this`rows, this`decisions
      ensures Valid()
      ensures ok <==> decision in old(decisions) && Insertable(old(rows), items)
      ensures !ok ==> rows == old(rows) && decisions == old(decisions)
      ensures ok ==> decisions == old(decisions)[decision := stored]
      ensures ok ==> rows == Committed(v, Labels(ClaimsOf(stored)), old(rows), decision, items)
    {
      hide ClaimsOf, Insertable, UniqueIds;
      var rowsBefore, decisionsBefore := rows, decisions;
      if decision !in decisions {
        return false;
      }
      decisions := decisions[decision := stored];
      var labels := Labels(ClaimsOf(stored));
      var ids := IdsToSupersede(v, labels, ReadRows(rows, decision), items);
      SupersedeByIds(ids);
      SupersedeKeepsIds(rowsBefore, set id | id in ids);
      InsertableAlike(rowsBefore, rows, items);
      ok := AddItems(decision, items);
      if !ok {
        rows, decisions := rowsBefore, decisionsBefore;
      }
    }

    /** Records a measurement: forecasts the surviving evidence, rebuilds the claims from it and commits. What is
        stored agrees with the evidence table left behind, although the commit never saw the forecast. */
    method Measure(decision: string, input: Input) returns (ok: bool)
      requires Valid()
      modifies this`rows, this`decisions
      ensures Valid()
      ensures ok <==>
                && decision != "" && input.findings != "" && input.verdict != "" && decision in old(decisions)
                && Insertable(old(rows), Items(v, Labels(ClaimsOf(old(decisions)[decision])), input))
      ensures !ok ==> rows == old(rows) && decisions == old(decisions)
      ensures ok ==>
                var claims := ClaimsOf(old(decisions)[decision]);
                && rows == Committed(v, Labels(claims), old(rows), decision, Items(v, Labels(claims), input))
                && decision in decisions && decisions == old(decisions)[decision := decisions[decision]]
                && ClaimsOf(decisions[decision]) == Rebuild(v, claims, ReadRows(rows, decision))
      ensures ok ==>
                var claims := ClaimsOf(old(decisions)[decision]);
                forall i: nat :: i < |claims| && Touched(v, Labels(claims), input, i)
                                 && NothingLasting(v, Labels(claims), ReadRows(old(rows), decision), claims[i].id) ==>
                  HasMeasuredStatus(v, Labels(claims), input, i, ClaimsOf(decisions[decision]))
    {
      hide Canonical, ClaimsOf, Insertable, Items, Marshal, Normal, Faithful, HasMeasuredStatus, Touched, NothingLasting;
      if decision == "" || input.findings == "" || input.verdict == "" || decision !in decisions {
        return false;
      }
      var claims := ClaimsOf(decisions[decision]);
      var labels := Labels(claims);
      var items := MeasurementItems(v, labels, input);
      var active := ForecastEvidence(v, labels, ReadRows(rows, decision), items);
      var updated := RebuildClaims(v, claims, active);
      var stored := Marshal(Fields(updated, PredictionsFromClaims(updated)));
      StoredClaims(v, claims, active);
      NormalClaimsHaveCleanLabels(claims);
      ItemsAreFaithful(v, labels, input);
      ForecastAgrees(v, claims, rows, decision, items);
      MeasuredStatuses(v, claims, rows, decision, input);
      ok := CommitMeasurement(decision, stored, items);
    }
  }
}
