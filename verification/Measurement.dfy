/** Measuring a decision: the forecast of surviving evidence in memory, and what the commit makes of the table. */
module Measurement {
  import opened Text
  import opened Lists
  import opened Sorting
  import opened Claims
  import opened Evidence

  const MEASUREMENT := "measurement"

  // ---------------------------------------------------------------- rows

  datatype Row = Row(artifact: string, item: Item)

  function CanonicalVerdict(kind: string, verdict: string): string {
    var t := Trim(verdict);
    if Lower(Trim(kind)) != MEASUREMENT then t
    else if t == "accepted" then "supports"
    else if t == "partial" then "weakens"
    else if t == "failed" then "refutes"
    else t
  }

  /** The older words for a measurement's verdict are written as the newer ones; anything else is only trimmed. */
  lemma OlderWords(kind: string, verdict: string)
    ensures Lower(Trim(kind)) == "measurement" ==>
              CanonicalVerdict(kind, verdict) == if Trim(verdict) == "accepted" then "supports"
                                                 else if Trim(verdict) == "partial" then "weakens"
                                                 else if Trim(verdict) == "failed" then "refutes"
                                                 else Trim(verdict)
    ensures Lower(Trim(kind)) != "measurement" ==> CanonicalVerdict(kind, verdict) == Trim(verdict)
  {
    hide Trim, Lower;
  }

  /** What a row is written as, and what it reads as. */
  function Canonical(it: Item): Item {
    it.(verdict := CanonicalVerdict(it.kind, it.verdict), refs := Dedupe(it.refs), scope := NormalizeScope(it.scope))
  }

  /** The evidence of an artifact, newest first. */
  function ReadRows(rows: seq<Row>, artifact: string): seq<Item> {
    if rows == [] then []
    else
      var last := rows[|rows| - 1];
      (if last.artifact == artifact then [Canonical(last.item)] else []) + ReadRows(rows[..|rows| - 1], artifact)
  }

  lemma {:induction false} ReadRowsMembers(rows: seq<Row>, artifact: string, it: Item)
    ensures it in ReadRows(rows, artifact) <==> exists r :: r in rows && r.artifact == artifact && Canonical(r.item) == it
    decreases |rows|
  {
    hide Canonical;
    if rows != [] {
      ReadRowsMembers(rows[..|rows| - 1], artifact, it);
      assert rows == rows[..|rows| - 1] + [rows[|rows| - 1]];
    }
  }

  lemma ScopeTwice(scope: seq<string>)
    ensures NormalizeScope(NormalizeScope(scope)) == NormalizeScope(scope)
    ensures forall s :: s in NormalizeScope(scope) <==> s in Dedupe(scope)
  {
    hide Trim, Sort, Dedupe;
    var d := Dedupe(scope);
    DedupeTrims(scope);
    DedupeIsUnique(scope);
    SortKeepsMembers(d);
    SortOfDistinct(d);
    var n := Sort(d);
    DedupeTrims(n);
    DedupeIsUnique(n);
    forall s ensures s in Dedupe(n) <==> s in n {
      DedupeMembers(n, s);
    }
    SortKeepsMembers(Dedupe(n));
    SortOfDistinct(Dedupe(n));
    StrictlySortedUnique(Sort(Dedupe(n)), n);
  }

  lemma DedupeMembers(values: seq<string>, s: string)
    requires forall v :: v in values ==> v != "" && Trim(v) == v
    ensures s in Dedupe(values) <==> s in values
  {
    hide Trim;
    if s in Dedupe(values) {
      var i :| 0 <= i < |values| && Trims(values)[i] == s;
      assert values[i] in values;
    }
    DedupeTrims(values);
  }

  lemma CanonicalTwice(it: Item)
    ensures Canonical(Canonical(it)) == Canonical(it)
  {
    hide Trim, Lower, Dedupe, NormalizeScope;
    TrimTwice(it.verdict);
    PlainVerdicts();
    DedupeTwice(it.refs);
    ScopeTwice(it.scope);
  }

  lemma PlainVerdicts()
    ensures Trim("supports") == "supports" && Trim("weakens") == "weakens" && Trim("refutes") == "refutes"
    ensures Trim(SUPERSEDED) == SUPERSEDED
  {
    hide Trim;
    forall s | s == "supports" || s == "weakens" || s == "refutes" || s == SUPERSEDED ensures Trim(s) == s {
      assert |s| > 0 && 'a' <= s[0] <= 'z' && 'a' <= s[|s| - 1] <= 'z';
      TrimIsTrimmed(s);
    }
  }

  /** Canonicalisation changes neither what an item is bound to nor the class of its verdict. */
  lemma CanonicalMeansTheSame(v: Vocabulary, labels: seq<Label>, it: Item, id: string)
    ensures Binds(v, labels, Canonical(it), id) <==> Binds(v, labels, it, id)
    ensures ClassOf(Canonical(it).verdict) == ClassOf(it.verdict)
    ensures Active(Canonical(it)) <==> Trim(it.verdict) != SUPERSEDED
  {
    hide Trim, Lower, Dedupe, NormalizeScope, ScopeIds;
    TrimTwice(it.verdict);
    PlainVerdicts();
    DedupeTwice(it.refs);
    ScopeTwice(it.scope);
  }

  // ---------------------------------------------------------------- superseding and inserting

  /** A measurement in force that overlaps an incoming one. */
  predicate ToSupersede(v: Vocabulary, labels: seq<Label>, existing: Item, incoming: seq<Item>) {
    existing.kind == MEASUREMENT && Active(existing) && Overlaps(v, labels, existing, incoming)
  }

  function SupersededIds(v: Vocabulary, labels: seq<Label>, items: seq<Item>, incoming: seq<Item>): (ids: set<string>) {
    set it | it in items && ToSupersede(v, labels, it, incoming) :: it.id
  }

  /** The in-memory forecast of the evidence in force after the measurement. */
  function Forecast(v: Vocabulary, labels: seq<Label>, items: seq<Item>, incoming: seq<Item>): seq<Item> {
    if items == [] then incoming
    else
      (if Active(items[0]) && !ToSupersede(v, labels, items[0], incoming) then [items[0]] else [])
      + Forecast(v, labels, items[1..], incoming)
  }

  lemma {:induction false} ForecastMembers(v: Vocabulary, labels: seq<Label>, items: seq<Item>, incoming: seq<Item>, it: Item)
    ensures it in Forecast(v, labels, items, incoming) <==>
              || (it in items && Active(it) && !ToSupersede(v, labels, it, incoming))
              || it in incoming
  {
    hide ToSupersede;
    if items != [] {
      ForecastMembers(v, labels, items[1..], incoming, it);
      assert items == [items[0]] + items[1..];
    }
  }

  function Supersede(rows: seq<Row>, ids: set<string>): (r: seq<Row>)
    ensures |r| == |rows|
    ensures forall i :: 0 <= i < |rows| ==>
              r[i] == if rows[i].item.id in ids then rows[i].(item := rows[i].item.(verdict := SUPERSEDED)) else rows[i]
  {
    seq(|rows|, i requires 0 <= i < |rows| =>
      if rows[i].item.id in ids then rows[i].(item := rows[i].item.(verdict := SUPERSEDED)) else rows[i])
  }

  function NewRows(artifact: string, items: seq<Item>): (r: seq<Row>)
    ensures |r| == |items| && forall i :: 0 <= i < |items| ==> r[i] == Row(artifact, Canonical(items[i]))
  {
    seq(|items|, i requires 0 <= i < |items| => Row(artifact, Canonical(items[i])))
  }

  /** The evidence table after a committed measurement. */
  function Committed(v: Vocabulary, labels: seq<Label>, rows: seq<Row>, artifact: string, items: seq<Item>): seq<Row> {
    Supersede(rows, SupersededIds(v, labels, ReadRows(rows, artifact), items)) + NewRows(artifact, items)
  }

  ghost predicate UniqueIds(rows: seq<Row>) {
    forall i, j :: 0 <= i < j < |rows| ==> rows[i].item.id != rows[j].item.id
  }

  /** One old row after the commit: superseded exactly when its own reading was to be superseded. */
  lemma OldRowAfter(v: Vocabulary, labels: seq<Label>, rows: seq<Row>, artifact: string, items: seq<Item>, i: nat)
    requires UniqueIds(rows) && i < |rows| && rows[i].artifact == artifact
    ensures var r := Supersede(rows, SupersededIds(v, labels, ReadRows(rows, artifact), items))[i];
            if ToSupersede(v, labels, Canonical(rows[i].item), items) then !Active(Canonical(r.item))
            else r == rows[i]
  {
    hide ToSupersede, CanonicalVerdict, Dedupe, NormalizeScope, ReadRows;
    var read := ReadRows(rows, artifact);
    var own := Canonical(rows[i].item);
    ReadRowsMembers(rows, artifact, own);
    assert rows[i] in rows;
    if own.id in SupersededIds(v, labels, read, items) {
      var it :| it in read && ToSupersede(v, labels, it, items) && it.id == own.id;
      ReadRowsMembers(rows, artifact, it);
      var r :| r in rows && r.artifact == artifact && Canonical(r.item) == it;
      var j :| 0 <= j < |rows| && rows[j] == r;
      assert i == j;
      SupersededIsRead(rows[i].item);
    }
  }

  lemma SupersededIsRead(it: Item)
    ensures !Active(Canonical(it.(verdict := SUPERSEDED)))
  {
    hide Trim, Lower, Dedupe, NormalizeScope;
    PlainVerdicts();
  }

  // ---------------------------------------------------------------- the forecast agrees with the table

  /** Items whose verdict is the word superseded with blanks around it are in force in memory but not once
      stored; such an item may be committed only if it binds no claim. */
  ghost predicate Faithful(v: Vocabulary, labels: seq<Label>, items: seq<Item>) {
    forall it :: it in items ==> (Active(Canonical(it)) == Active(it)) || forall id :: !Binds(v, labels, it, id)
  }

  /** A forecast item not among the new ones is read from an old row that the commit leaves alone. */
  lemma KeptIsRead(v: Vocabulary, labels: seq<Label>, rows: seq<Row>, artifact: string, items: seq<Item>, it: Item)
    requires UniqueIds(rows) && it in ReadRows(rows, artifact) && !ToSupersede(v, labels, it, items)
    ensures it in ReadRows(Committed(v, labels, rows, artifact, items), artifact)
  {
    hide Canonical, ToSupersede, Supersede, NewRows, ReadRows, SupersededIds;
    var after := Committed(v, labels, rows, artifact, items);
    ReadRowsMembers(rows, artifact, it);
    var r :| r in rows && r.artifact == artifact && Canonical(r.item) == it;
    var i :| 0 <= i < |rows| && rows[i] == r;
    OldRowAfter(v, labels, rows, artifact, items, i);
    assert after[i] == rows[i];
    ReadRowsMembers(after, artifact, it);
  }

  /** A new item is read back in its canonical form. */
  lemma NewIsRead(v: Vocabulary, labels: seq<Label>, rows: seq<Row>, artifact: string, items: seq<Item>, it: Item)
    requires it in items
    ensures Canonical(it) in ReadRows(Committed(v, labels, rows, artifact, items), artifact)
  {
    hide Canonical, Supersede, ReadRows, SupersededIds;
    var after := Committed(v, labels, rows, artifact, items);
    var k :| 0 <= k < |items| && items[k] == it;
    assert after[|rows| + k] == Row(artifact, Canonical(it));
    CanonicalTwice(it);
    ReadRowsMembers(after, artifact, Canonical(it));
  }

  lemma BornBefore(v: Vocabulary, labels: seq<Label>, rows: seq<Row>, artifact: string, items: seq<Item>, id: string, c: Class)
    requires UniqueIds(rows) && Faithful(v, labels, items)
    requires Bears(v, labels, Forecast(v, labels, ReadRows(rows, artifact), items), id, c)
    ensures Bears(v, labels, ReadRows(Committed(v, labels, rows, artifact, items), artifact), id, c)
  {
    hide Canonical, Active, Binds, ClassOf, ToSupersede, ReadRows, Forecast, Committed;
    var read := ReadRows(rows, artifact);
    var it :| it in Forecast(v, labels, read, items) && Active(it) && Binds(v, labels, it, id) && ClassOf(it.verdict) == c;
    ForecastMembers(v, labels, read, items, it);
    CanonicalMeansTheSame(v, labels, it, id);
    if it in items {
      NewIsRead(v, labels, rows, artifact, items, it);
    } else {
      KeptIsRead(v, labels, rows, artifact, items, it);
    }
  }

  lemma CommittedLength(v: Vocabulary, labels: seq<Label>, rows: seq<Row>, artifact: string, items: seq<Item>)
    ensures |Committed(v, labels, rows, artifact, items)| == |rows| + |items|
  {
    hide SupersededIds, ReadRows;
  }

  /** An old row that bears on a claim after the commit is one that the forecast keeps. */
  lemma BornFromOldRow(v: Vocabulary, labels: seq<Label>, rows: seq<Row>, artifact: string, items: seq<Item>, i: nat, id: string, c: Class)
    requires UniqueIds(rows) && i < |rows| && i < |Committed(v, labels, rows, artifact, items)|
    requires Committed(v, labels, rows, artifact, items)[i].artifact == artifact
    requires var it := Canonical(Committed(v, labels, rows, artifact, items)[i].item);
             Active(it) && Binds(v, labels, it, id) && ClassOf(it.verdict) == c
    ensures Bears(v, labels, Forecast(v, labels, ReadRows(rows, artifact), items), id, c)
  {
    hide Canonical, Active, Binds, ClassOf, ToSupersede, NewRows, SupersededIds, ReadRows, Forecast;
    OldRowAfter(v, labels, rows, artifact, items, i);
    var own := Canonical(rows[i].item);
    assert rows[i] in rows;
    ReadRowsMembers(rows, artifact, own);
    ForecastMembers(v, labels, ReadRows(rows, artifact), items, own);
  }

  lemma BornFromNewRow(v: Vocabulary, labels: seq<Label>, rows: seq<Row>, artifact: string, items: seq<Item>, k: nat, id: string, c: Class)
    requires Faithful(v, labels, items) && k < |items| && |rows| + k < |Committed(v, labels, rows, artifact, items)|
    requires var it := Canonical(Committed(v, labels, rows, artifact, items)[|rows| + k].item);
             Active(it) && Binds(v, labels, it, id) && ClassOf(it.verdict) == c
    ensures Bears(v, labels, Forecast(v, labels, ReadRows(rows, artifact), items), id, c)
  {
    hide Canonical, Active, Binds, ClassOf, SupersededIds, ReadRows, Forecast, ToSupersede;
    var own := items[k];
    assert Committed(v, labels, rows, artifact, items)[|rows| + k] == Row(artifact, Canonical(own));
    CanonicalTwice(own);
    CanonicalMeansTheSame(v, labels, own, id);
    ForecastMembers(v, labels, ReadRows(rows, artifact), items, own);
    assert own in items;
  }

  lemma BornAfter(v: Vocabulary, labels: seq<Label>, rows: seq<Row>, artifact: string, items: seq<Item>, id: string, c: Class)
    requires UniqueIds(rows) && Faithful(v, labels, items)
    requires Bears(v, labels, ReadRows(Committed(v, labels, rows, artifact, items), artifact), id, c)
    ensures Bears(v, labels, Forecast(v, labels, ReadRows(rows, artifact), items), id, c)
  {
    hide Canonical, Active, Binds, ClassOf, ToSupersede, Committed, ReadRows, Forecast, UniqueIds, Faithful;
    var after := Committed(v, labels, rows, artifact, items);
    var it :| it in ReadRows(after, artifact) && Active(it) && Binds(v, labels, it, id) && ClassOf(it.verdict) == c;
    ReadRowsMembers(after, artifact, it);
    var r :| r in after && r.artifact == artifact && Canonical(r.item) == it;
    var i :| 0 <= i < |after| && after[i] == r;
    CommittedLength(v, labels, rows, artifact, items);
    if i < |rows| {
      BornFromOldRow(v, labels, rows, artifact, items, i, id, c);
    } else {
      BornFromNewRow(v, labels, rows, artifact, items, i - |rows|, id, c);
    }
  }

  /** The statuses forecast in memory are those the committed table gives, for all claims. */
  lemma ForecastAgrees(v: Vocabulary, claims: seq<Claim>, rows: seq<Row>, artifact: string, items: seq<Item>)
    requires Normal(claims) && UniqueIds(rows) && Faithful(v, Labels(claims), items)
    ensures var labels := Labels(claims);
            Rebuild(v, claims, Forecast(v, labels, ReadRows(rows, artifact), items))
            == Rebuild(v, claims, ReadRows(Committed(v, labels, rows, artifact, items), artifact))
  {
    hide Bears, Committed, Forecast, ReadRows, Normal;
    var labels := Labels(claims);
    forall id, c
      ensures Bears(v, labels, Forecast(v, labels, ReadRows(rows, artifact), items), id, c)
          <==> Bears(v, labels, ReadRows(Committed(v, labels, rows, artifact, items), artifact), id, c)
    {
      if Bears(v, labels, Forecast(v, labels, ReadRows(rows, artifact), items), id, c) {
        BornBefore(v, labels, rows, artifact, items, id, c);
      }
      if Bears(v, labels, ReadRows(Committed(v, labels, rows, artifact, items), artifact), id, c) {
        BornAfter(v, labels, rows, artifact, items, id, c);
      }
    }
  }
}
