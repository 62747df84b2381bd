/** What status a measurement run gives the claims it touches. */
module TouchedClaims {
  import opened Text
  import opened Claims
  import opened Evidence
  import opened Measurement
  import opened Measuring

  /** The class of what a run writes for a claim whose criteria were met, not met, or both. */
  function MeasuredClass(met: bool, notMet: bool): Class {
    if met && notMet then Weaken else if met then Support else Refute
  }

  /** Evidence in force of the claim, other than a measurement. */
  ghost predicate Lasting(v: Vocabulary, labels: seq<Label>, items: seq<Item>, id: string, c: Class) {
    exists it :: it in items && it.kind != MEASUREMENT && Active(it) && Binds(v, labels, it, id) && ClassOf(it.verdict) == c
  }

  /** Only measurements stand for the claim, if anything does. */
  ghost predicate NothingLasting(v: Vocabulary, labels: seq<Label>, items: seq<Item>, id: string) {
    forall c :: !Lasting(v, labels, items, id, c)
  }

  lemma ClassOfWords()
    ensures ClassOf("supports") == Support && ClassOf("weakens") == Weaken && ClassOf("refutes") == Refute
    ensures ClassOf("accepted") == Support && ClassOf("partial") == Weaken && ClassOf("failed") == Refute
    ensures ClassOf("unclear") == Other
  {
    hide Trim;
    PlainWord("supports");
    PlainWord("weakens");
    PlainWord("refutes");
    PlainWord("accepted");
    PlainWord("partial");
    PlainWord("failed");
    PlainWord("unclear");
  }

  lemma ItemClass(v: Vocabulary, labels: seq<Label>, input: Input, i: nat, p: nat)
    requires i < |labels| && Touched(v, labels, input, i)
    ensures ClassOf(ClaimItem(v, labels, input, i, p).verdict)
            == MeasuredClass(IsMet(v, labels, input, i), IsNotMet(v, labels, input, i))
  {
    hide ClassOf, IsMet, IsNotMet;
    ClassOfWords();
  }

  /** The new item of a touched claim stands for it after the run. */
  lemma NewEvidence(v: Vocabulary, labels: seq<Label>, rows: seq<Row>, artifact: string, input: Input, i: nat)
    requires CleanLabels(labels) && i < |labels| && Touched(v, labels, input, i)
    ensures Bears(v, labels, ReadRows(Committed(v, labels, rows, artifact, Items(v, labels, input)), artifact), labels[i].id,
                  MeasuredClass(IsMet(v, labels, input, i), IsNotMet(v, labels, input, i)))
  {
    hide Binds, Canonical, Touched, IsMet, IsNotMet, ClaimItem, CleanLabels, AllTouched, Items, Committed, ReadRows, ClassOf, Active;
    var p := TouchedIsListed(v, labels, input, i);
    var it := Items(v, labels, input)[p];
    assert it == ClaimItem(v, labels, input, i, p) && it in Items(v, labels, input);
    ItemClass(v, labels, input, i, p);
    ClaimItemBindsItsClaim(v, labels, input, i, p, labels[i].id);
    NewIsRead(v, labels, rows, artifact, Items(v, labels, input), it);
    CanonicalMeansTheSame(v, labels, it, labels[i].id);
  }

  /** Whatever else stands for a touched claim after the run is no measurement and stood for it before. */
  lemma OtherEvidence(v: Vocabulary, labels: seq<Label>, rows: seq<Row>, artifact: string, input: Input, i: nat, c: Class)
    requires CleanLabels(labels) && UniqueIds(rows) && i < |labels| && Touched(v, labels, input, i)
    requires Bears(v, labels, ReadRows(Committed(v, labels, rows, artifact, Items(v, labels, input)), artifact), labels[i].id, c)
    requires c != MeasuredClass(IsMet(v, labels, input, i), IsNotMet(v, labels, input, i))
    ensures Lasting(v, labels, ReadRows(rows, artifact), labels[i].id, c)
  {
    hide Binds, Canonical, Touched, IsMet, IsNotMet, ClaimItem, CleanLabels, AllTouched, Items, Committed, ReadRows, ClassOf, Active,
         Forecast, Faithful, ToSupersede;
    var items, id := Items(v, labels, input), labels[i].id;
    ItemsAreFaithful(v, labels, input);
    BornAfter(v, labels, rows, artifact, items, id, c);
    var it :| it in Forecast(v, labels, ReadRows(rows, artifact), items) && Active(it) && Binds(v, labels, it, id)
              && ClassOf(it.verdict) == c;
    ForecastMembers(v, labels, ReadRows(rows, artifact), items, it);
    if it in items {
      NewItemClass(v, labels, input, i, it);
    } else if it.kind == MEASUREMENT {
      MeasurementIsSuperseded(v, labels, it, input, i);
    }
  }

  lemma NewItemClass(v: Vocabulary, labels: seq<Label>, input: Input, i: nat, it: Item)
    requires CleanLabels(labels) && i < |labels| && Touched(v, labels, input, i)
    requires it in Items(v, labels, input) && Binds(v, labels, it, labels[i].id)
    ensures ClassOf(it.verdict) == MeasuredClass(IsMet(v, labels, input, i), IsNotMet(v, labels, input, i))
  {
    hide Binds, Touched, IsMet, IsNotMet, ClaimItem, CleanLabels, AllTouched, ClassOf, Items;
    var list := AllTouched(v, labels, input);
    var p: nat :| p < |Items(v, labels, input)| && Items(v, labels, input)[p] == it;
    var q := TouchedIsListed(v, labels, input, i);
    ClaimItemBindsItsClaim(v, labels, input, list[p], p, labels[i].id);
    SameLabel(labels, i, list[p]);
    ItemClass(v, labels, input, i, p);
  }

  lemma SameLabel(labels: seq<Label>, i: nat, j: nat)
    requires CleanLabels(labels) && i < |labels| && j < |labels| && labels[i].id == labels[j].id
    ensures i == j
  {
    hide Trim;
  }

  lemma MeasurementIsSuperseded(v: Vocabulary, labels: seq<Label>, it: Item, input: Input, i: nat)
    requires CleanLabels(labels) && i < |labels| && Touched(v, labels, input, i)
    requires it.kind == MEASUREMENT && Active(it) && Binds(v, labels, it, labels[i].id)
    ensures ToSupersede(v, labels, it, Items(v, labels, input))
  {
    hide Binds, Touched, ClaimItem, BindingKeys, CleanLabels, AllTouched, Items, KeysOverlap, Active;
    var p := TouchedIsListed(v, labels, input, i);
    var written := Items(v, labels, input)[p];
    assert written == ClaimItem(v, labels, input, i, p) && written in Items(v, labels, input);
    ClaimItemBindsItsClaim(v, labels, input, i, p, labels[i].id);
    SharedClaimOverlaps(v, labels, it, written, i);
  }

  /** After a run, what stands for a touched claim is what the run found and its lasting evidence. */
  lemma TouchedEvidence(v: Vocabulary, labels: seq<Label>, rows: seq<Row>, artifact: string, input: Input, i: nat, c: Class)
    requires CleanLabels(labels) && UniqueIds(rows) && i < |labels| && Touched(v, labels, input, i)
    ensures Bears(v, labels, ReadRows(Committed(v, labels, rows, artifact, Items(v, labels, input)), artifact), labels[i].id, c)
        <==> c == MeasuredClass(IsMet(v, labels, input, i), IsNotMet(v, labels, input, i))
             || Lasting(v, labels, ReadRows(rows, artifact), labels[i].id, c)
  {
    hide Binds, Canonical, Touched, IsMet, IsNotMet, CleanLabels, Items, Committed, ReadRows, ClassOf, Active, MeasuredClass, Bears,
         Overlaps;
    if c == MeasuredClass(IsMet(v, labels, input, i), IsNotMet(v, labels, input, i)) {
      NewEvidence(v, labels, rows, artifact, input, i);
    } else if Lasting(v, labels, ReadRows(rows, artifact), labels[i].id, c) {
      LastingStays(v, labels, rows, artifact, input, i, c);
    } else if Bears(v, labels, ReadRows(Committed(v, labels, rows, artifact, Items(v, labels, input)), artifact), labels[i].id, c) {
      OtherEvidence(v, labels, rows, artifact, input, i, c);
    }
  }

  lemma LastingStays(v: Vocabulary, labels: seq<Label>, rows: seq<Row>, artifact: string, input: Input, i: nat, c: Class)
    requires UniqueIds(rows) && i < |labels| && Lasting(v, labels, ReadRows(rows, artifact), labels[i].id, c)
    ensures Bears(v, labels, ReadRows(Committed(v, labels, rows, artifact, Items(v, labels, input)), artifact), labels[i].id, c)
  {
    hide Binds, Canonical, Items, Committed, ReadRows, ClassOf, Active, Overlaps;
    var it :| it in ReadRows(rows, artifact) && it.kind != MEASUREMENT && Active(it) && Binds(v, labels, it, labels[i].id)
              && ClassOf(it.verdict) == c;
    KeptIsRead(v, labels, rows, artifact, Items(v, labels, input), it);
  }

  // ---------------------------------------------------------------- statuses in words

  /** The status by the classes of verdict in force, in words. */
  lemma StatusWords(v: Vocabulary, labels: seq<Label>, items: seq<Item>, id: string)
    ensures var support, weaken, refute, other := Bears(v, labels, items, id, Support), Bears(v, labels, items, id, Weaken),
                                                  Bears(v, labels, items, id, Refute), Bears(v, labels, items, id, Other);
            var status := StatusFor(v, labels, items, id);
            && (support && refute ==> status == "weakened")
            && (refute && !support ==> status == "refuted")
            && (weaken && !refute ==> status == "weakened")
            && (support && !refute && !weaken ==> status == "supported")
            && (other && !support && !weaken && !refute ==> status == "inconclusive")
            && (!other && !support && !weaken && !refute ==> status == "unverified")
  {
    hide Bears;
  }

  /** Some evidence of the claim that is not superseded has one of the words as its verdict. */
  ghost predicate Says(v: Vocabulary, labels: seq<Label>, items: seq<Item>, id: string, words: set<string>) {
    exists it :: it in items && it.verdict != "superseded" && Binds(v, labels, it, id) && Trim(it.verdict) in words
  }

  ghost predicate SaysElse(v: Vocabulary, labels: seq<Label>, items: seq<Item>, id: string) {
    exists it :: it in items && it.verdict != "superseded" && Binds(v, labels, it, id)
                 && Trim(it.verdict) !in {"supports", "accepted", "weakens", "partial", "refutes", "failed"}
  }

  lemma BearsSays(v: Vocabulary, labels: seq<Label>, items: seq<Item>, id: string)
    ensures Bears(v, labels, items, id, Support) <==> Says(v, labels, items, id, {"supports", "accepted"})
    ensures Bears(v, labels, items, id, Weaken) <==> Says(v, labels, items, id, {"weakens", "partial"})
    ensures Bears(v, labels, items, id, Refute) <==> Says(v, labels, items, id, {"refutes", "failed"})
    ensures Bears(v, labels, items, id, Other) <==> SaysElse(v, labels, items, id)
  {
    hide Binds, Trim;
  }

  /** The status of a claim by the words in force. Words for and against it weaken it; words against it alone refute it;
      a weakening word weakens what is not refuted; words for it alone support it. */
  lemma StatusByWords(v: Vocabulary, labels: seq<Label>, items: seq<Item>, id: string)
    ensures var support := Says(v, labels, items, id, {"supports", "accepted"});
            var weaken := Says(v, labels, items, id, {"weakens", "partial"});
            var refute := Says(v, labels, items, id, {"refutes", "failed"});
            StatusFor(v, labels, items, id) == if refute then if support then "weakened" else "refuted"
                                               else if weaken then "weakened"
                                               else if support then "supported"
                                               else if SaysElse(v, labels, items, id) then "inconclusive"
                                               else "unverified"
  {
    hide Bears, Says, SaysElse;
    BearsSays(v, labels, items, id);
    StatusWords(v, labels, items, id);
  }

  /** The status of a touched claim with no lasting evidence: supported if its criteria were met, refuted if they were
      not, weakened if some were and some were not. */
  lemma MeasuredStatus(v: Vocabulary, labels: seq<Label>, rows: seq<Row>, artifact: string, input: Input, i: nat)
    requires CleanLabels(labels) && UniqueIds(rows) && i < |labels| && Touched(v, labels, input, i)
    requires NothingLasting(v, labels, ReadRows(rows, artifact), labels[i].id)
    ensures var met, notMet := IsMet(v, labels, input, i), IsNotMet(v, labels, input, i);
            var status := StatusFor(v, labels, ReadRows(Committed(v, labels, rows, artifact, Items(v, labels, input)), artifact),
                                    labels[i].id);
            && (met && !notMet ==> status == "supported")
            && (notMet && !met ==> status == "refuted")
            && (met && notMet ==> status == "weakened")
  {
    hide Touched, IsMet, IsNotMet, CleanLabels, Items, Committed, ReadRows, Lasting, Bears, StatusFor, UniqueIds;
    var after := ReadRows(Committed(v, labels, rows, artifact, Items(v, labels, input)), artifact);
    forall c {
      TouchedEvidence(v, labels, rows, artifact, input, i, c);
    }
    StatusWords(v, labels, after, labels[i].id);
  }

  // ---------------------------------------------------------------- runs that touch no claim

  ghost predicate BindsNone(v: Vocabulary, labels: seq<Label>, it: Item) {
    forall i :: 0 <= i < |labels| ==> !Binds(v, labels, it, labels[i].id)
  }

  lemma NoKeysIff(v: Vocabulary, labels: seq<Label>, it: Item)
    ensures BindingKeys(v, labels, it) == {} <==> BindsNone(v, labels, it)
  {
    hide Binds, BindingKey;
    if i :| 0 <= i < |labels| && Binds(v, labels, it, labels[i].id) {
      BoundInKeys(v, labels, it, i);
    }
    if key :| key in BindingKeys(v, labels, it) {
      var id :| id in LabelIds(labels) && Binds(v, labels, it, id) && BindingKey(labels, id) == key;
      var l :| l in labels && l.id == id;
      var i :| 0 <= i < |labels| && labels[i] == l;
    }
  }

  lemma BaseItemBindsNone(v: Vocabulary, labels: seq<Label>, input: Input)
    requires AllTouched(v, labels, input) == []
    ensures BindsNone(v, labels, Items(v, labels, input)[0])
  {
    hide Binds, Items, AllTouched;
    forall i | 0 <= i < |labels| {
      UntouchedRunBindsNothing(v, labels, input, labels[i].id);
    }
  }

  /** A run that touches no claim supersedes the measurements that are bound to no claim, and no other evidence. */
  lemma UntouchedRunSupersedes(v: Vocabulary, labels: seq<Label>, it: Item, input: Input)
    requires forall i :: 0 <= i < |labels| ==> !Touched(v, labels, input, i)
    ensures ToSupersede(v, labels, it, Items(v, labels, input)) <==>
              it.kind == "measurement" && it.verdict != "superseded" && BindsNone(v, labels, it)
  {
    hide Binds, BindingKeys, BindsNone, Touched, Items, AllTouched;
    var items := Items(v, labels, input);
    OneItemInFull(v, labels, input);
    assert items == [items[0]];
    BaseItemBindsNone(v, labels, input);
    NoKeysIff(v, labels, items[0]);
    NoKeysIff(v, labels, it);
  }
}
