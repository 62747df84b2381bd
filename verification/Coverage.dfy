/** Every compared variant must be explained: front members by a trade-off note, the others by a dominated
    entry, which the constraint pass adds for the variants it removed. */
module Coverage {
  import opened Text
  import opened Lists
  import opened Comparison
  import opened Pareto
  import opened ParetoFront
  import opened Elimination

  datatype Note = Note(variant: string, summary: string)

  /** How many of the notes are about `v`. */
  function Count(notes: seq<Note>, v: string): nat {
    if notes == [] then 0
    else Count(notes[..|notes| - 1], v) + if Trim(notes[|notes| - 1].variant) == v then 1 else 0
  }

  lemma {:induction false} CountAppend(a: seq<Note>, b: seq<Note>, v: string)
    ensures Count(a + b, v) == Count(a, v) + Count(b, v)
    decreases |b|
  {
    hide Trim;
    if b == [] {
      assert a + b == a;
    } else {
      CountAppend(a, b[..|b| - 1], v);
      assert (a + b)[..|a + b| - 1] == a + b[..|b| - 1];
    }
  }

  /** No variant has two notes, and each expected one has a note. */
  ghost predicate Covers(expected: seq<string>, notes: seq<Note>) {
    && (forall v :: v != "" ==> Count(notes, v) <= 1)
    && (forall v :: v in expected && v != "" ==> Count(notes, v) == 1)
  }

  method ValidateCoverage(expected: seq<string>, notes: seq<Note>) returns (ok: bool)
    requires "" !in expected
    ensures ok <==> Covers(expected, notes)
  {
    hide Trim;
    var seen: map<string, nat> := map[];
    var duplicate := false;
    ghost var twice := "";
    for i := 0 to |notes|
      invariant forall v :: v in seen <==> v != "" && Count(notes[..i], v) > 0
      invariant forall v :: v in seen ==> seen[v] == Count(notes[..i], v)
      invariant duplicate ==> twice in seen && seen[twice] > 1
      invariant !duplicate ==> forall v :: v in seen ==> seen[v] == 1
    {
      assert notes[..i + 1][..i] == notes[..i];
      var v := Trim(notes[i].variant);
      if v != "" {
        var n := if v in seen then seen[v] + 1 else 1;
        if n > 1 {
          duplicate := true;
          twice := v;
        }
        seen := seen[v := n];
      }
    }
    assert notes[..|notes|] == notes;
    ok := !duplicate && forall v :: v in expected ==> v in seen;
  }

  /** Each note names a compared variant and says something. */
  predicate NotesWellFormed(notes: seq<Note>, compared: seq<string>) {
    forall n :: n in notes ==> Trim(n.variant) != "" && Trim(n.variant) in compared && Trim(n.summary) != ""
  }

  datatype Submission = Submission(declared: seq<string>, table: Table, dims: seq<Dimension>, policy: string,
                                   callerFront: seq<string>, dominated: seq<Note>, tradeoffs: seq<Note>)

  datatype Stored = Rejected | Stored(front: seq<string>, dominated: seq<Note>, tradeoffs: seq<Note>, honoured: bool)

  function Summary(r: Reason): string {
    match r
    case Label(d, cell) => "Constraint violation: " + d + " (score: " + Trim(cell) + ")"
    case Worst(d, cell, other, otherCell) =>
      "violates constraint '" + d + "' (worst: " + cell + ", e.g. " + other + " has " + otherCell + ")"
  }

  /** Adds an entry for each removed variant that has none. */
  function Merge(notes: seq<Note>, removed: seq<string>, existing: set<string>, reasons: map<string, Reason>): (r: seq<Note>)
    requires forall v :: v in removed ==> v in reasons
    ensures notes <= r
  {
    if removed == [] then notes
    else
      var rest := Merge(notes, removed[..|removed| - 1], existing, reasons);
      var v := removed[|removed| - 1];
      if v in existing then rest else rest + [Note(v, Summary(reasons[v]))]
  }

  lemma {:induction false} MergeCounts(notes: seq<Note>, removed: seq<string>, existing: set<string>,
                                       reasons: map<string, Reason>, v: string)
    requires forall w :: w in removed ==> w in reasons && Trim(w) == w
    requires forall i, j :: 0 <= i < j < |removed| ==> removed[i] != removed[j]
    ensures Count(Merge(notes, removed, existing, reasons), v)
         == Count(notes, v) + if v in removed && v !in existing then 1 else 0
    decreases |removed|
  {
    hide Trim, Summary;
    if removed != [] {
      var init, w := removed[..|removed| - 1], removed[|removed| - 1];
      MergeCounts(notes, init, existing, reasons, v);
      assert removed == init + [w];
      var extra := [Note(w, Summary(reasons[w]))];
      CountAppend(Merge(notes, init, existing, reasons), extra, v);
      assert extra[..0] == [];
    }
  }

  lemma {:induction false} CountedIsNamed(notes: seq<Note>, v: string)
    ensures Count(notes, v) > 0 <==> exists n :: n in notes && Trim(n.variant) == v
    decreases |notes|
  {
    hide Trim;
    if notes != [] {
      var init, last := notes[..|notes| - 1], notes[|notes| - 1];
      CountedIsNamed(init, v);
      assert notes == init + [last];
    }
  }

  function NoteVariants(notes: seq<Note>): (s: set<string>)
    ensures forall v :: v in s <==> exists n :: n in notes && Trim(n.variant) == v
  {
    set n | n in notes :: Trim(n.variant)
  }

  function OnlyIn(variants: seq<string>, keep: set<string>): (r: seq<string>)
    requires forall i, j :: 0 <= i < j < |variants| ==> variants[i] != variants[j]
    ensures forall v :: v in r <==> v in variants && v in keep
    ensures forall i, j :: 0 <= i < j < |r| ==> r[i] != r[j]
  {
    if variants == [] then []
    else
      var rest := OnlyIn(variants[1..], keep);
      assert variants == [variants[0]] + variants[1..];
      if variants[0] in keep then [variants[0]] + rest else rest
  }

  /** One compared variant, once both coverage checks have passed. */
  lemma Accounted(compared: seq<string>, front: seq<string>, reasons: map<string, Reason>,
                  dominated: seq<Note>, tradeoffs: seq<Note>, removed: seq<string>, v: string)
    requires v in compared && v != "" && Trim(v) == v
    requires Covers(Dedupe(Without(Without(compared, reasons.Keys), set w | w in front)), dominated)
    requires Covers(Dedupe(front), tradeoffs)
    requires forall i, j :: 0 <= i < j < |removed| ==> removed[i] != removed[j]
    requires forall w :: w in removed ==> w in reasons && Trim(w) == w
    requires v in removed <==> v in reasons
    ensures v in front ==> Count(tradeoffs, v) == 1
    ensures v !in front ==> Count(Merge(dominated, removed, NoteVariants(dominated), reasons), v) == 1
  {
    hide Trim, Merge, Dedupe;
    if v in front {
      DedupeTrims(front);
    } else {
      var rest := Without(Without(compared, reasons.Keys), set w | w in front);
      DedupeTrims(rest);
      MergeCounts(dominated, removed, NoteVariants(dominated), reasons, v);
      CountedIsNamed(dominated, v);
    }
  }

  /** How often each variant has a dominated entry once the eliminated ones are merged in. */
  lemma Entries(dominated: seq<Note>, removed: seq<string>, reasons: map<string, Reason>)
    requires forall i, j :: 0 <= i < j < |removed| ==> removed[i] != removed[j]
    requires forall w :: w in removed ==> w in reasons && Trim(w) == w
    ensures forall v :: Count(Merge(dominated, removed, NoteVariants(dominated), reasons), v)
                        == Count(dominated, v) + if v in removed && Count(dominated, v) == 0 then 1 else 0
  {
    hide Trim, Merge, Count;
    forall v
      ensures Count(Merge(dominated, removed, NoteVariants(dominated), reasons), v)
              == Count(dominated, v) + if v in removed && Count(dominated, v) == 0 then 1 else 0
    {
      MergeCounts(dominated, removed, NoteVariants(dominated), reasons, v);
      CountedIsNamed(dominated, v);
    }
  }

  /** The caller's list is honoured if it is not empty and no dimension decides any pair. */
  ghost predicate Honours(s: Submission) {
    var c, field := Contest(s.table, s.dims, s.policy), Field(s.table, s.dims, Dedupe(s.declared));
    s.dims != [] && Dedupe(s.callerFront) != [] && forall name :: !EverComparable(c, field, |field|, 0, name)
  }

  /** The front that is stored: the caller's list when it is honoured, else the computed one. */
  ghost function FrontOfRecord(s: Submission): seq<string> {
    if Honours(s) then Dedupe(s.callerFront)
    else if s.dims == [] then Dedupe(s.declared)
    else Front(Contest(s.table, s.dims, s.policy), Field(s.table, s.dims, Dedupe(s.declared)))
  }

  /** The variants the constraints eliminated, also when the front falls back to everyone. */
  function Eliminated(s: Submission): set<string> {
    if s.dims == [] then {} else Removed(s.table, Constraints(s.dims), Dedupe(s.declared))
  }

  /** The variants whose absence from the front the caller must explain: those no constraint eliminated. */
  function Explained(s: Submission): seq<string> {
    Without(Dedupe(s.declared), Eliminated(s))
  }

  /** A front member can be among the eliminated only where the caller's front is honoured or everyone is out. */
  lemma EliminatedFrontMember(s: Submission, v: string)
    requires v in FrontOfRecord(s) && v in Eliminated(s)
    ensures Honours(s) || forall w :: w in Dedupe(s.declared) ==> Labelled(s.table, Constraints(s.dims), w)
  {
    hide Removed, Dedupe, Honours, Labelled;
    FallbackIffAllLabelled(s.table, s.dims, Dedupe(s.declared));
  }

  ghost predicate Acceptable(s: Submission) {
    var compared, front := Dedupe(s.declared), FrontOfRecord(s);
    && (forall v :: v in Dedupe(s.callerFront) ==> v in compared)
    && NotesWellFormed(s.dominated, compared) && NotesWellFormed(s.tradeoffs, compared)
    && Covers(Dedupe(Without(Explained(s), set v | v in front)), s.dominated)
    && Covers(Dedupe(front), s.tradeoffs)
  }

  lemma StartsSolid(s: string)
    requires s != "" && !IsSpace(s[0])
    ensures Trim(s) != ""
    decreases |s|
  {
    if IsSpace(s[|s| - 1]) {
      assert s[..|s| - 1] != "" && s[..|s| - 1][0] == s[0];
      StartsSolid(s[..|s| - 1]);
    }
  }

  lemma SummarySays(r: Reason)
    ensures Trim(Summary(r)) != ""
  {
    hide Trim;
    StartsSolid(Summary(r));
  }

  /** What the merge adds says which variant it is about, and why. */
  lemma {:induction false} MergedNotesSay(notes: seq<Note>, removed: seq<string>, existing: set<string>, reasons: map<string, Reason>)
    requires forall v :: v in removed ==> v in reasons
    requires forall n :: n in notes ==> Trim(n.summary) != ""
    ensures forall n :: n in Merge(notes, removed, existing, reasons) ==> Trim(n.summary) != ""
    decreases |removed|
  {
    hide Trim, Summary;
    if removed != [] {
      MergedNotesSay(notes, removed[..|removed| - 1], existing, reasons);
      SummarySays(reasons[removed[|removed| - 1]]);
    }
  }

  lemma NamesAreDecisive(dims: seq<Dimension>)
    ensures dims != [] ==> exists name :: name in Names(dims)
  {
    if dims != [] {
      assert dims[0].name in Names(dims);
    }
  }

  /** The front to record, and what constraints eliminated. */
  method ChooseFront(s: Submission, compared: seq<string>, callerFront: seq<string>)
    returns (front: seq<string>, eliminated: map<string, Reason>, honoured: bool)
    requires compared == Dedupe(s.declared) && callerFront == Dedupe(s.callerFront)
    ensures front == FrontOfRecord(s) && honoured == Honours(s)
    ensures eliminated.Keys == Eliminated(s)
    ensures forall v :: v in eliminated ==> v in compared
  {
    hide Removed, Front, Field, EverComparable, Justified, Dedupe, Names;
    var r := ComputeParetoFront(s.table, compared, s.dims, s.policy);
    NamesAreDecisive(s.dims);
    honoured := r.comparablePairs == 0 && |callerFront| > 0 && |r.indecisive| > 0;
    front := if honoured then callerFront else r.front;
    eliminated := r.eliminated;
  }

  lemma CallerNames(s: Submission)
    ensures forall v :: v in s.callerFront && Trim(v) != "" ==> Trim(v) in Dedupe(s.callerFront)
    ensures Dedupe(s.callerFront) != [] ==> exists v :: v in s.callerFront && Trim(v) != ""
  {
    hide Trim;
    var trims := Trims(s.callerFront);
    forall v | v in s.callerFront && Trim(v) != "" ensures Trim(v) in Dedupe(s.callerFront) {
      var i :| 0 <= i < |s.callerFront| && s.callerFront[i] == v;
      assert trims[i] == Trim(v);
    }
    if Dedupe(s.callerFront) != [] {
      var w := Dedupe(s.callerFront)[0];
      assert w in Dedupe(s.callerFront);
      var i :| 0 <= i < |trims| && trims[i] == w;
      assert s.callerFront[i] in s.callerFront;
    }
  }
  /** Notes say something about a compared variant, merged ones too; the caller's front names compared variants, and it
      is honoured only if it names one and there is a dimension to decide by. */
  ghost predicate IsExplained(s: Submission, stored: Stored)
    requires stored.Stored?
  {
    && (forall n :: n in s.dominated || n in s.tradeoffs ==> Trim(n.variant) in Dedupe(s.declared))
    && (forall n :: n in stored.dominated || n in stored.tradeoffs ==> Trim(n.summary) != "")
    && (forall v :: v in s.callerFront && Trim(v) != "" ==> Trim(v) in Dedupe(s.declared))
    && (stored.honoured ==> s.dims != [] && exists v :: v in s.callerFront && Trim(v) != "")
  }

  lemma StoredIsExplained(s: Submission, stored: Stored)
    requires Acceptable(s) && stored.Stored? && stored.tradeoffs == s.tradeoffs && stored.honoured == Honours(s)
    requires forall n :: n in stored.dominated ==> Trim(n.summary) != ""
    ensures IsExplained(s, stored)
  {
    hide Trim, Dedupe, Covers, FrontOfRecord, Explained, EverComparable;
    CallerNames(s);
  }

  /** An accepted and stored comparison accounts for every compared variant: exactly one trade-off note on the
      front, exactly one dominated entry off it, whether the computed front or the caller's is stored. What the
      constraints eliminated gets an entry of its own if the caller gave none, on the front as well. */
  method CompareSolutions(s: Submission) returns (stored: Stored)
    ensures stored.Stored? <==> Acceptable(s)
    ensures stored.Stored? ==>
              && stored.front == FrontOfRecord(s) && stored.honoured == Honours(s)
              && s.dominated <= stored.dominated && stored.tradeoffs == s.tradeoffs
    ensures stored.Stored? ==> IsExplained(s, stored)
    ensures stored.Stored? ==> forall v :: v in Dedupe(s.declared) ==>
              if v in stored.front then Count(stored.tradeoffs, v) == 1 else Count(stored.dominated, v) == 1
    ensures stored.Stored? ==> forall v ::
              Count(stored.dominated, v)
              == Count(s.dominated, v) + if v in Eliminated(s) && Count(s.dominated, v) == 0 then 1 else 0
  {
    hide Trim, Removed, Eliminated, FrontOfRecord, Honours, Merge, Dedupe, Covers, IsExplained;
    var compared := Dedupe(s.declared);
    var callerFront := Dedupe(s.callerFront);
    DedupeTrims(s.declared);
    DedupeIsUnique(s.declared);
    if !(forall v :: v in callerFront ==> v in compared)
       || !NotesWellFormed(s.dominated, compared) || !NotesWellFormed(s.tradeoffs, compared) {
      return Rejected;
    }
    var front, eliminated, honoured := ChooseFront(s, compared, callerFront);
    var explained := Without(compared, eliminated.Keys);
    var expected := Dedupe(Without(explained, set v | v in front));
    DedupeTrims(Without(explained, set v | v in front));
    var dominatedOk := ValidateCoverage(expected, s.dominated);
    if !dominatedOk {
      return Rejected;
    }
    DedupeTrims(front);
    var tradeoffsOk := ValidateCoverage(Dedupe(front), s.tradeoffs);
    if !tradeoffsOk {
      return Rejected;
    }

    var removed := OnlyIn(compared, eliminated.Keys);
    stored := Stored(front, Merge(s.dominated, removed, NoteVariants(s.dominated), eliminated), s.tradeoffs, honoured);
    forall v | v in compared
      ensures if v in stored.front then Count(stored.tradeoffs, v) == 1 else Count(stored.dominated, v) == 1
    {
      Accounted(compared, front, eliminated, s.dominated, s.tradeoffs, removed, v);
    }
    Entries(s.dominated, removed, eliminated);
    MergedNotesSay(s.dominated, removed, NoteVariants(s.dominated), eliminated);
    StoredIsExplained(s, stored);
  }
}
