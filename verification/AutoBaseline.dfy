/** Which drift reports may be re-baselined without asking: a verdict on the report, an action for the verdict,
    and the three lists the actions sort the reports into. */
module AutoBaseline {
  import opened Sorting
  import opened Drift
  import opened DriftRun
  import opened DriftExact

  datatype SymbolVerdict = AdditiveOnly | GovernedModified | NeedsReview

  datatype Action = ResolveSilent | StageForConfirm | SurfaceForReview

  datatype Disposition = Disposition(report: Report, action: Action)

  /** A file is gone, or the symbols of a modified one show a change that is not an addition. */
  predicate TouchesGoverned(item: DriftItem) {
    item.status == Vanished || (item.status == Modified && exists s :: s in item.symbols && s != ADDED_SYMBOL)
  }

  /** Nothing proves the entry harmless, and nothing proves otherwise. */
  predicate Unproven(item: DriftItem) {
    item.status == NoBaseline || (item.status == Modified && item.symbols == [])
  }

  predicate Additive(item: DriftItem) {
    !TouchesGoverned(item) && !Unproven(item)
  }

  predicate AnyGoverned(items: seq<DriftItem>) {
    exists item :: item in items && TouchesGoverned(item)
  }

  predicate AllAdditive(items: seq<DriftItem>) {
    forall item :: item in items ==> Additive(item)
  }

  method VerdictOf(report: Report) returns (verdict: SymbolVerdict)
    ensures verdict == GovernedModified <==> AnyGoverned(report.files)
    ensures verdict == AdditiveOnly <==> report.files != [] && AllAdditive(report.files)
  {
    var sawAdditive, needsReview := false, false;
    for i := 0 to |report.files|
      invariant !AnyGoverned(report.files[..i])
      invariant needsReview <==> !AllAdditive(report.files[..i])
      invariant if i == 0 then !sawAdditive else sawAdditive || needsReview
    {
      var item := report.files[i];
      assert item in report.files;
      assert report.files[..i + 1] == report.files[..i] + [item] && item in report.files[..i + 1];
      match item.status
      case Vanished => return GovernedModified;
      case Modified =>
        if item.symbols == [] {
          needsReview := true;
        } else {
          var governed := AnyNotAdded(item.symbols);
          if governed {
            return GovernedModified;
          }
          sawAdditive := true;
        }
      case Added => sawAdditive := true;
      case NoBaseline => needsReview := true;
    }
    assert report.files[..|report.files|] == report.files;
    verdict := if needsReview then NeedsReview else if sawAdditive then AdditiveOnly else NeedsReview;
  }

  method AnyNotAdded(symbols: seq<string>) returns (r: bool)
    ensures r <==> exists s :: s in symbols && s != ADDED_SYMBOL
  {
    for i := 0 to |symbols|
      invariant forall s :: s in symbols[..i] ==> s == ADDED_SYMBOL
    {
      assert symbols[..i + 1] == symbols[..i] + [symbols[i]];
      if symbols[i] != ADDED_SYMBOL {
        assert symbols[i] in symbols;
        return true;
      }
    }
    assert symbols[..|symbols|] == symbols;
    r := false;
  }

  function ActionFor(report: Report): Action {
    if !report.hasBaseline then SurfaceForReview
    else if AnyGoverned(report.files) then StageForConfirm
    else if report.files != [] && AllAdditive(report.files) then ResolveSilent
    else SurfaceForReview
  }

  method ClassifyOne(report: Report) returns (d: Disposition)
    ensures d == Disposition(report, ActionFor(report))
  {
    hide AnyGoverned, AllAdditive;
    if !report.hasBaseline {
      return Disposition(report, SurfaceForReview);
    }
    var verdict := VerdictOf(report);
    d := match verdict
      case AdditiveOnly => Disposition(report, ResolveSilent)
      case GovernedModified => Disposition(report, StageForConfirm)
      case NeedsReview => Disposition(report, SurfaceForReview);
  }

  method ClassifyAll(reports: seq<Report>) returns (ds: seq<Disposition>)
    ensures |ds| == |reports| && forall i :: 0 <= i < |reports| ==> ds[i] == Disposition(reports[i], ActionFor(reports[i]))
  {
    hide ActionFor;
    ds := [];
    for i := 0 to |reports|
      invariant |ds| == i && forall j :: 0 <= j < i ==> ds[j] == Disposition(reports[j], ActionFor(reports[j]))
    {
      var d := ClassifyOne(reports[i]);
      ds := ds + [d];
    }
  }

  // ---------------------------------------------------------------- what is resolved silently

  lemma {:induction false} FileItemsAreGoverned(p: Project, tree: Tree, id: string, files: seq<AffectedFile>, item: DriftItem)
    requires item in FileItems(p, tree, id, files)
    ensures !Additive(item)
    decreases |files|
  {
    if files != [] {
      var init := FileItems(p, tree, id, files[..|files| - 1]);
      if item in init {
        FileItemsAreGoverned(p, tree, id, files[..|files| - 1], item);
      }
    }
  }

  /** Of the reports a check makes, those resolved silently are those with a baseline that list additions alone. */
  lemma SilentIffOnlyAdditions(p: Project, tree: Tree, r: Record)
    ensures var report := ReportOf(p, tree, r);
            ActionFor(report) == ResolveSilent <==>
              report.hasBaseline && report.files != [] && forall item :: item in report.files ==> item.status == Added
  {
    hide Ascending, FileItems, Found, TouchesGoverned, Unproven, AnyHash;
    var report := ReportOf(p, tree, r);
    if report.hasBaseline {
      var governed, added := FileItems(p, tree, r.id, r.files), AddedItems(Ascending(Found(p, tree, r)));
      forall item | item in report.files ensures Additive(item) <==> item.status == Added {
        if item in governed {
          FileItemsAreGoverned(p, tree, r.id, r.files, item);
          GovernedIsNotAdded(p, tree, r.id, r.files, item);
        } else {
          AddedIsAdditive(item);
        }
      }
    }
  }

  lemma AddedIsAdditive(item: DriftItem)
    requires item.status == Added
    ensures Additive(item)
  {
  }

  lemma {:induction false} GovernedIsNotAdded(p: Project, tree: Tree, id: string, files: seq<AffectedFile>, item: DriftItem)
    requires item in FileItems(p, tree, id, files)
    ensures item.status != Added
    decreases |files|
  {
    if files != [] && item in FileItems(p, tree, id, files[..|files| - 1]) {
      GovernedIsNotAdded(p, tree, id, files[..|files| - 1], item);
    }
  }

  /** A baselined decision is re-baselined silently exactly when no governed file changed or vanished and some
      file is new in a governed directory. */
  lemma SilentAfterBaseline(p: Project, before: Tree, tree: Tree, r: Record, paths: seq<Path>)
    requires p.CollisionFree() && r.kind.DecisionKind?
    ensures ActionFor(ReportOf(p, tree, Baselined(p, before, r, paths))) == ResolveSilent <==>
              && (forall q :: Governed(before, paths, q) ==> q in tree && tree[q] == before[q])
              && (exists q :: Expected(p, before, tree, r.mode, paths, q, Added))
  {
    hide ReportOf, ActionFor, Baselined, Snapshot;
    var b := Baselined(p, before, r, paths);
    var items := ReportOf(p, tree, b).files;
    SilentIffOnlyAdditions(p, tree, b);
    if ActionFor(ReportOf(p, tree, b)) == ResolveSilent {
      assert IsListed(items, items[0].path, items[0].status) && items[0] in items;
      DriftAfterBaseline(p, before, tree, r, paths, items[0].path, items[0].status);
      forall q | Governed(before, paths, q) ensures q in tree && tree[q] == before[q] {
        DriftAfterBaseline(p, before, tree, r, paths, q, Modified);
        DriftAfterBaseline(p, before, tree, r, paths, q, Vanished);
      }
    }
    if (forall q :: Governed(before, paths, q) ==> q in tree && tree[q] == before[q])
       && (exists q :: Expected(p, before, tree, r.mode, paths, q, Added)) {
      var q :| Expected(p, before, tree, r.mode, paths, q, Added);
      DriftAfterBaseline(p, before, tree, r, paths, q, Added);
      BaselineKnown(p, before, tree, r, paths, q, Added);
      forall item | item in items ensures item.status == Added {
        var i :| 0 <= i < |items| && items[i] == item;
        assert IsListed(items, item.path, item.status);
        DriftAfterBaseline(p, before, tree, r, paths, item.path, item.status);
      }
    }
  }

  lemma BaselineKnown(p: Project, before: Tree, tree: Tree, r: Record, paths: seq<Path>, q: Path, status: Status)
    requires p.CollisionFree() && r.kind.DecisionKind? && Expected(p, before, tree, r.mode, paths, q, status)
    ensures ReportOf(p, tree, Baselined(p, before, r, paths)).hasBaseline
  {
    hide Ascending, Snapshot, Found, FileItems, AnyHash;
    ExpectedIsGoverned(p, before, tree, r, paths, q, status);
    HashesAfterBaseline(p, before, r, paths);
  }

  // ---------------------------------------------------------------- what is staged

  /** A governed file is gone, or it changed and one of its symbol changes is no addition. */
  predicate Undermined(p: Project, before: Tree, tree: Tree, id: string, paths: seq<Path>, q: Path) {
    && q in paths && q in before
    && (q !in tree || (tree[q] != before[q] && exists s :: s in p.symbols(id, q, tree[q]) && s != "added"))
  }

  lemma TouchedIsUndermined(p: Project, before: Tree, tree: Tree, r: Record, paths: seq<Path>, item: DriftItem)
    requires p.CollisionFree() && r.kind.DecisionKind?
    requires item in ReportOf(p, tree, Baselined(p, before, r, paths)).files && TouchesGoverned(item)
    ensures Undermined(p, before, tree, r.id, paths, item.path)
  {
    hide ReportOf, Snapshot;
    var b := Baselined(p, before, r, paths);
    var items := ReportOf(p, tree, b).files;
    var i :| 0 <= i < |items| && items[i] == item;
    assert IsListed(items, item.path, item.status);
    DriftAfterBaseline(p, before, tree, r, paths, item.path, item.status);
    if item.status == Modified {
      ModifiedEntry(p, tree, b, item);
    }
  }

  lemma UnderminedIsTouched(p: Project, before: Tree, tree: Tree, r: Record, paths: seq<Path>, q: Path)
    requires p.CollisionFree() && r.kind.DecisionKind? && Undermined(p, before, tree, r.id, paths, q)
    ensures AnyGoverned(ReportOf(p, tree, Baselined(p, before, r, paths)).files)
    ensures ReportOf(p, tree, Baselined(p, before, r, paths)).hasBaseline
  {
    hide ReportOf, Snapshot;
    var b := Baselined(p, before, r, paths);
    var items := ReportOf(p, tree, b).files;
    var status := if q in tree then Modified else Vanished;
    DriftAfterBaseline(p, before, tree, r, paths, q, status);
    BaselineKnown(p, before, tree, r, paths, q, status);
    var i :| 0 <= i < |items| && items[i].path == q && items[i].status == status;
    assert items[i] in items;
    if status == Modified {
      ModifiedEntry(p, tree, b, items[i]);
    }
  }

  /** The action for a baselined decision, by the two trees and the symbol changes: staged for confirmation if a governed
      file is gone or changed by more than additions, resolved silently if no governed file changed and a file is new in
      a governed directory, and surfaced for review in all other cases. */
  lemma ActionAfterBaseline(p: Project, before: Tree, tree: Tree, r: Record, paths: seq<Path>)
    requires p.CollisionFree() && r.kind.DecisionKind?
    ensures ActionFor(ReportOf(p, tree, Baselined(p, before, r, paths)))
            == if exists q :: Undermined(p, before, tree, r.id, paths, q) then StageForConfirm
               else if (forall q :: Governed(before, paths, q) ==> q in tree && tree[q] == before[q])
                       && (exists q :: Expected(p, before, tree, r.mode, paths, q, Added)) then ResolveSilent
               else SurfaceForReview
  {
    hide ReportOf, Baselined, TouchesGoverned, Undermined, AllAdditive, Governed, Expected;
    SilentAfterBaseline(p, before, tree, r, paths);
    var report := ReportOf(p, tree, Baselined(p, before, r, paths));
    if AnyGoverned(report.files) {
      var item :| item in report.files && TouchesGoverned(item);
      TouchedIsUndermined(p, before, tree, r, paths, item);
    }
    if q :| Undermined(p, before, tree, r.id, paths, q) {
      UnderminedIsTouched(p, before, tree, r, paths, q);
    }
  }

  // ---------------------------------------------------------------- sorting into lists

  /** The dispositions with the action, in their order. */
  function Bucket(ds: seq<Disposition>, action: Action): (r: seq<Disposition>)
    ensures forall d :: d in r <==> d in ds && d.action == action
  {
    if ds == [] then []
    else
      assert ds == ds[..|ds| - 1] + [ds[|ds| - 1]];
      Bucket(ds[..|ds| - 1], action) + if ds[|ds| - 1].action == action then [ds[|ds| - 1]] else []
  }

  lemma BucketStep(ds: seq<Disposition>, i: nat, action: Action)
    requires i < |ds|
    ensures Bucket(ds[..i + 1], action) == Bucket(ds[..i], action) + if ds[i].action == action then [ds[i]] else []
  {
    assert ds[..i + 1][..i] == ds[..i];
  }

  method PartitionDispositions(ds: seq<Disposition>)
    returns (silent: seq<Disposition>, confirm: seq<Disposition>, review: seq<Disposition>)
    ensures silent == Bucket(ds, ResolveSilent)
    ensures confirm == Bucket(ds, StageForConfirm)
    ensures review == Bucket(ds, SurfaceForReview)
  {
    var buckets: map<Action, seq<Disposition>> := map[ResolveSilent := [], StageForConfirm := [], SurfaceForReview := []];
    forall a: Action ensures a in buckets && buckets[a] == [] {
      match a {
        case ResolveSilent =>
        case StageForConfirm =>
        case SurfaceForReview =>
      }
    }
    for i := 0 to |ds|
      invariant forall a :: a in buckets
      invariant forall a :: buckets[a] == Bucket(ds[..i], a)
    {
      hide Bucket;
      forall a {
        BucketStep(ds, i, a);
      }
      buckets := buckets[ds[i].action := buckets[ds[i].action] + [ds[i]]];
    }
    assert ds[..|ds|] == ds;
    silent, confirm, review := buckets[ResolveSilent], buckets[StageForConfirm], buckets[SurfaceForReview];
  }

  lemma CountLast<T>(s: seq<T>, x: T, y: T)
    ensures multiset(s + [x])[y] == multiset(s)[y] + if x == y then 1 else 0
  {
  }

  /** A bucket holds each disposition with its action as often as it was given, and no other: together the three
      lose and duplicate nothing. */
  lemma {:induction false} PartitionLosesNothing(ds: seq<Disposition>, action: Action, d: Disposition)
    ensures multiset(Bucket(ds, action))[d] == if d.action == action then multiset(ds)[d] else 0
    decreases |ds|
  {
    if ds != [] {
      var init, last := ds[..|ds| - 1], ds[|ds| - 1];
      PartitionLosesNothing(init, action, d);
      LastSplits(ds);
      CountLast(init, last, d);
      CountLast(Bucket(init, action), last, d);
      EmptyAdds(Bucket(init, action));
    }
  }

  lemma LastSplits<T>(s: seq<T>)
    requires s != []
    ensures s == s[..|s| - 1] + [s[|s| - 1]]
  {
  }

  lemma EmptyAdds<T>(s: seq<T>)
    ensures s + [] == s
  {
  }

  /** The entries of a bucket stand at ascending positions of the given list: its order is kept. */
  lemma {:induction false} BucketKeepsOrder(ds: seq<Disposition>, action: Action) returns (positions: seq<nat>)
    ensures |positions| == |Bucket(ds, action)|
    ensures forall k :: 0 <= k < |positions| ==> positions[k] < |ds| && Bucket(ds, action)[k] == ds[positions[k]]
    ensures forall k, l :: 0 <= k < l < |positions| ==> positions[k] < positions[l]
    decreases |ds|
  {
    hide Bucket;
    positions := [];
    BucketEmpty(action);
    if ds != [] {
      var n: nat := |ds| - 1;
      LastSplits(ds);
      BucketStep(ds, n, action);
      assert ds[..n + 1] == ds;
      positions := BucketKeepsOrder(ds[..n], action);
      EmptyAdds(Bucket(ds[..n], action));
      if ds[n].action == action {
        positions := positions + [n];
      }
    }
  }

  lemma BucketEmpty(action: Action)
    ensures Bucket([], action) == []
  {
  }
}
