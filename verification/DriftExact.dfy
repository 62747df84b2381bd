/** What a check says after a baseline: the governed files that changed or vanished, and the new ones beside them. */
module DriftExact {
  import opened Sorting
  import opened Drift
  import opened DriftRun

  predicate Widens(mode: string) {
    mode == "" || mode == MODULE_MODE
  }

  /** The file is listed and was there when the baseline was taken. */
  predicate Governed(before: Tree, paths: seq<Path>, q: Path) {
    q in paths && q in before
  }

  /** What the check should say of path `q`, given the tree of the baseline and the tree checked. */
  ghost predicate Expected(p: Project, before: Tree, tree: Tree, mode: string, paths: seq<Path>, q: Path, status: Status) {
    match status
    case Modified => Governed(before, paths, q) && q in tree && before[q] != tree[q]
    case Vanished => Governed(before, paths, q) && q !in tree
    case Added => Widens(mode) && q in tree && q !in before && exists f :: Governed(before, paths, f) && p.visible(p.dirOf(f), q)
    case NoBaseline => false
  }

  ghost predicate IsListed(items: seq<DriftItem>, q: Path, status: Status) {
    exists i :: 0 <= i < |items| && items[i].path == q && items[i].status == status
  }

  // ---------------------------------------------------------------- governed files

  lemma {:induction false} SnapshotMembers(p: Project, tree: Tree, paths: seq<Path>, f: AffectedFile)
    ensures f in Snapshot(p, tree, paths) <==> Governed(tree, paths, f.path) && f.hash == p.hash(tree[f.path])
    decreases |paths|
  {
    if paths != [] {
      SnapshotMembers(p, tree, paths[..|paths| - 1], f);
      assert paths == paths[..|paths| - 1] + [paths[|paths| - 1]];
    }
  }

  // ---------------------------------------------------------------- entries

  /** How many entries say `status` of `q`. */
  function Times(items: seq<DriftItem>, q: Path, status: Status): nat {
    if items == [] then 0
    else
      var last := items[|items| - 1];
      Times(items[..|items| - 1], q, status) + if last.path == q && last.status == status then 1 else 0
  }

  lemma {:induction false} TimesAppend(a: seq<DriftItem>, b: seq<DriftItem>, q: Path, status: Status)
    ensures Times(a + b, q, status) == Times(a, q, status) + Times(b, q, status)
    decreases |b|
  {
    if b == [] {
      assert a + b == a;
    } else {
      TimesAppend(a, b[..|b| - 1], q, status);
      assert (a + b)[..|a + b| - 1] == a + b[..|b| - 1];
    }
  }

  /** A file of the baseline that has the status in the tree checked. */
  predicate Changed(before: Tree, tree: Tree, q: Path, status: Status) {
    q in before && ((status == Modified && q in tree && before[q] != tree[q]) || (status == Vanished && q !in tree))
  }

  lemma ItemTimes(p: Project, before: Tree, tree: Tree, id: string, path: Path, q: Path, status: Status)
    requires p.CollisionFree() && path in before
    ensures Times(FileItem(p, tree, id, AffectedFile(path, p.hash(before[path]))), q, status)
            == if path == q && Changed(before, tree, q, status) then 1 else 0
  {
    hide SymbolDrift;
    var items := FileItem(p, tree, id, AffectedFile(path, p.hash(before[path])));
    assert items != [] ==> items[..0] == [];
  }

  lemma LastCounts(paths: seq<Path>, q: Path)
    requires paths != []
    ensures multiset(paths)[q] == multiset(paths[..|paths| - 1])[q] + if paths[|paths| - 1] == q then 1 else 0
  {
    assert paths == paths[..|paths| - 1] + [paths[|paths| - 1]];
  }

  /** A governed file that changed is listed as often as the decision names it. */
  lemma {:induction false} FileItemsTimes(p: Project, before: Tree, tree: Tree, id: string, paths: seq<Path>, q: Path, status: Status)
    requires p.CollisionFree()
    ensures Times(FileItems(p, tree, id, Snapshot(p, before, paths)), q, status)
            == if Changed(before, tree, q, status) then multiset(paths)[q] else 0
    decreases |paths|
  {
    hide FileItem, Changed;
    if paths != [] {
      var init, last := paths[..|paths| - 1], paths[|paths| - 1];
      FileItemsTimes(p, before, tree, id, init, q, status);
      LastCounts(paths, q);
      if last in before {
        var f := AffectedFile(last, p.hash(before[last]));
        var files := Snapshot(p, before, paths);
        assert files == Snapshot(p, before, init) + [f];
        assert files[..|files| - 1] == Snapshot(p, before, init) && files[|files| - 1] == f;
        TimesAppend(FileItems(p, tree, id, Snapshot(p, before, init)), FileItem(p, tree, id, f), q, status);
        ItemTimes(p, before, tree, id, last, q, status);
      } else {
        assert Snapshot(p, before, paths) == Snapshot(p, before, init);
        ChangedWasThere(before, tree, q, status);
      }
    }
  }

  lemma ChangedWasThere(before: Tree, tree: Tree, q: Path, status: Status)
    ensures Changed(before, tree, q, status) ==> q in before
  {
  }

  lemma LastIsNew(paths: seq<Path>)
    requires StrictlySorted(paths) && paths != []
    ensures paths[|paths| - 1] !in paths[..|paths| - 1]
  {
    BeforeAsymmetric(paths[|paths| - 1], paths[|paths| - 1]);
  }

  lemma {:induction false} AddedItemsTimes(paths: seq<Path>, q: Path, status: Status)
    requires StrictlySorted(paths)
    ensures Times(AddedItems(paths), q, status) == if status == Added && q in paths then 1 else 0
    decreases |paths|
  {
    if paths != [] {
      var init, last := paths[..|paths| - 1], paths[|paths| - 1];
      AddedItemsTimes(init, q, status);
      LastIsNew(paths);
      assert AddedItems(paths)[..|paths| - 1] == AddedItems(init);
      assert paths == init + [last];
    }
  }

  lemma {:induction false} ListedIsTimes(items: seq<DriftItem>, q: Path, status: Status)
    ensures IsListed(items, q, status) <==> Times(items, q, status) > 0
    decreases |items|
  {
    if items != [] {
      var init, last := items[..|items| - 1], items[|items| - 1];
      ListedIsTimes(init, q, status);
      if i :| 0 <= i < |init| && init[i].path == q && init[i].status == status {
        assert items[i] == init[i];
      }
      if i :| 0 <= i < |items| && items[i].path == q && items[i].status == status {
        assert items[i] == if i < |init| then init[i] else last;
      }
      if last.path == q && last.status == status {
        assert items[|items| - 1] == last;
      }
    }
  }

  lemma NoTimes(q: Path, status: Status)
    ensures Times([], q, status) == 0
  {
  }

  // ---------------------------------------------------------------- new files

  /** Scanning the manifests in any order, and whatever is already known of the old tree, finds each new file that
      is visible in some scope, and no other. */
  lemma {:induction false} FoundFromBaseline(p: Project, before: Tree, tree: Tree, scopes: seq<Path>, known: set<Path>, governed: set<Path>, x: Path)
    requires known <= before.Keys
    ensures x in FoundFrom(p, tree, ManifestsOf(p, before, scopes), known, governed) <==>
            x in tree && x !in before && x !in governed && exists s :: s in scopes && p.visible(s, x)
    decreases |scopes|
  {
    hide Ascending;
    var ms := ManifestsOf(p, before, scopes);
    if scopes != [] {
      var listed := set f | f in ms[0].files;
      assert listed == VisibleIn(p, before, scopes[0]);
      var found := VisibleIn(p, tree, scopes[0]) - (known + listed) - governed;
      assert ms[1..] == ManifestsOf(p, before, scopes[1..]);
      assert scopes == [scopes[0]] + scopes[1..];
      FoundFromBaseline(p, before, tree, scopes[1..], known + listed, governed + found, x);
    }
  }

  lemma FoundExact(p: Project, before: Tree, tree: Tree, r: Record, paths: seq<Path>, q: Path)
    requires r.kind.DecisionKind?
    ensures q in Found(p, tree, Baselined(p, before, r, paths)) <==> Expected(p, before, tree, r.mode, paths, q, Added)
  {
    hide Ascending, Snapshot;
    var b := Baselined(p, before, r, paths);
    var governed := set f | f in b.files :: f.path;
    forall f | f in b.files ensures Governed(before, paths, f.path) {
      SnapshotMembers(p, before, paths, f);
    }
    forall f | Governed(before, paths, f) ensures AffectedFile(f, p.hash(before[f])) in b.files {
      SnapshotMembers(p, before, paths, AffectedFile(f, p.hash(before[f])));
    }
    if Widens(r.mode) {
      var scopes := Ascending(Scopes(p, b.files));
      FoundFromBaseline(p, before, tree, scopes, {}, governed, q);
      if f :| Governed(before, paths, f) && p.visible(p.dirOf(f), q) {
        assert AffectedFile(f, p.hash(before[f])) in b.files;
        assert p.dirOf(f) in scopes;
      }
      if s :| s in scopes && p.visible(s, q) {
        var file :| file in b.files && p.dirOf(file.path) == s;
        assert Governed(before, paths, file.path);
      }
    }
  }

  // ---------------------------------------------------------------- the whole report

  lemma HashesAfterBaseline(p: Project, before: Tree, r: Record, paths: seq<Path>)
    requires p.CollisionFree()
    ensures AnyHash(Baselined(p, before, r, paths).files) <==> Baselined(p, before, r, paths).files != []
  {
    hide Snapshot;
    var files := Snapshot(p, before, paths);
    if files != [] {
      SnapshotMembers(p, before, paths, files[0]);
      assert files[0] in files;
    }
  }

  lemma NothingGoverned(p: Project, before: Tree, paths: seq<Path>, q: Path)
    requires Snapshot(p, before, paths) == []
    ensures !Governed(before, paths, q)
  {
    hide Snapshot;
    if Governed(before, paths, q) {
      SnapshotMembers(p, before, paths, AffectedFile(q, p.hash(before[q])));
    }
  }

  /** After a baseline, a new file is listed once and a governed one that changed as often as the decision names it. */
  lemma ListedTimes(p: Project, before: Tree, tree: Tree, r: Record, paths: seq<Path>, q: Path, status: Status)
    requires p.CollisionFree() && r.kind.DecisionKind?
    ensures Times(ReportOf(p, tree, Baselined(p, before, r, paths)).files, q, status) ==
              if !Expected(p, before, tree, r.mode, paths, q, status) then 0
              else if status == Added then 1
              else multiset(paths)[q]
  {
    hide Ascending, Snapshot, Found, FileItems, Times, AnyHash;
    var b := Baselined(p, before, r, paths);
    HashesAfterBaseline(p, before, r, paths);
    if b.files == [] {
      forall f ensures !Governed(before, paths, f) {
        NothingGoverned(p, before, paths, f);
      }
      assert Unbaselined(b.files) == [];
      NoTimes(q, status);
    } else {
      var found := Found(p, tree, b);
      TimesAppend(FileItems(p, tree, r.id, b.files), AddedItems(Ascending(found)), q, status);
      FileItemsTimes(p, before, tree, r.id, paths, q, status);
      AddedItemsTimes(Ascending(found), q, status);
      FoundExact(p, before, tree, r, paths, q);
    }
  }

  /** For distinct paths the report lists what it should, each once. */
  lemma ListedOnce(p: Project, before: Tree, tree: Tree, r: Record, paths: seq<Path>, q: Path, status: Status)
    requires p.CollisionFree() && r.kind.DecisionKind? && forall i, j :: 0 <= i < j < |paths| ==> paths[i] != paths[j]
    ensures Times(ReportOf(p, tree, Baselined(p, before, r, paths)).files, q, status)
            == if Expected(p, before, tree, r.mode, paths, q, status) then 1 else 0
  {
    hide Times, ReportOf, Baselined;
    ListedTimes(p, before, tree, r, paths, q, status);
    DistinctOnce(paths, q);
  }

  /** After a baseline, the check of any later tree lists what it should and nothing else. */
  lemma DriftAfterBaseline(p: Project, before: Tree, tree: Tree, r: Record, paths: seq<Path>, q: Path, status: Status)
    requires p.CollisionFree() && r.kind.DecisionKind?
    ensures IsListed(ReportOf(p, tree, Baselined(p, before, r, paths)).files, q, status) <==>
            Expected(p, before, tree, r.mode, paths, q, status)
  {
    hide ReportOf, Baselined, IsListed, Times;
    ListedTimes(p, before, tree, r, paths, q, status);
    ListedIsTimes(ReportOf(p, tree, Baselined(p, before, r, paths)).files, q, status);
    if status != Added && Expected(p, before, tree, r.mode, paths, q, status) {
      assert q in multiset(paths);
    }
  }

  /** A new file is listed exactly if the decision is in module mode, which is the default, and the directory of some
      governed file shows it. */
  lemma NewFileListedIff(p: Project, before: Tree, tree: Tree, r: Record, paths: seq<Path>, q: Path)
    requires p.CollisionFree() && r.kind.DecisionKind?
    ensures IsListed(ReportOf(p, tree, Baselined(p, before, r, paths)).files, q, Added) <==>
              && r.mode in {"", "module"} && q in tree && q !in before
              && exists f :: f in paths && f in before && p.visible(p.dirOf(f), q)
  {
    hide ReportOf, Baselined;
    DriftAfterBaseline(p, before, tree, r, paths, q, Added);
    if f :| Governed(before, paths, f) && p.visible(p.dirOf(f), q) {
      assert f in paths;
    }
    if f :| f in paths && f in before && p.visible(p.dirOf(f), q) {
      assert Governed(before, paths, f);
    }
  }

  lemma {:induction false} ModifiedFileItem(p: Project, tree: Tree, id: string, files: seq<AffectedFile>, item: DriftItem)
    requires item in FileItems(p, tree, id, files) && item.status == Modified
    ensures item.path in tree && item.symbols == SymbolDrift(p, id, item.path, tree[item.path])
    decreases |files|
  {
    hide SymbolDrift;
    if files != [] && item in FileItems(p, tree, id, files[..|files| - 1]) {
      ModifiedFileItem(p, tree, id, files[..|files| - 1], item);
    }
  }

  /** The entry of a modified file carries the symbol changes found, all of them if one is no addition, else none. */
  lemma ModifiedEntry(p: Project, tree: Tree, r: Record, item: DriftItem)
    requires item in ReportOf(p, tree, r).files && item.status == Modified
    ensures item.path in tree
    ensures var changes := p.symbols(r.id, item.path, tree[item.path]);
            item.symbols == if exists s :: s in changes && s != "added" then changes else []
  {
    hide Ascending, Found, FileItems, SymbolDrift, AnyHash;
    ModifiedFileItem(p, tree, r.id, r.files, item);
    SymbolsKept(p, r.id, item.path, tree[item.path]);
  }

  lemma SymbolsKept(p: Project, id: string, path: Path, content: string)
    ensures var changes := p.symbols(id, path, content);
            SymbolDrift(p, id, path, content) == if exists s :: s in changes && s != "added" then changes else []
  {
  }

  /** An active decision is reported exactly when something is expected of it. */
  lemma ReportedIffDrifted(p: Project, before: Tree, tree: Tree, r: Record, paths: seq<Path>)
    requires p.CollisionFree() && r.kind.DecisionKind? && r.active
    ensures IsReported(p, tree, Baselined(p, before, r, paths)) <==>
            exists q, status :: Expected(p, before, tree, r.mode, paths, q, status)
  {
    hide ReportOf, Expected, AnyHash;
    var b := Baselined(p, before, r, paths);
    var items := ReportOf(p, tree, b).files;
    HashesAfterBaseline(p, before, r, paths);
    if IsReported(p, tree, b) {
      var item :| item in items && Drifted(item);
      var i :| 0 <= i < |items| && items[i] == item;
      assert IsListed(items, item.path, item.status);
      DriftAfterBaseline(p, before, tree, r, paths, item.path, item.status);
    }
    if q, status :| Expected(p, before, tree, r.mode, paths, q, status) {
      DriftAfterBaseline(p, before, tree, r, paths, q, status);
      var i :| 0 <= i < |items| && items[i].path == q && items[i].status == status;
      ExpectedIsDrift(p, before, tree, r.mode, paths, q, status);
      assert items[i] in items && Drifted(items[i]);
      if b.files == [] {
        ExpectedIsGoverned(p, before, tree, r, paths, q, status);
      }
    }
  }

  lemma ExpectedIsDrift(p: Project, before: Tree, tree: Tree, mode: string, paths: seq<Path>, q: Path, status: Status)
    requires Expected(p, before, tree, mode, paths, q, status)
    ensures status != NoBaseline
  {
  }

  lemma ExpectedIsGoverned(p: Project, before: Tree, tree: Tree, r: Record, paths: seq<Path>, q: Path, status: Status)
    requires Expected(p, before, tree, r.mode, paths, q, status)
    ensures Snapshot(p, before, paths) != []
  {
    hide Snapshot;
    if Snapshot(p, before, paths) == [] {
      forall f ensures !Governed(before, paths, f) {
        NothingGoverned(p, before, paths, f);
      }
    }
  }

  /** An unchanged tree gives no report. */
  lemma UnchangedTreeIsQuiet(p: Project, tree: Tree, r: Record, paths: seq<Path>)
    requires p.CollisionFree() && r.kind.DecisionKind? && r.active
    ensures !IsReported(p, tree, Baselined(p, tree, r, paths))
  {
    hide IsReported, Baselined;
    ReportedIffDrifted(p, tree, tree, r, paths);
  }
}
