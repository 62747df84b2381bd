/** Taking a baseline and checking for drift, on the stored records, with one scope cache for the whole check. */
module DriftRun {
  import opened Sorting
  import opened Drift

  /** One drift pass over a tree. The listing of a scope is made once and shared by all decisions. */
  class DriftPass {
    const p: Project
    const tree: Tree
    var cache: map<Path, seq<Path>>

    ghost predicate Valid()
      reads this
    {
      forall s :: s in cache ==> cache[s] == Listing(p, tree, s)
    }

    constructor (p: Project, tree: Tree)
      ensures Valid() && this.p == p && this.tree == tree
    {
      this.p, this.tree, cache := p, tree, map[];
    }

    method ListScopeCached(scope: Path) returns (files: seq<Path>)
      requires Valid()
      modifies this`cache
      ensures Valid() && files == Listing(p, tree, scope)
    {
      hide Listing;
      if scope in cache {
        return cache[scope];
      }
      files := ListScope(p, tree, scope);
      cache := cache[scope := files];
    }

    /** Files found in one scope, given what is known and what is governed. */
    method AddFound(scope: Path, known: set<Path>, governed0: set<Path>, added0: seq<Path>)
      returns (governed: set<Path>, added: seq<Path>)
      requires Valid()
      requires forall i, j :: 0 <= i < j < |added0| ==> added0[i] != added0[j]
      requires forall x :: x in added0 ==> x in governed0
      modifies this`cache
      ensures Valid()
      ensures forall i, j :: 0 <= i < j < |added| ==> added[i] != added[j]
      ensures var found := VisibleIn(p, tree, scope) - known - governed0;
              governed == governed0 + found && forall x :: x in added <==> x in added0 || x in found
    {
      hide Ascending;
      governed, added := governed0, added0;
      var files := ListScopeCached(scope);
      for j := 0 to |files|
        invariant Valid()
        invariant forall x :: x in governed <==> x in governed0 || (x in files[..j] && x !in known)
        invariant forall x :: x in added <==> x in added0 || (x in files[..j] && x !in known && x !in governed0)
        invariant forall i, k :: 0 <= i < k < |added| ==> added[i] != added[k]
      {
        assert files[..j + 1] == files[..j] + [files[j]];
        if files[j] !in known && files[j] !in governed {
          governed := governed + {files[j]};
          added := added + [files[j]];
        }
      }
      assert files[..|files|] == files;
    }

    method DetectAddedFiles(r: Record) returns (added: seq<Path>)
      requires Valid()
      modifies this`cache
      ensures Valid() && added == Ascending(Found(p, tree, r))
    {
      hide Ascending, VisibleIn;
      var known: set<Path> := {};
      var governed: set<Path> := set f | f in r.files :: f.path;
      added := [];
      for i := 0 to |r.manifests|
        invariant Valid()
        invariant forall j, k :: 0 <= j < k < |added| ==> added[j] != added[k]
        invariant forall x :: x in added ==> x in governed
        invariant forall x :: x in Found(p, tree, r) <==> x in added || x in FoundFrom(p, tree, r.manifests[i..], known, governed)
      {
        var m := r.manifests[i];
        known := known + set f | f in m.files;
        governed, added := AddFound(m.scope, known, governed, added);
      }
      SortKeepsMembers(added);
      SortOfDistinct(added);
      added := Sort(added);
      AscendingIsOnly(Found(p, tree, r), added);
    }

    method CheckRecord(r: Record) returns (reported: bool, report: Report)
      requires Valid() && r.files != []
      modifies this`cache
      ensures Valid()
      ensures report == ReportOf(p, tree, r)
      ensures reported <==> !AnyHash(r.files) || exists item :: item in report.files && Drifted(item)
    {
      hide Ascending, Found, SymbolDrift, AnyHash;
      var hasAnyHash := AnyHash(r.files);
      if !hasAnyHash {
        return true, Report(r.id, false, Unbaselined(r.files));
      }
      var items: seq<DriftItem> := [];
      var hasDrift := false;
      for i := 0 to |r.files|
        invariant Valid()
        invariant items == FileItems(p, tree, r.id, r.files[..i])
        invariant hasDrift <==> exists item :: item in items && Drifted(item)
      {
        assert r.files[..i + 1][..i] == r.files[..i];
        var f := r.files[i];
        if f.hash == "" {
          items := items + [DriftItem(f.path, NoBaseline, [])];
        } else if f.path !in tree {
          items := items + [DriftItem(f.path, Vanished, [])];
          hasDrift := true;
          assert Drifted(items[|items| - 1]);
        } else if p.hash(tree[f.path]) != f.hash {
          items := items + [DriftItem(f.path, Modified, SymbolDrift(p, r.id, f.path, tree[f.path]))];
          hasDrift := true;
          assert Drifted(items[|items| - 1]);
        }
      }
      assert r.files[..|r.files|] == r.files;
      var added := DetectAddedFiles(r);
      report := Report(r.id, true, items + AddedItems(added));
      if added != [] {
        hasDrift := true;
        assert report.files[|items|] == DriftItem(added[0], Added, []) && Drifted(report.files[|items|]);
      }
      reported := hasDrift;
    }
  }

  method CheckDrift(p: Project, tree: Tree, records: seq<Record>) returns (reports: seq<Report>)
    ensures reports == Reports(p, tree, records)
  {
    hide ReportOf, AnyHash;
    var pass := new DriftPass(p, tree);
    reports := [];
    for i := 0 to |records|
      invariant fresh(pass) && pass.Valid() && pass.p == p && pass.tree == tree
      invariant reports == Reports(p, tree, records[..i])
    {
      assert records[..i + 1][..i] == records[..i];
      var r := records[i];
      if r.kind.DecisionKind? && r.active && r.files != [] {
        var reported, report := pass.CheckRecord(r);
        if reported {
          reports := reports + [report];
        }
      }
    }
    assert records[..|records|] == records;
  }

  // ---------------------------------------------------------------- taking a baseline

  ghost predicate DistinctPaths(paths: seq<Path>) {
    forall i, j :: 0 <= i < j < |paths| ==> paths[i] != paths[j]
  }

  /** What a baseline of the listed files makes of a record: manifests belong to module-mode decisions alone, and
      a note's are left as they were. */
  ghost function Baselined(p: Project, tree: Tree, r: Record, paths: seq<Path>): Record {
    var files := Snapshot(p, tree, paths);
    var manifests := if r.mode == "" || r.mode == MODULE_MODE then BuiltManifests(p, tree, files) else [];
    r.(files := files, manifests := if r.kind.DecisionKind? then manifests else r.manifests)
  }

  /** A baseline keeps all but files and manifests; a note keeps its manifests too, and a decision outside module mode
      has none. */
  lemma BaselineKeeps(p: Project, tree: Tree, r: Record, paths: seq<Path>)
    ensures var b := Baselined(p, tree, r, paths);
            && b.id == r.id && b.kind == r.kind && b.active == r.active && b.mode == r.mode
            && (!r.kind.DecisionKind? ==> b.manifests == r.manifests)
            && (r.kind.DecisionKind? && r.mode !in {"", "module"} ==> b.manifests == [])
            && (r.kind.DecisionKind? && r.mode in {"", "module"} ==>
                  forall s :: (exists m :: m in b.manifests && m.scope == s) <==> s in Scopes(p, b.files))
  {
    hide Ascending, Snapshot, Scopes;
    var b := Baselined(p, tree, r, paths);
    if r.kind.DecisionKind? && r.mode in {"", "module"} {
      var scopes := Ascending(Scopes(p, b.files));
      forall s | s in scopes ensures exists m :: m in b.manifests && m.scope == s {
        var i :| 0 <= i < |scopes| && scopes[i] == s;
        assert b.manifests[i] in b.manifests;
      }
    }
  }

  /** Hashes the files that are there. */
  method HashFiles(p: Project, tree: Tree, files: seq<AffectedFile>) returns (hashable: seq<AffectedFile>)
    ensures hashable == Snapshot(p, tree, Paths(files))
  {
    ghost var paths := Paths(files);
    hashable := [];
    for i := 0 to |files|
      invariant hashable == Snapshot(p, tree, paths[..i])
    {
      assert paths[..i + 1][..i] == paths[..i];
      if files[i].path in tree {
        hashable := hashable + [files[i].(hash := p.hash(tree[files[i].path]))];
      }
    }
    assert paths[..|files|] == paths;
  }

  class GovernanceStore {
    var records: map<string, Record>

    /** Records stand under their identifier, and the file table holds no path twice for one of them. */
    ghost predicate Valid()
      reads this
    {
      forall id :: id in records ==> records[id].id == id && DistinctPaths(Paths(records[id].files))
    }

    constructor ()
      ensures Valid() && records == map[]
    {
      records := map[];
    }

    /** Replaces the file list of a record, unless a path is listed twice. */
    method SetAffectedFiles(id: string, files: seq<AffectedFile>) returns (ok: bool)
      requires Valid() && id in records
      modifies this
      ensures Valid()
      ensures ok <==> DistinctPaths(Paths(files))
      ensures records == if ok then old(records)[id := old(records)[id].(files := files)] else old(records)
    {
      ok := forall i, j :: 0 <= i < j < |files| ==> Paths(files)[i] != Paths(files)[j];
      if ok {
        records := records[id := records[id].(files := files)];
      }
    }

    /** Hashes the listed files of a record and stores what the baseline makes of it. */
    method StoreBaseline(p: Project, tree: Tree, id: string) returns (files: seq<AffectedFile>)
      requires Valid() && id in records
      modifies this
      ensures Valid()
      ensures records == old(records)[id := Baselined(p, tree, old(records)[id], Paths(old(records)[id].files))]
      ensures files == Baselined(p, tree, old(records)[id], Paths(old(records)[id].files)).files
    {
      hide BuiltManifests, Snapshot, DistinctPaths;
      ghost var before := records[id];
      files := HashFiles(p, tree, records[id].files);
      SnapshotIsDistinct(p, tree, Paths(before.files));
      var stored := SetAffectedFiles(id, files);
      var manifests: seq<Manifest> := [];
      if records[id].mode == "" || records[id].mode == MODULE_MODE {
        manifests := BuildManifests(p, tree, files);
      }
      if records[id].kind.DecisionKind? {
        records := records[id := records[id].(manifests := manifests)];
      }
      assert records[id] == Baselined(p, tree, before, Paths(before.files));
    }

    method Baseline(p: Project, tree: Tree, id: string, replacement: seq<Path>) returns (ok: bool, files: seq<AffectedFile>)
      requires Valid()
      modifies this
      ensures Valid()
      ensures ok <==>
                && id != "" && id in old(records) && !old(records)[id].kind.OtherKind?
                && (if replacement == [] then old(records)[id].files != [] else DistinctPaths(replacement))
      ensures !ok ==> records == old(records) && files == []
      ensures ok ==>
                var paths := if replacement == [] then Paths(old(records)[id].files) else replacement;
                && records == old(records)[id := Baselined(p, tree, old(records)[id], paths)]
                && files == records[id].files
    {
      hide Baselined, DistinctPaths;
      if id == "" || id !in records || records[id].kind.OtherKind? {
        return false, [];
      }
      if replacement != [] {
        var listed := seq(|replacement|, i requires 0 <= i < |replacement| => AffectedFile(replacement[i], ""));
        assert Paths(listed) == replacement;
        var replaced := SetAffectedFiles(id, listed);
        if !replaced {
          return false, [];
        }
        BaselinedListsAnew(p, tree, old(records)[id], listed, replacement);
      } else if records[id].files == [] {
        return false, [];
      }
      files := StoreBaseline(p, tree, id);
      ok := true;
    }
  }

  lemma BaselinedListsAnew(p: Project, tree: Tree, r: Record, listed: seq<AffectedFile>, paths: seq<Path>)
    ensures Baselined(p, tree, r.(files := listed), paths) == Baselined(p, tree, r, paths)
  {
  }

  lemma {:induction false} SnapshotIsDistinct(p: Project, tree: Tree, paths: seq<Path>)
    requires DistinctPaths(paths)
    ensures DistinctPaths(Paths(Snapshot(p, tree, paths)))
    ensures forall f :: f in Snapshot(p, tree, paths) ==> f.path in paths
    decreases |paths|
  {
    if paths != [] {
      var init, last := paths[..|paths| - 1], paths[|paths| - 1];
      SnapshotIsDistinct(p, tree, init);
      var before := Snapshot(p, tree, init);
      assert paths == init + [last];
      forall i | 0 <= i < |before| ensures Paths(before)[i] != last {
        assert before[i] in before;
      }
    }
  }
}
