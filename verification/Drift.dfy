/** Drift: a baseline records the hash of each governed file and, in module mode, what each governed directory
    held; a later check compares a tree with it. */
module Drift {
  import opened Sorting

  type Path = string

  /** The files of a project and their contents. */
  type Tree = map<Path, string>

  /** How the project is looked at: the content hash, the directory of a file, which files a walk that starts at
      a scope visits, and how the symbols of a governed file changed since its baseline. */
  datatype Project = Project(hash: string -> string, dirOf: Path -> Path, visible: (Path, Path) -> bool,
                             symbols: (string, Path, string) -> seq<string>)
  {
    /** The hash is never empty and tells any two contents apart. */
    ghost predicate CollisionFree() {
      && (forall x :: hash(x) != "")
      && (forall x, y :: hash(x) == hash(y) ==> x == y)
    }
  }

  datatype AffectedFile = AffectedFile(path: Path, hash: string)

  datatype Manifest = Manifest(scope: Path, files: seq<Path>)

  const MODULE_MODE := "module"

  // ---------------------------------------------------------------- listing a scope

  ghost function SortedSeq(s: set<string>): (r: seq<string>)
    ensures forall x :: x in r <==> x in s
    ensures forall i, j :: 0 <= i < j < |r| ==> r[i] != r[j]
  {
    if s == {} then []
    else
      var x :| x in s;
      [x] + SortedSeq(s - {x})
  }

  /** The members of the set in ascending order. */
  ghost function Ascending(s: set<string>): (r: seq<string>)
    ensures forall x :: x in r <==> x in s
    ensures StrictlySorted(r)
  {
    SortKeepsMembers(SortedSeq(s));
    SortOfDistinct(SortedSeq(s));
    Sort(SortedSeq(s))
  }

  lemma AscendingIsOnly(s: set<string>, r: seq<string>)
    requires StrictlySorted(r) && forall x :: x in r <==> x in s
    ensures r == Ascending(s)
  {
    hide Ascending, Before;
    StrictlySortedUnique(r, Ascending(s));
  }

  function VisibleIn(p: Project, tree: Tree, scope: Path): set<Path> {
    set f | f in tree && p.visible(scope, f)
  }

  ghost function Listing(p: Project, tree: Tree, scope: Path): seq<Path> {
    Ascending(VisibleIn(p, tree, scope))
  }

  /** Walks the tree from the scope, in whatever order, and sorts what it met. */
  method ListScope(p: Project, tree: Tree, scope: Path) returns (files: seq<Path>)
    ensures files == Listing(p, tree, scope)
  {
    hide Ascending;
    var entries: seq<Path> := [];
    var rest := tree.Keys;
    while rest != {}
      invariant rest <= tree.Keys
      invariant forall f :: f in entries <==> f in VisibleIn(p, tree, scope) && f !in rest
      invariant forall i, j :: 0 <= i < j < |entries| ==> entries[i] != entries[j]
      decreases rest
    {
      var f :| f in rest;
      rest := rest - {f};
      if p.visible(scope, f) {
        entries := entries + [f];
      }
    }
    files := Sort(entries);
    SortKeepsMembers(entries);
    SortOfDistinct(entries);
    AscendingIsOnly(VisibleIn(p, tree, scope), files);
  }

  // ---------------------------------------------------------------- baseline

  /** The listed files that can be hashed; the others are dropped. */
  function Snapshot(p: Project, tree: Tree, paths: seq<Path>): seq<AffectedFile> {
    if paths == [] then []
    else
      Snapshot(p, tree, paths[..|paths| - 1])
      + var path := paths[|paths| - 1]; if path in tree then [AffectedFile(path, p.hash(tree[path]))] else []
  }

  function Paths(files: seq<AffectedFile>): (paths: seq<Path>)
    ensures |paths| == |files| && forall i :: 0 <= i < |files| ==> paths[i] == files[i].path
  {
    seq(|files|, i requires 0 <= i < |files| => files[i].path)
  }

  function Scopes(p: Project, files: seq<AffectedFile>): set<Path> {
    set f | f in files :: p.dirOf(f.path)
  }

  ghost function ManifestsOf(p: Project, tree: Tree, scopes: seq<Path>): (ms: seq<Manifest>)
    ensures |ms| == |scopes| && forall i :: 0 <= i < |scopes| ==> ms[i] == Manifest(scopes[i], Listing(p, tree, scopes[i]))
  {
    seq(|scopes|, i requires 0 <= i < |scopes| => Manifest(scopes[i], Listing(p, tree, scopes[i])))
  }

  ghost function BuiltManifests(p: Project, tree: Tree, files: seq<AffectedFile>): seq<Manifest> {
    ManifestsOf(p, tree, Ascending(Scopes(p, files)))
  }

  lemma ScopesStep(p: Project, files: seq<AffectedFile>, i: nat)
    requires i < |files|
    ensures Scopes(p, files[..i + 1]) == Scopes(p, files[..i]) + {p.dirOf(files[i].path)}
  {
    assert files[..i + 1] == files[..i] + [files[i]];
  }

  lemma NoScopes(p: Project)
    ensures Scopes(p, []) == {}
  {
  }

  method BuildManifests(p: Project, tree: Tree, files: seq<AffectedFile>) returns (manifests: seq<Manifest>)
    ensures manifests == BuiltManifests(p, tree, files)
  {
    hide Ascending, Listing, Scopes, Sort;
    var seen: set<Path> := {};
    var scopes: seq<Path> := [];
    NoScopes(p);
    for i := 0 to |files|
      invariant forall s :: s in scopes <==> s in seen
      invariant seen == Scopes(p, files[..i])
      invariant forall j, k :: 0 <= j < k < |scopes| ==> scopes[j] != scopes[k]
    {
      ScopesStep(p, files, i);
      var scope := p.dirOf(files[i].path);
      if scope !in seen {
        seen := seen + {scope};
        scopes := scopes + [scope];
      }
    }
    assert files[..|files|] == files;
    SortKeepsMembers(scopes);
    SortOfDistinct(scopes);
    scopes := Sort(scopes);
    AscendingIsOnly(Scopes(p, files), scopes);
    manifests := [];
    for i := 0 to |scopes|
      invariant |manifests| == i
      invariant forall j :: 0 <= j < i ==> manifests[j] == Manifest(scopes[j], Listing(p, tree, scopes[j]))
    {
      var listed := ListScope(p, tree, scopes[i]);
      manifests := manifests + [Manifest(scopes[i], listed)];
    }
  }

  // ---------------------------------------------------------------- checking

  datatype Status = Modified | Added | Vanished | NoBaseline

  datatype DriftItem = DriftItem(path: Path, status: Status, symbols: seq<string>)

  datatype Report = Report(decision: string, hasBaseline: bool, files: seq<DriftItem>)

  datatype Kind = DecisionKind | NoteKind | OtherKind

  datatype Record = Record(id: string, kind: Kind, active: bool, mode: string, files: seq<AffectedFile>, manifests: seq<Manifest>)

  const ADDED_SYMBOL := "added"

  /** The symbol changes of a modified file, unless they are additions alone: those prove nothing. */
  function SymbolDrift(p: Project, id: string, path: Path, content: string): (r: seq<string>)
    ensures r == [] || exists s :: s in r && s != ADDED_SYMBOL
  {
    var changes := p.symbols(id, path, content);
    if forall s :: s in changes ==> s == ADDED_SYMBOL then [] else changes
  }

  /** What the check lists for one governed file; at most one entry. */
  function FileItem(p: Project, tree: Tree, id: string, f: AffectedFile): (r: seq<DriftItem>)
    ensures |r| <= 1
  {
    if f.hash == "" then [DriftItem(f.path, NoBaseline, [])]
    else if f.path !in tree then [DriftItem(f.path, Vanished, [])]
    else if p.hash(tree[f.path]) != f.hash then [DriftItem(f.path, Modified, SymbolDrift(p, id, f.path, tree[f.path]))]
    else []
  }

  function FileItems(p: Project, tree: Tree, id: string, files: seq<AffectedFile>): seq<DriftItem> {
    if files == [] then []
    else FileItems(p, tree, id, files[..|files| - 1]) + FileItem(p, tree, id, files[|files| - 1])
  }

  function Unbaselined(files: seq<AffectedFile>): (r: seq<DriftItem>)
    ensures |r| == |files| && forall i :: 0 <= i < |files| ==> r[i] == DriftItem(files[i].path, NoBaseline, [])
  {
    seq(|files|, i requires 0 <= i < |files| => DriftItem(files[i].path, NoBaseline, []))
  }

  function AddedItems(paths: seq<Path>): (r: seq<DriftItem>)
    ensures |r| == |paths| && forall i :: 0 <= i < |paths| ==> r[i] == DriftItem(paths[i], Added, [])
  {
    seq(|paths|, i requires 0 <= i < |paths| => DriftItem(paths[i], Added, []))
  }

  predicate AnyHash(files: seq<AffectedFile>) {
    exists f :: f in files && f.hash != ""
  }

  /** The new files, manifest after manifest: what is known grows with each manifest and with each file found. */
  function FoundFrom(p: Project, tree: Tree, manifests: seq<Manifest>, baselined: set<Path>, governed: set<Path>): set<Path> {
    if manifests == [] then {}
    else
      var known := baselined + (set f | f in manifests[0].files);
      var found := VisibleIn(p, tree, manifests[0].scope) - known - governed;
      found + FoundFrom(p, tree, manifests[1..], known, governed + found)
  }

  function Found(p: Project, tree: Tree, r: Record): set<Path> {
    FoundFrom(p, tree, r.manifests, {}, set f | f in r.files :: f.path)
  }

  predicate Drifted(item: DriftItem) {
    item.status != NoBaseline
  }

  ghost function ReportOf(p: Project, tree: Tree, r: Record): Report {
    if !AnyHash(r.files) then Report(r.id, false, Unbaselined(r.files))
    else Report(r.id, true, FileItems(p, tree, r.id, r.files) + AddedItems(Ascending(Found(p, tree, r))))
  }

  /** A decision without files is skipped; one with a baseline is reported only if something drifted. */
  ghost predicate IsReported(p: Project, tree: Tree, r: Record) {
    && r.kind.DecisionKind? && r.active && r.files != []
    && (!AnyHash(r.files) || exists item :: item in ReportOf(p, tree, r).files && Drifted(item))
  }

  ghost function Reports(p: Project, tree: Tree, records: seq<Record>): seq<Report> {
    if records == [] then []
    else
      var r := records[|records| - 1];
      Reports(p, tree, records[..|records| - 1]) + if IsReported(p, tree, r) then [ReportOf(p, tree, r)] else []
  }
}
