/** When is the calculator exact? The walk loses a path exactly where it comes back to a visited holon. */
module WeakestLinkShape {
  import opened WeakestLink

  /** The edges on which a walk from `h` meets a holon already visited and takes the neutral score. */
  ghost function Revisits(g: Graph, h: HolonId, visited: set<HolonId>): set<(HolonId, HolonId)>
    decreases g.deps.Keys - visited, 0, 1
  {
    if h in visited then {}
    else
      assert h !in g.deps ==> g.deps.Keys - (visited + {h}) == g.deps.Keys - visited;
      DepRevisits(g, h, g.Deps(h), visited + {h})
  }

  ghost function DepRevisits(g: Graph, h: HolonId, deps: seq<Dep>, visited: set<HolonId>): set<(HolonId, HolonId)>
    decreases g.deps.Keys - visited, |deps|, 0
  {
    if deps == [] then {}
    else
      var after := Walk(g, deps[0].id, visited).visited;
      assert g.deps.Keys - after <= g.deps.Keys - visited;
      (if deps[0].id in visited then {(h, deps[0].id)} else {})
      + Revisits(g, deps[0].id, visited)
      + DepRevisits(g, h, deps[1..], after)
  }

  ghost predicate SameIds(a: seq<Dep>, b: seq<Dep>) {
    |a| == |b| && forall i :: 0 <= i < |a| ==> a[i].id == b[i].id
  }

  /** The same holons and edges; self scores and congruence levels may differ. */
  ghost predicate SameShape(g: Graph, f: Graph) {
    g.deps.Keys == f.deps.Keys && forall h :: h in g.deps ==> SameIds(g.deps[h], f.deps[h])
  }

  /** The least effective score after the first dependency of `deps`. */
  ghost function Next(g: Graph, deps: seq<Dep>, visited: set<HolonId>, least: real): real
    requires deps != []
  {
    Min(least, Max(0.0, Walk(g, deps[0].id, visited).score - Penalty(deps[0].cl)))
  }

  lemma DepStep(g: Graph, h: HolonId, deps: seq<Dep>, visited: set<HolonId>, least: real)
    requires deps != []
    ensures var first := Walk(g, deps[0].id, visited);
            var rest := WalkDeps(g, deps[1..], first.visited, Next(g, deps, visited, least));
            && WalkDeps(g, deps, visited, least) == Outcome(rest.score, rest.visited, first.writes + rest.writes)
            && DepRevisits(g, h, deps, visited) ==
                 (if deps[0].id in visited then {(h, deps[0].id)} else {})
                 + Revisits(g, deps[0].id, visited) + DepRevisits(g, h, deps[1..], first.visited)
  {
  }

  lemma PathSplit(g: Graph, h: HolonId, path: seq<Dep>)
    requires IsPath(g, h, path) && path != []
    ensures path[0] in g.Deps(h) && IsPath(g, path[0].id, path[1..])
    ensures End(path[0].id, path[1..]) == End(h, path) && Reaches(g, path[0].id, End(h, path))
    ensures path == [path[0]] + path[1..]
  {
  }

  // ---------------------------------------------------------------- the walk sees the shape only

  lemma {:induction false} SameWalk(g: Graph, f: Graph, h: HolonId, visited: set<HolonId>)
    requires SameShape(g, f)
    ensures Walk(g, h, visited).visited == Walk(f, h, visited).visited
    ensures Revisits(g, h, visited) == Revisits(f, h, visited)
    decreases g.deps.Keys - visited, 0, 1
  {
    if h !in visited {
      assert h !in g.deps ==> g.deps.Keys - (visited + {h}) == g.deps.Keys - visited;
      assert SameIds(g.Deps(h), f.Deps(h));
      SameDepsWalk(g, f, h, g.Deps(h), f.Deps(h), visited + {h}, 1.0, 1.0);
    }
  }

  lemma {:induction false} SameDepsWalk(g: Graph, f: Graph, h: HolonId, a: seq<Dep>, b: seq<Dep>,
                                        visited: set<HolonId>, x: real, y: real)
    requires SameShape(g, f) && SameIds(a, b)
    ensures WalkDeps(g, a, visited, x).visited == WalkDeps(f, b, visited, y).visited
    ensures DepRevisits(g, h, a, visited) == DepRevisits(f, h, b, visited)
    decreases g.deps.Keys - visited, |a|, 0
  {
    if a != [] {
      var after := Walk(g, a[0].id, visited).visited;
      SameWalk(g, f, a[0].id, visited);
      assert g.deps.Keys - after <= g.deps.Keys - visited;
      DepStep(g, h, a, visited, x);
      DepStep(f, h, b, visited, y);
      SameDepsWalk(g, f, h, a[1..], b[1..], after, Next(g, a, visited, x), Next(f, b, visited, y));
    }
  }

  /** A revisit starts at a holon this walk has just entered, along one of its edges. */
  lemma {:induction false} RevisitsStartInside(g: Graph, h: HolonId, visited: set<HolonId>)
    ensures forall e :: e in Revisits(g, h, visited) ==>
              e.0 in Walk(g, h, visited).visited - visited && exists d :: d in g.Deps(e.0) && d.id == e.1
    decreases g.deps.Keys - visited, 0, 1
  {
    if h !in visited {
      assert h !in g.deps ==> g.deps.Keys - (visited + {h}) == g.deps.Keys - visited;
      DepRevisitsStartInside(g, h, g.Deps(h), visited + {h}, 1.0);
    }
  }

  lemma {:induction false} DepRevisitsStartInside(g: Graph, h: HolonId, deps: seq<Dep>, visited: set<HolonId>, least: real)
    ensures forall e :: e in DepRevisits(g, h, deps, visited) ==>
              || (e.0 == h && exists d :: d in deps && d.id == e.1)
              || (e.0 in WalkDeps(g, deps, visited, least).visited - visited
                  && exists d :: d in g.Deps(e.0) && d.id == e.1)
    decreases g.deps.Keys - visited, |deps|, 0
  {
    if deps != [] {
      var first := Walk(g, deps[0].id, visited);
      RevisitsStartInside(g, deps[0].id, visited);
      assert g.deps.Keys - first.visited <= g.deps.Keys - visited;
      var next := Min(least, Max(0.0, first.score - Penalty(deps[0].cl)));
      DepRevisitsStartInside(g, h, deps[1..], first.visited, next);
      forall e | e in DepRevisits(g, h, deps, visited)
        ensures || (e.0 == h && exists d :: d in deps && d.id == e.1)
                || (e.0 in WalkDeps(g, deps, visited, least).visited - visited
                    && exists d :: d in g.Deps(e.0) && d.id == e.1)
      {
        if e == (h, deps[0].id) {
          assert deps[0] in deps;
        } else if e in DepRevisits(g, h, deps[1..], first.visited) && e.0 == h && exists d :: d in deps[1..] && d.id == e.1 {
          var d :| d in deps[1..] && d.id == e.1;
          assert d in deps;
        }
      }
    }
  }

  // ---------------------------------------------------------------- no revisit, no second path

  lemma {:induction false} NoRevisitsSinglePaths(g: Graph, h: HolonId, visited: set<HolonId>)
    requires g.Valid() && h !in visited && Revisits(g, h, visited) == {}
    ensures SinglePaths(g, h)
    ensures forall x :: Reaches(g, h, x) ==> x in Walk(g, h, visited).visited - visited
    decreases g.deps.Keys - visited, 0, 1
  {
    assert h !in g.deps ==> g.deps.Keys - (visited + {h}) == g.deps.Keys - visited;
    var deps := g.Deps(h);
    NoRevisitsBranches(g, h, deps, visited + {h}, 1.0);
    var below := WalkDeps(g, deps, visited + {h}, 1.0).visited - (visited + {h});
    forall p: seq<Dep>, q: seq<Dep> | IsPath(g, h, p) && IsPath(g, h, q) && End(h, p) == End(h, q) ensures p == q {
      if p != [] {
        PathSplit(g, h, p);
        assert End(h, p) in below;
      }
      if q != [] {
        PathSplit(g, h, q);
        assert End(h, q) in below;
      }
      if p != [] && q != [] {
        var i :| 0 <= i < |deps| && deps[i] == p[0];
        var j :| 0 <= j < |deps| && deps[j] == q[0];
        assert i == j;
        assert SinglePaths(g, deps[i].id);
        assert p[1..] == q[1..];
      }
    }
    forall x | Reaches(g, h, x) ensures x in Walk(g, h, visited).visited - visited {
      var p: seq<Dep> :| IsPath(g, h, p) && End(h, p) == x;
      if p != [] {
        PathSplit(g, h, p);
        assert x in below;
      }
    }
  }

  lemma {:induction false} NoRevisitsBranches(g: Graph, h: HolonId, deps: seq<Dep>, visited: set<HolonId>, least: real)
    requires g.Valid() && DepRevisits(g, h, deps, visited) == {}
    ensures forall d :: d in deps ==> SinglePaths(g, d.id)
    ensures forall d, x :: d in deps && Reaches(g, d.id, x) ==> x in WalkDeps(g, deps, visited, least).visited - visited
    ensures Apart(g, deps)
    decreases g.deps.Keys - visited, |deps|, 0
  {
    hide SinglePaths, Reaches, DepRevisits, Revisits;
    if deps != [] {
      var first := Walk(g, deps[0].id, visited);
      DepStep(g, h, deps, visited, least);
      assert (h, deps[0].id) !in DepRevisits(g, h, deps, visited);
      NoRevisitsSinglePaths(g, deps[0].id, visited);
      assert g.deps.Keys - first.visited <= g.deps.Keys - visited;
      var next := Min(least, Max(0.0, first.score - Penalty(deps[0].cl)));
      NoRevisitsBranches(g, h, deps[1..], first.visited, next);
      var rest := WalkDeps(g, deps[1..], first.visited, next);
      forall i, j, x | 0 <= i < j < |deps| && Reaches(g, deps[i].id, x) ensures !Reaches(g, deps[j].id, x) {
        assert deps[1..][j - 1] == deps[j] && deps[j] in deps[1..];
        if i > 0 {
          assert deps[1..][i - 1] == deps[i];
        } else {
          assert x !in rest.visited - first.visited;
        }
      }
      forall d, x | d in deps && Reaches(g, d.id, x)
        ensures x in WalkDeps(g, deps, visited, least).visited - visited
      {
        if d == deps[0] {
          assert x in first.visited - visited;
        } else {
          assert d in deps[1..];
          assert x in rest.visited - first.visited;
        }
      }
    }
  }

  // ---------------------------------------------------------------- a revisit can hide a weak path

  /** An earlier row of the same holon names the same dependency, at another level. */
  ghost predicate Repeated(deps: seq<Dep>, i: nat)
    requires i < |deps|
  {
    exists j :: 0 <= j < i && deps[j].id == deps[i].id
  }

  ghost predicate OnlyRow(deps: seq<Dep>, i: nat)
    requires i < |deps|
  {
    forall j :: 0 <= j < |deps| && j != i ==> deps[j].id != deps[i].id
  }

  /** Only repeated rows are charged, and the edge from `u` to `v` if it is a single row. */
  ghost predicate Charged(f: Graph, u: HolonId, v: HolonId) {
    forall h, i: nat :: h in f.deps && i < |f.deps[h]| && f.deps[h][i].cl != 3 ==>
      Repeated(f.deps[h], i) || (h == u && f.deps[h][i].id == v && OnlyRow(f.deps[h], i))
  }

  ghost predicate SingleEdge(f: Graph, u: HolonId, v: HolonId) {
    exists i: nat :: i < |f.Deps(u)| && f.Deps(u)[i].id == v && OnlyRow(f.Deps(u), i)
  }

  /** Charges that fall on revisits alone take the neutral score 1 to no less than 0.1. */
  lemma {:induction false} ChargesOnRevisits(f: Graph, h: HolonId, visited: set<HolonId>, u: HolonId, v: HolonId)
    requires Charged(f, u, v)
    requires forall x :: x in Walk(f, h, visited).visited - visited ==> f.Self(x) >= 0.1
    requires SingleEdge(f, u, v) && u in Walk(f, h, visited).visited - visited ==> (u, v) in Revisits(f, h, visited)
    ensures Walk(f, h, visited).score >= 0.1
    decreases f.deps.Keys - visited, 0, 1
  {
    hide Charged, SingleEdge;
    if h !in visited {
      assert h !in f.deps ==> f.deps.Keys - (visited + {h}) == f.deps.Keys - visited;
      assert h in Walk(f, h, visited).visited - visited;
      assert f.Deps(h)[0..] == f.Deps(h);
      DepChargesOnRevisits(f, h, 0, visited + {h}, 1.0, u, v);
    }
  }

  /** The row is free, or the holon it names is visited: it is repeated, or it is the charged edge. */
  lemma RowIsFreeOrRevisit(f: Graph, h: HolonId, k: nat, visited: set<HolonId>, least: real, u: HolonId, v: HolonId)
    requires Charged(f, u, v) && h in visited && k < |f.Deps(h)| && h in f.deps
    requires forall j :: 0 <= j < k ==> f.Deps(h)[j].id in visited
    requires SingleEdge(f, u, v) && h == u && (exists i :: k <= i < |f.Deps(h)| && f.Deps(h)[i].id == v) ==>
               (u, v) in DepRevisits(f, h, f.Deps(h)[k..], visited)
    ensures f.Deps(h)[k].cl == 3 || f.Deps(h)[k].id in visited
  {
    hide DepRevisits, Revisits;
    var deps, row := f.Deps(h), f.Deps(h)[k];
    var rest := deps[k..];
    DepStep(f, h, rest, visited, least);
    RevisitsStartInside(f, row.id, visited);
    DepRevisitsStartInside(f, h, rest[1..], Walk(f, row.id, visited).visited, Next(f, rest, visited, least));
    assert rest[1..] == deps[k + 1..];
    if row.cl != 3 && row.id !in visited {
      assert h == u && row.id == v && OnlyRow(deps, k);
      NotNamedLater(deps, k);
    }
  }

  lemma NotNamedLater(deps: seq<Dep>, k: nat)
    requires k < |deps| && OnlyRow(deps, k)
    ensures forall d :: d in deps[k + 1..] ==> d.id != deps[k].id
  {
  }

  lemma OtherRowOfEdge(f: Graph, u: HolonId, v: HolonId, i: nat, j: nat)
    requires SingleEdge(f, u, v) && i < |f.Deps(u)| && j < |f.Deps(u)| && i != j && f.Deps(u)[j].id == v
    ensures f.Deps(u)[i].id != v
  {
  }

  lemma {:induction false} DepChargesOnRevisits(f: Graph, h: HolonId, k: nat, visited: set<HolonId>, least: real,
                                                u: HolonId, v: HolonId)
    requires Charged(f, u, v) && h in visited && least >= 0.1 && k <= |f.Deps(h)|
    requires forall j :: 0 <= j < k ==> f.Deps(h)[j].id in visited
    requires forall x :: x in WalkDeps(f, f.Deps(h)[k..], visited, least).visited - visited ==> f.Self(x) >= 0.1
    requires SingleEdge(f, u, v) && u in WalkDeps(f, f.Deps(h)[k..], visited, least).visited - visited ==>
               (u, v) in DepRevisits(f, h, f.Deps(h)[k..], visited)
    requires SingleEdge(f, u, v) && h == u && (exists i :: k <= i < |f.Deps(h)| && f.Deps(h)[i].id == v) ==>
               (u, v) in DepRevisits(f, h, f.Deps(h)[k..], visited)
    ensures WalkDeps(f, f.Deps(h)[k..], visited, least).score >= 0.1
    decreases f.deps.Keys - visited, |f.Deps(h)| - k, 0
  {
    hide Revisits, DepRevisits, Charged, SingleEdge;
    var deps := f.Deps(h)[k..];
    if deps != [] {
      var d0, first := deps[0], Walk(f, deps[0].id, visited);
      var next := Next(f, deps, visited, least);
      var rest := WalkDeps(f, deps[1..], first.visited, next);
      assert deps[1..] == f.Deps(h)[k + 1..];
      DepStep(f, h, deps, visited, least);
      RevisitsStartInside(f, d0.id, visited);
      DepRevisitsStartInside(f, h, deps[1..], first.visited, next);
      assert f.deps.Keys - first.visited <= f.deps.Keys - visited;
      RowIsFreeOrRevisit(f, h, k, visited, least, u, v);
      if d0.id !in visited {
        ChargesOnRevisits(f, d0.id, visited, u, v);
      }
      WalkSweeps(f, d0.id, visited);
      if SingleEdge(f, u, v) && h == u {
        if i :| k + 1 <= i < |f.Deps(h)| && f.Deps(h)[i].id == v {
          OtherRowOfEdge(f, u, v, k, i);
        }
      }
      DepChargesOnRevisits(f, h, k + 1, first.visited, next, u, v);
    }
  }

  /** How many earlier rows name the same dependency. */
  function Occurrence(deps: seq<Dep>, i: nat): (n: nat)
    requires i < |deps|
  {
    |set j | 0 <= j < i && deps[j].id == deps[i].id|
  }

  lemma OccurrenceRises(deps: seq<Dep>, i: nat, j: nat)
    requires i < j < |deps| && deps[i].id == deps[j].id
    ensures Occurrence(deps, i) < Occurrence(deps, j)
  {
    var a := set k | 0 <= k < i && deps[k].id == deps[i].id;
    var b := set k | 0 <= k < j && deps[k].id == deps[j].id;
    assert i in b && i !in a && a <= b;
    assert b == a + (b - a);
  }

  lemma OccurrenceZero(deps: seq<Dep>, i: nat)
    requires i < |deps|
    ensures Occurrence(deps, i) == 0 <==> !Repeated(deps, i)
  {
    var a := set j | 0 <= j < i && deps[j].id == deps[i].id;
    if Repeated(deps, i) {
      var j :| 0 <= j < i && deps[j].id == deps[i].id;
      assert j in a;
    } else {
      assert a == {};
    }
  }

  /** The first row of a dependency is free, its repetitions cost more and more; a single row to `v` is charged
      where the edge is. */
  ghost function ProbeLevel(deps: seq<Dep>, i: nat, edge: bool, v: HolonId): int
    requires i < |deps|
  {
    if edge && deps[i].id == v && OnlyRow(deps, i) then 1 else 3 - Occurrence(deps, i)
  }

  ghost function Relevel(deps: seq<Dep>, edge: bool, v: HolonId): (r: seq<Dep>)
    ensures |r| == |deps|
    ensures forall i :: 0 <= i < |deps| ==> r[i] == Dep(deps[i].id, ProbeLevel(deps, i, edge, v))
  {
    seq(|deps|, i requires 0 <= i < |deps| => Dep(deps[i].id, ProbeLevel(deps, i, edge, v)))
  }

  lemma RelevelKeepsRows(deps: seq<Dep>, edge: bool, v: HolonId)
    ensures SameIds(deps, Relevel(deps, edge, v)) && NoRepeats(Relevel(deps, edge, v))
    ensures forall i: nat :: i < |deps| ==>
              && (Repeated(Relevel(deps, edge, v), i) <==> Repeated(deps, i))
              && (OnlyRow(Relevel(deps, edge, v), i) <==> OnlyRow(deps, i))
  {
    hide Occurrence;
    var r := Relevel(deps, edge, v);
    forall i, j | 0 <= i < j < |r| ensures r[i] != r[j] {
      if deps[i].id == deps[j].id {
        OccurrenceRises(deps, i, j);
      }
    }
  }

  /** The shape of `g` with charges on repeated rows and on the edge from `u` to `v`, and one weak holon, `v`. */
  ghost function Probe(g: Graph, holons: set<HolonId>, u: HolonId, v: HolonId): Graph {
    Graph(map h | h in g.deps :: Relevel(g.deps[h], h == u, v),
          map x | x in holons :: if x == v then 0.1 else 1.0)
  }

  lemma {:induction false} PathSnoc(g: Graph, h: HolonId, path: seq<Dep>, d: Dep)
    requires IsPath(g, h, path) && d in g.Deps(End(h, path))
    ensures IsPath(g, h, path + [d]) && Toll(path + [d]) == Toll(path) + Penalty(d.cl)
    decreases |path|
  {
    if path == [] {
      assert [d][1..] == [] && path + [d] == [d];
    } else {
      PathSplit(g, h, path);
      PathSnoc(g, path[0].id, path[1..], d);
      assert (path + [d])[1..] == path[1..] + [d];
    }
  }

  lemma ProbeShape(g: Graph, holons: set<HolonId>, u: HolonId, v: HolonId)
    ensures var f := Probe(g, holons, u, v);
            && f.Valid() && SameShape(g, f) && Charged(f, u, v)
            && (forall x :: x in holons ==> f.Self(x) == if x == v then 0.1 else 1.0)
  {
    hide Occurrence, OnlyRow, Repeated, NoRepeats;
    var f := Probe(g, holons, u, v);
    forall h | h in g.deps
      ensures SameIds(g.deps[h], f.deps[h]) && NoRepeats(f.deps[h])
      ensures forall i: nat :: i < |f.deps[h]| && f.deps[h][i].cl != 3 ==>
                Repeated(f.deps[h], i) || (h == u && f.deps[h][i].id == v && OnlyRow(f.deps[h], i))
    {
      RelevelKeepsRows(g.deps[h], h == u, v);
      forall i: nat | i < |g.deps[h]| ensures Occurrence(g.deps[h], i) == 0 <==> !Repeated(g.deps[h], i) {
        OccurrenceZero(g.deps[h], i);
      }
    }
  }

  /** The edge is a single row, or one of its rows is a repetition. */
  lemma SingleOrRepeated(deps: seq<Dep>, v: HolonId) returns (i: nat)
    requires exists d :: d in deps && d.id == v
    ensures i < |deps| && deps[i].id == v && (OnlyRow(deps, i) || (Repeated(deps, i) && !OnlyRow(deps, i)))
  {
    var row :| row in deps && row.id == v;
    i :| 0 <= i < |deps| && deps[i] == row;
    if !OnlyRow(deps, i) {
      var j: nat :| j < |deps| && j != i && deps[j].id == deps[i].id;
      if i < j {
        i := j;
      }
    }
  }

  lemma ChargedLevel(deps: seq<Dep>, i: nat, v: HolonId)
    requires i < |deps| && deps[i].id == v && (OnlyRow(deps, i) || Repeated(deps, i))
    ensures Penalty(ProbeLevel(deps, i, true, v)) >= 0.1
  {
    hide Occurrence, OnlyRow, Repeated;
    OccurrenceZero(deps, i);
  }

  /** Some row of the edge is charged. */
  lemma ChargedRow(g: Graph, holons: set<HolonId>, u: HolonId, v: HolonId) returns (d: Dep)
    requires exists d :: d in g.Deps(u) && d.id == v
    ensures d in Probe(g, holons, u, v).Deps(u) && d.id == v && Penalty(d.cl) >= 0.1
  {
    hide ProbeLevel, OnlyRow, Repeated, Penalty;
    var i := SingleOrRepeated(g.Deps(u), v);
    ChargedLevel(g.Deps(u), i, v);
    var r := Relevel(g.Deps(u), true, v);
    d := r[i];
    assert Probe(g, holons, u, v).Deps(u) == r;
  }

  /** A path ending in a charged row to a self score of 0.1 is worth nothing. */
  lemma ChargedEdgeIsWeak(f: Graph, root: HolonId, u: HolonId, d: Dep)
    requires f.Self(d.id) == 0.1 && d in f.Deps(u) && Penalty(d.cl) >= 0.1 && Reaches(f, root, u)
    ensures exists path :: IsPath(f, root, path) && Value(f, root, path) == 0.0
  {
    var path :| IsPath(f, root, path) && End(root, path) == u;
    PathSnoc(f, root, path, d);
    assert End(root, path + [d]) == d.id;
    assert Value(f, root, path + [d]) == 0.0;
  }

  lemma RevisitHidesPath(g: Graph, root: HolonId, u: HolonId, v: HolonId)
    requires (u, v) in Revisits(g, root, {})
    ensures exists f: Graph :: f.Valid() && SameShape(g, f) && !IsWeakestLink(f, root, Walk(f, root, {}).score)
  {
    hide Relevel, Charged, SingleEdge;
    var holons := Walk(g, root, {}).visited;
    var f := Probe(g, holons, u, v);
    ProbeShape(g, holons, u, v);
    SameWalk(g, f, root, {});
    WalkSweeps(f, root, {});
    RevisitsStartInside(g, root, {});
    WalkReaches(f, root, {});
    assert holons - {} == holons;
    var d := ChargedRow(g, holons, u, v);
    ChargesOnRevisits(f, root, {}, u, v);
    ChargedEdgeIsWeak(f, root, u, d);
  }

  // ---------------------------------------------------------------- the exact condition

  /** The path of `g` along the rows at the positions that `p` takes in `f`. */
  ghost predicate Follows(g: Graph, f: Graph, h: HolonId, p: seq<Dep>, q: seq<Dep>)
    decreases |p|
  {
    && |p| == |q|
    && (p != [] ==>
          && p[0].id == q[0].id
          && (exists i :: 0 <= i < |f.Deps(h)| && i < |g.Deps(h)| && f.Deps(h)[i] == p[0] && g.Deps(h)[i] == q[0])
          && Follows(g, f, p[0].id, p[1..], q[1..]))
  }

  lemma {:induction false} Retrace(g: Graph, f: Graph, h: HolonId, p: seq<Dep>) returns (q: seq<Dep>)
    requires SameShape(g, f) && IsPath(f, h, p)
    ensures IsPath(g, h, q) && Follows(g, f, h, p, q) && End(h, q) == End(h, p)
    decreases |p|
  {
    q := [];
    if p != [] {
      PathSplit(f, h, p);
      var i :| 0 <= i < |f.Deps(h)| && f.Deps(h)[i] == p[0];
      assert SameIds(g.Deps(h), f.Deps(h));
      var d := g.Deps(h)[i];
      var rest := Retrace(g, f, p[0].id, p[1..]);
      PathCons(g, h, d, rest);
      q := [d] + rest;
      assert q[1..] == rest;
    }
  }

  lemma {:induction false} FollowsOne(g: Graph, f: Graph, h: HolonId, p: seq<Dep>, p': seq<Dep>, q: seq<Dep>)
    requires g.Valid() && Follows(g, f, h, p, q) && Follows(g, f, h, p', q)
    ensures p == p'
    decreases |p|
  {
    if p != [] {
      var i :| 0 <= i < |f.Deps(h)| && i < |g.Deps(h)| && f.Deps(h)[i] == p[0] && g.Deps(h)[i] == q[0];
      var j :| 0 <= j < |f.Deps(h)| && j < |g.Deps(h)| && f.Deps(h)[j] == p'[0] && g.Deps(h)[j] == q[0];
      assert i == j;
      FollowsOne(g, f, p[0].id, p[1..], p'[1..], q[1..]);
      assert p == [p[0]] + p[1..] && p' == [p'[0]] + p'[1..];
    }
  }

  /** Single paths are a matter of the shape. */
  lemma SinglePathsOfShape(g: Graph, f: Graph, root: HolonId)
    requires g.Valid() && SameShape(g, f) && SinglePaths(g, root)
    ensures SinglePaths(f, root)
  {
    forall p: seq<Dep>, q: seq<Dep> | IsPath(f, root, p) && IsPath(f, root, q) && End(root, p) == End(root, q)
      ensures p == q
    {
      var p' := Retrace(g, f, root, p);
      var q' := Retrace(g, f, root, q);
      assert p' == q';
      FollowsOne(g, f, root, p, q, p');
    }
  }

  /** The score is the weakest link for every choice of self scores and congruence levels if and only if
      no holon is reached by two paths; then every cached score is a weakest link too. */
  lemma ExactForAllWeightsIffSinglePaths(g: Graph, root: HolonId)
    requires g.Valid()
    ensures SinglePaths(g, root) <==>
            forall f: Graph :: f.Valid() && SameShape(g, f) ==> IsWeakestLink(f, root, Walk(f, root, {}).score)
    ensures SinglePaths(g, root) <==>
            forall f: Graph :: f.Valid() && SameShape(g, f) ==>
              IsWeakestLink(f, root, Walk(f, root, {}).score) && AllExact(f, Walk(f, root, {}).writes)
  {
    hide SinglePaths, IsWeakestLink, AllExact, SameShape, Revisits;
    if SinglePaths(g, root) {
      forall f: Graph | f.Valid() && SameShape(g, f)
        ensures IsWeakestLink(f, root, Walk(f, root, {}).score) && AllExact(f, Walk(f, root, {}).writes)
      {
        SinglePathsOfShape(g, f, root);
        ExactOnSinglePaths(f, root, {});
      }
    } else {
      if Revisits(g, root, {}) == {} {
        NoRevisitsSinglePaths(g, root, {});
      }
      var e :| e in Revisits(g, root, {});
      RevisitHidesPath(g, root, e.0, e.1);
    }
  }
}
