/** The weakest-link reliability calculator: a depth-first walk with one visited set, over any dependency graph. */
module WeakestLink {
  // The graph may contain cycles and diamonds; a holon reached a second time answers with the neutral score 1.0.
  // `Walk` specifies the walk, and the lemmas compare its answer with the reference definition: the least value over
  // all dependency paths.

  type HolonId = string

  /** One row of the dependency query. */
  datatype Dep = Dep(id: HolonId, cl: int)

  /** What the walk reads from the database. A holon without rows has no dependencies and, having no
      evidence, the self score 0.0. */
  datatype Graph = Graph(deps: map<HolonId, seq<Dep>>, self: map<HolonId, real>) {
    function Deps(h: HolonId): seq<Dep> {
      if h in deps then deps[h] else []
    }

    function Self(h: HolonId): real {
      if h in self then self[h] else 0.0
    }

    /** Self scores lie in [0,1], and the dependency query is a UNION: it repeats no row. */
    ghost predicate Valid() {
      && (forall h :: h in self ==> 0.0 <= self[h] <= 1.0)
      && (forall h :: h in deps ==> NoRepeats(deps[h]))
    }
  }

  ghost predicate NoRepeats<T(!new)>(s: seq<T>) {
    forall i, j :: 0 <= i < j < |s| ==> s[i] != s[j]
  }

  function Penalty(cl: int): real {
    match cl
    case 3 => 0.0
    case 2 => 0.1
    case 1 => 0.4
    case _ => 0.9
  }

  function Min(a: real, b: real): real {
    if a < b then a else b
  }

  function Max(a: real, b: real): real {
    if a > b then a else b
  }

  // ---------------------------------------------------------------- the walk, as a function

  /** The score answered, the visited set afterwards, and the cache writes in the order made. */
  datatype Outcome = Outcome(score: real, visited: set<HolonId>, writes: seq<(HolonId, real)>)

  function Walk(g: Graph, h: HolonId, visited: set<HolonId>): (o: Outcome)
    ensures visited <= o.visited
    decreases g.deps.Keys - visited, 0, 1
  {
    if h in visited then
      Outcome(1.0, visited, [])
    else
      var deps := g.Deps(h);
      assert h !in g.deps ==> g.deps.Keys - (visited + {h}) == g.deps.Keys - visited;
      var rest := WalkDeps(g, deps, visited + {h}, 1.0);
      var score := if |deps| > 0 then Min(g.Self(h), rest.score) else g.Self(h);
      Outcome(score, rest.visited, rest.writes + [(h, score)])
  }

  function WalkDeps(g: Graph, deps: seq<Dep>, visited: set<HolonId>, least: real): (o: Outcome)
    ensures visited <= o.visited
    decreases g.deps.Keys - visited, |deps|, 0
  {
    if deps == [] then
      Outcome(least, visited, [])
    else
      var first := Walk(g, deps[0].id, visited);
      assert g.deps.Keys - first.visited <= g.deps.Keys - visited;
      var effective := Max(0.0, first.score - Penalty(deps[0].cl));
      var rest := WalkDeps(g, deps[1..], first.visited, Min(least, effective));
      Outcome(rest.score, rest.visited, first.writes + rest.writes)
  }

  // ---------------------------------------------------------------- the reference definition

  /** A path is the list of dependency rows followed from `h`. */
  ghost predicate IsPath(g: Graph, h: HolonId, path: seq<Dep>)
    decreases |path|
  {
    path == [] || (path[0] in g.Deps(h) && IsPath(g, path[0].id, path[1..]))
  }

  function End(h: HolonId, path: seq<Dep>): HolonId {
    if path == [] then h else path[|path| - 1].id
  }

  function Toll(path: seq<Dep>): (t: real)
    ensures t >= 0.0
  {
    if path == [] then 0.0 else Penalty(path[0].cl) + Toll(path[1..])
  }

  /** What the end of the path is worth to `h`: its self score less every penalty on the way. */
  function Value(g: Graph, h: HolonId, path: seq<Dep>): real {
    Max(0.0, g.Self(End(h, path)) - Toll(path))
  }

  /** How many rows of the path are at the level. */
  function RowsAt(path: seq<Dep>, level: int): nat {
    if path == [] then 0 else RowsAt(path[1..], level) + if path[0].cl == level then 1 else 0
  }

  /** What a path costs in numbers: nothing for a row at level 3, 0.1 at level 2, 0.4 at level 1 and 0.9 otherwise. */
  lemma {:induction false} TollByLevel(path: seq<Dep>)
    ensures RowsAt(path, 3) + RowsAt(path, 2) + RowsAt(path, 1) <= |path|
    ensures Toll(path) == 0.1 * RowsAt(path, 2) as real + 0.4 * RowsAt(path, 1) as real
                          + 0.9 * (|path| - RowsAt(path, 3) - RowsAt(path, 2) - RowsAt(path, 1)) as real
  {
    if path != [] {
      TollByLevel(path[1..]);
    }
  }

  /** The worth of a path in numbers. */
  function Worth(g: Graph, h: HolonId, path: seq<Dep>): real {
    var others := |path| - RowsAt(path, 3) - RowsAt(path, 2) - RowsAt(path, 1);
    var left := g.Self(End(h, path))
                - (0.1 * RowsAt(path, 2) as real + 0.4 * RowsAt(path, 1) as real + 0.9 * others as real);
    if left < 0.0 then 0.0 else left
  }

  /** The score is the least worth over all dependency paths. */
  ghost predicate IsLeastWorth(g: Graph, h: HolonId, score: real) {
    && (forall path :: IsPath(g, h, path) ==> score <= Worth(g, h, path))
    && (exists path :: IsPath(g, h, path) && Worth(g, h, path) == score)
  }

  lemma WeakestLinkIsLeastWorth(g: Graph, h: HolonId, score: real)
    ensures IsWeakestLink(g, h, score) <==> IsLeastWorth(g, h, score)
  {
    hide IsPath, Toll, RowsAt, End;
    forall path ensures Value(g, h, path) == Worth(g, h, path) {
      TollByLevel(path);
    }
  }

  ghost predicate Reaches(g: Graph, h: HolonId, x: HolonId) {
    exists path :: IsPath(g, h, path) && End(h, path) == x
  }

  /** `v` is the weakest link of `h`: no dependency path is worth less, and one is worth just `v`. */
  ghost predicate IsWeakestLink(g: Graph, h: HolonId, v: real) {
    && (forall path :: IsPath(g, h, path) ==> v <= Value(g, h, path))
    && (exists path :: IsPath(g, h, path) && Value(g, h, path) == v)
  }

  /** No holon is reached from `h` by two different paths. */
  ghost predicate SinglePaths(g: Graph, h: HolonId) {
    forall p, q :: IsPath(g, h, p) && IsPath(g, h, q) && End(h, p) == End(h, q) ==> p == q
  }

  ghost predicate NoPenalties(g: Graph) {
    forall h, d :: h in g.deps && d in g.deps[h] ==> d.cl == 3
  }

  function Ids(writes: seq<(HolonId, real)>): (ids: seq<HolonId>)
    ensures |ids| == |writes|
    ensures forall i :: 0 <= i < |writes| ==> ids[i] == writes[i].0
  {
    if writes == [] then [] else [writes[0].0] + Ids(writes[1..])
  }

  // ---------------------------------------------------------------- each reachable holon, once

  /** The holons a walk from `h` adds: all reachable, closed under dependencies, each written once. */
  ghost predicate Sweeps(g: Graph, before: set<HolonId>, o: Outcome) {
    && (forall x :: x in o.visited - before <==> x in Ids(o.writes))
    && NoRepeats(Ids(o.writes))
    && (forall x, d :: x in o.visited - before && d in g.Deps(x) ==> d.id in o.visited)
  }

  lemma IdsAppend(a: seq<(HolonId, real)>, b: seq<(HolonId, real)>)
    ensures Ids(a + b) == Ids(a) + Ids(b)
  {
  }

  /** A holon scored after all its dependencies were walked. */
  lemma SweepsRoot(g: Graph, before: set<HolonId>, h: HolonId, rest: Outcome, score: real)
    requires h !in before && before + {h} <= rest.visited && Sweeps(g, before + {h}, rest)
    requires forall d :: d in g.Deps(h) ==> d.id in rest.visited
    ensures Sweeps(g, before, Outcome(score, rest.visited, rest.writes + [(h, score)]))
  {
    var o := Outcome(score, rest.visited, rest.writes + [(h, score)]);
    IdsAppend(rest.writes, [(h, score)]);
    assert Ids(o.writes) == Ids(rest.writes) + [h];
    assert o.visited - before == (rest.visited - (before + {h})) + {h};
  }

  lemma {:induction false} WalkSweeps(g: Graph, h: HolonId, visited: set<HolonId>)
    ensures Sweeps(g, visited, Walk(g, h, visited)) && h in Walk(g, h, visited).visited
    decreases g.deps.Keys - visited, 0, 1
  {
    hide Sweeps;
    if h !in visited {
      assert h !in g.deps ==> g.deps.Keys - (visited + {h}) == g.deps.Keys - visited;
      WalkDepsSweeps(g, g.Deps(h), visited + {h}, 1.0);
      var rest := WalkDeps(g, g.Deps(h), visited + {h}, 1.0);
      SweepsRoot(g, visited, h, rest, Walk(g, h, visited).score);
    } else {
      NothingSwept(g, visited);
    }
  }

  lemma NothingSwept(g: Graph, before: set<HolonId>)
    ensures forall score :: Sweeps(g, before, Outcome(score, before, []))
  {
  }

  lemma SweepsCompose(g: Graph, before: set<HolonId>, first: Outcome, rest: Outcome)
    requires before <= first.visited <= rest.visited
    requires Sweeps(g, before, first) && Sweeps(g, first.visited, rest)
    ensures Sweeps(g, before, Outcome(rest.score, rest.visited, first.writes + rest.writes))
  {
    var o := Outcome(rest.score, rest.visited, first.writes + rest.writes);
    IdsAppend(first.writes, rest.writes);
    var a, b := Ids(first.writes), Ids(rest.writes);
    forall x ensures x in o.visited - before <==> x in a + b {
      assert x in o.visited - before <==> x in first.visited - before || x in rest.visited - first.visited;
    }
    forall i, j | 0 <= i < j < |a + b| ensures (a + b)[i] != (a + b)[j] {
      if i < |a| <= j {
        assert a[i] in a && b[j - |a|] in b;
      }
    }
  }

  lemma {:induction false} WalkDepsSweeps(g: Graph, deps: seq<Dep>, visited: set<HolonId>, least: real)
    ensures var o := WalkDeps(g, deps, visited, least);
            Sweeps(g, visited, o) && forall d :: d in deps ==> d.id in o.visited
    decreases g.deps.Keys - visited, |deps|, 0
  {
    hide Sweeps;
    if deps != [] {
      var first := Walk(g, deps[0].id, visited);
      WalkSweeps(g, deps[0].id, visited);
      assert g.deps.Keys - first.visited <= g.deps.Keys - visited;
      var next := Min(least, Max(0.0, first.score - Penalty(deps[0].cl)));
      WalkDepsSweeps(g, deps[1..], first.visited, next);
      SweepsCompose(g, visited, first, WalkDeps(g, deps[1..], first.visited, next));
      forall d | d in deps ensures d.id in WalkDeps(g, deps, visited, least).visited {
        assert d == deps[0] || d in deps[1..];
      }
    } else {
      NothingSwept(g, visited);
    }
  }

  lemma {:induction false} WalkReaches(g: Graph, h: HolonId, visited: set<HolonId>)
    ensures forall x :: x in Walk(g, h, visited).visited - visited ==> Reaches(g, h, x)
    decreases g.deps.Keys - visited, 0, 1
  {
    if h !in visited {
      assert h !in g.deps ==> g.deps.Keys - (visited + {h}) == g.deps.Keys - visited;
      WalkDepsReaches(g, g.Deps(h), visited + {h}, 1.0);
      forall x | x in Walk(g, h, visited).visited - visited ensures Reaches(g, h, x) {
        if x == h {
          assert IsPath(g, h, []) && End(h, []) == h;
        } else {
          assert x in WalkDeps(g, g.Deps(h), visited + {h}, 1.0).visited - (visited + {h});
          var d: Dep :| d in g.Deps(h) && Reaches(g, d.id, x);
          var path: seq<Dep> :| IsPath(g, d.id, path) && End(d.id, path) == x;
          PathCons(g, h, d, path);
        }
      }
    }
  }

  lemma {:induction false} WalkDepsReaches(g: Graph, deps: seq<Dep>, visited: set<HolonId>, least: real)
    ensures forall x :: x in WalkDeps(g, deps, visited, least).visited - visited ==>
              exists d: Dep :: d in deps && Reaches(g, d.id, x)
    decreases g.deps.Keys - visited, |deps|, 0
  {
    if deps != [] {
      var first := Walk(g, deps[0].id, visited);
      WalkReaches(g, deps[0].id, visited);
      assert g.deps.Keys - first.visited <= g.deps.Keys - visited;
      var next := Min(least, Max(0.0, first.score - Penalty(deps[0].cl)));
      WalkDepsReaches(g, deps[1..], first.visited, next);
      forall x | x in WalkDeps(g, deps, visited, least).visited - visited
        ensures exists d: Dep :: d in deps && Reaches(g, d.id, x)
      {
        if x in first.visited {
          assert deps[0] in deps && Reaches(g, deps[0].id, x);
        } else {
          assert x in WalkDeps(g, deps[1..], first.visited, next).visited - first.visited;
          var d: Dep :| d in deps[1..] && Reaches(g, d.id, x);
          assert d in deps;
        }
      }
    }
  }

  lemma PathCons(g: Graph, h: HolonId, d: Dep, path: seq<Dep>)
    requires d in g.Deps(h) && IsPath(g, d.id, path)
    ensures IsPath(g, h, [d] + path)
    ensures End(h, [d] + path) == End(d.id, path)
    ensures Toll([d] + path) == Penalty(d.cl) + Toll(path)
    ensures g.Valid() ==> Value(g, h, [d] + path) == Max(0.0, Value(g, d.id, path) - Penalty(d.cl))
  {
    assert ([d] + path)[1..] == path;
  }

  lemma {:induction false} ClosedHoldsEnds(g: Graph, s: set<HolonId>, h: HolonId, path: seq<Dep>)
    requires h in s && IsPath(g, h, path)
    requires forall x, d :: x in s && d in g.Deps(x) ==> d.id in s
    ensures End(h, path) in s
    decreases |path|
  {
    if path != [] {
      ClosedHoldsEnds(g, s, path[0].id, path[1..]);
    }
  }

  /** On any finite graph, cycles and diamonds included, a walk evaluates and caches every holon
      reachable from the root exactly once, and no other holon. */
  lemma EachReachableHolonOnce(g: Graph, root: HolonId)
    ensures NoRepeats(Ids(Walk(g, root, {}).writes))
    ensures forall x :: x in Ids(Walk(g, root, {}).writes) <==> Reaches(g, root, x)
  {
    var o := Walk(g, root, {});
    WalkSweeps(g, root, {});
    WalkReaches(g, root, {});
    assert o.visited - {} == o.visited;
    forall x | Reaches(g, root, x) ensures x in o.visited {
      var path :| IsPath(g, root, path) && End(root, path) == x;
      ClosedHoldsEnds(g, o.visited, root, path);
    }
  }

  // ---------------------------------------------------------------- scores

  /** Every answer and every cached score lies in [0,1]. */
  lemma {:induction false} ScoresInRange(g: Graph, h: HolonId, visited: set<HolonId>)
    requires g.Valid()
    ensures var o := Walk(g, h, visited);
            0.0 <= o.score <= 1.0 && forall w :: w in o.writes ==> 0.0 <= w.1 <= 1.0
    decreases g.deps.Keys - visited, 0, 1
  {
    if h !in visited {
      assert h !in g.deps ==> g.deps.Keys - (visited + {h}) == g.deps.Keys - visited;
      DepScoresInRange(g, g.Deps(h), visited + {h}, 1.0);
    }
  }

  lemma {:induction false} DepScoresInRange(g: Graph, deps: seq<Dep>, visited: set<HolonId>, least: real)
    requires g.Valid() && 0.0 <= least <= 1.0
    ensures var o := WalkDeps(g, deps, visited, least);
            0.0 <= o.score <= least && forall w :: w in o.writes ==> 0.0 <= w.1 <= 1.0
    decreases g.deps.Keys - visited, |deps|, 0
  {
    if deps != [] {
      var first := Walk(g, deps[0].id, visited);
      ScoresInRange(g, deps[0].id, visited);
      assert g.deps.Keys - first.visited <= g.deps.Keys - visited;
      DepScoresInRange(g, deps[1..], first.visited, Min(least, Max(0.0, first.score - Penalty(deps[0].cl))));
    }
  }

  /** With no penalties, a walk that enters a new holon answers the least self score among the holons
      it adds. */
  lemma {:induction false} NewHolonsDecide(g: Graph, h: HolonId, visited: set<HolonId>)
    requires g.Valid() && NoPenalties(g)
    ensures var o := Walk(g, h, visited);
            && (forall x :: x in o.visited - visited ==> o.score <= g.Self(x))
            && (if h in visited then o.score == 1.0
                else exists x :: x in o.visited - visited && o.score == g.Self(x))
    decreases g.deps.Keys - visited, 0, 1
  {
    if h !in visited {
      assert h !in g.deps ==> g.deps.Keys - (visited + {h}) == g.deps.Keys - visited;
      NewDepsDecide(g, g.Deps(h), visited + {h}, 1.0);
      var o := Walk(g, h, visited);
      assert h in o.visited - visited;
      assert g.Self(h) <= 1.0;
    }
  }

  lemma {:induction false} NewDepsDecide(g: Graph, deps: seq<Dep>, visited: set<HolonId>, least: real)
    requires g.Valid() && 0.0 <= least <= 1.0 && forall d :: d in deps ==> NoPenalties(g) && d.cl == 3
    requires NoPenalties(g)
    ensures var o := WalkDeps(g, deps, visited, least);
            && o.score <= least
            && (forall x :: x in o.visited - visited ==> o.score <= g.Self(x))
            && (o.score == least || exists x :: x in o.visited - visited && o.score == g.Self(x))
    decreases g.deps.Keys - visited, |deps|, 0
  {
    if deps != [] {
      var first := Walk(g, deps[0].id, visited);
      NewHolonsDecide(g, deps[0].id, visited);
      ScoresInRange(g, deps[0].id, visited);
      assert g.deps.Keys - first.visited <= g.deps.Keys - visited;
      NewDepsDecide(g, deps[1..], first.visited, Min(least, first.score));
    }
  }

  /** With every edge at CL3 the root's score is exactly its weakest link, whatever the shape. */
  lemma ExactWithoutPenalties(g: Graph, root: HolonId)
    requires g.Valid() && NoPenalties(g)
    ensures IsWeakestLink(g, root, Walk(g, root, {}).score)
    ensures forall x :: Reaches(g, root, x) ==> Walk(g, root, {}).score <= g.Self(x)
    ensures exists x :: Reaches(g, root, x) && Walk(g, root, {}).score == g.Self(x)
  {
    var o := Walk(g, root, {});
    NewHolonsDecide(g, root, {});
    EachReachableHolonOnce(g, root);
    WalkSweeps(g, root, {});
    assert o.visited - {} == o.visited;
    forall path | IsPath(g, root, path) ensures Value(g, root, path) == g.Self(End(root, path)) {
      FreePath(g, root, path);
    }
    forall path | IsPath(g, root, path) ensures o.score <= Value(g, root, path) {
      assert Reaches(g, root, End(root, path));
    }
    var x :| x in o.visited && o.score == g.Self(x);
    assert Reaches(g, root, x);
  }

  lemma {:induction false} FreePath(g: Graph, h: HolonId, path: seq<Dep>)
    requires NoPenalties(g) && IsPath(g, h, path)
    ensures Toll(path) == 0.0
    decreases |path|
  {
    if path != [] {
      FreePath(g, path[0].id, path[1..]);
    }
  }

  /** On any graph and with any penalties, the score is never below the weakest link: whatever bounds
      every dependency path from below bounds the score. */
  lemma {:induction false} NeverBelowPaths(g: Graph, h: HolonId, visited: set<HolonId>, bound: real)
    requires g.Valid()
    requires forall path :: IsPath(g, h, path) ==> bound <= Value(g, h, path)
    ensures bound <= Walk(g, h, visited).score
    decreases g.deps.Keys - visited, 0, 1
  {
    assert IsPath(g, h, []);
    assert bound <= Value(g, h, []) <= 1.0;
    if h !in visited {
      assert h !in g.deps ==> g.deps.Keys - (visited + {h}) == g.deps.Keys - visited;
      forall d, path | d in g.Deps(h) && IsPath(g, d.id, path)
        ensures bound <= Max(0.0, Value(g, d.id, path) - Penalty(d.cl))
      {
        PathCons(g, h, d, path);
      }
      DepsNeverBelowPaths(g, g.Deps(h), visited + {h}, 1.0, bound);
    }
  }

  lemma {:induction false} DepsNeverBelowPaths(g: Graph, deps: seq<Dep>, visited: set<HolonId>, least: real, bound: real)
    requires g.Valid() && bound <= least
    requires forall d: Dep, path :: d in deps && IsPath(g, d.id, path) ==>
               bound <= Max(0.0, Value(g, d.id, path) - Penalty(d.cl))
    ensures bound <= WalkDeps(g, deps, visited, least).score
    decreases g.deps.Keys - visited, |deps|, 0
  {
    if deps != [] {
      var first := Walk(g, deps[0].id, visited);
      assert g.deps.Keys - first.visited <= g.deps.Keys - visited;
      if bound > 0.0 {
        NeverBelowPaths(g, deps[0].id, visited, bound + Penalty(deps[0].cl));
      }
      DepsNeverBelowPaths(g, deps[1..], first.visited, Min(least, Max(0.0, first.score - Penalty(deps[0].cl))), bound);
    }
  }

  // ---------------------------------------------------------------- one path to each holon

  lemma BranchesDiffer(g: Graph, h: HolonId, d: Dep, e: Dep, x: HolonId)
    requires SinglePaths(g, h) && d in g.Deps(h) && e in g.Deps(h) && d != e && Reaches(g, d.id, x)
    ensures !Reaches(g, e.id, x)
  {
    hide IsPath, End, Toll;
    if Reaches(g, e.id, x) {
      var p :| IsPath(g, d.id, p) && End(d.id, p) == x;
      var q :| IsPath(g, e.id, q) && End(e.id, q) == x;
      ConsDiffers(d, p, e, q);
      PathCons(g, h, d, p);
      PathCons(g, h, e, q);
    }
  }

  lemma BranchIsSingle(g: Graph, h: HolonId, d: Dep)
    requires SinglePaths(g, h) && d in g.Deps(h)
    ensures SinglePaths(g, d.id) && !Reaches(g, d.id, h)
  {
    assert IsPath(g, h, []) && End(h, []) == h;
    hide IsPath, End, Toll;
    forall p, q | IsPath(g, d.id, p) && IsPath(g, d.id, q) && End(d.id, p) == End(d.id, q) ensures p == q {
      PathCons(g, h, d, p);
      PathCons(g, h, d, q);
      assert ([d] + p)[1..] == p && ([d] + q)[1..] == q;
    }
    if Reaches(g, d.id, h) {
      var p :| IsPath(g, d.id, p) && End(d.id, p) == h;
      PathCons(g, h, d, p);
    }
  }

  /** Below a holon with single paths, the branches share nothing and lead away from the holon. */
  lemma BranchesApart(g: Graph, h: HolonId)
    requires g.Valid() && SinglePaths(g, h)
    ensures forall d :: d in g.Deps(h) ==> SinglePaths(g, d.id) && !Reaches(g, d.id, h)
    ensures Apart(g, g.Deps(h))
  {
    hide SinglePaths, Reaches;
    var deps := g.Deps(h);
    forall d | d in deps ensures SinglePaths(g, d.id) && !Reaches(g, d.id, h) {
      BranchIsSingle(g, h, d);
    }
    forall i, j, x | 0 <= i < j < |deps| && Reaches(g, deps[i].id, x) ensures !Reaches(g, deps[j].id, x) {
      BranchesDiffer(g, h, deps[i], deps[j], x);
    }
  }

  lemma ConsDiffers(d: Dep, p: seq<Dep>, e: Dep, q: seq<Dep>)
    requires d != e
    ensures [d] + p != [e] + q
  {
    assert ([d] + p)[0] != ([e] + q)[0];
  }

  ghost predicate Apart(g: Graph, deps: seq<Dep>) {
    forall i, j, x :: 0 <= i < j < |deps| && Reaches(g, deps[i].id, x) ==> !Reaches(g, deps[j].id, x)
  }

  ghost predicate AllExact(g: Graph, writes: seq<(HolonId, real)>) {
    forall w :: w in writes ==> IsWeakestLink(g, w.0, w.1)
  }

  /** No path through one of the dependencies is worth less than `least`; unless it is `start`, one is worth just that. */
  ghost predicate WeakestBelow(g: Graph, deps: seq<Dep>, start: real, least: real) {
    && least <= start
    && (forall d: Dep, p :: d in deps && IsPath(g, d.id, p) ==> least <= Max(0.0, Value(g, d.id, p) - Penalty(d.cl)))
    && (least == start ||
        (exists d: Dep, p :: d in deps && IsPath(g, d.id, p) && least == Max(0.0, Value(g, d.id, p) - Penalty(d.cl))))
  }

  lemma EmptyPath(g: Graph, h: HolonId)
    requires g.Valid()
    ensures IsPath(g, h, []) && Value(g, h, []) == g.Self(h)
  {
  }

  lemma BranchValue(g: Graph, h: HolonId, path: seq<Dep>)
    requires g.Valid() && path != [] && IsPath(g, h, path)
    ensures path[0] in g.Deps(h) && IsPath(g, path[0].id, path[1..])
    ensures Value(g, h, path) == Max(0.0, Value(g, path[0].id, path[1..]) - Penalty(path[0].cl))
  {
    assert path == [path[0]] + path[1..];
    PathCons(g, h, path[0], path[1..]);
  }

  lemma WeakestFromBranches(g: Graph, h: HolonId, least: real)
    requires g.Valid() && WeakestBelow(g, g.Deps(h), 1.0, least)
    ensures IsWeakestLink(g, h, if |g.Deps(h)| > 0 then Min(g.Self(h), least) else g.Self(h))
  {
    hide IsPath, Value, Penalty;
    var deps := g.Deps(h);
    var score := if |deps| > 0 then Min(g.Self(h), least) else g.Self(h);
    EmptyPath(g, h);
    forall path | IsPath(g, h, path) ensures score <= Value(g, h, path) {
      if path != [] {
        BranchValue(g, h, path);
      }
    }
    if score != g.Self(h) {
      var d: Dep, p: seq<Dep> :| d in deps && IsPath(g, d.id, p) && least == Max(0.0, Value(g, d.id, p) - Penalty(d.cl));
      PathCons(g, h, d, p);
      assert IsPath(g, h, [d] + p) && Value(g, h, [d] + p) == score;
    }
  }

  lemma BranchMeetsNothing(g: Graph, h: HolonId, visited: set<HolonId>, d: Dep, x: HolonId)
    requires d in g.Deps(h) && x in visited && !Reaches(g, h, x)
    ensures !Reaches(g, d.id, x)
  {
    if Reaches(g, d.id, x) {
      var p :| IsPath(g, d.id, p) && End(d.id, p) == x;
      PathCons(g, h, d, p);
    }
  }

  /** Where every holon has a single path, the score and every cached score are exact. */
  lemma {:induction false} ExactOnSinglePaths(g: Graph, h: HolonId, visited: set<HolonId>)
    requires g.Valid() && SinglePaths(g, h)
    requires forall x :: x in visited ==> !Reaches(g, h, x)
    ensures IsWeakestLink(g, h, Walk(g, h, visited).score) && AllExact(g, Walk(g, h, visited).writes)
    decreases g.deps.Keys - visited, 0, 1
  {
    hide SinglePaths, Apart, Reaches, IsWeakestLink, WeakestBelow;
    SelfReached(g, h);
    assert h !in g.deps ==> g.deps.Keys - (visited + {h}) == g.deps.Keys - visited;
    var deps := g.Deps(h);
    BranchesApart(g, h);
    forall d, x | d in deps && x in visited + {h} ensures !Reaches(g, d.id, x) {
      if x in visited {
        BranchMeetsNothing(g, h, visited, d, x);
      }
    }
    DepsExact(g, deps, visited + {h}, 1.0);
    WeakestFromBranches(g, h, WalkDeps(g, deps, visited + {h}, 1.0).score);
  }

  lemma SelfReached(g: Graph, h: HolonId)
    ensures Reaches(g, h, h)
  {
    assert IsPath(g, h, []) && End(h, []) == h;
  }

  lemma NoBranches(g: Graph, least: real)
    ensures WeakestBelow(g, [], least, least)
  {
  }

  lemma WeakestStep(g: Graph, deps: seq<Dep>, start: real, first: real, least: real)
    requires g.Valid() && deps != [] && IsWeakestLink(g, deps[0].id, first)
    requires WeakestBelow(g, deps[1..], Min(start, Max(0.0, first - Penalty(deps[0].cl))), least)
    ensures WeakestBelow(g, deps, start, least)
  {
    hide IsPath, Value, Penalty;
    var d0 := deps[0];
    assert deps == [d0] + deps[1..];
    var path :| IsPath(g, d0.id, path) && Value(g, d0.id, path) == first;
    assert d0 in deps && forall d :: d in deps[1..] ==> d in deps;
  }

  lemma {:induction false} DepsExact(g: Graph, deps: seq<Dep>, visited: set<HolonId>, least: real)
    requires g.Valid() && Apart(g, deps)
    requires forall d: Dep :: d in deps ==> SinglePaths(g, d.id)
    requires forall d: Dep, x :: d in deps && x in visited ==> !Reaches(g, d.id, x)
    ensures var o := WalkDeps(g, deps, visited, least); WeakestBelow(g, deps, least, o.score) && AllExact(g, o.writes)
    decreases g.deps.Keys - visited, |deps|, 0
  {
    hide IsPath, Value, Reaches, SinglePaths, IsWeakestLink, WeakestBelow;
    if deps == [] {
      NoBranches(g, least);
    }
    if deps != [] {
      var d0 := deps[0];
      assert d0 in deps;
      var first := Walk(g, d0.id, visited);
      ExactOnSinglePaths(g, d0.id, visited);
      WalkReaches(g, d0.id, visited);
      assert g.deps.Keys - first.visited <= g.deps.Keys - visited;
      var next := Min(least, Max(0.0, first.score - Penalty(d0.cl)));
      forall d: Dep, x | d in deps[1..] && x in first.visited ensures !Reaches(g, d.id, x) {
        if x !in visited {
          assert x in first.visited - visited;
          var j :| 0 < j < |deps| && deps[j] == d;
        }
      }
      assert Apart(g, deps[1..]) by {
        forall i, j, x | 0 <= i < j < |deps[1..]| && Reaches(g, deps[1..][i].id, x)
          ensures !Reaches(g, deps[1..][j].id, x)
        {
          assert deps[1..][i] == deps[i + 1] && deps[1..][j] == deps[j + 1];
        }
      }
      DepsExact(g, deps[1..], first.visited, next);
      WeakestStep(g, deps, least, first.score, WalkDeps(g, deps[1..], first.visited, next).score);
    }
  }

  // ---------------------------------------------------------------- where the walk is not exact

  /** Holon `a` depends on `b` and `c`, which share the dependency `d`; the leg from `c` has level `cl`. */
  function Diamond(a: HolonId, b: HolonId, c: HolonId, d: HolonId, cl: int): Graph {
    Graph(map[a := [Dep(b, 3), Dep(c, 3)], b := [Dep(d, 3)], c := [Dep(d, cl)]],
          map[a := 1.0, b := 1.0, c := 1.0, d := 0.5])
  }

  ghost predicate Distinct(a: HolonId, b: HolonId, c: HolonId, d: HolonId) {
    a != b && a != c && a != d && b != c && b != d && c != d
  }

  lemma DiamondFirstLeg(a: HolonId, b: HolonId, c: HolonId, d: HolonId, cl: int)
    requires Distinct(a, b, c, d)
    ensures Walk(Diamond(a, b, c, d, cl), b, {a}) == Outcome(0.5, {a, b, d}, [(d, 0.5), (b, 0.5)])
  {
    var g := Diamond(a, b, c, d, cl);
    assert {a} + {b} == {a, b} && {a, b} + {d} == {a, b, d};
    assert Walk(g, d, {a, b}) == Outcome(0.5, {a, b, d}, [(d, 0.5)]);
    assert WalkDeps(g, [Dep(d, 3)], {a, b}, 1.0) == Outcome(0.5, {a, b, d}, [(d, 0.5)]);
    assert g.Deps(b) == [Dep(d, 3)];
  }

  lemma DiamondSecondLeg(a: HolonId, b: HolonId, c: HolonId, d: HolonId, cl: int)
    requires Distinct(a, b, c, d)
    ensures var late := 1.0 - Penalty(cl);
            Walk(Diamond(a, b, c, d, cl), c, {a, b, d}) == Outcome(late, {a, b, c, d}, [(c, late)])
  {
    var g, late := Diamond(a, b, c, d, cl), 1.0 - Penalty(cl);
    assert {a, b, d} + {c} == {a, b, c, d};
    assert WalkDeps(g, [Dep(d, cl)], {a, b, c, d}, 1.0) == Outcome(late, {a, b, c, d}, []);
    assert g.Deps(c) == [Dep(d, cl)];
  }

  lemma DiamondWalk(a: HolonId, b: HolonId, c: HolonId, d: HolonId, cl: int)
    requires Distinct(a, b, c, d)
    ensures var o, late := Walk(Diamond(a, b, c, d, cl), a, {}), 1.0 - Penalty(cl);
            o.score == Min(0.5, late) && (c, late) in o.writes
  {
    var g, late := Diamond(a, b, c, d, cl), 1.0 - Penalty(cl);
    var deps := [Dep(b, 3), Dep(c, 3)];
    DiamondFirstLeg(a, b, c, d, cl);
    DiamondSecondLeg(a, b, c, d, cl);
    assert deps[1..] == [Dep(c, 3)] && {} + {a} == {a};
    assert WalkDeps(g, [Dep(c, 3)], {a, b, d}, 0.5) == Outcome(Min(0.5, late), {a, b, c, d}, [(c, late)]);
    var rest := WalkDeps(g, deps, {a}, 1.0);
    assert rest.writes == [(d, 0.5), (b, 0.5)] + [(c, late)];
    assert rest.writes[2] == (c, late);
    assert Walk(g, a, {}).writes[2] == (c, late);
  }

  /** With every edge at CL3 the root is exact, but the second parent of the shared holon is cached at 1.0
      although its weakest link is 0.5. */
  lemma DiamondCachesTooHigh(a: HolonId, b: HolonId, c: HolonId, d: HolonId)
    requires Distinct(a, b, c, d)
    ensures var g := Diamond(a, b, c, d, 3);
            g.Valid() && NoPenalties(g) && (c, 1.0) in Walk(g, a, {}).writes && !IsWeakestLink(g, c, 1.0)
  {
    DiamondWalk(a, b, c, d, 3);
    PathCons(Diamond(a, b, c, d, 3), c, Dep(d, 3), []);
  }

  /** With a penalty on the second leg, the score 0.5 exceeds a path worth 0.1. */
  lemma DiamondScoresTooHigh(a: HolonId, b: HolonId, c: HolonId, d: HolonId)
    requires Distinct(a, b, c, d)
    ensures var g := Diamond(a, b, c, d, 1);
            g.Valid() && Walk(g, a, {}).score == 0.5 && !IsWeakestLink(g, a, 0.5)
  {
    DiamondWalk(a, b, c, d, 1);
    PathCons(Diamond(a, b, c, d, 1), c, Dep(d, 1), []);
    PathCons(Diamond(a, b, c, d, 1), a, Dep(c, 3), [Dep(d, 1)]);
  }
}
