/** When is the score column exact, with every edge at CL3? Each holon is cached by the one call that entered it. */
module WeakestLinkCache {
  import opened WeakestLink

  /** The calls that a walk from `h` makes on holons not yet visited, with the set visited before each. */
  ghost function Calls(g: Graph, h: HolonId, visited: set<HolonId>): set<(HolonId, set<HolonId>)>
    decreases g.deps.Keys - visited, 0, 1
  {
    if h in visited then {}
    else
      assert h !in g.deps ==> g.deps.Keys - (visited + {h}) == g.deps.Keys - visited;
      {(h, visited)} + DepCalls(g, g.Deps(h), visited + {h})
  }

  ghost function DepCalls(g: Graph, deps: seq<Dep>, visited: set<HolonId>): set<(HolonId, set<HolonId>)>
    decreases g.deps.Keys - visited, |deps|, 0
  {
    if deps == [] then {}
    else
      var after := Walk(g, deps[0].id, visited).visited;
      assert g.deps.Keys - after <= g.deps.Keys - visited;
      Calls(g, deps[0].id, visited) + DepCalls(g, deps[1..], after)
  }

  /** The walk that a call made, had it been made alone. */
  ghost function Made(g: Graph, call: (HolonId, set<HolonId>)): Outcome {
    Walk(g, call.0, call.1)
  }

  /** The cache writes are those of the calls. */
  ghost predicate WritesAreCalls(g: Graph, calls: set<(HolonId, set<HolonId>)>, writes: seq<(HolonId, real)>) {
    && (forall w :: w in writes ==> exists c :: c in calls && w == (c.0, Made(g, c).score))
    && (forall c :: c in calls ==> (c.0, Made(g, c).score) in writes)
  }

  lemma WritesJoin(g: Graph, a: set<(HolonId, set<HolonId>)>, x: seq<(HolonId, real)>,
                   b: set<(HolonId, set<HolonId>)>, y: seq<(HolonId, real)>)
    requires WritesAreCalls(g, a, x) && WritesAreCalls(g, b, y)
    ensures WritesAreCalls(g, a + b, x + y)
  {
    hide Made;
    forall w | w in x + y ensures exists c :: c in a + b && w == (c.0, Made(g, c).score) {
      if w in x {
        var c :| c in a && w == (c.0, Made(g, c).score);
        assert c in a + b;
      } else {
        var c :| c in b && w == (c.0, Made(g, c).score);
        assert c in a + b;
      }
    }
  }

  lemma {:induction false} CallsWrite(g: Graph, h: HolonId, visited: set<HolonId>)
    ensures WritesAreCalls(g, Calls(g, h, visited), Walk(g, h, visited).writes)
    decreases g.deps.Keys - visited, 0, 1
  {
    if h !in visited {
      assert h !in g.deps ==> g.deps.Keys - (visited + {h}) == g.deps.Keys - visited;
      DepCallsWrite(g, g.Deps(h), visited + {h}, 1.0);
      var rest := WalkDeps(g, g.Deps(h), visited + {h}, 1.0);
      var own := (h, visited);
      OneWrite(g, own);
      WritesJoin(g, DepCalls(g, g.Deps(h), visited + {h}), rest.writes, {own}, [(h, Made(g, own).score)]);
      assert Calls(g, h, visited) == DepCalls(g, g.Deps(h), visited + {h}) + {own};
    }
  }

  lemma OneWrite(g: Graph, c: (HolonId, set<HolonId>))
    ensures WritesAreCalls(g, {c}, [(c.0, Made(g, c).score)])
  {
    hide Made;
    assert c in {c};
  }

  lemma {:induction false} DepCallsWrite(g: Graph, deps: seq<Dep>, visited: set<HolonId>, least: real)
    ensures WritesAreCalls(g, DepCalls(g, deps, visited), WalkDeps(g, deps, visited, least).writes)
    decreases g.deps.Keys - visited, |deps|, 0
  {
    hide WritesAreCalls, Calls, Made, Walk;
    if deps == [] {
      NoWrites(g);
    } else {
      var first := Walk(g, deps[0].id, visited);
      assert g.deps.Keys - first.visited <= g.deps.Keys - visited;
      var next := Min(least, Max(0.0, first.score - Penalty(deps[0].cl)));
      CallsWrite(g, deps[0].id, visited);
      DepCallsWrite(g, deps[1..], first.visited, next);
      WritesJoin(g, Calls(g, deps[0].id, visited), first.writes,
                 DepCalls(g, deps[1..], first.visited), WalkDeps(g, deps[1..], first.visited, next).writes);
    }
  }

  lemma NoWrites(g: Graph)
    ensures WritesAreCalls(g, {}, [])
  {
  }

  lemma {:induction false} CallsEnter(g: Graph, h: HolonId, visited: set<HolonId>, c: (HolonId, set<HolonId>))
    requires c in Calls(g, h, visited)
    ensures c.0 !in c.1 && Made(g, c).visited <= Walk(g, h, visited).visited
    decreases g.deps.Keys - visited, 0, 1
  {
    assert h !in g.deps ==> g.deps.Keys - (visited + {h}) == g.deps.Keys - visited;
    if c != (h, visited) {
      DepCallsEnter(g, g.Deps(h), visited + {h}, 1.0, c);
    }
  }

  lemma {:induction false} DepCallsEnter(g: Graph, deps: seq<Dep>, visited: set<HolonId>, least: real, c: (HolonId, set<HolonId>))
    requires c in DepCalls(g, deps, visited)
    ensures c.0 !in c.1 && Made(g, c).visited <= WalkDeps(g, deps, visited, least).visited
    decreases g.deps.Keys - visited, |deps|, 0
  {
    var first := Walk(g, deps[0].id, visited);
    assert g.deps.Keys - first.visited <= g.deps.Keys - visited;
    var next := Min(least, Max(0.0, first.score - Penalty(deps[0].cl)));
    if c in Calls(g, deps[0].id, visited) {
      CallsEnter(g, deps[0].id, visited, c);
    } else {
      DepCallsEnter(g, deps[1..], first.visited, next, c);
    }
  }

  // ---------------------------------------------------------------- only the edges matter

  lemma {:induction false} SameCalls(g: Graph, f: Graph, h: HolonId, visited: set<HolonId>)
    requires f.deps == g.deps
    ensures Calls(f, h, visited) == Calls(g, h, visited) && Walk(f, h, visited).visited == Walk(g, h, visited).visited
    decreases g.deps.Keys - visited, 0, 1
  {
    if h !in visited {
      assert h !in g.deps ==> g.deps.Keys - (visited + {h}) == g.deps.Keys - visited;
      SameDepCalls(g, f, g.Deps(h), visited + {h}, 1.0, 1.0);
    }
  }

  lemma {:induction false} SameDepCalls(g: Graph, f: Graph, deps: seq<Dep>, visited: set<HolonId>, x: real, y: real)
    requires f.deps == g.deps
    ensures DepCalls(f, deps, visited) == DepCalls(g, deps, visited)
    ensures WalkDeps(f, deps, visited, x).visited == WalkDeps(g, deps, visited, y).visited
    decreases g.deps.Keys - visited, |deps|, 0
  {
    hide Walk, Calls;
    if deps != [] {
      var a, b := Walk(f, deps[0].id, visited), Walk(g, deps[0].id, visited);
      SameCalls(g, f, deps[0].id, visited);
      assert g.deps.Keys - b.visited <= g.deps.Keys - visited;
      SameDepCalls(g, f, deps[1..], b.visited, Min(x, Max(0.0, a.score - Penalty(deps[0].cl))),
                   Min(y, Max(0.0, b.score - Penalty(deps[0].cl))));
    }
  }

  lemma {:induction false} SamePaths(g: Graph, f: Graph, h: HolonId, path: seq<Dep>)
    requires f.deps == g.deps
    ensures IsPath(f, h, path) <==> IsPath(g, h, path)
    decreases |path|
  {
    if path != [] {
      SamePaths(g, f, path[0].id, path[1..]);
    }
  }

  lemma SameReach(g: Graph, f: Graph, h: HolonId, x: HolonId)
    requires f.deps == g.deps
    ensures Reaches(f, h, x) <==> Reaches(g, h, x)
  {
    forall path ensures IsPath(f, h, path) <==> IsPath(g, h, path) {
      SamePaths(g, f, h, path);
    }
  }

  // ---------------------------------------------------------------- without penalties

  /** Without penalties the weakest link is the least self score of all that is reached. */
  lemma WeakestWithoutPenalties(g: Graph, h: HolonId, score: real)
    requires g.Valid() && NoPenalties(g)
    ensures IsWeakestLink(g, h, score) <==>
              (forall x :: Reaches(g, h, x) ==> score <= g.Self(x)) && (exists x :: Reaches(g, h, x) && score == g.Self(x))
  {
    forall path | IsPath(g, h, path)
      ensures Reaches(g, h, End(h, path)) && Value(g, h, path) == g.Self(End(h, path))
    {
      FreePath(g, h, path);
    }
    forall x | Reaches(g, h, x) ensures exists path :: IsPath(g, h, path) && End(h, path) == x && Value(g, h, path) == g.Self(x) {
      var path :| IsPath(g, h, path) && End(h, path) == x;
    }
  }

  /** The call's own walk adds everything its holon reaches. */
  ghost predicate Complete(g: Graph, c: (HolonId, set<HolonId>)) {
    forall x :: Reaches(g, c.0, x) ==> x in Made(g, c).visited - c.1
  }

  lemma CompleteIsExact(g: Graph, c: (HolonId, set<HolonId>))
    requires g.Valid() && NoPenalties(g) && c.0 !in c.1 && Complete(g, c)
    ensures IsWeakestLink(g, c.0, Made(g, c).score)
  {
    hide IsWeakestLink, Reaches;
    NewHolonsDecide(g, c.0, c.1);
    WalkReaches(g, c.0, c.1);
    WeakestWithoutPenalties(g, c.0, Made(g, c).score);
  }

  /** Every holon scores 1 but `y`. */
  ghost function OneWeak(g: Graph, holons: set<HolonId>, y: HolonId): Graph {
    Graph(g.deps, map x | x in holons :: if x == y then 0.0 else 1.0)
  }

  /** A holon reached but not added is missed: the call answers 1 although one of its paths is worth 0. */
  lemma IncompleteIsWrong(g: Graph, root: HolonId, c: (HolonId, set<HolonId>), y: HolonId)
    requires g.Valid() && NoPenalties(g) && c in Calls(g, root, {})
    requires Reaches(g, c.0, y) && y !in Made(g, c).visited - c.1
    ensures var f := OneWeak(g, Walk(g, root, {}).visited, y);
            f.Valid() && f.deps == g.deps && !AllExact(f, Walk(f, root, {}).writes)
  {
    hide Reaches, IsWeakestLink;
    var holons := Walk(g, root, {}).visited;
    var f := OneWeak(g, holons, y);
    CallsEnter(g, root, {}, c);
    SameCalls(g, f, root, {});
    SameCalls(g, f, c.0, c.1);
    SameReach(g, f, c.0, y);
    CallsWrite(f, root, {});
    NewHolonsDecide(f, c.0, c.1);
    WeakestWithoutPenalties(f, c.0, Made(f, c).score);
    assert forall x :: x in Made(f, c).visited - c.1 ==> f.Self(x) == 1.0;
    assert (c.0, Made(f, c).score) in Walk(f, root, {}).writes;
  }

  /** With every edge at CL3, all cached scores are weakest links for every choice of self scores if and only if
      everything reachable from each entered holon is added by that holon's own walk. */
  lemma CachesExactIffComplete(g: Graph, root: HolonId)
    requires g.Valid() && NoPenalties(g)
    ensures (forall c :: c in Calls(g, root, {}) ==> Complete(g, c)) <==>
            forall f: Graph :: f.Valid() && f.deps == g.deps ==> AllExact(f, Walk(f, root, {}).writes)
  {
    hide Complete, AllExact;
    if forall c :: c in Calls(g, root, {}) ==> Complete(g, c) {
      forall f: Graph | f.Valid() && f.deps == g.deps ensures AllExact(f, Walk(f, root, {}).writes) {
        CompleteCachesExactly(g, f, root);
      }
    } else {
      var c :| c in Calls(g, root, {}) && !Complete(g, c);
      var y := Missed(g, c);
      IncompleteIsWrong(g, root, c, y);
    }
  }

  lemma Missed(g: Graph, c: (HolonId, set<HolonId>)) returns (y: HolonId)
    requires !Complete(g, c)
    ensures Reaches(g, c.0, y) && y !in Made(g, c).visited - c.1
  {
    hide Reaches, Made;
    y :| Reaches(g, c.0, y) && y !in Made(g, c).visited - c.1;
  }

  lemma CompleteCachesExactly(g: Graph, f: Graph, root: HolonId)
    requires f.Valid() && NoPenalties(g) && f.deps == g.deps && forall c :: c in Calls(g, root, {}) ==> Complete(g, c)
    ensures AllExact(f, Walk(f, root, {}).writes)
  {
    hide IsWeakestLink, Reaches, Calls;
    SameCalls(g, f, root, {});
    CallsWrite(f, root, {});
    forall c | c in Calls(f, root, {}) ensures IsWeakestLink(f, c.0, Made(f, c).score) {
      CallsEnter(f, root, {}, c);
      SameCalls(g, f, c.0, c.1);
      forall x ensures Reaches(f, c.0, x) <==> Reaches(g, c.0, x) {
        SameReach(g, f, c.0, x);
      }
      CompleteIsExact(f, c);
    }
  }

  /** A diamond's second parent is incomplete: the holon shared was added before. */
  lemma DiamondIsIncomplete(a: HolonId, b: HolonId, c: HolonId, d: HolonId)
    requires Distinct(a, b, c, d)
    ensures exists call :: call in Calls(Diamond(a, b, c, d, 3), a, {}) && !Complete(Diamond(a, b, c, d, 3), call)
  {
    hide Complete;
    var g := Diamond(a, b, c, d, 3);
    DiamondCachesTooHigh(a, b, c, d);
    if forall call :: call in Calls(g, a, {}) ==> Complete(g, call) {
      CompleteCachesExactly(g, g, a);
    }
  }
}
