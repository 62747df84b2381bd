/** The calculator over its tables: the same walk, performed on a visited set that every call shares and
    a score column that every call writes. */
module WeakestLinkCalculator {
  import opened EvidenceScores
  import opened WeakestLink

  // ---------------------------------------------------------------- the tables

  datatype RelationKind = ComponentOf | DependsOn | DependsOnProjected | Unrelated

  datatype Relation = Relation(source: HolonId, target: HolonId, kind: RelationKind, cl: int)

  datatype Report = Report(holon: HolonId, finalScore: real, selfScore: real)

  function Distinct(rows: seq<Dep>): (r: seq<Dep>)
    ensures NoRepeats(r)
    ensures forall d :: d in r <==> d in rows
  {
    if rows == [] then []
    else
      var r, last := Distinct(rows[..|rows| - 1]), rows[|rows| - 1];
      assert rows == rows[..|rows| - 1] + [last];
      if last in r then r else r + [last]
  }

  /** `h` rests on its parts: componentOf points from the part to the whole. */
  function PartRows(rels: seq<Relation>, h: HolonId): seq<Dep> {
    if rels == [] then []
    else (if rels[0].kind.ComponentOf? && rels[0].target == h then [Dep(rels[0].source, rels[0].cl)] else [])
         + PartRows(rels[1..], h)
  }

  /** `h` rests on what it depends on: both dependsOn relations point from `h`. */
  function NeedRows(rels: seq<Relation>, h: HolonId): seq<Dep> {
    if rels == [] then []
    else (if (rels[0].kind.DependsOn? || rels[0].kind.DependsOnProjected?) && rels[0].source == h
          then [Dep(rels[0].target, rels[0].cl)] else [])
         + NeedRows(rels[1..], h)
  }

  function DepRows(rels: seq<Relation>, h: HolonId): (r: seq<Dep>)
    ensures NoRepeats(r)
  {
    Distinct(PartRows(rels, h) + NeedRows(rels, h))
  }

  lemma {:induction false} PartRowsExact(rels: seq<Relation>, h: HolonId, d: Dep)
    ensures d in PartRows(rels, h) <==> Relation(d.id, h, ComponentOf, d.cl) in rels
  {
    if rels != [] {
      PartRowsExact(rels[1..], h, d);
      assert rels == [rels[0]] + rels[1..];
    }
  }

  lemma {:induction false} NeedRowsExact(rels: seq<Relation>, h: HolonId, d: Dep)
    ensures d in NeedRows(rels, h) <==> Relation(h, d.id, DependsOn, d.cl) in rels || Relation(h, d.id, DependsOnProjected, d.cl) in rels
  {
    if rels != [] {
      NeedRowsExact(rels[1..], h, d);
      assert rels == [rels[0]] + rels[1..];
    }
  }

  /** The query finds exactly the dependencies the relation table declares, in either direction. */
  lemma DepRowsExact(rels: seq<Relation>, h: HolonId, d: Dep)
    ensures d in DepRows(rels, h) <==>
              || Relation(d.id, h, ComponentOf, d.cl) in rels
              || Relation(h, d.id, DependsOn, d.cl) in rels
              || Relation(h, d.id, DependsOnProjected, d.cl) in rels
  {
    hide PartRows, NeedRows, Distinct;
    PartRowsExact(rels, h, d);
    NeedRowsExact(rels, h, d);
  }

  function Endpoints(rels: seq<Relation>): (s: set<HolonId>)
    ensures forall r :: r in rels ==> r.source in s && r.target in s
  {
    (set r | r in rels :: r.source) + (set r | r in rels :: r.target)
  }

  /** The score column: an update touches a holon's row if there is one. */
  function Store(column: map<HolonId, real>, writes: seq<(HolonId, real)>): (r: map<HolonId, real>)
    ensures r.Keys == column.Keys
  {
    if writes == [] then column
    else
      var w := writes[|writes| - 1];
      var before := Store(column, writes[..|writes| - 1]);
      if w.0 in before then before[w.0 := w.1] else before
  }

  lemma {:induction false} StoreAppend(column: map<HolonId, real>, a: seq<(HolonId, real)>, b: seq<(HolonId, real)>)
    ensures Store(column, a + b) == Store(Store(column, a), b)
    decreases |b|
  {
    if b == [] {
      assert a + b == a;
    } else {
      StoreAppend(column, a, b[..|b| - 1]);
      assert (a + b)[..|a + b| - 1] == a + b[..|b| - 1];
    }
  }

  lemma StoreLast(column: map<HolonId, real>, writes: seq<(HolonId, real)>, h: HolonId, score: real)
    ensures var before := Store(column, writes);
            Store(column, writes + [(h, score)]) == if h in before then before[h := score] else before
  {
    assert (writes + [(h, score)])[..|writes|] == writes;
  }

  // ---------------------------------------------------------------- the calculator

  /** Where the loop over the dependencies stands: `done` is written, `deps[i..]` is still to be walked. */
  ghost predicate Pending(g: Graph, deps: seq<Dep>, entered: set<HolonId>,
                          i: nat, seen: set<HolonId>, least: real, done: seq<(HolonId, real)>)
  {
    && i <= |deps| && entered <= seen
    && var rest := WalkDeps(g, deps[i..], seen, least);
       WalkDeps(g, deps, entered, 1.0) == Outcome(rest.score, rest.visited, done + rest.writes)
  }

  lemma PendingStep(g: Graph, deps: seq<Dep>, entered: set<HolonId>,
                    i: nat, seen: set<HolonId>, least: real, done: seq<(HolonId, real)>)
    requires i < |deps| && Pending(g, deps, entered, i, seen, least, done)
    ensures var first := Walk(g, deps[i].id, seen);
            Pending(g, deps, entered, i + 1, first.visited,
                    Min(least, Max(0.0, first.score - Penalty(deps[i].cl))), done + first.writes)
  {
    assert deps[i..][0] == deps[i] && deps[i..][1..] == deps[i + 1..];
    var first := Walk(g, deps[i].id, seen);
    var rest := WalkDeps(g, deps[i + 1..], first.visited, Min(least, Max(0.0, first.score - Penalty(deps[i].cl))));
    assert done + (first.writes + rest.writes) == done + first.writes + rest.writes;
  }

  lemma PendingStart(g: Graph, deps: seq<Dep>, entered: set<HolonId>)
    ensures Pending(g, deps, entered, 0, entered, 1.0, [])
  {
    assert deps[0..] == deps;
    var rest := WalkDeps(g, deps, entered, 1.0);
    assert [] + rest.writes == rest.writes;
  }

  /** Once every dependency is walked, the loop's state is the whole outcome. */
  lemma PendingEnd(g: Graph, deps: seq<Dep>, entered: set<HolonId>, seen: set<HolonId>, least: real, done: seq<(HolonId, real)>)
    requires Pending(g, deps, entered, |deps|, seen, least, done)
    ensures WalkDeps(g, deps, entered, 1.0) == Outcome(least, seen, done)
  {
    assert deps[|deps|..] == [];
    assert done + [] == done;
  }

  /** The score of a holon from its own and its dependencies'. */
  function Weakest(g: Graph, h: HolonId, least: real): real {
    if |g.Deps(h)| > 0 then Min(g.Self(h), least) else g.Self(h)
  }

  lemma WalkEnters(g: Graph, h: HolonId, visited: set<HolonId>)
    requires h !in visited
    ensures var rest := WalkDeps(g, g.Deps(h), visited + {h}, 1.0);
            Walk(g, h, visited) == Outcome(Weakest(g, h, rest.score), rest.visited, rest.writes + [(h, Weakest(g, h, rest.score))])
  {
  }

  lemma MetBefore(g: Graph, h: HolonId, visited: set<HolonId>, column: map<HolonId, real>)
    requires h in visited
    ensures var o := Walk(g, h, visited); o == Outcome(1.0, visited, []) && Store(column, o.writes) == column
  {
  }

  lemma NothingStored(column: map<HolonId, real>)
    ensures Store(column, []) == column
  {
  }

  lemma EnteringLeavesFewer(g: Graph, h: HolonId, visited: set<HolonId>)
    ensures h in g.deps && h !in visited ==> g.deps.Keys - (visited + {h}) < g.deps.Keys - visited
    ensures h !in g.deps ==> g.deps.Keys - (visited + {h}) == g.deps.Keys - visited
  {
  }

  /** The visited map handed from call to call. */
  class Visited {
    var ids: set<HolonId>

    constructor ()
      ensures ids == {}
    {
      ids := {};
    }
  }

  class Calculator {
    const evidence: map<HolonId, seq<Evidence>>
    const relations: seq<Relation>
    var cachedScores: map<HolonId, real>

    constructor (evidence: map<HolonId, seq<Evidence>>, relations: seq<Relation>, column: map<HolonId, real>)
      ensures cachedScores == column && this.evidence == evidence && this.relations == relations
    {
      this.evidence := evidence;
      this.relations := relations;
      cachedScores := column;
    }

    function LeastScore(rows: seq<Evidence>): real {
      if rows == [] then 1.0
      else Min(LeastScore(rows[..|rows| - 1]), EvidenceScore(rows[|rows| - 1]))
    }

    function SelfScoreOf(rows: seq<Evidence>): real {
      if rows == [] then 0.0 else LeastScore(rows)
    }

    /** The self score is the weakest evidence, whatever the row order; without evidence it is 0. */
    lemma {:induction false} SelfScoreIsWeakestEvidence(rows: seq<Evidence>)
      ensures 0.0 <= SelfScoreOf(rows) <= 1.0
      ensures rows == [] ==> SelfScoreOf(rows) == 0.0
      ensures forall e :: e in rows ==> LeastScore(rows) <= EvidenceScore(e)
      ensures rows != [] ==> exists e :: e in rows && SelfScoreOf(rows) == EvidenceScore(e)
      ensures 0.0 <= LeastScore(rows) <= 1.0
      decreases |rows|
    {
      if rows != [] {
        var init, last := rows[..|rows| - 1], rows[|rows| - 1];
        SelfScoreIsWeakestEvidence(init);
        assert rows == init + [last];
        ScoreInRange(last);
        if LeastScore(rows) == EvidenceScore(last) {
          assert last in rows;
        } else {
          var e :| e in init && SelfScoreOf(init) == EvidenceScore(e);
          assert e in rows;
        }
      }
    }

    /** What the walk reads. */
    function View(): Graph {
      Graph(map h | h in Endpoints(relations) :: DepRows(relations, h),
            map h | h in evidence :: SelfScoreOf(evidence[h]))
    }

    lemma ViewIsValid()
      ensures View().Valid()
      ensures forall h :: View().Deps(h) == DepRows(relations, h)
    {
      forall h | h in evidence ensures 0.0 <= SelfScoreOf(evidence[h]) <= 1.0 {
        SelfScoreIsWeakestEvidence(evidence[h]);
      }
      forall h ensures View().Deps(h) == DepRows(relations, h) {
        if DepRows(relations, h) != [] {
          DepRowsExact(relations, h, DepRows(relations, h)[0]);
        }
      }
    }

    method SelfScore(rows: seq<Evidence>) returns (score: real)
      ensures score == SelfScoreOf(rows)
    {
      var least := 1.0;
      for i := 0 to |rows|
        invariant least == LeastScore(rows[..i])
      {
        assert rows[..i + 1][..i] == rows[..i];
        var s := EvidenceScore(rows[i]);
        if s < least {
          least := s;
        }
      }
      assert rows[..|rows|] == rows;
      score := if |rows| > 0 then least else 0.0;
    }

    /** One call: a holon met before answers 1.0, any other is entered, scored and written to the column. */
    method Visit(h: HolonId, visited: Visited) returns (report: Report)
      modifies this, visited
      ensures var o := Walk(View(), h, old(visited.ids));
              && report.finalScore == o.score
              && visited.ids == o.visited
              && cachedScores == Store(old(cachedScores), o.writes)
      ensures report.holon == h && report.selfScore == if h in old(visited.ids) then 1.0 else View().Self(h)
      decreases View().deps.Keys - visited.ids, 0, 1
    {
      hide DepRows, Store, WalkDeps, Walk;
      if h in visited.ids {
        MetBefore(View(), h, visited.ids, cachedScores);
        return Report(h, 1.0, 1.0);
      }
      ghost var g := View();
      ViewIsValid();
      WalkEnters(g, h, visited.ids);
      EnteringLeavesFewer(g, h, visited.ids);
      ghost var rest := WalkDeps(g, g.Deps(h), visited.ids + {h}, 1.0);
      StoreLast(cachedScores, rest.writes, h, Weakest(g, h, rest.score));
      visited.ids := visited.ids + {h};

      var selfScore := SelfScore(if h in evidence then evidence[h] else []);
      var deps := DepRows(relations, h);
      var least := VisitDeps(deps, visited);
      var finalScore := if |deps| > 0 then Min(selfScore, least) else selfScore;
      if h in cachedScores {
        cachedScores := cachedScores[h := finalScore];
      }
      report := Report(h, finalScore, selfScore);
    }

    /** The loop over the dependency rows of a holon just entered. */
    method VisitDeps(deps: seq<Dep>, visited: Visited) returns (least: real)
      modifies this, visited
      ensures var o := WalkDeps(View(), deps, old(visited.ids), 1.0);
              && least == o.score
              && visited.ids == o.visited
              && cachedScores == Store(old(cachedScores), o.writes)
      decreases View().deps.Keys - visited.ids, |deps|, 0
    {
      hide View, DepRows, Store, WalkDeps, Walk, Pending;
      ghost var g, entered, column := View(), visited.ids, cachedScores;
      ghost var done := [];
      least := 1.0;
      PendingStart(g, deps, entered);
      NothingStored(column);
      for i := 0 to |deps|
        invariant Pending(g, deps, entered, i, visited.ids, least, done) && entered <= visited.ids
        invariant cachedScores == Store(column, done)
      {
        ghost var first := Walk(g, deps[i].id, visited.ids);
        PendingStep(g, deps, entered, i, visited.ids, least, done);
        StoreAppend(column, done, first.writes);
        assert g.deps.Keys - visited.ids <= g.deps.Keys - entered;
        var dep := Visit(deps[i].id, visited);
        done := done + first.writes;
        var effective := Max(0.0, dep.finalScore - Penalty(deps[i].cl));
        if effective < least {
          least := effective;
        }
      }
      PendingEnd(g, deps, entered, visited.ids, least, done);
    }

    /** The exported entry point: a walk with a fresh visited set. Where no holon is reached by two paths, the score
        answered is the least worth over all dependency paths, and so is every score the column then holds for a holon
        reached; the rest of the column stays. */
    method CalculateReliability(h: HolonId) returns (report: Report)
      modifies this
      ensures report == Report(h, Walk(View(), h, {}).score, View().Self(h))
      ensures cachedScores == Store(old(cachedScores), Walk(View(), h, {}).writes)
      ensures SinglePaths(View(), h) ==> IsLeastWorth(View(), h, report.finalScore)
      ensures SinglePaths(View(), h) ==>
                forall x :: x in cachedScores ==>
                  if Reaches(View(), h, x) then IsLeastWorth(View(), x, cachedScores[x])
                  else cachedScores[x] == old(cachedScores)[x]
    {
      hide View, Walk, Store, IsLeastWorth, SinglePaths, Reaches;
      var visited := new Visited();
      ghost var before := cachedScores;
      report := Visit(h, visited);
      ViewIsValid();
      if SinglePaths(View(), h) {
        ColumnIsExact(View(), h, before);
      }
    }
  }

  lemma {:induction false} StoreHolds(column: map<HolonId, real>, writes: seq<(HolonId, real)>, x: HolonId)
    requires x in column
    ensures var r := Store(column, writes);
            if x in Ids(writes) then (x, r[x]) in writes else r[x] == column[x]
    decreases |writes|
  {
    if writes != [] {
      var init, last := writes[..|writes| - 1], writes[|writes| - 1];
      assert writes == init + [last];
      IdsAppend(init, [last]);
      StoreHolds(column, init, x);
    }
  }

  lemma ColumnIsExact(g: Graph, h: HolonId, column: map<HolonId, real>)
    requires g.Valid() && SinglePaths(g, h)
    ensures IsLeastWorth(g, h, Walk(g, h, {}).score)
    ensures var r := Store(column, Walk(g, h, {}).writes);
            forall x :: x in r ==> if Reaches(g, h, x) then IsLeastWorth(g, x, r[x]) else r[x] == column[x]
  {
    hide Walk, Store, IsLeastWorth, IsWeakestLink, SinglePaths, Reaches;
    var o := Walk(g, h, {});
    ExactOnSinglePaths(g, h, {});
    WeakestLinkIsLeastWorth(g, h, o.score);
    EachReachableHolonOnce(g, h);
    var r := Store(column, o.writes);
    forall x | x in r ensures if Reaches(g, h, x) then IsLeastWorth(g, x, r[x]) else r[x] == column[x] {
      StoreHolds(column, o.writes, x);
      WeakestLinkIsLeastWorth(g, x, r[x]);
    }
  }
}
