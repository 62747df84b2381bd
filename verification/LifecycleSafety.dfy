/** No problem is resolved by two live decisions: which steps keep this, over whole runs, and which do not. */
module LifecycleSafety {
  import opened Text
  import opened Lists
  import opened Lifecycle

  predicate IsLiveDecision(s: Store, d: string) {
    d in s && s[d].kind.Decision? && Live(s[d])
  }

  ghost predicate OneDecision(s: Store) {
    forall d, e :: IsLiveDecision(s, d) && IsLiveDecision(s, e) && d != e ==> DecisionRefs(s, s[d]) !! DecisionRefs(s, s[e])
  }

  /** Generated identifiers carry the prefix of their kind: a portfolio is not named like a problem. */
  predicate WellNamed(s: Store) {
    forall id :: id in s && s[id].kind.Portfolio? ==> !NamesProblem(id)
  }

  predicate Fresh(s: Store, id: string) {
    id !in s && forall a :: a in s ==> id !in s[a].links
  }

  /** Generated identifiers are new, and no artifact or input refers to them yet. */
  predicate Enabled(s: Store, e: Event) {
    match e
    case Frame(id) => Fresh(s, id)
    case Explore(id, problemRef) => Fresh(s, id) && id != problemRef && !NamesProblem(id)
    case Decide(id, single, multiple, portfolio, _) =>
      Fresh(s, id) && id !in NewDecision(MergedRefs(single, multiple), Trim(portfolio)).links
    case Reopen(_, newProblem) => Fresh(s, newProblem)
    case _ => true
  }

  // ---------------------------------------------------------------- references do not change

  lemma {:induction false} LinksRefsSame(s: Store, t: Store, links: seq<string>)
    requires forall l :: l in links ==> LinkRefs(s, l) == LinkRefs(t, l)
    ensures LinksRefs(s, links) == LinksRefs(t, links)
    decreases |links|
  {
    hide LinkRefs;
    if links != [] {
      assert links[|links| - 1] in links;
      LinksRefsSame(s, t, links[..|links| - 1]);
    }
  }

  /** A new artifact that nothing refers to changes no decision's references. */
  lemma AddedKeepsRefs(s: Store, id: string, x: Artifact, a: Artifact)
    requires id !in a.links
    ensures DecisionRefs(s[id := x], a) == DecisionRefs(s, a)
  {
    hide PortfolioRefs;
    LinksRefsSame(s[id := x], s, a.links);
  }

  lemma StatusKeepsRefs(s: Store, ref: string, status: Status, a: Artifact, newStatus: Status)
    ensures DecisionRefs(WithStatus(s, ref, status), a.(status := newStatus)) == DecisionRefs(s, a)
  {
    LinksRefsSame(WithStatus(s, ref, status), s, a.links);
  }

  // ---------------------------------------------------------------- the two ways of counting references

  /** The references checked for an incoming decision are among those it will be stored with. */
  lemma IncomingIsStored(s: Store, refs: seq<string>, portfolioRef: string, p: string)
    requires WellNamed(s) && p in IncomingRefs(s, refs, portfolioRef)
    ensures p in DecisionRefs(s, NewDecision(refs, portfolioRef))
  {
    hide PortfolioRefs;
    var links := BuildLinks(refs, portfolioRef);
    LinksRefsMembers(s, links, p);
    if p !in refs {
      assert portfolioRef in links && p in LinkRefs(s, portfolioRef);
    }
  }

  predicate IsPortfolio(s: Store, ref: string) {
    ref in s && s[ref].kind.Portfolio?
  }

  /** They are all of them exactly if the portfolio reference is not named like a problem left out of the list, and no
      listed problem is a portfolio that brings in others. */
  lemma RefsAgreeIff(s: Store, refs: seq<string>, portfolioRef: string)
    requires WellNamed(s) && "" !in refs
    ensures DecisionRefs(s, NewDecision(refs, portfolioRef)) == IncomingRefs(s, refs, portfolioRef) <==>
              && (NamesProblem(portfolioRef) ==> portfolioRef in refs)
              && (forall r :: r in refs && IsPortfolio(s, r) ==> PortfolioRefs(s[r]) <= IncomingRefs(s, refs, portfolioRef))
  {
    hide PortfolioRefs, IncomingRefs;
    var links, stored := BuildLinks(refs, portfolioRef), DecisionRefs(s, NewDecision(refs, portfolioRef));
    var incoming := IncomingRefs(s, refs, portfolioRef);
    forall p | p in incoming ensures p in stored {
      IncomingIsStored(s, refs, portfolioRef, p);
    }
    forall p ensures p in LinksRefs(s, links) <==> exists l :: l in links && p in LinkRefs(s, l) {
      LinksRefsMembers(s, links, p);
    }
    IncomingParts(s, refs, portfolioRef);
    if stored == incoming {
      if NamesProblem(portfolioRef) {
        assert portfolioRef in links && portfolioRef in LinkRefs(s, portfolioRef);
      }
      forall r, p | r in refs && IsPortfolio(s, r) && p in PortfolioRefs(s[r]) ensures p in incoming {
        assert r in links && p in LinkRefs(s, r);
      }
    }
  }

  lemma IncomingParts(s: Store, refs: seq<string>, portfolioRef: string)
    requires WellNamed(s)
    ensures forall p :: p in refs ==> p in IncomingRefs(s, refs, portfolioRef)
    ensures NamesProblem(portfolioRef) ==> IncomingRefs(s, refs, portfolioRef) == set p | p in refs
    ensures portfolioRef != "" && IsPortfolio(s, portfolioRef) ==> PortfolioRefs(s[portfolioRef]) <= IncomingRefs(s, refs, portfolioRef)
  {
    hide PortfolioRefs;
  }

  /** What a caller can check: the portfolio is not named like a problem, and no problem reference is a portfolio. */
  predicate PlainInput(s: Store, refs: seq<string>, portfolioRef: string) {
    !NamesProblem(portfolioRef) && forall r :: r in refs ==> !IsPortfolio(s, r)
  }

  // ---------------------------------------------------------------- one step

  /** The step makes no decision live whose problems another live decision resolves. */
  ghost predicate Careful(s: Store, e: Event) {
    match e
    case Decide(_, single, multiple, portfolio, accepted) =>
      var refs, portfolioRef := MergedRefs(single, multiple), Trim(portfolio);
      accepted && !Conflict(s, IncomingRefs(s, refs, portfolioRef)) ==>
        !Conflict(s, DecisionRefs(s, NewDecision(refs, portfolioRef)))
    case Reopen(ref, _) => ref in s && s[ref].kind.Decision? && !Live(s[ref]) ==> !Conflict(s, DecisionRefs(s, s[ref]))
    case Waive(ref) => ref in s && s[ref].kind.Decision? && !Live(s[ref]) ==> !Conflict(s, DecisionRefs(s, s[ref]))
    case _ => true
  }

  lemma SharedConflicts(s: Store, refs: set<string>, d: string, p: string)
    requires IsLiveDecision(s, d) && p in DecisionRefs(s, s[d]) && p in refs
    ensures Conflict(s, refs)
  {
    hide DecisionRefs;
    assert p in DecisionRefs(s, s[d]) * refs;
  }

  lemma NoConflictApart(s: Store, refs: set<string>, d: string)
    requires !Conflict(s, refs) && IsLiveDecision(s, d)
    ensures DecisionRefs(s, s[d]) !! refs && refs !! DecisionRefs(s, s[d])
  {
    hide DecisionRefs, Conflict;
    if p :| p in DecisionRefs(s, s[d]) && p in refs {
      SharedConflicts(s, refs, d, p);
    }
  }

  /** A new artifact beside the others: the property is kept exactly if the new one is no second live decision. */
  lemma AddedSafeIff(s: Store, id: string, x: Artifact)
    requires OneDecision(s) && Fresh(s, id) && id !in x.links
    ensures OneDecision(s[id := x]) <==> !x.kind.Decision? || !Live(x) || !Conflict(s, DecisionRefs(s, x))
  {
    hide DecisionRefs, Live;
    var t := s[id := x];
    forall a | a in s ensures DecisionRefs(t, s[a]) == DecisionRefs(s, s[a]) {
      AddedKeepsRefs(s, id, x, s[a]);
    }
    AddedKeepsRefs(s, id, x, x);
    if x.kind.Decision? && Live(x) && Conflict(s, DecisionRefs(s, x)) {
      var d :| d in s && s[d].kind.Decision? && Live(s[d]) && DecisionRefs(s, s[d]) * DecisionRefs(s, x) != {};
      assert IsLiveDecision(t, d) && IsLiveDecision(t, id) && t[d] == s[d];
    } else {
      forall d, e | IsLiveDecision(t, d) && IsLiveDecision(t, e) && d != e ensures DecisionRefs(t, t[d]) !! DecisionRefs(t, t[e]) {
        if d == id {
          NoConflictApart(s, DecisionRefs(s, x), e);
        } else if e == id {
          NoConflictApart(s, DecisionRefs(s, x), d);
        } else {
          assert IsLiveDecision(s, d) && IsLiveDecision(s, e);
        }
      }
    }
  }

  /** A changed status: the property is kept exactly if no finished decision comes back beside a live one. */
  lemma StatusSafeIff(s: Store, ref: string, status: Status)
    requires OneDecision(s) && ref in s
    ensures var x := s[ref].(status := status);
            OneDecision(WithStatus(s, ref, status)) <==>
              !x.kind.Decision? || !Live(x) || Live(s[ref]) || !Conflict(s, DecisionRefs(s, s[ref]))
  {
    hide DecisionRefs, Live;
    var t, x := WithStatus(s, ref, status), s[ref].(status := status);
    forall a | a in s ensures DecisionRefs(t, t[a]) == DecisionRefs(s, s[a]) {
      StatusKeepsRefs(s, ref, status, s[a], t[a].status);
    }
    forall d | IsLiveDecision(t, d) ensures d == ref || IsLiveDecision(s, d) {
    }
    if x.kind.Decision? && Live(x) && !Live(s[ref]) && Conflict(s, DecisionRefs(s, s[ref])) {
      var d :| d in s && s[d].kind.Decision? && Live(s[d]) && DecisionRefs(s, s[d]) * DecisionRefs(s, s[ref]) != {};
      assert IsLiveDecision(t, d) && IsLiveDecision(t, ref);
    } else {
      forall d, e | IsLiveDecision(t, d) && IsLiveDecision(t, e) && d != e ensures DecisionRefs(t, t[d]) !! DecisionRefs(t, t[e]) {
        if IsLiveDecision(s, d) && IsLiveDecision(s, e) {
          assert DecisionRefs(s, s[d]) !! DecisionRefs(s, s[e]);
        } else {
          NoConflictApart(s, DecisionRefs(s, s[ref]), if d == ref then e else d);
        }
      }
    }
  }

  lemma ReopenSafeIff(s: Store, ref: string, newProblem: string)
    requires OneDecision(s) && Fresh(s, newProblem) && ref in s && s[ref].kind.Decision?
    ensures OneDecision(Next(s, Reopen(ref, newProblem))) <==> Live(s[ref]) || !Conflict(s, DecisionRefs(s, s[ref]))
  {
    hide DecisionRefs, Conflict, OneDecision;
    var problem := Artifact(Problem, Active, [], []);
    var t := WithStatus(s, ref, RefreshDue);
    StatusSafeIff(s, ref, RefreshDue);
    var u := t[newProblem := problem];
    if OneDecision(t) {
      AddedSafeIff(t, newProblem, problem);
    } else {
      AddingRepairsNothing(t, newProblem, problem);
    }
  }

  lemma AddingRepairsNothing(s: Store, id: string, x: Artifact)
    requires !OneDecision(s) && Fresh(s, id)
    ensures !OneDecision(s[id := x])
  {
    hide DecisionRefs;
    var d, e :| IsLiveDecision(s, d) && IsLiveDecision(s, e) && d != e && !(DecisionRefs(s, s[d]) !! DecisionRefs(s, s[e]));
    AddedKeepsRefs(s, id, x, s[d]);
    AddedKeepsRefs(s, id, x, s[e]);
    var t := s[id := x];
    assert IsLiveDecision(t, d) && IsLiveDecision(t, e);
  }

  /** One step keeps the property exactly if it is careful. */
  lemma StepSafeIff(s: Store, e: Event)
    requires OneDecision(s) && Enabled(s, e)
    ensures OneDecision(Next(s, e)) <==> Careful(s, e)
  {
    hide OneDecision, DecisionRefs, IncomingRefs, Conflict, MergedRefs, Trim, NamesProblem;
    match e {
      case Frame(id) => AddedSafeIff(s, id, Artifact(Problem, Active, [], []));
      case Explore(id, problemRef) =>
        AddedSafeIff(s, id, Artifact(Portfolio, Active, [problemRef], if problemRef == "" then [] else [problemRef]));
      case Decide(id, single, multiple, portfolio, accepted) =>
        AddedSafeIff(s, id, NewDecision(MergedRefs(single, multiple), Trim(portfolio)));
      case Supersede(ref) => if ref in s { StatusSafeIff(s, ref, Superseded); }
      case Deprecate(ref) => if ref in s { StatusSafeIff(s, ref, Deprecated); }
      case Close(ref) => if ref in s { StatusSafeIff(s, ref, Addressed); }
      case Reopen(ref, newProblem) => if ref in s && s[ref].kind.Decision? { ReopenSafeIff(s, ref, newProblem); }
      case Waive(ref) => if ref in s { StatusSafeIff(s, ref, Active); }
      case Record(ref) =>
    }
  }

  // ---------------------------------------------------------------- whole runs

  /** What is asked of the callers: decisions on plain input, and no waiving or reopening of a finished decision. */
  predicate Guarded(s: Store, e: Event) {
    match e
    case Decide(_, single, multiple, portfolio, _) => PlainInput(s, MergedRefs(single, multiple), Trim(portfolio))
    case Reopen(ref, _) => ref in s && s[ref].kind.Decision? ==> Live(s[ref])
    case Waive(ref) => ref in s && s[ref].kind.Decision? ==> Live(s[ref])
    case _ => true
  }

  lemma GuardedIsCareful(s: Store, e: Event)
    requires WellNamed(s) && Guarded(s, e)
    ensures Careful(s, e)
  {
    hide DecisionRefs, IncomingRefs, Conflict, MergedRefs, Trim, NamesProblem;
    if e.Decide? {
      var refs := MergedRefs(e.single, e.multiple);
      assert "" !in refs;
      RefsAgreeIff(s, refs, Trim(e.portfolio));
    }
  }

  lemma StepKeepsNames(s: Store, e: Event)
    requires WellNamed(s) && Enabled(s, e)
    ensures WellNamed(Next(s, e))
  {
    hide Conflict, MergedRefs, Trim, NamesProblem;
  }

  /** The states of a run that starts with nothing. */
  ghost predicate Run(states: seq<Store>, events: seq<Event>) {
    && |states| == |events| + 1
    && states[0] == map[]
    && forall i :: 0 <= i < |events| ==> Enabled(states[i], events[i]) && states[i + 1] == Next(states[i], events[i])
  }

  ghost predicate GuardedRun(states: seq<Store>, events: seq<Event>) {
    Run(states, events) && forall i :: 0 <= i < |events| ==> Guarded(states[i], events[i])
  }

  /** The property holds in every state of a run exactly if every step of the run is careful. */
  lemma RunSafeIff(states: seq<Store>, events: seq<Event>)
    requires Run(states, events)
    ensures (forall i :: 0 <= i < |states| ==> OneDecision(states[i])) <==>
            forall i :: 0 <= i < |events| ==> Careful(states[i], events[i])
  {
    hide OneDecision, Careful, Next, Enabled;
    if forall i :: 0 <= i < |states| ==> OneDecision(states[i]) {
      forall i | 0 <= i < |events| ensures Careful(states[i], events[i]) {
        assert OneDecision(states[i + 1]);
        StepSafeIff(states[i], events[i]);
      }
    } else if forall i :: 0 <= i < |events| ==> Careful(states[i], events[i]) {
      var i :| 0 <= i < |states| && !OneDecision(states[i]);
      CarefulRunIsSafe(states, events, i);
    }
  }

  lemma {:induction false} CarefulRunIsSafe(states: seq<Store>, events: seq<Event>, i: nat)
    requires Run(states, events) && i < |states| && forall k :: 0 <= k < |events| ==> Careful(states[k], events[k])
    ensures OneDecision(states[i])
  {
    hide OneDecision, Careful, Next, Enabled;
    if i == 0 {
      NothingStored();
    } else {
      CarefulRunIsSafe(states, events, i - 1);
      StepSafeIff(states[i - 1], events[i - 1]);
    }
  }

  /** In every state of every guarded run no problem is resolved by two live decisions. */
  lemma {:induction false} RunsAreSafe(states: seq<Store>, events: seq<Event>, i: nat)
    requires GuardedRun(states, events) && i < |states|
    ensures OneDecision(states[i]) && WellNamed(states[i])
  {
    hide OneDecision, Next, Enabled, Guarded, WellNamed;
    if i == 0 {
      NothingStored();
    } else {
      RunsAreSafe(states, events, i - 1);
      GuardedIsCareful(states[i - 1], events[i - 1]);
      StepSafeIff(states[i - 1], events[i - 1]);
      StepKeepsNames(states[i - 1], events[i - 1]);
    }
  }

  lemma NothingStored()
    ensures OneDecision(map[]) && WellNamed(map[])
  {
  }

  // ---------------------------------------------------------------- problems by name

  lemma StepKeepsDecision(s: Store, e: Event, d: string)
    requires Enabled(s, e) && d in s && s[d].kind.Decision?
    ensures d in Next(s, e) && Next(s, e)[d].kind.Decision? && Next(s, e)[d].problemRefs == s[d].problemRefs
  {
    hide Conflict, MergedRefs, Trim, NamesProblem;
  }

  /** What changes the status of a decision: superseding, deprecating, reopening or waiving it, and nothing else. */
  lemma DecisionStatusBy(s: Store, e: Event, d: string)
    requires Enabled(s, e) && d in s && s[d].kind.Decision?
    ensures d in Next(s, e)
    ensures Next(s, e)[d].status == if e == Supersede(d) then Superseded
                                    else if e == Deprecate(d) then Deprecated
                                    else if e.Reopen? && e.ref == d then RefreshDue
                                    else if e == Waive(d) then Active
                                    else s[d].status
  {
    hide Conflict, MergedRefs, Trim, NamesProblem;
  }

  lemma {:induction false} DecisionStays(states: seq<Store>, events: seq<Event>, i: nat, k: nat, d: string)
    requires Run(states, events) && i <= k < |states| && d in states[i] && states[i][d].kind.Decision?
    ensures d in states[k] && states[k][d].kind.Decision? && states[k][d].problemRefs == states[i][d].problemRefs
    decreases k
  {
    hide Next, Enabled;
    if i < k {
      DecisionStays(states, events, i, k - 1, d);
      StepKeepsDecision(states[k - 1], events[k - 1], d);
    }
  }

  /** Step `i` stored the decision, and its input names the problem. */
  predicate GaveBy(states: seq<Store>, events: seq<Event>, i: nat, d: string, p: string) {
    && i < |events| && i + 1 < |states| && events[i].Decide? && events[i].id == d && d in states[i + 1]
    && Names(events[i].single, events[i].multiple, p)
  }

  lemma GivenIsStored(states: seq<Store>, events: seq<Event>, i: nat, d: string, p: string)
    requires Run(states, events) && GaveBy(states, events, i, d, p)
    ensures states[i + 1][d].kind.Decision? && p in states[i + 1][d].problemRefs
  {
    hide Conflict, MergedRefs, Trim, NamesProblem, Names, IncomingRefs;
    assert Enabled(states[i], events[i]) && states[i + 1] == Next(states[i], events[i]);
    MergedRefsAreNamed(events[i].single, events[i].multiple, p);
  }

  /** In a guarded run no two decisions that were given the same problem by name are in force at the same time. */
  lemma NamedProblemsAreApart(states: seq<Store>, events: seq<Event>, i: nat, j: nat, k: nat, d: string, e: string, p: string)
    requires GuardedRun(states, events) && i < k < |states| && j < k && d != e
    requires GaveBy(states, events, i, d, p) && GaveBy(states, events, j, e, p)
    ensures d in states[k] && e in states[k]
    ensures !(states[k][d].status in {Active, RefreshDue} && states[k][e].status in {Active, RefreshDue})
  {
    hide Names, Next, Enabled, Guarded, LinksRefs;
    GivenIsStored(states, events, i, d, p);
    GivenIsStored(states, events, j, e, p);
    DecisionStays(states, events, i + 1, k, d);
    DecisionStays(states, events, j + 1, k, e);
    RunsAreSafe(states, events, k);
    assert p in DecisionRefs(states[k], states[k][d]) && p in DecisionRefs(states[k], states[k][e]);
  }

  // ---------------------------------------------------------------- runs that break it

  lemma OneProblem(p: string)
    requires p != "" && Trim(p) == p
    ensures MergedRefs(p, []) == [p] && Trim("") == ""
  {
    hide Trim;
    TrimIsTrimmed("");
    assert Compact([]) == [];
  }

  lemma OneRef(s: Store, status: Status, p: string)
    requires NamesProblem(p)
    ensures DecisionRefs(s, Artifact(Decision, status, [p], [p])) == {p}
    ensures IncomingRefs(s, [p], "") == {p} && p != ""
  {
    hide PortfolioRefs;
    assert LinksRefs(s, [p][..0]) == {};
  }

  /** Deciding, superseding, deciding again and waiving the superseded decision: both are live. */
  lemma WaiveRevives(p: string, a: string, b: string) returns (states: seq<Store>, events: seq<Event>)
    requires NamesProblem(p) && Trim(p) == p && a != b && a != p && b != p
    ensures Run(states, events) && !OneDecision(states[|events|]) && events[|events| - 1] == Waive(a)
  {
    hide Trim, MergedRefs, DecisionRefs, IncomingRefs, NamesProblem;
    var x := Artifact(Decision, Active, [p], [p]);
    var s0: Store := map[];
    var s1: Store := map[a := x];
    var s2: Store := map[a := x.(status := Superseded)];
    var s3: Store := s2[b := x];
    var s4: Store := s3[a := x];
    OneRef(s0, Active, p);
    OneRef(s2, Active, p);
    OneRef(s4, Active, p);
    OneProblem(p);
    states := [s0, s1, s2, s3, s4];
    events := [Decide(a, p, [], "", true), Supersede(a), Decide(b, p, [], "", true), Waive(a)];
    assert !Conflict(s0, {p}) && !Conflict(s2, {p});
    assert NewDecision([p], "") == x;
    assert s1 == Next(s0, events[0]) && s2 == Next(s1, events[1]) && s3 == Next(s2, events[2]) && s4 == Next(s3, events[3]);
    assert IsLiveDecision(s4, a) && IsLiveDecision(s4, b) && p in DecisionRefs(s4, s4[a]) * DecisionRefs(s4, s4[b]);
  }

  lemma NoDecisionsNoConflict(s: Store, refs: set<string>)
    requires forall a :: a in s ==> !s[a].kind.Decision?
    ensures !Conflict(s, refs)
  {
  }

  /** A problem reference that names a portfolio passes the check, although the stored decision resolves the
      portfolio's problem, which has a live decision. */
  lemma PortfolioAsProblemSlipsThrough(p: string, f: string, a: string, b: string) returns (states: seq<Store>, events: seq<Event>)
    requires NamesProblem(p) && Trim(p) == p && !NamesProblem(f) && f != "" && Trim(f) == f
    requires a != b && a != p && b != p && a != f && b != f && p != f
    ensures Run(states, events) && !OneDecision(states[|events|]) && events[|events| - 1] == Decide(b, f, [], "", true)
  {
    hide Trim, MergedRefs, DecisionRefs, Conflict, OneDecision, IncomingRefs, NamesProblem, PortfolioRefs;
    var x, y := Artifact(Decision, Active, [p], [p]), Artifact(Decision, Active, [f], [f]);
    var s0: Store := map[];
    var s1: Store := map[p := Artifact(Problem, Active, [], [])];
    var s2: Store := s1[f := Artifact(Portfolio, Active, [p], [p])];
    var s3: Store := s2[a := x];
    var s4: Store := s3[b := y];
    OneRef(s2, Active, p);
    OneProblem(p);
    NoDecisionsNoConflict(s2, {p});
    assert NewDecision([p], "") == x;
    states := [s0, s1, s2, s3, s4];
    events := [Frame(p), Explore(f, p), Decide(a, p, [], "", true), Decide(b, f, [], "", true)];
    assert s1 == Next(s0, events[0]) && s2 == Next(s1, events[1]) && s3 == Next(s2, events[2]);
    PortfolioSlips(s3, p, f, a, b);
  }

  lemma PortfolioSlips(s: Store, p: string, f: string, a: string, b: string)
    requires NamesProblem(p) && !NamesProblem(f) && f != "" && Trim(f) == f && a != b && b != p && b != f && p != f && a != p && a != f
    requires s == map[p := Artifact(Problem, Active, [], []), f := Artifact(Portfolio, Active, [p], [p]),
                      a := Artifact(Decision, Active, [p], [p])]
    ensures Enabled(s, Decide(b, f, [], "", true))
    ensures var t := Next(s, Decide(b, f, [], "", true));
            t == s[b := Artifact(Decision, Active, [f], [f])] && !OneDecision(t)
  {
    hide Trim, MergedRefs, LinksRefs, IncomingRefs, NamesProblem, PortfolioRefs, DecisionRefs;
    var t := s[b := Artifact(Decision, Active, [f], [f])];
    OneRef(s, Active, p);
    OneRef(t, Active, p);
    OneProblem(f);
    PortfolioRef(s, f, p);
    PortfolioRef(t, f, p);
    assert NewDecision([f], "") == t[b];
    assert !Conflict(s, {f});
    assert IsLiveDecision(t, a) && IsLiveDecision(t, b) && p in DecisionRefs(t, t[a]) * DecisionRefs(t, t[b]);
  }

  lemma PortfolioRef(s: Store, f: string, p: string)
    requires NamesProblem(p) && !NamesProblem(f) && f != "" && f in s && s[f] == Artifact(Portfolio, Active, [p], [p])
    ensures p in DecisionRefs(s, Artifact(Decision, Active, [f], [f])) && IncomingRefs(s, [f], "") == {f}
  {
    LinksRefsMembers(s, [f], p);
    assert f in [f] && p in LinkRefs(s, f);
  }
}
