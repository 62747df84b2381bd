/** The lifecycle of decisions: which problems a decision resolves, the check that refuses a second live decision
    for a problem, and the operations that change a status. */
module Lifecycle {
  import opened Text
  import opened Lists

  datatype Kind = Problem | Portfolio | Decision | Other

  datatype Status = Active | Addressed | Superseded | Deprecated | RefreshDue

  /** The links are those of type `based_on`, by the identifier they name. */
  datatype Artifact = Artifact(kind: Kind, status: Status, problemRefs: seq<string>, links: seq<string>)

  type Store = map<string, Artifact>

  predicate Live(a: Artifact) {
    a.status == Active || a.status == RefreshDue
  }

  predicate NamesProblem(ref: string) {
    "prob-" <= ref
  }

  // ---------------------------------------------------------------- the problems behind an artifact

  /** The problems a portfolio was explored for. */
  function PortfolioRefs(a: Artifact): set<string> {
    (set p | p in a.problemRefs && p != "") + (set l | l in a.links && NamesProblem(l))
  }

  /** The problems reached through one link of a decision. */
  function LinkRefs(s: Store, link: string): set<string> {
    if NamesProblem(link) then {link}
    else if link in s && s[link].kind.Portfolio? then PortfolioRefs(s[link])
    else {}
  }

  function LinksRefs(s: Store, links: seq<string>): set<string> {
    if links == [] then {} else LinksRefs(s, links[..|links| - 1]) + LinkRefs(s, links[|links| - 1])
  }

  /** The problems a stored decision resolves: its own references and those behind its links. */
  function DecisionRefs(s: Store, a: Artifact): set<string> {
    (set p | p in a.problemRefs) + LinksRefs(s, a.links)
  }

  /** The problems the conflict check takes an incoming decision to resolve. */
  function IncomingRefs(s: Store, problemRefs: seq<string>, portfolioRef: string): set<string> {
    (set p | p in problemRefs)
    + if portfolioRef != "" && portfolioRef in s && s[portfolioRef].kind.Portfolio? then PortfolioRefs(s[portfolioRef]) else {}
  }

  /** A live decision already resolves one of the problems. */
  ghost predicate Conflict(s: Store, refs: set<string>) {
    exists d :: d in s && s[d].kind.Decision? && Live(s[d]) && DecisionRefs(s, s[d]) * refs != {}
  }

  lemma {:induction false} LinksRefsMembers(s: Store, links: seq<string>, p: string)
    ensures p in LinksRefs(s, links) <==> exists l :: l in links && p in LinkRefs(s, l)
    decreases |links|
  {
    hide LinkRefs;
    if links != [] {
      LinksRefsMembers(s, links[..|links| - 1], p);
      assert links == links[..|links| - 1] + [links[|links| - 1]];
    }
  }

  // ---------------------------------------------------------------- the same, computed

  method AppendUnique(values: seq<string>, value: string) returns (r: seq<string>)
    ensures forall x :: x in r <==> x in values || x == value
  {
    for i := 0 to |values|
      invariant value !in values[..i]
    {
      if values[i] == value {
        return values;
      }
    }
    r := values + [value];
  }

  method AppendAllUnique(values: seq<string>, more: seq<string>) returns (r: seq<string>)
    ensures forall x :: x in r <==> x in values || x in more
  {
    r := values;
    for i := 0 to |more|
      invariant forall x :: x in r <==> x in values || x in more[..i]
    {
      assert more[..i + 1] == more[..i] + [more[i]];
      r := AppendUnique(r, more[i]);
    }
    assert more[..|more|] == more;
  }

  method ResolvePortfolioRefs(portfolio: Artifact) returns (refs: seq<string>)
    ensures forall p :: p in refs <==> p in PortfolioRefs(portfolio)
  {
    refs := [];
    for i := 0 to |portfolio.problemRefs|
      invariant forall p :: p in refs <==> p in portfolio.problemRefs[..i] && p != ""
    {
      assert portfolio.problemRefs[..i + 1] == portfolio.problemRefs[..i] + [portfolio.problemRefs[i]];
      if portfolio.problemRefs[i] != "" {
        refs := AppendUnique(refs, portfolio.problemRefs[i]);
      }
    }
    assert portfolio.problemRefs[..|portfolio.problemRefs|] == portfolio.problemRefs;
    for i := 0 to |portfolio.links|
      invariant forall p :: p in refs <==>
                  (p in portfolio.problemRefs && p != "") || (p in portfolio.links[..i] && NamesProblem(p))
    {
      assert portfolio.links[..i + 1] == portfolio.links[..i] + [portfolio.links[i]];
      if NamesProblem(portfolio.links[i]) {
        refs := AppendUnique(refs, portfolio.links[i]);
      }
    }
    assert portfolio.links[..|portfolio.links|] == portfolio.links;
  }

  method ResolveDecisionRefs(s: Store, decision: Artifact) returns (refs: seq<string>)
    ensures forall p :: p in refs <==> p in DecisionRefs(s, decision)
  {
    hide PortfolioRefs;
    refs := decision.problemRefs;
    for i := 0 to |decision.links|
      invariant forall p :: p in refs <==> p in decision.problemRefs || p in LinksRefs(s, decision.links[..i])
    {
      assert decision.links[..i + 1][..i] == decision.links[..i];
      var link := decision.links[i];
      if NamesProblem(link) {
        refs := AppendUnique(refs, link);
      } else if link in s && s[link].kind.Portfolio? {
        var more := ResolvePortfolioRefs(s[link]);
        refs := AppendAllUnique(refs, more);
      }
    }
    assert decision.links[..|decision.links|] == decision.links;
  }

  method ResolveIncomingRefs(s: Store, problemRefs: seq<string>, portfolioRef: string) returns (refs: seq<string>)
    ensures forall p :: p in refs <==> p in IncomingRefs(s, problemRefs, portfolioRef)
  {
    hide PortfolioRefs;
    refs := problemRefs;
    if portfolioRef == "" || portfolioRef !in s || !s[portfolioRef].kind.Portfolio? {
      return;
    }
    var more := ResolvePortfolioRefs(s[portfolioRef]);
    refs := AppendAllUnique(refs, more);
  }

  /** Looks at every decision until one is in the way. */
  method FindConflict(s: Store, problemRefs: seq<string>, portfolioRef: string) returns (conflict: bool)
    ensures conflict <==> Conflict(s, IncomingRefs(s, problemRefs, portfolioRef))
  {
    hide DecisionRefs, IncomingRefs;
    var incoming := ResolveIncomingRefs(s, problemRefs, portfolioRef);
    if |incoming| == 0 {
      return false;
    }
    var rest := s.Keys;
    while rest != {}
      invariant rest <= s.Keys
      invariant forall d :: d in s && d !in rest && s[d].kind.Decision? && Live(s[d]) ==>
                  DecisionRefs(s, s[d]) * IncomingRefs(s, problemRefs, portfolioRef) == {}
      decreases rest
    {
      var d :| d in rest;
      rest := rest - {d};
      if s[d].kind.Decision? && Live(s[d]) {
        var existing := ResolveDecisionRefs(s, s[d]);
        for i := 0 to |existing|
          invariant forall j :: 0 <= j < i ==> existing[j] !in incoming
        {
          if existing[i] in incoming {
            assert existing[i] in DecisionRefs(s, s[d]) * IncomingRefs(s, problemRefs, portfolioRef);
            return true;
          }
        }
        forall p | p in DecisionRefs(s, s[d]) ensures p !in IncomingRefs(s, problemRefs, portfolioRef) {
          var j :| 0 <= j < |existing| && existing[j] == p;
        }
      }
    }
    conflict := false;
  }

  // ---------------------------------------------------------------- operations

  function Compact(values: seq<string>): (r: seq<string>)
    ensures forall v :: v in r ==> v != ""
  {
    if values == [] then []
    else Compact(values[..|values| - 1]) + var t := Trim(values[|values| - 1]); if t == "" then [] else [t]
  }

  /** The problem references of a decision input: the list, and the single one unless it is there already. */
  function MergedRefs(single: string, multiple: seq<string>): (r: seq<string>)
    ensures forall v :: v in r ==> v != ""
  {
    var refs, one := Compact(multiple), Trim(single);
    if one == "" || one in refs then refs else refs + [one]
  }

  /** The input gives the problem by name, alone or in the list. */
  predicate Names(single: string, multiple: seq<string>, p: string) {
    p != "" && (Trim(single) == p || exists m :: m in multiple && Trim(m) == p)
  }

  lemma {:induction false} CompactMembers(values: seq<string>, p: string)
    ensures p in Compact(values) <==> p != "" && exists m :: m in values && Trim(m) == p
    decreases |values|
  {
    hide Trim;
    if values != [] {
      var init, last := values[..|values| - 1], values[|values| - 1];
      CompactMembers(init, p);
      assert values == init + [last];
      assert p in Compact(values) <==> p in Compact(init) || (Trim(last) != "" && p == Trim(last));
      assert last in values && forall m :: m in values <==> m in init || m == last;
    }
  }

  /** The merged references are just the problems the input names. */
  lemma MergedRefsAreNamed(single: string, multiple: seq<string>, p: string)
    ensures p in MergedRefs(single, multiple) <==> Names(single, multiple, p)
  {
    hide Trim, Compact;
    CompactMembers(multiple, p);
    CompactMembers(multiple, Trim(single));
  }

  /** A link stands for a problem if it is named like one, and otherwise for the problems of a portfolio. */
  lemma LinkStandsFor(s: Store, a: Artifact, l: string)
    requires a.problemRefs == [] && a.links == [l]
    ensures "prob-" <= l ==> DecisionRefs(s, a) == {l}
    ensures !("prob-" <= l) && l !in s ==> DecisionRefs(s, a) == {}
    ensures !("prob-" <= l) && l in s && !s[l].kind.Portfolio? ==> DecisionRefs(s, a) == {}
    ensures !("prob-" <= l) && l in s && s[l].kind.Portfolio? ==>
              forall p :: p in DecisionRefs(s, a) <==> (p in s[l].problemRefs && p != "") || (p in s[l].links && "prob-" <= p)
  {
    assert a.links[..0] == [] && a.links[0] == l;
    assert LinksRefs(s, a.links) == LinksRefs(s, []) + LinkRefs(s, l);
    assert (set p | p in a.problemRefs) == {};
    assert DecisionRefs(s, a) == LinkRefs(s, l);
  }

  /** The decision is in force or due for a refresh and resolves a problem that the input names or that stands behind
      the portfolio given. */
  ghost predicate InTheWay(s: Store, d: string, single: string, multiple: seq<string>, portfolio: string) {
    && d in s && s[d].kind.Decision? && s[d].status in {Active, RefreshDue}
    && exists p :: p in DecisionRefs(s, s[d])
                   && (Names(single, multiple, p) || BehindPortfolio(s, Trim(portfolio), p))
  }

  predicate BehindPortfolio(s: Store, portfolioRef: string, p: string) {
    portfolioRef != "" && portfolioRef in s && s[portfolioRef].kind.Portfolio? && p in PortfolioRefs(s[portfolioRef])
  }

  lemma ConflictIffInTheWay(s: Store, single: string, multiple: seq<string>, portfolio: string)
    ensures Conflict(s, IncomingRefs(s, MergedRefs(single, multiple), Trim(portfolio))) <==>
              exists d :: InTheWay(s, d, single, multiple, portfolio)
  {
    hide Trim, MergedRefs, Names, PortfolioRefs, DecisionRefs;
    var refs := IncomingRefs(s, MergedRefs(single, multiple), Trim(portfolio));
    forall p ensures p in refs <==> Names(single, multiple, p) || BehindPortfolio(s, Trim(portfolio), p) {
      MergedRefsAreNamed(single, multiple, p);
    }
    if Conflict(s, refs) {
      var d :| d in s && s[d].kind.Decision? && Live(s[d]) && DecisionRefs(s, s[d]) * refs != {};
      var p :| p in DecisionRefs(s, s[d]) * refs;
      assert InTheWay(s, d, single, multiple, portfolio);
    }
    if d :| InTheWay(s, d, single, multiple, portfolio) {
      var p :| p in DecisionRefs(s, s[d]) && (Names(single, multiple, p) || BehindPortfolio(s, Trim(portfolio), p));
      assert p in DecisionRefs(s, s[d]) * refs;
    }
  }

  function BuildLinks(problemRefs: seq<string>, portfolioRef: string): seq<string> {
    problemRefs + if portfolioRef == "" then [] else [portfolioRef]
  }

  datatype Event =
    | Frame(id: string)
    | Explore(id: string, problemRef: string)
    | Decide(id: string, single: string, multiple: seq<string>, portfolio: string, accepted: bool)
    | Supersede(ref: string)
    | Deprecate(ref: string)
    | Close(ref: string)
    | Reopen(ref: string, newProblem: string)
    | Waive(ref: string)
    | Record(ref: string)

  function NewDecision(refs: seq<string>, portfolioRef: string): Artifact {
    Artifact(Decision, Active, refs, BuildLinks(refs, portfolioRef))
  }

  function WithStatus(s: Store, ref: string, status: Status): Store {
    if ref in s then s[ref := s[ref].(status := status)] else s
  }

  /** The store after an operation; a refused one changes nothing. Measurements and baselines, which rewrite other
      fields of a decision, are `Record`. */
  ghost function Next(s: Store, e: Event): Store {
    match e
    case Frame(id) => s[id := Artifact(Problem, Active, [], [])]
    case Explore(id, problemRef) =>
      if problemRef != "" && (problemRef !in s || !s[problemRef].kind.Problem?) then s
      else s[id := Artifact(Portfolio, Active, [problemRef], if problemRef == "" then [] else [problemRef])]
    case Decide(id, single, multiple, portfolio, accepted) =>
      if Conflict(s, IncomingRefs(s, MergedRefs(single, multiple), Trim(portfolio))) || !accepted then s
      else s[id := NewDecision(MergedRefs(single, multiple), Trim(portfolio))]
    case Supersede(ref) => WithStatus(s, ref, Superseded)
    case Deprecate(ref) => WithStatus(s, ref, Deprecated)
    case Close(ref) => if ref in s && s[ref].kind.Problem? then WithStatus(s, ref, Addressed) else s
    case Reopen(ref, newProblem) =>
      if ref in s && s[ref].kind.Decision? then
        WithStatus(s, ref, RefreshDue)[newProblem := Artifact(Problem, Active, [], [])]
      else s
    case Waive(ref) => WithStatus(s, ref, Active)
    case Record(ref) => s
  }

  class ArtifactStore {
    var artifacts: Store

    constructor ()
      ensures artifacts == map[]
    {
      artifacts := map[];
    }

    /** Stores the decision unless one in force is in the way; what is stored lists just the problems named. */
    method DecideOn(id: string, single: string, multiple: seq<string>, portfolio: string, accepted: bool) returns (ok: bool)
      modifies this
      ensures artifacts == Next(old(artifacts), Decide(id, single, multiple, portfolio, accepted))
      ensures ok <==> accepted && !exists d :: InTheWay(old(artifacts), d, single, multiple, portfolio)
      ensures !ok ==> artifacts == old(artifacts)
      ensures ok ==>
                && id in artifacts && artifacts == old(artifacts)[id := artifacts[id]]
                && artifacts[id].kind.Decision? && artifacts[id].status == Active
                && (forall p :: p in artifacts[id].problemRefs <==> Names(single, multiple, p))
                && (forall l :: l in artifacts[id].links <==>
                      Names(single, multiple, l) || (l == Trim(portfolio) && l != ""))
    {
      hide Conflict, IncomingRefs, MergedRefs, Trim, InTheWay, Names;
      ConflictIffInTheWay(artifacts, single, multiple, portfolio);
      forall p {
        MergedRefsAreNamed(single, multiple, p);
      }
      var refs := MergedRefs(single, multiple);
      var portfolioRef := Trim(portfolio);
      var conflict := FindConflict(artifacts, refs, portfolioRef);
      if conflict || !accepted {
        return false;
      }
      artifacts := artifacts[id := NewDecision(refs, portfolioRef)];
      ok := true;
    }

    method ExploreFor(id: string, problemRef: string) returns (ok: bool)
      modifies this
      ensures artifacts == Next(old(artifacts), Explore(id, problemRef))
      ensures ok <==> problemRef == "" || (problemRef in old(artifacts) && old(artifacts)[problemRef].kind.Problem?)
    {
      var links: seq<string> := [];
      if problemRef != "" {
        if problemRef !in artifacts || !artifacts[problemRef].kind.Problem? {
          return false;
        }
        links := links + [problemRef];
        assert links == [problemRef];
      }
      artifacts := artifacts[id := Artifact(Portfolio, Active, [problemRef], links)];
      ok := true;
    }

    method SetStatus(ref: string, status: Status) returns (ok: bool)
      modifies this
      ensures artifacts == WithStatus(old(artifacts), ref, status) && (ok <==> ref in old(artifacts))
    {
      ok := ref in artifacts;
      if ok {
        artifacts := artifacts[ref := artifacts[ref].(status := status)];
      }
    }

    method SupersedeArtifact(ref: string) returns (ok: bool)
      modifies this
      ensures artifacts == Next(old(artifacts), Supersede(ref)) && (ok <==> ref in old(artifacts))
    {
      ok := SetStatus(ref, Superseded);
    }

    method DeprecateArtifact(ref: string) returns (ok: bool)
      modifies this
      ensures artifacts == Next(old(artifacts), Deprecate(ref)) && (ok <==> ref in old(artifacts))
    {
      ok := SetStatus(ref, Deprecated);
    }

    method WaiveArtifact(ref: string) returns (ok: bool)
      modifies this
      ensures artifacts == Next(old(artifacts), Waive(ref)) && (ok <==> ref in old(artifacts))
    {
      ok := SetStatus(ref, Active);
    }

    method ReopenDecision(ref: string, newProblem: string) returns (ok: bool)
      modifies this
      ensures artifacts == Next(old(artifacts), Reopen(ref, newProblem))
      ensures ok <==> ref in old(artifacts) && old(artifacts)[ref].kind.Decision?
    {
      if ref !in artifacts || !artifacts[ref].kind.Decision? {
        return false;
      }
      var marked := SetStatus(ref, RefreshDue);
      artifacts := artifacts[newProblem := Artifact(Problem, Active, [], [])];
      ok := true;
    }
  }
}
