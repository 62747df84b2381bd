/** The lazy start of the hybrid searcher, as the interleaving of any number of searches, prewarms and warms. */
module Hybrid {
  import opened Options

  type Tid = int

  type Embedder = int

  /** Who builds the index: a search, the background goroutine of a prewarm, or a blocking warm. */
  datatype Caller = Searching | Prewarming | Warming

  /** Where a thread stands. Each value but the last three is the step it takes next. */
  datatype Pc =
    | Check(caller: Caller)
    | Resolve(caller: Caller)
    | Start(caller: Caller)
    | Settle(caller: Caller, embedder: Option<Embedder>, failed: bool)
    | Load(caller: Caller, embedder: Option<Embedder>)
    | Install(caller: Caller, card: Option<nat>, prose: Option<nat>)
    | Snap
    | Ready(embedder: Option<Embedder>)
    | Degraded
    | Done

  /** The fields of the searcher, the threads, and what happened: embedders started and closed, builds begun other
      than by a warm. An index is given by its length. */
  datatype State = State(
    embedder: Option<Embedder>, unavailable: bool, building: bool, built: bool,
    card: Option<nat>, prose: Option<nat>,
    threads: map<Tid, Pc>, started: set<Embedder>, closed: set<Embedder>, builds: nat)

  const INITIAL := State(None, false, false, false, None, None, map[], {}, {}, 0)

  function Length(index: Option<nat>): nat {
    if index.None? then 0 else index.value
  }

  /** A thread's next step, with what the world answers: a started embedder or none, with or without an error, and
      the lengths of the loaded indices. */
  datatype Action =
    | Enter(t: Tid, caller: Caller)
    | DoCheck(t: Tid, spawned: Tid)
    | DoResolve(t: Tid)
    | DoStart(t: Tid, embedder: Option<Embedder>, failed: bool)
    | DoSettle(t: Tid)
    | DoLoad(t: Tid, card: Option<nat>, prose: Option<nat>)
    | DoInstall(t: Tid)
    | DoSnap(t: Tid)

  predicate Enabled(s: State, a: Action) {
    match a
    case Enter(t, _) => t !in s.threads
    case DoCheck(t, spawned) => t in s.threads && s.threads[t].Check? && spawned !in s.threads
    case DoResolve(t) => t in s.threads && s.threads[t].Resolve?
    case DoStart(t, e, _) => t in s.threads && s.threads[t].Start? && (e.Some? ==> e.value !in s.started)
    case DoSettle(t) => t in s.threads && s.threads[t].Settle?
    case DoLoad(t, card, prose) =>
      && t in s.threads && s.threads[t].Load? && card.Some? == prose.Some?
      && (s.threads[t].embedder.None? ==> card.None?)
    case DoInstall(t) => t in s.threads && s.threads[t].Install?
    case DoSnap(t) => t in s.threads && s.threads[t].Snap?
  }

  function Goto(s: State, t: Tid, pc: Pc): State {
    s.(threads := s.threads[t := pc])
  }

  /** Locked: someone else builds or has built, or the build is claimed; a prewarm leaves it to a goroutine. */
  function CheckStep(s: State, t: Tid, caller: Caller, spawned: Tid): State {
    if s.unavailable || s.built || s.building then Goto(s, t, if caller.Searching? then Snap else Done)
    else
      var claimed := s.(building := true, builds := s.builds + 1);
      if caller.Searching? then Goto(claimed, t, Resolve(caller)) else Goto(Goto(claimed, t, Done), spawned, Resolve(caller))
  }

  /** Locked: the first half of resolving the embedder. */
  function ResolveStep(s: State, t: Tid, caller: Caller): State {
    if s.unavailable then Goto(s, t, Load(caller, None))
    else if s.embedder.Some? then Goto(s, t, Load(caller, s.embedder))
    else Goto(s, t, Start(caller))
  }

  function Close(s: State, e: Option<Embedder>): State {
    if e.Some? then s.(closed := s.closed + {e.value}) else s
  }

  /** Locked: the second half; the loser of a race closes what it started and takes the cached one. */
  function SettleStep(s: State, t: Tid, caller: Caller, e: Option<Embedder>, failed: bool): State {
    if s.embedder.Some? then Goto(Close(s, e), t, Load(caller, s.embedder))
    else if failed then Goto(Close(s.(unavailable := true), e), t, Load(caller, None))
    else if e.None? then Goto(s.(unavailable := true), t, Load(caller, None))
    else Goto(s.(embedder := e), t, Load(caller, e))
  }

  /** Locked: publishes the indices. A warm leaves the claim of another builder alone. */
  function InstallStep(s: State, t: Tid, caller: Caller, card: Option<nat>, prose: Option<nat>): State {
    var installed := s.(card := card, prose := prose, built := true, building := s.building && caller.Warming?);
    Goto(installed, t, if caller.Searching? then Snap else Done)
  }

  function SnapStep(s: State, t: Tid): State {
    if Length(s.card) + Length(s.prose) == 0 then Goto(s, t, Degraded) else Goto(s, t, Ready(s.embedder))
  }

  function Next(s: State, a: Action): State
    requires Enabled(s, a)
  {
    match a
    case Enter(t, caller) => Goto(s, t, if caller.Warming? then Resolve(caller) else Check(caller))
    case DoCheck(t, spawned) => CheckStep(s, t, s.threads[t].caller, spawned)
    case DoResolve(t) => ResolveStep(s, t, s.threads[t].caller)
    case DoStart(t, e, failed) =>
      Goto(if e.Some? then s.(started := s.started + {e.value}) else s, t, Settle(s.threads[t].caller, e, failed))
    case DoSettle(t) => SettleStep(s, t, s.threads[t].caller, s.threads[t].embedder, s.threads[t].failed)
    case DoLoad(t, card, prose) => Goto(s, t, Install(s.threads[t].caller, card, prose))
    case DoInstall(t) => InstallStep(s, t, s.threads[t].caller, s.threads[t].card, s.threads[t].prose)
    case DoSnap(t) => SnapStep(s, t)
  }

  // ---------------------------------------------------------------- what every step keeps

  /** The embedder a thread holds that is neither cached nor closed yet. */
  function HeldIn(pc: Pc): Option<Embedder> {
    if pc.Settle? then pc.embedder else None
  }

  predicate Holds(s: State, t: Tid, e: Embedder) {
    t in s.threads && HeldIn(s.threads[t]) == Some(e)
  }

  predicate InFlight(s: State, e: Embedder) {
    exists t :: t in s.threads && Holds(s, t, e)
  }

  /** Every embedder started is cached, closed or held by one thread, and only one of these. */
  ghost predicate Accounted(s: State) {
    && s.closed <= s.started
    && (forall e :: e in s.started ==> s.embedder == Some(e) || e in s.closed || InFlight(s, e))
    && (s.embedder.Some? ==> s.embedder.value in s.started - s.closed)
    && (forall t, e :: Holds(s, t, e) ==> e in s.started - s.closed && s.embedder != Some(e))
    && (forall t, u, e :: Holds(s, t, e) && Holds(s, u, e) ==> t == u)
  }

  predicate BackedPc(cached: Option<Embedder>, pc: Pc) {
    match pc
    case Load(_, e) => e.Some? ==> cached == e
    case Install(_, card, prose) => card.Some? || prose.Some? ==> cached.Some?
    case Ready(e) => e.Some? && cached == e
    case _ => true
  }

  /** Whoever got an embedder or an index from one, the embedder is cached; it never changes. */
  ghost predicate Backed(s: State) {
    && (forall t :: t in s.threads ==> BackedPc(s.embedder, s.threads[t]))
    && (Length(s.card) + Length(s.prose) > 0 ==> s.embedder.Some?)
  }

  predicate Builds(pc: Pc) {
    (pc.Resolve? || pc.Start? || pc.Settle? || pc.Load? || pc.Install?) && !pc.caller.Warming?
  }

  predicate IsBuilder(s: State, t: Tid) {
    t in s.threads && Builds(s.threads[t])
  }

  predicate SomeBuilder(s: State) {
    exists t :: t in s.threads && IsBuilder(s, t)
  }

  /** The claim to build stands exactly while one thread works on it, and it is made once. */
  ghost predicate Claimed(s: State) {
    && (forall t, u :: IsBuilder(s, t) && IsBuilder(s, u) ==> t == u)
    && (s.building <==> SomeBuilder(s))
    && s.builds <= 1
    && (s.builds == 1 ==> s.building || s.built)
    && (forall t :: t in s.threads && s.threads[t].Check? ==> !s.threads[t].caller.Warming?)
  }

  ghost predicate Inv(s: State) {
    Accounted(s) && Backed(s) && Claimed(s)
  }

  // ---------------------------------------------------------------- embedders

  lemma AccountedSame(s: State, n: State)
    requires Accounted(s) && n.started == s.started && n.closed == s.closed && n.embedder == s.embedder
    requires forall t, e :: Holds(n, t, e) <==> Holds(s, t, e)
    ensures Accounted(n)
  {
    hide HeldIn;
    forall e | e in n.started ensures n.embedder == Some(e) || e in n.closed || InFlight(n, e) {
      if InFlight(s, e) {
        var t :| t in s.threads && Holds(s, t, e);
        assert Holds(n, t, e);
      }
    }
  }

  lemma HoldsAfter(s: State, t: Tid, pc: Pc, u: Tid, e: Embedder)
    ensures Holds(Goto(s, t, pc), u, e) <==> if u == t then HeldIn(pc) == Some(e) else Holds(s, u, e)
  {
  }

  lemma AccountedGoto(s: State, t: Tid, pc: Pc)
    requires Accounted(s) && HeldIn(pc) == None && (t in s.threads ==> HeldIn(s.threads[t]) == None)
    ensures Accounted(Goto(s, t, pc))
  {
    hide Accounted;
    forall u, e ensures Holds(Goto(s, t, pc), u, e) <==> Holds(s, u, e) {
      HoldsAfter(s, t, pc, u, e);
    }
    AccountedSame(s, Goto(s, t, pc));
  }

  lemma AccountedStart(s: State, t: Tid, e: Embedder, pc: Pc)
    requires Accounted(s) && e !in s.started && HeldIn(pc) == Some(e) && t in s.threads && HeldIn(s.threads[t]) == None
    ensures Accounted(Goto(s.(started := s.started + {e}), t, pc))
  {
    hide HeldIn, Goto;
    var begun := s.(started := s.started + {e});
    var n := Goto(begun, t, pc);
    GotoKeeps(begun, t, pc);
    forall u, x ensures Holds(n, u, x) <==> if u == t then x == e else Holds(s, u, x) {
      HoldsAfter(begun, t, pc, u, x);
      assert Holds(begun, u, x) == Holds(s, u, x);
    }
    forall x | x in n.started ensures n.embedder == Some(x) || x in n.closed || InFlight(n, x) {
      if x == e {
        assert Holds(n, t, e);
      } else if InFlight(s, x) {
        var u :| u in s.threads && Holds(s, u, x);
        assert Holds(n, u, x);
      }
    }
  }

  lemma GotoKeeps(s: State, t: Tid, pc: Pc)
    ensures Goto(s, t, pc) == s.(threads := s.threads[t := pc])
  {
  }

  /** A thread gives up what it holds: it becomes the cached embedder or is closed. */
  lemma AccountedSettle(s: State, t: Tid, e: Embedder, n: State)
    requires Accounted(s) && Holds(s, t, e) && n.started == s.started
    requires t in n.threads && n.threads == s.threads[t := n.threads[t]] && HeldIn(n.threads[t]) == None
    requires || (s.embedder.None? && n.embedder == Some(e) && n.closed == s.closed)
             || (n.embedder == s.embedder && n.closed == s.closed + {e})
    ensures Accounted(n)
  {
    hide HeldIn;
    forall u, x ensures Holds(n, u, x) <==> u != t && Holds(s, u, x) {
    }
    forall x | x in n.started ensures n.embedder == Some(x) || x in n.closed || InFlight(n, x) {
      if x != e && InFlight(s, x) {
        var u :| u in s.threads && Holds(s, u, x);
        assert Holds(n, u, x);
      }
    }
  }

  lemma AccountedCheck(s: State, t: Tid, spawned: Tid)
    requires Accounted(s) && Enabled(s, DoCheck(t, spawned))
    ensures Accounted(Next(s, DoCheck(t, spawned)))
  {
    hide Accounted;
    var caller := s.threads[t].caller;
    if s.unavailable || s.built || s.building {
      AccountedGoto(s, t, if caller.Searching? then Snap else Done);
    } else {
      var claimed := s.(building := true, builds := s.builds + 1);
      AccountedSame(s, claimed);
      AccountedGoto(claimed, t, if caller.Searching? then Resolve(caller) else Done);
      if !caller.Searching? {
        AccountedGoto(Goto(claimed, t, Done), spawned, Resolve(caller));
      }
    }
  }

  lemma AccountedSettling(s: State, t: Tid)
    requires Accounted(s) && t in s.threads && s.threads[t].Settle?
    ensures Accounted(Next(s, DoSettle(t)))
  {
    hide Accounted;
    var e, n := s.threads[t].embedder, Next(s, DoSettle(t));
    if e.Some? {
      AccountedSettle(s, t, e.value, n);
    } else {
      AccountedGoto(s, t, n.threads[t]);
      AccountedSame(Goto(s, t, n.threads[t]), n);
    }
  }

  lemma AccountedKept(s: State, a: Action)
    requires Accounted(s) && Enabled(s, a)
    ensures Accounted(Next(s, a))
  {
    hide Accounted;
    match a {
      case Enter(t, caller) => AccountedGoto(s, t, if caller.Warming? then Resolve(caller) else Check(caller));
      case DoCheck(t, spawned) =>
        AccountedCheck(s, t, spawned);
      case DoResolve(t) =>
        AccountedGoto(s, t, ResolveStep(s, t, s.threads[t].caller).threads[t]);
      case DoStart(t, e, failed) =>
        if e.Some? {
          AccountedStart(s, t, e.value, Settle(s.threads[t].caller, e, failed));
        } else {
          AccountedGoto(s, t, Settle(s.threads[t].caller, e, failed));
        }
      case DoSettle(t) =>
        AccountedSettling(s, t);
      case DoLoad(t, card, prose) => AccountedGoto(s, t, Install(s.threads[t].caller, card, prose));
      case DoInstall(t) =>
        var n := Next(s, a);
        AccountedGoto(s, t, n.threads[t]);
        AccountedSame(Goto(s, t, n.threads[t]), n);
      case DoSnap(t) => AccountedGoto(s, t, SnapStep(s, t).threads[t]);
    }
  }

  // ---------------------------------------------------------------- indices and snapshots

  lemma BackedGoto(s: State, t: Tid, pc: Pc)
    requires Backed(s) && BackedPc(s.embedder, pc)
    ensures Backed(Goto(s, t, pc))
  {
    hide BackedPc;
  }

  /** Caching the first embedder takes nothing away. */
  lemma BackedCached(s: State, e: Embedder)
    requires Backed(s) && s.embedder.None?
    ensures Backed(s.(embedder := Some(e)))
  {
  }

  lemma BackedSettle(s: State, t: Tid)
    requires Backed(s) && t in s.threads && s.threads[t].Settle?
    ensures Backed(Next(s, DoSettle(t)))
  {
    hide Backed;
    var caller, e, failed := s.threads[t].caller, s.threads[t].embedder, s.threads[t].failed;
    if s.embedder.Some? {
      BackedOther(s, Close(s, e));
      BackedGoto(Close(s, e), t, Load(caller, s.embedder));
    } else if failed {
      BackedOther(s, Close(s.(unavailable := true), e));
      BackedGoto(Close(s.(unavailable := true), e), t, Load(caller, None));
    } else if e.None? {
      BackedOther(s, s.(unavailable := true));
      BackedGoto(s.(unavailable := true), t, Load(caller, None));
    } else {
      BackedCached(s, e.value);
      BackedGoto(s.(embedder := e), t, Load(caller, e));
    }
  }

  lemma BackedOther(s: State, n: State)
    requires Backed(s) && n.threads == s.threads && n.embedder == s.embedder && n.card == s.card && n.prose == s.prose
    ensures Backed(n)
  {
    hide BackedPc;
  }

  lemma BackedInstall(s: State, t: Tid)
    requires Backed(s) && t in s.threads && s.threads[t].Install?
    ensures Backed(Next(s, DoInstall(t)))
  {
    assert BackedPc(s.embedder, s.threads[t]);
  }

  lemma BackedKept(s: State, a: Action)
    requires Backed(s) && Enabled(s, a)
    ensures Backed(Next(s, a))
  {
    match a {
      case Enter(t, caller) => BackedGoto(s, t, if caller.Warming? then Resolve(caller) else Check(caller));
      case DoCheck(t, spawned) => BackedCheck(s, t, spawned);
      case DoResolve(t) => BackedGoto(s, t, ResolveStep(s, t, s.threads[t].caller).threads[t]);
      case DoStart(t, e, failed) =>
        var begun := if e.Some? then s.(started := s.started + {e.value}) else s;
        BackedOther(s, begun);
        BackedGoto(begun, t, Settle(s.threads[t].caller, e, failed));
      case DoSettle(t) => BackedSettle(s, t);
      case DoLoad(t, card, prose) =>
        assert BackedPc(s.embedder, s.threads[t]);
        BackedGoto(s, t, Install(s.threads[t].caller, card, prose));
      case DoInstall(t) => BackedInstall(s, t);
      case DoSnap(t) => BackedGoto(s, t, SnapStep(s, t).threads[t]);
    }
  }

  lemma BackedCheck(s: State, t: Tid, spawned: Tid)
    requires Backed(s) && Enabled(s, DoCheck(t, spawned))
    ensures Backed(Next(s, DoCheck(t, spawned)))
  {
    hide Backed;
    var caller := s.threads[t].caller;
    if s.unavailable || s.built || s.building {
      BackedGoto(s, t, if caller.Searching? then Snap else Done);
    } else {
      var claimed := s.(building := true, builds := s.builds + 1);
      BackedOther(s, claimed);
      BackedGoto(claimed, t, if caller.Searching? then Resolve(caller) else Done);
      if !caller.Searching? {
        BackedGoto(Goto(claimed, t, Done), spawned, Resolve(caller));
      }
    }
  }

  // ---------------------------------------------------------------- the claim to build

  /** A thread moves on without starting or ending a build. */
  lemma ClaimedMove(s: State, t: Tid, n: State)
    requires Claimed(s) && t in n.threads && n.threads == s.threads[t := n.threads[t]]
    requires n.building == s.building && n.builds == s.builds && (s.built ==> n.built)
    requires IsBuilder(s, t) == Builds(n.threads[t])
    requires n.threads[t].Check? ==> !n.threads[t].caller.Warming?
    ensures Claimed(n)
  {
    hide Builds;
    forall u ensures IsBuilder(n, u) <==> IsBuilder(s, u) {
    }
    SameBuilders(s, n);
  }

  lemma SameBuilders(s: State, n: State)
    requires forall u :: IsBuilder(n, u) <==> IsBuilder(s, u)
    ensures SomeBuilder(n) <==> SomeBuilder(s)
  {
    hide Builds;
    if SomeBuilder(s) {
      var t :| t in s.threads && IsBuilder(s, t);
      assert IsBuilder(n, t);
    }
    if SomeBuilder(n) {
      var t :| t in n.threads && IsBuilder(n, t);
      assert IsBuilder(s, t);
    }
  }

  lemma NoBuilder(s: State, t: Tid)
    requires !SomeBuilder(s)
    ensures !IsBuilder(s, t)
  {
  }

  lemma ClaimedClaim(s: State, t: Tid, n: State)
    requires Claimed(s) && !s.building && !s.built && n.building && n.builds == s.builds + 1
    requires IsBuilder(n, t) && forall u :: u != t ==> (IsBuilder(n, u) ==> IsBuilder(s, u))
    requires forall u :: u in n.threads && n.threads[u].Check? ==> u in s.threads && n.threads[u] == s.threads[u]
    ensures Claimed(n)
  {
    hide Builds;
    forall u ensures !IsBuilder(s, u) {
      NoBuilder(s, u);
    }
  }

  lemma ClaimedInstall(s: State, t: Tid)
    requires Claimed(s) && t in s.threads && s.threads[t].Install? && !s.threads[t].caller.Warming?
    ensures Claimed(Next(s, DoInstall(t)))
  {
    var n := Next(s, DoInstall(t));
    assert IsBuilder(s, t);
    forall u ensures !IsBuilder(n, u) {
      assert u != t ==> (IsBuilder(n, u) <==> IsBuilder(s, u));
    }
  }

  lemma ClaimedSettle(s: State, t: Tid)
    requires Claimed(s) && t in s.threads && s.threads[t].Settle?
    ensures Claimed(Next(s, DoSettle(t)))
  {
    hide Claimed;
    ClaimedMove(s, t, Next(s, DoSettle(t)));
  }

  lemma ClaimedKept(s: State, a: Action)
    requires Claimed(s) && Enabled(s, a)
    ensures Claimed(Next(s, a))
  {
    hide Claimed;
    var n := Next(s, a);
    if a.DoCheck? {
      ClaimedCheck(s, a.t, a.spawned);
    } else if a.DoInstall? && !s.threads[a.t].caller.Warming? {
      ClaimedInstall(s, a.t);
    } else if a.DoSettle? {
      ClaimedSettle(s, a.t);
    } else {
      hide SettleStep;
      ClaimedMove(s, a.t, n);
    }
  }

  lemma ClaimedCheck(s: State, t: Tid, spawned: Tid)
    requires Claimed(s) && Enabled(s, DoCheck(t, spawned))
    ensures Claimed(Next(s, DoCheck(t, spawned)))
  {
    var caller, n := s.threads[t].caller, Next(s, DoCheck(t, spawned));
    assert !caller.Warming? && !IsBuilder(s, t);
    hide Claimed;
    if s.unavailable || s.built || s.building {
      ClaimedMove(s, t, n);
    } else if caller.Searching? {
      ClaimedClaim(s, t, n);
    } else {
      ClaimedClaim(s, spawned, n);
    }
  }

  lemma InvKept(s: State, a: Action)
    requires Inv(s) && Enabled(s, a)
    ensures Inv(Next(s, a))
  {
    hide Accounted, Backed, Claimed, Next, Enabled;
    AccountedKept(s, a);
    BackedKept(s, a);
    ClaimedKept(s, a);
  }

  // ---------------------------------------------------------------- every interleaving

  ghost predicate Run(states: seq<State>, actions: seq<Action>) {
    && |states| == |actions| + 1 && states[0] == INITIAL
    && forall i :: 0 <= i < |actions| ==> Enabled(states[i], actions[i]) && states[i + 1] == Next(states[i], actions[i])
  }

  lemma {:induction false} InvAlways(states: seq<State>, actions: seq<Action>, i: nat)
    requires Run(states, actions) && i < |states|
    ensures Inv(states[i])
  {
    hide Inv, Next, Enabled;
    if i == 0 {
      InvAtStart();
    } else {
      InvAlways(states, actions, i - 1);
      InvKept(states[i - 1], actions[i - 1]);
    }
  }

  lemma InvAtStart()
    ensures Inv(INITIAL)
  {
  }

  predicate Resolving(pc: Pc) {
    pc.Resolve? || pc.Start? || pc.Settle?
  }

  /** Whenever no resolve is in flight, every embedder ever started is the cached one or closed, never both. */
  lemma NoEmbedderLeaks(states: seq<State>, actions: seq<Action>, i: nat, e: Embedder)
    requires Run(states, actions) && i < |states| && e in states[i].started
    requires forall t :: t in states[i].threads ==> !Resolving(states[i].threads[t])
    ensures (states[i].embedder == Some(e)) != (e in states[i].closed)
  {
    hide Run, Backed, Claimed;
    InvAlways(states, actions, i);
    NothingInFlight(states[i], e);
  }

  lemma NothingInFlight(s: State, e: Embedder)
    requires forall t :: t in s.threads ==> !Resolving(s.threads[t])
    ensures !InFlight(s, e)
  {
  }

  /** A search that was told the semantic path is ready holds a running embedder, then and for ever after. */
  lemma ReadyHasEmbedder(states: seq<State>, actions: seq<Action>, i: nat, t: Tid)
    requires Run(states, actions) && i < |states| && t in states[i].threads && states[i].threads[t].Ready?
    ensures var e := states[i].threads[t].embedder;
            e.Some? && e.value in states[i].started && e.value !in states[i].closed && states[i].embedder == e
  {
    hide Run, Claimed;
    InvAlways(states, actions, i);
  }

  /** However many searches and prewarms race, and with any warms between them, they build the index once. */
  lemma BuiltAtMostOnce(states: seq<State>, actions: seq<Action>, i: nat)
    requires Run(states, actions) && i < |states|
    ensures states[i].builds <= 1
    ensures states[i].builds == 1 && !states[i].built ==> SomeBuilder(states[i])
  {
    hide Run, Accounted, Backed;
    InvAlways(states, actions, i);
  }

  // ---------------------------------------------------------------- readiness

  /** A snapshot taken now would be ready. */
  predicate Loaded(s: State) {
    Length(s.card) + Length(s.prose) > 0
  }

  predicate IsWarm(pc: Pc) {
    (pc.Resolve? || pc.Start? || pc.Settle? || pc.Load? || pc.Install?) && pc.caller.Warming?
  }

  /** No warm is under way, and an index is there only once a build has ended, which also ended its claim. */
  ghost predicate Cold(s: State) {
    && (forall t :: t in s.threads ==> !IsWarm(s.threads[t]))
    && (s.built ==> !s.building)
    && (!s.built ==> s.card.None? && s.prose.None?)
  }

  predicate Warms(a: Action) {
    a.Enter? && a.caller.Warming?
  }

  lemma ColdMove(s: State, t: Tid, n: State)
    requires Cold(s) && t in n.threads && n.threads == s.threads[t := n.threads[t]] && !IsWarm(n.threads[t])
    requires n.built == s.built && n.building == s.building && n.card == s.card && n.prose == s.prose
    ensures Cold(n)
  {
    hide IsWarm;
  }

  lemma ColdSettle(s: State, t: Tid)
    requires Cold(s) && t in s.threads && s.threads[t].Settle?
    ensures Cold(Next(s, DoSettle(t)))
  {
    assert !IsWarm(s.threads[t]);
    hide Cold;
    ColdMove(s, t, Next(s, DoSettle(t)));
  }

  lemma ColdCheck(s: State, t: Tid, spawned: Tid)
    requires Cold(s) && Claimed(s) && Enabled(s, DoCheck(t, spawned))
    ensures Cold(Next(s, DoCheck(t, spawned)))
  {
    assert !s.threads[t].caller.Warming?;
    hide Claimed;
  }

  lemma ColdInstall(s: State, t: Tid)
    requires Cold(s) && t in s.threads && s.threads[t].Install?
    ensures Cold(Next(s, DoInstall(t)))
  {
    assert !IsWarm(s.threads[t]);
  }

  lemma ColdKept(s: State, a: Action)
    requires Cold(s) && Claimed(s) && Enabled(s, a) && !Warms(a)
    ensures Cold(Next(s, a))
  {
    if a.DoSettle? {
      ColdSettle(s, a.t);
    } else if a.DoCheck? {
      ColdCheck(s, a.t, a.spawned);
    } else if a.DoInstall? {
      ColdInstall(s, a.t);
    } else {
      assert !a.Enter? ==> !IsWarm(s.threads[a.t]);
      hide Claimed, Cold, SettleStep, CheckStep, InstallStep;
      ColdMove(s, a.t, Next(s, a));
    }
  }

  /** Without a warm no step touches an index that is there: whoever installs holds the claim, and the claim has ended. */
  lemma LoadedKept(s: State, a: Action)
    requires Cold(s) && Claimed(s) && Enabled(s, a) && Loaded(s)
    ensures Next(s, a).card == s.card && Next(s, a).prose == s.prose
  {
    if a.DoInstall? {
      InstallerClaims(s, a.t);
    }
  }

  lemma InstallerClaims(s: State, t: Tid)
    requires Claimed(s) && t in s.threads && s.threads[t].Install? && !IsWarm(s.threads[t])
    ensures s.building
  {
    assert IsBuilder(s, t);
  }

  ghost predicate WithoutWarms(actions: seq<Action>) {
    forall i :: 0 <= i < |actions| ==> !Warms(actions[i])
  }

  lemma {:induction false} ColdAlways(states: seq<State>, actions: seq<Action>, i: nat)
    requires Run(states, actions) && WithoutWarms(actions) && i < |states|
    ensures Cold(states[i]) && Claimed(states[i])
  {
    hide Cold, Claimed, Next, Enabled, Warms, Accounted, Backed;
    InvAlways(states, actions, i);
    if i == 0 {
      ColdAtStart();
    } else {
      ColdAlways(states, actions, i - 1);
      ColdKept(states[i - 1], actions[i - 1]);
    }
  }

  lemma ColdAtStart()
    ensures Cold(INITIAL)
  {
  }

  lemma {:induction false} IndexStays(states: seq<State>, actions: seq<Action>, i: nat, j: nat)
    requires Run(states, actions) && WithoutWarms(actions) && i <= j < |states| && Loaded(states[i])
    ensures states[j].card == states[i].card && states[j].prose == states[i].prose
    decreases j
  {
    hide Cold, Claimed, Next, Enabled, Warms;
    if i < j {
      IndexStays(states, actions, i, j - 1);
      ColdAlways(states, actions, j - 1);
      LoadedKept(states[j - 1], actions[j - 1]);
    }
  }

  /** The step gives its thread a ready snapshot. */
  predicate SnapsReady(s: State, a: Action) {
    Enabled(s, a) && a.DoSnap? && Next(s, a).threads[a.t].Ready?
  }

  /** In a run without warms, once a snapshot is ready every later one is, over the same indices and embedder. */
  lemma ReadyStaysReady(states: seq<State>, actions: seq<Action>, i: nat, j: nat)
    requires Run(states, actions) && WithoutWarms(actions) && i <= j < |actions|
    requires SnapsReady(states[i], actions[i]) && actions[j].DoSnap?
    ensures SnapsReady(states[j], actions[j])
    ensures states[j].card == states[i].card && states[j].prose == states[i].prose
    ensures states[j + 1].threads[actions[j].t].embedder == states[i + 1].threads[actions[i].t].embedder
  {
    hide Accounted, Claimed;
    InvAlways(states, actions, i);
    IndexStays(states, actions, i, j);
    EmbedderStays(states, actions, i, j);
  }

  lemma {:induction false} EmbedderStays(states: seq<State>, actions: seq<Action>, i: nat, j: nat)
    requires Run(states, actions) && i <= j < |states| && states[i].embedder.Some?
    ensures states[j].embedder == states[i].embedder
    decreases j
  {
    if i < j {
      EmbedderStays(states, actions, i, j - 1);
    }
  }

  /** Once an embedder could not be started, none is started again and no build begins. */
  lemma {:induction false} UnavailableForGood(states: seq<State>, actions: seq<Action>, i: nat, j: nat)
    requires Run(states, actions) && i <= j < |states| && states[i].unavailable
    ensures states[j].unavailable && states[j].builds == states[i].builds
    ensures forall t :: t in states[j].threads && states[j].threads[t].Start? ==> t in states[i].threads && states[i].threads[t].Start?
    decreases j
  {
    hide Enabled;
    if i < j {
      UnavailableForGood(states, actions, i, j - 1);
      UnavailableStep(states[j - 1], actions[j - 1]);
    }
  }

  lemma UnavailableStep(s: State, a: Action)
    requires Enabled(s, a) && s.unavailable
    ensures var n := Next(s, a);
            && n.unavailable && n.builds == s.builds
            && forall t :: t in n.threads && n.threads[t].Start? ==> t in s.threads && s.threads[t].Start?
  {
  }

  /** A snapshot is ready exactly if one of the two indices loaded is not empty. */
  lemma SnapsReadyIff(s: State, a: Action)
    requires Enabled(s, a) && a.DoSnap?
    ensures SnapsReady(s, a) <==> exists n: nat :: n > 0 && (s.card == Some(n) || s.prose == Some(n))
  {
    if SnapsReady(s, a) {
      var n := if Length(s.card) > 0 then Length(s.card) else Length(s.prose);
      assert s.card == Some(n) || s.prose == Some(n);
    }
  }

  /** A search builds and snaps ready; then a warm installs what it could load, which is nothing. */
  function WarmedRun(e: Embedder): (run: seq<(Action, State)>)
    ensures |run| == 15
  {
    var idle := INITIAL.(building := true, builds := 1);
    var begun := idle.(started := {e});
    var up := begun.(embedder := Some(e));
    var loaded := up.(card := Some(1), prose := Some(0), built := true, building := false);
    var lost := loaded.(card := None, prose := None);
    var first := map[0 := Ready(Some(e))];
    [(Enter(0, Searching), INITIAL.(threads := map[0 := Check(Searching)])),
     (DoCheck(0, 9), idle.(threads := map[0 := Resolve(Searching)])),
     (DoResolve(0), idle.(threads := map[0 := Start(Searching)])),
     (DoStart(0, Some(e), false), begun.(threads := map[0 := Settle(Searching, Some(e), false)])),
     (DoSettle(0), up.(threads := map[0 := Load(Searching, Some(e))])),
     (DoLoad(0, Some(1), Some(0)), up.(threads := map[0 := Install(Searching, Some(1), Some(0))])),
     (DoInstall(0), loaded.(threads := map[0 := Snap])),
     (DoSnap(0), loaded.(threads := first)),
     (Enter(1, Warming), loaded.(threads := first[1 := Resolve(Warming)])),
     (DoResolve(1), loaded.(threads := first[1 := Load(Warming, Some(e))])),
     (DoLoad(1, None, None), loaded.(threads := first[1 := Install(Warming, None, None)])),
     (DoInstall(1), lost.(threads := first[1 := Done])),
     (Enter(2, Searching), lost.(threads := first[1 := Done][2 := Check(Searching)])),
     (DoCheck(2, 9), lost.(threads := first[1 := Done][2 := Snap])),
     (DoSnap(2), lost.(threads := first[1 := Done][2 := Degraded]))]
  }

  lemma WarmedRunSteps(e: Embedder, k: nat)
    requires k < 15
    ensures var run := WarmedRun(e); var s := if k == 0 then INITIAL else run[k - 1].1;
            Enabled(s, run[k].0) && run[k].1 == Next(s, run[k].0)
  {
    var run := WarmedRun(e);
    var s := if k == 0 then INITIAL else run[k - 1].1;
    assert Enabled(s, run[k].0);
    assert run[k].1.threads == Next(s, run[k].0).threads;
  }

  lemma WarmedRunSnaps(e: Embedder)
    ensures var run := WarmedRun(e);
            && run[7].0.DoSnap? && run[7].0.t in run[7].1.threads && run[7].1.threads[run[7].0.t].Ready?
            && run[14].0.DoSnap? && run[14].0.t in run[14].1.threads && !run[14].1.threads[run[14].0.t].Ready?
  {
  }

  /** A warm that cannot load overwrites what was loaded: a snapshot after a ready one is degraded again. */
  lemma FailingWarmLosesReadiness(e: Embedder) returns (states: seq<State>, actions: seq<Action>)
    ensures Run(states, actions)
    ensures |actions| == 15 && SnapsReady(states[7], actions[7]) && actions[14].DoSnap? && !SnapsReady(states[14], actions[14])
  {
    hide Next, Enabled, WarmedRun;
    var run := WarmedRun(e);
    actions := seq(15, i requires 0 <= i < 15 => run[i].0);
    states := seq(16, i requires 0 <= i < 16 => if i == 0 then INITIAL else run[i - 1].1);
    forall k | 0 <= k < 15 ensures Enabled(states[k], actions[k]) && states[k + 1] == Next(states[k], actions[k]) {
      WarmedRunSteps(e, k);
    }
    assert Run(states, actions);
    WarmedRunSnaps(e);
    assert actions[7] == run[7].0 && states[8] == run[7].1;
    assert actions[14] == run[14].0 && states[15] == run[14].1;
    assert Enabled(states[7], actions[7]) && states[8] == Next(states[7], actions[7]);
    assert Enabled(states[14], actions[14]) && states[15] == Next(states[14], actions[14]);
  }
}
