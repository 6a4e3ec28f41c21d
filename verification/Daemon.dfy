/** The whole daemon as one transition system: the bus, the cache with its watcher, and the
    system DNS manager, interleaved in every possible way. */
module Daemon {
  import opened Names
  import opened Rules
  import opened Stores
  import opened EventBus
  import W = RulesWatch
  import S = SystemDns

  datatype State = State(bus: Bus, watch: W.Watch, manager: S.Manager)

  datatype Step =
    | OnBus(bus: BusStep)
    | OnWatch(watch: W.WatchStep)
    | OnManager(manager: S.ManagerStep)

  ghost predicate Enabled(s: State, step: Step) {
    match step
    case OnBus(x) => BusEnabled(s.bus, x)
    case OnWatch(x) => W.WatchEnabled(s.bus, s.watch, x)
    case OnManager(x) => S.ManagerEnabled(s.bus, s.manager, x)
  }

  ghost function Next(s: State, step: Step): State
    requires Enabled(s, step)
  {
    match step
    case OnBus(x) => State(BusNext(s.bus, x), W.Observe(s.bus, s.watch, x), s.manager)
    case OnWatch(x) => s.(watch := W.WatchNext(s.bus, s.watch, x))
    case OnManager(x) => s.(manager := S.ManagerNext(s.bus, s.manager, x))
  }

  /** The daemon has loaded its rules and nothing else has happened; the operating system may
      still hold the configuration of a crashed predecessor. */
  ghost predicate Init(s: State) {
    && WellFormed(s.bus.store) && s.bus.inflight == map[] && s.bus.log == []
    && s.watch == W.FRESH
    && s.manager.phase.Starting? && s.manager.cursor == 0
  }

  ghost predicate IsPath(states: seq<State>, steps: seq<Step>) {
    && |states| == |steps| + 1
    && forall i :: 0 <= i < |steps| ==> Enabled(states[i], steps[i]) && states[i + 1] == Next(states[i], steps[i])
  }

  ghost predicate IsRun(states: seq<State>, steps: seq<Step>) {
    IsPath(states, steps) && Init(states[0])
  }

  ghost predicate Inv(s: State) {
    && BusOk(s.bus)
    && W.CacheOk(s.bus, s.watch)
    && W.SavedOk(s.bus, s.watch)
    && S.ManagerOk(s.bus, s.manager)
  }

  lemma {:induction false} InvStep(s: State, step: Step)
    requires Inv(s) && Enabled(s, step)
    ensures Inv(Next(s, step))
  {
    match step
    case OnBus(x) =>
      BusStepOk(s.bus, x);
      W.CacheUnderBus(s.bus, s.watch, x);
      W.SavedUnderBus(s.bus, s.watch, x);
      S.ManagerUnderBus(s.bus, s.manager, x);
    case OnWatch(x) =>
      W.CacheUnderWatch(s.bus, s.watch, x);
      W.SavedUnderWatch(s.bus, s.watch, x);
    case OnManager(x) =>
      S.ManagerUnderManager(s.bus, s.manager, x);
  }

  lemma {:induction false} InvHolds(states: seq<State>, steps: seq<Step>, i: nat)
    requires IsRun(states, steps) && i < |states|
    ensures Inv(states[i])
  {
    if i > 0 {
      InvHolds(states, steps, i - 1);
      InvStep(states[i - 1], steps[i - 1]);
    }
  }

  // ------------------------------------------------------------- the main theorems

  /** Cache coherence, in every state of every run: an entry agrees with the store, or an event
      that concerns it is in flight or waiting for the watcher, or since its last invalidation it
      was hit by a lost event, a wildcard reordering, or a fill that raced an invalidation. */
  lemma {:induction false} CacheCoherence(states: seq<State>, steps: seq<Step>, i: nat, name: string)
    requires IsRun(states, steps) && i < |states| && name in states[i].watch.cache
    ensures var s := states[i];
            || Resolve(s.bus.store, name) == Some(s.watch.cache[name])
            || InFlight(s.bus, name)
            || W.Pending(s.bus, s.watch, name)
            || name in s.watch.skipped || name in s.watch.reordered || name in s.watch.raced
  {
    InvHolds(states, steps, i);
  }

  /** The store answered `name` with `rule` at some moment up to state `i`. */
  ghost predicate WasAnswered(states: seq<State>, i: nat, name: string, rule: Rule)
    requires i < |states|
  {
    exists j :: 0 <= j <= i && Resolve(states[j].bus.store, name) == Some(rule)
  }

  ghost predicate InLookup(w: W.Watch, name: string, rule: Rule) {
    exists id :: id in w.lookups && IsHeld(w.lookups[id], name, rule)
  }

  predicate IsHeld(l: W.Lookup, name: string, rule: Rule) {
    l.Holding? && l.name == name && l.rule == rule
  }

  /** The rule is cached for the name, or about to be. */
  ghost predicate Carries(w: W.Watch, name: string, rule: Rule) {
    (name in w.cache && w.cache[name] == rule) || InLookup(w, name, rule)
  }

  lemma {:induction false} HeldStep(b: Bus, w: W.Watch, x: W.WatchStep, name: string, rule: Rule)
    requires W.WatchEnabled(b, w, x) && InLookup(W.WatchNext(b, w, x), name, rule)
    ensures InLookup(w, name, rule) || Resolve(b.store, name) == Some(rule)
  {
    var v := W.WatchNext(b, w, x);
    var id :| id in v.lookups && IsHeld(v.lookups[id], name, rule);
    assert x.Miss? || id in w.lookups;
    if !(x.Read? && x.id == id) { assert IsHeld(w.lookups[id], name, rule); }
  }

  lemma {:induction false} CarriedStep(b: Bus, w: W.Watch, x: W.WatchStep, name: string, rule: Rule)
    requires W.WatchEnabled(b, w, x) && Carries(W.WatchNext(b, w, x), name, rule)
    ensures Carries(w, name, rule) || Resolve(b.store, name) == Some(rule)
  {
    if InLookup(W.WatchNext(b, w, x), name, rule) {
      HeldStep(b, w, x, name, rule);
    } else if x.Fill? && w.lookups[x.id].name == name {
      assert IsHeld(w.lookups[x.id], name, rule);
    }
  }

  lemma {:induction false} CarriedThrough(s: State, step: Step, name: string, rule: Rule)
    requires Enabled(s, step) && Carries(Next(s, step).watch, name, rule)
    ensures Carries(s.watch, name, rule) || Resolve(s.bus.store, name) == Some(rule)
  {
    if step.OnWatch? {
      CarriedStep(s.bus, s.watch, step.watch, name, rule);
    } else {
      var v := Next(s, step).watch;
      assert v.cache == s.watch.cache && v.lookups == s.watch.lookups;
    }
  }

  lemma {:induction false} NothingCarriedAtFirst(s: State, name: string, rule: Rule)
    requires Init(s)
    ensures !Carries(s.watch, name, rule)
  {}

  /** Stale or not, and whatever hit the name, the cache never invents an answer: every cached and
      every held rule is what the store answered for that name at one moment of the run. */
  lemma {:induction false} CacheShowsOneMoment(states: seq<State>, steps: seq<Step>, i: nat, name: string, rule: Rule)
    requires IsRun(states, steps) && i < |states| && Carries(states[i].watch, name, rule)
    ensures WasAnswered(states, i, name, rule)
  {
    NothingCarriedAtFirst(states[0], name, rule);
    var j: nat := i;
    while j > 0 && Carries(states[j - 1].watch, name, rule)
      invariant 0 <= j <= i && Carries(states[j].watch, name, rule)
    {
      j := j - 1;
    }
    CarriedThrough(states[j - 1], steps[j - 1], name, rule);
  }

  /** No step of the run takes the three causes' route: no event skipped by the watcher, no fill by
      a lookup that an invalidation overtook. */
  ghost predicate Undisturbed(states: seq<State>, steps: seq<Step>)
    requires |states| == |steps| + 1
  {
    forall i :: 0 <= i < |steps| && steps[i].OnWatch? ==> Calm(states[i], steps[i].watch)
  }

  predicate Calm(s: State, step: W.WatchStep) {
    && !step.Skip?
    && (step.Subscribe? ==> s.watch.cursor == |s.bus.log|)
    && (step.Fill? ==> step.id in s.watch.lookups && s.watch.lookups[step.id].Holding? && !s.watch.lookups[step.id].dirty)
  }

  ghost predicate NeverNested(states: seq<State>) {
    forall i :: 0 <= i < |states| ==> NoNestedWildcards(states[i].bus.store)
  }

  predicate Unsuspected(w: W.Watch) { w.skipped == {} && w.reordered == {} && w.raced == {} }

  lemma {:induction false} NothingReordered(b: Bus, w: W.Watch, step: BusStep)
    requires WellFormed(b.store) && NoNestedWildcards(b.store)
    ensures W.Observe(b, w, step).reordered == w.reordered
  {
    if step.Mutate? {
      forall n ensures !Reorders(b.store, step.op, n) { NoNestingMeansLocal(b.store, step.op, n); }
    }
  }

  lemma {:induction false} UnsuspectedWatch(s: State, x: W.WatchStep)
    requires W.WatchEnabled(s.bus, s.watch, x) && Unsuspected(s.watch) && Calm(s, x)
    ensures Unsuspected(W.WatchNext(s.bus, s.watch, x))
  {}

  lemma {:induction false} UnsuspectedStep(s: State, step: Step)
    requires Inv(s) && Enabled(s, step) && Unsuspected(s.watch) && NoNestedWildcards(s.bus.store)
    requires step.OnWatch? ==> Calm(s, step.watch)
    ensures Unsuspected(Next(s, step).watch)
  {
    match step
    case OnBus(x) => NothingReordered(s.bus, s.watch, x);
    case OnWatch(x) => UnsuspectedWatch(s, x);
    case OnManager(x) =>
  }

  lemma {:induction false} StaysUnsuspected(states: seq<State>, steps: seq<Step>, i: nat)
    requires IsRun(states, steps) && Undisturbed(states, steps) && NeverNested(states) && i < |states|
    ensures Unsuspected(states[i].watch)
  {
    if i > 0 {
      StaysUnsuspected(states, steps, i - 1);
      InvHolds(states, steps, i - 1);
      UnsuspectedStep(states[i - 1], steps[i - 1]);
    }
  }

  /** At rest, the caching resolver is the bare store on every name, provided the watcher lost no
      event, no fill raced an invalidation, and no layer ever held nested wildcards. */
  lemma {:induction false} CoherentAtRest(states: seq<State>, steps: seq<Step>, i: nat, name: string)
    requires IsRun(states, steps) && Undisturbed(states, steps) && NeverNested(states) && i < |states|
    requires W.Quiet(states[i].bus, states[i].watch)
    ensures W.CachedAnswer(states[i].bus, states[i].watch, name) == Resolve(states[i].bus.store, name)
  {
    InvHolds(states, steps, i);
    StaysUnsuspected(states, steps, i);
    W.QuietMeansCoherent(states[i].bus, states[i].watch, name);
  }

  /** Saved rules converge: once a save has been made, the file holds the persistent snapshot unless
      a persistent event is in flight, waiting, in hand, lost to lag, or its save failed. */
  lemma {:induction false} SavedRulesConverge(states: seq<State>, steps: seq<Step>, i: nat)
    requires IsRun(states, steps) && i < |states| && states[i].watch.saved.Some?
    ensures var s := states[i];
            || W.IsSnapshot(s.watch.saved.value, s.bus.store)
            || W.PersistentInFlight(s.bus)
            || W.PersistentWaiting(s.bus, s.watch.cursor)
            || W.PersistentInHand(s.watch)
            || s.watch.unsaved
  {
    InvHolds(states, steps, i);
  }

  /** A restart at rest loses nothing: what the next daemon loads is the persistent layer. */
  lemma {:induction false} RestartAtRest(states: seq<State>, steps: seq<Step>, i: nat)
    requires IsRun(states, steps) && i < |states| && states[i].watch.saved.Some?
    requires W.Quiet(states[i].bus, states[i].watch) && !states[i].watch.unsaved
    ensures Perform(EMPTY_STORE, AddAll(states[i].watch.saved.value)).store == Store(EMPTY_LAYER, states[i].bus.store.per)
  {
    InvHolds(states, steps, i);
    var s := states[i].bus.store;
    var order :| Visits(order, s.per.exact) && states[i].watch.saved.value == PersistentRules(s, order);
    RestartRestoresPersistent(s, order, "");
  }

  /** The operating system converges even when the manager lags: between applies, before any stop
      is dispatched, it routes exactly the store's domains unless a handler has yet to send or the
      channel still holds a rule event for the manager. */
  lemma {:induction false} SystemConverges(states: seq<State>, steps: seq<Step>, i: nat)
    requires IsRun(states, steps) && i < |states|
    requires states[i].manager.phase.Listening? && S.NoStopYet(states[i].bus.log)
    ensures var s := states[i];
            || s.manager.applied == StoreDomains(s.bus.store)
            || s.bus.inflight != map[]
            || S.RetainedFor(s.manager.cursor, s.bus.log)
  {
    InvHolds(states, steps, i);
  }

  /** `domains` is what the store held at some moment up to state `i`. */
  ghost predicate WasRouted(states: seq<State>, i: nat, domains: set<string>)
    requires i < |states|
  {
    exists j :: 0 <= j <= i && domains == StoreDomains(states[j].bus.store)
  }

  /** The domains a manager is about to show or shows, once it has taken a snapshot. */
  function Shown(m: S.Manager): Option<set<string>> {
    match m.phase
    case Applying(domains) => Some(domains)
    case Listening => Some(m.applied)
    case _ => None
  }

  lemma {:induction false} ShownStep(s: State, step: Step)
    requires Enabled(s, step)
    ensures var t := Next(s, step);
            Shown(t.manager).None? || Shown(t.manager) == Shown(s.manager)
            || Shown(t.manager) == Some(StoreDomains(t.bus.store))
  {}

  /** The operating system is never left with a mixture: what it routes between applies is exactly
      what the store held at one earlier moment, whatever a crashed predecessor had left behind. */
  lemma {:induction false} SystemShowsOneMoment(states: seq<State>, steps: seq<Step>, i: nat)
    requires IsRun(states, steps) && i < |states|
    ensures Shown(states[i].manager).Some? ==> WasRouted(states, i, Shown(states[i].manager).value)
  {
    if i > 0 {
      SystemShowsOneMoment(states, steps, i - 1);
      ShownStep(states[i - 1], steps[i - 1]);
    }
  }

  // -------------------------------------------------------------------- convergence

  /** A step of the tasks or of a lookup that neither ends a task nor lets it fail. */
  predicate OfTheTasks(step: Step) {
    match step
    case OnBus(_) => false
    case OnWatch(x) => !x.End?
    case OnManager(x) => S.Advances(x)
  }

  predicate Advances(step: Step) {
    (step.OnWatch? && W.Advances(step.watch)) || (step.OnManager? && S.Advances(step.manager))
  }

  /** The steps forward from state `i` to state `j`. */
  function Moves(steps: seq<Step>, i: nat, j: nat): nat
    requires i <= j <= |steps|
  {
    if i == j then 0 else Moves(steps, i, j - 1) + if Advances(steps[j - 1]) then 1 else 0
  }

  predicate Alive(s: State) { !s.watch.phase.Ended? && S.Alive(s.manager) }

  predicate AtRest(s: State) { W.AtRest(s.bus, s.watch) && S.AtRest(s.bus, s.manager) }

  predicate Bounded(s: State) { s.watch.cursor <= |s.bus.log| && s.manager.cursor <= |s.bus.log| }

  function Work(s: State): nat
    requires Bounded(s)
  {
    W.Work(s.bus, s.watch) + S.Work(s.bus, s.manager)
  }

  /** Cache, saved file and operating system agree with the store. */
  ghost predicate Agrees(s: State) {
    W.Settled(s.bus, s.watch) && s.manager.applied == StoreDomains(s.bus.store)
  }

  ghost predicate CanAdvance(s: State) {
    || W.CanAdvance(s.bus, s.watch)
    || exists x :: S.Advances(x) && S.ManagerEnabled(s.bus, s.manager, x)
  }

  lemma {:induction false} WorkStep(s: State, step: Step)
    requires Inv(s) && Enabled(s, step) && OfTheTasks(step) && Alive(s)
    ensures var t := Next(s, step);
            && Inv(t) && Alive(t) && t.bus == s.bus
            && Work(t) + (if Advances(step) then 1 else 0) <= Work(s)
  {
    InvStep(s, step);
    match step
    case OnWatch(x) => W.WorkStep(s.bus, s.watch, x);
    case OnManager(x) => S.WorkStep(s.bus, s.manager, x);
  }

  lemma {:induction false} RestIsAgreement(s: State)
    requires Inv(s) && Alive(s) && s.bus.inflight == map[] && S.NoStopYet(s.bus.log)
    ensures AtRest(s) ==> Agrees(s)
    ensures !AtRest(s) ==> CanAdvance(s)
  {
    if !W.AtRest(s.bus, s.watch) {
      W.RestOrAdvance(s.bus, s.watch);
    } else if !S.AtRest(s.bus, s.manager) {
      assert S.ManagerEnabled(s.bus, s.manager, S.NextInLine(s.bus, s.manager));
    } else {
      W.QuietIsSettled(s.bus, s.watch);
    }
  }

  lemma {:induction false} AliveAlong(states: seq<State>, steps: seq<Step>, i: nat, j: nat)
    requires IsRun(states, steps) && i <= j < |states| && (forall k :: i <= k < j ==> OfTheTasks(steps[k]))
    requires Alive(states[i])
    ensures Inv(states[j]) && Alive(states[j]) && states[j].bus == states[i].bus
  {
    if i == j {
      InvHolds(states, steps, i);
    } else {
      AliveAlong(states, steps, i, j - 1);
      assert OfTheTasks(steps[j - 1]);
      WorkStep(states[j - 1], steps[j - 1]);
    }
  }

  lemma {:induction false} WorkDrops(states: seq<State>, steps: seq<Step>, i: nat, j: nat)
    requires IsRun(states, steps) && i <= j < |steps| && (forall k :: i <= k <= j ==> OfTheTasks(steps[k]))
    requires Alive(states[i])
    ensures Bounded(states[j]) && Bounded(states[j + 1])
    ensures Work(states[j + 1]) + (if Advances(steps[j]) then 1 else 0) <= Work(states[j])
  {
    AliveAlong(states, steps, i, j);
    WorkStep(states[j], steps[j]);
  }

  lemma {:induction false} DropsAddUp(steps: seq<Step>, work: seq<nat>, i: nat, j: nat)
    requires i <= j <= |steps| < |work|
    requires forall k :: i <= k < j ==> work[k + 1] + (if Advances(steps[k]) then 1 else 0) <= work[k]
    ensures Moves(steps, i, j) + work[j] <= work[i]
  {
    if i < j {
      DropsAddUp(steps, work, i, j - 1);
      assert work[j - 1 + 1] + (if Advances(steps[j - 1]) then 1 else 0) <= work[j - 1];
    }
  }

  lemma {:induction false} WorkAlong(states: seq<State>, steps: seq<Step>, i: nat, j: nat)
    requires IsRun(states, steps) && i <= j < |states| && (forall k :: i <= k < j ==> OfTheTasks(steps[k]))
    requires Alive(states[i]) && Bounded(states[i]) && Bounded(states[j])
    ensures Moves(steps, i, j) + Work(states[j]) <= Work(states[i])
  {
    var work := seq(|states|, k requires 0 <= k < |states| => if Bounded(states[k]) then Work(states[k]) else 0);
    forall k | i <= k < j ensures work[k + 1] + (if Advances(steps[k]) then 1 else 0) <= work[k] {
      WorkDrops(states, steps, i, k);
    }
    DropsAddUp(steps, work, i, j);
  }

  /** Convergence under every schedule: once the handlers are done, let the two tasks and any lookups
      interleave as they like. The steps forward in any such stretch of any run are bounded by the
      work at its start; when the tasks have come to rest, cache, file and operating system agree
      with the store, which has not moved; and until then some task can go on. */
  lemma {:induction false} EveryScheduleConverges(states: seq<State>, steps: seq<Step>, i: nat, j: nat)
    requires IsRun(states, steps) && i <= j < |states| && (forall k :: i <= k < j ==> OfTheTasks(steps[k]))
    requires Alive(states[i]) && states[i].bus.inflight == map[] && S.NoStopYet(states[i].bus.log)
    ensures Inv(states[i]) && Inv(states[j]) && states[j].bus == states[i].bus
    ensures Moves(steps, i, j) + Work(states[j]) <= Work(states[i])
    ensures AtRest(states[j]) ==> Agrees(states[j])
    ensures !AtRest(states[j]) ==> CanAdvance(states[j])
  {
    InvHolds(states, steps, i);
    AliveAlong(states, steps, i, j);
    WorkAlong(states, steps, i, j);
    RestIsAgreement(states[j]);
  }

  lemma {:induction false} LiftWatch(s: State, watches: seq<W.Watch>, steps: seq<W.WatchStep>) returns (states: seq<State>, lifted: seq<Step>)
    requires W.IsTrace(s.bus, watches, steps) && watches[0] == s.watch
    ensures IsPath(states, lifted) && |lifted| == |steps| && states[0] == s
    ensures states[|lifted|] == s.(watch := watches[|steps|])
  {
    states := seq(|watches|, j requires 0 <= j < |watches| => s.(watch := watches[j]));
    lifted := seq(|steps|, j requires 0 <= j < |steps| => OnWatch(steps[j]));
  }

  lemma {:induction false} LiftManager(s: State, managers: seq<S.Manager>, steps: seq<S.ManagerStep>) returns (states: seq<State>, lifted: seq<Step>)
    requires S.IsTrace(s.bus, managers, steps) && managers[0] == s.manager
    ensures IsPath(states, lifted) && |lifted| == |steps| && states[0] == s
    ensures states[|lifted|] == s.(manager := managers[|steps|])
  {
    states := seq(|managers|, j requires 0 <= j < |managers| => s.(manager := managers[j]));
    lifted := seq(|steps|, j requires 0 <= j < |steps| => OnManager(steps[j]));
  }

  lemma {:induction false} JoinPaths(a: seq<State>, x: seq<Step>, b: seq<State>, y: seq<Step>)
    requires IsPath(a, x) && IsPath(b, y) && a[|x|] == b[0]
    ensures IsPath(a + b[1..], x + y)
    ensures (a + b[1..])[0] == a[0] && (a + b[1..])[|x + y|] == b[|y|]
  {
    var c, z := a + b[1..], x + y;
    forall i | 0 <= i < |z| ensures Enabled(c[i], z[i]) && c[i + 1] == Next(c[i], z[i]) {
      if i >= |x| { assert c[i] == b[i - |x|] && c[i + 1] == b[i - |x| + 1]; }
    }
  }

  /** And some schedule does come to rest: from any such state, a few steps per waiting event. */
  lemma {:induction false} DaemonCatchesUp(states: seq<State>, steps: seq<Step>, i: nat) returns (more: seq<State>, taken: seq<Step>)
    requires IsRun(states, steps) && i < |states|
    requires Alive(states[i]) && states[i].bus.inflight == map[] && S.NoStopYet(states[i].bus.log)
    ensures IsPath(more, taken) && more[0] == states[i]
    ensures |taken| <= 5 * (|states[i].bus.log| - states[i].watch.cursor) + 5
                       + 3 * (|states[i].bus.log| - states[i].manager.cursor) + 4
    ensures more[|taken|].bus == states[i].bus && AtRest(more[|taken|]) && Agrees(more[|taken|])
  {
    InvHolds(states, steps, i);
    var s := states[i];
    var watches, ws := W.WatcherCatchesUp(s.bus, s.watch);
    var a, x := LiftWatch(s, watches, ws);
    var t := a[|x|];
    var managers, ms := S.ManagerCatchesUp(t.bus, t.manager);
    var b, y := LiftManager(t, managers, ms);
    JoinPaths(a, x, b, y);
    more, taken := a + b[1..], x + y;
  }

  // ------------------------------------------------------------------------ shutdown

  lemma {:induction false} ManagerFrozen(states: seq<State>, steps: seq<Step>, i: nat, j: nat)
    requires IsRun(states, steps) && i <= j < |states| && S.Over(states[i].manager)
    ensures states[j].manager == states[i].manager
  {
    if i < j {
      ManagerFrozen(states, steps, i, j - 1);
      if steps[j - 1].OnManager? { S.OverIsFinal(states[j - 1].bus, states[j - 1].manager, steps[j - 1].manager); }
    }
  }

  predicate Ends(step: Step) {
    step.OnManager? && (step.manager.Revert? || step.manager.FailApply?)
  }

  lemma {:induction false} EndedBy(states: seq<State>, steps: seq<Step>, j: nat) returns (i: nat)
    requires IsRun(states, steps) && j < |states| && S.Over(states[j].manager)
    ensures i < j && Ends(steps[i]) && states[i + 1].manager == states[j].manager
  {
    if S.Over(states[j - 1].manager) {
      ManagerFrozen(states, steps, j - 1, j);
      i := EndedBy(states, steps, j - 1);
    } else {
      i := j - 1;
    }
  }

  /** The ending step leaves nothing routed: a revert, or an apply before its first write, that had
      deleted all there was; a failure to reload, or to delete anything, when nothing was in effect; or
      a failed write of which, and of those before it, nothing usable is left. */
  predicate LeavesNothing(m: S.Manager, step: S.ManagerStep) {
    match step
    case Revert(ok, deleted) => ok || m.applied <= deleted
    case FailApply(Undeleted(deleted)) => m.applied <= deleted
    case FailApply(Unwritten(order, at, tear)) => at < |order| && S.NothingWritten(order, at, tear)
    case FailApply(Unreloaded) => m.applied == {}
    case _ => false
  }

  lemma {:induction false} AllDeletedIff(applied: set<string>, deleted: set<string>)
    ensures applied - deleted == {} <==> applied <= deleted
  {
    forall d | d in applied && d !in deleted ensures d in applied - deleted {}
  }

  lemma {:induction false} NothingLeftIff(b: Bus, m: S.Manager, step: S.ManagerStep)
    requires S.ManagerEnabled(b, m, step) && (step.Revert? || step.FailApply?)
    ensures S.ManagerNext(b, m, step).applied == {} <==> LeavesNothing(m, step)
  {
    if step.Revert? {
      AllDeletedIff(m.applied, step.deleted);
    } else if step.fault.Undeleted? {
      AllDeletedIff(m.applied, step.fault.deleted);
    } else if step.fault.Unwritten? {
      S.NothingWrittenIff(m.applied, step.fault.order, step.fault.at, step.fault.tear);
    }
  }

  /** How the manager ends decides what is left behind, for good. Whenever it is over, one step of the
      run ended it, nothing has moved since, and nothing is routed if and only if that step was a
      revert that could delete everything or a failure early enough. */
  lemma {:induction false} WhatShutdownLeaves(states: seq<State>, steps: seq<Step>, j: nat) returns (i: nat)
    requires IsRun(states, steps) && j < |states| && S.Over(states[j].manager)
    ensures i < j && Ends(steps[i]) && states[i + 1].manager == states[j].manager
    ensures states[j].manager.applied == {} <==> LeavesNothing(states[i].manager, steps[i].manager)
  {
    i := EndedBy(states, steps, j);
    NothingLeftIff(states[i].bus, states[i].manager, steps[i].manager);
  }

  lemma {:induction false} NothingBeforeFirstApply(states: seq<State>, steps: seq<Step>, c: nat, i: nat)
    requires IsRun(states, steps) && c < i < |states| && steps[c].OnManager? && steps[c].manager.Clean? && steps[c].manager.ok
    requires forall k :: c < k < i ==> steps[k] != OnManager(S.Apply)
    requires !S.Over(states[i].manager)
    ensures states[i].manager.applied == {}
  {
    if c + 1 < i {
      NothingBeforeFirstApply(states, steps, c, i - 1);
    }
  }

  /** After a successful clean-up, the first apply fails: whatever a crashed predecessor had left,
      nothing is routed from then on, if and only if no write left a usable file. */
  lemma {:induction false} EarlyFailureLeavesNothingIff(states: seq<State>, steps: seq<Step>, c: nat, i: nat, j: nat)
    requires IsRun(states, steps) && c < i < j < |states| && steps[c].OnManager? && steps[c].manager.Clean? && steps[c].manager.ok
    requires forall k :: c < k < i ==> steps[k] != OnManager(S.Apply)
    requires steps[i].OnManager? && steps[i].manager.FailApply?
    ensures var fault := steps[i].manager.fault;
            (fault.Unwritten? ==> fault.at < |fault.order|) &&
            (states[j].manager.applied == {} <==>
             (fault.Unwritten? ==> S.NothingWritten(fault.order, fault.at, fault.tear)))
  {
    NothingBeforeFirstApply(states, steps, c, i);
    NothingLeftIff(states[i].bus, states[i].manager, steps[i].manager);
    ManagerFrozen(states, steps, i + 1, j);
  }

  /** `domains` is part of what the store held at one moment up to state `i`. */
  ghost predicate WasPartly(states: seq<State>, i: nat, domains: set<string>)
    requires i < |states|
  {
    exists j :: 0 <= j <= i && domains <= StoreDomains(states[j].bus.store)
  }

  lemma {:induction false} AppliedStep(s: State, step: Step)
    requires Enabled(s, step)
    ensures var t := Next(s, step);
            || t.manager.applied <= s.manager.applied
            || (s.manager.phase.Applying? && t.manager.applied <= s.manager.phase.domains)
  {}

  lemma {:induction false} StillPartly(states: seq<State>, i: nat, before: set<string>, now: set<string>)
    requires i + 1 < |states| && WasPartly(states, i, before) && now <= before
    ensures WasPartly(states, i + 1, now)
  {
    var j :| 0 <= j <= i && before <= StoreDomains(states[j].bus.store);
    assert now <= StoreDomains(states[j].bus.store);
  }

  lemma {:induction false} RoutedIsPart(states: seq<State>, i: nat, domains: set<string>)
    requires i < |states| && WasRouted(states, i, domains)
    ensures WasPartly(states, i, domains)
  {
    var j :| 0 <= j <= i && domains == StoreDomains(states[j].bus.store);
    assert domains <= StoreDomains(states[j].bus.store);
  }

  /** At every moment, also after a failure half-way through deleting or writing, what is routed is
      part of what the store held at one moment of the run, or of what a predecessor had left. */
  lemma {:induction false} RoutesPartOfOneMoment(states: seq<State>, steps: seq<Step>, i: nat)
    requires IsRun(states, steps) && i < |states|
    ensures states[i].manager.applied <= states[0].manager.applied || WasPartly(states, i, states[i].manager.applied)
  {
    if i > 0 {
      RoutesPartOfOneMoment(states, steps, i - 1);
      AppliedStep(states[i - 1], steps[i - 1]);
      SystemShowsOneMoment(states, steps, i - 1);
      var m, now := states[i - 1].manager, states[i].manager.applied;
      if now <= m.applied {
        if WasPartly(states, i - 1, m.applied) { StillPartly(states, i - 1, m.applied, now); }
      } else {
        RoutedIsPart(states, i - 1, m.phase.domains);
        StillPartly(states, i - 1, m.phase.domains, now);
      }
    }
  }
}
