/** The lookup cache and the rules-watch task that invalidates it and saves the rules
    (core/src/dns/resolver.rs, core/src/runner.rs), step by step beside the shared bus.

    A lookup reads the store and fills the cache in two separate steps. An invalidation sweeps the
    concurrent map part by part, in any parts and any order, and other steps come in between.

    The fields `skipped`, `reordered` and `raced` record, for the theorems, which of the three known
    causes may have left a name stale since it was last invalidated; `unsaved` records that a
    persistent event was lost, or its save failed, since the last save. */
module RulesWatch {
  import opened Names
  import opened Rules
  import opened Stores
  import opened Requests
  import opened EventBus

  datatype Lookup =
    | Missed(name: string)
    | Holding(name: string, rule: Rule, dirty: bool)

  datatype Phase =
    | Unsubscribed
    | Listening
    | Invalidating(event: Event, swept: iset<string>)
    | Snapshotting
    | Writing(rules: seq<Rule>)
    | Ended

  datatype Watch = Watch(
    phase: Phase,
    cursor: nat,
    cache: map<string, Rule>,
    lookups: map<nat, Lookup>,
    skipped: set<string>,
    reordered: set<string>,
    raced: set<string>,
    saved: Option<seq<Rule>>,
    unsaved: bool)

  const FRESH := Watch(Unsubscribed, 0, map[], map[], {}, {}, {}, None, false)

  datatype WatchStep =
    | Miss(id: nat, name: string)
    | Read(id: nat)
    | Fill(id: nat)
    | Subscribe
    | Receive
    | Skip
    | Sweep(part: iset<string>)
    | Swept
    | Snapshot(order: seq<string>)
    | Write(ok: bool)
    | End

  /** Names whose value is cached or about to be. */
  function Tracked(w: Watch): set<string> {
    w.cache.Keys + set id | id in w.lookups && w.lookups[id].Holding? :: w.lookups[id].name
  }

  /** Tracked names that some event of a log segment concerns. */
  function ConcernedBy(w: Watch, events: seq<Event>): set<string> {
    set name | name in Tracked(w) && AnyConcerns(events, name)
  }

  ghost predicate WatchEnabled(b: Bus, w: Watch, step: WatchStep) {
    match step
    case Miss(id, name) => id !in w.lookups && name !in w.cache
    case Read(id) => id in w.lookups && w.lookups[id].Missed?
    case Fill(id) => id in w.lookups && w.lookups[id].Holding?
    case Subscribe => w.phase.Unsubscribed? && w.cursor <= |b.log|
    case Receive => w.phase.Listening? && Ready(w.cursor, b.log)
    case Skip => w.phase.Listening? && Lags(w.cursor, b.log)
    case Sweep(_) => w.phase.Invalidating? && IsRuleEvent(w.phase.event)
    case Swept => w.phase.Invalidating? && AllSwept(w.phase)
    case Snapshot(order) => w.phase.Snapshotting? && Visits(order, b.store.per.exact)
    case Write(_) => w.phase.Writing?
    case End => w.phase.Listening?
  }

  /** The cursor jumps to `target`; the events it passes over are never seen. */
  function JumpTo(b: Bus, w: Watch, target: nat): Watch
    requires w.cursor <= target <= |b.log|
  {
    var lost := b.log[w.cursor..target];
    w.(phase := Listening, cursor := target,
       skipped := w.skipped + ConcernedBy(w, lost),
       unsaved := w.unsaved || AnyPersistent(lost))
  }

  /** Every name the event concerns has been looked at. */
  ghost predicate AllSwept(p: Phase)
    requires p.Invalidating?
  {
    forall name :: Concerns(p.event, name) ==> name in p.swept
  }

  /** Invalidation by `rule` reaches `name` when it sweeps the part of the cache named `part`. */
  ghost predicate Reaches(rule: Rule, part: iset<string>, name: string) {
    rule.Matches(name) && name in part
  }

  ghost function Dirtied(l: Lookup, rule: Rule, part: iset<string>): Lookup {
    if l.Holding? && Reaches(rule, part, l.name) then l.(dirty := true) else l
  }

  ghost function Spared(names: set<string>, rule: Rule, part: iset<string>): set<string> {
    set n | n in names && !Reaches(rule, part, n)
  }

  /** The entries that survive invalidation by `rule`. */
  function Surviving<V>(cache: map<string, V>, rule: Rule): map<string, V> {
    map k | k in cache && !rule.Matches(k) :: cache[k]
  }

  ghost function WatchNext(b: Bus, w: Watch, step: WatchStep): Watch
    requires WatchEnabled(b, w, step)
  {
    match step
    case Miss(id, name) => w.(lookups := w.lookups[id := Missed(name)])
    case Read(id) =>
      var name := w.lookups[id].name;
      var rule := Resolve(b.store, name);
      if rule.None? then w.(lookups := w.lookups - {id})
      else w.(lookups := w.lookups[id := Holding(name, rule.value, false)])
    case Fill(id) =>
      var l := w.lookups[id];
      w.(cache := w.cache[l.name := l.rule], lookups := w.lookups - {id},
         raced := if l.dirty then w.raced + {l.name} else w.raced)
    case Subscribe => JumpTo(b, w, |b.log|)
    case Receive =>
      var e := b.log[w.cursor];
      w.(cursor := w.cursor + 1, phase := if IsRuleEvent(e) then Invalidating(e, iset{}) else Listening)
    case Skip => JumpTo(b, w, Oldest(b.log))
    case Sweep(part) =>
      var rule := w.phase.event.rule;
      w.(phase := Invalidating(w.phase.event, w.phase.swept + part),
         cache := map k | k in w.cache && !Reaches(rule, part, k) :: w.cache[k],
         lookups := map id | id in w.lookups :: Dirtied(w.lookups[id], rule, part),
         skipped := Spared(w.skipped, rule, part),
         reordered := Spared(w.reordered, rule, part),
         raced := Spared(w.raced, rule, part))
    case Swept => w.(phase := if IsPersistent(w.phase.event) then Snapshotting else Listening)
    case Snapshot(order) => w.(phase := Writing(PersistentRules(b.store, order)))
    case Write(ok) =>
      if ok then w.(phase := Listening, saved := Some(w.phase.rules), unsaved := false)
      else w.(phase := Listening, unsaved := true)
    case End => w.(phase := Ended)
  }

  /** What a step of the bus leaves behind in the records: the names a removal reordered. */
  function Observe(b: Bus, w: Watch, step: BusStep): Watch {
    if step.Mutate? then
      w.(reordered := w.reordered + set n | n in Tracked(w) && Reorders(b.store, step.op, n))
    else w
  }

  // ----------------------------------------------------------------- cache coherence

  ghost predicate Pending(b: Bus, w: Watch, name: string) {
    || Waiting(b.log, w.cursor, name)
    || (w.phase.Invalidating? && Concerns(w.phase.event, name) && name !in w.phase.swept)
  }

  predicate Suspect(w: Watch, name: string) {
    name in w.skipped || name in w.reordered || name in w.raced
  }

  /** The value agrees with the store, or an event that concerns the name is still on its way to
      the watcher, or one of the recorded causes has hit the name since its last invalidation. */
  ghost predicate Accounted(b: Bus, w: Watch, name: string, rule: Rule) {
    || Resolve(b.store, name) == Some(rule)
    || InFlight(b, name)
    || Pending(b, w, name)
    || Suspect(w, name)
  }

  ghost predicate CacheOk(b: Bus, w: Watch) {
    && w.cursor <= |b.log|
    && (w.phase.Invalidating? ==> IsRuleEvent(w.phase.event))
    && (forall name :: name in w.cache ==> Accounted(b, w, name, w.cache[name]))
    && (forall id :: id in w.lookups && w.lookups[id].Holding? ==>
          w.lookups[id].dirty || Accounted(b, w, w.lookups[id].name, w.lookups[id].rule))
  }

  lemma {:induction false} AccountedUnderBus(b: Bus, w: Watch, step: BusStep, name: string, rule: Rule)
    requires BusOk(b) && BusEnabled(b, step) && w.cursor <= |b.log|
    requires Accounted(b, w, name, rule) && name in Tracked(w)
    ensures Accounted(BusNext(b, step), Observe(b, w, step), name, rule)
  {
    if InFlight(b, name) || Waiting(b.log, w.cursor, name) {
      InFlightStays(b, step, w.cursor, name);
    } else if step.Mutate? && !Reorders(b.store, step.op, name) {
      MutationIsAnnounced(b, step.handler, step.op, name);
    }
  }

  lemma {:induction false} CacheUnderBus(b: Bus, w: Watch, step: BusStep)
    requires BusOk(b) && BusEnabled(b, step) && CacheOk(b, w)
    ensures CacheOk(BusNext(b, step), Observe(b, w, step))
  {
    var c, v := BusNext(b, step), Observe(b, w, step);
    forall name | name in v.cache ensures Accounted(c, v, name, v.cache[name]) {
      AccountedUnderBus(b, w, step, name, w.cache[name]);
    }
    forall id | id in v.lookups && v.lookups[id].Holding?
      ensures v.lookups[id].dirty || Accounted(c, v, v.lookups[id].name, v.lookups[id].rule)
    {
      if !w.lookups[id].dirty {
        AccountedUnderBus(b, w, step, w.lookups[id].name, w.lookups[id].rule);
      }
    }
  }

  lemma {:induction false} AccountedAfterJump(b: Bus, w: Watch, target: nat, name: string, rule: Rule)
    requires w.cursor <= target <= |b.log| && !w.phase.Invalidating?
    requires Accounted(b, w, name, rule) && name in Tracked(w)
    ensures Accounted(b, JumpTo(b, w, target), name, rule)
  {
    if i :| w.cursor <= i < |b.log| && Concerns(b.log[i], name) {
      if i < target {
        var lost := b.log[w.cursor..target];
        assert lost[i - w.cursor] == b.log[i];
        assert name in ConcernedBy(w, lost);
      }
    }
  }

  lemma {:induction false} AccountedAfterSweep(b: Bus, w: Watch, part: iset<string>, name: string, rule: Rule)
    requires WatchEnabled(b, w, Sweep(part))
    requires Accounted(b, w, name, rule) && !Reaches(w.phase.event.rule, part, name)
    ensures Accounted(b, WatchNext(b, w, Sweep(part)), name, rule)
  {}

  lemma {:induction false} AccountedAfterReceive(b: Bus, w: Watch, name: string, rule: Rule)
    requires WatchEnabled(b, w, Receive) && Accounted(b, w, name, rule)
    ensures Accounted(b, WatchNext(b, w, Receive), name, rule)
  {
    if i :| w.cursor <= i < |b.log| && Concerns(b.log[i], name) {
      assert i == w.cursor || w.cursor + 1 <= i;
    }
  }

  lemma {:induction false} AccountedInOtherSteps(b: Bus, w: Watch, step: WatchStep, name: string, rule: Rule)
    requires WatchEnabled(b, w, step) && !step.Sweep? && w.cursor <= |b.log|
    requires Accounted(b, w, name, rule) && name in Tracked(w)
    ensures Accounted(b, WatchNext(b, w, step), name, rule)
  {
    match step
    case Subscribe => AccountedAfterJump(b, w, |b.log|, name, rule);
    case Skip => AccountedAfterJump(b, w, Oldest(b.log), name, rule);
    case Receive => AccountedAfterReceive(b, w, name, rule);
    case _ =>
  }

  lemma {:induction false} CacheUnderSweep(b: Bus, w: Watch, part: iset<string>)
    requires WatchEnabled(b, w, Sweep(part)) && CacheOk(b, w)
    ensures CacheOk(b, WatchNext(b, w, Sweep(part)))
  {
    var v := WatchNext(b, w, Sweep(part));
    forall name | name in v.cache ensures Accounted(b, v, name, v.cache[name]) {
      AccountedAfterSweep(b, w, part, name, w.cache[name]);
    }
    forall id | id in v.lookups && v.lookups[id].Holding?
      ensures v.lookups[id].dirty || Accounted(b, v, v.lookups[id].name, v.lookups[id].rule)
    {
      if !v.lookups[id].dirty {
        AccountedAfterSweep(b, w, part, w.lookups[id].name, w.lookups[id].rule);
      }
    }
  }

  lemma {:induction false} CacheUnderWatch(b: Bus, w: Watch, step: WatchStep)
    requires WatchEnabled(b, w, step) && CacheOk(b, w)
    ensures CacheOk(b, WatchNext(b, w, step))
  {
    if step.Sweep? {
      CacheUnderSweep(b, w, step.part);
    } else {
      var v := WatchNext(b, w, step);
      forall name | name in v.cache ensures Accounted(b, v, name, v.cache[name]) {
        if step.Fill? && name == w.lookups[step.id].name {
          if !w.lookups[step.id].dirty {
            AccountedInOtherSteps(b, w, step, name, w.lookups[step.id].rule);
          }
        } else {
          AccountedInOtherSteps(b, w, step, name, w.cache[name]);
        }
      }
      forall id | id in v.lookups && v.lookups[id].Holding?
        ensures v.lookups[id].dirty || Accounted(b, v, v.lookups[id].name, v.lookups[id].rule)
      {
        if id in w.lookups && w.lookups[id].Holding? && !w.lookups[id].dirty {
          AccountedInOtherSteps(b, w, step, w.lookups[id].name, w.lookups[id].rule);
        }
      }
    }
  }

  /** What the caching resolver answers. */
  function CachedAnswer(b: Bus, w: Watch, name: string): Option<Rule> {
    if name in w.cache then Some(w.cache[name]) else Resolve(b.store, name)
  }

  /** Every announced change has reached the cache. */
  predicate Quiet(b: Bus, w: Watch) {
    b.inflight == map[] && w.cursor == |b.log| && w.phase.Listening?
  }

  lemma {:induction false} QuietMeansCoherent(b: Bus, w: Watch, name: string)
    requires CacheOk(b, w) && Quiet(b, w) && !Suspect(w, name)
    ensures CachedAnswer(b, w, name) == Resolve(b.store, name)
  {}

  // ------------------------------------------------------------------- saved rules

  ghost predicate IsSnapshot(rules: seq<Rule>, s: Store) {
    exists order :: Visits(order, s.per.exact) && rules == PersistentRules(s, order)
  }

  predicate PersistentInFlight(b: Bus) {
    exists h :: h in b.inflight && IsPersistent(b.inflight[h])
  }

  predicate PersistentWaiting(b: Bus, cursor: nat) {
    exists i :: cursor <= i < |b.log| && IsPersistent(b.log[i])
  }

  predicate PersistentInHand(w: Watch) {
    w.phase.Snapshotting? || w.phase.Writing? || (w.phase.Invalidating? && IsPersistent(w.phase.event))
  }

  /** The saved list is the persistent snapshot unless a persistent event is on its way, being
      processed, lost since the last save, or its save failed. */
  ghost predicate SavedOk(b: Bus, w: Watch) {
    && (w.saved.Some? ==>
          || IsSnapshot(w.saved.value, b.store)
          || PersistentInFlight(b) || PersistentWaiting(b, w.cursor) || PersistentInHand(w) || w.unsaved)
    && (w.phase.Writing? ==>
          IsSnapshot(w.phase.rules, b.store) || PersistentInFlight(b) || PersistentWaiting(b, w.cursor))
  }

  /** A bus step either leaves the persistent layer alone or announces that it changed it. */
  lemma {:induction false} PersistentIsAnnounced(b: Bus, step: BusStep, cursor: nat)
    requires BusOk(b) && BusEnabled(b, step) && cursor <= |b.log|
    ensures var c := BusNext(b, step);
            || (c.store.per == b.store.per && !PersistentInFlight(b) && !PersistentWaiting(b, cursor))
            || PersistentInFlight(c) || PersistentWaiting(c, cursor)
  {
    var c := BusNext(b, step);
    if i :| cursor <= i < |b.log| && IsPersistent(b.log[i]) {
      assert c.log[i] == b.log[i];
    } else if h :| h in b.inflight && IsPersistent(b.inflight[h]) {
      if step == Send(h) { assert c.log[|b.log|] == b.inflight[h]; }
      else { assert h in c.inflight && c.inflight[h] == b.inflight[h]; }
    } else if step.Mutate? {
      EventReplaysOp(b.store, step.op);
      if c.store.per != b.store.per {
        assert step.handler in c.inflight && IsPersistent(c.inflight[step.handler]);
      }
    }
  }

  lemma {:induction false} SnapshotOfSameLayer(rules: seq<Rule>, s: Store, t: Store)
    requires IsSnapshot(rules, s) && s.per == t.per
    ensures IsSnapshot(rules, t)
  {
    var order :| Visits(order, s.per.exact) && rules == PersistentRules(s, order);
    assert rules == PersistentRules(t, order);
  }

  lemma {:induction false} SavedUnderBus(b: Bus, w: Watch, step: BusStep)
    requires BusOk(b) && BusEnabled(b, step) && SavedOk(b, w) && w.cursor <= |b.log|
    ensures SavedOk(BusNext(b, step), Observe(b, w, step))
  {
    var c := BusNext(b, step);
    PersistentIsAnnounced(b, step, w.cursor);
    if c.store.per == b.store.per {
      if w.saved.Some? && IsSnapshot(w.saved.value, b.store) { SnapshotOfSameLayer(w.saved.value, b.store, c.store); }
      if w.phase.Writing? && IsSnapshot(w.phase.rules, b.store) { SnapshotOfSameLayer(w.phase.rules, b.store, c.store); }
    }
  }

  lemma {:induction false} SavedUnderJump(b: Bus, w: Watch, target: nat)
    requires w.cursor <= target <= |b.log| && SavedOk(b, w) && (w.phase.Listening? || w.phase.Unsubscribed?)
    ensures SavedOk(b, JumpTo(b, w, target))
  {
    if i :| w.cursor <= i < |b.log| && IsPersistent(b.log[i]) {
      if i < target {
        var lost := b.log[w.cursor..target];
        assert lost[i - w.cursor] == b.log[i];
      }
    }
  }

  lemma {:induction false} SavedUnderWatch(b: Bus, w: Watch, step: WatchStep)
    requires WatchEnabled(b, w, step) && SavedOk(b, w) && w.cursor <= |b.log|
    ensures SavedOk(b, WatchNext(b, w, step))
  {
    match step
    case Subscribe => SavedUnderJump(b, w, |b.log|);
    case Skip => SavedUnderJump(b, w, Oldest(b.log));
    case Receive =>
      if i :| w.cursor <= i < |b.log| && IsPersistent(b.log[i]) {
        assert i == w.cursor || w.cursor + 1 <= i;
      }
    case _ =>
  }

  // -------------------------------------------------------------------- catching up

  ghost predicate IsTrace(b: Bus, watches: seq<Watch>, steps: seq<WatchStep>) {
    && |watches| == |steps| + 1
    && forall i :: 0 <= i < |steps| ==>
         WatchEnabled(b, watches[i], steps[i]) && watches[i + 1] == WatchNext(b, watches[i], steps[i])
  }

  ghost const EVERYWHERE := iset name: string | true

  ghost function Rank(p: Phase): nat {
    match p
    case Unsubscribed => 5
    case Invalidating(_, _) => if AllSwept(p) then 3 else 4
    case Snapshotting => 2
    case Writing(_) => 1
    case _ => 0
  }

  lemma {:induction false} NextInLine(b: Bus, w: Watch) returns (step: WatchStep)
    requires CacheOk(b, w) && !w.phase.Ended? && (w.phase.Listening? ==> w.cursor < |b.log|)
    ensures WatchEnabled(b, w, step) && (Advances(step) || step == Sweep(EVERYWHERE))
    ensures var v := WatchNext(b, w, step);
            && !v.phase.Ended? && w.cursor <= v.cursor <= |b.log|
            && (v.cursor == w.cursor ==> Rank(v.phase) < Rank(w.phase))
            && (v.cursor > w.cursor ==> Rank(v.phase) <= 4)
  {
    match w.phase
    case Unsubscribed => step := Subscribe;
    case Listening => step := if Lags(w.cursor, b.log) then Skip else Receive;
    case Invalidating(_, _) =>
      step := if AllSwept(w.phase) then Swept else Sweep(EVERYWHERE);
      assert !AllSwept(w.phase) ==> AllSwept(WatchNext(b, w, Sweep(EVERYWHERE)).phase);
    case Snapshotting =>
      var order := SomeOrder(b.store.per.exact);
      step := Snapshot(order);
    case Writing(_) => step := Write(true);
  }

  /** The cache agrees with the store on every name none of the causes has hit, and the saved file
      is the persistent snapshot unless a persistent event was lost. */
  ghost predicate Settled(b: Bus, w: Watch) {
    && (forall name :: !Suspect(w, name) ==> CachedAnswer(b, w, name) == Resolve(b.store, name))
    && (w.saved.Some? && !w.unsaved ==> IsSnapshot(w.saved.value, b.store))
  }

  lemma {:induction false} QuietIsSettled(b: Bus, w: Watch)
    requires CacheOk(b, w) && SavedOk(b, w) && Quiet(b, w)
    ensures Settled(b, w)
  {
    forall name | !Suspect(w, name) ensures CachedAnswer(b, w, name) == Resolve(b.store, name) {
      QuietMeansCoherent(b, w, name);
    }
  }

  /** The steps that bring the watcher forward. Lookups leave it where it is, and an invalidation
      may sweep the cache in any number of parts. */
  predicate Advances(step: WatchStep) {
    step.Subscribe? || step.Receive? || step.Skip? || step.Swept? || step.Snapshot? || step.Write?
  }

  function Moves(steps: seq<WatchStep>): nat {
    if steps == [] then 0
    else Moves(steps[..|steps| - 1]) + if Advances(steps[|steps| - 1]) then 1 else 0
  }

  function Effort(p: Phase): nat {
    match p
    case Invalidating(_, _) => 3
    case Snapshotting => 2
    case Writing(_) => 1
    case Unsubscribed => 1
    case _ => 0
  }

  /** A bound on the steps that still bring the watcher forward. */
  function Work(b: Bus, w: Watch): nat
    requires w.cursor <= |b.log|
  {
    4 * (|b.log| - w.cursor) + Effort(w.phase)
  }

  lemma {:induction false} WorkStep(b: Bus, w: Watch, step: WatchStep)
    requires WatchEnabled(b, w, step) && step != End && !w.phase.Ended? && w.cursor <= |b.log|
    ensures var v := WatchNext(b, w, step);
            && !v.phase.Ended? && v.cursor <= |b.log|
            && Work(b, v) + (if Advances(step) then 1 else 0) <= Work(b, w)
  {}

  predicate AtRest(b: Bus, w: Watch) { w.phase.Listening? && w.cursor == |b.log| }

  /** A step forward is possible, at once or after what is left of the sweep. */
  ghost predicate CanAdvance(b: Bus, w: Watch) {
    || (exists step :: Advances(step) && WatchEnabled(b, w, step))
    || (WatchEnabled(b, w, Sweep(EVERYWHERE)) && WatchEnabled(b, WatchNext(b, w, Sweep(EVERYWHERE)), Swept))
  }

  lemma {:induction false} RestOrAdvance(b: Bus, w: Watch)
    requires CacheOk(b, w) && !w.phase.Ended? && !AtRest(b, w)
    ensures CanAdvance(b, w)
  {
    var step := NextInLine(b, w);
    if step == Sweep(EVERYWHERE) {
      assert AllSwept(WatchNext(b, w, step).phase);
    } else {
      assert Advances(step);
    }
  }

  /** Every trace of watcher and lookups, not just one, settles cache and file while the store stands
      still: its steps forward are bounded by the work at its start, one that has come to rest is
      settled unless a handler has yet to send, and one that has not can go on. */
  lemma {:induction false} EveryTraceSettles(b: Bus, watches: seq<Watch>, steps: seq<WatchStep>)
    requires IsTrace(b, watches, steps) && End !in steps
    requires CacheOk(b, watches[0]) && SavedOk(b, watches[0]) && !watches[0].phase.Ended?
    ensures var end := watches[|steps|];
            && CacheOk(b, end) && SavedOk(b, end) && !end.phase.Ended?
            && Moves(steps) + Work(b, end) <= Work(b, watches[0])
            && (AtRest(b, end) && b.inflight == map[] ==> Settled(b, end))
            && (!AtRest(b, end) ==> CanAdvance(b, end))
  {
    var n := |steps|;
    if n > 0 {
      EveryTraceSettles(b, watches[..n], steps[..n - 1]);
      var w, step := watches[n - 1], steps[n - 1];
      CacheUnderWatch(b, w, step);
      SavedUnderWatch(b, w, step);
      WorkStep(b, w, step);
    }
    var end := watches[n];
    if !AtRest(b, end) {
      RestOrAdvance(b, end);
    } else if b.inflight == map[] {
      QuietIsSettled(b, end);
    }
  }

  /** Steps of the watcher alone work off any backlog; nobody else has to move. With nothing in
      flight, cache and file are then settled. */
  lemma {:induction false} WatcherCatchesUp(b: Bus, w: Watch) returns (watches: seq<Watch>, steps: seq<WatchStep>)
    requires CacheOk(b, w) && SavedOk(b, w) && !w.phase.Ended?
    ensures IsTrace(b, watches, steps) && watches[0] == w
    ensures |steps| <= 5 * (|b.log| - w.cursor) + Rank(w.phase)
    ensures var end := watches[|steps|];
            && end.phase.Listening? && end.cursor == |b.log|
            && (b.inflight == map[] ==> Settled(b, end))
    decreases |b.log| - w.cursor, Rank(w.phase)
  {
    if w.phase.Listening? && w.cursor == |b.log| {
      watches, steps := [w], [];
      if b.inflight == map[] { QuietIsSettled(b, w); }
    } else {
      var step := NextInLine(b, w);
      CacheUnderWatch(b, w, step);
      SavedUnderWatch(b, w, step);
      var rest, more := WatcherCatchesUp(b, WatchNext(b, w, step));
      watches, steps := [w] + rest, [step] + more;
    }
  }
}
