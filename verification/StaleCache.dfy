/** Why the coherence theorem needs each of its hypotheses: for each cause a run of the daemon,
    for a whole family of stores, that ends at rest with a stale answer in the cache. */
module StaleCache {
  import opened Names
  import opened Rules
  import opened Stores
  import opened Requests
  import opened EventBus
  import W = RulesWatch
  import S = SystemDns
  import opened Daemon

  ghost predicate Reachable(s: State) {
    exists states, steps :: IsRun(states, steps) && states[|steps|] == s
  }

  /** Nothing is on its way, yet the cache answers differently from the store. */
  predicate StaleAtRest(s: State, name: string) {
    W.Quiet(s.bus, s.watch) && W.CachedAnswer(s.bus, s.watch, name) != Resolve(s.bus.store, name)
  }

  function Boot(st: Store): State {
    State(Bus(st, map[], []), W.FRESH, S.Manager(S.Starting, 0, {}))
  }

  lemma {:induction false} BootReachable(st: Store)
    requires WellFormed(st)
    ensures Reachable(Boot(st))
  {
    assert IsRun([Boot(st)], []);
  }

  lemma {:induction false} Onward(s: State, step: Step)
    requires Reachable(s) && Enabled(s, step)
    ensures Reachable(Next(s, step))
  {
    var states, steps :| IsRun(states, steps) && states[|steps|] == s;
    assert IsRun(states + [Next(s, step)], steps + [step]);
  }

  /** One step of the cache or its watcher. */
  lemma {:induction false} Tick(s: State, x: W.WatchStep, w: W.Watch)
    requires Reachable(s) && W.WatchEnabled(s.bus, s.watch, x) && W.WatchNext(s.bus, s.watch, x) == w
    ensures Reachable(s.(watch := w))
  {
    Onward(s, OnWatch(x));
  }

  /** A watcher that listens, at the end of the log, beside a cache holding one entry. */
  function Warm(st: Store, name: string, rule: Rule): State {
    var s := Boot(st);
    s.(watch := s.watch.(phase := W.Listening, cache := map[name := rule]))
  }

  /** Between a lookup's store read and its cache fill. */
  function Midway(st: Store, name: string, rule: Rule): State {
    var s := Boot(st);
    s.(watch := s.watch.(phase := W.Listening, lookups := map[0 := W.Holding(name, rule, false)]))
  }

  lemma {:induction false} SubscribeAtBoot(st: Store)
    requires WellFormed(st)
    ensures var s := Boot(st); Reachable(s.(watch := s.watch.(phase := W.Listening)))
  {
    var s := Boot(st);
    BootReachable(st);
    assert W.WatchNext(s.bus, s.watch, W.Subscribe) == s.watch.(phase := W.Listening);
    Tick(s, W.Subscribe, s.watch.(phase := W.Listening));
  }

  /** A lookup misses the cache and reads the store. */
  lemma {:induction false} MissAndRead(s: State, name: string, rule: Rule)
    requires Reachable(s) && s.watch.lookups == map[] && name !in s.watch.cache && Resolve(s.bus.store, name) == Some(rule)
    ensures Reachable(s.(watch := s.watch.(lookups := map[0 := W.Holding(name, rule, false)])))
  {
    var w1 := s.watch.(lookups := map[0 := W.Missed(name)]);
    Tick(s, W.Miss(0, name), w1);
    var s1 := s.(watch := w1);
    var held := map[0 := W.Holding(name, rule, false)];
    assert w1.lookups[0 := W.Holding(name, rule, false)] == held;
    Tick(s1, W.Read(0), s.watch.(lookups := held));
  }

  /** A lookup that holds a rule puts it into the empty cache. */
  lemma {:induction false} FillEmpty(s: State, name: string, rule: Rule)
    requires Reachable(s) && s.watch.lookups == map[0 := W.Holding(name, rule, false)] && s.watch.cache == map[]
    ensures Reachable(s.(watch := s.watch.(lookups := map[], cache := map[name := rule])))
  {
    assert s.watch.lookups - {0} == map[];
    Tick(s, W.Fill(0), s.watch.(lookups := map[], cache := map[name := rule]));
  }

  lemma {:induction false} MidwayReachable(st: Store, name: string, rule: Rule)
    requires WellFormed(st) && Resolve(st, name) == Some(rule)
    ensures Reachable(Midway(st, name, rule))
  {
    SubscribeAtBoot(st);
    var s := Boot(st);
    MissAndRead(s.(watch := s.watch.(phase := W.Listening)), name, rule);
  }

  lemma {:induction false} WarmReachable(st: Store, name: string, rule: Rule)
    requires WellFormed(st) && Resolve(st, name) == Some(rule)
    ensures Reachable(Warm(st, name, rule))
  {
    MidwayReachable(st, name, rule);
    FillEmpty(Midway(st, name, rule), name, rule);
  }

  /** One handler mutates and sends, undisturbed. */
  lemma {:induction false} Announce(s: State, op: Op, e: Event) returns (t: State)
    requires Reachable(s) && s.bus.inflight == map[] && !op.AddAll?
    requires EventOf(op, Perform(s.bus.store, op).removed) == Some(e)
    ensures Reachable(t)
    ensures t.bus == Bus(Perform(s.bus.store, op).store, map[], s.bus.log + [e])
    ensures t.watch == W.Observe(s.bus, s.watch, Mutate(0, op))
  {
    var m := Next(s, OnBus(Mutate(0, op)));
    Onward(s, OnBus(Mutate(0, op)));
    t := Next(m, OnBus(Send(0)));
    Onward(m, OnBus(Send(0)));
    assert m.bus.inflight == map[0 := e] && t.bus.inflight == map[];
  }

  /** The watcher takes the next event, invalidates by it, and saves if it is a persistent one. */
  lemma {:induction false} Process(s: State, e: Event) returns (t: State)
    requires Reachable(s) && s.watch.phase.Listening? && Ready(s.watch.cursor, s.bus.log)
    requires s.bus.log[s.watch.cursor] == e && IsRuleEvent(e)
    ensures Reachable(t) && t.bus == s.bus
    ensures t.watch.phase.Listening? && t.watch.cursor == s.watch.cursor + 1
    ensures t.watch.cache == W.Surviving(s.watch.cache, e.rule)
    ensures t.watch.lookups == map id | id in s.watch.lookups :: W.Dirtied(s.watch.lookups[id], e.rule, W.EVERYWHERE)
    ensures t.watch.skipped <= s.watch.skipped && t.watch.reordered <= s.watch.reordered && t.watch.raced <= s.watch.raced
  {
    var m := s.(watch := W.WatchNext(s.bus, s.watch, W.Receive));
    Tick(s, W.Receive, m.watch);
    t := SweepAll(m, e);
    if IsPersistent(e) {
      t := Save(t);
    }
  }

  lemma {:induction false} SweepAll(s: State, e: Event) returns (t: State)
    requires Reachable(s) && s.watch.phase == W.Invalidating(e, iset{}) && IsRuleEvent(e)
    ensures Reachable(t) && t.bus == s.bus && t.watch.cursor == s.watch.cursor
    ensures t.watch.phase == if IsPersistent(e) then W.Snapshotting else W.Listening
    ensures t.watch.cache == W.Surviving(s.watch.cache, e.rule)
    ensures t.watch.lookups == map id | id in s.watch.lookups :: W.Dirtied(s.watch.lookups[id], e.rule, W.EVERYWHERE)
    ensures t.watch.skipped <= s.watch.skipped && t.watch.reordered <= s.watch.reordered && t.watch.raced <= s.watch.raced
  {
    var m := s.(watch := W.WatchNext(s.bus, s.watch, W.Sweep(W.EVERYWHERE)));
    Tick(s, W.Sweep(W.EVERYWHERE), m.watch);
    t := m.(watch := W.WatchNext(m.bus, m.watch, W.Swept));
    Tick(m, W.Swept, t.watch);
  }

  lemma {:induction false} Save(s: State) returns (t: State)
    requires Reachable(s) && s.watch.phase.Snapshotting?
    ensures Reachable(t) && t.bus == s.bus
    ensures t.watch == s.watch.(phase := W.Listening, saved := t.watch.saved, unsaved := false)
  {
    var order := SomeOrder(s.bus.store.per.exact);
    var m := Next(s, OnWatch(W.Snapshot(order)));
    Onward(s, OnWatch(W.Snapshot(order)));
    t := Next(m, OnWatch(W.Write(true)));
    Onward(m, OnWatch(W.Write(true)));
  }

  /** The answer for its name once an exact ephemeral rule is added. */
  lemma {:induction false} NewRuleAnswers(st: Store, r: Rule)
    requires !r.IsWildcard()
    ensures Resolve(Perform(st, AddEphemeral(r)).store, r.domain) == Some(r)
  {}

  // ------------------------------------------------------------------ 1. reordering

  /** Every store and removal that meet the exact reordering condition lead to a stale answer: the
      event of the removal does not concern the name, so nothing ever invalidates it. */
  lemma {:induction false} RemovalLeavesStale(st: Store, op: Op, name: string) returns (s: State)
    requires WellFormed(st) && (op.Remove? || op.RemoveEphemeral?) && !MatchesName(op.domain, name)
    requires Reorders(st, op, name)
    ensures Reachable(s) && StaleAtRest(s, name)
    ensures s.watch.skipped == {} && s.watch.raced == {}
  {
    var rule, e := ReorderingChangesTheAnswer(st, op, name);
    WarmReachable(st, name, rule);
    var t := Announce(Warm(st, name, rule), op, e);
    s := Process(t, e);
    assert s.watch.cache == map[name := rule];
  }

  lemma {:induction false} ReorderingChangesTheAnswer(st: Store, op: Op, name: string) returns (rule: Rule, e: Event)
    requires WellFormed(st) && (op.Remove? || op.RemoveEphemeral?) && !MatchesName(op.domain, name)
    requires Reorders(st, op, name)
    ensures Resolve(st, name) == Some(rule) && Resolve(Perform(st, op).store, name) != Some(rule)
    ensures EventOf(op, Perform(st, op).removed) == Some(e) && IsRuleEvent(e) && !e.rule.Matches(name)
  {
    MutationFrame(st, op, name);
    EventReplaysOp(st, op);
    ReorderedNameResolves(st, op, name);
    rule := Resolve(st, name).value;
    e := EventOf(op, Perform(st, op).removed).value;
  }

  lemma {:induction false} ReorderedNameResolves(st: Store, op: Op, name: string)
    requires Reorders(st, op, name)
    ensures Resolve(st, name).Some?
  {
    var l := if op.Remove? then st.per else st.eph;
    var w := l.wild;
    assert w[|w| - 1].Matches(name);
    FirstMatchIffAny(w, name);
  }

  lemma {:induction false} MatchesBySuffix(front: string, suffix: string)
    ensures IsWildcardName(STAR_DOT + suffix) && MatchesName(STAR_DOT + suffix, front + "." + suffix)
  {}

  /** Any two nested wildcards behind a third that does not match make such a store. */
  lemma {:induction false} NestedBehindAnother(z: Rule, b: Rule, a: Rule, name: string)
    requires z.IsWildcard() && b.IsWildcard() && a.IsWildcard()
    requires z.domain != b.domain && b.domain != a.domain && z.domain != a.domain
    requires !z.Matches(name) && b.Matches(name) && a.Matches(name)
    ensures var st := Store(Layer(map[], [z, b, a]), EMPTY_LAYER);
            WellFormed(st) && Reorders(st, RemoveEphemeral(z.domain), name)
  {
    var wild := [z, b, a];
    assert Position(wild, z.domain) == Some(0);
    assert wild[1..2] == [b] && [b][0].Matches(name);
  }

  /** Such a store: removing `*.z.zz` puts `*.a.b.cc` ahead of `*.b.cc`. */
  lemma {:induction false} AReorderingStore(addr: SocketAddr) returns (st: Store, domain: string, name: string)
    ensures WellFormed(st) && !MatchesName(domain, name) && Reorders(st, RemoveEphemeral(domain), name)
    ensures Resolve(Perform(st, RemoveEphemeral(domain)).store, name) != Resolve(st, name)
  {
    domain, name := STAR_DOT + "z.zz", "x.a" + "." + "b.cc";
    var z, b, a := Rule(domain, addr, false), Rule(STAR_DOT + "b.cc", addr, false), Rule(STAR_DOT + "a.b.cc", addr, false);
    st := Store(Layer(map[], [z, b, a]), EMPTY_LAYER);
    MatchesBySuffix("x.a", "b.cc");
    MatchesBySuffix("x", "a.b.cc");
    assert name == "x" + "." + "a.b.cc";
    LastLetterDecides(domain, name);
    NestedBehindAnother(z, b, a, name);
    MutationFrame(st, RemoveEphemeral(domain), name);
  }

  /** Names that end in another letter than a wildcard are not matched by it. */
  lemma {:induction false} LastLetterDecides(pattern: string, name: string)
    requires IsWildcardName(pattern) && |pattern| > 2 && |name| > 0 && pattern[|pattern| - 1] != name[|name| - 1]
    ensures !MatchesName(pattern, name)
  {
    var suffix := SuffixOf(pattern);
    assert suffix[|suffix| - 1] == pattern[|pattern| - 1];
  }

  // ------------------------------------------------------------------------ 2. race

  /** A lookup read the store before the change and fills the cache after its invalidation. */
  lemma {:induction false} RaceLeavesStale(st: Store, name: string, before: Rule, after: Rule) returns (s: State)
    requires WellFormed(st) && Resolve(st, name) == Some(before)
    requires after.domain == name && !after.IsWildcard() && after != before
    ensures Reachable(s) && StaleAtRest(s, name)
    ensures s.watch.skipped == {} && s.watch.reordered == {}
  {
    MidwayReachable(st, name, before);
    var t := Announce(Midway(st, name, before), AddEphemeral(after), EphemeralAdded(after));
    var u := Process(t, EphemeralAdded(after));
    s := FillDirty(u, name, before);
    NewRuleAnswers(st, after);
  }

  lemma {:induction false} FillDirty(s: State, name: string, rule: Rule) returns (t: State)
    requires Reachable(s) && 0 in s.watch.lookups && s.watch.lookups[0] == W.Holding(name, rule, true)
    ensures Reachable(t) && t.bus == s.bus
    ensures t.watch == s.watch.(cache := s.watch.cache[name := rule], lookups := t.watch.lookups, raced := t.watch.raced)
  {
    t := s.(watch := W.WatchNext(s.bus, s.watch, W.Fill(0)));
    Tick(s, W.Fill(0), t.watch);
  }

  // ---------------------------------------------------------------- 3. lost events

  /** The watcher subscribes only after the handlers and lookups are running; an event sent before
      that never reaches it. */
  lemma {:induction false} LateSubscriptionLeavesStale(st: Store, name: string, before: Rule, after: Rule) returns (s: State)
    requires WellFormed(st) && Resolve(st, name) == Some(before)
    requires after.domain == name && !after.IsWildcard() && after != before
    ensures Reachable(s) && StaleAtRest(s, name)
    ensures s.watch.reordered == {} && s.watch.raced == {}
  {
    BootReachable(st);
    var boot := Boot(st);
    MissAndRead(boot, name, before);
    var t := boot.(watch := boot.watch.(lookups := map[0 := W.Holding(name, before, false)]));
    FillEmpty(t, name, before);
    var filled := boot.(watch := boot.watch.(cache := map[name := before]));
    var u := Announce(filled, AddEphemeral(after), EphemeralAdded(after));
    s := u.(watch := W.WatchNext(u.bus, u.watch, W.Subscribe));
    Tick(u, W.Subscribe, s.watch);
    NewRuleAnswers(st, after);
  }

  function Repeat(e: Event, n: nat): seq<Event> {
    seq(n, i => e)
  }

  /** Another handler adds the same rule over and over while the watcher does not run. */
  lemma {:induction false} Flood(s: State, other: Rule, n: nat) returns (t: State)
    requires Reachable(s) && s.bus.inflight == map[] && !other.IsWildcard()
    ensures Reachable(t) && t.bus.inflight == map[] && t.watch == s.watch
    ensures t.bus.log == s.bus.log + Repeat(EphemeralAdded(other), n)
    ensures forall name :: name != other.domain ==> Resolve(t.bus.store, name) == Resolve(s.bus.store, name)
  {
    var e := EphemeralAdded(other);
    if n == 0 {
      t := s;
      assert s.bus.log + Repeat(e, 0) == s.bus.log;
    } else {
      var m := Flood(s, other, n - 1);
      t := Announce(m, AddEphemeral(other), e);
      assert t.watch.reordered == s.watch.reordered;
      assert Repeat(e, n) == Repeat(e, n - 1) + [e];
      forall name | name != other.domain ensures Resolve(t.bus.store, name) == Resolve(s.bus.store, name) {
        InsertFrame(m.bus.store.eph, other, name);
      }
    }
  }

  /** The watcher works through events that do not concern the one cached name. */
  lemma {:induction false} Drain(s: State, name: string, rule: Rule, other: Rule) returns (t: State)
    requires Reachable(s) && s.watch.phase.Listening? && s.watch.cache == map[name := rule]
    requires !other.Matches(name) && Oldest(s.bus.log) <= s.watch.cursor <= |s.bus.log|
    requires forall i :: s.watch.cursor <= i < |s.bus.log| ==> s.bus.log[i] == EphemeralAdded(other)
    ensures Reachable(t) && t.bus == s.bus && t.watch.phase.Listening? && t.watch.cursor == |s.bus.log|
    ensures t.watch.cache == map[name := rule]
    ensures t.watch.reordered <= s.watch.reordered && t.watch.raced <= s.watch.raced
    decreases |s.bus.log| - s.watch.cursor
  {
    if s.watch.cursor == |s.bus.log| {
      t := s;
    } else {
      var m := Process(s, EphemeralAdded(other));
      assert m.watch.cache == map[name := rule];
      t := Drain(m, name, rule, other);
    }
  }

  lemma {:induction false} SkipOne(s: State) returns (t: State)
    requires Reachable(s) && s.watch.phase.Listening? && s.watch.cursor == 0 && |s.bus.log| == CAPACITY + 1
    ensures Reachable(t) && t.bus == s.bus && t.watch.cursor == 1 && t.watch.phase.Listening?
    ensures t.watch.cache == s.watch.cache && t.watch.reordered == s.watch.reordered && t.watch.raced == s.watch.raced
  {
    t := s.(watch := W.WatchNext(s.bus, s.watch, W.Skip));
    Tick(s, W.Skip, t.watch);
  }

  /** One event that concerns the name, pushed out of the channel by as many others as it holds. */
  lemma {:induction false} LagLeavesStale(st: Store, name: string, before: Rule, after: Rule, other: Rule) returns (s: State)
    requires WellFormed(st) && Resolve(st, name) == Some(before)
    requires after.domain == name && !after.IsWildcard() && after != before
    requires other.domain != name && !other.IsWildcard()
    ensures Reachable(s) && StaleAtRest(s, name)
    ensures s.watch.reordered == {} && s.watch.raced == {}
  {
    WarmReachable(st, name, before);
    var t := Announce(Warm(st, name, before), AddEphemeral(after), EphemeralAdded(after));
    NewRuleAnswers(st, after);
    var u := Flood(t, other, CAPACITY);
    assert u.watch.reordered == {} && |u.bus.log| == CAPACITY + 1;
    var v := SkipOne(u);
    s := Drain(v, name, before, other);
  }
}
