/** When the event log rebuilds the store (core/src/ipc/handler.rs): handlers may send their events in
    another order than they changed the store. For every run, an exact condition on the log. */
module Rebuild {
  import opened Names
  import opened Rules
  import opened Stores
  import opened Requests
  import opened EventBus

  function LayerOf(s: Store, eph: bool): Layer { if eph then s.eph else s.per }

  predicate OnLayer(e: Event, eph: bool) {
    IsRuleEvent(e) && eph == (e.EphemeralAdded? || e.EphemeralRemoved?)
  }

  predicate Adds(e: Event) { e.RuleAdded? || e.EphemeralAdded? }

  lemma {:induction false} ReplayWellFormed(s: Store, events: seq<Event>)
    requires WellFormed(s)
    ensures WellFormed(ReplayAll(s, events))
  {
    if events != [] {
      var front, e := events[..|events| - 1], events[|events| - 1];
      ReplayWellFormed(s, front);
      if IsRuleEvent(e) { PerformWellFormed(ReplayAll(s, front), OpBehind(e)); }
    }
  }

  /** The operation that an event replays. */
  function OpBehind(e: Event): (op: Op)
    requires IsRuleEvent(e)
    ensures forall s :: Replay(s, e) == Perform(s, op).store
  {
    match e
    case RuleAdded(r) => Add(r)
    case RuleRemoved(r) => Remove(r.domain)
    case EphemeralAdded(r) => AddEphemeral(r)
    case EphemeralRemoved(r) => RemoveEphemeral(r.domain)
  }

  // ------------------------------------------------------------- exact domains

  predicate About(e: Event, eph: bool, domain: string) {
    OnLayer(e, eph) && e.rule.domain == domain
  }

  function LastAbout(events: seq<Event>, eph: bool, domain: string): Option<Event> {
    if events == [] then None
    else
      var last := events[|events| - 1];
      if About(last, eph, domain) then Some(last) else LastAbout(events[..|events| - 1], eph, domain)
  }

  function Entry(l: Layer, domain: string): Option<Rule> {
    if domain in l.exact then Some(l.exact[domain]) else None
  }

  /** The entry that the last event about a domain leaves; without one, the entry at the start. */
  function EntryAfter(s: Store, events: seq<Event>, eph: bool, domain: string): Option<Rule> {
    match LastAbout(events, eph, domain)
    case None => Entry(LayerOf(s, eph), domain)
    case Some(e) => if Adds(e) && IsRuleEvent(e) then Some(e.rule) else None
  }

  lemma {:induction false} ReplayEntry(s: Store, e: Event, eph: bool, domain: string)
    requires WellFormed(s) && !IsWildcardName(domain)
    ensures Entry(LayerOf(Replay(s, e), eph), domain) ==
            if !About(e, eph, domain) then Entry(LayerOf(s, eph), domain) else if Adds(e) then Some(e.rule) else None
  {}

  lemma {:induction false} ReplayIsLast(s: Store, events: seq<Event>, eph: bool, domain: string)
    requires WellFormed(s) && !IsWildcardName(domain)
    ensures Entry(LayerOf(ReplayAll(s, events), eph), domain) == EntryAfter(s, events, eph, domain)
  {
    if events != [] {
      var front, e := events[..|events| - 1], events[|events| - 1];
      ReplayIsLast(s, front, eph, domain);
      ReplayWellFormed(s, front);
      ReplayEntry(ReplayAll(s, front), e, eph, domain);
    }
  }

  // ------------------------------------------------------------------ wildcards

  predicate IsWild(e: Event, eph: bool) { OnLayer(e, eph) && e.rule.IsWildcard() }

  predicate AllRuleEvents(events: seq<Event>) {
    forall i :: 0 <= i < |events| ==> IsRuleEvent(events[i])
  }

  /** The events about wildcards of one layer, in order. */
  function WildEvents(events: seq<Event>, eph: bool): (wild: seq<Event>)
    ensures forall e :: e in wild <==> e in events && IsWild(e, eph)
    ensures AllRuleEvents(wild)
  {
    if events == [] then []
    else
      var last := events[|events| - 1];
      assert events == events[..|events| - 1] + [last];
      WildEvents(events[..|events| - 1], eph) + if IsWild(last, eph) then [last] else []
  }

  /** What one of them does to the list: push behind, or swap out. */
  function WildStep(w: seq<Rule>, e: Event): seq<Rule>
    requires IsRuleEvent(e)
  {
    if Adds(e) then Retain(w, e.rule.domain) + [e.rule]
    else
      var pos := Position(w, e.rule.domain);
      if pos.Some? then SwapRemove(w, pos.value) else w
  }

  function WildAfter(w: seq<Rule>, events: seq<Event>): seq<Rule>
    requires AllRuleEvents(events)
  {
    if events == [] then w
    else WildStep(WildAfter(w, events[..|events| - 1]), events[|events| - 1])
  }

  lemma {:induction false} ReplayWildStep(s: Store, e: Event, eph: bool)
    requires WellFormed(s)
    ensures LayerOf(Replay(s, e), eph).wild ==
            if IsWild(e, eph) then WildStep(LayerOf(s, eph).wild, e) else LayerOf(s, eph).wild
  {}

  /** The wildcard list of a layer depends on the events about its wildcards alone. */
  lemma {:induction false} ReplayWild(s: Store, events: seq<Event>, eph: bool)
    requires WellFormed(s)
    ensures LayerOf(ReplayAll(s, events), eph).wild == WildAfter(LayerOf(s, eph).wild, WildEvents(events, eph))
  {
    if events != [] {
      var front, e := events[..|events| - 1], events[|events| - 1];
      ReplayWild(s, front, eph);
      ReplayWellFormed(s, front);
      ReplayWildStep(ReplayAll(s, front), e, eph);
      var before := WildEvents(front, eph);
      assert (before + [e])[..|before|] == before;
      assert before + [] == before;
    }
  }

  // -------------------------------------------------------- the exact condition

  /** About every exact domain of either layer, the last event leaves the same entry. */
  ghost predicate SameLast(s: Store, a: seq<Event>, b: seq<Event>) {
    forall eph: bool, d: string :: !IsWildcardName(d) ==> EntryAfter(s, a, eph, d) == EntryAfter(s, b, eph, d)
  }

  /** The events about the wildcards of either layer leave the same list. */
  ghost predicate SameWild(s: Store, a: seq<Event>, b: seq<Event>) {
    forall eph: bool :: WildAfter(LayerOf(s, eph).wild, WildEvents(a, eph)) == WildAfter(LayerOf(s, eph).wild, WildEvents(b, eph))
  }

  lemma {:induction false} SameLayerIff(k: Layer, l: Layer)
    requires WellFormedLayer(k) && WellFormedLayer(l)
    ensures k == l <==> k.wild == l.wild && forall d :: !IsWildcardName(d) ==> Entry(k, d) == Entry(l, d)
  {
    if forall d :: !IsWildcardName(d) ==> Entry(k, d) == Entry(l, d) {
      forall d ensures Entry(k, d) == Entry(l, d) {}
      forall d ensures d in k.exact <==> d in l.exact {
        assert Entry(k, d) == Entry(l, d);
      }
      forall d | d in k.exact ensures k.exact[d] == l.exact[d] {
        assert Entry(k, d) == Entry(l, d);
      }
      assert k.exact == l.exact;
    }
  }

  /** Two logs rebuild the same store from the same start if and only if they agree, domain by domain,
      on the last event about an exact one, and on the list the wildcard events leave. */
  lemma {:induction false} ReplaysAgreeIff(s: Store, a: seq<Event>, b: seq<Event>)
    requires WellFormed(s)
    ensures ReplayAll(s, a) == ReplayAll(s, b) <==> SameLast(s, a, b) && SameWild(s, a, b)
  {
    var x, y := ReplayAll(s, a), ReplayAll(s, b);
    ReplayWellFormed(s, a);
    ReplayWellFormed(s, b);
    forall eph: bool ensures LayerOf(x, eph) == LayerOf(y, eph) <==>
        WildAfter(LayerOf(s, eph).wild, WildEvents(a, eph)) == WildAfter(LayerOf(s, eph).wild, WildEvents(b, eph))
        && forall d :: !IsWildcardName(d) ==> EntryAfter(s, a, eph, d) == EntryAfter(s, b, eph, d)
    {
      SameLayerIff(LayerOf(x, eph), LayerOf(y, eph));
      ReplayWild(s, a, eph);
      ReplayWild(s, b, eph);
      forall d | !IsWildcardName(d)
        ensures Entry(LayerOf(x, eph), d) == EntryAfter(s, a, eph, d) && Entry(LayerOf(y, eph), d) == EntryAfter(s, b, eph, d)
      {
        ReplayIsLast(s, a, eph, d);
        ReplayIsLast(s, b, eph, d);
      }
    }
    assert x == y <==> LayerOf(x, true) == LayerOf(y, true) && LayerOf(x, false) == LayerOf(y, false);
  }

  /** In every state of every run, with anything in flight or nothing: the log rebuilds the store if
      and only if it agrees in that way with the events in the order of the store changes. */
  lemma {:induction false} LogRebuildsIff(buses: seq<Bus>, steps: seq<BusStep>, i: nat)
    requires IsBusRun(buses, steps) && i < |buses|
    ensures var s, emitted := buses[0].store, Emitted(buses, steps, i);
            ReplayAll(s, buses[i].log) == buses[i].store <==>
            SameLast(s, buses[i].log, emitted) && SameWild(s, buses[i].log, emitted)
  {
    CommitOrderRebuilds(buses, steps, i);
    ReplaysAgreeIff(buses[0].store, buses[i].log, Emitted(buses, steps, i));
  }

  // ------------------------------------------------------------ simpler conditions

  lemma {:induction false} EmittedIsOf(buses: seq<Bus>, steps: seq<BusStep>, i: nat, e: Event)
    requires IsBusRun(buses, steps) && i < |buses| && e in Emitted(buses, steps, i)
    ensures exists j :: 0 <= j < i && steps[j].Mutate? && !steps[j].op.AddAll? && IsEventOf(e, steps[j].op)
  {
    var b, step := buses[i - 1], steps[i - 1];
    CommitOrderRebuilds(buses, steps, i - 1);
    if e in Emitted(buses, steps, i - 1) {
      EmittedIsOf(buses, steps, i - 1, e);
    } else {
      EmittedByIsOf(b, step, e);
    }
  }

  lemma {:induction false} EmittedByIsOf(b: Bus, step: BusStep, e: Event)
    requires BusOk(b) && BusEnabled(b, step) && e in EmittedBy(b, step)
    ensures step.Mutate? && !step.op.AddAll? && IsEventOf(e, step.op)
  {
    EventReplaysOp(b.store, step.op);
  }

  predicate IsEventOf(e: Event, op: Op)
    requires !op.AddAll?
  {
    IsRuleEvent(e) && e.rule.domain == Subject(op) && (Adds(e) <==> IsAddition(op))
  }

  lemma {:induction false} LoggedIsEmitted(buses: seq<Bus>, steps: seq<BusStep>, i: nat, e: Event)
    requires IsBusRun(buses, steps) && i < |buses| && IsRuleEvent(e)
    ensures e in buses[i].log ==> e in Emitted(buses, steps, i)
    ensures buses[i].inflight == map[] && e in Emitted(buses, steps, i) ==> e in buses[i].log
  {
    EveryCommitIsSentOnce(buses, steps, i, e);
    var log, emitted := buses[i].log, Emitted(buses, steps, i);
    assert e in log <==> multiset(log)[e] > 0;
    assert e in emitted <==> multiset(emitted)[e] > 0;
  }

  /** On exact domains the condition is about the last events alone, with anything in flight. */
  lemma {:induction false} ExactLogRebuildsIff(buses: seq<Bus>, steps: seq<BusStep>, i: nat)
    requires IsBusRun(buses, steps) && i < |buses|
    requires forall j :: 0 <= j < |steps| && steps[j].Mutate? ==> IsExact(steps[j].op)
    ensures ReplayAll(buses[0].store, buses[i].log) == buses[i].store <==>
            SameLast(buses[0].store, buses[i].log, Emitted(buses, steps, i))
  {
    LogRebuildsIff(buses, steps, i);
    var log, emitted := buses[i].log, Emitted(buses, steps, i);
    forall e, eph | e in emitted ensures !IsWild(e, eph) {
      EmittedIsOf(buses, steps, i, e);
    }
    forall e, eph | e in log ensures !IsWild(e, eph) {
      if IsRuleEvent(e) { LoggedIsEmitted(buses, steps, i, e); }
    }
    forall eph: bool ensures WildEvents(log, eph) == [] && WildEvents(emitted, eph) == [] {
      EmptyOrNot(WildEvents(log, eph));
      EmptyOrNot(WildEvents(emitted, eph));
    }
  }

  lemma {:induction false} EmptyOrNot(events: seq<Event>)
    ensures events == [] || exists e :: e in events
  {
    if events != [] { assert events[0] in events; }
  }

  /** The rules of which no later one has the same domain, in order. */
  function LastOnly(rules: seq<Rule>): seq<Rule> {
    if rules == [] then []
    else Head(rules) + LastOnly(rules[1..])
  }

  function Without(rules: seq<Rule>, domains: set<string>): seq<Rule> {
    if rules == [] then []
    else (if rules[0].domain in domains then [] else [rules[0]]) + Without(rules[1..], domains)
  }

  function RulesOf(events: seq<Event>): (rules: seq<Rule>)
    requires AllRuleEvents(events)
    ensures |rules| == |events| && forall i :: 0 <= i < |rules| ==> rules[i] == events[i].rule
  {
    seq(|events|, i requires 0 <= i < |events| => events[i].rule)
  }

  lemma {:induction false} RetainOfConcat(a: seq<Rule>, b: seq<Rule>, domain: string)
    ensures Retain(a + b, domain) == Retain(a, domain) + Retain(b, domain)
  {
    if a == [] {
      assert a + b == b;
    } else {
      RetainOfConcat(a[1..], b, domain);
      assert (a + b)[1..] == a[1..] + b;
    }
  }

  lemma {:induction false} RetainOfWithout(rules: seq<Rule>, domains: set<string>, domain: string)
    ensures Retain(Without(rules, domains), domain) == Without(rules, domains + {domain})
  {
    if rules != [] {
      RetainOfWithout(rules[1..], domains, domain);
      var head := if rules[0].domain in domains then [] else [rules[0]];
      RetainOfConcat(head, Without(rules[1..], domains), domain);
      if head != [] { assert head[1..] == []; }
    }
  }

  lemma {:induction false} DomainsOfPush(rules: seq<Rule>, r: Rule)
    ensures Domains(rules + [r]) == Domains(rules) + {r.domain}
  {
    DomainsOfConcat(rules, [r]);
    assert [r][0] == r;
  }

  /** The first rule, unless a later one has its domain. */
  function Head(rules: seq<Rule>): seq<Rule>
    requires rules != []
  {
    if rules[0].domain in Domains(rules[1..]) then [] else [rules[0]]
  }

  lemma {:induction false} HeadOfPush(rules: seq<Rule>, r: Rule)
    requires rules != []
    ensures Head(rules + [r]) == Retain(Head(rules), r.domain)
  {
    DomainsOfPush(rules[1..], r);
    assert (rules + [r])[1..] == rules[1..] + [r];
    assert [rules[0]][1..] == [];
  }

  lemma {:induction false} LastOnlyOfPush(rules: seq<Rule>, r: Rule)
    ensures LastOnly(rules + [r]) == Retain(LastOnly(rules), r.domain) + [r]
  {
    if rules == [] {
      assert [] + [r] == [r] && [r][1..] == [];
    } else {
      LastOnlyOfPush(rules[1..], r);
      HeadOfPush(rules, r);
      assert (rules + [r])[1..] == rules[1..] + [r];
      RetainOfConcat(Head(rules), LastOnly(rules[1..]), r.domain);
    }
  }

  /** Additions alone leave the untouched old wildcards, then each added one at its last addition. */
  lemma {:induction false} AdditionsLeave(w: seq<Rule>, events: seq<Event>)
    requires AllRuleEvents(events) && forall i :: 0 <= i < |events| ==> Adds(events[i])
    ensures WildAfter(w, events) == Without(w, Domains(RulesOf(events))) + LastOnly(RulesOf(events))
  {
    if events == [] {
      WithoutNothing(w);
      assert Domains(RulesOf(events)) == {};
    } else {
      var front, e := events[..|events| - 1], events[|events| - 1];
      AdditionsLeave(w, front);
      var rules, d := RulesOf(front), e.rule.domain;
      assert RulesOf(events) == rules + [e.rule];
      RetainOfConcat(Without(w, Domains(rules)), LastOnly(rules), d);
      RetainOfWithout(w, Domains(rules), d);
      DomainsOfPush(rules, e.rule);
      LastOnlyOfPush(rules, e.rule);
    }
  }

  lemma {:induction false} WithoutNothing(w: seq<Rule>)
    ensures Without(w, {}) == w
  {
    if w != [] { WithoutNothing(w[1..]); }
  }

  lemma {:induction false} SameDomains(a: seq<Event>, b: seq<Event>)
    requires AllRuleEvents(a) && AllRuleEvents(b)
    requires forall e :: e in a <==> e in b
    ensures Domains(RulesOf(a)) == Domains(RulesOf(b))
  {
    forall d | d in Domains(RulesOf(a)) ensures d in Domains(RulesOf(b)) {
      var i :| 0 <= i < |a| && a[i].rule.domain == d;
      assert a[i] in b;
      var j :| 0 <= j < |b| && b[j] == a[i];
      assert RulesOf(b)[j].domain == d;
    }
    forall d | d in Domains(RulesOf(b)) ensures d in Domains(RulesOf(a)) {
      var i :| 0 <= i < |b| && b[i].rule.domain == d;
      assert b[i] in a;
      var j :| 0 <= j < |a| && a[j] == b[i];
      assert RulesOf(a)[j].domain == d;
    }
  }

  /** Among the wildcards of either layer, the order of the last additions is the same. */
  ghost predicate SameAdditions(a: seq<Event>, b: seq<Event>) {
    forall eph: bool :: LastOnly(RulesOf(WildEvents(a, eph))) == LastOnly(RulesOf(WildEvents(b, eph)))
  }

  /** Where wildcards are only ever added, and once nothing is in flight: the log rebuilds the store
      if and only if it agrees with the store changes on the last event about every exact domain and
      on the order of the last additions of wildcards. */
  lemma {:induction false} AddedWildcardsRebuildIff(buses: seq<Bus>, steps: seq<BusStep>, i: nat)
    requires IsBusRun(buses, steps) && i < |buses| && buses[i].inflight == map[]
    requires forall j :: 0 <= j < |steps| && steps[j].Mutate? ==> IsExact(steps[j].op) || IsWildcardAddition(steps[j].op)
    ensures var log, emitted := buses[i].log, Emitted(buses, steps, i);
            ReplayAll(buses[0].store, log) == buses[i].store <==>
            SameLast(buses[0].store, log, emitted) && SameAdditions(log, emitted)
  {
    LogRebuildsIff(buses, steps, i);
    var s, log, emitted := buses[0].store, buses[i].log, Emitted(buses, steps, i);
    forall eph: bool ensures
      WildAfter(LayerOf(s, eph).wild, WildEvents(log, eph)) == WildAfter(LayerOf(s, eph).wild, WildEvents(emitted, eph)) <==>
      LastOnly(RulesOf(WildEvents(log, eph))) == LastOnly(RulesOf(WildEvents(emitted, eph)))
    {
      var a, b := WildEvents(log, eph), WildEvents(emitted, eph);
      forall e ensures (e in a <==> e in b) && (e in a ==> Adds(e)) {
        if IsRuleEvent(e) { LoggedIsEmitted(buses, steps, i, e); }
        if e in b { EmittedIsOf(buses, steps, i, e); }
      }
      assert forall j :: 0 <= j < |a| ==> a[j] in a;
      assert forall j :: 0 <= j < |b| ==> b[j] in b;
      SameDomains(a, b);
      AdditionsLeave(LayerOf(s, eph).wild, a);
      AdditionsLeave(LayerOf(s, eph).wild, b);
      SameTail(Without(LayerOf(s, eph).wild, Domains(RulesOf(a))), LastOnly(RulesOf(a)), LastOnly(RulesOf(b)));
    }
  }

  lemma {:induction false} SameTail(front: seq<Rule>, a: seq<Rule>, b: seq<Rule>)
    ensures front + a == front + b <==> a == b
  {
    assert (front + a)[|front|..] == a && (front + b)[|front|..] == b;
  }

  // ---------------------------------------------------------- two sends the other way

  predicate IsAddition(op: Op) { op.Add? || op.AddEphemeral? }

  predicate OnEphemeral(op: Op) { op.AddEphemeral? || op.RemoveEphemeral? }

  /** An operation on an exact domain: no bulk load, no wildcard. */
  predicate IsExact(op: Op) { !op.AddAll? && !IsWildcardName(Subject(op)) }

  function Edited(m: map<string, Rule>, domain: string, rule: Option<Rule>): map<string, Rule> {
    if rule.Some? then m[domain := rule.value] else m - {domain}
  }

  function EditOf(op: Op): Option<Rule> {
    if IsAddition(op) then Some(op.rule) else None
  }

  lemma {:induction false} EditsCommute(m: map<string, Rule>, x: string, p: Option<Rule>, y: string, q: Option<Rule>)
    requires x != y
    ensures Edited(Edited(m, x, p), y, q) == Edited(Edited(m, y, q), x, p)
  {}

  lemma {:induction false} LastEditWins(m: map<string, Rule>, x: string, p: Option<Rule>, q: Option<Rule>)
    ensures Edited(Edited(m, x, p), x, q) == Edited(m, x, q)
    ensures Edited(m, x, p) == Edited(m, x, q) <==> p == q
  {
    assert p.Some? ==> x in Edited(m, x, p) && Edited(m, x, p)[x] == p.value;
    assert p.None? ==> x !in Edited(m, x, p);
  }

  /** On an exact domain an operation edits one entry of its layer's map and nothing else. */
  lemma {:induction false} ExactOpEdits(s: Store, op: Op)
    requires WellFormed(s) && IsExact(op)
    ensures Perform(s, op).store ==
            if OnEphemeral(op) then s.(eph := s.eph.(exact := Edited(s.eph.exact, Subject(op), EditOf(op))))
            else s.(per := s.per.(exact := Edited(s.per.exact, Subject(op), EditOf(op))))
  {}

  /** Replaying the event of an operation is performing the operation, on any store. */
  lemma {:induction false} EventActsAsOp(s: Store, op: Op, e: Event, other: Store)
    requires WellFormed(s) && !op.AddAll? && EventOf(op, Perform(s, op).removed) == Some(e)
    ensures Replay(other, e) == Perform(other, op).store
  {
    EventReplaysOp(s, op);
  }

  /** The store and the log after `a` and then `b` have changed it and their events went out the
      other way round. */
  function SwappedSends(s: Store, a: Op, b: Op): Bus
    requires !a.AddAll? && !b.AddAll?
    requires EmittedBy(Bus(s, map[], []), Mutate(0, a)) != []
    requires EmittedBy(Bus(Perform(s, a).store, map[], []), Mutate(1, b)) != []
  {
    var b0 := Bus(s, map[], []);
    var b1 := BusNext(b0, Mutate(0, a));
    var b2 := BusNext(b1, Mutate(1, b));
    BusNext(BusNext(b2, Send(1)), Send(0))
  }

  lemma {:induction false} ReplayTwo(s: Store, x: Event, y: Event)
    ensures ReplayAll(s, [x, y]) == Replay(Replay(s, x), y)
  {
    assert [x][..0] == [] && [x, y][..1] == [x];
    assert ReplayAll(s, [x]) == Replay(s, x);
  }

  lemma {:induction false} SwappedEnd(s: Store, a: Op, b: Op, ea: Event, eb: Event)
    requires !a.AddAll? && !b.AddAll?
    requires EmittedBy(Bus(s, map[], []), Mutate(0, a)) == [ea]
    requires EmittedBy(Bus(Perform(s, a).store, map[], []), Mutate(1, b)) == [eb]
    ensures SwappedSends(s, a, b) == Bus(Perform(Perform(s, a).store, b).store, map[], [eb, ea])
  {
    var end := SwappedSends(s, a, b);
    assert end.inflight == map[] && end.log == [eb, ea];
  }

  lemma {:induction false} SwappedLog(s: Store, a: Op, b: Op)
    requires WellFormed(s) && !a.AddAll? && !b.AddAll?
    requires EmittedBy(Bus(s, map[], []), Mutate(0, a)) != []
    requires EmittedBy(Bus(Perform(s, a).store, map[], []), Mutate(1, b)) != []
    ensures var end := SwappedSends(s, a, b);
            && end.inflight == map[]
            && end.store == Perform(Perform(s, a).store, b).store
            && ReplayAll(s, end.log) == Perform(Perform(s, b).store, a).store
  {
    var s1 := Perform(s, a).store;
    PerformWellFormed(s, a);
    PerformWellFormed(s, b);
    var ea := EmittedBy(Bus(s, map[], []), Mutate(0, a))[0];
    var eb := EmittedBy(Bus(s1, map[], []), Mutate(1, b))[0];
    SwappedEnd(s, a, b, ea, eb);
    ReplayTwo(s, eb, ea);
    EventActsAsOp(s1, b, eb, s);
    EventActsAsOp(s, a, ea, Perform(s, b).store);
  }

  /** The second of two removals of one domain finds nothing and emits nothing. */
  lemma {:induction false} NotTwoRemovals(s: Store, a: Op, b: Op)
    requires WellFormed(s) && IsExact(a) && IsExact(b)
    requires OnEphemeral(a) == OnEphemeral(b) && Subject(a) == Subject(b)
    requires EmittedBy(Bus(Perform(s, a).store, map[], []), Mutate(1, b)) != []
    ensures IsAddition(a) || IsAddition(b)
  {}

  lemma {:induction false} ExactSwapsMisleadIff(s: Store, a: Op, b: Op)
    requires WellFormed(s) && IsExact(a) && IsExact(b) && OnEphemeral(a) == OnEphemeral(b)
    requires EmittedBy(Bus(Perform(s, a).store, map[], []), Mutate(1, b)) != []
    ensures Perform(Perform(s, b).store, a).store != Perform(Perform(s, a).store, b).store <==>
            Subject(a) == Subject(b) && !(IsAddition(a) && a == b)
  {
    PerformWellFormed(s, a);
    PerformWellFormed(s, b);
    ExactOpEdits(s, a);
    ExactOpEdits(s, b);
    ExactOpEdits(Perform(s, a).store, b);
    ExactOpEdits(Perform(s, b).store, a);
    var m := if OnEphemeral(a) then s.eph.exact else s.per.exact;
    if Subject(a) == Subject(b) {
      LastEditWins(m, Subject(a), EditOf(a), EditOf(b));
      LastEditWins(m, Subject(a), EditOf(b), EditOf(a));
      NotTwoRemovals(s, a, b);
    } else {
      EditsCommute(m, Subject(a), EditOf(a), Subject(b), EditOf(b));
    }
  }

  /** The wildcard added last stands last. */
  lemma {:induction false} WildcardSwapsMisleadIff(s: Store, a: Op, b: Op)
    requires IsWildcardAddition(a) && IsWildcardAddition(b) && OnEphemeral(a) == OnEphemeral(b)
    ensures Perform(Perform(s, b).store, a).store != Perform(Perform(s, a).store, b).store <==> a != b
  {
    var ab, ba := LayerOf(Perform(Perform(s, a).store, b).store, OnEphemeral(a)), LayerOf(Perform(Perform(s, b).store, a).store, OnEphemeral(a));
    assert ab.wild[|ab.wild| - 1] == b.rule && ba.wild[|ba.wild| - 1] == a.rule;
  }

  predicate IsWildcardAddition(op: Op) { IsAddition(op) && IsWildcardName(Subject(op)) }

  /** The two operations get in each other's way. */
  predicate Clash(a: Op, b: Op)
    requires !a.AddAll? && !b.AddAll?
  {
    && OnEphemeral(a) == OnEphemeral(b)
    && IsWildcardName(Subject(a)) == IsWildcardName(Subject(b))
    && (IsWildcardName(Subject(a)) || Subject(a) == Subject(b))
    && !(IsAddition(a) && a == b)
  }

  lemma {:induction false} ApartMeansCommuting(s: Store, a: Op, b: Op)
    requires WellFormed(s) && (IsExact(a) || IsWildcardAddition(a)) && (IsExact(b) || IsWildcardAddition(b))
    requires OnEphemeral(a) != OnEphemeral(b) || IsExact(a) != IsExact(b)
    ensures Perform(Perform(s, b).store, a).store == Perform(Perform(s, a).store, b).store
  {
    PerformWellFormed(s, a);
    PerformWellFormed(s, b);
    if IsExact(a) { ExactOpEdits(s, a); ExactOpEdits(Perform(s, b).store, a); }
    if IsExact(b) { ExactOpEdits(s, b); ExactOpEdits(Perform(s, a).store, b); }
  }

  /** Exactly when do two events sent the other way round rebuild a wrong store? Wildcards being only
      added: when both are wildcards of one layer, or the same exact domain of one layer, and they
      are not two equal additions. */
  lemma {:induction false} SwappedSendsMisleadIff(s: Store, a: Op, b: Op)
    requires WellFormed(s) && (IsExact(a) || IsWildcardAddition(a)) && (IsExact(b) || IsWildcardAddition(b))
    requires EmittedBy(Bus(s, map[], []), Mutate(0, a)) != []
    requires EmittedBy(Bus(Perform(s, a).store, map[], []), Mutate(1, b)) != []
    ensures var end := SwappedSends(s, a, b); ReplayAll(s, end.log) != end.store <==> Clash(a, b)
  {
    SwappedLog(s, a, b);
    if OnEphemeral(a) != OnEphemeral(b) || IsExact(a) != IsExact(b) {
      ApartMeansCommuting(s, a, b);
    } else if IsExact(a) {
      ExactSwapsMisleadIff(s, a, b);
    } else {
      WildcardSwapsMisleadIff(s, a, b);
    }
  }
}
