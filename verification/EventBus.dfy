/** The shared state of the daemon: the rule table, the handlers that have mutated it and not
    yet sent their event, and the log of dispatched events (core/src/ipc/handler.rs,
    core/src/state.rs). A broadcast receiver is a cursor into that log. */
module EventBus {
  import opened Rules
  import opened Stores
  import opened Requests

  /** Capacity of the broadcast channel. */
  const CAPACITY := 64

  datatype Bus = Bus(store: Store, inflight: map<nat, Event>, log: seq<Event>)

  datatype BusStep =
    | Mutate(handler: nat, op: Op)
    | Send(handler: nat)
    | Stop

  predicate BusEnabled(b: Bus, step: BusStep) {
    match step
    case Mutate(h, op) => h !in b.inflight && !op.AddAll?
    case Send(h) => h in b.inflight
    case Stop => true
  }

  function BusNext(b: Bus, step: BusStep): Bus
    requires BusEnabled(b, step)
  {
    match step
    case Mutate(h, op) =>
      var out := Perform(b.store, op);
      var e := EventOf(op, out.removed);
      Bus(out.store, if e.Some? then b.inflight[h := e.value] else b.inflight, b.log)
    case Send(h) => Bus(b.store, b.inflight - {h}, b.log + [b.inflight[h]])
    case Stop => b.(log := b.log + [DaemonStopped])
  }

  predicate BusOk(b: Bus) {
    && WellFormed(b.store)
    && forall h :: h in b.inflight ==> IsRuleEvent(b.inflight[h])
  }

  lemma {:induction false} BusStepOk(b: Bus, step: BusStep)
    requires BusOk(b) && BusEnabled(b, step)
    ensures BusOk(BusNext(b, step))
  {
    if step.Mutate? {
      PerformWellFormed(b.store, step.op);
      EventReplaysOp(b.store, step.op);
    }
  }

  // ------------------------------------------------------------------- receivers

  /** The oldest event the channel still holds. */
  function Oldest(log: seq<Event>): nat {
    if |log| > CAPACITY then |log| - CAPACITY else 0
  }

  predicate Lags(cursor: nat, log: seq<Event>) { cursor < Oldest(log) }

  predicate Ready(cursor: nat, log: seq<Event>) { Oldest(log) <= cursor < |log| }

  // ----------------------------------------------- what a mutation leaves in flight

  predicate InFlight(b: Bus, name: string) {
    exists h :: h in b.inflight && Concerns(b.inflight[h], name)
  }

  predicate Waiting(log: seq<Event>, cursor: nat, name: string) {
    exists i :: cursor <= i < |log| && Concerns(log[i], name)
  }

  /** The answer for `name` only changes under an event in flight that concerns it, or by reordering. */
  lemma {:induction false} MutationIsAnnounced(b: Bus, h: nat, op: Op, name: string)
    requires BusOk(b) && BusEnabled(b, Mutate(h, op)) && !Reorders(b.store, op, name)
    ensures var c := BusNext(b, Mutate(h, op));
            Resolve(c.store, name) == Resolve(b.store, name) || InFlight(c, name)
  {
    EventReplaysOp(b.store, op);
    if MatchesName(Subject(op), name) {
      var c := BusNext(b, Mutate(h, op));
      if c.store != b.store {
        assert h in c.inflight && Concerns(c.inflight[h], name);
      }
    } else {
      MutationFrame(b.store, op, name);
    }
  }

  lemma {:induction false} InFlightStays(b: Bus, step: BusStep, cursor: nat, name: string)
    requires BusEnabled(b, step) && cursor <= |b.log|
    requires InFlight(b, name) || Waiting(b.log, cursor, name)
    ensures var c := BusNext(b, step); InFlight(c, name) || Waiting(c.log, cursor, name)
  {
    var c := BusNext(b, step);
    if i :| cursor <= i < |b.log| && Concerns(b.log[i], name) {
      assert c.log[i] == b.log[i];
    } else {
      var h :| h in b.inflight && Concerns(b.inflight[h], name);
      if step == Send(h) {
        assert c.log[|b.log|] == b.inflight[h];
      } else {
        assert h in c.inflight && c.inflight[h] == b.inflight[h];
      }
    }
  }

  // -------------------------------------------------------- completeness of the log

  ghost predicate IsBusRun(buses: seq<Bus>, steps: seq<BusStep>) {
    && |buses| == |steps| + 1
    && WellFormed(buses[0].store) && buses[0].inflight == map[] && buses[0].log == []
    && forall i :: 0 <= i < |steps| ==> BusEnabled(buses[i], steps[i]) && buses[i + 1] == BusNext(buses[i], steps[i])
  }

  /** The event a step of the bus owes to its subscribers, if any. */
  function EmittedBy(b: Bus, step: BusStep): seq<Event> {
    if step.Mutate? then
      var e := EventOf(step.op, Perform(b.store, step.op).removed);
      if e.Some? then [e.value] else []
    else []
  }

  /** The events of the first `i` steps in the order in which the store was changed. */
  function Emitted(buses: seq<Bus>, steps: seq<BusStep>, i: nat): seq<Event>
    requires i <= |steps| < |buses|
  {
    if i == 0 then [] else Emitted(buses, steps, i - 1) + EmittedBy(buses[i - 1], steps[i - 1])
  }

  ghost function AnyHandler(inflight: map<nat, Event>): (h: nat)
    requires inflight != map[]
    ensures h in inflight
  {
    var h :| h in inflight;
    h
  }

  /** The events in flight, each as often as handlers hold it. */
  ghost function Flying(inflight: map<nat, Event>): multiset<Event> {
    if inflight == map[] then multiset{}
    else
      var h := AnyHandler(inflight);
      Flying(inflight - {h}) + multiset{inflight[h]}
  }

  lemma {:induction false} FlyingWithout(inflight: map<nat, Event>, h: nat)
    requires h in inflight
    ensures Flying(inflight) == Flying(inflight - {h}) + multiset{inflight[h]}
    decreases inflight.Keys
  {
    var g := AnyHandler(inflight);
    if g != h {
      var noG, noH := inflight - {g}, inflight - {h};
      var neither := noG - {h};
      assert noH - {g} == neither;
      assert g !in noG && h !in noH;
      FlyingWithout(noG, h);
      FlyingWithout(noH, g);
      assert Flying(noG) == Flying(neither) + multiset{inflight[h]};
      assert Flying(noH) == Flying(neither) + multiset{inflight[g]};
    }
  }

  lemma {:induction false} FlyingWith(inflight: map<nat, Event>, h: nat, e: Event)
    requires h !in inflight
    ensures Flying(inflight[h := e]) == Flying(inflight) + multiset{e}
  {
    FlyingWithout(inflight[h := e], h);
    assert inflight[h := e] - {h} == inflight;
  }

  lemma {:induction false} EmittedReplays(b: Bus, step: BusStep)
    requires BusOk(b) && BusEnabled(b, step)
    ensures ReplayAll(b.store, EmittedBy(b, step)) == BusNext(b, step).store
  {
    if step.Mutate? {
      EventReplaysOp(b.store, step.op);
      var es := EmittedBy(b, step);
      if es != [] { assert es[..0] == []; }
    }
  }

  /** However handlers interleave, the events in commit order rebuild the store. */
  lemma {:induction false} CommitOrderRebuilds(buses: seq<Bus>, steps: seq<BusStep>, i: nat)
    requires IsBusRun(buses, steps) && i < |buses|
    ensures BusOk(buses[i])
    ensures ReplayAll(buses[0].store, Emitted(buses, steps, i)) == buses[i].store
  {
    if i > 0 {
      CommitOrderRebuilds(buses, steps, i - 1);
      var b, step := buses[i - 1], steps[i - 1];
      BusStepOk(b, step);
      EmittedReplays(b, step);
      ReplayOfConcat(buses[0].store, Emitted(buses, steps, i - 1), EmittedBy(b, step));
    }
  }

  /** Rule events sent so far and in flight, with multiplicity. */
  ghost function Sent(b: Bus, e: Event): nat {
    multiset(b.log)[e] + Flying(b.inflight)[e]
  }

  lemma {:induction false} SentMutate(b: Bus, h: nat, op: Op, e: Event)
    requires BusEnabled(b, Mutate(h, op))
    ensures Sent(BusNext(b, Mutate(h, op)), e) == Sent(b, e) + multiset(EmittedBy(b, Mutate(h, op)))[e]
  {
    var es := EmittedBy(b, Mutate(h, op));
    if es != [] {
      FlyingWith(b.inflight, h, es[0]);
      assert multiset(es) == multiset{es[0]};
    }
  }

  lemma {:induction false} SentSend(b: Bus, h: nat, e: Event)
    requires BusEnabled(b, Send(h))
    ensures Sent(BusNext(b, Send(h)), e) == Sent(b, e)
  {
    FlyingWithout(b.inflight, h);
    assert multiset(b.log + [b.inflight[h]]) == multiset(b.log) + multiset{b.inflight[h]};
  }

  lemma {:induction false} SentStep(b: Bus, step: BusStep, e: Event)
    requires BusEnabled(b, step) && IsRuleEvent(e)
    ensures Sent(BusNext(b, step), e) == Sent(b, e) + multiset(EmittedBy(b, step))[e]
  {
    match step
    case Mutate(h, op) => SentMutate(b, h, op, e);
    case Send(h) => SentSend(b, h, e);
    case Stop => assert multiset(b.log + [DaemonStopped]) == multiset(b.log) + multiset{DaemonStopped};
  }

  /** And no event is lost or sent twice: the rule events sent and those in flight are, with
      multiplicity, exactly the events of the commits. So the log, once nothing is in flight, is a
      permutation of an order that rebuilds the store. */
  lemma {:induction false} EveryCommitIsSentOnce(buses: seq<Bus>, steps: seq<BusStep>, i: nat, e: Event)
    requires IsBusRun(buses, steps) && i < |buses| && IsRuleEvent(e)
    ensures Sent(buses[i], e) == multiset(Emitted(buses, steps, i))[e]
  {
    if i > 0 {
      EveryCommitIsSentOnce(buses, steps, i - 1, e);
      SentStep(buses[i - 1], steps[i - 1], e);
    }
  }

  /** The rule events of a log; a stop leaves the store alone. */
  function RuleEvents(log: seq<Event>): seq<Event> {
    if log == [] then []
    else
      var last := log[|log| - 1];
      RuleEvents(log[..|log| - 1]) + if IsRuleEvent(last) then [last] else []
  }

  lemma {:induction false} RuleEventsNext(log: seq<Event>, e: Event)
    ensures RuleEvents(log + [e]) == RuleEvents(log) + if IsRuleEvent(e) then [e] else []
  {
    assert (log + [e])[..|log|] == log;
  }

  lemma {:induction false} StopsReplayToNothing(s: Store, log: seq<Event>)
    ensures ReplayAll(s, RuleEvents(log)) == ReplayAll(s, log)
  {
    if log != [] {
      var front, last := log[..|log| - 1], log[|log| - 1];
      StopsReplayToNothing(s, front);
      var es := RuleEvents(front);
      if IsRuleEvent(last) {
        assert (es + [last])[..|es|] == es;
      } else {
        assert es + [] == es;
      }
    }
  }

  /** The handlers with an event to send, in the order in which they changed the store, as long as
      each send has been that of the first of them. */
  function Queue(buses: seq<Bus>, steps: seq<BusStep>, i: nat): seq<nat>
    requires i <= |steps| < |buses|
  {
    if i == 0 then [] else QueueAfter(Queue(buses, steps, i - 1), buses[i - 1], steps[i - 1])
  }

  function QueueAfter(q: seq<nat>, b: Bus, step: BusStep): seq<nat> {
    match step
    case Mutate(h, _) => if EmittedBy(b, step) == [] then q else q + [h]
    case Send(_) => if q == [] then [] else q[1..]
    case Stop => q
  }

  /** Sends follow the order of the store changes. */
  ghost predicate InOrder(buses: seq<Bus>, steps: seq<BusStep>)
    requires |steps| < |buses|
  {
    forall i :: 0 <= i < |steps| && steps[i].Send? ==>
      var q := Queue(buses, steps, i); q != [] && q[0] == steps[i].handler
  }

  function Held(inflight: map<nat, Event>, q: seq<nat>): (events: seq<Event>)
    requires forall h :: h in q ==> h in inflight
    ensures |events| == |q| && forall i :: 0 <= i < |q| ==> events[i] == inflight[q[i]]
  {
    seq(|q|, i requires 0 <= i < |q| => inflight[q[i]])
  }

  /** The queue holds exactly the handlers in flight, and the log followed by their events is every
      event emitted so far. */
  ghost predicate Queued(b: Bus, q: seq<nat>, emitted: seq<Event>) {
    && Distinct(q)
    && (forall h :: h in q <==> h in b.inflight)
    && RuleEvents(b.log) + Held(b.inflight, q) == emitted
  }

  lemma {:induction false} QueuedMutate(b: Bus, h: nat, op: Op, q: seq<nat>, emitted: seq<Event>)
    requires BusOk(b) && BusEnabled(b, Mutate(h, op)) && Queued(b, q, emitted)
    ensures var es := EmittedBy(b, Mutate(h, op));
            Queued(BusNext(b, Mutate(h, op)), if es == [] then q else q + [h], emitted + es)
  {
    var es, c := EmittedBy(b, Mutate(h, op)), BusNext(b, Mutate(h, op));
    if es == [] {
      assert emitted + es == emitted;
    } else {
      var more := q + [h];
      assert c.inflight == b.inflight[h := es[0]];
      forall g ensures g in more <==> g in c.inflight {
        assert g in more <==> g in q || g == h;
      }
      assert Held(c.inflight, more) == Held(b.inflight, q) + es;
      assert RuleEvents(b.log) + (Held(b.inflight, q) + es) == emitted + es;
    }
  }

  lemma {:induction false} RestOfQueue(inflight: map<nat, Event>, q: seq<nat>)
    requires q != [] && Distinct(q) && forall h :: h in q <==> h in inflight
    ensures q[0] in q && Distinct(q[1..])
    ensures forall h :: h in q[1..] <==> h in inflight - {q[0]}
  {
    var rest := q[1..];
    assert q == [q[0]] + rest;
    assert forall i :: 0 <= i < |rest| ==> rest[i] == q[i + 1];
    assert q[0] !in rest;
    forall h ensures h in rest <==> h in inflight && h != q[0] {
      assert h in q <==> h == q[0] || h in rest;
    }
  }

  lemma {:induction false} HeldByRest(inflight: map<nat, Event>, q: seq<nat>)
    requires q != [] && (forall h :: h in q ==> h in inflight)
    requires forall h :: h in q[1..] ==> h in inflight - {q[0]}
    requires q[0] in q
    ensures Held(inflight, q) == [inflight[q[0]]] + Held(inflight - {q[0]}, q[1..])
  {
    var more, rest := Held(inflight, q), Held(inflight - {q[0]}, q[1..]);
    forall i | 0 <= i < |rest| ensures more[i + 1] == rest[i] {
      assert q[1..][i] == q[i + 1];
    }
  }

  lemma {:induction false} Regroup(sent: seq<Event>, e: Event, rest: seq<Event>)
    ensures sent + ([e] + rest) == (sent + [e]) + rest
  {}

  lemma {:induction false} QueuedSend(b: Bus, q: seq<nat>, emitted: seq<Event>)
    requires BusOk(b) && q != [] && Queued(b, q, emitted)
    ensures q[0] in b.inflight && Queued(BusNext(b, Send(q[0])), q[1..], emitted)
  {
    RestOfQueue(b.inflight, q);
    HeldByRest(b.inflight, q);
    var e := b.inflight[q[0]];
    RuleEventsNext(b.log, e);
    Regroup(RuleEvents(b.log), e, Held(b.inflight - {q[0]}, q[1..]));
  }

  lemma {:induction false} QueuedStop(b: Bus, q: seq<nat>, emitted: seq<Event>)
    requires Queued(b, q, emitted)
    ensures Queued(BusNext(b, Stop), q, emitted)
  {
    RuleEventsNext(b.log, DaemonStopped);
    assert RuleEvents(b.log) + [] == RuleEvents(b.log);
  }

  lemma {:induction false} QueuedStep(b: Bus, step: BusStep, q: seq<nat>, emitted: seq<Event>)
    requires BusOk(b) && BusEnabled(b, step) && Queued(b, q, emitted)
    requires step.Send? ==> q != [] && q[0] == step.handler
    ensures Queued(BusNext(b, step), QueueAfter(q, b, step), emitted + EmittedBy(b, step))
  {
    match step
    case Mutate(h, op) => QueuedMutate(b, h, op, q, emitted);
    case Send(h) =>
      QueuedSend(b, q, emitted);
      assert emitted + EmittedBy(b, step) == emitted;
    case Stop =>
      QueuedStop(b, q, emitted);
      assert emitted + EmittedBy(b, step) == emitted;
  }

  lemma {:induction false} QueuedInOrder(buses: seq<Bus>, steps: seq<BusStep>, i: nat)
    requires IsBusRun(buses, steps) && InOrder(buses, steps) && i < |buses|
    ensures BusOk(buses[i]) && Queued(buses[i], Queue(buses, steps, i), Emitted(buses, steps, i))
  {
    if i == 0 {
      assert Held(map[], []) == [];
    } else {
      QueuedInOrder(buses, steps, i - 1);
      BusStepOk(buses[i - 1], steps[i - 1]);
      QueuedStep(buses[i - 1], steps[i - 1], Queue(buses, steps, i - 1), Emitted(buses, steps, i - 1));
    }
  }

  /** Whenever sends follow the order of the store changes, folding the dispatched events over the
      initial store gives the daemon's store exactly, once no event is in flight. */
  lemma {:induction false} LogIsComplete(buses: seq<Bus>, steps: seq<BusStep>, i: nat)
    requires IsBusRun(buses, steps) && InOrder(buses, steps) && i < |buses|
    ensures buses[i].inflight == map[] ==> ReplayAll(buses[0].store, buses[i].log) == buses[i].store
  {
    QueuedInOrder(buses, steps, i);
    CommitOrderRebuilds(buses, steps, i);
    StopsReplayToNothing(buses[0].store, buses[i].log);
    var q := Queue(buses, steps, i);
    assert |q| > 0 ==> q[0] in q;
    assert RuleEvents(buses[i].log) + [] == RuleEvents(buses[i].log);
  }

  /** Handlers take turns: none mutates while another has an event to send. */
  ghost predicate Sequential(buses: seq<Bus>, steps: seq<BusStep>)
    requires |buses| == |steps| + 1
  {
    forall i :: 0 <= i < |steps| && steps[i].Mutate? ==> buses[i].inflight == map[]
  }

  lemma {:induction false} OneAtATime(buses: seq<Bus>, steps: seq<BusStep>, i: nat)
    requires IsBusRun(buses, steps) && Sequential(buses, steps) && i < |buses|
    ensures |Queue(buses, steps, i)| <= 1
    ensures forall h :: h in Queue(buses, steps, i) <==> h in buses[i].inflight
  {
    if i > 0 {
      OneAtATime(buses, steps, i - 1);
      var q := Queue(buses, steps, i - 1);
      if q != [] { assert q[0] in q && q == [q[0]]; }
    }
  }

  /** Taking turns is one way to keep the order. */
  lemma {:induction false} TurnsKeepOrder(buses: seq<Bus>, steps: seq<BusStep>)
    requires IsBusRun(buses, steps) && Sequential(buses, steps)
    ensures InOrder(buses, steps)
  {
    forall i | 0 <= i < |steps| && steps[i].Send?
      ensures Queue(buses, steps, i) != [] && Queue(buses, steps, i)[0] == steps[i].handler
    {
      OneAtATime(buses, steps, i);
      assert steps[i].handler in Queue(buses, steps, i);
    }
  }
}
