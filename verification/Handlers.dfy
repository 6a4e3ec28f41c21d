/** Request handlers on the copy-and-swap cell (core/src/ipc/handler.rs over core/src/store.rs): each
    runs its store operation with all its retries, and sends its event once the operation has
    returned. Every run of them is a run of the bus, in which a store operation is one step. */
module Handlers {
  import opened Names
  import opened Stores
  import opened Requests
  import opened EventBus
  import Rcu

  /** `owed` holds the event of each handler from its swap until it is sent. */
  datatype State = State(cell: Rcu.State, owed: map<nat, Event>, log: seq<Event>)

  datatype Step =
    | OnCell(step: Rcu.Step)
    | Dispatch(handler: nat)
    | Halt

  predicate Enabled(s: State, x: Step) {
    match x
    case OnCell(step) => Rcu.Enabled(s.cell, step) && (step.Begin? ==> step.w !in s.owed && !step.op.AddAll?)
    case Dispatch(h) => h in s.owed && Rcu.WriterAt(s.cell, h).Idle?
    case Halt => true
  }

  /** The swap that succeeds. */
  predicate Commits(s: Rcu.State, step: Rcu.Step) {
    step.Swap? && Rcu.WriterAt(s, step.w).Computed? && Rcu.WriterAt(s, step.w).seen == s.version
  }

  function Owing(owed: map<nat, Event>, h: nat, e: Option<Event>): map<nat, Event> {
    if e.Some? then owed[h := e.value] else owed
  }

  function Next(s: State, x: Step): State
    requires Enabled(s, x)
  {
    match x
    case OnCell(step) =>
      var cell := Rcu.Next(s.cell, step);
      if Commits(s.cell, step) then
        var p := Rcu.WriterAt(s.cell, step.w);
        s.(cell := cell, owed := Owing(s.owed, step.w, EventOf(p.op, p.removed)))
      else s.(cell := cell)
    case Dispatch(h) => s.(owed := s.owed - {h}, log := s.log + [s.owed[h]])
    case Halt => s.(log := s.log + [DaemonStopped])
  }

  ghost predicate IsRun(states: seq<State>, steps: seq<Step>) {
    && |states| == |steps| + 1
    && Rcu.Init(states[0].cell) && WellFormed(states[0].cell.current) && states[0].owed == map[] && states[0].log == []
    && forall i :: 0 <= i < |steps| ==> Enabled(states[i], steps[i]) && states[i + 1] == Next(states[i], steps[i])
  }

  // --------------------------------------------------------------------- refinement

  function View(s: State): Bus { Bus(s.cell.current, s.owed, s.log) }

  /** The step of the bus that a step here amounts to, if any. */
  function BusStepOf(s: State, x: Step): Option<BusStep> {
    match x
    case OnCell(step) =>
      if Commits(s.cell, step) then Some(Mutate(step.w, Rcu.WriterAt(s.cell, step.w).op)) else None
    case Dispatch(h) => Some(Send(h))
    case Halt => Some(Stop)
  }

  /** A handler that owes an event has swapped or returned, and none loads in bulk. */
  predicate Orderly(s: State) {
    && (forall h :: h in s.owed ==> Rcu.WriterAt(s.cell, h).Idle? || Rcu.WriterAt(s.cell, h).Swapped?)
    && (forall w :: w in s.cell.writers && !s.cell.writers[w].Idle? ==> !s.cell.writers[w].op.AddAll?)
  }

  lemma {:induction false} OrderlyStep(s: State, x: Step)
    requires Orderly(s) && Enabled(s, x)
    ensures Orderly(Next(s, x))
  {}

  /** Loading, computing, failing, retrying and returning are invisible; the successful swap performs
      the whole operation at once. */
  lemma {:induction false} StepRefines(init: Store, s: State, x: Step)
    requires Rcu.Consistent(init, s.cell) && Orderly(s) && Enabled(s, x)
    ensures var y := BusStepOf(s, x);
            if y.None? then View(Next(s, x)) == View(s)
            else BusEnabled(View(s), y.value) && View(Next(s, x)) == BusNext(View(s), y.value)
  {
    if x.OnCell? && Commits(s.cell, x.step) {
      var p := Rcu.WriterAt(s.cell, x.step.w);
      assert Rcu.ConsistentWriter(init, s.cell.commits, p);
      assert Outcome(p.next, p.removed) == Perform(s.cell.current, p.op);
    }
  }

  lemma {:induction false} StaysOrderly(states: seq<State>, steps: seq<Step>, i: nat)
    requires IsRun(states, steps) && i < |states|
    ensures Rcu.Consistent(states[0].cell.current, states[i].cell) && Orderly(states[i])
  {
    if i > 0 {
      StaysOrderly(states, steps, i - 1);
      var s, x := states[i - 1], steps[i - 1];
      OrderlyStep(s, x);
      if x.OnCell? { Rcu.ConsistentStep(states[0].cell.current, s.cell, x.step); }
    }
  }

  /** The mutations of a bus run, as the commits they stand for, less what they answered. */
  function Mutations(steps: seq<BusStep>): seq<(nat, Op)> {
    if steps == [] then []
    else
      var last := steps[|steps| - 1];
      Mutations(steps[..|steps| - 1]) + if last.Mutate? then [(last.handler, last.op)] else []
  }

  function Committed(commits: seq<Rcu.Commit>): seq<(nat, Op)> {
    seq(|commits|, i requires 0 <= i < |commits| => (commits[i].writer, commits[i].op))
  }

  /** State `i` is seen on the bus after `at[i]` of its steps. */
  ghost predicate Follows(states: seq<State>, n: nat, buses: seq<Bus>, taken: seq<BusStep>, at: seq<nat>)
    requires n < |states|
  {
    && IsBusRun(buses, taken)
    && |at| == n + 1 && at[0] == 0 && at[n] == |taken|
    && (forall i :: 0 <= i <= n ==> at[i] < |buses| && buses[at[i]] == View(states[i]))
    && (forall i :: 0 <= i < n ==> at[i] <= at[i + 1] <= at[i] + 1)
    && Mutations(taken) == Committed(states[n].cell.commits)
  }

  lemma {:induction false} BusRunGrows(buses: seq<Bus>, taken: seq<BusStep>, y: BusStep)
    requires IsBusRun(buses, taken) && BusEnabled(buses[|taken|], y)
    ensures IsBusRun(buses + [BusNext(buses[|taken|], y)], taken + [y])
  {}

  lemma {:induction false} CommitsGrow(s: State, x: Step)
    requires Enabled(s, x)
    ensures var y := BusStepOf(s, x);
            Committed(Next(s, x).cell.commits) ==
            Committed(s.cell.commits) + if y.Some? && y.value.Mutate? then [(y.value.handler, y.value.op)] else []
  {}

  lemma {:induction false} MutationsGrow(taken: seq<BusStep>, y: BusStep)
    ensures Mutations(taken + [y]) == Mutations(taken) + if y.Mutate? then [(y.handler, y.op)] else []
  {
    assert (taken + [y])[..|taken|] == taken;
  }

  lemma {:induction false} FollowsOn(states: seq<State>, steps: seq<Step>, n: nat, buses: seq<Bus>, taken: seq<BusStep>, at: seq<nat>)
    returns (more: seq<Bus>, longer: seq<BusStep>, further: seq<nat>)
    requires IsRun(states, steps) && n < |steps| && Follows(states, n, buses, taken, at)
    ensures Follows(states, n + 1, more, longer, further)
  {
    var s, x := states[n], steps[n];
    StaysOrderly(states, steps, n);
    StepRefines(states[0].cell.current, s, x);
    CommitsGrow(s, x);
    match BusStepOf(s, x)
    case None =>
      more, longer, further := buses, taken, at + [|taken|];
      assert Committed(s.cell.commits) + [] == Committed(s.cell.commits);
    case Some(y) =>
      BusRunGrows(buses, taken, y);
      MutationsGrow(taken, y);
      more, longer, further := buses + [BusNext(buses[|taken|], y)], taken + [y], at + [|taken| + 1];
  }

  /** Every run of handlers on the cell, under any schedule and with any number of retries, is a run
      of the bus with the same store, events in flight and log at every moment, whose mutations are
      the commits of the cell, in their order. So what holds in every run of the bus holds here. */
  lemma {:induction false} RunsAreBusRuns(states: seq<State>, steps: seq<Step>, n: nat)
    returns (buses: seq<Bus>, taken: seq<BusStep>, at: seq<nat>)
    requires IsRun(states, steps) && n < |states|
    ensures Follows(states, n, buses, taken, at)
  {
    if n == 0 {
      buses, taken, at := [View(states[0])], [], [0];
    } else {
      buses, taken, at := RunsAreBusRuns(states, steps, n - 1);
      buses, taken, at := FollowsOn(states, steps, n - 1, buses, taken, at);
    }
  }

  /** For instance: however writers retry and sends interleave, the log is made of the events of the
      commits, and the store is what the commits' events rebuild in their order. */
  lemma {:induction false} CellRebuilds(states: seq<State>, steps: seq<Step>, n: nat) returns (emitted: seq<Event>)
    requires IsRun(states, steps) && n < |states|
    ensures ReplayAll(states[0].cell.current, emitted) == states[n].cell.current
    ensures forall e :: IsRuleEvent(e) ==> Sent(View(states[n]), e) == multiset(emitted)[e]
  {
    var buses, taken, at := RunsAreBusRuns(states, steps, n);
    emitted := Emitted(buses, taken, |taken|);
    CommitOrderRebuilds(buses, taken, |taken|);
    forall e | IsRuleEvent(e) ensures Sent(View(states[n]), e) == multiset(emitted)[e] {
      EveryCommitIsSentOnce(buses, taken, |taken|, e);
    }
  }
}
