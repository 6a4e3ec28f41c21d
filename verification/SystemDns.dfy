/** The task that keeps the operating system's split-DNS configuration in step with the store
    (core/src/dns/sys/mod.rs, run_system_dns_manager), step by step beside the shared bus.

    `applied` is the set of domains in effect, which the operating system currently routes. */
module SystemDns {
  import opened Stores
  import opened Requests
  import SplitDns
  import opened EventBus

  datatype Phase =
    | Starting
    | Cleaned
    | Refreshing
    | Applying(domains: set<string>)
    | Listening
    | Stopping
    | Stopped
    | Failed

  datatype Manager = Manager(phase: Phase, cursor: nat, applied: set<string>)

  /** How far the write had come at which an apply fails: the file was not opened; or it was, which
      empties it, and what was written is not enough to route, or is. */
  datatype Tear = Unopened | Unusable | Usable

  /** Where an apply stops when it fails. On macOS and Windows it deletes the old configuration first;
      a failure up to then keeps what is not among the `deleted` yet. After that it writes the new one
      domain by domain, in some order, and a failure at number `at` keeps what was written before. On
      systemd nothing takes effect before the reload, which comes last. */
  datatype Fault =
    | Undeleted(deleted: set<string>)
    | Unwritten(order: seq<string>, at: nat, tear: Tear)
    | Unreloaded

  predicate Lists(order: seq<string>, domains: set<string>) {
    && Distinct(order)
    && (forall d :: d in order ==> d in domains)
    && (forall d :: d in domains ==> d in order)
  }

  /** An apply of `domains` can fail this way. */
  predicate CanFail(domains: set<string>, fault: Fault) {
    fault.Unwritten? ==> Lists(fault.order, domains) && fault.at < |fault.order|
  }

  /** The write of number `at` destroyed the file that number `j` had written. */
  predicate Destroyed(order: seq<string>, at: nat, tear: Tear, j: nat)
    requires j < at < |order|
  {
    tear.Unusable? && SplitDns.DropStarDots(order[j]) == SplitDns.DropStarDots(order[at])
  }

  function Left(applied: set<string>, fault: Fault): set<string>
    requires fault.Unwritten? ==> fault.at < |fault.order|
  {
    match fault
    case Undeleted(deleted) => applied - deleted
    case Unwritten(order, at, tear) =>
      (set j | 0 <= j < at && !Destroyed(order, at, tear, j) :: order[j]) + if tear.Usable? then {order[at]} else {}
    case Unreloaded => applied
  }

  /** Nothing of what was written is left: the first write failed, or the failing write destroyed
      the only file written before it, and it left no usable file itself. */
  predicate NothingWritten(order: seq<string>, at: nat, tear: Tear)
    requires at < |order|
  {
    match tear
    case Unopened => at == 0
    case Unusable => forall j :: 0 <= j < at ==> Destroyed(order, at, tear, j)
    case Usable => false
  }

  lemma {:induction false} NothingWrittenIff(applied: set<string>, order: seq<string>, at: nat, tear: Tear)
    requires at < |order|
    ensures Left(applied, Unwritten(order, at, tear)) == {} <==> NothingWritten(order, at, tear)
  {
    var left := Left(applied, Unwritten(order, at, tear));
    forall j | 0 <= j < at && !Destroyed(order, at, tear, j) ensures order[j] in left {}
    assert tear.Usable? ==> order[at] in left;
    assert at > 0 && tear.Unopened? ==> !Destroyed(order, at, tear, 0);
  }

  /** A revert deletes everything, or fails after some deletions, which is logged and ignored. */
  predicate CanDelete(applied: set<string>, ok: bool, deleted: set<string>) {
    ok ==> applied <= deleted
  }

  datatype ManagerStep =
    | Clean(ok: bool, deleted: set<string>)
    | Subscribe
    | Snapshot
    | Apply
    | FailApply(fault: Fault)
    | Receive
    | Skip
    | Cancel
    | Revert(ok: bool, deleted: set<string>)

  predicate ManagerEnabled(b: Bus, m: Manager, step: ManagerStep) {
    match step
    case Clean(ok, deleted) => m.phase.Starting? && CanDelete(m.applied, ok, deleted)
    case Subscribe => m.phase.Cleaned?
    case Snapshot => m.phase.Refreshing?
    case Apply => m.phase.Applying?
    case FailApply(fault) => m.phase.Applying? && CanFail(m.phase.domains, fault)
    case Receive => m.phase.Listening? && Ready(m.cursor, b.log)
    case Skip => m.phase.Listening? && Lags(m.cursor, b.log)
    case Cancel => m.phase.Listening?
    case Revert(ok, deleted) => m.phase.Stopping? && CanDelete(m.applied, ok, deleted)
  }

  /** A failed clean-up is survived; a failed apply ends the task at once, with no revert. */
  function ManagerNext(b: Bus, m: Manager, step: ManagerStep): Manager
    requires ManagerEnabled(b, m, step)
  {
    match step
    case Clean(_, deleted) => m.(phase := Cleaned, applied := m.applied - deleted)
    case Subscribe => m.(phase := Refreshing, cursor := |b.log|)
    case Snapshot => m.(phase := Applying(StoreDomains(b.store)))
    case Apply => m.(phase := Listening, applied := m.phase.domains)
    case FailApply(fault) => m.(phase := Failed, applied := Left(m.applied, fault))
    case Receive =>
      m.(cursor := m.cursor + 1, phase := if IsRuleEvent(b.log[m.cursor]) then Refreshing else Listening)
    case Skip => m.(cursor := Oldest(b.log))
    case Cancel => m.(phase := Stopping)
    case Revert(_, deleted) => m.(phase := Stopped, applied := m.applied - deleted)
  }

  // -------------------------------------------------------------------- convergence

  predicate NoStopYet(log: seq<Event>) {
    forall i :: 0 <= i < |log| ==> IsRuleEvent(log[i])
  }

  /** A rule event that the channel still holds for the manager. */
  predicate RetainedFor(cursor: nat, log: seq<Event>) {
    exists i :: cursor <= i < |log| && Oldest(log) <= i && IsRuleEvent(log[i])
  }

  /** `domains` is what the store routes, or the manager is bound to look again. */
  predicate Current(b: Bus, cursor: nat, domains: set<string>) {
    || domains == StoreDomains(b.store)
    || b.inflight != map[]
    || RetainedFor(cursor, b.log)
  }

  predicate ManagerOk(b: Bus, m: Manager) {
    && m.cursor <= |b.log|
    && (m.phase.Listening? && NoStopYet(b.log) ==> Current(b, m.cursor, m.applied))
    && (m.phase.Applying? && NoStopYet(b.log) ==> Current(b, m.cursor, m.phase.domains))
    && (m.phase.Starting? || m.phase.Cleaned? ==> m.cursor == 0)
  }

  lemma {:induction false} CurrentUnderBus(b: Bus, step: BusStep, cursor: nat, domains: set<string>)
    requires BusOk(b) && BusEnabled(b, step) && cursor <= |b.log|
    requires NoStopYet(BusNext(b, step).log) && Current(b, cursor, domains)
    ensures Current(BusNext(b, step), cursor, domains)
  {
    var c := BusNext(b, step);
    if step.Mutate? {
      EventReplaysOp(b.store, step.op);
      if c.store != b.store { assert step.handler in c.inflight; }
    } else if |c.log| > |b.log| {
      assert IsRuleEvent(c.log[|b.log|]);
    }
  }

  lemma {:induction false} ManagerUnderBus(b: Bus, m: Manager, step: BusStep)
    requires BusOk(b) && BusEnabled(b, step) && ManagerOk(b, m)
    ensures ManagerOk(BusNext(b, step), m)
  {
    var c := BusNext(b, step);
    if NoStopYet(c.log) {
      assert forall i :: 0 <= i < |b.log| ==> c.log[i] == b.log[i];
      if m.phase.Listening? { CurrentUnderBus(b, step, m.cursor, m.applied); }
      if m.phase.Applying? { CurrentUnderBus(b, step, m.cursor, m.phase.domains); }
    }
  }

  /** Dropping the oldest events cannot hide a change: the newest event is always retained. */
  lemma {:induction false} SkipKeepsCurrent(b: Bus, m: Manager)
    requires ManagerEnabled(b, m, Skip) && NoStopYet(b.log)
    ensures RetainedFor(Oldest(b.log), b.log)
  {
    assert IsRuleEvent(b.log[|b.log| - 1]);
  }

  lemma {:induction false} ManagerUnderManager(b: Bus, m: Manager, step: ManagerStep)
    requires ManagerEnabled(b, m, step) && ManagerOk(b, m)
    ensures ManagerOk(b, ManagerNext(b, m, step))
  {}

  // -------------------------------------------------------------------- catching up

  ghost predicate IsTrace(b: Bus, managers: seq<Manager>, steps: seq<ManagerStep>) {
    && |managers| == |steps| + 1
    && forall i :: 0 <= i < |steps| ==>
         ManagerEnabled(b, managers[i], steps[i]) && managers[i + 1] == ManagerNext(b, managers[i], steps[i])
  }

  /** The task has not been told to stop and has not failed. */
  predicate Alive(m: Manager) { !m.phase.Stopping? && !Over(m) }

  predicate AtRest(b: Bus, m: Manager) { m.phase.Listening? && m.cursor == |b.log| }

  /** Neither a cancellation nor a failure. */
  predicate Advances(step: ManagerStep) { !step.Cancel? && !step.FailApply? }

  /** What the task does next; apart from a failing clean-up there is no choice. */
  function NextInLine(b: Bus, m: Manager): (step: ManagerStep)
    requires Alive(m) && m.cursor <= |b.log| && !AtRest(b, m)
    ensures ManagerEnabled(b, m, step) && Advances(step)
    ensures forall other :: ManagerEnabled(b, m, other) && Advances(other) ==> other == step || (other.Clean? && step.Clean?)
  {
    match m.phase
    case Starting => Clean(true, m.applied)
    case Cleaned => Subscribe
    case Refreshing => Snapshot
    case Applying(_) => Apply
    case Listening => if Lags(m.cursor, b.log) then Skip else Receive
  }

  function Rank(p: Phase): nat {
    match p
    case Starting => 4
    case Cleaned => 3
    case Refreshing => 2
    case Applying(_) => 1
    case _ => 0
  }

  /** A bound on the steps the task still has before it. */
  function Work(b: Bus, m: Manager): nat
    requires m.cursor <= |b.log|
  {
    3 * (|b.log| - m.cursor) + Rank(m.phase)
  }

  lemma {:induction false} WorkStep(b: Bus, m: Manager, step: ManagerStep)
    requires ManagerEnabled(b, m, step) && Advances(step) && Alive(m) && ManagerOk(b, m)
    ensures var n := ManagerNext(b, m, step);
            Alive(n) && ManagerOk(b, n) && Work(b, n) < Work(b, m)
  {}

  /** Every trace of the task, not just one, brings the operating system to the store's domains: with
      nothing in flight, no trace without cancellation or failure is longer than the work at its
      start, one that has come to rest shows the store's domains, and one that has not can go on. */
  lemma {:induction false} EveryTraceCatchesUp(b: Bus, managers: seq<Manager>, steps: seq<ManagerStep>)
    requires IsTrace(b, managers, steps) && forall i :: 0 <= i < |steps| ==> Advances(steps[i])
    requires Alive(managers[0]) && ManagerOk(b, managers[0]) && b.inflight == map[] && NoStopYet(b.log)
    ensures var end := managers[|steps|];
            && Alive(end) && ManagerOk(b, end)
            && |steps| + Work(b, end) <= Work(b, managers[0])
            && (AtRest(b, end) ==> end.applied == StoreDomains(b.store))
            && (!AtRest(b, end) ==> ManagerEnabled(b, end, NextInLine(b, end)))
  {
    var n := |steps|;
    if n > 0 {
      EveryTraceCatchesUp(b, managers[..n], steps[..n - 1]);
      WorkStep(b, managers[n - 1], steps[n - 1]);
    }
  }

  /** And there is such a trace that comes to rest. */
  lemma {:induction false} ManagerCatchesUp(b: Bus, m: Manager) returns (managers: seq<Manager>, steps: seq<ManagerStep>)
    requires Alive(m) && ManagerOk(b, m) && b.inflight == map[] && NoStopYet(b.log)
    ensures IsTrace(b, managers, steps) && managers[0] == m && |steps| <= Work(b, m)
    ensures AtRest(b, managers[|steps|]) && managers[|steps|].applied == StoreDomains(b.store)
    decreases Work(b, m)
  {
    if AtRest(b, m) {
      managers, steps := [m], [];
    } else {
      var step := NextInLine(b, m);
      WorkStep(b, m, step);
      var rest, more := ManagerCatchesUp(b, ManagerNext(b, m, step));
      managers, steps := [m] + rest, [step] + more;
    }
  }

  // ------------------------------------------------------------------------ shutdown

  predicate Over(m: Manager) { m.phase.Stopped? || m.phase.Failed? }

  /** No step is left once the task is over: a failed apply is never followed by a revert. */
  lemma {:induction false} OverIsFinal(b: Bus, m: Manager, step: ManagerStep)
    requires Over(m)
    ensures !ManagerEnabled(b, m, step)
  {}
}
