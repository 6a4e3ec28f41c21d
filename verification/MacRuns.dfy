/** The daemon on macOS with its resolver directory in place of the set of routed domains
    (core/src/dns/sys/mod.rs with core/src/dns/sys/macos.rs). Every run of it, failing file operations
    included, is a run of `Daemon` in which the directory routes exactly the applied domains. */
module MacRuns {
  import opened Names
  import opened Stores
  import opened Requests
  import opened EventBus
  import opened SplitDns
  import W = RulesWatch
  import S = SystemDns
  import D = Daemon
  import opened Residue
  import E = EndToEnd

  datatype State = State(bus: Bus, watch: W.Watch, phase: S.Phase, cursor: nat, dir: Directory)

  /** A step that leaves the directory alone; the start-up or final revert, complete or failing after
      some deletions; an apply of the domains in some order, complete or failing. */
  datatype Step =
    | Elsewhere(step: D.Step)
    | Clear(deleted: Option<set<string>>)
    | Apply(list: seq<string>, fault: Option<FileFault>)

  /** The daemon's state with the given domains applied. */
  function View(s: State, applied: set<string>): D.State {
    D.State(s.bus, s.watch, S.Manager(s.phase, s.cursor, applied))
  }

  predicate TouchesNoFile(step: D.Step) {
    step.OnManager? ==>
      var x := step.manager;
      x.Subscribe? || x.Snapshot? || x.Receive? || x.Skip? || x.Cancel?
  }

  ghost predicate Enabled(s: State, x: Step) {
    match x
    case Elsewhere(step) => TouchesNoFile(step) && D.Enabled(View(s, {}), step)
    case Clear(deleted) =>
      && (s.phase.Starting? || s.phase.Stopping?)
      && (deleted.Some? ==> deleted.value < ManagedNames(FilesIn(s.dir)))
    case Apply(list, fault) =>
      && s.phase.Applying? && S.Lists(list, s.phase.domains)
      && (fault.Some? ==> CanOccur(s.dir, list, fault.value))
  }

  function AfterClear(dir: Directory, deleted: Option<set<string>>): Directory {
    if deleted.None? then Cleared(dir) else if dir.None? then None else Some(dir.value - deleted.value)
  }

  ghost function Next(s: State, x: Step): State
    requires Enabled(s, x)
  {
    match x
    case Elsewhere(step) =>
      var t := D.Next(View(s, {}), step);
      State(t.bus, t.watch, t.manager.phase, t.manager.cursor, s.dir)
    case Clear(deleted) =>
      s.(phase := if s.phase.Starting? then S.Cleaned else S.Stopped, dir := AfterClear(s.dir, deleted))
    case Apply(list, fault) =>
      if fault.None? then s.(phase := S.Listening, dir := Applied(s.dir, list))
      else s.(phase := S.Failed, dir := AfterFault(s.dir, list, fault.value))
  }

  /** The daemon starts over a directory that a predecessor may have left routing `applied`. */
  ghost predicate Init(s: State, applied: set<string>) {
    D.Init(View(s, applied)) && Shows(s.dir, applied)
  }

  ghost predicate IsRun(states: seq<State>, steps: seq<Step>, applied: set<string>) {
    && |states| == |steps| + 1
    && Init(states[0], applied)
    && forall i :: 0 <= i < |steps| ==> Enabled(states[i], steps[i]) && states[i + 1] == Next(states[i], steps[i])
  }

  // --------------------------------------------------------------------- simulation

  /** The step of the daemon that a step here amounts to. */
  ghost function DaemonStep(s: State, x: Step, applied: set<string>): D.Step
    requires Enabled(s, x)
  {
    match x
    case Elsewhere(step) => step
    case Clear(deleted) =>
      var gone := if deleted.None? then applied else DomainsAt(applied, deleted.value);
      D.OnManager(if s.phase.Starting? then S.Clean(deleted.None?, gone) else S.Revert(deleted.None?, gone))
    case Apply(list, fault) =>
      D.OnManager(if fault.None? then S.Apply else S.FailApply(Abstracted(applied, list, fault.value)))
  }

  /** The daemon can take the step, and its next state is seen here again. */
  ghost predicate Matches(s: State, x: Step, applied: set<string>)
    requires Enabled(s, x)
  {
    var step := DaemonStep(s, x, applied);
    && D.Enabled(View(s, applied), step)
    && var t := D.Next(View(s, applied), step);
       t == View(Next(s, x), t.manager.applied) && Shows(Next(s, x).dir, t.manager.applied)
  }

  lemma {:induction false} ElsewhereMatches(s: State, step: D.Step, applied: set<string>)
    requires Enabled(s, Elsewhere(step)) && Shows(s.dir, applied)
    ensures Matches(s, Elsewhere(step), applied)
  {}

  lemma {:induction false} ClearMatches(s: State, deleted: Option<set<string>>, applied: set<string>)
    requires Enabled(s, Clear(deleted)) && Shows(s.dir, applied)
    ensures Matches(s, Clear(deleted), applied)
  {
    CompletedShows(s.dir, []);
    assert applied - applied == {};
    if deleted.Some? { DeletedShows(FilesIn(s.dir), applied, deleted.value); }
  }

  lemma {:induction false} ApplyMatches(s: State, list: seq<string>, fault: Option<FileFault>, applied: set<string>)
    requires Enabled(s, Apply(list, fault)) && Shows(s.dir, applied)
    ensures Matches(s, Apply(list, fault), applied)
  {
    assert Elements(list) == s.phase.domains;
    CompletedShows(s.dir, list);
    if fault.Some? { FaultRefines(s.dir, applied, list, fault.value); }
  }

  lemma {:induction false} StepMatches(s: State, x: Step, applied: set<string>)
    requires Enabled(s, x) && Shows(s.dir, applied)
    ensures Matches(s, x, applied)
  {
    match x
    case Elsewhere(step) => ElsewhereMatches(s, step, applied);
    case Clear(deleted) => ClearMatches(s, deleted, applied);
    case Apply(list, fault) => ApplyMatches(s, list, fault, applied);
  }

  /** Each state is the daemon's, and its directory routes exactly the applied domains. */
  ghost predicate Mirrors(states: seq<State>, n: nat, daemon: seq<D.State>, taken: seq<D.Step>)
    requires n < |states|
  {
    && D.IsRun(daemon, taken) && |taken| == n
    && forall i :: 0 <= i <= n ==>
         && daemon[i] == View(states[i], daemon[i].manager.applied)
         && Shows(states[i].dir, daemon[i].manager.applied)
  }

  lemma {:induction false} RunGrows(daemon: seq<D.State>, taken: seq<D.Step>, step: D.Step)
    requires D.IsRun(daemon, taken) && D.Enabled(daemon[|taken|], step)
    ensures D.IsRun(daemon + [D.Next(daemon[|taken|], step)], taken + [step])
  {}

  /** Every run on files is a run of the daemon, step for step; in every state the resolver directory
      routes exactly the domains that the daemon's theorems are about. */
  lemma {:induction false} FilesMirrorTheRun(states: seq<State>, steps: seq<Step>, applied: set<string>, n: nat)
    returns (daemon: seq<D.State>, taken: seq<D.Step>)
    requires IsRun(states, steps, applied) && n < |states|
    ensures Mirrors(states, n, daemon, taken) && daemon[0].manager.applied == applied
    ensures forall i :: 0 <= i < n ==> taken[i] == DaemonStep(states[i], steps[i], daemon[i].manager.applied)
  {
    if n == 0 {
      daemon, taken := [View(states[0], applied)], [];
    } else {
      var before, until := FilesMirrorTheRun(states, steps, applied, n - 1);
      var s, x, held := states[n - 1], steps[n - 1], before[n - 1].manager.applied;
      StepMatches(s, x, held);
      var step := DaemonStep(s, x, held);
      RunGrows(before, until, step);
      daemon, taken := before + [D.Next(before[n - 1], step)], until + [step];
    }
  }

  // -------------------------------------------------------- what follows for the files

  /** In every state of every run on files, also after failures: what the directory routes is the files
      of a part of what the table held at one moment, or of what a predecessor had left. */
  lemma {:induction false} FilesAreOfOneMoment(states: seq<State>, steps: seq<Step>, applied: set<string>, i: nat)
    requires IsRun(states, steps, applied) && i < |states|
    ensures || Routed(FilesIn(states[i].dir)) <= Routed(FilesIn(states[0].dir))
            || exists j :: 0 <= j <= i && Routed(FilesIn(states[i].dir)) <= NamesOf(StoreDomains(states[j].bus.store))
  {
    var daemon, taken := FilesMirrorTheRun(states, steps, applied, i);
    D.RoutesPartOfOneMoment(daemon, taken, i);
    var now := daemon[i].manager.applied;
    if now <= applied {
      NamesGrow(now, applied);
    } else {
      var j :| 0 <= j <= i && now <= StoreDomains(daemon[j].bus.store);
      assert daemon[j].bus == states[j].bus;
      NamesGrow(now, StoreDomains(states[j].bus.store));
    }
  }

  lemma {:induction false} NamesGrow(a: set<string>, b: set<string>)
    requires a <= b
    ensures NamesOf(a) <= NamesOf(b)
  {}

  /** The step ends the manager and leaves no file that routes: a final revert that completes, or had
      deleted every such file; an apply that fails before it writes, when there was none or all are
      deleted; or one that fails at a write of which, and of those before it, nothing usable is left. */
  ghost predicate LeavesNoRoute(s: State, x: Step)
    requires Enabled(s, x)
  {
    match x
    case Clear(None) => s.phase.Stopping?
    case Clear(Some(deleted)) => s.phase.Stopping? && Routed(FilesIn(s.dir)) <= deleted
    case Apply(_, Some(NoDirectory)) => Routed(FilesIn(s.dir)) == {}
    case Apply(_, Some(NoDelete(deleted))) => Routed(FilesIn(s.dir)) <= deleted
    case Apply(list, Some(NoWrite(at, torn))) => S.NothingWritten(list, at, TearOf(torn))
    case _ => false
  }

  lemma {:induction false} AllGoneIff(dir: Directory, applied: set<string>, deleted: set<string>)
    requires Shows(dir, applied)
    ensures applied <= DomainsAt(applied, deleted) <==> Routed(FilesIn(dir)) <= deleted
    ensures applied == {} <==> Routed(FilesIn(dir)) == {}
  {
    forall d | d in applied ensures DropStarDots(d) in Routed(FilesIn(dir)) {
      assert DropStarDots(d) in NamesOf(applied);
    }
    forall f | f in Routed(FilesIn(dir)) ensures exists d :: d in applied && DropStarDots(d) == f {
      assert f in NamesOf(applied);
    }
    if applied <= DomainsAt(applied, deleted) {
      forall f | f in Routed(FilesIn(dir)) ensures f in deleted {
        var d :| d in applied && DropStarDots(d) == f;
        assert d in DomainsAt(applied, deleted);
      }
    }
  }

  lemma {:induction false} LeavesNoRouteIff(s: State, x: Step, applied: set<string>)
    requires Enabled(s, x) && Shows(s.dir, applied)
    requires D.Ends(DaemonStep(s, x, applied))
    ensures D.LeavesNothing(View(s, applied).manager, DaemonStep(s, x, applied).manager) <==> LeavesNoRoute(s, x)
  {
    AllGoneIff(s.dir, applied, {});
    match x
    case Clear(deleted) => if deleted.Some? { AllGoneIff(s.dir, applied, deleted.value); }
    case Apply(_, fault) => if fault.value.NoDelete? { AllGoneIff(s.dir, applied, fault.value.deleted); }
    case Elsewhere(_) =>
  }

  /** "No residue", on files: once the manager is over, one step of the run ended it, and no file in the
      directory routes a name to the stopped daemon if and only if that step left none. */
  lemma {:induction false} WhatShutdownLeavesOnDisk(states: seq<State>, steps: seq<Step>, applied: set<string>, j: nat) returns (i: nat)
    requires IsRun(states, steps, applied) && j < |states| && S.Over(View(states[j], {}).manager)
    ensures i < j && !S.Over(View(states[i], {}).manager) && S.Over(View(states[i + 1], {}).manager)
    ensures Routed(FilesIn(states[j].dir)) == Routed(FilesIn(states[i + 1].dir))
    ensures Routed(FilesIn(states[j].dir)) == {} <==> LeavesNoRoute(states[i], steps[i])
  {
    var daemon, taken := FilesMirrorTheRun(states, steps, applied, j);
    i := D.WhatShutdownLeaves(daemon, taken, j);
    assert taken[i] == DaemonStep(states[i], steps[i], daemon[i].manager.applied);
    LeavesNoRouteIff(states[i], steps[i], daemon[i].manager.applied);
    AllGoneIff(states[j].dir, daemon[j].manager.applied, {});
  }

  /** The mutations of the run are those of accepted requests, from a sound table on. */
  ghost predicate IsServed(states: seq<State>, steps: seq<Step>) {
    && |states| > 0 && Sound(states[0].bus.store)
    && forall i :: 0 <= i < |steps| && steps[i].Elsewhere? ==> E.IsValidated(steps[i].step)
  }

  /** Once every change is announced, a file of the directory as it then is routes a name if and only if
      the table resolves it, or it is the bare name of a wildcard or a name below an exact rule. */
  lemma {:induction false} DirectoryCovers(states: seq<State>, steps: seq<Step>, applied: set<string>, i: nat, name: string)
    requires IsRun(states, steps, applied) && IsServed(states, steps) && i < |states|
    requires E.Announced(View(states[i], {}))
    ensures var store := states[i].bus.store;
            E.MacRoutes(states[i].dir, name) <==> Resolve(store, name).Some? || CoveredBeside(store, name)
  {
    var daemon, taken := FilesMirrorTheRun(states, steps, applied, i);
    forall k | 0 <= k < |taken| ensures E.IsValidated(taken[k]) {
      assert taken[k] == DaemonStep(states[k], steps[k], daemon[k].manager.applied);
    }
    E.StaysSound(daemon, taken, i);
    D.SystemConverges(daemon, taken, i);
    PlatformsCover(states[i].bus.store, name);
    ShownCovers(states[i].dir, daemon[i].manager.applied, name);
  }

  lemma {:induction false} ShownCovers(dir: Directory, domains: set<string>, name: string)
    requires Shows(dir, domains)
    ensures E.MacRoutes(dir, name) <==> MacCovers(domains, name)
  {
    if f :| f in Routed(FilesIn(dir)) && SpeaksFor(f, name) {
      assert f in NamesOf(domains);
    }
    if d :| d in domains && SpeaksFor(DropStarDots(d), name) {
      assert DropStarDots(d) in NamesOf(domains);
    }
  }
}
