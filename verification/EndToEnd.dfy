/** From a request to the operating system: in runs whose mutations come from validated requests, the
    configuration that is written out covers what the daemon answers. */
module EndToEnd {
  import opened Stores
  import opened Requests
  import opened EventBus
  import opened SplitDns
  import W = RulesWatch
  import S = SystemDns
  import opened Daemon

  // ------------------------------------------------------------- validated requests

  /** The step is no mutation, or the mutation of an accepted request. */
  predicate IsValidated(step: Step) {
    step.OnBus? && step.bus.Mutate? ==> !step.bus.op.AddAll? && CanonicalName(Subject(step.bus.op))
  }

  lemma {:induction false} RequestsAreValidated(handler: nat, req: Request)
    requires OpOf(req).Some?
    ensures IsValidated(OnBus(Mutate(handler, OpOf(req).value)))
  {
    LoweredIsCanonical(req.domain);
  }

  ghost predicate IsServed(states: seq<State>, steps: seq<Step>) {
    && IsRun(states, steps)
    && Sound(states[0].bus.store)
    && forall i :: 0 <= i < |steps| ==> IsValidated(steps[i])
  }

  lemma {:induction false} SoundStep(s: State, step: Step)
    requires Enabled(s, step) && IsValidated(step) && Sound(s.bus.store)
    ensures Sound(Next(s, step).bus.store)
  {
    if step.OnBus? && step.bus.Mutate? {
      PerformWellFormed(s.bus.store, step.bus.op);
      OpKeepsCanonical(s.bus.store, step.bus.op);
    }
  }

  /** The table stays sound in every state, whatever the tasks do meanwhile. */
  lemma {:induction false} StaysSound(states: seq<State>, steps: seq<Step>, i: nat)
    requires IsServed(states, steps) && i < |states|
    ensures Sound(states[i].bus.store)
  {
    if i > 0 {
      StaysSound(states, steps, i - 1);
      SoundStep(states[i - 1], steps[i - 1]);
    }
  }

  // --------------------------------------------------------- the written configuration

  /** Some file in the resolver directory that routes speaks for the name. */
  predicate MacRoutes(dir: Directory, name: string) {
    exists f :: f in Routed(FilesIn(dir)) && SpeaksFor(f, name)
  }

  predicate SystemdRoutes(entries: seq<string>, name: string) {
    exists i :: 0 <= i < |entries| && |entries[i]| >= 1 && SpeaksFor(RoutingName(entries[i]), name)
  }

  lemma {:induction false} FilesCover(dir: Directory, list: seq<string>, domains: set<string>, name: string)
    requires S.Lists(list, domains)
    ensures MacRoutes(Applied(dir, list), name) <==> MacCovers(domains, name)
  {
    AppliedIsRouted(dir, list);
    if MacRoutes(Applied(dir, list), name) {
      var f :| f in FileNames(list) && SpeaksFor(f, name);
      var i :| 0 <= i < |list| && DropStarDots(list[i]) == f;
      assert list[i] in list;
    }
    if d :| d in domains && SpeaksFor(DropStarDots(d), name) {
      assert d in list;
      assert DropStarDots(d) in FileNames(list);
    }
  }

  lemma {:induction false} EntriesCover(list: seq<string>, domains: set<string>, name: string)
    requires S.Lists(list, domains)
    ensures SystemdRoutes(SystemdEntries(list), name) <==> SystemdCovers(domains, name)
  {
    var entries := SystemdEntries(list);
    if i :| 0 <= i < |entries| && |entries[i]| >= 1 && SpeaksFor(RoutingName(entries[i]), name) {
      assert list[i] in list;
    }
    if d :| d in domains && SpeaksFor(RoutingName(SystemdEntry(d)), name) {
      assert d in list;
      var i :| 0 <= i < |list| && list[i] == d;
      assert |entries[i]| >= 1;
    }
  }

  /** The daemon has told the operating system of every change. */
  predicate Announced(s: State) {
    && s.manager.phase.Listening? && S.NoStopYet(s.bus.log)
    && s.bus.inflight == map[] && !S.RetainedFor(s.manager.cursor, s.bus.log)
  }

  /** End to end, from the requests to the files: once every change is announced, the resolver files
      and the systemd entries written for the applied domains, in any order and over any directory,
      route every name the table resolves, and beyond those exactly the bare names of wildcards and
      the names below exact rules. */
  lemma {:induction false} WrittenConfigurationCovers(states: seq<State>, steps: seq<Step>, i: nat, dir: Directory, list: seq<string>, name: string)
    requires IsServed(states, steps) && i < |states| && Announced(states[i])
    requires S.Lists(list, states[i].manager.applied)
    ensures var store := states[i].bus.store;
            && (MacRoutes(Applied(dir, list), name) <==> Resolve(store, name).Some? || CoveredBeside(store, name))
            && (SystemdRoutes(SystemdEntries(list), name) <==> Resolve(store, name).Some? || CoveredBeside(store, name))
  {
    SystemConverges(states, steps, i);
    StaysSound(states, steps, i);
    PlatformsCover(states[i].bus.store, name);
    FilesCover(dir, list, states[i].manager.applied, name);
    EntriesCover(list, states[i].manager.applied, name);
  }

  /** And from the cache to the files: at rest, a query the caching resolver answers is one that the
      operating system sends to the daemon. */
  lemma {:induction false} AnsweredNamesAreRouted(states: seq<State>, steps: seq<Step>, i: nat, dir: Directory, list: seq<string>, name: string)
    requires IsServed(states, steps) && Undisturbed(states, steps) && NeverNested(states)
    requires i < |states| && Announced(states[i]) && W.Quiet(states[i].bus, states[i].watch)
    requires S.Lists(list, states[i].manager.applied)
    ensures W.CachedAnswer(states[i].bus, states[i].watch, name).Some? ==>
            MacRoutes(Applied(dir, list), name) && SystemdRoutes(SystemdEntries(list), name)
  {
    CoherentAtRest(states, steps, i, name);
    WrittenConfigurationCovers(states, steps, i, dir, list, name);
  }
}
