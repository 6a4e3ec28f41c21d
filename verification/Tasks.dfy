/** The two background tasks as the loops they are, on the objects they update: the rules-watch
    task (core/src/runner.rs) and the system DNS manager on macOS (core/src/dns/sys/mod.rs).
    A task receives what its broadcast receiver yields, turn by turn; interference inside a turn is
    the subject of `Daemon`. */
module Tasks {
  import opened Names
  import opened Rules
  import opened Stores
  import opened Requests
  import opened Resolver
  import opened AppStates
  import opened SplitDns

  // --------------------------------------------------------------- the rules-watch task

  /** What one turn of the watcher finds: an event, with the store as the other tasks have left it
      by then and the order in which a save would walk its hash map; or a notice of lag. */
  datatype Delivery = Got(event: Event, store: Store, order: seq<string>) | Lagged

  ghost predicate Readable(turns: seq<Delivery>) {
    forall i :: 0 <= i < |turns| && turns[i].Got? ==> Visits(turns[i].order, turns[i].store.per.exact)
  }

  function Delivered(turns: seq<Delivery>): seq<Event> {
    if turns == [] then []
    else
      var last := turns[|turns| - 1];
      Delivered(turns[..|turns| - 1]) + if last.Got? then [last.event] else []
  }

  /** The snapshot taken at the last persistent event, if there was one. */
  ghost function LastSnapshot(turns: seq<Delivery>): Option<seq<Rule>>
    requires Readable(turns)
  {
    if turns == [] then None
    else
      var last := turns[|turns| - 1];
      if last.Got? && IsPersistent(last.event) then Some(PersistentRules(last.store, last.order))
      else LastSnapshot(turns[..|turns| - 1])
  }

  lemma {:induction false} ConcernsNext(events: seq<Event>, e: Event, name: string)
    ensures AnyConcerns(events + [e], name) <==> AnyConcerns(events, name) || Concerns(e, name)
  {
    var more := events + [e];
    assert more[|events|] == e && forall j :: 0 <= j < |events| ==> more[j] == events[j];
  }

  /** Drops exactly the names that some delivered event concerns, and leaves the snapshot of the last
      persistent event saved; a lagged turn does neither, and the store may change between turns. */
  method WatchRules<Cert(==)>(resolver: DomainResolver<Cert>, state: AppState, turns: seq<Delivery>)
    returns (saved: Option<seq<Rule>>)
    requires Readable(turns)
    modifies resolver, state
    ensures forall k :: k in resolver.cache <==> k in old(resolver.cache) && !AnyConcerns(Delivered(turns), k)
    ensures forall k :: k in resolver.certs <==> k in old(resolver.certs) && !AnyConcerns(Delivered(turns), k)
    ensures forall k :: k in resolver.cache ==> resolver.cache[k] == old(resolver.cache)[k]
    ensures forall k :: k in resolver.certs ==> resolver.certs[k] == old(resolver.certs)[k]
    ensures saved == LastSnapshot(turns)
    ensures saved.Some? <==> AnyPersistent(Delivered(turns))
  {
    saved := None;
    assert turns[..0] == [];
    for i := 0 to |turns|
      invariant forall k :: k in resolver.cache <==> k in old(resolver.cache) && !AnyConcerns(Delivered(turns[..i]), k)
      invariant forall k :: k in resolver.certs <==> k in old(resolver.certs) && !AnyConcerns(Delivered(turns[..i]), k)
      invariant forall k :: k in resolver.cache ==> resolver.cache[k] == old(resolver.cache)[k]
      invariant forall k :: k in resolver.certs ==> resolver.certs[k] == old(resolver.certs)[k]
      invariant saved == LastSnapshot(turns[..i])
    {
      assert turns[..i + 1][..i] == turns[..i];
      match turns[i]
      case Lagged =>
        assert Delivered(turns[..i + 1]) == Delivered(turns[..i]);
      case Got(event, store, order) =>
        forall k { ConcernsNext(Delivered(turns[..i]), event, k); }
        state.store := store;
        var file := OnEvent(resolver, state, event, order);
        saved := if file.Some? then file else saved;
    }
    assert turns[..|turns|] == turns;
    SavedIffPersistent(turns);
  }

  lemma {:induction false} SavedIffPersistent(turns: seq<Delivery>)
    requires Readable(turns)
    ensures LastSnapshot(turns).Some? <==> AnyPersistent(Delivered(turns))
  {
    if turns != [] {
      var front, last := turns[..|turns| - 1], turns[|turns| - 1];
      SavedIffPersistent(front);
      var before, now := Delivered(front), Delivered(turns);
      assert forall j :: 0 <= j < |before| ==> now[j] == before[j];
      if last.Got? { assert now[|before|] == last.event; }
    }
  }

  /** One event in the hands of the watcher. */
  method OnEvent<Cert(==)>(resolver: DomainResolver<Cert>, state: AppState, event: Event, order: seq<string>)
    returns (file: Option<seq<Rule>>)
    requires Visits(order, state.store.per.exact)
    modifies resolver
    ensures forall k :: k in resolver.cache <==> k in old(resolver.cache) && !Concerns(event, k)
    ensures forall k :: k in resolver.certs <==> k in old(resolver.certs) && !Concerns(event, k)
    ensures forall k :: k in resolver.cache ==> resolver.cache[k] == old(resolver.cache)[k]
    ensures forall k :: k in resolver.certs ==> resolver.certs[k] == old(resolver.certs)[k]
    ensures file == if IsPersistent(event) then Some(PersistentRules(state.store, order)) else None
  {
    file := None;
    match event
    case RuleAdded(rule) =>
      resolver.InvalidateBy(rule);
      var rules := state.Save(order);
      file := Some(rules);
    case RuleRemoved(rule) =>
      resolver.InvalidateBy(rule);
      var rules := state.Save(order);
      file := Some(rules);
    case EphemeralAdded(rule) =>
      resolver.InvalidateBy(rule);
    case EphemeralRemoved(rule) =>
      resolver.InvalidateBy(rule);
    case DaemonStopped =>
  }

  // ------------------------------------------------------------ the system DNS manager

  /** One turn of the manager: a rule event comes with the domains its snapshot finds. */
  datatype Turn = Refresh(domains: seq<string>) | Nothing

  /** Every file name that was written at some time during a run. */
  function EverRouted(first: seq<string>, turns: seq<Turn>): set<string> {
    if turns == [] then FileNames(first)
    else
      var last := turns[|turns| - 1];
      EverRouted(first, turns[..|turns| - 1]) + if last.Refresh? then FileNames(last.domains) else {}
  }

  /** The domains of the last rule event, or the first ones. */
  function LastRefreshed(first: seq<string>, turns: seq<Turn>): seq<string> {
    if turns == [] then first
    else
      var last := turns[|turns| - 1];
      if last.Refresh? then last.domains else LastRefreshed(first, turns[..|turns| - 1])
  }

  /** The directory while `current` is applied and `names` have been written so far. */
  function During(files: Files, names: set<string>, current: seq<string>): Directory {
    Some(WithContent(Untouched(files, names), FileNames(current)))
  }

  lemma {:induction false} ApplyAgain(files: Files, names: set<string>, earlier: seq<string>, later: seq<string>)
    requires FileNames(earlier) <= names
    ensures Applied(During(files, names, earlier), later) == During(files, names + FileNames(later), later)
  {
    ContentIsManaged();
    var was, now := FileNames(earlier), FileNames(later);
    assert Unmanaged(WithContent(Untouched(files, names), was)) == Untouched(files, names);
    assert WithContent(Untouched(files, names), now) == WithContent(Untouched(files, names + now), now);
  }

  lemma {:induction false} ApplyFirst(dir: Directory, first: seq<string>)
    ensures Applied(Cleared(dir), first) == During(FilesIn(dir), FileNames(first), first)
  {
    var files, names := FilesIn(dir), FileNames(first);
    assert WithContent(Unmanaged(Unmanaged(files)), names) == WithContent(Untouched(files, names), names);
    assert FilesIn(Cleared(dir)) == Unmanaged(files);
  }

  lemma {:induction false} RevertLast(files: Files, names: set<string>, last: seq<string>)
    requires FileNames(last) <= names
    ensures Cleared(During(files, names, last)) == Some(Untouched(files, names))
  {
    ContentIsManaged();
    assert Unmanaged(WithContent(Untouched(files, names), FileNames(last))) == Untouched(files, names);
  }

  lemma {:induction false} NextTurn(first: seq<string>, turns: seq<Turn>, i: nat)
    requires i < |turns|
    ensures turns[i].Refresh? ==>
            && EverRouted(first, turns[..i + 1]) == EverRouted(first, turns[..i]) + FileNames(turns[i].domains)
            && LastRefreshed(first, turns[..i + 1]) == turns[i].domains
    ensures turns[i].Nothing? ==>
            && EverRouted(first, turns[..i + 1]) == EverRouted(first, turns[..i])
            && LastRefreshed(first, turns[..i + 1]) == LastRefreshed(first, turns[..i])
  {
    assert turns[..i + 1][..i] == turns[..i];
  }

  lemma {:induction false} LastWasRouted(first: seq<string>, turns: seq<Turn>)
    ensures FileNames(LastRefreshed(first, turns)) <= EverRouted(first, turns)
  {
    if turns != [] { LastWasRouted(first, turns[..|turns| - 1]); }
  }

  method Reapply(os: ResolverDirectory, ghost files: Files, ghost names: set<string>, ghost earlier: seq<string>, domains: seq<string>)
    requires FileNames(earlier) <= names && os.dir == During(files, names, earlier)
    modifies os
    ensures os.dir == During(files, names + FileNames(domains), domains)
  {
    ApplyAgain(files, names, earlier, domains);
    os.Apply(domains);
  }

  /** The event loop: it ends with the domains of the last rule event applied, beside the user's files
      whose names were never routed. */
  method FollowEvents(os: ResolverDirectory, ghost files: Files, first: seq<string>, turns: seq<Turn>)
    returns (current: seq<string>)
    requires os.dir == During(files, FileNames(first), first)
    modifies os
    ensures current == LastRefreshed(first, turns)
    ensures os.dir == During(files, EverRouted(first, turns), current)
  {
    current := first;
    assert turns[..0] == [];
    for i := 0 to |turns|
      invariant current == LastRefreshed(first, turns[..i])
      invariant os.dir == During(files, EverRouted(first, turns[..i]), current)
    {
      NextTurn(first, turns, i);
      LastWasRouted(first, turns[..i]);
      match turns[i]
      case Refresh(domains) =>
        Reapply(os, files, EverRouted(first, turns[..i]), current, domains);
        current := domains;
      case Nothing =>
    }
    assert turns[..|turns|] == turns;
  }

  /** A whole life of the manager, all file operations succeeding: clean up, apply, follow the
      events, and revert on shutdown. What remains is a directory, created if there was none, with
      what the user had in it less every file that bore the name of a domain routed at any time. */
  method RunSystemDnsManager(os: ResolverDirectory, first: seq<string>, turns: seq<Turn>)
    modifies os
    ensures os.dir == Some(Untouched(FilesIn(old(os.dir)), EverRouted(first, turns)))
    ensures ManagedNames(os.dir.value) == {}
  {
    ghost var before := os.dir;
    os.Revert();
    ApplyFirst(before, first);
    os.Apply(first);
    var last := FollowEvents(os, FilesIn(before), first, turns);
    LastWasRouted(first, turns);
    RevertLast(FilesIn(before), EverRouted(first, turns), last);
    os.Revert();
  }

  /** "Your machine is exactly as you left it": true of a whole run if and only if the directory
      existed, held no managed file at the start and no file named like a domain routed during the
      run. */
  lemma {:induction false} RunRestoresIff(dir: Directory, first: seq<string>, turns: seq<Turn>)
    ensures Some(Untouched(FilesIn(dir), EverRouted(first, turns))) == dir <==>
            Restorable(dir, EverRouted(first, turns))
  {
    UntouchedIsAllIff(dir, EverRouted(first, turns));
  }
}
