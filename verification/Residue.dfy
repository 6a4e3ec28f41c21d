/** What an apply that fails leaves behind (core/src/dns/sys/macos.rs, core/src/dns/sys/mod.rs): file
    by file in the macOS resolver directory, and domain by domain in runs of the daemon. */
module Residue {
  import opened Names
  import opened Rules
  import Domains
  import opened Stores
  import opened SplitDns
  import S = SystemDns
  import D = Daemon
  import opened StaleCache

  // --------------------------------------------------------- an apply that can fail

  /** The file operation at which an apply stops. A torn write has opened its file, which empties
      it, and written only the given number of bytes. */
  datatype FileFault =
    | NoDirectory
    | NoDelete(deleted: set<string>)
    | NoWrite(at: nat, torn: Option<nat>)

  predicate CanOccur(dir: Directory, domains: seq<string>, fault: FileFault) {
    match fault
    case NoDirectory => true
    case NoDelete(deleted) => deleted < ManagedNames(FilesIn(dir))
    case NoWrite(at, torn) => at < |domains| && (torn.Some? ==> torn.value < |CONTENT|)
  }

  function Torn(files: Files, name: string, torn: Option<nat>): Files
    requires torn.Some? ==> torn.value < |CONTENT|
  {
    if torn.Some? then files[name := CONTENT[..torn.value]] else files
  }

  function AfterFault(dir: Directory, domains: seq<string>, fault: FileFault): Directory
    requires CanOccur(dir, domains, fault)
  {
    match fault
    case NoDirectory => dir
    case NoDelete(deleted) => Some(FilesIn(dir) - deleted)
    case NoWrite(at, torn) =>
      Some(Torn(WithContent(Unmanaged(FilesIn(dir)), FileNames(domains[..at])), DropStarDots(domains[at]), torn))
  }

  method RemoveSome(os: ResolverDirectory, deleted: set<string>)
    requires os.dir.Some?
    modifies os
    ensures os.dir == Some(old(os.dir).value - deleted)
  {
    ghost var before := os.dir.value;
    var rest := deleted;
    assert before - (deleted - rest) == before;
    while rest != {}
      invariant rest <= deleted && os.dir == Some(before - (deleted - rest))
      decreases rest
    {
      var f :| f in rest;
      var files := os.dir.value - {f};
      assert files == before - (deleted - (rest - {f}));
      os.dir := Some(files);
      rest := rest - {f};
    }
    assert before - (deleted - {}) == before - deleted;
  }

  /** The apply of the source with every operation that can fail. */
  method TryApply(os: ResolverDirectory, domains: seq<string>, fault: Option<FileFault>) returns (ok: bool)
    requires fault.Some? ==> CanOccur(os.dir, domains, fault.value)
    modifies os
    ensures ok <==> fault.None?
    ensures os.dir == if ok then Applied(old(os.dir), domains) else AfterFault(old(os.dir), domains, fault.value)
  {
    if fault == Some(NoDirectory) {
      return false;
    }
    os.CreateDirectory();
    if fault.Some? && fault.value.NoDelete? {
      RemoveSome(os, fault.value.deleted);
      return false;
    }
    os.RemoveAllFiles();
    if fault.None? {
      os.WriteFiles(domains, |domains|);
      assert domains[..|domains|] == domains;
      return true;
    }
    os.WriteFiles(domains, fault.value.at);
    os.dir := Some(Torn(os.dir.value, DropStarDots(domains[fault.value.at]), fault.value.torn));
    return false;
  }

  // -------------------------------------------------- files refine sets of domains

  function NamesOf(domains: set<string>): set<string> {
    set d | d in domains :: DropStarDots(d)
  }

  /** The directory routes exactly the given domains. */
  predicate Shows(dir: Directory, domains: set<string>) {
    Routed(FilesIn(dir)) == NamesOf(domains)
  }

  function Elements(domains: seq<string>): set<string> {
    set d | d in domains
  }

  /** The domains whose files are among `names`. */
  function DomainsAt(applied: set<string>, names: set<string>): set<string> {
    set d | d in applied && DropStarDots(d) in names
  }

  /** A torn file routes if at most its last newline is missing. */
  function TearOf(torn: Option<nat>): S.Tear {
    match torn
    case None => S.Unopened
    case Some(bytes) => if bytes < |CONTENT| - 1 then S.Unusable else S.Usable
  }

  /** The same fault in terms of domains. */
  function Abstracted(applied: set<string>, domains: seq<string>, fault: FileFault): S.Fault {
    match fault
    case NoDirectory => S.Undeleted({})
    case NoDelete(deleted) => S.Undeleted(DomainsAt(applied, deleted))
    case NoWrite(at, torn) => S.Unwritten(domains, at, TearOf(torn))
  }

  /** A completed apply routes its domains, a completed revert none. */
  lemma {:induction false} CompletedShows(dir: Directory, domains: seq<string>)
    ensures Shows(Applied(dir, domains), Elements(domains))
    ensures Shows(Cleared(dir), {})
  {
    AppliedIsRouted(dir, domains);
    UnmanagedRoutesNothing(FilesIn(dir));
    NamesOfElements(domains);
  }

  lemma {:induction false} NamesOfElements(domains: seq<string>)
    ensures NamesOf(Elements(domains)) == FileNames(domains)
  {
    forall i | 0 <= i < |domains| ensures DropStarDots(domains[i]) in NamesOf(Elements(domains)) {
      assert domains[i] in Elements(domains);
    }
  }

  /** Deleting some files stops routing exactly their domains; also when a revert fails. */
  lemma {:induction false} DeletedShows(files: Files, applied: set<string>, deleted: set<string>)
    requires Shows(Some(files), applied)
    ensures Shows(Some(files - deleted), applied - DomainsAt(applied, deleted))
  {
    var left := applied - DomainsAt(applied, deleted);
    forall f | f in Routed(files) && f !in deleted ensures f in NamesOf(left) {
      assert f in NamesOf(applied);
      var d :| d in applied && DropStarDots(d) == f;
      assert d in left;
    }
    forall f | f in NamesOf(left) ensures f in Routed(files) && f !in deleted {
      assert f in NamesOf(applied);
    }
  }

  lemma {:induction false} RoutedAfterWrite(users: Files, names: set<string>, last: string, torn: Option<nat>)
    requires Routed(users) == {} && (torn.Some? ==> torn.value < |CONTENT|)
    ensures Routed(Torn(WithContent(users, names), last, torn)) ==
            match TearOf(torn) case Unopened => names case Unusable => names - {last} case Usable => names + {last}
  {
    WrittenIsRouted(users, names);
    var written := WithContent(users, names);
    assert forall f :: f in Routed(written) <==> f in written && Routes(written[f]);
    if torn.Some? { CutRoutesIff(torn.value); }
  }

  lemma {:induction false} LeftNames(domains: seq<string>, at: nat, tear: S.Tear)
    requires at < |domains|
    ensures NamesOf(S.Left({}, S.Unwritten(domains, at, tear))) ==
            var names, last := FileNames(domains[..at]), DropStarDots(domains[at]);
            match tear case Unopened => names case Unusable => names - {last} case Usable => names + {last}
  {
    var left := S.Left({}, S.Unwritten(domains, at, tear));
    var names, last := FileNames(domains[..at]), DropStarDots(domains[at]);
    forall f | f in names && (f != last || !tear.Unusable?) ensures f in NamesOf(left) {
      var j :| 0 <= j < at && DropStarDots(domains[..at][j]) == f;
      assert domains[j] in left;
    }
    if tear.Usable? { assert domains[at] in left; }
    forall d | d in left ensures DropStarDots(d) in names || (tear.Usable? && d == domains[at]) {
      if !(tear.Usable? && d == domains[at]) {
        var j :| 0 <= j < at && !S.Destroyed(domains, at, tear, j) && domains[j] == d;
        assert domains[..at][j] == d;
      }
    }
    forall d | d in left && tear.Unusable? ensures DropStarDots(d) != last {
      var j :| 0 <= j < at && !S.Destroyed(domains, at, tear, j) && domains[j] == d;
    }
  }

  /** Every fault of the file operations is one the manager's transition system allows, and leaves in
      the directory exactly the domains that system says. */
  lemma {:induction false} FaultRefines(dir: Directory, applied: set<string>, domains: seq<string>, fault: FileFault)
    requires Shows(dir, applied) && Distinct(domains) && CanOccur(dir, domains, fault)
    ensures S.CanFail(Elements(domains), Abstracted(applied, domains, fault))
    ensures Shows(AfterFault(dir, domains, fault), S.Left(applied, Abstracted(applied, domains, fault)))
  {
    match fault
    case NoDirectory => assert applied - {} == applied;
    case NoDelete(deleted) => DeletedShows(FilesIn(dir), applied, deleted);
    case NoWrite(at, torn) =>
      UnmanagedRoutesNothing(FilesIn(dir));
      RoutedAfterWrite(Unmanaged(FilesIn(dir)), FileNames(domains[..at]), DropStarDots(domains[at]), torn);
      LeftNames(domains, at, TearOf(torn));
  }

  /** A first write torn off before its last newline has failed, and routes. */
  lemma {:induction false} TornFileCanRoute(dir: Directory, domain: string)
    ensures Routed(AfterFault(dir, [domain], NoWrite(0, Some(|CONTENT| - 1))).value) == {DropStarDots(domain)}
  {
    UnmanagedRoutesNothing(FilesIn(dir));
    assert FileNames([domain][..0]) == {};
    RoutedAfterWrite(Unmanaged(FilesIn(dir)), {}, DropStarDots(domain), Some(|CONTENT| - 1));
  }

  // -------------------------------------------------------- exactly what is left

  /** A torn file of so many bytes does not carry the marker. */
  predicate Unmarked(bytes: nat) { bytes < 20 || bytes == 22 || bytes == 23 }

  /** A failed apply leaves no managed file if and only if there was none and it did not get to write
      one, or the one it wrote or tore is not recognisable. */
  predicate NothingManaged(dir: Directory, domains: seq<string>, fault: FileFault)
    requires CanOccur(dir, domains, fault)
  {
    match fault
    case NoDirectory => ManagedNames(FilesIn(dir)) == {}
    case NoDelete(_) => false
    case NoWrite(at, None) => at == 0
    case NoWrite(at, Some(bytes)) =>
      Unmarked(bytes) && forall j :: 0 <= j < at ==> DropStarDots(domains[j]) == DropStarDots(domains[at])
  }

  lemma {:induction false} TornIsManagedIff(bytes: nat)
    requires bytes < |CONTENT|
    ensures Managed(CONTENT[..bytes]) <==> !Unmarked(bytes)
  {
    CutIsManagedIff(bytes);
  }

  lemma {:induction false} ManagedAfterWrite(users: Files, names: set<string>, last: string, torn: Option<nat>)
    requires ManagedNames(users) == {} && (torn.Some? ==> torn.value < |CONTENT|)
    ensures ManagedNames(Torn(WithContent(users, names), last, torn)) ==
            if torn.None? then names else if Unmarked(torn.value) then names - {last} else names + {last}
  {
    ContentIsManaged();
    if torn.Some? { TornIsManagedIff(torn.value); }
    forall f | f in users ensures !Managed(users[f]) {
      assert f !in ManagedNames(users);
    }
  }

  lemma {:induction false} NothingMarkedIff(users: Files, domains: seq<string>, at: nat, torn: Option<nat>)
    requires ManagedNames(users) == {} && at < |domains| && (torn.Some? ==> torn.value < |CONTENT|)
    ensures ManagedNames(Torn(WithContent(users, FileNames(domains[..at])), DropStarDots(domains[at]), torn)) == {} <==>
            if torn.None? then at == 0
            else Unmarked(torn.value) && forall j :: 0 <= j < at ==> DropStarDots(domains[j]) == DropStarDots(domains[at])
  {
    var names, last := FileNames(domains[..at]), DropStarDots(domains[at]);
    ManagedAfterWrite(users, names, last, torn);
    forall j | 0 <= j < at ensures DropStarDots(domains[j]) in names {
      assert domains[..at][j] == domains[j];
    }
    assert at > 0 ==> DropStarDots(domains[0]) in names;
    assert last in names + {last};
    if names - {last} == {} {
      forall f | f in names ensures f == last {
        assert f !in names - {last};
      }
    }
  }

  lemma {:induction false} NothingManagedIff(dir: Directory, domains: seq<string>, fault: FileFault)
    requires CanOccur(dir, domains, fault)
    ensures ManagedNames(FilesIn(AfterFault(dir, domains, fault))) == {} <==> NothingManaged(dir, domains, fault)
  {
    ContentIsManaged();
    var files := FilesIn(AfterFault(dir, domains, fault));
    match fault
    case NoDirectory =>
    case NoDelete(deleted) =>
      var f :| f in ManagedNames(FilesIn(dir)) && f !in deleted;
      assert f in ManagedNames(files);
    case NoWrite(at, torn) => NothingMarkedIff(Unmanaged(FilesIn(dir)), domains, at, torn);
  }

  /** The next start reverts first. It cleans up after any failed write, except for a torn file that
      is not recognisable: that one stays, for ever if its domain is not routed again. */
  lemma {:induction false} NextStartCleansIff(dir: Directory, domains: seq<string>, at: nat, torn: Option<nat>)
    requires CanOccur(dir, domains, NoWrite(at, torn))
    ensures var rest := Cleared(AfterFault(dir, domains, NoWrite(at, torn)));
            var last := DropStarDots(domains[at]);
            var users := Untouched(FilesIn(dir), FileNames(domains[..at]));
            rest == match torn
                    case None => Some(users)
                    case Some(bytes) =>
                      if Unmarked(bytes) then Some(users[last := CONTENT[..bytes]]) else Some(users - {last})
  {
    ContentIsManaged();
    var last, users := DropStarDots(domains[at]), Untouched(FilesIn(dir), FileNames(domains[..at]));
    UserFilesAfterApply(FilesIn(dir), domains[..at]);
    var written := WithContent(Unmanaged(FilesIn(dir)), FileNames(domains[..at]));
    assert Unmanaged(written) == users;
    if torn.Some? {
      TornIsManagedIff(torn.value);
      TornThenCleared(written, last, torn.value);
    }
  }

  lemma {:induction false} TornThenCleared(files: Files, name: string, bytes: nat)
    requires bytes < |CONTENT|
    ensures Unmanaged(files[name := CONTENT[..bytes]]) ==
            if Managed(CONTENT[..bytes]) then Unmanaged(files) - {name} else Unmanaged(files)[name := CONTENT[..bytes]]
  {}

  lemma {:induction false} BareTwice(a: string, b: string)
    requires Bare(a) == Bare(b) && a != b
    ensures IsWildcardName(a) != IsWildcardName(b)
  {
    assert IsWildcardName(a) ==> a == STAR_DOT + SuffixOf(a);
    assert IsWildcardName(b) ==> b == STAR_DOT + SuffixOf(b);
  }

  /** On accepted domains a failed write leaves nothing routed if and only if its own file is not
      usable and it was the first, or it was the second, opened, and shares its file with the first:
      `x` and `*.x`. */
  lemma {:induction false} NothingRoutedIff(applied: set<string>, order: seq<string>, at: nat, tear: S.Tear)
    requires Distinct(order) && at < |order|
    requires forall d :: d in order ==> Domains.Validate(d)
    ensures S.Left(applied, S.Unwritten(order, at, tear)) == {} <==>
            !tear.Usable? && (at == 0 || (at == 1 && tear.Unusable? && Bare(order[0]) == Bare(order[1])))
  {
    S.NothingWrittenIff(applied, order, at, tear);
    forall j | 0 <= j < |order| ensures DropStarDots(order[j]) == Bare(order[j]) {
      DropStripsAccepted(order[j]);
    }
    if at > 1 && S.NothingWritten(order, at, tear) {
      assert S.Destroyed(order, at, tear, 0) && S.Destroyed(order, at, tear, 1);
      BareTwice(order[0], order[1]);
      BareTwice(order[0], order[at]);
      BareTwice(order[1], order[at]);
    }
    assert at == 1 && tear.Unusable? ==> (S.NothingWritten(order, at, tear) <==> S.Destroyed(order, at, tear, 0));
  }

  // ------------------------------------------------------------------ reachable runs

  lemma {:induction false} Manage(s: D.State, x: S.ManagerStep, m: S.Manager)
    requires Reachable(s) && S.ManagerEnabled(s.bus, s.manager, x) && S.ManagerNext(s.bus, s.manager, x) == m
    ensures Reachable(s.(manager := m))
  {
    Onward(s, D.OnManager(x));
  }

  /** Every failure of the first apply happens in some run, and its residue stays. */
  lemma {:induction false} FailureLeaves(st: Store, fault: S.Fault) returns (s: D.State)
    requires WellFormed(st) && S.CanFail(StoreDomains(st), fault)
    ensures Reachable(s) && s.bus.store == st && s.manager.phase.Failed?
    ensures s.manager.applied == S.Left({}, fault)
  {
    BootReachable(st);
    s := Boot(st);
    Manage(s, S.Clean(true, {}), S.Manager(S.Cleaned, 0, {}));
    s := s.(manager := S.Manager(S.Cleaned, 0, {}));
    Manage(s, S.Subscribe, S.Manager(S.Refreshing, 0, {}));
    s := s.(manager := S.Manager(S.Refreshing, 0, {}));
    Manage(s, S.Snapshot, S.Manager(S.Applying(StoreDomains(st)), 0, {}));
    s := s.(manager := S.Manager(S.Applying(StoreDomains(st)), 0, {}));
    Manage(s, S.FailApply(fault), S.Manager(S.Failed, 0, S.Left({}, fault)));
    s := s.(manager := S.Manager(S.Failed, 0, S.Left({}, fault)));
  }

  lemma {:induction false} SomeList(domains: set<string>) returns (order: seq<string>)
    ensures S.Lists(order, domains)
    decreases domains
  {
    if domains == {} {
      order := [];
    } else {
      var d :| d in domains;
      var rest := SomeList(domains - {d});
      order := rest + [d];
    }
  }

  lemma {:induction false} ListsOfBoth(a: seq<string>, left: set<string>, b: seq<string>, rest: set<string>)
    requires S.Lists(a, left) && S.Lists(b, rest) && left !! rest
    ensures S.Lists(a + b, left + rest)
  {
    forall i, j | 0 <= i < j < |a + b| ensures (a + b)[i] != (a + b)[j] {
      if i < |a| <= j { assert a[i] in left && b[j - |a|] in rest; }
    }
  }

  /** Whatever part of a table's domains one picks, some run of the daemon ends by leaving exactly
      that part routed. */
  lemma {:induction false} AnyPartCanBeLeft(st: Store, left: set<string>) returns (s: D.State)
    requires WellFormed(st) && left <= StoreDomains(st)
    ensures Reachable(s) && s.bus.store == st && s.manager.phase.Failed? && s.manager.applied == left
  {
    var a := SomeList(left);
    var b := SomeList(StoreDomains(st) - left);
    ListsOfBoth(a, left, b, StoreDomains(st) - left);
    assert left + (StoreDomains(st) - left) == StoreDomains(st);
    if left == {} {
      s := FailureLeaves(st, S.Undeleted({}));
    } else {
      s := FailureLeaves(st, S.Unwritten(a + b, |a| - 1, S.Usable));
      LeftOfFront(a, b);
    }
  }

  lemma {:induction false} LeftOfFront(a: seq<string>, b: seq<string>)
    requires |a| >= 1
    ensures forall d :: d in S.Left({}, S.Unwritten(a + b, |a| - 1, S.Usable)) <==> d in a
  {
    var left := S.Left({}, S.Unwritten(a + b, |a| - 1, S.Usable));
    forall d | d in a ensures d in left {
      var j :| 0 <= j < |a| && a[j] == d;
      assert (a + b)[j] == d && (j < |a| - 1 ==> !S.Destroyed(a + b, |a| - 1, S.Usable, j));
    }
    forall d | d in left ensures d in a {
      var j :| 0 <= j < |a| && (a + b)[j] == d;
      assert a[j] == d;
    }
  }

  /** A table of two rules whose daemon stops with one of them routed. */
  lemma {:induction false} AResidue(addr: SocketAddr) returns (s: D.State)
    ensures Reachable(s) && s.manager.phase.Failed?
    ensures StoreDomains(s.bus.store) == {"a.bb", "c.bb"} && s.manager.applied == {"a.bb"}
  {
    var a, c := Rule("a.bb", addr, false), Rule("c.bb", addr, false);
    var st := Store(Layer(map["a.bb" := a, "c.bb" := c], []), EMPTY_LAYER);
    assert "a.bb"[0] != "c.bb"[0];
    assert st.eph.exact["a.bb"].domain == "a.bb" && st.eph.exact["c.bb"].domain == "c.bb";
    assert StoreDomains(st) == {"a.bb", "c.bb"};
    s := AnyPartCanBeLeft(st, {"a.bb"});
  }
}
