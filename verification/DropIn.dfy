/** The systemd-resolved configuration (core/src/dns/sys/systemd.rs): a drop-in file, and the routing
    domains in effect, which are those the file held when systemd-resolved last reloaded. */
module DropIns {
  import opened Names
  import opened SplitDns
  import S = SystemDns
  import R = Residue

  /** What fails: creating the directory; writing the file, which keeps the entries before the cut;
      or the reload. */
  datatype ApplyFault = NoDirectory | TornFile(kept: nat) | NoReload

  datatype RevertFault = NoRemoval | NoReloadAfter

  function InFile(file: Option<seq<string>>): seq<string> {
    if file.Some? then file.value else []
  }

  /** The file after an apply, complete or failing. */
  function FileAfterApply(file: Option<seq<string>>, domains: seq<string>, fault: Option<ApplyFault>): Option<seq<string>>
    requires fault.Some? && fault.value.TornFile? ==> fault.value.kept <= |domains|
  {
    match fault
    case Some(NoDirectory) => file
    case Some(TornFile(kept)) => Some(SystemdEntries(domains)[..kept])
    case _ => Some(SystemdEntries(domains))
  }

  class DropIn {
    var file: Option<seq<string>>
    var loaded: seq<string>

    constructor (file: Option<seq<string>>)
      ensures this.file == file && loaded == InFile(file)
    {
      this.file := file;
      loaded := InFile(file);
    }

    method Reload()
      modifies this`loaded
      ensures loaded == InFile(file)
    {
      loaded := InFile(file);
    }

    method TryApply(domains: seq<string>, fault: Option<ApplyFault>) returns (ok: bool)
      requires fault.Some? && fault.value.TornFile? ==> fault.value.kept <= |domains|
      modifies this
      ensures ok <==> fault.None?
      ensures file == FileAfterApply(old(file), domains, fault)
      ensures loaded == if ok then SystemdEntries(domains) else old(loaded)
    {
      if fault == Some(NoDirectory) {
        return false;
      }
      var entries := SystemdEntries(domains);
      file := Some(if fault.Some? && fault.value.TornFile? then entries[..fault.value.kept] else entries);
      if fault.Some? {
        return false;
      }
      Reload();
      return true;
    }

    method TryRevert(fault: Option<RevertFault>) returns (ok: bool)
      modifies this
      ensures fault.None? ==> ok && file == None && loaded == []
      ensures fault == Some(NoReloadAfter) ==> !ok && file == None && loaded == old(loaded)
      ensures fault == Some(NoRemoval) && old(file).Some? ==> !ok && file == old(file) && loaded == old(loaded)
      ensures fault == Some(NoRemoval) && old(file).None? ==> ok && file == None && loaded == []
    {
      if file.Some? {
        if fault == Some(NoRemoval) {
          return false;
        }
        file := None;
      }
      if fault == Some(NoReloadAfter) {
        return false;
      }
      Reload();
      return true;
    }
  }

  // -------------------------------------------------- entries refine sets of domains

  function EntriesOf(domains: set<string>): set<string> {
    set d | d in domains :: SystemdEntry(d)
  }

  /** The entries in effect are exactly those of the given domains. */
  predicate InEffect(loaded: seq<string>, domains: set<string>) {
    R.Elements(loaded) == EntriesOf(domains)
  }

  lemma {:induction false} EntriesInEffect(domains: seq<string>)
    ensures InEffect(SystemdEntries(domains), R.Elements(domains))
    ensures InEffect([], {})
  {
    var entries := SystemdEntries(domains);
    forall d | d in domains ensures SystemdEntry(d) in entries {
      var i :| 0 <= i < |domains| && domains[i] == d;
      assert entries[i] == SystemdEntry(d);
    }
    forall e | e in entries ensures e in EntriesOf(R.Elements(domains)) {
      var i :| 0 <= i < |entries| && entries[i] == e;
      assert domains[i] in R.Elements(domains);
    }
  }

  /** A failed apply changes nothing that is in effect, whichever operation failed, but the next reload,
      by anyone, puts into effect what the file then holds: the old domains, the first few of the
      new ones, or all of them. */
  lemma {:induction false} FailedApplyTakesEffectLater(file: Option<seq<string>>, loaded: seq<string>, applied: set<string>, domains: seq<string>, fault: ApplyFault)
    requires InEffect(loaded, applied) && InEffect(InFile(file), applied)
    requires fault.TornFile? ==> fault.kept <= |domains|
    ensures InEffect(loaded, S.Left(applied, S.Unreloaded))
    ensures InEffect(InFile(FileAfterApply(file, domains, Some(fault))),
                     match fault
                     case NoDirectory => applied
                     case TornFile(kept) => R.Elements(domains[..kept])
                     case NoReload => R.Elements(domains))
  {
    match fault
    case NoDirectory =>
    case TornFile(kept) =>
      EntriesInEffect(domains[..kept]);
      assert SystemdEntries(domains)[..kept] == SystemdEntries(domains[..kept]);
    case NoReload => EntriesInEffect(domains);
  }
}
