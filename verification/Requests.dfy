/** IPC requests, their answers and the events they emit (core/src/ipc/handler.rs,
    core/src/ipc/message.rs), and the name normalisation of the DNS server. */
module Requests {
  import opened Names
  import opened Rules
  import D = Domains
  import opened Stores

  datatype Event =
    | RuleAdded(rule: Rule)
    | RuleRemoved(rule: Rule)
    | EphemeralAdded(rule: Rule)
    | EphemeralRemoved(rule: Rule)
    | DaemonStopped

  predicate IsRuleEvent(e: Event) { !e.DaemonStopped? }

  predicate IsPersistent(e: Event) { e.RuleAdded? || e.RuleRemoved? }

  /** The event concerns `name`: invalidating by its rule drops `name` from the caches. */
  predicate Concerns(e: Event, name: string) {
    IsRuleEvent(e) && e.rule.Matches(name)
  }

  predicate AnyConcerns(events: seq<Event>, name: string) {
    exists i :: 0 <= i < |events| && Concerns(events[i], name)
  }

  predicate AnyPersistent(events: seq<Event>) {
    exists i :: 0 <= i < |events| && IsPersistent(events[i])
  }

  datatype Request =
    | ReqAdd(domain: string, target: SocketAddr, https: bool)
    | ReqAddEphemeral(domain: string, target: SocketAddr, https: bool)
    | ReqRemove(domain: string)
    | ReqRemoveEphemeral(domain: string)
    | ReqList
    | ReqResolve(domain: string)
    | ReqStatus
    | ReqStop
    | ReqSubscribe

  datatype Response =
    | Ok
    | Error(message: string)
    | RuleList(rules: seq<Rule>)
    | Resolved(rule: Option<Rule>)
    | Status(running: bool, count: nat)

  predicate Mutating(req: Request) {
    req.ReqAdd? || req.ReqAddEphemeral? || req.ReqRemove? || req.ReqRemoveEphemeral?
  }

  /** The store operation behind a request, once its domain is validated and lowercased. */
  function OpOf(req: Request): Option<Op> {
    match req
    case ReqAdd(d, t, h) => if D.Validate(d) then Some(Add(Rule(Lower(d), t, h))) else None
    case ReqAddEphemeral(d, t, h) => if D.Validate(d) then Some(AddEphemeral(Rule(Lower(d), t, h))) else None
    case ReqRemove(d) => if D.Validate(d) then Some(Remove(Lower(d))) else None
    case ReqRemoveEphemeral(d) => if D.Validate(d) then Some(RemoveEphemeral(Lower(d))) else None
    case _ => None
  }

  /** The event a store operation is followed by; a removal that found nothing emits none. */
  function EventOf(op: Op, removed: Option<Rule>): Option<Event> {
    match op
    case Add(r) => Some(RuleAdded(r))
    case AddEphemeral(r) => Some(EphemeralAdded(r))
    case Remove(_) => if removed.Some? then Some(RuleRemoved(removed.value)) else None
    case RemoveEphemeral(_) => if removed.Some? then Some(EphemeralRemoved(removed.value)) else None
    case AddAll(_) => None
  }

  function StoreAfter(s: Store, req: Request): Store {
    var op := OpOf(req);
    if op.None? then s else Perform(s, op.value).store
  }

  function EventsOf(s: Store, req: Request): seq<Event> {
    if req.ReqStop? then [DaemonStopped]
    else
      var op := OpOf(req);
      if op.None? then []
      else
        var e := EventOf(op.value, Perform(s, op.value).removed);
        if e.None? then [] else [e.value]
  }

  // ---------------------------------------------------- replaying the events

  /** What a subscriber that mirrors the table does with an event. */
  function Replay(s: Store, e: Event): Store {
    match e
    case RuleAdded(r) => Perform(s, Add(r)).store
    case RuleRemoved(r) => Perform(s, Remove(r.domain)).store
    case EphemeralAdded(r) => Perform(s, AddEphemeral(r)).store
    case EphemeralRemoved(r) => Perform(s, RemoveEphemeral(r.domain)).store
    case DaemonStopped => s
  }

  function ReplayAll(s: Store, events: seq<Event>): Store {
    if events == [] then s
    else Replay(ReplayAll(s, events[..|events| - 1]), events[|events| - 1])
  }

  lemma {:induction false} ReplayOfConcat(s: Store, a: seq<Event>, b: seq<Event>)
    ensures ReplayAll(s, a + b) == ReplayAll(ReplayAll(s, a), b)
  {
    if b == [] {
      assert a + b == a;
    } else {
      ReplayOfConcat(s, a, b[..|b| - 1]);
      assert (a + b)[..|a + b| - 1] == a + b[..|b| - 1];
    }
  }

  /** An operation and the event it emits have the same effect; one that emits no event had none. */
  lemma {:induction false} EventReplaysOp(s: Store, op: Op)
    requires WellFormed(s) && !op.AddAll?
    ensures var out := Perform(s, op); var e := EventOf(op, out.removed);
            && (e.Some? ==> Replay(s, e.value) == out.store)
            && (e.Some? ==> IsRuleEvent(e.value) && e.value.rule.domain == Subject(op))
            && (e.None? ==> out.store == s)
  {}

  function ServeAll(s: Store, reqs: seq<Request>): Store {
    if reqs == [] then s
    else StoreAfter(ServeAll(s, reqs[..|reqs| - 1]), reqs[|reqs| - 1])
  }

  function AllEvents(s: Store, reqs: seq<Request>): seq<Event> {
    if reqs == [] then []
    else
      var front := reqs[..|reqs| - 1];
      AllEvents(s, front) + EventsOf(ServeAll(s, front), reqs[|reqs| - 1])
  }

  lemma {:induction false} StoreAfterWellFormed(s: Store, req: Request)
    requires WellFormed(s)
    ensures WellFormed(StoreAfter(s, req))
  {
    if OpOf(req).Some? { PerformWellFormed(s, OpOf(req).value); }
  }

  lemma {:induction false} EventsRebuildOne(s: Store, req: Request)
    requires WellFormed(s)
    ensures ReplayAll(s, EventsOf(s, req)) == StoreAfter(s, req)
  {
    var es := EventsOf(s, req);
    if OpOf(req).Some? { EventReplaysOp(s, OpOf(req).value); }
    if es != [] {
      assert es[..0] == [] && ReplayAll(s, es) == Replay(s, es[0]);
    }
  }

  /** What each accepted request does to the rules of the two layers, rule by rule. */
  lemma {:induction false} RequestEffect(s: Store, req: Request, q: Rule)
    requires WellFormed(s) && OpOf(req).Some?
    ensures var t := StoreAfter(s, req); var d := Lower(req.domain);
      match req
      case ReqAdd(_, target, https) =>
        t.eph == s.eph && (Holds(t.per, q) <==> q == Rule(d, target, https) || (Holds(s.per, q) && q.domain != d))
      case ReqAddEphemeral(_, target, https) =>
        t.per == s.per && (Holds(t.eph, q) <==> q == Rule(d, target, https) || (Holds(s.eph, q) && q.domain != d))
      case ReqRemove(_) => t.eph == s.eph && (Holds(t.per, q) <==> Holds(s.per, q) && q.domain != d)
      case ReqRemoveEphemeral(_) => t.per == s.per && (Holds(t.eph, q) <==> Holds(s.eph, q) && q.domain != d)
      case _ => true
  {
    match OpOf(req).value
    case Add(r) => InsertReplaces(s.per, r, q);
    case AddEphemeral(r) => InsertReplaces(s.eph, r, q);
    case Remove(domain) => DeleteTakesOne(s.per, domain, q);
    case RemoveEphemeral(domain) => DeleteTakesOne(s.eph, domain, q);
  }

  /** Served one after another, requests leave exactly the store their events rebuild,
      wildcard order included. */
  lemma {:induction false} EventsRebuildStore(s: Store, reqs: seq<Request>)
    requires WellFormed(s)
    ensures WellFormed(ServeAll(s, reqs))
    ensures ReplayAll(s, AllEvents(s, reqs)) == ServeAll(s, reqs)
  {
    if reqs != [] {
      var front, req := reqs[..|reqs| - 1], reqs[|reqs| - 1];
      EventsRebuildStore(s, front);
      var mid := ServeAll(s, front);
      StoreAfterWellFormed(mid, req);
      EventsRebuildOne(mid, req);
      ReplayOfConcat(s, AllEvents(s, front), EventsOf(mid, req));
    }
  }

  // -------------------------------------------------------------------- the listing

  lemma {:induction false} ListsPersistent(s: Store, order: seq<string>, q: Rule)
    requires WellFormed(s) && Visits(order, s.per.exact)
    ensures q in PersistentRules(s, order) <==> Holds(s.per, q)
  {
    var exact := Values(order, s.per.exact);
    assert q in exact + s.per.wild <==> q in exact || q in s.per.wild;
    if q.domain in s.per.exact && s.per.exact[q.domain] == q {
      var i :| 0 <= i < |order| && order[i] == q.domain;
      assert exact[i] == q;
    }
    if q in exact {
      var i :| 0 <= i < |exact| && exact[i] == q;
      assert order[i] in order;
    }
  }

  /** The listing is documented as all active rules, persistent and ephemeral. It is, if and only if
      no ephemeral rule is missing from the persistent layer. */
  lemma {:induction false} ListingIsCompleteIff(s: Store, order: seq<string>)
    requires WellFormed(s) && Visits(order, s.per.exact)
    ensures (forall q :: q in PersistentRules(s, order) <==> Holds(s.eph, q) || Holds(s.per, q)) <==>
            (forall q :: Holds(s.eph, q) ==> Holds(s.per, q))
  {
    forall q ensures q in PersistentRules(s, order) <==> Holds(s.per, q) {
      ListsPersistent(s, order, q);
    }
  }

  /** A table of one ephemeral rule: the rule answers names, and the listing is empty. */
  lemma {:induction false} ListingHidesEphemeral(r: Rule)
    requires !r.IsWildcard()
    ensures var s := Perform(EMPTY_STORE, AddEphemeral(r)).store;
            WellFormed(s) && Resolve(s, r.domain) == Some(r) && Visits([], s.per.exact) && PersistentRules(s, []) == []
  {}

  // -------------------------------------------------- the invariant of every run

  predicate CanonicalName(name: string) { D.Validate(name) && IsLower(name) }

  predicate CanonicalLayer(l: Layer) {
    && (forall k :: k in l.exact ==> CanonicalName(k))
    && (forall i :: 0 <= i < |l.wild| ==> CanonicalName(l.wild[i].domain))
  }

  predicate Sound(s: Store) {
    WellFormed(s) && CanonicalLayer(s.eph) && CanonicalLayer(s.per)
  }

  /** A request, or a restart. The file a restart loads was saved at any earlier store of the history,
      number `saved`, in some iteration order; number 0 is also what an unreadable file gives. */
  datatype Action = Serve(req: Request) | Restart(saved: nat, order: seq<string>)

  function Reloaded(s: Store, order: seq<string>): Store
    requires forall k :: k in order ==> k in s.per.exact
  {
    Perform(EMPTY_STORE, AddAll(PersistentRules(s, order))).store
  }

  /** The action leads from store `i` of the history to `next`. */
  ghost predicate Leads(stores: seq<Store>, i: nat, a: Action, next: Store)
    requires i < |stores|
  {
    match a
    case Serve(req) => next == StoreAfter(stores[i], req)
    case Restart(saved, order) =>
      saved <= i && Visits(order, stores[saved].per.exact) && next == Reloaded(stores[saved], order)
  }

  ghost predicate IsHistory(stores: seq<Store>, actions: seq<Action>) {
    && |stores| == |actions| + 1
    && stores[0] == EMPTY_STORE
    && forall i :: 0 <= i < |actions| ==> Leads(stores, i, actions[i], stores[i + 1])
  }

  lemma {:induction false} InsertCanonical(l: Layer, r: Rule)
    requires CanonicalLayer(l) && CanonicalName(r.domain)
    ensures CanonicalLayer(Insert(l, r))
  {
    RetainKeeps(l.wild, r.domain);
    var kept := Retain(l.wild, r.domain);
    forall i | 0 <= i < |kept| ensures CanonicalName(kept[i].domain) {
      assert kept[i] in kept;
    }
  }

  lemma {:induction false} DeleteCanonical(l: Layer, domain: string)
    requires CanonicalLayer(l)
    ensures CanonicalLayer(Delete(l, domain).left)
  {}

  lemma {:induction false} LoweredIsCanonical(domain: string)
    requires D.Validate(domain)
    ensures CanonicalName(Lower(domain))
  {
    D.ValidateIgnoresCase(domain);
    LowerIsCanonical(domain, domain);
  }

  lemma {:induction false} OpKeepsCanonical(s: Store, op: Op)
    requires CanonicalLayer(s.eph) && CanonicalLayer(s.per) && !op.AddAll? && CanonicalName(Subject(op))
    ensures CanonicalLayer(Perform(s, op).store.eph) && CanonicalLayer(Perform(s, op).store.per)
  {
    match op
    case Add(r) => InsertCanonical(s.per, r);
    case AddEphemeral(r) => InsertCanonical(s.eph, r);
    case Remove(d) => DeleteCanonical(s.per, d);
    case RemoveEphemeral(d) => DeleteCanonical(s.eph, d);
  }

  lemma {:induction false} ServeKeepsCanonical(s: Store, req: Request)
    requires CanonicalLayer(s.eph) && CanonicalLayer(s.per)
    ensures CanonicalLayer(StoreAfter(s, req).eph) && CanonicalLayer(StoreAfter(s, req).per)
  {
    if OpOf(req).Some? {
      LoweredIsCanonical(req.domain);
      OpKeepsCanonical(s, OpOf(req).value);
    }
  }

  /** Every store of every history of requests and restarts, each from whatever file was saved at
      some earlier moment, is well-formed, and all of its domains are valid and lowercase. */
  lemma {:induction false} EveryStoreIsSound(stores: seq<Store>, actions: seq<Action>, i: nat)
    requires IsHistory(stores, actions) && i < |stores|
    ensures Sound(stores[i])
  {
    if i > 0 {
      var s := stores[i - 1];
      assert Leads(stores, i - 1, actions[i - 1], stores[i]);
      match actions[i - 1]
      case Serve(req) =>
        EveryStoreIsSound(stores, actions, i - 1);
        StoreAfterWellFormed(s, req);
        ServeKeepsCanonical(s, req);
      case Restart(saved, order) =>
        EveryStoreIsSound(stores, actions, saved);
        RestartRestoresPersistent(stores[saved], order, "");
    }
  }

  // ---------------------------------------------------- queries of any casing

  function TrimDots(name: string): string {
    if name != "" && name[|name| - 1] == '.' then TrimDots(name[..|name| - 1]) else name
  }

  /** What the DNS server looks up for a query name. */
  function Normalise(query: string): string {
    Lower(TrimDots(query))
  }

  function Dots(n: nat): string {
    if n == 0 then "" else Dots(n - 1) + "."
  }

  lemma {:induction false} TrimsAllDots(name: string, n: nat)
    requires name == "" || name[|name| - 1] != '.'
    ensures TrimDots(name + Dots(n)) == name
  {
    if n == 0 {
      assert name + Dots(0) == name;
    } else {
      TrimsAllDots(name, n - 1);
      var q := name + Dots(n);
      assert q[..|q| - 1] == name + Dots(n - 1);
    }
  }

  lemma {:induction false} LastCharacter(labels: seq<string>)
    requires |labels| >= 1 && |labels[|labels| - 1]| >= 1
    ensures |Join(labels)| >= 1
    ensures Join(labels)[|Join(labels)| - 1] == labels[|labels| - 1][|labels[|labels| - 1]| - 1]
  {
    if |labels| > 1 { LastCharacter(labels[1..]); }
  }

  lemma {:induction false} HostEndsInLetter(name: string)
    requires D.IsHostName(name)
    ensures |name| >= 1 && D.IsLetter(name[|name| - 1])
  {
    JoinOfSplit(name);
    LastCharacter(Split(name));
  }

  lemma {:induction false} AcceptedEndsInLetter(name: string)
    requires D.Validate(name)
    ensures |name| >= 1 && D.IsLetter(name[|name| - 1])
  {
    if Lower(name) == D.LOCALHOST {
      D.LocalhostIsLetters(name);
    } else if IsWildcardName(name) {
      HostEndsInLetter(SuffixOf(name));
    } else {
      HostEndsInLetter(name);
    }
  }

  lemma {:induction false} NormaliseIgnoresCaseAndDots(domain: string, query: string, n: nat)
    requires CanonicalName(domain) && SameIgnoringCase(query, domain)
    ensures Normalise(query + Dots(n)) == domain
  {
    AcceptedEndsInLetter(domain);
    var end := |domain| - 1;
    assert LowerChar(query[end]) == LowerChar(domain[end]);
    TrimsAllDots(query, n);
    LowerIsCanonical(query, domain);
    LowerIsCanonical(domain, domain);
  }

  /** A rule for an exact domain answers every spelling of it: any letter case, with or without
      the root dot, unless an ephemeral rule shadows a persistent one. */
  lemma {:induction false} ExactRuleServesEverySpelling(s: Store, domain: string, query: string, n: nat)
    requires Sound(s) && SameIgnoringCase(query, domain)
    ensures domain in s.eph.exact ==> Resolve(s, Normalise(query + Dots(n))) == Some(s.eph.exact[domain])
    ensures domain in s.per.exact ==>
      Resolve(s, Normalise(query + Dots(n))) == OrElse(LookUp(s.eph, domain), Some(s.per.exact[domain]))
  {
    if domain in s.eph.exact || domain in s.per.exact {
      NormaliseIgnoresCaseAndDots(domain, query, n);
    }
  }
}
