/** The daemon's shared state and its request handler, updated in place (core/src/state.rs,
    core/src/ipc/handler.rs). A store operation is one atomic step, as `Rcu` justifies. */
module AppStates {
  import opened Names
  import opened Rules
  import D = Domains
  import opened Stores
  import opened Requests

  class AppState {
    var store: Store
    var events: seq<Event>
    var cancelled: bool

    constructor ()
      ensures store == EMPTY_STORE && events == [] && !cancelled
    {
      store, events, cancelled := EMPTY_STORE, [], false;
    }

    /** One request. `order` is the order in which a listing walks the hash map. */
    method Handle(req: Request, order: seq<string>) returns (resp: Response)
      requires Visits(order, store.per.exact)
      modifies this
      ensures store == StoreAfter(old(store), req)
      ensures events == old(events) + EventsOf(old(store), req)
      ensures cancelled == (old(cancelled) || req.ReqStop?)
      ensures Mutating(req) ==> (resp.Ok? <==> |events| == |old(events)| + 1)
      ensures Mutating(req) && !resp.Ok? && old(WellFormed(store)) ==> store == old(store) && resp.Error?
      ensures req.ReqList? ==> resp == RuleList(PersistentRules(store, order))
      ensures req.ReqResolve? && D.Validate(req.domain) ==> resp == Resolved(Resolve(store, Lower(req.domain)))
      ensures (req.ReqResolve? || Mutating(req)) && !D.Validate(req.domain) ==>
                resp == Error("Invalid domain name: " + req.domain)
      ensures req.ReqStatus? ==> resp == Status(true, Len(store))
    {
      ghost var before := store;
      if WellFormed(before) && OpOf(req).Some? { EventReplaysOp(before, OpOf(req).value); }
      match req {
        case ReqAdd(domain, target, https) =>
          if !D.Validate(domain) {
            return Error("Invalid domain name: " + domain);
          }
          var rule := Rule(Lower(domain), target, https);
          store := Perform(store, Add(rule)).store;
          events := events + [RuleAdded(rule)];
          resp := Ok;
        case ReqAddEphemeral(domain, target, https) =>
          if !D.Validate(domain) {
            return Error("Invalid domain name: " + domain);
          }
          var rule := Rule(Lower(domain), target, https);
          store := Perform(store, AddEphemeral(rule)).store;
          events := events + [EphemeralAdded(rule)];
          resp := Ok;
        case ReqRemove(domain) =>
          if !D.Validate(domain) {
            return Error("Invalid domain name: " + domain);
          }
          var out := Perform(store, Remove(Lower(domain)));
          store := out.store;
          if out.removed.Some? {
            events := events + [RuleRemoved(out.removed.value)];
            resp := Ok;
          } else {
            resp := Error("No rule found for '" + Lower(domain) + "'");
          }
        case ReqRemoveEphemeral(domain) =>
          if !D.Validate(domain) {
            return Error("Invalid domain name: " + domain);
          }
          var out := Perform(store, RemoveEphemeral(Lower(domain)));
          store := out.store;
          if out.removed.Some? {
            events := events + [EphemeralRemoved(out.removed.value)];
            resp := Ok;
          } else {
            resp := Error("No ephemeral rule found for '" + Lower(domain) + "'");
          }
        case ReqList =>
          resp := RuleList(PersistentRules(store, order));
        case ReqResolve(domain) =>
          if !D.Validate(domain) {
            return Error("Invalid domain name: " + domain);
          }
          resp := Resolved(Resolve(store, Lower(domain)));
        case ReqStatus =>
          resp := Status(true, Len(store));
        case ReqStop =>
          events := events + [DaemonStopped];
          cancelled := true;
          resp := Ok;
        case ReqSubscribe =>
          resp := Ok;
      }
    }

    /** The list that is written to the rules file. */
    method Save(order: seq<string>) returns (file: seq<Rule>)
      requires Visits(order, store.per.exact)
      ensures file == PersistentRules(store, order)
      ensures WellFormed(store) ==> Perform(EMPTY_STORE, AddAll(file)).store == Store(EMPTY_LAYER, store.per)
    {
      file := PersistentRules(store, order);
      if WellFormed(store) { RestartRestoresPersistent(store, order, ""); }
    }

    /** Load a rules file; an unreadable one counts as empty. */
    method LoadRules(file: Option<seq<Rule>>) returns (rules: seq<Rule>)
      modifies this
      ensures rules == if file.Some? then file.value else []
      ensures store == Perform(old(store), AddAll(rules)).store
      ensures events == old(events) && cancelled == old(cancelled)
      ensures old(WellFormed(store)) ==> WellFormed(store)
    {
      rules := if file.Some? then file.value else [];
      if WellFormed(store) { PerformWellFormed(store, AddAll(rules)); }
      store := Perform(store, AddAll(rules)).store;
    }
  }
}
