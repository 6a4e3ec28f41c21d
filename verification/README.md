# SideDNS: a verified model of the rule table and everything that follows it

SideDNS is a local DNS router. Clients send requests over IPC; the daemon changes one rule
table, announces each change on a broadcast channel, and two background tasks follow the
announcements: one invalidates a lookup cache and saves the rules, the other re-applies the
operating system's split-DNS configuration. This project models that system in Dafny and
proves what it keeps in every run, and exactly when it does not keep what one would expect.

`dafny verify dfyconfig.toml` checks the whole project.

## How the model is laid out

| file | what it holds |
|---|---|
| `Names.dfy`, `Rules.dfy` | names as text and as labels; the byte-level suffix test |
| `Regexes.dfy`, `Domains.dfy` | the domain expression with its language, the label grammar, the length bound |
| `Stores.dfy`, `InnerRuleStore.dfy` | the four-tier rule table as a value with its laws, and as the object updated in place |
| `Rcu.dfy` | any number of writers and readers on one copy-and-swap cell |
| `Requests.dfy`, `AppState.dfy` | requests, events, replay, query normalisation; the request handler |
| `EventBus.dfy` | store, handlers between mutation and send, event log, broadcast cursors |
| `Handlers.dfy` | the handlers on the copy-and-swap cell, refining the bus |
| `Rebuild.dfy` | exactly when the event log rebuilds the store |
| `RulesWatch.dfy`, `SystemDns.dfy`, `Daemon.dfy` | the cache and its watcher, the system DNS manager, and all of it interleaved |
| `StaleCache.dfy` | runs that end at rest with a stale cache, one per hypothesis of the coherence theorem |
| `Residue.dfy` | what an apply that fails leaves behind, in files and in domains, and runs that end so |
| `MacRuns.dfy`, `DropIn.dfy` | the whole daemon on the macOS directory, refining `Daemon`; the systemd drop-in file and its reload |
| `EndToEnd.dfy` | from validated requests to the configuration that is written out |
| `Resolver.dfy`, `Tasks.dfy` | the caching resolver object; the two task loops on the objects they update |
| `Subscribers.dfy`, `SplitDns.dfy`, `ProcessTree.dfy` | the event stream to a client, the macOS and systemd configuration, the process worklist |

A `char` stands for one byte, in names and in file contents; names are ASCII. The two layers of the table (ephemeral and
persistent) share one `Layer` type. A store operation is one atomic step on the bus; `Rcu`
proves that copy-and-swap writers are linear, and `Handlers.RunsAreBusRuns` that every run of
handlers on such a cell is a run of the bus. The transition systems
are functions `Next` with a predicate `Enabled`; a run is a sequence of states and steps, and
every main result is about each state of every run.

The log in `EventBus` is the whole history of dispatched events; a receiver is a cursor that jumps
to the oldest of the last 64 when it falls behind. An invalidation is not atomic: it sweeps the
cache in arbitrary parts, and lookups read and fill in between.

The coherence theorem is unconditional. Three causes can leave a cached name stale, and the
state records, for each name, which of them has hit it since its last invalidation: a lost
event (`skipped`), a removal that let one wildcard overtake another (`reordered`), and a fill
that an invalidation had overtaken (`raced`).

## Where the code differs from what one would expect

- Removing a wildcard swaps the last one into its slot. This changes the answer for a name the
  removed rule never matched in exactly the situations of `Stores.MutationFrame`, and each of
  them leads to a run with a stale cache at rest (`StaleCache.RemovalLeavesStale`).
- A lookup that reads the store before a change and fills the cache after the invalidation, an
  event dropped by the 64-entry channel, and an event sent before the watcher subscribed each
  leave a stale entry at rest (`RaceLeavesStale`, `LagLeavesStale`, `LateSubscriptionLeavesStale`).
- The README of SideDNS says that stopping leaves the machine "exactly as you left it". On macOS,
  with every file operation succeeding, that holds if and only if the resolver directory existed
  and held no managed file and no file named like a domain that was routed at any time during the
  run (`Tasks.RunRestoresIff`). The two ways it fails have their inputs: a user's file for a routed
  domain is lost (`SplitDns.RevertCanLoseAFile`), and an absent directory is created and stays
  (`SplitDns.RevertLeavesADirectory`).
- A failed apply ends the manager without a revert. Once the manager is over, nothing is routed if
  and only if its last step was a revert that deleted everything or a failure that left nothing in
  effect (`Daemon.WhatShutdownLeaves`, and file by file `MacRuns.WhatShutdownLeavesOnDisk`); a write
  that fails at its last newline does leave a route (`Residue.TornFileCanRoute`); every part of a
  table's domains is what some run leaves (`Residue.AnyPartCanBeLeft`); and the next start removes
  all of it except for a resolver file torn off before its marker was complete or inside its dash
  (`Residue.NextStartCleansIff`). On systemd a failed apply changes nothing that is in effect until
  someone reloads (`DropIns.FailedApplyTakesEffectLater`).
- Two handlers may send their events in the other order than they changed the store. In every state of
  every run the log rebuilds the store if and only if it agrees with the store changes on the last
  event about each exact domain and on what the wildcard events leave (`Rebuild.LogRebuildsIff`, with
  simpler conditions in `Rebuild.ExactLogRebuildsIff` and `Rebuild.AddedWildcardsRebuildIff`); it does
  whenever sends follow the order of the changes (`EventBus.LogIsComplete`). In every case the log is
  a permutation of an order that rebuilds the store (`EventBus.CommitOrderRebuilds`,
  `EventBus.EveryCommitIsSentOnce`).
- The length bound is one stricter than section 2.3.4 of RFC 1035 (`Domains.AcceptedNamesFitTheWire`);
  a name it refuses although it fits is `Domains.ARefusedNameFits`.
- `README.md:211` and `core/src/ipc/message.rs:26` of SideDNS describe the listing as all active rules,
  persistent and ephemeral; the handler lists the persistent ones. The description is true if and only
  if the persistent layer holds every ephemeral rule too (`Requests.ListingIsCompleteIff`); a table of
  one ephemeral rule lists nothing (`Requests.ListingHidesEphemeral`).

## Model

| member | source | states |
|---|---|---|
| Rules.BytesRefineLabels | core/src/rule.rs:18-27 | the byte test of a wildcard holds exactly when the labels of the name are a non-empty prefix followed by the labels of the suffix |
| Rules.MatchingIsByLabels | core/src/rule.rs:18-27 | matching of any pattern, exact or wildcard, in terms of labels only, both directions |
| Rules.WildcardsCompeteIffNested | core/src/rule.rs:18-27 | two wildcards have a matching name in common if and only if one suffix is a label suffix of the other |
| Domains.RegexIsGrammar | core/src/config.rs:25-30 | the regular expression, read as a language, accepts exactly the label grammar |
| Domains.ValidateIsRegexAndBound | core/src/lib.rs:21-23 | acceptance is the expression together with a length under 253, on every ASCII name |
| Domains.ValidateIgnoresCase | core/src/ipc/handler.rs:9-17 | lowercasing changes neither acceptance nor being a wildcard, so validating first and lowercasing after is safe |
| Domains.StarOnlyLeads | core/src/config.rs:25-30 | a star in an accepted name is its first character and a dot follows |
| Domains.AcceptedNamesFitTheWire | core/src/lib.rs:21-23 | accepted names encode to at most 254 octets with labels of 1 to 63; the grammatical names refused although they fit are exactly those of 253 characters |
| Domains.ARefusedNameFits | core/src/lib.rs:21-23 | a grammatical name of 253 characters, labels of 63, 63, 63 and 61 letters, that fits the wire and is refused |
| Stores.FirstMatchIsFirst | core/src/store.rs:128-130 | the wildcard search answers the first rule that matches, and nothing exactly when none does |
| Stores.Position | core/src/store.rs:76-79 | the first slot holding the domain, or nothing when no slot does |
| Stores.ResolveIsFirstMatch | core/src/store.rs:32-46 | the four-tier lookup is the first match in `all_rules()`, for every iteration order of the two hash maps |
| Stores.SnapshotDomains | core/src/state.rs:46-54 | the domains collected for the operating system are the same set in every iteration order |
| Stores.PerformWellFormed | core/src/store.rs:49-99 | every operation keeps exact keys equal to their non-wildcard domains and wildcard domains distinct |
| Stores.DeleteReturns | core/src/store.rs:74-99 | a removal answers with the rule of that domain exactly when the layer holds one, and otherwise changes nothing |
| Stores.InsertReplaces | core/src/store.rs:49-56 | as a set of rules, an insertion replaces the rule of its domain and touches no other |
| Stores.DeleteTakesOne | core/src/store.rs:74-85 | a removal takes away exactly the rule of its domain and answers exactly with it, however the list is reordered |
| Stores.RemovalCounts | core/src/store.rs:117-122 | the size drops by one exactly when a removal answers with a rule |
| Stores.LenCountsDomains | core/src/store.rs:117-122 | the size is the number of domains held, counted per layer |
| Stores.InsertFrame | core/src/store.rs:49-56 | an insertion never changes the answer for a name its rule does not match |
| Stores.InsertServes | core/src/store.rs:64-71 | for a name it does match, an exact rule takes it, a wildcard serves it only after exact rules and the other wildcards |
| Stores.SwapRemoveFrame | core/src/store.rs:76-83 | swapping out a slot changes the first match of an unmatched name exactly when the last rule overtakes a matching one in between |
| Stores.DeleteFrame | core/src/store.rs:74-85 | the same for a layer, with the new answer and with neither gain nor loss of an answer |
| Stores.MutationFrame | core/src/store.rs:49-99 | the exact frame of every operation on the whole table, tiers included: changed for an unmatched name if and only if a removal reorders competing wildcards |
| Stores.NoNestingMeansLocal | core/src/store.rs:74-99 | without nested wildcards in a layer no operation reorders anything |
| Stores.RestartRestoresPersistent | core/src/state.rs:56-78 | saving and loading into an empty store restores the persistent map and the wildcard order for every iteration order, and so every answer |
| InnerStore.InnerRuleStore.constructor | core/src/store.rs:25-27 | a new table is empty |
| InnerStore.InnerRuleStore.ResolveName | core/src/store.rs:32-46 | the early-return lookup computes the tiered resolution and answers only with a matching rule |
| InnerStore.InnerRuleStore.AddRule | core/src/store.rs:49-56 | retain-then-push or map insert, in place, as the insertion on values; keeps the invariant |
| InnerStore.InnerRuleStore.AddRules | core/src/store.rs:59-61 | the bulk loop is the left fold of insertions; keeps the invariant |
| InnerStore.InnerRuleStore.AddEphemeralRule | core/src/store.rs:64-71 | the same on the ephemeral fields, the persistent ones untouched |
| InnerStore.InnerRuleStore.RemoveRule | core/src/store.rs:74-85 | map removal and swap-removal in place as the deletion on values; no answer means no change |
| InnerStore.InnerRuleStore.RemoveEphemeralRule | core/src/store.rs:88-99 | the same on the ephemeral fields, the persistent ones untouched |
| Rcu.EveryRunIsLinear | core/src/store.rs:172-225 | for any number of writers and readers and any schedule: the cell is the sequential fold of the commits, each commit answers as its operation does on its predecessor, commits and operations correspond one to one, every snapshot in use is a committed state |
| Rcu.RealTimeOrder | core/src/store.rs:204-225 | an operation that returns at an earlier step than another begins precedes it in the sequential order, through any number of retries |
| Rcu.AnswersAreSequential | core/src/store.rs:204-225 | a returned operation owns its commit and answers what it yields on the committed state just before it |
| Rcu.RetriesAreBounded | core/src/store.rs:204-225 | a writer fails at most once per commit of the other writers |
| Rcu.ReadersSeeOneState | core/src/store.rs:167-169 | a reader answers from the one committed state it loaded, however late it evaluates |
| Rcu.LoadsSeeReturnedWrites | core/src/store.rs:144-145 | a load sees every write that has returned before it |
| Requests.RequestEffect | core/src/ipc/handler.rs:23-71 | what each accepted request does to the rules of its layer, rule by rule under the lowercased domain, the other layer untouched |
| Requests.EventReplaysOp | core/src/ipc/handler.rs:23-71 | an operation and its event have the same effect, the event names the operation's domain, and no event means no change |
| Requests.EventsRebuildStore | core/src/ipc/handler.rs:21-71 | requests served one after another leave exactly the store their events rebuild, wildcard order included |
| Requests.EveryStoreIsSound | core/src/ipc/handler.rs:9-71 | in every history of requests and restarts, each restart from the file of any earlier moment, the table is well-formed and all domains are valid and lowercase |
| Requests.NormaliseIgnoresCaseAndDots | core/src/dns/server.rs:41-42 | every casing of a canonical domain, with any number of trailing dots, normalises to it |
| Requests.ExactRuleServesEverySpelling | core/src/dns/server.rs:41-42 | an exact rule answers every spelling of its domain, a persistent one unless an ephemeral rule shadows it |
| Requests.ListingIsCompleteIff | core/src/ipc/handler.rs:73-76 | the listing is exactly the active rules of both layers if and only if the persistent layer holds every ephemeral rule |
| Requests.ListingHidesEphemeral | README.md:211-211 | a table of one ephemeral rule: it answers its name and the listing is empty |
| AppStates.AppState.Handle | core/src/ipc/handler.rs:21-95 | new store, events, cancellation and answer of every request; a mutating request answers Ok exactly when it emitted one event, and an error changes nothing |
| AppStates.AppState.Save | core/src/state.rs:56-65 | the saved list, and that loading it restores the persistent layer |
| AppStates.AppState.LoadRules | core/src/state.rs:67-78 | an unreadable file counts as empty; the rules are added in bulk and the invariant kept |
| EventBus.MutationIsAnnounced | core/src/ipc/handler.rs:23-71 | an answer changes only under an event in flight that concerns the name, or by reordering |
| EventBus.CommitOrderRebuilds | core/src/ipc/handler.rs:21-71 | however handlers interleave, the events in the order of the store changes rebuild the store |
| EventBus.EveryCommitIsSentOnce | core/src/ipc/handler.rs:29-31 | events sent and in flight are, with multiplicity, exactly those of the store changes: none lost, none sent twice, so the log is a permutation of a rebuilding order |
| EventBus.LogIsComplete | core/src/ipc/handler.rs:21-71 | whenever sends follow the order of the store changes, folding the log over the initial store is the store once nothing is in flight |
| EventBus.TurnsKeepOrder | core/src/ipc/handler.rs:21-71 | handlers that take turns send in that order |
| Handlers.StepRefines | core/src/store.rs:172-225 | loading, computing, failing, retrying and returning are invisible on the bus; the successful swap is the whole operation |
| Handlers.RunsAreBusRuns | core/src/ipc/handler.rs:23-71 | every run of handlers on the cell is a run of the bus with the same store, events in flight and log at every moment, whose mutations are the commits in order |
| Handlers.CellRebuilds | core/src/ipc/handler.rs:23-71 | however writers retry and sends interleave, the events of the commits rebuild the cell, and sent and owed events are exactly those |
| Rebuild.ReplaysAgreeIff | core/src/ipc/handler.rs:23-71 | two logs rebuild the same store if and only if they agree on the last event about each exact domain and on the list the wildcard events leave |
| Rebuild.LogRebuildsIff | core/src/ipc/handler.rs:29-31 | in every state of every run the log rebuilds the store if and only if it agrees in that way with the events in the order of the store changes |
| Rebuild.ExactLogRebuildsIff | core/src/ipc/handler.rs:29-31 | on exact domains the last events alone decide, with anything in flight |
| Rebuild.AdditionsLeave | core/src/store.rs:49-56 | additions leave the untouched old wildcards, then each added one at its last addition |
| Rebuild.AddedWildcardsRebuildIff | core/src/ipc/handler.rs:29-31 | where wildcards are only added, and nothing is in flight: if and only if the last events about exact domains and the order of the last wildcard additions agree |
| Rebuild.SwappedSendsMisleadIff | core/src/ipc/handler.rs:29-31 | two changes whose sends are swapped, wildcards only added: the log rebuilds a wrong store if and only if they are wildcards of one layer or one exact domain of one layer, and not two equal additions |
| RulesWatch.CacheUnderBus | core/src/ipc/handler.rs:23-71 | every mutation and send keeps each cached and each held value accounted for |
| RulesWatch.CacheUnderWatch | core/src/dns/resolver.rs:33-68 | every step of lookups and watcher keeps them accounted for: lag, subscription, and an invalidation that sweeps the concurrent map part by part while lookups go on |
| RulesWatch.SavedUnderWatch | core/src/runner.rs:88-104 | every step of the watcher keeps the saved file accounted for |
| RulesWatch.EveryTraceSettles | core/src/runner.rs:83-107 | every trace of watcher and lookups has a bounded number of steps forward; at rest cache and file are settled, and short of that a step forward is possible |
| RulesWatch.WatcherCatchesUp | core/src/runner.rs:83-107 | some trace of the watcher alone comes to rest, in at most five steps per event |
| SystemDns.ManagerUnderBus | core/src/state.rs:46-54 | mutations and sends keep the applied or snapshotted domains current or owed a refresh |
| SystemDns.SkipKeepsCurrent | core/src/dns/sys/mod.rs:95-95 | when the manager lags, the channel still holds a rule event for it |
| SystemDns.ManagerUnderManager | core/src/dns/sys/mod.rs:69-100 | every step of the manager from start-up on keeps the same, subscription before the first snapshot included |
| SystemDns.EveryTraceCatchesUp | core/src/dns/sys/mod.rs:69-100 | every trace of the manager without cancellation or failure is bounded by three steps per event; at rest the operating system has the store's domains, and short of that the next step is enabled |
| SystemDns.ManagerCatchesUp | core/src/dns/sys/mod.rs:69-100 | such a trace comes to rest from any backlog and through lag |
| Daemon.CacheCoherence | core/src/dns/resolver.rs:33-40 | in every state of every run a cached entry agrees with the store, or a concerning event is in flight or waiting, or one of the three recorded causes hit the name since its last invalidation |
| Daemon.CacheShowsOneMoment | core/src/dns/resolver.rs:33-40 | stale or not, every cached and every held rule is what the store answered for that name at one moment of the run |
| Daemon.CoherentAtRest | core/src/dns/resolver.rs:33-40 | at rest, with no lost event, no raced fill and never nested wildcards, the caching resolver is the bare store on every name |
| Daemon.SavedRulesConverge | core/src/runner.rs:88-104 | once saved, the file is the persistent snapshot unless a persistent event is in flight, waiting, in hand, lost, or its save failed |
| Daemon.RestartAtRest | core/src/state.rs:56-78 | at rest with nothing lost, the next daemon loads exactly the persistent layer |
| Daemon.SystemConverges | core/src/dns/sys/mod.rs:77-100 | before any stop, between applies, the operating system routes exactly the store's domains unless a handler has yet to send or the channel holds a rule event for the manager; lag does not break it |
| Daemon.SystemShowsOneMoment | core/src/dns/sys/mod.rs:69-91 | between applies the operating system routes exactly what the store held at one moment of the run, never a mixture or a leftover of a crashed predecessor |
| Daemon.EveryScheduleConverges | core/src/runner.rs:67-109 | in every stretch of every run in which only the two tasks and lookups move, in any interleaving: bounded steps forward, agreement of cache, file and operating system with the unchanged store at rest, and a step forward possible short of rest |
| Daemon.DaemonCatchesUp | core/src/runner.rs:67-109 | some schedule comes to rest from any reachable state with nothing in flight |
| Daemon.RoutesPartOfOneMoment | core/src/dns/sys/mod.rs:69-108 | in every state, also after a failure half-way, what is routed is part of what the store held at one moment of the run or of a predecessor's leftovers |
| Daemon.WhatShutdownLeaves | core/src/dns/sys/mod.rs:91-105 | once the manager is over, one step ended it, nothing has moved since, and nothing is routed if and only if that step had deleted all there was, or failed with nothing in effect, or failed at a write of which and before which nothing usable is left |
| Daemon.EarlyFailureLeavesNothingIff | core/src/dns/sys/mod.rs:70-76 | after a successful clean-up and a failed first apply, nothing is routed from then on if and only if no write left a usable file |
| StaleCache.RemovalLeavesStale | core/src/store.rs:74-99 | every store and removal that meet the reordering condition have a run that ends at rest with a stale answer, without loss or race |
| StaleCache.AReorderingStore | core/src/store.rs:81-81 | a concrete table and removal that meet the condition |
| StaleCache.RaceLeavesStale | core/src/dns/resolver.rs:37-38 | a run with a fill after the invalidation ends at rest with a stale answer, without loss or reordering |
| StaleCache.LateSubscriptionLeavesStale | core/src/runner.rs:77-82 | an event sent before the watcher subscribed leaves a stale answer at rest |
| StaleCache.LagLeavesStale | core/src/runner.rs:102-102 | one concerning event pushed out by 64 others leaves a stale answer at rest |
| Residue.TryApply | core/src/dns/sys/macos.rs:49-61 | the apply with every file operation that can fail: the directory after each failure, or the complete configuration |
| Residue.CompletedShows | core/src/dns/sys/macos.rs:49-67 | a completed apply routes exactly its domains, a completed revert none |
| Residue.FaultRefines | core/src/dns/sys/macos.rs:35-61 | every failing file operation is a fault of the manager's transition system and leaves exactly the domains that system says, torn files that still route included |
| Residue.TornFileCanRoute | core/src/dns/sys/macos.rs:55-57 | a first write torn off before its last newline fails and routes its domain |
| Residue.NothingManagedIff | core/src/dns/sys/macos.rs:49-61 | a failed apply leaves no managed file if and only if there was none before and no recognisable one was written or torn |
| Residue.NextStartCleansIff | core/src/dns/sys/macos.rs:29-45 | the revert of the next start leaves exactly the user's other files, and the torn file if and only if it is not recognisable |
| Residue.NothingRoutedIff | core/src/dns/sys/macos.rs:55-57 | on accepted domains a failed write leaves nothing routed if and only if its file is not usable and it was the first, or the second, opened, on the same file as the first |
| Residue.FailureLeaves | core/src/dns/sys/mod.rs:70-76 | every failure of the first apply happens in a run from the start, and its residue stays |
| Residue.AnyPartCanBeLeft | core/src/dns/sys/mod.rs:91-91 | every part of a table's domains is what some run leaves routed |
| Residue.AResidue | core/src/dns/sys/mod.rs:76-76 | a run of two rules that ends with one of them routed |
| MacRuns.StepMatches | core/src/dns/sys/macos.rs:35-67 | every step on files, failing ones included, is a step of the daemon after which the directory routes exactly the applied domains |
| MacRuns.FilesMirrorTheRun | core/src/dns/sys/mod.rs:65-108 | every run on files is a run of the daemon, and in every state the directory routes exactly the applied domains |
| MacRuns.FilesAreOfOneMoment | core/src/dns/sys/mod.rs:69-108 | in every state what the directory routes is the files of part of one moment's table or of what a predecessor left |
| MacRuns.WhatShutdownLeavesOnDisk | README.md:22-28 | once the manager is over, no file routes if and only if the ending step left none, in terms of the files and the failing operation |
| MacRuns.DirectoryCovers | core/src/dns/sys/macos.rs:49-61 | in runs of accepted requests, once every change is announced, the directory routes a name if and only if the table resolves it or it is a bare wildcard name or below an exact rule |
| DropIns.DropIn.TryApply | core/src/dns/sys/systemd.rs:37-67 | the drop-in file after each failure; only a completed apply changes what is in effect |
| DropIns.DropIn.TryRevert | core/src/dns/sys/systemd.rs:69-77 | a missing file needs no removal; a failed removal or reload leaves the old domains in effect |
| DropIns.FailedApplyTakesEffectLater | core/src/dns/sys/systemd.rs:59-60 | a failed apply changes nothing in effect; a later reload puts the old, the first few or all new domains into effect, by the operation that failed |
| EndToEnd.RequestsAreValidated | core/src/ipc/handler.rs:9-71 | the operation behind an accepted request is on a valid lowercase domain |
| EndToEnd.StaysSound | core/src/ipc/handler.rs:9-71 | in runs of such operations the table stays sound in every state, whatever the tasks do |
| EndToEnd.WrittenConfigurationCovers | core/src/dns/sys/mod.rs:18-26 | in such runs, once every change is announced, the files and the systemd entries written for the applied domains cover every name the table resolves, and beyond those exactly the bare names of wildcards and the names below exact rules |
| EndToEnd.AnsweredNamesAreRouted | core/src/dns/resolver.rs:33-40 | under the hypotheses of coherence at rest, a name the caching resolver answers is one the operating system sends to the daemon |
| Resolver.DomainResolver.ResolveDomain | core/src/dns/resolver.rs:33-40 | answers from the cache, else from the store and remembers it; no answer for any name changes |
| Resolver.DomainResolver.SignDomain | core/src/dns/resolver.rs:42-52 | the certificate the authority signs for the name, remembered; nothing without an authority |
| Resolver.DomainResolver.InvalidateBy | core/src/dns/resolver.rs:54-67 | both caches lose exactly the names the rule's own matching accepts and keep every other entry |
| Resolver.DomainResolver.ResolveCert | core/src/dns/resolver.rs:72-94 | a certificate is handed out exactly for a named client of an HTTPS rule that the authority signs for, and it is that domain's certificate |
| Resolver.DomainResolver.AnswersLocally | core/src/dns/server.rs:83-91 | answered locally exactly for address queries of a routed name; other queries leave the cache alone |
| Tasks.WatchRules | core/src/runner.rs:83-107 | drops exactly the names some delivered event concerns from both caches and keeps all other values; leaves the snapshot taken at the last persistent event saved; a lagged turn does neither; the store may change between turns |
| Tasks.FollowEvents | core/src/dns/sys/mod.rs:77-100 | after the event loop the directory shows the domains of the last rule event, or the first ones, beside the user's files never routed |
| Tasks.RunSystemDnsManager | core/src/dns/sys/mod.rs:65-108 | after a whole life of the manager the directory exists and holds exactly the user's files whose names were never routed, and nothing managed |
| Tasks.RunRestoresIff | README.md:22-28 | the directory is exactly as before if and only if it existed and held no managed file and none named like a domain ever routed |
| Subscribers.HandleSubscribe | core/src/ipc/server.rs:193-220 | the loop writes a selection, in order, of the events after subscription, and a gap-free prefix of them when the client keeps up |
| Subscribers.StreamIsFaithful | core/src/ipc/server.rs:193-220 | order-preserving subsequence, and every event up to the cursor was written or lost |
| Subscribers.GapFreeIffKeptUp | core/src/state.rs:28-28 | everything up to the cursor was written if and only if the client was never more than 64 events behind |
| SplitDns.CutIsManagedIff | core/src/dns/sys/macos.rs:21-33 | a resolver file cut short is recognised exactly if its marker is complete and the cut leaves valid UTF-8 |
| SplitDns.CutRoutesIff | core/src/dns/sys/macos.rs:21-27 | it routes, naming the server on a complete line, exactly if at most its last newline is missing |
| SplitDns.AppliedIsRouted | core/src/dns/sys/macos.rs:49-61 | exactly the stripped names are routed after an apply |
| SplitDns.ResolverDirectory.RemoveAllFiles | core/src/dns/sys/macos.rs:35-45 | deletes exactly the files that carry the marker, in any directory order; an absent directory stays absent |
| SplitDns.ResolverDirectory.Apply | core/src/dns/sys/macos.rs:49-61 | the directory exists afterwards, exactly the stripped names are managed, whatever was there before, and other files of the user stay |
| SplitDns.ResolverDirectory.Revert | core/src/dns/sys/macos.rs:63-67 | no managed file is left and every other file stays |
| SplitDns.ApplyAndRevertAreIdempotent | core/src/dns/sys/mod.rs:18-26 | repeating an apply or a revert changes nothing |
| SplitDns.ApplyForgetsHistory | core/src/dns/sys/macos.rs:49-61 | a later apply makes an earlier one irrelevant if and only if the earlier overwrote no user file the later leaves alone |
| SplitDns.RevertRestoresIff | core/src/dns/sys/macos.rs:49-67 | apply then revert restores the directory if and only if it existed, nothing was managed and no file bore a routed name |
| SplitDns.RevertCanLoseAFile | core/src/dns/sys/macos.rs:55-57 | a user's own file for a routed domain is gone after apply and revert |
| SplitDns.RevertLeavesADirectory | core/src/dns/sys/macos.rs:50-50 | an absent directory is there, empty, after apply and revert |
| SplitDns.DropStripsAccepted | core/src/dns/sys/macos.rs:56-56 | for an accepted domain, replacing every `*.` is stripping the leading one |
| SplitDns.RoutingNameIsBare | core/src/dns/sys/systemd.rs:40-50 | the systemd entry of a domain stands for its name without the leading `*.` |
| SplitDns.PlatformsCover | core/src/dns/sys/systemd.rs:40-50 | both platforms cover every name the store resolves, and beyond those exactly the bare names of wildcards and the names below exact rules |
| ProcessTree.DetectProcesses | cli/src/run.rs:26-44 | on every process table, cycles and self-parents included, the worklist ends with exactly the descendants of the start and pops no pid twice |
| ProcessTree.PushChildren | cli/src/run.rs:36-43 | the inner loop, in any order, pushes every child that is not yet a target and none twice |

## Left out

- Subscribers.HandleSubscribe: a failed write to the client ends the stream; the model has no failing write, so it covers every stream up to that point.
- Tasks.WatchRules: other tasks move between its turns and not inside one; the interleaving inside a turn is the subject of the `Daemon` theorems.
- Tasks.RunSystemDnsManager: every file operation succeeds; failing ones are the subject of `Residue` and `Daemon`.
- SplitDns.ResolverDirectory.Apply: sub-directories, symbolic links, files that cannot be opened, a directory that exists and cannot be listed, and volumes that ignore the case of file names are not modelled.
- Residue.TryApply: one operation fails and the apply ends; parents created by a failing creation of the directory are not modelled.
- DropIns.DropIn.TryApply: a torn drop-in file keeps the entries before the cut; a half-written entry is not modelled.
- SplitDns.AppliedIsRouted: a user's own file that names the daemon's server is not counted as routed by the daemon.
- Rebuild.LogRebuildsIff: with wildcard removals the condition on a layer's list is that the two sequences of wildcard events leave the same list; no shorter one is given.
- Resolver.DomainResolver.SignDomain: signing is an arbitrary function of the name; certificate generation and trust stores are not modelled.
- The certificate cache is modelled in the resolver object and not in the interleaved system.
- The channel of the source stores nothing while it has no receiver; the model's log keeps such events, at positions no cursor ever reads.
- Cancellation may reach a task at any time it listens; the model does not say when the token is cancelled.
- Joining the systemd entries into one line, and the Windows rules.
- HTTP, HTTPS and WebSocket proxying, TLS, and DNS message building and forwarding.
- Sockets, JSON, the IPC client, the command line, logging and process start-up.
- Reading the process table and filtering listening sockets by the pids found.
- Non-ASCII names: the expression of the source is case-insensitive over Unicode.
