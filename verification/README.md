# Cloud Foundry TCP router: model and proofs

The TCP router keeps a routing table fed by routing API events, by bulk syncs and by a
TTL pruner, and turns it into HAProxy's configuration file. This project models both
halves and the link between them in Dafny, and proves what the router relies on.

## What is modelled

**The routing table and its updater.** `RoutingModel.dfy` holds the values: routing keys
(port and SNI host name), backends, modification tags, TTLs, and what upsert, delete, prune
and sync mean on a table. `RoutingTables.dfy` and `Updaters.dfy` are the objects the router
changes in place: one map object per routing key, the table, the updater with its `syncing`
flag, its cache of events and its drain flag. Their methods are proved against the functions
of `RoutingModel.dfy` and `Events.dfy`, and `Valid()` keeps the map objects of distinct keys
apart. `TableLaws.dfy` says what those functions do in terms of the fields alone: which tags win,
which details are kept, when a backend's time is over, and what a mapping asks for.

`UpdaterSteps.dfy` is the same updater as a step system. Any number of syncs and drains may
be under way at once, each in its own goroutine. The updater lock, the single upserts a sync
makes without it, and the start and the return of a call to the configurer are separate
steps; fetch results are free. `UpdaterInvariants.dfy` and `Staleness.dfy` show what each
step keeps, and `UpdaterTheorems.dfy` what follows for every run. `UpdaterHistories.dfy` shows why
a pair leaves the table, what prunes and drains did in the past of a state, and that a sync no
other step disturbs is the sync of `Updaters.dfy`.

**From table to text.** `DnsNames.dfy` holds the regular expression for names and the scanner
that decides it (the size limits imitate section 2.3.4 of RFC 1035). `HAProxyConfigs.dfy`
validates, groups and sorts. A Go map has no iteration order, so the result is a function of the
orders in which the maps yield their keys, `ConfigInOrder`; `IterationOrders.dfy` shows that the
results of all orders are exactly the configurations `IsConfigOf` describes. `Marshaller.dfy` prints. `HAProxySyntax.dfy` is the printed subset of HAProxy's
language with a parser, `RoundTrip.dfy` and `PrintedText.dfy` say when printing can be read
back, `Meaning.dfy` is an interpreter for it (a connection has a port and perhaps a server
name, the HostName of section 3 of RFC 6066; a frontend knows the name only if it waits for
the TLS hello), and `TableMeaning.dfy` ties the interpreted text to the table. `References.dfy`
is about the names in the text.

**Around them.** `Configurers.dfy` writes the file and reloads HAProxy with every step free to
fail. `Metrics.dfy` converts HAProxy's statistics with 64-bit counters that wrap around.
`EndToEnd.dfy` joins the halves: from any run of the updater to the file, and to what HAProxy
answers from it. `Sorting.dfy`, `Text.dfy` and `Sequences.dfy` hold what the others need about
Go's stable sort, strings and concatenation.

## Where the code is not what one might expect

- Pruning does not call the configurer, so HAProxy keeps a pruned route until the next change.
  `NoLiveRouteMissing` therefore counts the pairs pruned since the last call.
- A sync adopts the fetched table only when the numbers of routing keys differ. A stale backend
  under a key that is still fetched stays: `SyncYieldsSnapshotIff` says when none does.
- A prune in the middle of a sync can be undone by the adoption: `PruneInsideSyncIsUndone` is a
  reachable state with an expired backend right after a prune. `OnlyAdoptionBringsBackStale`
  shows that nothing else can do this. The age bounds therefore depend on how long syncs take
  from fetch to adoption (`AgeBounded`), or count from the last prune that no sync's upserts
  overlapped (`StalenessBounded`).
- A sync that starts over another one throws its cached events away. Nothing else loses events,
  `OnlyOverlapLosesEvents`, and it does happen, `OverlapLosesEvent`.
- `DifferentFrom` is always false, so an upsert that only changes a tag never reconfigures.
- Servers are sorted by address and plain port only, and a stable sort leaves ties in map order.
  The configuration is independent of that order exactly for tables without ties:
  `ConfigDeterminedIff`.
- Instance ids are only checked to be non-empty. `TableRoundTrip` says that the text reads back
  exactly when they, and the certificate paths printed with them, are single words.
- The comment above `proxyKey` speaks of names such as `listen_cfg_9001`. The names the router
  prints never parse so, except for a host name that is a number: `PrintedNamesAsProxies`.

## Assumptions

- `ModificationTag.SucceededBy` belongs to a library that is not part of this model. For
  non-empty guids it is fixed as the tests of `models/routing_table_test.go` have it (lines
  387-490 and 607-621): same guid means strictly greater index, another guid means succeeded.
  A guid is non-empty by its type.
- Renaming a file either happens or does not, and a failed write may leave any part of the data.
- A character stands for one byte, and white space is what HAProxy's configuration parser takes
  for it between words.

## Model

| member | source | states |
|---|---|---|
| `RoutingTables.BackendMap.NewRoutingTableEntry` | models/routing_table.go:50-61 | a new entry is a map object of its own holding the backends of the list, each stamped with its own reading of the clock |
| `RoutingTables.LastDetailsWin` | models/routing_table.go:54-59 | of the details given for one backend the last ones are kept |
| `RoutingTables.OnlyListedBackends` | models/routing_table.go:54-59 | an entry holds a backend iff the list does |
| `RoutingTables.BackendMap.PruneBackends` | models/routing_table.go:76-83 | deleting while iterating leaves exactly the backends that have not expired, details untouched |
| `RoutingTables.RoutingTable.UpsertBackendServerKey` | models/routing_table.go:135-163 | the in-place upsert is Upsert on values, returns true iff the pair was absent, keeps distinct keys on distinct map objects and leaves every other map object untouched |
| `RoutingTables.RoutingTable.DeleteBackendServerKey` | models/routing_table.go:166-189 | the in-place delete is Delete on values, returns true iff it applies, and touches no other map object |
| `RoutingTables.RoutingTable.PruneEntries` | models/routing_table.go:110-118 | the two nested deleting loops are Prune on values and keep the separation |
| `RoutingTables.RoutingTable.Adopt` | routing_table/updater.go:138 | the live table becomes the fresh one, map objects included |
| `RoutingModel.UpsertPairs` | models/routing_table.go:135-163 | an upsert adds its own pair and nothing else, and removes none |
| `RoutingModel.DeletePairs` | models/routing_table.go:166-189 | a delete that applies removes exactly its pair; one that does not changes nothing at all |
| `RoutingModel.DeleteAppliesIffPairsChange` | models/routing_table.go:95-97 | the flag of a delete is true iff the set of pairs changed |
| `RoutingModel.PruneIsExact` | models/routing_table.go:99-118 | a pair outlives a prune iff its backend has not expired, details unchanged, and exactly the keys left empty go |
| `TableLaws.PruneByTime` | models/routing_table.go:99-118 | a pair leaves in a prune iff more time has passed since its update than its TTL in seconds, or the default TTL where it has none; what stays keeps its details |
| `RoutingModel.PruneComposes` | models/routing_table.go:76-118 | pruning at one time and again later is pruning once at the later time |
| `TableLaws.UpsertByTag` | models/routing_table.go:146-156 | an absent pair, another guid or a greater index of the same guid stores tag, TTL and time whole; any other upsert leaves the table equal, and no other backend or key is touched |
| `TableLaws.LastRaiseStays` | models/routing_table.go:146-156 | after a list of upserts with one guid per pair, tag, TTL and time are those of the last one that raised the index |
| `TableLaws.NoRaiseKeeps` | models/routing_table.go:146-156 | where none raised the index, the details held before stay |
| `TableLaws.RefreshedOutlivesPrune` | models/routing_table.go:99-156 | a backend that an upsert refreshed survives every prune within the TTL it came with |
| `TableLaws.DeleteByTag` | models/routing_table.go:166-189 | a delete with the tag held, a greater index or another guid removes its backend, and the key with the last one; any other changes nothing, and nothing else is touched |
| `TableLaws.StaleDeleteIgnored` | models/routing_table.go:95-97 | a delete with a smaller index of the same guid changes nothing |
| `RoutingModel.UpsertAllPairs` | routing_table/updater.go:125-133 | a list of upserts adds exactly its pairs |
| `RoutingModel.UpsertAllHoldsMaximum` | models/routing_table.go:91-93 | with one guid per pair, the table ends with the greatest index seen for each pair |
| `RoutingModel.UpsertsConverge` | models/routing_table.go:135-163 | lists of upserts with the same content, in any order, repeated at will and at any times, give every pair the same tag |
| `RoutingModel.AdoptionIsExact` | routing_table/updater.go:135-139 | the comparison of sizes decides whether the live table has a routing key that was not fetched |
| `RoutingModel.SyncTableKeys` | routing_table/updater.go:122-140 | after a sync the routing keys are exactly the fetched ones |
| `RoutingModel.SyncTablePairs` | routing_table/updater.go:122-140 | after a sync no fetched pair is missing, and which others remain |
| `RoutingModel.SyncYieldsSnapshotIff` | routing_table/updater.go:122-140 | a sync leaves exactly the fetched pairs iff a key was dropped or no live backend was stale under a fetched key |
| `TableLaws.EventByMapping` | routing_table/updater.go:213-279 | by the fields of the mapping, no SNI meaning the empty name: an upsert event adds its pair and brings its details if they are news, a delete event removes its pair or changes nothing, any other event changes nothing |
| `TableLaws.EventLeavesOthers` | routing_table/updater.go:213-279 | an event leaves the details of every other pair as they were |
| `Events.UpsertEventChangesIff` | routing_table/updater.go:258-267 | an upsert event changes the pairs iff its pair was absent |
| `Events.DeleteEventChangesIff` | routing_table/updater.go:269-279 | a delete event changes the pairs iff the delete applies |
| `Events.NoChangeKeepsPairs` | routing_table/updater.go:143-154 | events none of which reports a change leave the pairs as they were |
| `Updaters.Updater.HandleOne` | routing_table/updater.go:213-227 | one event: the new table, the returned flag, and a configurer call iff the pairs changed and no sync is under way; an unknown action is an error and changes nothing |
| `Updaters.Updater.HandleEvent` | routing_table/updater.go:168-180 | during a sync an event is appended to the cache and nothing else happens; otherwise it is applied, and an unknown action is returned as an error |
| `Updaters.Updater.ApplyCachedEvents` | routing_table/updater.go:143-154 | the cached events are applied in order, once each, without configurer calls, and the flag is the OR of theirs |
| `Updaters.Updater.UpsertMappings` | routing_table/updater.go:123-133 | the loop over the fetched mappings leaves the folds of the same upserts in both tables, which share no map object; the flag is true iff the live pairs grew |
| `Updaters.Updater.FetchMappings` | routing_table/updater.go:97-119 | at most two attempts, the second only after "unauthorized" and with a token that is not cached; the routes of the attempt that brought them are returned |
| `Updaters.Updater.SyncRoutes` | routing_table/updater.go:122-140 | upserts and adoption leave SyncTable; the flag is true iff a fetched pair was absent or a live key was not fetched |
| `Updaters.Updater.Sync` | routing_table/updater.go:72-141 | a whole sync with events arriving in it: the table is the cached events applied to SyncTable, the cache is empty and syncing false on every way out, and there is one configurer call, with that table, iff something changed; by the replies alone, the routes fetched at the first attempt, or at the second after an unauthorized first one, are followed |
| `Updaters.SyncedTableFollows` | routing_table/updater.go:97-140 | said of the replies alone: if the first attempt brought routes, or it was unauthorized and the second did, the keys are exactly those of the routes, every pair of them is there, and the details are those of upserting them in order; otherwise the table is the old one |
| `Updaters.SyncKeepsNoEmptyEntry` | routing_table/updater.go:72-141 | a whole sync leaves no routing key without backends where there was none |
| `Updaters.Updater.PruneStaleRoutes` | routing_table/updater.go:59-70 | the table is pruned at the default TTL and the configurer is not called |
| `Updaters.Updater.Drain` | routing_table/updater.go:182-211 | the first drain sets the flag and calls the configurer with it; a later one does neither |
| `UpdaterTheorems.InvariantOverRun` | routing_table/updater.go:27-279 | every state of every run satisfies the conjunction of all step invariants |
| `UpdaterTheorems.NoLiveRouteMissing` | routing_table/updater.go:72-180 | in every reachable state with no unreported change, the pairs last handed to the configurer are exactly those of the table and, apart from them, those pruned since |
| `UpdaterTheorems.EventsConserved` | routing_table/updater.go:77-180 | received events are the handled ones followed by the cached ones, in order, iff none was dropped; with no sync under way the cache is empty and syncing is false |
| `UpdaterTheorems.OnlyOverlapLosesEvents` | routing_table/updater.go:92-95 | a step loses events iff it starts a sync while events are cached |
| `UpdaterTheorems.OverlapLosesEvent` | routing_table/updater.go:92-95 | a reachable state in which an event was received and thrown away, and not handled |
| `UpdaterTheorems.SequentialSyncsConserveEvents` | routing_table/updater.go:77-119 | if no sync starts while another is under way, every event has been handled once, in order, by the end of the last sync, whichever way it ended |
| `UpdaterTheorems.DrainingIsOneWay` | routing_table/updater.go:182-204 | over every interleaving the flags handed over are false ... false, true ... true, and every call without the flag has returned before the first call with it starts |
| `UpdaterTheorems.CallsAreFew` | routing_table/updater.go:77-90 | each sync calls the configurer at most once, and drains that never overlapped at most once in all |
| `UpdaterTheorems.NoReachableEmptyEntry` | models/routing_table.go:178-181 | no reachable state has a routing key without backends |
| `Staleness.OnlyAdoptionBringsBackStale` | routing_table/updater.go:138 | a step leaves a backend that was expired at the last prune iff it adopts a fresh table holding one |
| `UpdaterTheorems.StaleOnlyIfAdopted` | models/routing_table.go:99-118 | every backend of a reachable state either had not outlived its TTL at the last prune, or was updated no earlier than the oldest fetch among the tables adopted since |
| `UpdaterTheorems.AgeBounded` | models/routing_table.go:99-118 | over every run: if each adoption comes at most a delay after its fetch and the last prune is at most an interval ago, no backend is older than the greater of its TTL and the delay, plus the interval |
| `UpdaterTheorems.DefaultTTLAgeBounded` | main.go:199-202 | if moreover interval and delay are at most the default TTL, a backend on the default TTL is at most twice that old |
| `UpdaterTheorems.StalenessBounded` | models/routing_table.go:99-108 | however long syncs take, no backend of a reachable state had outlived its TTL at the last prune that no sync's upserts overlapped |
| `UpdaterTheorems.DefaultTTLStalenessBounded` | main.go:199-202 | if such a prune ran within an interval no longer than the default TTL, a backend on the default TTL is at most twice that old |
| `UpdaterTheorems.PruneInsideSyncIsUndone` | routing_table/updater.go:135-139 | a reachable state in which a backend expired at the last prune is in the table, because a sync was filling its fresh table at the time |
| `UpdaterTheorems.SyncAloneYieldsSyncTable` | routing_table/updater.go:122-140 | the upsert steps of one sync and its adoption, with no other step between them, leave the table of the in-place sync |
| `UpdaterHistories.SyncAloneIsSync` | routing_table/updater.go:77-140 | upserts, adoption and finish of a sync that no other step disturbs leave the table and make the configurer call that the in-place sync ensures |
| `UpdaterHistories.EventsMakeTable` | routing_table/updater.go:168-180 | without syncs and prunes the table is what the events received make of an empty one, in the order they came |
| `UpdaterHistories.WhyPairLeaves` | routing_table/updater.go:59-180 | a pair leaves the table only by a prune after its time is over, by a delete event for it that is not older than what is held, by a cached delete event, or by the adoption of a fetched table without it |
| `UpdaterHistories.PrunedHadOutlived` | routing_table/updater.go:59-70 | over every run, each pair counted as pruned had outlived its TTL when a prune removed it |
| `UpdaterHistories.DrainsWait` | routing_table/updater.go:184-192 | over every run, a drain that goes on was polled while no sync was under way |
| `UpdaterHistories.DrainCallsWaited` | routing_table/updater.go:184-204 | and so was every drain that called the configurer |
| `DnsNames.ScannerDecidesRegex` | models/haproxy_config.go:90-98 | the single-pass scanner accepts a name iff the regular expression matches it and it has at most 255 characters other than dots |
| `DnsNames.ValidNameCharacters` | models/haproxy_config.go:90-98 | an accepted name is one word of letters, digits, `_`, `-` and `.`, with no leading dot and no two dots in a row |
| `DnsNames.ValidNameLabels` | models/haproxy_config.go:90-98 | its labels have at most 63 characters, except a last one of 64 that ends in `_` |
| `DnsNames.AcceptedNamesSpelled` | models/haproxy_config.go:90-98 | the accepted names are exactly the dotted lists of labels of 1 to 63 letters, digits, underscores and hyphens, no hyphen first, with nothing, a dot or an underscore after the last, of at most 255 characters besides the dots |
| `DnsNames.HostNamesAccepted` | models/haproxy_config.go:90-98 | every dotted list of labels of 1 to 63 letters, digits and inner hyphens within the limit is accepted |
| `DnsNames.AddressesAccepted` | models/haproxy_config.go:41-44 | every IPv4 address in dotted decimal is accepted |
| `HAProxyConfigs.ConfigByFields` | models/haproxy_config.go:18-78 | by fields, with names matched by the regular expression: a backend is listed under a port and host name iff it is in the table, the port is not 0, the name is empty or accepted, the backend has a port or a TLS port, an accepted address, and an instance id if it has a TLS port; each once, by address in byte order and then by plain port |
| `HAProxyConfigs.NewHAProxyConfig` | models/haproxy_config.go:18-78 | the result is the one of the iteration orders met; whatever they are, the routes present are exactly those with a valid key and a valid backend, each with exactly its valid backends, once, sorted by address and port, which is also said by fields |
| `HAProxyConfigs.CollectServers` | models/haproxy_config.go:35-52 | exactly the valid backends, in the order the map yields them |
| `HAProxyConfigs.IterationGivesConfig` | models/haproxy_config.go:18-78 | every choice of iteration orders gives a configuration of the table |
| `IterationOrders.OutcomesAreConfigs` | models/haproxy_config.go:18-78 | a configuration comes out under some iteration orders iff it lists the surviving routes with their valid servers sorted, ties in any order |
| `IterationOrders.ConfigDeterminedIff` | models/haproxy_config.go:60-66 | all iteration orders give the same configuration iff no two valid backends of a surviving route share address and plain port |
| `IterationOrders.TieGivesAnother` | models/haproxy_config.go:60-66 | with two backends that tie, for any iteration orders there are others that give a different configuration |
| `HAProxyConfigs.ConfigSameUpToTies` | models/haproxy_config.go:60-66 | even with ties each route has the same multiset of servers, sorted |
| `HAProxyConfigs.ConfigDependsOnPairs` | models/haproxy_config.go:18-78 | tables with the same pairs have the same configurations: tags, TTLs and times never matter |
| `Sorting.SliceStableSorted` | models/haproxy_config.go:60-66 | the sort sorts, for every order whose ties are an equivalence |
| `Sorting.SliceStableStable` | models/haproxy_config.go:60-66 | the sort is stable: elements none of which is less than another keep their order |
| `Sorting.SliceStableElements` | models/haproxy_config.go:60-66 | the sort keeps every element as often as it was there |
| `Sorting.SortedUnique` | configurer/haproxy/config_marshaller.go:109-131 | without ties the elements of a sorted list determine it |
| `Text.StrLessIff` | models/haproxy_config.go:65 | the order of addresses is that of the first byte in which they differ, a prefix being less |
| `Text.DecimalDigits` | configurer/haproxy/config_marshaller.go:43-45 | ports are printed digit by digit in base ten |
| `Marshaller.SortedHAProxyInboundPorts` | configurer/haproxy/config_marshaller.go:109-119 | the ports in ascending order, once each, in any iteration order |
| `Marshaller.SortedSniHostnames` | configurer/haproxy/config_marshaller.go:121-131 | the host names in ascending byte order, once each, in any iteration order |
| `Marshaller.ContainsSNIRoutes` | models/haproxy_config.go:80-87 | true iff some host name is not empty |
| `Marshaller.MarshalHAProxyBackend` | configurer/haproxy/config_marshaller.go:78-107 | the text of a backend section listing exactly the printable servers in order |
| `Marshaller.MarshalHAProxyFrontend` | configurer/haproxy/config_marshaller.go:38-75 | the text of the frontend section followed by its backend sections, in host name order |
| `Marshaller.Marshal` | configurer/haproxy/config_marshaller.go:26-36 | the text of the sections of all ports, in port order |
| `RoundTrip.ParsePrintedIff` | configurer/haproxy/config_marshaller.go:26-107 | for any sections, parsing the printed text gives them back iff every string in them is a single word |
| `PrintedText.MarshalRoundTrip` | configurer/haproxy/config_marshaller.go:26-107 | parsing the marshalled text of a configuration gives back its sections iff host names, addresses and the TLS strings printed are words |
| `TableMeaning.TableRoundTrip` | models/haproxy_config.go:37-52 | for a configuration made from a table, validation leaves open only the instance ids of TLS backends and the certificate paths: the text reads back iff these are words |
| `TableMeaning.EqualTextsIffEqualViews` | configurer/haproxy/config_marshaller.go:26-107 | two configurations whose printed strings are words print the same text iff they show the same printed servers under the same port and host name |
| `Meaning.SelectIsLookup` | configurer/haproxy/config_marshaller.go:38-75 | interpreted, the sections send a connection to the printed servers of its exact host name, else to those of the default route, else nowhere |
| `TableMeaning.ConfigMeansTable` | models/haproxy_config.go:18-78 | the same in terms of the table: the route with the server name if it survives validation, else the default route of the port |
| `TableMeaning.TextMeansTable` | configurer/haproxy/config_marshaller.go:26-107 | the printed text, parsed and interpreted, does what the table asks for on every connection; servers dropped for lack of TLS never cause a fallback |
| `TableMeaning.ReachedServers` | configurer/haproxy/config_marshaller.go:84-103 | the servers reached are exactly the printable valid backends of the route |
| `TableMeaning.TextServesTable` | configurer/haproxy/config_marshaller.go:84-103 | by fields: every accepted backend whose need for TLS is met has a server reached at its address, with its TLS port, its instance id, the CA path and the client certificate iff one is set, or with its plain port and no TLS; and every server reached is such a one |
| `TableMeaning.PrintedServerServes` | configurer/haproxy/config_marshaller.go:91-101 | a printed server has the name, address, port and TLS settings its backend asks for |
| `References.ReferencesMatch` | configurer/haproxy/config_marshaller.go:52-70 | the references of all rules are the names of all backend sections, one for one and in order, and no name occurs twice |
| `References.ServerNamesTellApart` | configurer/haproxy/config_marshaller.go:91-101 | two servers of a section share a name iff they share address and printed port |
| `Names.BackendNameInjective` | configurer/haproxy/config_marshaller.go:57-62 | two routes have the same backend name only if they are the same, underscores in host names notwithstanding |
| `Names.ServerNameInjective` | configurer/haproxy/config_marshaller.go:92-101 | two endpoints have the same server name only if they are the same, underscores in addresses notwithstanding |
| `Configurers.Configurer.Configure` | configurer/haproxy/haproxy_configurer.go:59-108 | one call under any failures: files, monitor flag, script run and error returned |
| `Configurers.Configurer.CreateConfigBackup` | configurer/haproxy/haproxy_configurer.go:110-124 | the backup holds the file as found, and which failure is returned |
| `Configurers.Configurer.WriteToConfig` | configurer/haproxy/haproxy_configurer.go:126-143 | the file changes only if the temporary file was written whole and renamed |
| `Configurers.ConfigIsWhole` | configurer/haproxy/haproxy_configurer.go:59-143 | over any sequence of calls with any failures the file is the first one, or the base followed by the text of the table of the last call that replaced it: never partial, never accumulated |
| `Configurers.MonitorWatchesIff` | monitor/monitor.go:36-42 | the monitor watches iff no call has been made, or there is a reload script and the last call went through to its end |
| `Configurers.BackupIsPrevious` | configurer/haproxy/haproxy_configurer.go:110-143 | a call that got past the backup leaves the previous file in it, and a call that fails before the rename leaves the file alone |
| `Configurers.RunsFollowCalls` | configurer/haproxy/haproxy_configurer.go:97-106 | the script runs once for each call that replaced the file, in order, with that call's flag |
| `Metrics.Convert` | metrics_reporter/metrics_converter.go:12-55 | nothing for no rows; else the totals, averages, errors by proxy name and sums by parsed port, all in wrapping 64-bit arithmetic |
| `Metrics.PopulateProxyStats` | metrics_reporter/metrics_converter.go:57-68 | a row adds to the sums of the port its name parses to and to no other |
| `Metrics.ReportConservesTotals` | metrics_reporter/metrics_converter.go:34-43 | the errors by route add up to the total errors, and the connect times and sessions by port to those of exactly the rows whose name parses, modulo 2^64 |
| `Metrics.TotalWraps` | metrics_reporter/metrics_converter.go:34-38 | a running total is the true total modulo 2^64 |
| `Metrics.AverageExactIff` | metrics_reporter/metrics_converter.go:44-45 | a reported average is the true one iff the total did not wrap around, and is too small otherwise |
| `Metrics.AverageBetween` | metrics_reporter/metrics_converter.go:44-45 | without wraparound an average lies between the least and the greatest row |
| `Metrics.ProxyKeyIff` | metrics_reporter/metrics_converter.go:70-85 | a name parses iff it is three parts without underscores joined by two, of which the last is a decimal number below 65536, and then to that port |
| `Metrics.PrintedNamesAsProxies` | metrics_reporter/metrics_converter.go:70-85 | of the names the router prints, only that of a host name which is a 16-bit number parses, and then as that port |
| `EndToEnd.NoChangeNoReconfiguration` | routing_table/updater.go:143-154 | events none of which reports a change leave the configurations of the table as they were |
| `EndToEnd.HAProxyFollowsTable` | routing_table/updater.go:72-211 | in every reachable state with no unreported change and nothing pruned since the last call, the text of that call makes HAProxy answer every connection as the current table asks for, also said by fields |
| `EndToEnd.FileFollowsTable` | configurer/haproxy/haproxy_configurer.go:59-108 | and so from the file: if the run's calls were made one after the other and the last one replaced the file, the file is the base followed by a text that answers every connection as the current table asks |
| `EndToEnd.LiveBackendIsReached` | routing_table/updater.go:72-211 | prunes or not, every valid printable backend of the table can be reached under its route |
| `EndToEnd.ReachedBackendIsKnown` | routing_table/updater.go:59-70 | every server that can be reached belongs to the table or was pruned since the last call |

## Left out

- Tags with empty guids: how the library orders them is not known here.
- Clock readings inside one prune: a prune reads the clock once per backend, the model once per call.
- TTLs so large that the duration overflows.
- Token, HTTP and event stream clients: their outcomes are free inputs of a sync.
- The watcher, syncer and monitor loops: they only justify which calls may interleave.
- The unlocked map accesses of Sync and Drain: each upsert of a sync is one step, and a drain's call reads the table at its start. Go's memory model is not part of this model.
- Order of overlapping configurer calls: a call counts from its start, and its table is the one of that moment. The file and monitor results are for calls made one after the other.
- Updaters.Updater.Sync: the events of one sync are given as a list. Interleavings with other calls are in the step system.
- Updaters.Updater.Drain: starts when its wait for a running sync is over. The step system has the wait; the sleep after the call is in neither.
- HAProxyConfigs.NewHAProxyConfig: reads the table and fills the nested maps as values, not objects. Nothing aliases them in the source.
- Setting and getting a whole table entry: the updater does not use them.
- Startup checks of the configurer, that the configured files exist.
- HAProxy's quoting, escapes and comments, and whatever the base configuration says: the interpreter reads the generated text only.
- RoundTrip.ParsePrintedIff: is about the subset of HAProxy's language that the router prints.
- Logging, and the content of errors beyond which step failed.
- The port checker, the CSV statistics client, the metrics emitter and the script runner.
- YAML and certificate loading: of the TLS settings only the enabled flag and the two paths are kept.
