/** The updater as the router runs it: it changes the routing table object in place,
    caches events while a sync is under way, and calls the configurer when the pairs of
    the table changed. Each method here runs alone; UpdaterSteps.dfy interleaves them. */
module Updaters {
  import opened RoutingModel
  import opened RoutingTables
  import opened Events
  import opened TableLaws

  /** The configurer seen from outside: a log of the tables it was handed. It may fail. */
  class RouterConfigurer {
    ghost var calls: seq<ConfigureCall>

    constructor ()
      ensures calls == []
    {
      calls := [];
    }

    method Configure(ghost table: Table, forceHealthCheckToFail: bool) returns (ok: bool)
      modifies this
      ensures calls == old(calls) + [ConfigureCall(table, forceHealthCheckToFail)]
    {
      calls := calls + [ConfigureCall(table, forceHealthCheckToFail)];
      ok := *;
    }
  }

  datatype EventResult = Handled | ConfigureFailed | UnknownEventAction(action: string)

  datatype FetchOutcome =
    | TokenError
    | RoutesError(unauthorized: bool)
    | Routes(mappings: seq<TcpRouteMapping>)

  /** What a sync fetches: a second attempt is made only after "unauthorized". */
  function Fetched(first: FetchOutcome, second: FetchOutcome): Option<seq<TcpRouteMapping>> {
    if first.Routes? then Some(first.mappings)
    else if first == RoutesError(true) && second.Routes? then Some(second.mappings)
    else None
  }

  /** The table after the fetch part of a sync. */
  function SyncedTable(t: Table, fetched: Option<seq<TcpRouteMapping>>, clock: nat -> int,
                       snapshotClock: nat -> int): Table
  {
    if fetched.None? then t
    else SyncTable(t, OpsOf(fetched.value, clock), OpsOf(fetched.value, snapshotClock))
  }

  /** Whether the fetch part of a sync marks the table as changed. */
  ghost predicate SyncChanges(t: Table, fetched: Option<seq<TcpRouteMapping>>, clock: nat -> int) {
    && fetched.Some?
    && var ops := OpsOf(fetched.value, clock);
       !(PairsOf(ops) <= Pairs(t)) || !(t.Keys <= KeysOf(ops))
  }

  // ----- What a sync fetches and leaves, said of the replies alone -----

  ghost function KeysIn(mappings: seq<TcpRouteMapping>): set<RoutingKey> {
    set m | m in mappings :: PairOf(m).0
  }

  ghost function PairsIn(mappings: seq<TcpRouteMapping>): set<(RoutingKey, BackendServerKey)> {
    set m | m in mappings :: PairOf(m)
  }

  /** Upsert i is that of mapping i, at some time. */
  ghost predicate AreUpsertsOf(ops: seq<UpsertOp>, mappings: seq<TcpRouteMapping>) {
    && |ops| == |mappings|
    && forall i :: 0 <= i < |ops| ==>
         && IsFor(ops[i], PairOf(mappings[i]).0, PairOf(mappings[i]).1)
         && BackendServerDetails(ops[i].info.tag, ops[i].info.ttl, ops[i].now) == DetailsOf(mappings[i], ops[i].now)
  }

  /** The table t' follows the mappings fetched over the table t: the routing keys are exactly
      the fetched ones, no fetched pair is missing, and the details are those of upserting
      the mappings in order, over t or, where t had a key that was not fetched, over nothing. */
  ghost predicate Follows(t: Table, t': Table, mappings: seq<TcpRouteMapping>) {
    var kept := if t.Keys <= KeysIn(mappings) then t else map[];
    && t'.Keys == KeysIn(mappings)
    && Pairs(t') == Pairs(kept) + PairsIn(mappings)
    && exists ops :: AreUpsertsOf(ops, mappings) && t' == UpsertAll(kept, ops)
  }

  /** The outcome of the fetch part: routes fetched at the first attempt, or at the second
      after "unauthorized" at the first, are followed; in every other case nothing changes. */
  ghost predicate FollowsReplies(t: Table, t': Table, first: FetchOutcome, second: FetchOutcome) {
    && (first.Routes? ==> Follows(t, t', first.mappings))
    && (first == RoutesError(true) && second.Routes? ==> Follows(t, t', second.mappings))
    && (!first.Routes? && !(first == RoutesError(true) && second.Routes?) ==> t' == t)
  }

  lemma OpsOfAreUpserts(mappings: seq<TcpRouteMapping>, clock: nat -> int)
    ensures AreUpsertsOf(OpsOf(mappings, clock), mappings)
    ensures KeysOf(OpsOf(mappings, clock)) == KeysIn(mappings)
    ensures PairsOf(OpsOf(mappings, clock)) == PairsIn(mappings)
  {
    var ops := OpsOf(mappings, clock);
    forall i | 0 <= i < |mappings|
      ensures ops[i].Pair() == PairOf(mappings[i])
      ensures BackendServerDetails(ops[i].info.tag, ops[i].info.ttl, ops[i].now) == DetailsOf(mappings[i], ops[i].now)
    {
      EntryOfMapping(mappings[i], clock(i));
    }
    forall m | m in mappings
      ensures exists op :: op in ops && op.Pair() == PairOf(m)
    {
      var i :| 0 <= i < |mappings| && mappings[i] == m;
      assert ops[i] in ops;
    }
  }

  lemma SyncTableFollows(t: Table, mappings: seq<TcpRouteMapping>, clock: nat -> int, snapshotClock: nat -> int)
    ensures Follows(t, SyncTable(t, OpsOf(mappings, clock), OpsOf(mappings, snapshotClock)), mappings)
  {
    var live, snapshot := OpsOf(mappings, clock), OpsOf(mappings, snapshotClock);
    OpsOfSameUpserts(mappings, clock, snapshotClock);
    OpsOfAreUpserts(mappings, clock);
    OpsOfAreUpserts(mappings, snapshotClock);
    SyncTableKeys(t, live, snapshot);
    SyncTablePairs(t, live, snapshot);
    SyncTableIs(t, live, snapshot);
    FollowsBy(t, SyncTable(t, live, snapshot), mappings, if t.Keys <= KeysIn(mappings) then live else snapshot);
  }

  lemma FollowsBy(t: Table, t': Table, mappings: seq<TcpRouteMapping>, ops: seq<UpsertOp>)
    requires t'.Keys == KeysIn(mappings) && AreUpsertsOf(ops, mappings)
    requires Pairs(t') == (if t.Keys <= KeysIn(mappings) then Pairs(t) else {}) + PairsIn(mappings)
    requires t' == UpsertAll(if t.Keys <= KeysIn(mappings) then t else map[], ops)
    ensures Follows(t, t', mappings)
  {
  }

  lemma SyncedTableFollows(t: Table, first: FetchOutcome, second: FetchOutcome, clock: nat -> int,
                           snapshotClock: nat -> int)
    ensures FollowsReplies(t, SyncedTable(t, Fetched(first, second), clock, snapshotClock), first, second)
  {
    var fetched := Fetched(first, second);
    if fetched.Some? {
      SyncTableFollows(t, fetched.value, clock, snapshotClock);
    }
  }

  /** A whole sync: the replies are followed, then the events that came meanwhile apply. */
  ghost predicate Synced(t: Table, t': Table, first: FetchOutcome, second: FetchOutcome, arrivals: seq<TcpEvent>,
                         eventClock: nat -> int)
  {
    exists synced :: FollowsReplies(t, synced, first, second) && t' == ApplyEvents(synced, arrivals, eventClock)
  }

  lemma SyncIsSynced(t: Table, first: FetchOutcome, second: FetchOutcome, arrivals: seq<TcpEvent>,
                     clock: nat -> int, snapshotClock: nat -> int, eventClock: nat -> int)
    ensures var synced := SyncedTable(t, Fetched(first, second), clock, snapshotClock);
            Synced(t, ApplyEvents(synced, arrivals, eventClock), first, second, arrivals, eventClock)
  {
    SyncedTableFollows(t, first, second, clock, snapshotClock);
  }

  class Updater {
    var routingTable: RoutingTable
    var configurer: RouterConfigurer
    var syncing: bool
    var cachedEvents: seq<TcpEvent>
    var isDraining: bool
    const defaultTTL: int

    ghost predicate Valid()
      reads this, routingTable, routingTable.Maps
    {
      && routingTable.Valid()
      && (!syncing ==> cachedEvents == [])
    }

    constructor (routingTable: RoutingTable, configurer: RouterConfigurer, defaultTTL: int)
      requires routingTable.Valid()
      ensures Valid() && this.routingTable == routingTable && this.configurer == configurer
      ensures !syncing && !isDraining && this.defaultTTL == defaultTTL
    {
      this.routingTable := routingTable;
      this.configurer := configurer;
      this.defaultTTL := defaultTTL;
      syncing := false;
      cachedEvents := [];
      isDraining := false;
    }

    method PruneStaleRoutes(now: int)
      requires Valid()
      modifies routingTable, routingTable.Maps
      ensures Valid()
      ensures routingTable.Contents == Prune(old(routingTable.Contents), defaultTTL, now)
    {
      routingTable.PruneEntries(defaultTTL, now);
    }

    method IsDraining() returns (r: bool)
      ensures r == isDraining
    {
      r := isDraining;
    }

    /** Applies one event. The configurer runs exactly when the pairs changed and no
        sync is under way, and is handed the new table. */
    method HandleOne(event: TcpEvent, now: int) returns (changed: bool, result: EventResult)
      requires Valid()
      modifies routingTable, routingTable.Maps, configurer
      ensures Valid()
      ensures routingTable.Contents == ApplyEvent(old(routingTable.Contents), event, now)
      ensures changed <==> EventChanges(old(routingTable.Contents), event, now)
      ensures configurer.calls == old(configurer.calls) +
                if changed && !syncing then [ConfigureCall(routingTable.Contents, isDraining)] else []
      ensures result.UnknownEventAction? <==> event.action != "Upsert" && event.action != "Delete"
      ensures result.ConfigureFailed? ==> changed && !syncing
      ensures fresh(routingTable.Maps - old(routingTable.Maps))
    {
      if event.action == "Upsert" {
        changed, result := HandleUpsert(event, now);
      } else if event.action == "Delete" {
        changed, result := HandleDelete(event, now);
      } else {
        return false, UnknownEventAction(event.action);
      }
    }

    method HandleUpsert(event: TcpEvent, now: int) returns (changed: bool, result: EventResult)
      requires Valid() && event.action == "Upsert"
      modifies routingTable, routingTable.Maps, configurer
      ensures Valid()
      ensures routingTable.Contents == ApplyEvent(old(routingTable.Contents), event, now)
      ensures changed <==> EventChanges(old(routingTable.Contents), event, now)
      ensures configurer.calls == old(configurer.calls) +
                if changed && !syncing then [ConfigureCall(routingTable.Contents, isDraining)] else []
      ensures result == Handled || (result == ConfigureFailed && changed && !syncing)
      ensures fresh(routingTable.Maps - old(routingTable.Maps))
    {
      UpsertEventChangesIff(routingTable.Contents, event, now);
      var (key, info) := ToRoutingTableEntry(event.mapping);
      changed := routingTable.UpsertBackendServerKey(key, info, now);
      result := Handled;
      if changed && !syncing {
        var ok := configurer.Configure(routingTable.Contents, isDraining);
        result := if ok then Handled else ConfigureFailed;
      }
    }

    method HandleDelete(event: TcpEvent, now: int) returns (changed: bool, result: EventResult)
      requires Valid() && event.action == "Delete"
      modifies routingTable, routingTable.Maps, configurer
      ensures Valid()
      ensures routingTable.Contents == ApplyEvent(old(routingTable.Contents), event, now)
      ensures changed <==> EventChanges(old(routingTable.Contents), event, now)
      ensures configurer.calls == old(configurer.calls) +
                if changed && !syncing then [ConfigureCall(routingTable.Contents, isDraining)] else []
      ensures result == Handled || (result == ConfigureFailed && changed && !syncing)
      ensures fresh(routingTable.Maps - old(routingTable.Maps))
    {
      DeleteEventChangesIff(routingTable.Contents, event, now);
      var (key, info) := ToRoutingTableEntry(event.mapping);
      changed := routingTable.DeleteBackendServerKey(key, info, now);
      result := Handled;
      if changed && !syncing {
        var ok := configurer.Configure(routingTable.Contents, isDraining);
        result := if ok then Handled else ConfigureFailed;
      }
    }

    method HandleEvent(event: TcpEvent, now: int) returns (result: EventResult)
      requires Valid()
      modifies this`cachedEvents
      modifies if syncing then {} else {routingTable as object, configurer as object} + routingTable.Maps
      ensures Valid()
      ensures if syncing
              then && cachedEvents == old(cachedEvents) + [event] && result == Handled
              else && cachedEvents == old(cachedEvents)
                   && routingTable.Contents == ApplyEvent(old(routingTable.Contents), event, now)
                   && configurer.calls == old(configurer.calls) +
                      if EventChanges(old(routingTable.Contents), event, now)
                      then [ConfigureCall(routingTable.Contents, isDraining)] else []
      ensures result.UnknownEventAction? <==> !syncing && event.action != "Upsert" && event.action != "Delete"
      ensures fresh(routingTable.Maps - old(routingTable.Maps))
    {
      if syncing {
        cachedEvents := cachedEvents + [event];
        result := Handled;
      } else {
        var _, r := HandleOne(event, now);
        result := r;
      }
    }

    method ApplyCachedEvents(clock: nat -> int) returns (changed: bool)
      requires Valid()
      modifies routingTable, routingTable.Maps, configurer
      ensures Valid()
      ensures routingTable.Contents == ApplyEvents(old(routingTable.Contents), cachedEvents, clock)
      ensures changed <==> AnyEventChanges(old(routingTable.Contents), cachedEvents, clock)
      ensures configurer.calls == old(configurer.calls)
      ensures fresh(routingTable.Maps - old(routingTable.Maps))
    {
      changed := false;
      ghost var before := routingTable.Contents;
      for i := 0 to |cachedEvents|
        invariant Valid()
        invariant routingTable.Contents == ApplyEvents(before, cachedEvents[..i], clock)
        invariant changed <==> AnyEventChanges(before, cachedEvents[..i], clock)
        invariant configurer.calls == old(configurer.calls)
        invariant fresh(routingTable.Maps - old(routingTable.Maps))
      {
        assert cachedEvents[..i + 1][..i] == cachedEvents[..i];
        var eventChanged, _ := HandleOne(cachedEvents[i], clock(i));
        if eventChanged {
          changed := true;
        }
      }
      assert cachedEvents[..|cachedEvents|] == cachedEvents;
    }

    /** The loop of a sync: every mapping goes into the live table and into a new one.
        The two tables share no map object. */
    method UpsertMappings(mappings: seq<TcpRouteMapping>, clock: nat -> int, snapshotClock: nat -> int)
      returns (changed: bool, snapshot: RoutingTable)
      requires Valid()
      modifies routingTable, routingTable.Maps
      ensures Valid()
      ensures fresh(snapshot) && snapshot.Valid() && fresh(snapshot.Maps)
      ensures snapshot.Maps !! routingTable.Maps
      ensures routingTable.Contents == UpsertAll(old(routingTable.Contents), OpsOf(mappings, clock))
      ensures snapshot.Contents == UpsertAll(map[], OpsOf(mappings, snapshotClock))
      ensures changed <==> !(PairsOf(OpsOf(mappings, clock)) <= Pairs(old(routingTable.Contents)))
      ensures fresh(routingTable.Maps - old(routingTable.Maps))
    {
      changed := false;
      snapshot := new RoutingTable();
      ghost var before := routingTable.Contents;
      ghost var ops, snapshotOps := OpsOf(mappings, clock), OpsOf(mappings, snapshotClock);
      for i := 0 to |mappings|
        invariant Valid()
        invariant fresh(snapshot) && snapshot.Valid() && fresh(snapshot.Maps)
        invariant snapshot.Maps !! routingTable.Maps
        invariant routingTable.Contents == UpsertAll(before, ops[..i])
        invariant snapshot.Contents == UpsertAll(map[], snapshotOps[..i])
        invariant changed <==> !(PairsOf(ops[..i]) <= Pairs(before))
        invariant fresh(routingTable.Maps - old(routingTable.Maps))
      {
        NextMapping(before, mappings, clock, i);
        NextMapping(map[], mappings, snapshotClock, i);
        var isNew := UpsertMapping(mappings[i], clock(i), snapshotClock(i), snapshot);
        changed := changed || isNew;
      }
      assert ops[..|mappings|] == ops && snapshotOps[..|mappings|] == snapshotOps;
    }

    /** One round of the loop of UpsertMappings. */
    method UpsertMapping(mapping: TcpRouteMapping, now: int, snapshotNow: int, snapshot: RoutingTable)
      returns (changed: bool)
      requires Valid() && snapshot.Valid() && snapshot != routingTable
      requires snapshot.Maps !! routingTable.Maps
      modifies routingTable, routingTable.Maps, snapshot, snapshot.Maps
      ensures Valid() && snapshot.Valid()
      ensures snapshot.Maps !! routingTable.Maps
      ensures var (key, info) := ToRoutingTableEntry(mapping);
              && routingTable.Contents == Upsert(old(routingTable.Contents), key, info, now)
              && snapshot.Contents == Upsert(old(snapshot.Contents), key, info, snapshotNow)
              && (changed <==> (key, info.Key()) !in Pairs(old(routingTable.Contents)))
      ensures fresh(routingTable.Maps - old(routingTable.Maps))
      ensures fresh(snapshot.Maps - old(snapshot.Maps))
    {
      var (key, info) := ToRoutingTableEntry(mapping);
      changed := routingTable.UpsertBackendServerKey(key, info, now);
      var _ := snapshot.UpsertBackendServerKey(key, info, snapshotNow);
    }

    /** The two attempts of a sync to fetch the routes. The second one forces a new
        token, and is made exactly when the first was unauthorized. */
    method FetchMappings(first: FetchOutcome, second: FetchOutcome)
      returns (fetched: Option<seq<TcpRouteMapping>>, forcedTokens: seq<bool>)
      ensures fetched == Fetched(first, second)
      ensures first.Routes? ==> fetched == Some(first.mappings)
      ensures first == RoutesError(true) && second.Routes? ==> fetched == Some(second.mappings)
      ensures !first.Routes? && !(first == RoutesError(true) && second.Routes?) ==> fetched == None
      ensures forcedTokens == if first == RoutesError(true) then [false, true] else [false]
    {
      var useCachedToken := true;
      fetched, forcedTokens := None, [];
      for count := 0 to 2
        invariant fetched == None
        invariant count == 0 ==> forcedTokens == [] && useCachedToken
        invariant count >= 1 ==> first == RoutesError(true) && !useCachedToken
        invariant count == 1 ==> forcedTokens == [false]
        invariant count == 2 ==> forcedTokens == [false, true] && !second.Routes?
      {
        forcedTokens := forcedTokens + [!useCachedToken];
        var outcome := if count == 0 then first else second;
        match outcome
        case TokenError =>
          return;
        case RoutesError(unauthorized) =>
          if !unauthorized {
            return;
          }
          useCachedToken := false;
        case Routes(mappings) =>
          return Some(mappings), forcedTokens;
      }
    }

    /** A whole sync, with the events of arrivals coming in while it runs. They are
        cached, so that when they come does not matter. */
    method Sync(first: FetchOutcome, second: FetchOutcome, arrivals: seq<TcpEvent>,
                clock: nat -> int, snapshotClock: nat -> int, eventClock: nat -> int)
      requires Valid()
      modifies this`syncing, this`cachedEvents, routingTable, routingTable.Maps, configurer
      ensures Valid() && !syncing && cachedEvents == []
      ensures var before := old(routingTable.Contents);
              var fetched := Fetched(first, second);
              var synced := SyncedTable(before, fetched, clock, snapshotClock);
              && routingTable.Contents == ApplyEvents(synced, arrivals, eventClock)
              && configurer.calls == old(configurer.calls) +
                 if SyncChanges(before, fetched, clock) || AnyEventChanges(synced, arrivals, eventClock)
                 then [ConfigureCall(routingTable.Contents, isDraining)] else []
      ensures Synced(old(routingTable.Contents), routingTable.Contents, first, second, arrivals, eventClock)
      ensures fresh(routingTable.Maps - old(routingTable.Maps))
    {
      SyncIsSynced(routingTable.Contents, first, second, arrivals, clock, snapshotClock, eventClock);
      syncing := true;
      cachedEvents := [];
      CacheArrivals(arrivals);
      var tableChanged := FetchAndUpsert(first, second, clock, snapshotClock);
      FinishSync(tableChanged, eventClock);
    }

    /** The body of a sync, before its deferred end. */
    method FetchAndUpsert(first: FetchOutcome, second: FetchOutcome, clock: nat -> int, snapshotClock: nat -> int)
      returns (tableChanged: bool)
      requires Valid()
      modifies routingTable, routingTable.Maps
      ensures Valid()
      ensures routingTable.Contents ==
              SyncedTable(old(routingTable.Contents), Fetched(first, second), clock, snapshotClock)
      ensures tableChanged <==> SyncChanges(old(routingTable.Contents), Fetched(first, second), clock)
      ensures fresh(routingTable.Maps - old(routingTable.Maps))
    {
      tableChanged := false;
      var fetched, _ := FetchMappings(first, second);
      if fetched.Some? {
        tableChanged := SyncRoutes(fetched.value, clock, snapshotClock);
      }
    }

    /** The deferred end of a sync, which every way out of it goes through. */
    method FinishSync(tableChanged: bool, clock: nat -> int)
      requires Valid() && syncing
      modifies this`syncing, this`cachedEvents, routingTable, routingTable.Maps, configurer
      ensures Valid() && !syncing && cachedEvents == []
      ensures routingTable.Contents == ApplyEvents(old(routingTable.Contents), old(cachedEvents), clock)
      ensures configurer.calls == old(configurer.calls) +
                if tableChanged || AnyEventChanges(old(routingTable.Contents), old(cachedEvents), clock)
                then [ConfigureCall(routingTable.Contents, isDraining)] else []
      ensures fresh(routingTable.Maps - old(routingTable.Maps))
    {
      var eventsChanged := ApplyCachedEvents(clock);
      if tableChanged || eventsChanged {
        var _ := configurer.Configure(routingTable.Contents, isDraining);
      }
      syncing := false;
      cachedEvents := [];
    }

    method CacheArrivals(arrivals: seq<TcpEvent>)
      requires Valid() && syncing && cachedEvents == []
      modifies this`cachedEvents
      ensures Valid() && cachedEvents == arrivals
    {
      for i := 0 to |arrivals|
        invariant Valid() && cachedEvents == arrivals[..i]
      {
        var _ := HandleEvent(arrivals[i], 0);
      }
    }

    /** Upserts the fetched mappings and adopts the fresh table when the sizes differ. */
    method SyncRoutes(mappings: seq<TcpRouteMapping>, clock: nat -> int, snapshotClock: nat -> int)
      returns (changed: bool)
      requires Valid()
      modifies routingTable, routingTable.Maps
      ensures Valid()
      ensures routingTable.Contents == SyncedTable(old(routingTable.Contents), Some(mappings), clock, snapshotClock)
      ensures changed <==> SyncChanges(old(routingTable.Contents), Some(mappings), clock)
      ensures fresh(routingTable.Maps - old(routingTable.Maps))
    {
      ghost var before := routingTable.Contents;
      AdoptionOfMappings(before, mappings, clock, snapshotClock);
      var snapshot: RoutingTable;
      changed, snapshot := UpsertMappings(mappings, clock, snapshotClock);
      var adopted := AdoptIfSizesDiffer(snapshot);
      changed := changed || adopted;
    }

    method AdoptIfSizesDiffer(snapshot: RoutingTable) returns (adopted: bool)
      requires Valid() && snapshot.Valid()
      modifies routingTable
      ensures Valid()
      ensures adopted <==> |snapshot.Contents| != |old(routingTable.Contents)|
      ensures routingTable.Contents == if adopted then snapshot.Contents else old(routingTable.Contents)
      ensures routingTable.Maps == if adopted then snapshot.Maps else old(routingTable.Maps)
    {
      var snapshotSize := snapshot.Size();
      var size := routingTable.Size();
      adopted := snapshotSize != size;
      if adopted {
        routingTable.Adopt(snapshot);
      }
    }

    /** A drain, from the moment its wait for a running sync is over. */
    method Drain() returns (result: EventResult)
      requires Valid() && !syncing
      modifies this`isDraining, configurer
      ensures Valid() && isDraining
      ensures configurer.calls == old(configurer.calls) +
                if old(isDraining) then [] else [ConfigureCall(routingTable.Contents, true)]
      ensures old(isDraining) ==> result == Handled
    {
      var draining := IsDraining();
      if draining {
        return Handled;
      }
      isDraining := true;
      draining := IsDraining();
      var ok := configurer.Configure(routingTable.Contents, draining);
      result := if ok then Handled else ConfigureFailed;
    }
  }

  /** A sync leaves no routing key without backends where there was none. */
  lemma SyncKeepsNoEmptyEntry(t: Table, first: FetchOutcome, second: FetchOutcome, arrivals: seq<TcpEvent>,
                              clock: nat -> int, snapshotClock: nat -> int, eventClock: nat -> int)
    requires NoEmptyEntry(t)
    ensures var synced := SyncedTable(t, Fetched(first, second), clock, snapshotClock);
            NoEmptyEntry(ApplyEvents(synced, arrivals, eventClock))
  {
    var fetched := Fetched(first, second);
    if fetched.Some? {
      SyncTableKeepsNoEmptyEntry(t, OpsOf(fetched.value, clock), OpsOf(fetched.value, snapshotClock));
    }
    ApplyEventsKeepsNoEmptyEntry(SyncedTable(t, fetched, clock, snapshotClock), arrivals, eventClock);
  }

  lemma AdoptionOfMappings(t: Table, mappings: seq<TcpRouteMapping>, clock: nat -> int, snapshotClock: nat -> int)
    ensures var ops, snapshotOps := OpsOf(mappings, clock), OpsOf(mappings, snapshotClock);
            |UpsertAll(map[], snapshotOps)| != |UpsertAll(t, ops)| <==> !(t.Keys <= KeysOf(ops))
  {
    OpsOfSameUpserts(mappings, clock, snapshotClock);
    AdoptionIsExact(t, OpsOf(mappings, clock), OpsOf(mappings, snapshotClock));
    SameUpsertsSamePairs(OpsOf(mappings, clock), OpsOf(mappings, snapshotClock));
  }

  lemma NextMapping(t: Table, mappings: seq<TcpRouteMapping>, clock: nat -> int, i: nat)
    requires i < |mappings|
    ensures var (key, info) := ToRoutingTableEntry(mappings[i]);
            var ops := OpsOf(mappings, clock);
            && UpsertAll(t, ops[..i + 1]) == Upsert(UpsertAll(t, ops[..i]), key, info, clock(i))
            && PairsOf(ops[..i + 1]) == PairsOf(ops[..i]) + {(key, info.Key())}
            && Pairs(UpsertAll(t, ops[..i])) == Pairs(t) + PairsOf(ops[..i])
  {
    var ops := OpsOf(mappings, clock);
    assert ops[..i + 1] == ops[..i] + [ops[i]] && ops[..i + 1][..i] == ops[..i];
    assert PairsOf(ops[..i + 1]) == PairsOf(ops[..i]) + {ops[i].Pair()};
    UpsertAllPairs(t, ops[..i]);
  }
}
