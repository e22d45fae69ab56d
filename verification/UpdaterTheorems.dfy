/** What holds over every run of the updater, however events, prunes, syncs and drains
    interleave and whichever fetches and configurer calls fail. */
module UpdaterTheorems {
  import opened RoutingModel
  import opened Events
  import opened UpdaterSteps
  import opened UpdaterInvariants
  import opened Staleness

  ghost predicate Invariant(s: State) {
    && SyncsOrderly(s)
    && RoutesCurrent(s)
    && EventsAccounted(s)
    && OpenCallsHoldLock(s)
    && DrainOneWay(s)
    && SyncsCallOnce(s)
    && DrainsCallOnce(s)
    && Timely(s)
    && NoEmptyEntries(s)
  }

  lemma InvariantInit(defaultTTL: int, now: int)
    ensures Invariant(Init(defaultTTL, now))
  {
  }

  lemma InvariantKept(s: State, step: Step, s': State)
    requires Invariant(s) && Next(s, step) == Some(s')
    ensures Invariant(s')
  {
    SyncsOrderlyKept(s, step);
    RoutesCurrentKept(s, step);
    EventsAccountedKept(s, step);
    OpenCallsHoldLockKept(s, step);
    DrainOneWayKept(s, step);
    SyncsCallOnceKept(s, step);
    DrainsCallOnceKept(s, step);
    TimelyKept(s, step);
    NoEmptyEntriesKept(s, step);
  }

  /** What holds at first and is kept by each step holds after i steps. */
  lemma {:induction false} AllHold(facts: seq<bool>, i: nat)
    requires i < |facts| && facts[0]
    requires forall j :: 0 <= j < i && facts[j] ==> facts[j + 1]
    ensures facts[i]
  {
    if i > 0 {
      AllHold(facts, i - 1);
    }
  }

  lemma {:induction false} InvariantOverRun(states: seq<State>, steps: seq<Step>, i: nat)
    requires IsRun(states, steps) && i < |states|
    ensures Invariant(states[i])
  {
    if i == 0 {
      var defaultTTL, now :| states[0] == Init(defaultTTL, now);
      InvariantInit(defaultTTL, now);
    } else {
      InvariantOverRun(states, steps, i - 1);
      InvariantKept(states[i - 1], steps[i - 1], states[i]);
    }
  }

  lemma ReachableInvariant(s: State)
    requires Reachable(s)
    ensures Invariant(s)
  {
    var states, steps :| IsRun(states, steps) && states[|states| - 1] == s;
    InvariantOverRun(states, steps, |states| - 1);
  }

  /** No live route is missing from HAProxy: with no sync under way (and even with some, as
      long as none saw a change), the pairs last handed to the configurer are exactly
      those of the table and those a prune removed since. */
  lemma NoLiveRouteMissing(s: State)
    requires Reachable(s)
    requires forall id :: id in s.syncs ==> !SawChange(s.syncs[id])
    ensures Pairs(LastTable(s)) == Pairs(s.table) + s.pruned
    ensures Pairs(s.table) !! s.pruned
  {
    ReachableInvariant(s);
  }

  /** No event is lost: received is handled followed by cached, in arrival order, exactly
      when no sync ever started over the cache of another. */
  lemma EventsConserved(s: State)
    requires Reachable(s)
    ensures s.received == s.handled + InCache(s) <==> s.dropped == []
    ensures s.syncs == map[] ==> !s.syncing && s.cached == [] && InCache(s) == []
  {
    ReachableInvariant(s);
    if s.received == s.handled + InCache(s) {
      assert |s.dropped| == 0;
    }
  }

  /** Conservation is lost by one step only, and exactly when it finds events cached: the
      start of a sync while another one is caching. */
  lemma OnlyOverlapLosesEvents(s: State, step: Step, s': State)
    requires Invariant(s) && Next(s, step) == Some(s')
    requires s.received == s.handled + InCache(s)
    ensures s'.received == s'.handled + InCache(s') <==> !(step.SyncStart? && s.cached != [])
  {
    EventsAccountedKept(s, step);
    assert |s.dropped| == 0;
    DroppedBy(s, step, s');
  }

  lemma DroppedBy(s: State, step: Step, s': State)
    requires Next(s, step) == Some(s')
    ensures s'.dropped == s.dropped + if step.SyncStart? then s.cached else []
  {
    if IsSyncStep(step) {
      DroppedBySyncStep(s, step, s');
    } else {
      DroppedByOtherStep(s, step, s');
    }
  }

  lemma DroppedBySyncStep(s: State, step: Step, s': State)
    requires Next(s, step) == Some(s') && IsSyncStep(step)
    ensures s'.dropped == s.dropped + if step.SyncStart? then s.cached else []
  {
  }

  lemma DroppedByOtherStep(s: State, step: Step, s': State)
    requires Next(s, step) == Some(s') && !IsSyncStep(step)
    ensures s'.dropped == s.dropped
  {
  }

  lemma StillNothingDropped(s: State, step: Step, s': State)
    requires EventsAccounted(s) && s.dropped == [] && Next(s, step) == Some(s')
    requires step.SyncStart? ==> s.syncs == map[]
    ensures s'.dropped == []
  {
    DroppedBy(s, step, s');
  }

  lemma AccountedOverRun(states: seq<State>, steps: seq<Step>, i: nat)
    requires IsRun(states, steps) && i < |states|
    ensures EventsAccounted(states[i])
  {
    InvariantOverRun(states, steps, i);
  }

  /** With at most one sync under way at any time nothing is dropped, and whichever way the
      last sync ended, every event received has been handled once. */
  lemma SequentialSyncsConserveEvents(states: seq<State>, steps: seq<Step>, i: nat)
    requires IsRun(states, steps) && i < |states|
    requires forall j :: 0 <= j < |steps| && steps[j].SyncStart? ==> states[j].syncs == map[]
    ensures states[i].received == states[i].handled + InCache(states[i])
    ensures states[i].syncs == map[] ==> states[i].received == states[i].handled && !states[i].syncing
  {
    InvariantOverRun(states, steps, i);
    SequentialSyncsDropNothing(states, steps, i);
  }

  lemma SequentialSyncsDropNothing(states: seq<State>, steps: seq<Step>, i: nat)
    requires IsRun(states, steps) && i < |states|
    requires forall j :: 0 <= j < |steps| && steps[j].SyncStart? ==> states[j].syncs == map[]
    ensures states[i].dropped == []
  {
    forall j | 0 <= j < i
      ensures states[j].dropped == [] ==> states[j + 1].dropped == []
    {
      if states[j].dropped == [] {
        NextDropsNothing(states, steps, j);
      }
    }
    AllHold(seq(i + 1, (j: nat) requires j < |states| => states[j].dropped == []), i);
  }

  lemma NextDropsNothing(states: seq<State>, steps: seq<Step>, j: nat)
    requires IsRun(states, steps) && j < |steps| && states[j].dropped == []
    requires steps[j].SyncStart? ==> states[j].syncs == map[]
    ensures states[j + 1].dropped == []
  {
    AccountedOverRun(states, steps, j);
    StillNothingDropped(states[j], steps[j], states[j + 1]);
  }

  /** The flag handed to the configurer goes from false to true once: every call without
      it has returned before the first call with it starts. */
  lemma DrainingIsOneWay(states: seq<State>, steps: seq<Step>, i: nat, j: nat)
    requires IsRun(states, steps) && i <= j < |states|
    ensures states[i].draining ==> states[j].draining
    ensures var calls := states[i].calls;
            && (forall a, b :: 0 <= a < b < |calls| && calls[a].forceHealthCheckToFail ==> calls[b].forceHealthCheckToFail)
            && (forall a, b :: 0 <= a < |calls| && 0 <= b < |calls| && calls[b].forceHealthCheckToFail ==>
                  calls[a].forceHealthCheckToFail || calls[a].returned)
  {
    InvariantOverRun(states, steps, i);
    DrainingStays(states, steps, i, j);
  }

  lemma {:induction false} DrainingStays(states: seq<State>, steps: seq<Step>, i: nat, j: nat)
    requires IsRun(states, steps) && i <= j < |states|
    ensures states[i].draining ==> states[j].draining
  {
    if i < j {
      DrainingStays(states, steps, i, j - 1);
      DrainingKept(states[j - 1], steps[j - 1], states[j]);
    }
  }

  lemma DrainingKept(s: State, step: Step, s': State)
    requires Next(s, step) == Some(s')
    ensures s.draining ==> s'.draining
  {
  }

  /** Each sync calls the configurer at most once. Drains that never overlapped call it at
      most once between them. */
  lemma CallsAreFew(s: State, i: nat, j: nat)
    requires Reachable(s) && i < j < |s.calls|
    ensures s.calls[i].caller.BySync? ==> s.calls[i].caller != s.calls[j].caller
    ensures s.calls[i].caller.ByDrain? && s.calls[j].caller.ByDrain? ==> s.drainsOverlapped
  {
    ReachableInvariant(s);
  }

  lemma NoReachableEmptyEntry(s: State, key: RoutingKey)
    requires Reachable(s) && key in s.table
    ensures s.table[key] != map[]
  {
    ReachableInvariant(s);
  }

  /** At the last prune a backend of the table had not outlived its TTL, unless a table
      adopted since then holds it: then it is no older than the fetch of the oldest such. */
  lemma StaleOnlyIfAdopted(s: State, key: RoutingKey, b: BackendServerKey)
    requires Reachable(s) && key in s.table && b in s.table[key]
    ensures var details := s.table[key][b];
            || s.lastPrune <= details.updatedTime + NonNegative(details.EffectiveTTL(s.defaultTTL))
            || (s.oldestAdopted.Some? && s.oldestAdopted.value <= details.updatedTime)
  {
    ReachableInvariant(s);
  }

  /** With every adoption at most delay after its fetch, a backend gets no older than its
      TTL, or the delay where that is longer, plus the time since the last prune of any
      kind. */
  lemma AgeBounded(states: seq<State>, steps: seq<Step>, i: nat, key: RoutingKey, b: BackendServerKey,
                   delay: nat, interval: int)
    requires IsRun(states, steps) && i < |states|
    requires forall j :: 0 <= j < |steps| ==> AdoptsInTime(states[j], steps[j], delay)
    requires states[i].now - states[i].lastPrune <= interval
    requires key in states[i].table && b in states[i].table[key]
    ensures var details := states[i].table[key][b];
            states[i].now - details.updatedTime <=
            Greater(NonNegative(details.EffectiveTTL(states[i].defaultTTL)), delay) + interval
  {
    TimelyOverRun(states, steps, i);
    AdoptedInTimeOverRun(states, steps, i, delay);
    var s := states[i];
    AgeOf(s.table, s.defaultTTL, s.lastPrune, s.oldestAdopted, delay, key, b);
  }

  lemma TimelyOverRun(states: seq<State>, steps: seq<Step>, i: nat)
    requires IsRun(states, steps) && i < |states|
    ensures Timely(states[i])
  {
    InvariantOverRun(states, steps, i);
  }

  lemma AdoptedInTimeOverRun(states: seq<State>, steps: seq<Step>, i: nat, delay: nat)
    requires IsRun(states, steps) && i < |states|
    requires forall j :: 0 <= j < |steps| ==> AdoptsInTime(states[j], steps[j], delay)
    ensures AdoptedInTime(states[i], delay)
  {
    forall j | 0 <= j < i
      ensures AdoptedInTime(states[j], delay) ==> AdoptedInTime(states[j + 1], delay)
    {
      if AdoptedInTime(states[j], delay) {
        TimelyOverRun(states, steps, j);
        AdoptedInTimeNext(states[j], steps[j], states[j + 1], delay);
      }
    }
    AllHold(seq(i + 1, (j: nat) requires j < |states| => AdoptedInTime(states[j], delay)), i);
  }

  lemma AdoptedInTimeNext(s: State, step: Step, s': State, delay: nat)
    requires Timely(s) && Next(s, step) == Some(s') && AdoptedInTime(s, delay) && AdoptsInTime(s, step, delay)
    ensures AdoptedInTime(s', delay)
  {
    AdoptedInTimeKept(s, step, delay);
  }

  /** With prunes at least every interval, an interval no longer than the default TTL, and
      syncs that adopt within it, a backend on the default TTL gets no older than twice that. */
  lemma DefaultTTLAgeBounded(states: seq<State>, steps: seq<Step>, i: nat, key: RoutingKey, b: BackendServerKey,
                             delay: nat, interval: int)
    requires IsRun(states, steps) && i < |states|
    requires forall j :: 0 <= j < |steps| ==> AdoptsInTime(states[j], steps[j], delay)
    requires key in states[i].table && b in states[i].table[key] && states[i].table[key][b].ttl == 0
    requires states[i].now - states[i].lastPrune <= interval <= states[i].defaultTTL * SECOND
    requires delay <= states[i].defaultTTL * SECOND
    ensures states[i].now - states[i].table[key][b].updatedTime <= 2 * states[i].defaultTTL * SECOND
  {
    AgeBounded(states, steps, i, key, b, delay, interval);
  }

  /** However long syncs take: the last prune that ran while no sync was filling a table
      left no backend that had outlived its TTL, and none has come back since. */
  lemma StalenessBounded(s: State, key: RoutingKey, b: BackendServerKey)
    requires Reachable(s) && key in s.table && b in s.table[key]
    ensures var details := s.table[key][b];
            s.lastQuietPrune <= details.updatedTime + NonNegative(details.EffectiveTTL(s.defaultTTL))
  {
    ReachableInvariant(s);
  }

  /** With such a prune within an interval no longer than the default TTL, a backend on the
      default TTL is no older than twice that at time t. */
  lemma DefaultTTLStalenessBounded(s: State, key: RoutingKey, b: BackendServerKey, t: int, interval: int)
    requires Reachable(s) && key in s.table && b in s.table[key]
    requires s.table[key][b].ttl == 0
    requires 0 <= interval <= s.defaultTTL * SECOND && t - s.lastQuietPrune <= interval
    ensures t - s.table[key][b].updatedTime <= 2 * s.defaultTTL * SECOND
  {
    StalenessBounded(s, key, b);
  }

  /** Why the delay of a sync counts: a backend of TTL 1 second is back in the table after a
      prune at 100 seconds, because a sync filled its fresh table at time 0. */
  lemma PruneInsideSyncIsUndone(m: TcpRouteMapping)
    requires m.ttl == Some(1)
    ensures var s := StaleAdopted(m);
            var (key, info) := ToRoutingTableEntry(m);
            && Reachable(s) && s.lastPrune == s.now == 100 * SECOND
            && key in s.table && info.Key() in s.table[key]
            && s.table[key][info.Key()].Expired(s.defaultTTL, s.lastPrune)
  {
    InitReachable(120, 0);
    StaleFirstSteps(m);
    ReachableNext(Init(120, 0), SyncStart, StaleStarted());
    ReachableNext(StaleStarted(), SyncFetched(0, Some([m]), 0), StaleFetched(m));
    StaleUpsertStep(m);
    ReachableNext(StaleFetched(m), SyncUpsert(0, 0, 0), StaleUpserted(m));
    StalePruneStep(m);
    ReachableNext(StaleUpserted(m), PruneStaleRoutes(100 * SECOND), StalePruned(m));
    StaleAdoptStep(m);
    ReachableNext(StalePruned(m), SyncAdopt(0, 100 * SECOND), StaleAdopted(m));
  }

  lemma InitReachable(defaultTTL: int, now: int)
    ensures Reachable(Init(defaultTTL, now))
  {
    var states: seq<State>, steps: seq<Step> := [Init(defaultTTL, now)], [];
    assert IsRun(states, steps) && states[|states| - 1] == Init(defaultTTL, now);
  }

  lemma ReachableNext(s: State, step: Step, s': State)
    requires Reachable(s) && Next(s, step) == Some(s')
    ensures Reachable(s')
  {
    var states, steps :| IsRun(states, steps) && states[|states| - 1] == s;
    var states', steps' := states + [s'], steps + [step];
    assert forall i :: 0 <= i < |states| ==> states'[i] == states[i];
    assert IsRun(states', steps') && states'[|states'| - 1] == s';
  }

  /** Events do get lost: one that is cached when a second sync starts is never handled. */
  lemma OverlapLosesEvent(e: TcpEvent)
    ensures Reachable(EventLost(e))
    ensures EventLost(e).received == [e] == EventLost(e).dropped
    ensures EventLost(e).handled == [] == EventLost(e).cached
  {
    InitReachable(120, 0);
    StaleFirstSteps(e.mapping);
    ReachableNext(Init(120, 0), SyncStart, StaleStarted());
    LostSteps(e);
    ReachableNext(StaleStarted(), HandleEvent(e, 0), EventCached(e));
    ReachableNext(EventCached(e), SyncStart, EventLost(e));
  }

  function EventCached(e: TcpEvent): State {
    StaleStarted().(received := [e], cached := [e])
  }

  function EventLost(e: TcpEvent): State {
    EventCached(e).(cached := [], dropped := [e], started := 2, syncs := map[0 := Fetching, 1 := Fetching])
  }

  lemma LostSteps(e: TcpEvent)
    ensures Next(StaleStarted(), HandleEvent(e, 0)) == Some(EventCached(e))
    ensures Next(EventCached(e), SyncStart) == Some(EventLost(e))
  {
    var nothing: seq<TcpEvent> := [];
    assert nothing + [e] == [e];
    assert EventCached(e).syncs[1 := Fetching] == EventLost(e).syncs;
  }

  lemma StaleFirstSteps(m: TcpRouteMapping)
    ensures Next(Init(120, 0), SyncStart) == Some(StaleStarted())
    ensures Next(StaleStarted(), SyncFetched(0, Some([m]), 0)) == Some(StaleFetched(m))
  {
    var none: map<nat, SyncPhase> := map[];
    var nothing: seq<TcpEvent> := [];
    assert none[0 := Fetching] == StaleStarted().syncs && nothing + nothing == nothing;
    assert StaleStarted().syncs[0 := Upserting([m], map[], false, 0)] == StaleFetched(m).syncs;
  }

  function StaleTable(m: TcpRouteMapping): Table {
    var (key, info) := ToRoutingTableEntry(m);
    map[key := map[info.Key() := info.Details(0)]]
  }

  function StaleStarted(): State {
    Init(120, 0).(syncing := true, started := 1, syncs := map[0 := Fetching])
  }

  function StaleFetched(m: TcpRouteMapping): State {
    StaleStarted().(syncs := map[0 := Upserting([m], map[], false, 0)])
  }

  function StaleUpserted(m: TcpRouteMapping): State {
    StaleFetched(m).(table := StaleTable(m), syncs := map[0 := Upserting([], StaleTable(m), true, 0)])
  }

  ghost function StalePruned(m: TcpRouteMapping): State {
    StaleUpserted(m).(table := map[], now := 100 * SECOND, lastPrune := 100 * SECOND, pruned := Pairs(StaleTable(m)))
  }

  ghost function StaleAdopted(m: TcpRouteMapping): State {
    StalePruned(m).(table := StaleTable(m), syncs := map[0 := Finishing(true)], oldestAdopted := Some(0))
  }

  lemma StaleUpsertStep(m: TcpRouteMapping)
    ensures Next(StaleFetched(m), SyncUpsert(0, 0, 0)) == Some(StaleUpserted(m))
  {
    var (key, info) := ToRoutingTableEntry(m);
    assert Upsert(map[], key, info, 0) == StaleTable(m);
    assert [m][1..] == [];
    assert StaleFetched(m).syncs[0 := Upserting([], StaleTable(m), true, 0)] == StaleUpserted(m).syncs;
  }

  lemma StalePruneStep(m: TcpRouteMapping)
    requires m.ttl == Some(1)
    ensures Next(StaleUpserted(m), PruneStaleRoutes(100 * SECOND)) == Some(StalePruned(m))
  {
    var (key, info) := ToRoutingTableEntry(m);
    assert PruneBackends(StaleTable(m)[key], 120, 100 * SECOND) == map[];
    assert Prune(StaleTable(m), 120, 100 * SECOND) == map[];
    assert Pairs(StaleTable(m)) - Pairs(map[]) == Pairs(StaleTable(m));
    assert {} + Pairs(StaleTable(m)) == Pairs(StaleTable(m));
    assert StaleUpserted(m).syncs[0].Upserting?;
  }

  lemma StaleAdoptStep(m: TcpRouteMapping)
    ensures Next(StalePruned(m), SyncAdopt(0, 100 * SECOND)) == Some(StaleAdopted(m))
  {
    assert |StaleTable(m)| == 1;
    assert StalePruned(m).syncs[0 := Finishing(true)] == StaleAdopted(m).syncs;
  }

  // ----- A sync run alone -----

  /** The upserts of a sync, one after the other with no other step between them. */
  ghost predicate UpsertsAlone(states: seq<State>, id: nat, clock: nat -> int, snapshotClock: nat -> int) {
    forall j: nat :: j < |states| - 1 ==>
      Next(states[j], SyncUpsert(id, clock(j), snapshotClock(j))) == Some(states[j + 1])
  }

  ghost predicate UpsertsDone(t: Table, s: State, id: nat, mappings: seq<TcpRouteMapping>,
                              clock: nat -> int, snapshotClock: nat -> int, n: nat)
  {
    && n <= |mappings|
    && id in s.syncs && s.syncs[id].Upserting?
    && s.syncs[id].todo == mappings[n..]
    && s.table == UpsertAll(t, OpsOf(mappings, clock)[..n])
    && s.syncs[id].snapshot == UpsertAll(map[], OpsOf(mappings, snapshotClock)[..n])
  }

  lemma NextUpsertDone(t: Table, s: State, s': State, id: nat, mappings: seq<TcpRouteMapping>,
                       clock: nat -> int, snapshotClock: nat -> int, n: nat)
    requires UpsertsDone(t, s, id, mappings, clock, snapshotClock, n)
    requires Next(s, SyncUpsert(id, clock(n), snapshotClock(n))) == Some(s')
    ensures UpsertsDone(t, s', id, mappings, clock, snapshotClock, n + 1)
  {
    var ops, snapshotOps := OpsOf(mappings, clock), OpsOf(mappings, snapshotClock);
    assert n < |mappings|;
    assert mappings[n..][1..] == mappings[n + 1..];
    assert ops[..n + 1][..n] == ops[..n] && snapshotOps[..n + 1][..n] == snapshotOps[..n];
  }

  lemma UpsertsAloneDone(states: seq<State>, id: nat, mappings: seq<TcpRouteMapping>,
                         clock: nat -> int, snapshotClock: nat -> int)
    requires |states| == |mappings| + 1 && UpsertsAlone(states, id, clock, snapshotClock)
    requires UpsertsDone(states[0].table, states[0], id, mappings, clock, snapshotClock, 0)
    ensures UpsertsDone(states[0].table, states[|mappings|], id, mappings, clock, snapshotClock, |mappings|)
  {
    var t := states[0].table;
    forall j | 0 <= j < |mappings|
      ensures UpsertsDone(t, states[j], id, mappings, clock, snapshotClock, j) ==>
                UpsertsDone(t, states[j + 1], id, mappings, clock, snapshotClock, j + 1)
    {
      if UpsertsDone(t, states[j], id, mappings, clock, snapshotClock, j) {
        NextUpsertDone(t, states[j], states[j + 1], id, mappings, clock, snapshotClock, j);
      }
    }
    AllHold(seq(|states|, (j: nat) requires j < |states| =>
      UpsertsDone(t, states[j], id, mappings, clock, snapshotClock, j)), |mappings|);
  }

  /** Run alone, the upserts and the adoption of a sync leave what the sync of Updaters.dfy
      leaves. */
  lemma SyncAloneYieldsSyncTable(states: seq<State>, id: nat, mappings: seq<TcpRouteMapping>, clock: nat -> int,
                                 snapshotClock: nat -> int, now: int, adopted: State)
    requires |states| == |mappings| + 1 && id in states[0].syncs && states[0].syncs[id].Upserting?
    requires states[0].syncs[id].todo == mappings && states[0].syncs[id].snapshot == map[]
    requires UpsertsAlone(states, id, clock, snapshotClock)
    requires Next(states[|mappings|], SyncAdopt(id, now)) == Some(adopted)
    ensures adopted.table == SyncTable(states[0].table, OpsOf(mappings, clock), OpsOf(mappings, snapshotClock))
  {
    UpsertsAloneDone(states, id, mappings, clock, snapshotClock);
    AdoptionDone(states[0].table, states[|mappings|], id, mappings, clock, snapshotClock, now, adopted);
  }

  lemma AdoptionDone(t: Table, s: State, id: nat, mappings: seq<TcpRouteMapping>, clock: nat -> int,
                     snapshotClock: nat -> int, now: int, adopted: State)
    requires UpsertsDone(t, s, id, mappings, clock, snapshotClock, |mappings|)
    requires Next(s, SyncAdopt(id, now)) == Some(adopted)
    ensures adopted.table == SyncTable(t, OpsOf(mappings, clock), OpsOf(mappings, snapshotClock))
  {
    var ops, snapshotOps := OpsOf(mappings, clock), OpsOf(mappings, snapshotClock);
    assert ops[..|mappings|] == ops && snapshotOps[..|mappings|] == snapshotOps;
  }
}
