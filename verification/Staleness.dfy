/** How old a backend can get. A prune bounds the age of everything it leaves, and no
    later upsert loosens the bound. Adopting the fresh table of a sync does, when a prune
    ran after the fresh table was filled: that prune never saw it. */
module Staleness {
  import opened RoutingModel
  import opened Events
  import opened UpdaterSteps

  function NonNegative(x: int): nat {
    if x < 0 then 0 else x
  }

  /** At time p no backend had outlived its TTL, but for those updated since a time given. */
  ghost predicate Young(t: Table, defaultTTL: int, p: int, since: Option<int>) {
    forall k, b :: k in t && b in t[k] ==>
      || p <= t[k][b].updatedTime + NonNegative(t[k][b].EffectiveTTL(defaultTTL))
      || (since.Some? && since.value <= t[k][b].updatedTime)
  }

  /** At time p no backend had outlived its TTL. */
  ghost predicate Within(t: Table, defaultTTL: int, p: int) {
    Young(t, defaultTTL, p, None)
  }

  ghost predicate UpdatedSince(t: Table, time: int) {
    forall k, b :: k in t && b in t[k] ==> time <= t[k][b].updatedTime
  }

  lemma YoungUpsert(t: Table, key: RoutingKey, info: BackendServerInfo, now: int, defaultTTL: int, p: int,
                    since: Option<int>)
    requires Young(t, defaultTTL, p, since) && p <= now
    ensures Young(Upsert(t, key, info, now), defaultTTL, p, since)
  {
  }

  lemma YoungEvent(t: Table, e: TcpEvent, now: int, defaultTTL: int, p: int, since: Option<int>)
    requires Young(t, defaultTTL, p, since) && p <= now
    ensures Young(ApplyEvent(t, e, now), defaultTTL, p, since)
  {
    var (key, info) := ToRoutingTableEntry(e.mapping);
    YoungUpsert(t, key, info, now, defaultTTL, p, since);
  }

  lemma {:induction false} YoungEvents(t: Table, events: seq<TcpEvent>, clock: nat -> int, defaultTTL: int, p: int,
                                       since: Option<int>)
    requires Young(t, defaultTTL, p, since) && (forall i: nat :: p <= clock(i))
    ensures Young(ApplyEvents(t, events, clock), defaultTTL, p, since)
  {
    if events != [] {
      var n := |events| - 1;
      YoungEvents(t, events[..n], clock, defaultTTL, p, since);
      YoungEvent(ApplyEvents(t, events[..n], clock), events[n], clock(n), defaultTTL, p, since);
    }
  }

  lemma YoungPrune(t: Table, now: int, defaultTTL: int)
    ensures Within(Prune(t, defaultTTL, now), defaultTTL, now)
  {
    PruneIsExact(t, defaultTTL, now);
  }

  lemma UpdatedSinceUpsert(t: Table, key: RoutingKey, info: BackendServerInfo, now: int, time: int)
    requires UpdatedSince(t, time) && time <= now
    ensures UpdatedSince(Upsert(t, key, info, now), time)
  {
  }

  /** What the last prune says about the live table. */
  ghost predicate TimelyTable(t: Table, defaultTTL: int, lastPrune: int, lastQuietPrune: int,
                              oldestAdopted: Option<int>)
  {
    && lastQuietPrune <= lastPrune
    && Young(t, defaultTTL, lastPrune, oldestAdopted)
    && (oldestAdopted.Some? ==> lastQuietPrune <= oldestAdopted.value)
  }

  /** What the time of its fetch says about every table a sync is filling. */
  ghost predicate TimelyFetches(syncs: map<nat, SyncPhase>, lastQuietPrune: int, now: int) {
    forall id :: id in syncs && syncs[id].Upserting? ==>
      lastQuietPrune <= syncs[id].fetchedAt <= now && UpdatedSince(syncs[id].snapshot, syncs[id].fetchedAt)
  }

  ghost predicate Timely(s: State) {
    && s.lastPrune <= s.now
    && TimelyTable(s.table, s.defaultTTL, s.lastPrune, s.lastQuietPrune, s.oldestAdopted)
    && TimelyFetches(s.syncs, s.lastQuietPrune, s.now)
  }

  lemma FetchesLater(syncs: map<nat, SyncPhase>, lastQuietPrune: int, now: int, later: int)
    requires TimelyFetches(syncs, lastQuietPrune, now) && now <= later
    ensures TimelyFetches(syncs, lastQuietPrune, later)
  {
  }

  lemma FetchesUpdate(syncs: map<nat, SyncPhase>, lastQuietPrune: int, now: int, id: nat, phase: SyncPhase)
    requires TimelyFetches(syncs, lastQuietPrune, now)
    requires phase.Upserting? ==>
               lastQuietPrune <= phase.fetchedAt <= now && UpdatedSince(phase.snapshot, phase.fetchedAt)
    ensures TimelyFetches(syncs[id := phase], lastQuietPrune, now)
    ensures TimelyFetches(syncs - {id}, lastQuietPrune, now)
  {
  }

  lemma TimelyAfterSyncUpsert(s: State, id: nat, now: int, snapshotNow: int)
    requires Timely(s) && Enabled(s, SyncUpsert(id, now, snapshotNow))
    ensures Timely(AfterSyncUpsert(s, id, now, snapshotNow))
  {
    var (key, info) := ToRoutingTableEntry(s.syncs[id].todo[0]);
    var phase := AfterSyncUpsert(s, id, now, snapshotNow).syncs[id];
    YoungUpsert(s.table, key, info, now, s.defaultTTL, s.lastPrune, s.oldestAdopted);
    UpdatedSinceUpsert(s.syncs[id].snapshot, key, info, snapshotNow, s.syncs[id].fetchedAt);
    FetchesLater(s.syncs, s.lastQuietPrune, s.now, snapshotNow);
    FetchesUpdate(s.syncs, s.lastQuietPrune, snapshotNow, id, phase);
  }

  lemma FetchesAfterPrune(s: State, now: int)
    requires TimelyFetches(s.syncs, s.lastQuietPrune, s.now) && s.now <= now
    ensures TimelyFetches(s.syncs, if NoneUpserting(s) then now else s.lastQuietPrune, now)
  {
  }

  lemma TimelyAfterPrune(s: State, now: int)
    requires Timely(s) && s.now <= now
    ensures Timely(AfterPrune(s, now))
  {
    YoungPrune(s.table, now, s.defaultTTL);
    FetchesAfterPrune(s, now);
  }

  lemma TimelyAfterSyncFinish(s: State, id: nat, clock: nat -> int, now: int)
    requires Timely(s) && Enabled(s, SyncFinish(id, clock, now))
    ensures Timely(AfterSyncFinish(s, id, clock, now))
  {
    YoungEvents(s.table, s.cached, clock, s.defaultTTL, s.lastPrune, s.oldestAdopted);
    FetchesLater(s.syncs, s.lastQuietPrune, s.now, now);
    FetchesUpdate(s.syncs, s.lastQuietPrune, now, id, Configuring);
  }

  lemma AdoptedIsYoung(t: Table, defaultTTL: int, p: int, fetchedAt: int, oldest: Option<int>)
    requires UpdatedSince(t, fetchedAt)
    ensures Young(t, defaultTTL, p, Some(Earlier(fetchedAt, oldest)))
  {
  }

  lemma TimelyAfterSyncAdopt(s: State, id: nat, now: int)
    requires Timely(s) && Enabled(s, SyncAdopt(id, now))
    ensures Timely(AfterSyncAdopt(s, id, now))
  {
    AdoptedIsYoung(s.syncs[id].snapshot, s.defaultTTL, s.lastPrune, s.syncs[id].fetchedAt, s.oldestAdopted);
    FetchesLater(s.syncs, s.lastQuietPrune, s.now, now);
    FetchesUpdate(s.syncs, s.lastQuietPrune, now, id, AfterSyncAdopt(s, id, now).syncs[id]);
  }

  lemma TimelyAfterSyncStart(s: State)
    requires Timely(s) && s.lock.Free?
    ensures Timely(Apply(s, SyncStart))
  {
    FetchesUpdate(s.syncs, s.lastQuietPrune, s.now, s.started, Fetching);
  }

  lemma TimelyAfterSyncFetched(s: State, id: nat, fetched: Option<seq<TcpRouteMapping>>, now: int)
    requires Timely(s) && Enabled(s, SyncFetched(id, fetched, now))
    ensures Timely(Apply(s, SyncFetched(id, fetched, now)))
  {
    FetchesLater(s.syncs, s.lastQuietPrune, s.now, now);
    FetchesUpdate(s.syncs, s.lastQuietPrune, now, id, Apply(s, SyncFetched(id, fetched, now)).syncs[id]);
  }

  lemma HandleEventLeaves(s: State, event: TcpEvent, now: int)
    ensures var s' := AfterHandleEvent(s, event, now);
            && s'.now == now && s'.syncs == s.syncs && s'.defaultTTL == s.defaultTTL
            && s'.lastPrune == s.lastPrune && s'.lastQuietPrune == s.lastQuietPrune && s'.oldestAdopted == s.oldestAdopted
            && s'.table == if s.syncing then s.table else ApplyEvent(s.table, event, now)
  {
  }

  lemma TimelyAfterHandleEvent(s: State, event: TcpEvent, now: int)
    requires Timely(s) && s.now <= now
    ensures Timely(AfterHandleEvent(s, event, now))
  {
    HandleEventLeaves(s, event, now);
    YoungEvent(s.table, event, now, s.defaultTTL, s.lastPrune, s.oldestAdopted);
    FetchesLater(s.syncs, s.lastQuietPrune, s.now, now);
  }

  lemma TimelyAfterReturn(s: State)
    requires Timely(s)
    ensures Timely(AfterLockedCallReturns(s))
  {
    if s.lock.HeldBySync? {
      FetchesUpdate(s.syncs, s.lastQuietPrune, s.now, s.lock.id, Fetching);
    }
  }

  lemma TimelyKept(s: State, step: Step)
    requires Timely(s) && Enabled(s, step)
    ensures Timely(Apply(s, step))
  {
    match step
    case HandleEvent(event, now) => TimelyAfterHandleEvent(s, event, now);
    case PruneStaleRoutes(now) => TimelyAfterPrune(s, now);
    case LockedCallReturns => TimelyAfterReturn(s);
    case SyncStart => TimelyAfterSyncStart(s);
    case SyncFetched(id, fetched, now) => TimelyAfterSyncFetched(s, id, fetched, now);
    case SyncUpsert(id, now, snapshotNow) => TimelyAfterSyncUpsert(s, id, now, snapshotNow);
    case SyncAdopt(id, now) => TimelyAfterSyncAdopt(s, id, now);
    case SyncFinish(id, clock, now) => TimelyAfterSyncFinish(s, id, clock, now);
    case _ =>
  }

  // ----- Syncs that take long -----

  /** No table adopted since the last prune had been fetched more than delay before it. */
  predicate AdoptedInTime(s: State, delay: nat) {
    s.oldestAdopted.Some? ==> s.lastPrune - delay <= s.oldestAdopted.value
  }

  /** An adoption comes at most delay after the fetch. */
  predicate AdoptsInTime(s: State, step: Step, delay: nat) {
    step.SyncAdopt? && step.id in s.syncs && s.syncs[step.id].Upserting? ==> step.now - delay <= s.syncs[step.id].fetchedAt
  }

  lemma AdoptedInTimeKept(s: State, step: Step, delay: nat)
    requires Timely(s) && Enabled(s, step) && AdoptedInTime(s, delay) && AdoptsInTime(s, step, delay)
    ensures AdoptedInTime(Apply(s, step), delay)
  {
    if step.SyncAdopt? {
      AdoptedInTimeAfterAdopt(s, step.id, step.now, delay);
    } else {
      AdoptedInTimeAfterOther(s, step, delay);
    }
  }

  lemma AdoptedInTimeAfterAdopt(s: State, id: nat, now: int, delay: nat)
    requires s.lastPrune <= s.now && AdoptedInTime(s, delay) && Enabled(s, SyncAdopt(id, now))
    requires now - delay <= s.syncs[id].fetchedAt
    ensures AdoptedInTime(AfterSyncAdopt(s, id, now), delay)
  {
  }

  lemma AdoptedInTimeAfterOther(s: State, step: Step, delay: nat)
    requires Enabled(s, step) && !step.SyncAdopt? && AdoptedInTime(s, delay)
    ensures AdoptedInTime(Apply(s, step), delay)
  {
  }

  lemma AgeOf(t: Table, defaultTTL: int, p: int, since: Option<int>, delay: nat, key: RoutingKey, b: BackendServerKey)
    requires Young(t, defaultTTL, p, since) && (since.Some? ==> p - delay <= since.value)
    requires key in t && b in t[key]
    ensures p - t[key][b].updatedTime <= Greater(NonNegative(t[key][b].EffectiveTTL(defaultTTL)), delay)
  {
  }

  function Greater(a: nat, b: nat): nat {
    if a < b then b else a
  }

  ghost predicate StaleFree(s: State) {
    Within(s.table, s.defaultTTL, s.lastPrune)
  }

  lemma StaleFreeAfterSyncStep(s: State, step: Step)
    requires StaleFree(s) && Enabled(s, step) && s.lastPrune <= s.now
    requires step.SyncStart? || step.SyncFetched? || step.SyncUpsert? || step.SyncFinish?
    ensures StaleFree(Apply(s, step))
  {
    if step.SyncUpsert? {
      var (key, info) := ToRoutingTableEntry(s.syncs[step.id].todo[0]);
      YoungUpsert(s.table, key, info, step.now, s.defaultTTL, s.lastPrune, None);
    } else if step.SyncFinish? {
      YoungEvents(s.table, s.cached, step.clock, s.defaultTTL, s.lastPrune, None);
    }
  }

  lemma StaleFreeAfterHandlerStep(s: State, step: Step)
    requires StaleFree(s) && Enabled(s, step) && s.lastPrune <= s.now
    requires step.HandleEvent? || step.PruneStaleRoutes? || step.LockedCallReturns?
    ensures StaleFree(Apply(s, step))
  {
    if step.HandleEvent? {
      HandleEventLeaves(s, step.event, step.now);
      YoungEvent(s.table, step.event, step.now, s.defaultTTL, s.lastPrune, None);
    } else if step.PruneStaleRoutes? {
      YoungPrune(s.table, step.now, s.defaultTTL);
    }
  }

  lemma NoOtherStepBringsBackStale(s: State, step: Step)
    requires StaleFree(s) && Enabled(s, step) && !step.SyncAdopt? && s.lastPrune <= s.now
    ensures StaleFree(Apply(s, step))
  {
    if step.SyncStart? || step.SyncFetched? || step.SyncUpsert? || step.SyncFinish? {
      StaleFreeAfterSyncStep(s, step);
    } else if step.HandleEvent? || step.PruneStaleRoutes? || step.LockedCallReturns? {
      StaleFreeAfterHandlerStep(s, step);
    }
  }

  /** Of all steps only an adoption can bring back a backend that had outlived its TTL at
      the last prune, and it does exactly when the adopted table holds one. */
  lemma OnlyAdoptionBringsBackStale(s: State, step: Step)
    requires StaleFree(s) && Enabled(s, step) && s.lastPrune <= s.now
    ensures StaleFree(Apply(s, step)) <==>
            !(&& step.SyncAdopt?
              && |s.syncs[step.id].snapshot| != |s.table|
              && !Within(s.syncs[step.id].snapshot, s.defaultTTL, s.lastPrune))
  {
    if !step.SyncAdopt? {
      NoOtherStepBringsBackStale(s, step);
    }
  }

  // ----- No entry without backends -----

  ghost predicate NoEmptyEntries(s: State) {
    && NoEmptyEntry(s.table)
    && (forall id :: id in s.syncs && s.syncs[id].Upserting? ==> NoEmptyEntry(s.syncs[id].snapshot))
  }

  lemma NoEmptyEntriesAfterSyncMove(s: State, step: Step)
    requires NoEmptyEntries(s) && Enabled(s, step)
    requires step.SyncStart? || step.SyncFetched? || step.SyncAdopt?
    ensures NoEmptyEntries(Apply(s, step))
  {
  }

  lemma NoEmptyEntriesAfterSyncFinish(s: State, id: nat, clock: nat -> int, now: int)
    requires NoEmptyEntries(s) && id in s.syncs && s.syncs[id].Finishing?
    ensures NoEmptyEntries(AfterSyncFinish(s, id, clock, now))
  {
    ApplyEventsKeepsNoEmptyEntry(s.table, s.cached, clock);
  }

  lemma NoEmptyEntriesAfterSyncUpsert(s: State, id: nat, now: int, snapshotNow: int)
    requires NoEmptyEntries(s) && Enabled(s, SyncUpsert(id, now, snapshotNow))
    ensures NoEmptyEntries(AfterSyncUpsert(s, id, now, snapshotNow))
  {
    var (key, info) := ToRoutingTableEntry(s.syncs[id].todo[0]);
    UpsertKeepsNoEmptyEntry(s.table, key, info, now);
    UpsertKeepsNoEmptyEntry(s.syncs[id].snapshot, key, info, snapshotNow);
  }

  lemma NoEmptyEntriesAfterHandlerStep(s: State, step: Step)
    requires NoEmptyEntries(s) && Enabled(s, step)
    requires step.HandleEvent? || step.PruneStaleRoutes? || step.LockedCallReturns?
    ensures NoEmptyEntries(Apply(s, step))
  {
    if step.HandleEvent? {
      HandleEventLeaves(s, step.event, step.now);
      ApplyEventKeepsNoEmptyEntry(s.table, step.event, step.now);
    } else if step.PruneStaleRoutes? {
      PruneIsExact(s.table, s.defaultTTL, step.now);
    }
  }

  lemma NoEmptyEntriesKept(s: State, step: Step)
    requires NoEmptyEntries(s) && Enabled(s, step)
    ensures NoEmptyEntries(Apply(s, step))
  {
    if step.HandleEvent? || step.PruneStaleRoutes? || step.LockedCallReturns? {
      NoEmptyEntriesAfterHandlerStep(s, step);
    } else if step.SyncUpsert? {
      NoEmptyEntriesAfterSyncUpsert(s, step.id, step.now, step.snapshotNow);
    } else if step.SyncFinish? {
      NoEmptyEntriesAfterSyncFinish(s, step.id, step.clock, step.now);
    } else if step.SyncStart? || step.SyncFetched? || step.SyncAdopt? {
      NoEmptyEntriesAfterSyncMove(s, step);
    }
  }
}
