/** What every step of the updater keeps. Each law has one lemma for the steps of events,
    prunes and returning calls, one for the steps of syncs and one for those of drains. */
module UpdaterInvariants {
  import opened RoutingModel
  import opened Events
  import opened UpdaterSteps

  predicate IsHandlerStep(step: Step) {
    step.HandleEvent? || step.PruneStaleRoutes? || step.LockedCallReturns?
  }

  predicate IsSyncStep(step: Step) {
    step.SyncStart? || step.SyncFetched? || step.SyncUpsert? || step.SyncAdopt? || step.SyncFinish?
  }

  // ----- Syncs: ids are not reused, and the lock is held by at most one sync -----

  ghost predicate SyncsOrderly(s: State) {
    && (forall id :: id in s.syncs ==> id < s.started)
    && (forall id :: id in s.syncs ==> (s.syncs[id].Configuring? <==> s.lock == HeldBySync(id)))
    && (s.lock.HeldBySync? ==> s.lock.id in s.syncs)
  }

  lemma SyncsOrderlyKept(s: State, step: Step)
    requires SyncsOrderly(s) && Enabled(s, step)
    ensures SyncsOrderly(Apply(s, step))
  {
    if step.SyncFinish? {
      SyncsOrderlyAfterSyncFinish(s, step.id, step.clock, step.now);
    } else if IsSyncStep(step) {
      SyncsOrderlyAfterSyncStep(s, step);
    } else {
      SyncsOrderlyAfterOtherStep(s, step);
    }
  }

  lemma SyncsOrderlyAfterSyncFinish(s: State, id: nat, clock: nat -> int, now: int)
    requires SyncsOrderly(s) && s.lock.Free? && id in s.syncs && s.syncs[id].Finishing?
    ensures SyncsOrderly(AfterSyncFinish(s, id, clock, now))
  {
  }

  lemma SyncsOrderlyAfterSyncStep(s: State, step: Step)
    requires SyncsOrderly(s) && Enabled(s, step) && IsSyncStep(step) && !step.SyncFinish?
    ensures SyncsOrderly(Apply(s, step))
  {
  }

  lemma SyncsOrderlyAfterOtherStep(s: State, step: Step)
    requires SyncsOrderly(s) && Enabled(s, step) && !IsSyncStep(step)
    ensures SyncsOrderly(Apply(s, step))
  {
  }

  // ----- Routes: what HAProxy was last told, against the table -----

  /** The table last handed to the configurer. Before the first call that is no route. */
  function LastTable(s: State): Table {
    if s.calls == [] then map[] else s.calls[|s.calls| - 1].table
  }

  /** A sync that saw a change and has not told the configurer yet. */
  predicate SawChange(phase: SyncPhase) {
    (phase.Upserting? || phase.Finishing?) && phase.changed
  }

  ghost predicate Quiet(syncs: map<nat, SyncPhase>) {
    forall id :: id in syncs ==> !SawChange(syncs[id])
  }

  lemma QuietWithout(syncs: map<nat, SyncPhase>, id: nat)
    requires id in syncs ==> !SawChange(syncs[id])
    ensures Quiet(syncs - {id}) ==> Quiet(syncs)
  {
    var rest := syncs - {id};
    if Quiet(rest) {
      forall i | i in syncs ensures !SawChange(syncs[i]) {
        assert i == id || i in rest;
      }
    }
  }

  lemma QuietUpdate(syncs: map<nat, SyncPhase>, id: nat, phase: SyncPhase)
    requires id in syncs && SawChange(syncs[id]) ==> SawChange(phase)
    ensures Quiet(syncs[id := phase]) ==> Quiet(syncs) && !SawChange(phase)
  {
    var after := syncs[id := phase];
    if Quiet(after) {
      assert !SawChange(after[id]);
      forall i | i in syncs ensures !SawChange(syncs[i]) {
        assert i == id || after[i] == syncs[i];
      }
    }
  }

  /** With no change pending, the pairs last handed over are those of the table and
      those pruned since, and none is both. */
  ghost predicate RoutesCurrent(s: State) {
    Quiet(s.syncs) ==> Told(LastTable(s), s.table, s.pruned)
  }

  ghost predicate Told(last: Table, table: Table, pruned: set<(RoutingKey, BackendServerKey)>) {
    && Pairs(last) == Pairs(table) + pruned
    && Pairs(table) !! pruned
  }

  lemma ToldItself(table: Table)
    ensures Told(table, table, {})
  {
  }

  lemma ToldSamePairs(last: Table, table: Table, table': Table, pruned: set<(RoutingKey, BackendServerKey)>)
    requires Told(last, table, pruned) && Pairs(table') == Pairs(table)
    ensures Told(last, table', pruned)
  {
  }

  lemma RoutesCurrentAfterHandleEvent(s: State, event: TcpEvent, now: int)
    requires RoutesCurrent(s)
    ensures RoutesCurrent(AfterHandleEvent(s, event, now))
  {
    var table := ApplyEvent(s.table, event, now);
    if EventChanges(s.table, event, now) {
      ToldItself(table);
    } else if Quiet(s.syncs) {
      ToldSamePairs(LastTable(s), s.table, table, s.pruned);
    }
  }

  lemma RoutesCurrentAfterPrune(s: State, now: int)
    requires RoutesCurrent(s)
    ensures RoutesCurrent(AfterPrune(s, now))
  {
    PruneIsExact(s.table, s.defaultTTL, now);
    assert Pairs(Prune(s.table, s.defaultTTL, now)) <= Pairs(s.table);
  }

  lemma RoutesCurrentAfterReturn(s: State)
    requires RoutesCurrent(s) && SyncsOrderly(s)
    ensures RoutesCurrent(AfterLockedCallReturns(s))
  {
    if s.lock.HeldBySync? {
      QuietWithout(s.syncs, s.lock.id);
    }
  }

  lemma RoutesCurrentAfterSyncUpsert(s: State, id: nat, now: int, snapshotNow: int)
    requires RoutesCurrent(s) && id in s.syncs && s.syncs[id].Upserting? && s.syncs[id].todo != []
    ensures RoutesCurrent(AfterSyncUpsert(s, id, now, snapshotNow))
  {
    var s' := AfterSyncUpsert(s, id, now, snapshotNow);
    var (key, info) := ToRoutingTableEntry(s.syncs[id].todo[0]);
    QuietUpdate(s.syncs, id, s'.syncs[id]);
    if Quiet(s'.syncs) {
      UpsertPairs(s.table, key, info, now);
      ToldSamePairs(LastTable(s), s.table, s'.table, s.pruned);
    }
  }

  lemma RoutesCurrentAfterSyncAdopt(s: State, id: nat, now: int)
    requires RoutesCurrent(s) && id in s.syncs && s.syncs[id].Upserting?
    ensures RoutesCurrent(AfterSyncAdopt(s, id, now))
  {
    QuietUpdate(s.syncs, id, AfterSyncAdopt(s, id, now).syncs[id]);
  }

  lemma RoutesCurrentAfterSyncFinish(s: State, id: nat, clock: nat -> int, now: int)
    requires RoutesCurrent(s) && id in s.syncs && s.syncs[id].Finishing?
    ensures RoutesCurrent(AfterSyncFinish(s, id, clock, now))
  {
    var table := ApplyEvents(s.table, s.cached, clock);
    if s.syncs[id].changed || AnyEventChanges(s.table, s.cached, clock) {
      ToldItself(table);
    } else {
      QuietWithout(s.syncs, id);
      NoChangeKeepsPairs(s.table, s.cached, clock);
      if Quiet(s.syncs) {
        ToldSamePairs(LastTable(s), s.table, table, s.pruned);
      }
    }
  }

  lemma RoutesCurrentAfterDrainStep(s: State, step: Step)
    requires RoutesCurrent(s) && Enabled(s, step) && !IsHandlerStep(step) && !IsSyncStep(step)
    ensures RoutesCurrent(Apply(s, step))
  {
    ToldItself(s.table);
  }

  lemma RoutesCurrentKept(s: State, step: Step)
    requires RoutesCurrent(s) && SyncsOrderly(s) && Enabled(s, step)
    ensures RoutesCurrent(Apply(s, step))
  {
    match step
    case HandleEvent(event, now) => RoutesCurrentAfterHandleEvent(s, event, now);
    case PruneStaleRoutes(now) => RoutesCurrentAfterPrune(s, now);
    case LockedCallReturns => RoutesCurrentAfterReturn(s);
    case SyncStart => QuietUpdate(s.syncs, s.started, Fetching);
    case SyncFetched(id, _, _) => QuietUpdate(s.syncs, id, Apply(s, step).syncs[id]);
    case SyncUpsert(id, now, snapshotNow) => RoutesCurrentAfterSyncUpsert(s, id, now, snapshotNow);
    case SyncAdopt(id, now) => RoutesCurrentAfterSyncAdopt(s, id, now);
    case SyncFinish(id, clock, now) => RoutesCurrentAfterSyncFinish(s, id, clock, now);
    case _ => RoutesCurrentAfterDrainStep(s, step);
  }

  // ----- Events: none is lost, unless a sync starts over another one's cache -----

  /** The cached events still to be handled. While a sync's own call to the configurer is
      under way it has handled its cache already. */
  function InCache(s: State): seq<TcpEvent> {
    if s.lock.HeldBySync? then [] else s.cached
  }

  ghost predicate EventsAccounted(s: State) {
    && (s.cached != [] ==> s.syncing)
    && (s.syncing ==> s.syncs != map[])
    && |s.received| == |s.handled| + |s.dropped| + |InCache(s)|
    && (s.dropped == [] ==> s.received == s.handled + InCache(s))
  }

  lemma EventsAccountedAfterHandleEvent(s: State, event: TcpEvent, now: int)
    requires EventsAccounted(s) && s.lock.Free?
    ensures EventsAccounted(AfterHandleEvent(s, event, now))
  {
    if s.dropped == [] {
      EventIn(s.received, s.handled, s.cached, event);
    }
  }

  lemma EventIn(received: seq<TcpEvent>, handled: seq<TcpEvent>, cached: seq<TcpEvent>, event: TcpEvent)
    requires received == handled + cached
    ensures received + [event] == handled + (cached + [event])
    ensures cached == [] ==> received + [event] == handled + [event]
  {
  }

  lemma EventsAccountedAfterPrune(s: State, now: int)
    requires EventsAccounted(s)
    ensures EventsAccounted(AfterPrune(s, now))
  {
  }

  lemma EventsAccountedAfterReturn(s: State)
    requires EventsAccounted(s) && SyncsOrderly(s)
    ensures EventsAccounted(AfterLockedCallReturns(s))
  {
  }

  lemma EventsAccountedAfterHandlerStep(s: State, step: Step)
    requires EventsAccounted(s) && Enabled(s, step) && IsHandlerStep(step)
    requires SyncsOrderly(s)
    ensures EventsAccounted(Apply(s, step))
  {
    match step
    case HandleEvent(event, now) => EventsAccountedAfterHandleEvent(s, event, now);
    case PruneStaleRoutes(now) => EventsAccountedAfterPrune(s, now);
    case LockedCallReturns => EventsAccountedAfterReturn(s);
  }

  lemma EventsAccountedAfterSyncFinish(s: State, id: nat, clock: nat -> int, now: int)
    requires EventsAccounted(s) && s.lock.Free? && id in s.syncs && s.syncs[id].Finishing?
    ensures EventsAccounted(AfterSyncFinish(s, id, clock, now))
  {
    var s' := AfterSyncFinish(s, id, clock, now);
    assert s'.syncing ==> id in s'.syncs;
    assert InCache(s') == [];
  }

  lemma EventsAccountedAfterSyncStart(s: State)
    requires EventsAccounted(s) && s.lock.Free?
    ensures EventsAccounted(Apply(s, SyncStart))
  {
    assert s.started in Apply(s, SyncStart).syncs;
  }

  /** The other steps of a sync leave the cache alone. */
  lemma EventsAccountedAfterSyncMove(s: State, step: Step)
    requires EventsAccounted(s) && Enabled(s, step) && (step.SyncFetched? || step.SyncUpsert? || step.SyncAdopt?)
    ensures EventsAccounted(Apply(s, step))
  {
    assert step.id in Apply(s, step).syncs;
  }

  lemma EventsAccountedKept(s: State, step: Step)
    requires EventsAccounted(s) && SyncsOrderly(s) && Enabled(s, step)
    ensures EventsAccounted(Apply(s, step))
  {
    if step.SyncFinish? {
      EventsAccountedAfterSyncFinish(s, step.id, step.clock, step.now);
    } else if step.SyncStart? {
      EventsAccountedAfterSyncStart(s);
    } else if IsSyncStep(step) {
      EventsAccountedAfterSyncMove(s, step);
    } else if IsHandlerStep(step) {
      EventsAccountedAfterHandlerStep(s, step);
    }
  }

  // ----- Drains: the flag handed to the configurer -----

  /** Once draining, every call asks for the failing health check; the calls made before
      have returned by then. */
  ghost predicate OneWay(calls: seq<Call>, draining: bool) {
    && (forall i :: 0 <= i < |calls| && calls[i].forceHealthCheckToFail ==> draining)
    && (forall i, j :: 0 <= i < j < |calls| && calls[i].forceHealthCheckToFail ==> calls[j].forceHealthCheckToFail)
    && (forall i :: 0 <= i < |calls| && draining && !calls[i].forceHealthCheckToFail ==> calls[i].returned)
  }

  ghost predicate DrainOneWay(s: State) {
    OneWay(s.calls, s.draining)
  }

  /** A call that has not returned was made under the lock still held for it, or by a drain. */
  ghost predicate OpenCallsHoldLock(s: State) {
    && (forall i :: 0 <= i < |s.calls| && !s.calls[i].returned ==>
          || (s.calls[i].caller.ByEvent? && s.lock.HeldByHandler?)
          || (s.calls[i].caller.BySync? && s.lock == HeldBySync(s.calls[i].caller.id))
          || s.calls[i].caller.ByDrain?)
    && (forall i :: 0 <= i < |s.calls| && s.calls[i].caller.ByDrain? ==> s.calls[i].forceHealthCheckToFail)
    && (forall id :: id in s.drains && (s.drains[id].Calling? || s.drains[id].InCall?) ==> s.draining)
  }

  lemma OpenCallsHoldLockKept(s: State, step: Step)
    requires OpenCallsHoldLock(s) && Enabled(s, step)
    ensures OpenCallsHoldLock(Apply(s, step))
  {
    if step.LockedCallReturns? {
      OpenCallsHoldLockAfterReturn(s);
    } else if IsHandlerStep(step) {
      OpenCallsHoldLockAfterHandlerStep(s, step);
    } else if step.SyncFinish? {
      OpenCallsHoldLockAfterSyncFinish(s, step.id, step.clock, step.now);
    } else if IsSyncStep(step) {
      OpenCallsHoldLockAfterSyncStep(s, step);
    } else {
      OpenCallsHoldLockAfterDrainStep(s, step);
    }
  }

  lemma OpenCallsHoldLockAfterReturn(s: State)
    requires OpenCallsHoldLock(s) && !s.lock.Free?
    ensures OpenCallsHoldLock(AfterLockedCallReturns(s))
  {
  }

  lemma OpenCallsHoldLockAfterHandlerStep(s: State, step: Step)
    requires OpenCallsHoldLock(s) && Enabled(s, step) && IsHandlerStep(step) && !step.LockedCallReturns?
    ensures OpenCallsHoldLock(Apply(s, step))
  {
  }

  lemma OpenCallsHoldLockAfterSyncFinish(s: State, id: nat, clock: nat -> int, now: int)
    requires OpenCallsHoldLock(s) && s.lock.Free? && id in s.syncs && s.syncs[id].Finishing?
    ensures OpenCallsHoldLock(AfterSyncFinish(s, id, clock, now))
  {
  }

  lemma OpenCallsHoldLockAfterSyncStep(s: State, step: Step)
    requires OpenCallsHoldLock(s) && Enabled(s, step) && IsSyncStep(step) && !step.SyncFinish?
    ensures OpenCallsHoldLock(Apply(s, step))
  {
  }

  lemma OpenCallsHoldLockAfterDrainStep(s: State, step: Step)
    requires OpenCallsHoldLock(s) && Enabled(s, step) && !IsHandlerStep(step) && !IsSyncStep(step)
    ensures OpenCallsHoldLock(Apply(s, step))
  {
  }

  lemma OneWayAppended(calls: seq<Call>, draining: bool, call: Call)
    requires OneWay(calls, draining) && call.forceHealthCheckToFail == draining
    ensures OneWay(calls + [call], draining)
  {
  }

  lemma OneWayReturned(calls: seq<Call>, draining: bool, caller: Caller)
    requires OneWay(calls, draining)
    ensures OneWay(Returned(calls, caller), draining)
  {
  }

  /** The lock is free when the drain flag is set, so every earlier call has returned. */
  lemma DrainOneWayAfterDrainSet(s: State)
    requires DrainOneWay(s) && OpenCallsHoldLock(s) && s.lock.Free?
    ensures OneWay(s.calls, true)
  {
  }

  lemma DrainOneWayAfterHandlerStep(s: State, step: Step)
    requires DrainOneWay(s) && Enabled(s, step) && IsHandlerStep(step)
    ensures DrainOneWay(Apply(s, step))
  {
    match step
    case HandleEvent(event, now) =>
      OneWayAppended(s.calls, s.draining, Call(ByEvent, ApplyEvent(s.table, event, now), s.draining, false));
    case LockedCallReturns =>
      OneWayReturned(s.calls, s.draining, if s.lock.HeldBySync? then BySync(s.lock.id) else ByEvent);
    case PruneStaleRoutes(_) =>
  }

  lemma DrainOneWayAfterSyncStep(s: State, step: Step)
    requires DrainOneWay(s) && Enabled(s, step) && IsSyncStep(step)
    ensures DrainOneWay(Apply(s, step))
  {
    if step.SyncFinish? {
      OneWayAppended(s.calls, s.draining,
                     Call(BySync(step.id), ApplyEvents(s.table, s.cached, step.clock), s.draining, false));
    }
  }

  lemma DrainOneWayAfterDrainStep(s: State, step: Step)
    requires DrainOneWay(s) && OpenCallsHoldLock(s) && Enabled(s, step) && !IsHandlerStep(step) && !IsSyncStep(step)
    ensures DrainOneWay(Apply(s, step))
  {
    match step
    case DrainSet(_) => DrainOneWayAfterDrainSet(s);
    case DrainCall(id) =>
      OneWayAppended(s.calls, s.draining, Call(ByDrain(id), s.table, s.draining, false));
    case DrainCallReturns(id) => OneWayReturned(s.calls, s.draining, ByDrain(id));
    case _ =>
  }

  lemma DrainOneWayKept(s: State, step: Step)
    requires DrainOneWay(s) && OpenCallsHoldLock(s) && Enabled(s, step)
    ensures DrainOneWay(Apply(s, step))
  {
    if IsHandlerStep(step) {
      DrainOneWayAfterHandlerStep(s, step);
    } else if IsSyncStep(step) {
      DrainOneWayAfterSyncStep(s, step);
    } else {
      DrainOneWayAfterDrainStep(s, step);
    }
  }

  // ----- One call for each sync, and one for drains that do not overlap -----

  /** A sync that has called is under way only while that call is, and calls once. */
  ghost predicate OncePerSync(calls: seq<Call>, syncs: map<nat, SyncPhase>, started: nat) {
    && (forall i :: 0 <= i < |calls| && calls[i].caller.BySync? ==>
          && calls[i].caller.id < started
          && (calls[i].caller.id in syncs ==> syncs[calls[i].caller.id].Configuring?))
    && (forall i, j :: 0 <= i < j < |calls| && calls[i].caller.BySync? ==> calls[i].caller != calls[j].caller)
  }

  lemma OncePerSyncAppended(calls: seq<Call>, syncs: map<nat, SyncPhase>, started: nat, call: Call)
    requires OncePerSync(calls, syncs, started) && !call.caller.BySync?
    ensures OncePerSync(calls + [call], syncs, started)
  {
  }

  lemma OncePerSyncCalled(calls: seq<Call>, syncs: map<nat, SyncPhase>, started: nat, id: nat, call: Call)
    requires OncePerSync(calls, syncs, started) && call.caller == BySync(id)
    requires id in syncs && id < started && !syncs[id].Configuring?
    ensures OncePerSync(calls + [call], syncs[id := Configuring], started)
  {
  }

  lemma OncePerSyncReturned(calls: seq<Call>, syncs: map<nat, SyncPhase>, started: nat, caller: Caller)
    requires OncePerSync(calls, syncs, started)
    ensures OncePerSync(Returned(calls, caller), syncs, started)
  {
  }

  lemma OncePerSyncMoved(calls: seq<Call>, syncs: map<nat, SyncPhase>, syncs': map<nat, SyncPhase>,
                         started: nat, started': nat)
    requires OncePerSync(calls, syncs, started) && started <= started'
    requires forall id :: id in syncs' && id < started ==>
               id in syncs && (syncs[id].Configuring? ==> syncs'[id].Configuring?)
    ensures OncePerSync(calls, syncs', started')
  {
  }

  ghost predicate SyncsCallOnce(s: State) {
    OncePerSync(s.calls, s.syncs, s.started)
  }

  lemma SyncsCallOnceAfterSyncFinish(s: State, id: nat, clock: nat -> int, now: int)
    requires SyncsCallOnce(s) && SyncsOrderly(s) && id in s.syncs && s.syncs[id].Finishing?
    ensures SyncsCallOnce(AfterSyncFinish(s, id, clock, now))
  {
    var call := Call(BySync(id), ApplyEvents(s.table, s.cached, clock), s.draining, false);
    OncePerSyncCalled(s.calls, s.syncs, s.started, id, call);
    OncePerSyncMoved(s.calls, s.syncs, s.syncs - {id}, s.started, s.started);
  }

  lemma SyncsCallOnceAfterSyncStep(s: State, step: Step)
    requires SyncsCallOnce(s) && Enabled(s, step) && IsSyncStep(step) && !step.SyncFinish?
    ensures SyncsCallOnce(Apply(s, step))
  {
    var s' := Apply(s, step);
    OncePerSyncMoved(s.calls, s.syncs, s'.syncs, s.started, s'.started);
  }

  lemma SyncsCallOnceAfterHandlerStep(s: State, step: Step)
    requires SyncsCallOnce(s) && Enabled(s, step) && IsHandlerStep(step)
    ensures SyncsCallOnce(Apply(s, step))
  {
    match step
    case HandleEvent(event, now) =>
      OncePerSyncAppended(s.calls, s.syncs, s.started, Call(ByEvent, ApplyEvent(s.table, event, now), s.draining, false));
    case LockedCallReturns =>
      var s' := AfterLockedCallReturns(s);
      OncePerSyncReturned(s.calls, s.syncs, s.started, if s.lock.HeldBySync? then BySync(s.lock.id) else ByEvent);
      OncePerSyncMoved(s'.calls, s.syncs, s'.syncs, s.started, s.started);
    case PruneStaleRoutes(_) =>
  }

  lemma SyncsCallOnceAfterDrainStep(s: State, step: Step)
    requires SyncsCallOnce(s) && Enabled(s, step) && !IsHandlerStep(step) && !IsSyncStep(step)
    ensures SyncsCallOnce(Apply(s, step))
  {
    match step
    case DrainStart => OncePerSyncMoved(s.calls, s.syncs, s.syncs, s.started, s.started + 1);
    case DrainCall(id) =>
      OncePerSyncAppended(s.calls, s.syncs, s.started, Call(ByDrain(id), s.table, s.draining, false));
    case DrainCallReturns(id) => OncePerSyncReturned(s.calls, s.syncs, s.started, ByDrain(id));
    case _ =>
  }

  lemma SyncsCallOnceKept(s: State, step: Step)
    requires SyncsCallOnce(s) && SyncsOrderly(s) && Enabled(s, step)
    ensures SyncsCallOnce(Apply(s, step))
  {
    if step.SyncFinish? {
      SyncsCallOnceAfterSyncFinish(s, step.id, step.clock, step.now);
    } else if IsSyncStep(step) {
      SyncsCallOnceAfterSyncStep(s, step);
    } else if IsHandlerStep(step) {
      SyncsCallOnceAfterHandlerStep(s, step);
    } else {
      SyncsCallOnceAfterDrainStep(s, step);
    }
  }

  ghost predicate NoDrainCall(calls: seq<Call>) {
    forall i :: 0 <= i < |calls| ==> !calls[i].caller.ByDrain?
  }

  /** With drains that never overlapped: none has called before the drain flag is set,
      none has while one is about to call, and at most one has in all. */
  ghost predicate OneDrainCall(calls: seq<Call>, drains: map<nat, DrainPhase>, draining: bool) {
    && (!draining ==> NoDrainCall(calls))
    && (forall id1, id2 :: id1 in drains && id2 in drains ==> id1 == id2)
    && (forall id :: id in drains && drains[id].Setting? ==> !draining)
    && (forall id :: id in drains && drains[id].Calling? ==> NoDrainCall(calls))
    && (forall i, j :: 0 <= i < j < |calls| ==> !(calls[i].caller.ByDrain? && calls[j].caller.ByDrain?))
  }

  ghost predicate DrainsCallOnce(s: State) {
    !s.drainsOverlapped ==> OneDrainCall(s.calls, s.drains, s.draining)
  }

  lemma OneDrainCallAppended(calls: seq<Call>, drains: map<nat, DrainPhase>, draining: bool, call: Call)
    requires OneDrainCall(calls, drains, draining) && !call.caller.ByDrain?
    ensures OneDrainCall(calls + [call], drains, draining)
  {
  }

  lemma OneDrainCallReturned(calls: seq<Call>, drains: map<nat, DrainPhase>, draining: bool, caller: Caller)
    requires OneDrainCall(calls, drains, draining)
    ensures OneDrainCall(Returned(calls, caller), drains, draining)
  {
  }

  lemma OneDrainCallCalled(calls: seq<Call>, drains: map<nat, DrainPhase>, id: nat, call: Call)
    requires OneDrainCall(calls, drains, true) && id in drains && drains[id].Calling?
    ensures OneDrainCall(calls + [call], drains[id := InCall], true)
  {
  }

  lemma DrainsCallOnceAfterDrainMove(s: State, step: Step)
    requires DrainsCallOnce(s) && Enabled(s, step)
    requires step.DrainStart? || step.DrainPoll? || step.DrainCheck? || step.DrainSet?
    ensures DrainsCallOnce(Apply(s, step))
  {
  }

  lemma DrainsCallOnceAfterDrainCall(s: State, step: Step)
    requires DrainsCallOnce(s) && OpenCallsHoldLock(s) && Enabled(s, step)
    requires step.DrainCall? || step.DrainCallReturns?
    ensures DrainsCallOnce(Apply(s, step))
  {
    if !s.drainsOverlapped {
      if step.DrainCall? {
        OneDrainCallCalled(s.calls, s.drains, step.id, Call(ByDrain(step.id), s.table, s.draining, false));
      } else {
        OneDrainCallReturned(s.calls, s.drains, s.draining, ByDrain(step.id));
      }
    }
  }

  lemma DrainsCallOnceAfterHandlerStep(s: State, step: Step)
    requires DrainsCallOnce(s) && Enabled(s, step) && IsHandlerStep(step)
    ensures DrainsCallOnce(Apply(s, step))
  {
    if !s.drainsOverlapped {
      match step
      case HandleEvent(event, now) =>
        OneDrainCallAppended(s.calls, s.drains, s.draining, Call(ByEvent, ApplyEvent(s.table, event, now), s.draining, false));
      case LockedCallReturns =>
        OneDrainCallReturned(s.calls, s.drains, s.draining, if s.lock.HeldBySync? then BySync(s.lock.id) else ByEvent);
      case PruneStaleRoutes(_) =>
    }
  }

  lemma DrainsCallOnceAfterSyncStep(s: State, step: Step)
    requires DrainsCallOnce(s) && Enabled(s, step) && IsSyncStep(step)
    ensures DrainsCallOnce(Apply(s, step))
  {
    if !s.drainsOverlapped && step.SyncFinish? {
      OneDrainCallAppended(s.calls, s.drains, s.draining,
                           Call(BySync(step.id), ApplyEvents(s.table, s.cached, step.clock), s.draining, false));
    }
  }

  lemma DrainsCallOnceKept(s: State, step: Step)
    requires DrainsCallOnce(s) && OpenCallsHoldLock(s) && Enabled(s, step)
    ensures DrainsCallOnce(Apply(s, step))
  {
    if IsHandlerStep(step) {
      DrainsCallOnceAfterHandlerStep(s, step);
    } else if IsSyncStep(step) {
      DrainsCallOnceAfterSyncStep(s, step);
    } else if step.DrainCall? || step.DrainCallReturns? {
      DrainsCallOnceAfterDrainCall(s, step);
    } else {
      DrainsCallOnceAfterDrainMove(s, step);
    }
  }
}
