/** What the history of a run tells: why a pair left the table, what was pruned, what a drain
    waited for, and that undisturbed steps are the methods of Updaters.dfy. */
module UpdaterHistories {
  import opened RoutingModel
  import opened Events
  import opened TableLaws
  import opened Updaters
  import opened UpdaterSteps
  import opened UpdaterInvariants
  import opened UpdaterTheorems

  // ----- Why a pair leaves the table -----

  predicate IsDeleteOf(e: TcpEvent, key: RoutingKey, b: BackendServerKey) {
    e.action == "Delete" && PairOf(e.mapping) == (key, b)
  }

  lemma LeavesByEvent(t: Table, e: TcpEvent, now: int, key: RoutingKey, b: BackendServerKey)
    requires (key, b) in Pairs(t) && (key, b) !in Pairs(ApplyEvent(t, e, now))
    ensures IsDeleteOf(e, key, b)
    ensures t[key][b].tag == e.mapping.tag || IsNews(t[key][b].tag, e.mapping.tag)
  {
    if PairOf(e.mapping) != (key, b) {
      EventLeavesOthers(t, e, now, key, b);
      assert false;
    }
    EventByMapping(t, e, now);
  }

  lemma {:induction false} LeavesByEvents(t: Table, events: seq<TcpEvent>, clock: nat -> int, key: RoutingKey,
                                          b: BackendServerKey)
    requires (key, b) in Pairs(t) && (key, b) !in Pairs(ApplyEvents(t, events, clock))
    ensures exists e :: e in events && IsDeleteOf(e, key, b)
  {
    var n := |events| - 1;
    var before := ApplyEvents(t, events[..n], clock);
    if (key, b) in Pairs(before) {
      LeavesByEvent(before, events[n], clock(n), key, b);
    } else {
      LeavesByEvents(t, events[..n], clock, key, b);
      var e :| e in events[..n] && IsDeleteOf(e, key, b);
      assert e in events;
    }
  }

  /** The step prunes a backend of the table that had outlived its TTL. */
  ghost predicate PrunesOutOfTime(s: State, step: Step, key: RoutingKey, b: BackendServerKey) {
    && step.PruneStaleRoutes? && (key, b) in Pairs(s.table)
    && OutOfTime(s.table[key][b], s.defaultTTL, step.now)
  }

  /** A pair leaves the table by a prune after its time is over, by a delete event that is not
      older than what is held, or by the adoption of a fetched table without it; never
      otherwise. */
  ghost predicate LeavesFor(s: State, step: Step, key: RoutingKey, b: BackendServerKey)
    requires (key, b) in Pairs(s.table)
  {
    || PrunesOutOfTime(s, step, key, b)
    || (step.HandleEvent? && !s.syncing && IsDeleteOf(step.event, key, b)
        && (s.table[key][b].tag == step.event.mapping.tag || IsNews(s.table[key][b].tag, step.event.mapping.tag)))
    || (step.SyncFinish? && exists e :: e in s.cached && IsDeleteOf(e, key, b))
    || (step.SyncAdopt? && step.id in s.syncs && s.syncs[step.id].Upserting?
        && (key, b) !in Pairs(s.syncs[step.id].snapshot))
  }

  lemma WhyPairLeaves(s: State, step: Step, s': State, key: RoutingKey, b: BackendServerKey)
    requires Next(s, step) == Some(s') && (key, b) in Pairs(s.table) && (key, b) !in Pairs(s'.table)
    ensures LeavesFor(s, step, key, b)
  {
    match step
    case HandleEvent(event, now) => LeavesAtEvent(s, event, now, s', key, b);
    case PruneStaleRoutes(now) => LeavesAtPrune(s, now, s', key, b);
    case SyncUpsert(id, now, snapshotNow) => StaysAtUpsert(s, id, now, snapshotNow, s', key, b);
    case SyncFinish(id, clock, now) => LeavesAtFinish(s, id, clock, now, s', key, b);
    case SyncAdopt(id, now) => LeavesAtAdopt(s, id, now, s', key, b);
    case _ => TableUntouched(s, step, s');
  }

  lemma LeavesAtAdopt(s: State, id: nat, now: int, s': State, key: RoutingKey, b: BackendServerKey)
    requires id in s.syncs && s.syncs[id].Upserting? && s' == AfterSyncAdopt(s, id, now)
    requires (key, b) in Pairs(s.table) && (key, b) !in Pairs(s'.table)
    ensures LeavesFor(s, SyncAdopt(id, now), key, b)
  {
  }

  lemma TableUntouched(s: State, step: Step, s': State)
    requires Next(s, step) == Some(s')
    requires !step.HandleEvent? && !step.PruneStaleRoutes? && !step.SyncUpsert? && !step.SyncAdopt? && !step.SyncFinish?
    ensures s'.table == s.table
  {
    if step.SyncStart? || step.SyncFetched? {
      TableUntouchedBySync(s, step, s');
    } else if step.LockedCallReturns? {
      TableUntouchedByReturn(s, s');
    } else {
      TableUntouchedByDrain(s, step, s');
    }
  }

  lemma TableUntouchedBySync(s: State, step: Step, s': State)
    requires Next(s, step) == Some(s') && (step.SyncStart? || step.SyncFetched?)
    ensures s'.table == s.table
  {
  }

  lemma TableUntouchedByReturn(s: State, s': State)
    requires Next(s, LockedCallReturns) == Some(s')
    ensures s'.table == s.table
  {
  }

  lemma TableUntouchedByDrain(s: State, step: Step, s': State)
    requires Next(s, step) == Some(s') && !IsSyncStep(step) && !IsHandlerStep(step)
    ensures s'.table == s.table
  {
  }

  lemma LeavesAtEvent(s: State, event: TcpEvent, now: int, s': State, key: RoutingKey, b: BackendServerKey)
    requires s' == AfterHandleEvent(s, event, now)
    requires (key, b) in Pairs(s.table) && (key, b) !in Pairs(s'.table)
    ensures LeavesFor(s, HandleEvent(event, now), key, b)
  {
    LeavesByEvent(s.table, event, now, key, b);
  }

  lemma LeavesAtPrune(s: State, now: int, s': State, key: RoutingKey, b: BackendServerKey)
    requires s' == AfterPrune(s, now)
    requires (key, b) in Pairs(s.table) && (key, b) !in Pairs(s'.table)
    ensures LeavesFor(s, PruneStaleRoutes(now), key, b)
  {
    PruneByTime(s.table, s.defaultTTL, now, key, b);
  }

  lemma StaysAtUpsert(s: State, id: nat, now: int, snapshotNow: int, s': State, key: RoutingKey, b: BackendServerKey)
    requires id in s.syncs && s.syncs[id].Upserting? && s.syncs[id].todo != []
    requires s' == AfterSyncUpsert(s, id, now, snapshotNow) && (key, b) in Pairs(s.table)
    ensures (key, b) in Pairs(s'.table)
  {
    var (k, info) := ToRoutingTableEntry(s.syncs[id].todo[0]);
    UpsertPairs(s.table, k, info, now);
  }

  lemma LeavesAtFinish(s: State, id: nat, clock: nat -> int, now: int, s': State, key: RoutingKey, b: BackendServerKey)
    requires id in s.syncs && s.syncs[id].Finishing? && s' == AfterSyncFinish(s, id, clock, now)
    requires (key, b) in Pairs(s.table) && (key, b) !in Pairs(s'.table)
    ensures LeavesFor(s, SyncFinish(id, clock, now), key, b)
  {
    LeavesByEvents(s.table, s.cached, clock, key, b);
  }

  // ----- What was pruned -----

  lemma PrunedByStep(s: State, step: Step, s': State, key: RoutingKey, b: BackendServerKey)
    requires Next(s, step) == Some(s') && (key, b) in s'.pruned && (key, b) !in s.pruned
    ensures PrunesOutOfTime(s, step, key, b)
  {
    if step.PruneStaleRoutes? {
      PruneByTime(s.table, s.defaultTTL, step.now, key, b);
    } else if IsSyncStep(step) {
      SyncStepPrunesNothing(s, step, s');
    } else {
      OtherStepPrunesNothing(s, step, s');
    }
  }

  lemma SyncStepPrunesNothing(s: State, step: Step, s': State)
    requires Next(s, step) == Some(s') && IsSyncStep(step)
    ensures s'.pruned <= s.pruned
  {
  }

  lemma OtherStepPrunesNothing(s: State, step: Step, s': State)
    requires Next(s, step) == Some(s') && !IsSyncStep(step) && !step.PruneStaleRoutes?
    ensures s'.pruned <= s.pruned
  {
  }

  /** Every pair counted as pruned had outlived its TTL when a prune removed it: a backend
      within its TTL is never pruned. */
  lemma {:induction false} PrunedHadOutlived(states: seq<State>, steps: seq<Step>, i: nat, key: RoutingKey,
                                             b: BackendServerKey)
      returns (j: nat)
    requires IsRun(states, steps) && i < |states| && (key, b) in states[i].pruned
    ensures j < i && PrunesOutOfTime(states[j], steps[j], key, b)
  {
    if i == 0 {
      InitHasNoHistory(states, steps);
      assert false;
    } else if (key, b) in states[i - 1].pruned {
      j := PrunedHadOutlived(states, steps, i - 1, key, b);
    } else {
      PrunedByStep(states[i - 1], steps[i - 1], states[i], key, b);
      j := i - 1;
    }
  }

  lemma InitHasNoHistory(states: seq<State>, steps: seq<Step>)
    requires IsRun(states, steps)
    ensures states[0].pruned == {} && states[0].drains == map[] && states[0].calls == []
    ensures states[0].table == map[] && states[0].received == []
  {
  }

  // ----- What a drain waited for -----

  /** The drain has stopped waiting for a running sync. */
  predicate PastWait(s: State, id: nat) {
    id in s.drains && !s.drains[id].Waiting?
  }

  lemma WaitEndsByPoll(s: State, step: Step, s': State, id: nat)
    requires Next(s, step) == Some(s') && PastWait(s', id) && !PastWait(s, id)
    ensures step == DrainPoll(id) && !s.syncing
  {
    if IsSyncStep(step) {
      SyncStepLeavesDrains(s, step, s');
    } else if IsHandlerStep(step) {
      HandlerStepLeavesDrains(s, step, s');
    } else {
      DrainStepEndsWait(s, step, s', id);
    }
  }

  lemma SyncStepLeavesDrains(s: State, step: Step, s': State)
    requires Next(s, step) == Some(s') && IsSyncStep(step)
    ensures s'.drains == s.drains
  {
    if step.SyncFinish? {
      FinishLeavesDrains(s, step.id, step.clock, step.now, s');
    } else if step.SyncUpsert? || step.SyncAdopt? {
      FillingLeavesDrains(s, step, s');
    }
  }

  lemma FinishLeavesDrains(s: State, id: nat, clock: nat -> int, now: int, s': State)
    requires Next(s, SyncFinish(id, clock, now)) == Some(s')
    ensures s'.drains == s.drains
  {
  }

  lemma FillingLeavesDrains(s: State, step: Step, s': State)
    requires Next(s, step) == Some(s') && (step.SyncUpsert? || step.SyncAdopt?)
    ensures s'.drains == s.drains
  {
  }

  lemma HandlerStepLeavesDrains(s: State, step: Step, s': State)
    requires Next(s, step) == Some(s') && IsHandlerStep(step)
    ensures s'.drains == s.drains
  {
  }

  lemma DrainStepEndsWait(s: State, step: Step, s': State, id: nat)
    requires Next(s, step) == Some(s') && !IsHandlerStep(step) && !IsSyncStep(step)
    requires PastWait(s', id) && !PastWait(s, id)
    ensures step == DrainPoll(id) && !s.syncing
  {
  }

  /** A drain that goes on was polled while no sync was under way. */
  lemma {:induction false} DrainsWait(states: seq<State>, steps: seq<Step>, i: nat, id: nat) returns (j: nat)
    requires IsRun(states, steps) && i < |states| && PastWait(states[i], id)
    ensures j < i && steps[j] == DrainPoll(id) && !states[j].syncing
  {
    if i == 0 {
      InitHasNoHistory(states, steps);
      assert false;
    } else if PastWait(states[i - 1], id) {
      j := DrainsWait(states, steps, i - 1, id);
    } else {
      WaitEndsByPoll(states[i - 1], steps[i - 1], states[i], id);
      j := i - 1;
    }
  }

  predicate CalledByDrain(s: State, id: nat) {
    exists c :: 0 <= c < |s.calls| && s.calls[c].caller == ByDrain(id)
  }

  lemma StillNotCalled(s: State, s': State, id: nat, call: Call, returned: Caller)
    requires !CalledByDrain(s, id) && call.caller != ByDrain(id)
    requires s'.calls == s.calls || s'.calls == s.calls + [call] || s'.calls == Returned(s.calls, returned)
    ensures !CalledByDrain(s', id)
  {
    assert forall d :: 0 <= d < |s.calls| ==> s.calls[d].caller != ByDrain(id);
  }

  lemma DrainCallsPastWait(s: State, step: Step, s': State, id: nat)
    requires Next(s, step) == Some(s') && CalledByDrain(s', id) && !CalledByDrain(s, id)
    ensures PastWait(s, id)
  {
    if IsSyncStep(step) {
      NotCalledBySyncStep(s, step, s', id);
    } else if IsHandlerStep(step) {
      NotCalledByHandlerStep(s, step, s', id);
    } else if step != DrainCall(id) {
      NotCalledByDrainStep(s, step, s', id);
    }
  }

  lemma NotCalledBySyncStep(s: State, step: Step, s': State, id: nat)
    requires Next(s, step) == Some(s') && IsSyncStep(step) && !CalledByDrain(s, id)
    ensures !CalledByDrain(s', id)
  {
    var caller := if step.SyncStart? then ByEvent else BySync(step.id);
    StillNotCalled(s, s', id, Call(caller, s'.table, s.draining, false), ByEvent);
  }

  lemma NotCalledByHandlerStep(s: State, step: Step, s': State, id: nat)
    requires Next(s, step) == Some(s') && IsHandlerStep(step) && !CalledByDrain(s, id)
    ensures !CalledByDrain(s', id)
  {
    StillNotCalled(s, s', id, Call(ByEvent, s'.table, s.draining, false),
                   if s.lock.HeldBySync? then BySync(s.lock.id) else ByEvent);
  }

  lemma NotCalledByDrainStep(s: State, step: Step, s': State, id: nat)
    requires Next(s, step) == Some(s') && !IsHandlerStep(step) && !IsSyncStep(step)
    requires step != DrainCall(id) && !CalledByDrain(s, id)
    ensures !CalledByDrain(s', id)
  {
    var other := if step.DrainCall? then step.id else id + 1;
    var returned := if step.DrainCallReturns? then ByDrain(step.id) else ByEvent;
    StillNotCalled(s, s', id, Call(ByDrain(other), s.table, s.draining, false), returned);
  }

  /** So every call a drain made came after such a poll. */
  lemma {:induction false} DrainCallsWaited(states: seq<State>, steps: seq<Step>, i: nat, id: nat) returns (j: nat)
    requires IsRun(states, steps) && i < |states| && CalledByDrain(states[i], id)
    ensures j < i && steps[j] == DrainPoll(id) && !states[j].syncing
  {
    if i == 0 {
      InitHasNoHistory(states, steps);
      assert false;
    } else if CalledByDrain(states[i - 1], id) {
      j := DrainCallsWaited(states, steps, i - 1, id);
    } else {
      DrainCallsPastWait(states[i - 1], steps[i - 1], states[i], id);
      j := DrainsWait(states, steps, i - 1, id);
    }
  }

  // ----- Undisturbed steps are the methods -----

  lemma {:induction false} SameClock(t: Table, events: seq<TcpEvent>, clock1: nat -> int, clock2: nat -> int)
    requires forall j: nat :: j < |events| ==> clock1(j) == clock2(j)
    ensures ApplyEvents(t, events, clock1) == ApplyEvents(t, events, clock2)
  {
    if events != [] {
      SameClock(t, events[..|events| - 1], clock1, clock2);
    }
  }

  lemma EventStepApplies(s: State, event: TcpEvent, now: int, s': State, clock: nat -> int) returns (clock': nat -> int)
    requires Next(s, HandleEvent(event, now)) == Some(s') && !s.syncing
    requires s.table == ApplyEvents(map[], s.received, clock)
    ensures s'.table == ApplyEvents(map[], s'.received, clock') && s'.received == s.received + [event]
  {
    EventApplied(s, event, now, s');
    clock' := ClockWith(s.received, event, now, clock);
  }

  lemma EventApplied(s: State, event: TcpEvent, now: int, s': State)
    requires Next(s, HandleEvent(event, now)) == Some(s') && !s.syncing
    ensures s'.table == ApplyEvent(s.table, event, now) && s'.received == s.received + [event]
  {
  }

  lemma ClockWith(received: seq<TcpEvent>, event: TcpEvent, now: int, clock: nat -> int) returns (clock': nat -> int)
    ensures ApplyEvents(map[], received + [event], clock') == ApplyEvent(ApplyEvents(map[], received, clock), event, now)
  {
    var n := |received|;
    clock' := (j: nat) => if j == n then now else clock(j);
    SameClock(map[], received, clock, clock');
    LastEventLast(map[], received, event, clock');
  }

  predicate EventsOnly(steps: seq<Step>) {
    forall j :: 0 <= j < |steps| ==> !IsSyncStep(steps[j]) && !steps[j].PruneStaleRoutes?
  }

  lemma OtherStepsLeaveEvents(s: State, step: Step, s': State)
    requires Next(s, step) == Some(s') && !IsSyncStep(step) && !step.PruneStaleRoutes? && !step.HandleEvent?
    ensures s'.table == s.table && s'.received == s.received
    ensures !s.syncing ==> !s'.syncing
  {
    if step.LockedCallReturns? {
      TableUntouchedByReturn(s, s');
    }
  }

  lemma EventStepKeepsOut(s: State, event: TcpEvent, now: int, s': State)
    requires Next(s, HandleEvent(event, now)) == Some(s')
    ensures s'.syncing == s.syncing
  {
  }

  /** Without syncs and prunes the table is what the events received make of an empty one,
      applied in the order they came. */
  lemma {:induction false} EventsMakeTable(states: seq<State>, steps: seq<Step>, i: nat) returns (clock: nat -> int)
    requires IsRun(states, steps) && i < |states| && EventsOnly(steps)
    ensures !states[i].syncing && states[i].table == ApplyEvents(map[], states[i].received, clock)
  {
    if i == 0 {
      InitHasNoHistory(states, steps);
      clock := (j: nat) => 0;
    } else {
      clock := EventsMakeTable(states, steps, i - 1);
      clock := EventsStep(states[i - 1], steps[i - 1], states[i], clock);
    }
  }

  lemma EventsStep(s: State, step: Step, s': State, clock: nat -> int) returns (clock': nat -> int)
    requires Next(s, step) == Some(s') && !IsSyncStep(step) && !step.PruneStaleRoutes?
    requires !s.syncing && s.table == ApplyEvents(map[], s.received, clock)
    ensures !s'.syncing && s'.table == ApplyEvents(map[], s'.received, clock')
  {
    if step.HandleEvent? {
      EventStepKeepsOut(s, step.event, step.now, s');
      clock' := EventStepApplies(s, step.event, step.now, s', clock);
    } else {
      OtherStepsLeaveEvents(s, step, s');
      clock' := clock;
    }
  }

  /** What else a sync knows and leaves alone while it upserts. */
  ghost predicate UpsertsFlagged(t: Table, start: State, s: State, id: nat, mappings: seq<TcpRouteMapping>,
                                 clock: nat -> int, n: nat)
  {
    && n <= |mappings| && id in s.syncs && s.syncs[id].Upserting?
    && (s.syncs[id].changed <==> !(PairsOf(OpsOf(mappings, clock)[..n]) <= Pairs(t)))
    && s.cached == start.cached && s.calls == start.calls && s.draining == start.draining
  }

  lemma NextUpsertFlagged(t: Table, start: State, s: State, s': State, id: nat, mappings: seq<TcpRouteMapping>,
                          clock: nat -> int, snapshotClock: nat -> int, n: nat)
    requires UpsertsDone(t, s, id, mappings, clock, snapshotClock, n)
    requires UpsertsFlagged(t, start, s, id, mappings, clock, n)
    requires Next(s, SyncUpsert(id, clock(n), snapshotClock(n))) == Some(s')
    ensures UpsertsFlagged(t, start, s', id, mappings, clock, n + 1)
  {
    assert n < |mappings| && mappings[n..][0] == mappings[n];
    NextMapping(t, mappings, clock, n);
  }

  lemma UpsertsAloneFlagged(states: seq<State>, id: nat, mappings: seq<TcpRouteMapping>,
                            clock: nat -> int, snapshotClock: nat -> int)
    requires |states| == |mappings| + 1 && UpsertsAlone(states, id, clock, snapshotClock)
    requires UpsertsDone(states[0].table, states[0], id, mappings, clock, snapshotClock, 0)
    requires UpsertsFlagged(states[0].table, states[0], states[0], id, mappings, clock, 0)
    ensures UpsertsFlagged(states[0].table, states[0], states[|mappings|], id, mappings, clock, |mappings|)
  {
    var t, start := states[0].table, states[0];
    forall j | 0 <= j < |mappings|
      ensures UpsertsDone(t, states[j], id, mappings, clock, snapshotClock, j)
                && UpsertsFlagged(t, start, states[j], id, mappings, clock, j) ==>
              UpsertsDone(t, states[j + 1], id, mappings, clock, snapshotClock, j + 1)
                && UpsertsFlagged(t, start, states[j + 1], id, mappings, clock, j + 1)
    {
      if UpsertsDone(t, states[j], id, mappings, clock, snapshotClock, j)
         && UpsertsFlagged(t, start, states[j], id, mappings, clock, j) {
        NextUpsertDone(t, states[j], states[j + 1], id, mappings, clock, snapshotClock, j);
        NextUpsertFlagged(t, start, states[j], states[j + 1], id, mappings, clock, snapshotClock, j);
      }
    }
    AllHold(seq(|states|, (j: nat) requires j < |states| =>
      UpsertsDone(t, states[j], id, mappings, clock, snapshotClock, j)
      && UpsertsFlagged(t, start, states[j], id, mappings, clock, j)), |mappings|);
  }

  lemma AdoptionFlagged(t: Table, start: State, s: State, id: nat, mappings: seq<TcpRouteMapping>, clock: nat -> int,
                        snapshotClock: nat -> int, now: int, adopted: State)
    requires UpsertsDone(t, s, id, mappings, clock, snapshotClock, |mappings|)
    requires UpsertsFlagged(t, start, s, id, mappings, clock, |mappings|)
    requires Next(s, SyncAdopt(id, now)) == Some(adopted)
    ensures id in adopted.syncs && adopted.syncs[id] == Finishing(SyncChanges(t, Some(mappings), clock))
    ensures adopted.cached == start.cached && adopted.calls == start.calls && adopted.draining == start.draining
  {
    AdoptionLeaves(s, id, now, adopted);
    var ops, snapshotOps := OpsOf(mappings, clock), OpsOf(mappings, snapshotClock);
    assert ops[..|mappings|] == ops && snapshotOps[..|mappings|] == snapshotOps;
    AdoptionOfMappings(t, mappings, clock, snapshotClock);
  }

  lemma AdoptionLeaves(s: State, id: nat, now: int, adopted: State)
    requires id in s.syncs && s.syncs[id].Upserting? && Next(s, SyncAdopt(id, now)) == Some(adopted)
    ensures id in adopted.syncs
    ensures adopted.syncs[id] == Finishing(s.syncs[id].changed || |s.syncs[id].snapshot| != |s.table|)
    ensures adopted.cached == s.cached && adopted.calls == s.calls && adopted.draining == s.draining
  {
  }

  lemma FinishCalls(s: State, id: nat, eventClock: nat -> int, now: int, s': State)
    requires Next(s, SyncFinish(id, eventClock, now)) == Some(s') && s.syncs[id].Finishing?
    ensures s'.table == ApplyEvents(s.table, s.cached, eventClock)
    ensures s'.calls == s.calls + if s.syncs[id].changed || AnyEventChanges(s.table, s.cached, eventClock)
                                  then [Call(BySync(id), s'.table, s.draining, false)] else []
  {
  }

  /** A sync whose upserts, adoption and finish no other step disturbs does exactly what the
      sync of Updaters.dfy ensures: the table, and the call to the configurer. */
  lemma SyncAloneIsSync(states: seq<State>, id: nat, mappings: seq<TcpRouteMapping>, clock: nat -> int,
                        snapshotClock: nat -> int, now: int, adopted: State, eventClock: nat -> int, end: int,
                        finished: State)
    requires |states| == |mappings| + 1 && id in states[0].syncs && states[0].syncs[id].Upserting?
    requires states[0].syncs[id].todo == mappings && states[0].syncs[id].snapshot == map[] && !states[0].syncs[id].changed
    requires UpsertsAlone(states, id, clock, snapshotClock)
    requires Next(states[|mappings|], SyncAdopt(id, now)) == Some(adopted)
    requires Next(adopted, SyncFinish(id, eventClock, end)) == Some(finished)
    ensures var before, arrivals := states[0].table, states[0].cached;
            var synced := SyncedTable(before, Some(mappings), clock, snapshotClock);
            && finished.table == ApplyEvents(synced, arrivals, eventClock)
            && finished.calls == states[0].calls +
               if SyncChanges(before, Some(mappings), clock) || AnyEventChanges(synced, arrivals, eventClock)
               then [Call(BySync(id), finished.table, states[0].draining, false)] else []
  {
    var t, start, last := states[0].table, states[0], states[|mappings|];
    SyncAloneYieldsSyncTable(states, id, mappings, clock, snapshotClock, now, adopted);
    UpsertsAloneDone(states, id, mappings, clock, snapshotClock);
    UpsertsAloneFlagged(states, id, mappings, clock, snapshotClock);
    AdoptionFlagged(t, start, last, id, mappings, clock, snapshotClock, now, adopted);
    FinishCalls(adopted, id, eventClock, end, finished);
  }
}
