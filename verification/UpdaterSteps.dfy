/** The updater as a step system. Events, prunes, bulk syncs and drains interleave at the
    points where the code takes or drops the updater lock, or works without it. Any number
    of syncs and of drains may be under way at once, since each runs in its own goroutine.
    A call to the configurer is two steps, its start and its return. */
module UpdaterSteps {
  import opened RoutingModel
  import opened Events

  datatype SyncPhase =
    | Fetching
    | Upserting(todo: seq<TcpRouteMapping>, snapshot: Table, changed: bool, fetchedAt: int)
    | Finishing(changed: bool)
    | Configuring // holds the updater lock until the configurer returns

  datatype DrainPhase = Waiting | Checking | Setting | Calling | InCall

  datatype Lock = Free | HeldByHandler | HeldBySync(id: nat)

  datatype Caller = ByEvent | BySync(id: nat) | ByDrain(id: nat)

  datatype Call = Call(caller: Caller, table: Table, forceHealthCheckToFail: bool, returned: bool)

  datatype State = State(
    defaultTTL: int,
    now: int,
    table: Table,
    syncing: bool,
    cached: seq<TcpEvent>,
    draining: bool,
    lock: Lock,
    syncs: map<nat, SyncPhase>,
    drains: map<nat, DrainPhase>,
    // History. No step looks at what follows, except to pick an unused id.
    started: nat,                                  // syncs and drains started so far
    calls: seq<Call>,                              // calls to the configurer, in the order they started
    received: seq<TcpEvent>,
    handled: seq<TcpEvent>,
    dropped: seq<TcpEvent>,                        // cached events thrown away by the start of a sync
    pruned: set<(RoutingKey, BackendServerKey)>,   // pairs removed by prunes since the last call started
    lastPrune: int,                                // time of the last prune
    oldestAdopted: Option<int>,                    // earliest fetch of the tables adopted since then
    lastQuietPrune: int,                           // time of the last prune with no sync upserting
    drainsOverlapped: bool)                        // a drain started while another was under way

  datatype Step =
    | HandleEvent(event: TcpEvent, now: int)
    | PruneStaleRoutes(now: int)
    | SyncStart
    | SyncFetched(id: nat, fetched: Option<seq<TcpRouteMapping>>, now: int)
    | SyncUpsert(id: nat, now: int, snapshotNow: int)
    | SyncAdopt(id: nat, now: int)
    | SyncFinish(id: nat, clock: nat -> int, now: int)
    | LockedCallReturns
    | DrainStart
    | DrainPoll(id: nat)
    | DrainCheck(id: nat)
    | DrainSet(id: nat)
    | DrainCall(id: nat)
    | DrainCallReturns(id: nat)

  function Init(defaultTTL: int, now: int): State {
    State(defaultTTL, now, map[], false, [], false, Free, map[], map[],
          0, [], [], [], [], {}, now, None, now, false)
  }

  predicate InPhase<P(==)>(m: map<nat, P>, id: nat, phase: P) {
    id in m && m[id] == phase
  }

  ghost predicate Enabled(s: State, step: Step) {
    match step
    case HandleEvent(_, now) => s.lock.Free? && s.now <= now
    case PruneStaleRoutes(now) => s.lock.Free? && s.now <= now
    case SyncStart => s.lock.Free?
    case SyncFetched(id, _, now) => InPhase(s.syncs, id, Fetching) && s.now <= now
    case SyncUpsert(id, now, snapshotNow) =>
      && id in s.syncs && s.syncs[id].Upserting? && s.syncs[id].todo != []
      && s.now <= now <= snapshotNow
    case SyncAdopt(id, now) => id in s.syncs && s.syncs[id].Upserting? && s.syncs[id].todo == [] && s.now <= now
    case SyncFinish(id, clock, now) =>
      && s.lock.Free? && id in s.syncs && s.syncs[id].Finishing?
      && s.now <= now && (forall i: nat :: s.now <= clock(i) <= now)
    case LockedCallReturns => !s.lock.Free?
    case DrainStart => true
    case DrainPoll(id) => s.lock.Free? && InPhase(s.drains, id, Waiting)
    case DrainCheck(id) => s.lock.Free? && InPhase(s.drains, id, Checking)
    case DrainSet(id) => s.lock.Free? && InPhase(s.drains, id, Setting)
    case DrainCall(id) => s.lock.Free? && InPhase(s.drains, id, Calling)
    case DrainCallReturns(id) => InPhase(s.drains, id, InCall)
  }

  /** A call to the configurer starts: it is handed the table and flag of this moment. */
  function StartCall(s: State, caller: Caller): State {
    s.(calls := s.calls + [Call(caller, s.table, s.draining, false)], pruned := {})
  }

  function Returned(calls: seq<Call>, caller: Caller): (r: seq<Call>)
    ensures |r| == |calls|
    ensures forall i :: 0 <= i < |r| ==> r[i] == calls[i].(returned := calls[i].returned || calls[i].caller == caller)
  {
    seq(|calls|, (i: nat) requires i < |calls| =>
      if calls[i].caller == caller then calls[i].(returned := true) else calls[i])
  }

  ghost function AfterHandleEvent(s: State, event: TcpEvent, now: int): State {
    var s1 := s.(now := now, received := s.received + [event]);
    if s.syncing then s1.(cached := s.cached + [event])
    else
      var s2 := s1.(table := ApplyEvent(s.table, event, now), handled := s.handled + [event]);
      if EventChanges(s.table, event, now)
      then StartCall(s2, ByEvent).(lock := HeldByHandler)
      else s2
  }

  predicate NoneUpserting(s: State) {
    forall id :: id in s.syncs ==> !s.syncs[id].Upserting?
  }

  ghost function AfterPrune(s: State, now: int): State {
    var table := Prune(s.table, s.defaultTTL, now);
    s.(now := now, table := table, pruned := s.pruned + (Pairs(s.table) - Pairs(table)),
       lastPrune := now, oldestAdopted := None, lastQuietPrune := if NoneUpserting(s) then now else s.lastQuietPrune)
  }

  function AfterSyncUpsert(s: State, id: nat, now: int, snapshotNow: int): State
    requires id in s.syncs && s.syncs[id].Upserting? && s.syncs[id].todo != []
  {
    var Upserting(todo, snapshot, changed, fetchedAt) := s.syncs[id];
    var (key, info) := ToRoutingTableEntry(todo[0]);
    var isNew := !(key in s.table && info.Key() in s.table[key]);
    s.(now := snapshotNow,
       table := Upsert(s.table, key, info, now),
       syncs := s.syncs[id := Upserting(todo[1..], Upsert(snapshot, key, info, snapshotNow), changed || isNew, fetchedAt)])
  }

  function Earlier(time: int, other: Option<int>): int {
    if other.Some? && other.value < time then other.value else time
  }

  function AfterSyncAdopt(s: State, id: nat, now: int): State
    requires id in s.syncs && s.syncs[id].Upserting?
  {
    var Upserting(_, snapshot, changed, fetchedAt) := s.syncs[id];
    if |snapshot| != |s.table|
    then s.(now := now, table := snapshot, syncs := s.syncs[id := Finishing(true)],
            oldestAdopted := Some(Earlier(fetchedAt, s.oldestAdopted)))
    else s.(now := now, syncs := s.syncs[id := Finishing(changed)])
  }

  ghost function AfterSyncFinish(s: State, id: nat, clock: nat -> int, now: int): State
    requires id in s.syncs && s.syncs[id].Finishing?
  {
    var s1 := s.(now := now, table := ApplyEvents(s.table, s.cached, clock), handled := s.handled + s.cached);
    if s.syncs[id].changed || AnyEventChanges(s.table, s.cached, clock)
    then StartCall(s1, BySync(id)).(lock := HeldBySync(id), syncs := s.syncs[id := Configuring])
    else s1.(syncing := false, cached := [], syncs := s.syncs - {id})
  }

  function AfterLockedCallReturns(s: State): State {
    match s.lock
    case Free => s
    case HeldByHandler => s.(lock := Free, calls := Returned(s.calls, ByEvent))
    case HeldBySync(id) =>
      s.(lock := Free, calls := Returned(s.calls, BySync(id)),
         syncing := false, cached := [], syncs := s.syncs - {id})
  }

  ghost function Apply(s: State, step: Step): State
    requires Enabled(s, step)
  {
    match step
    case HandleEvent(event, now) => AfterHandleEvent(s, event, now)
    case PruneStaleRoutes(now) => AfterPrune(s, now)
    case SyncStart =>
      s.(syncing := true, dropped := s.dropped + s.cached, cached := [],
         syncs := s.syncs[s.started := Fetching], started := s.started + 1)
    case SyncFetched(id, fetched, now) =>
      s.(now := now,
         syncs := s.syncs[id := if fetched.Some? then Upserting(fetched.value, map[], false, now) else Finishing(false)])
    case SyncUpsert(id, now, snapshotNow) => AfterSyncUpsert(s, id, now, snapshotNow)
    case SyncAdopt(id, now) => AfterSyncAdopt(s, id, now)
    case SyncFinish(id, clock, now) => AfterSyncFinish(s, id, clock, now)
    case LockedCallReturns => AfterLockedCallReturns(s)
    case DrainStart =>
      s.(drains := s.drains[s.started := Waiting], started := s.started + 1,
         drainsOverlapped := s.drainsOverlapped || s.drains != map[])
    case DrainPoll(id) => if s.syncing then s else s.(drains := s.drains[id := Checking])
    case DrainCheck(id) =>
      if s.draining then s.(drains := s.drains - {id}) else s.(drains := s.drains[id := Setting])
    case DrainSet(id) => s.(draining := true, drains := s.drains[id := Calling])
    case DrainCall(id) => StartCall(s, ByDrain(id)).(drains := s.drains[id := InCall])
    case DrainCallReturns(id) => s.(drains := s.drains - {id}, calls := Returned(s.calls, ByDrain(id)))
  }

  ghost function Next(s: State, step: Step): Option<State> {
    if Enabled(s, step) then Some(Apply(s, step)) else None
  }

  /** A run: a state before the first step and one after each. */
  ghost predicate IsRun(states: seq<State>, steps: seq<Step>) {
    && |states| == |steps| + 1
    && (exists defaultTTL, now :: states[0] == Init(defaultTTL, now))
    && (forall i :: 0 <= i < |steps| ==> Next(states[i], steps[i]) == Some(states[i + 1]))
  }

  ghost predicate Reachable(s: State) {
    exists states, steps :: IsRun(states, steps) && states[|states| - 1] == s
  }
}
