/** Routing API events, and what applying them means on tables. */
module Events {
  import opened RoutingModel

  datatype TcpRouteMapping = TcpRouteMapping(
    externalPort: uint16, sniHostname: Option<string>,
    hostIP: string, hostPort: uint16, hostTLSPort: int, instanceId: string,
    tag: ModificationTag, ttl: Option<int>)

  /** What the configurer is handed: the table of the moment and the drain flag. */
  datatype ConfigureCall = ConfigureCall(table: Table, forceHealthCheckToFail: bool)

  datatype TcpEvent = TcpEvent(action: string, mapping: TcpRouteMapping)

  function ToRoutingTableEntry(m: TcpRouteMapping): (RoutingKey, BackendServerInfo) {
    var hostname := if m.sniHostname.Some? then m.sniHostname.value else "";
    var ttl := if m.ttl.Some? then m.ttl.value else 0;
    (RoutingKey(m.externalPort, hostname),
     BackendServerInfo(m.hostIP, m.hostPort, m.hostTLSPort, m.instanceId, m.tag, ttl))
  }

  function ApplyEvent(t: Table, e: TcpEvent, now: int): Table {
    var (key, info) := ToRoutingTableEntry(e.mapping);
    if e.action == "Upsert" then Upsert(t, key, info, now)
    else if e.action == "Delete" then Delete(t, key, info, now)
    else t
  }

  /** Whether an event changes the pairs of the table: the one thing that makes a
      reconfiguration necessary. */
  ghost predicate EventChanges(t: Table, e: TcpEvent, now: int) {
    Pairs(ApplyEvent(t, e, now)) != Pairs(t)
  }

  /** Events applied in order, event i at time clock(i). */
  function ApplyEvents(t: Table, events: seq<TcpEvent>, clock: nat -> int): Table {
    if events == [] then t
    else
      var n := |events| - 1;
      ApplyEvent(ApplyEvents(t, events[..n], clock), events[n], clock(n))
  }

  ghost predicate AnyEventChanges(t: Table, events: seq<TcpEvent>, clock: nat -> int) {
    events != [] &&
    var n := |events| - 1;
    || AnyEventChanges(t, events[..n], clock)
    || EventChanges(ApplyEvents(t, events[..n], clock), events[n], clock(n))
  }

  /** The upserts of a fetched list of mappings, mapping i at time clock(i). */
  function OpsOf(mappings: seq<TcpRouteMapping>, clock: nat -> int): (ops: seq<UpsertOp>)
    ensures |ops| == |mappings|
  {
    seq(|mappings|, (i: nat) requires i < |mappings| =>
      var (key, info) := ToRoutingTableEntry(mappings[i]);
      UpsertOp(key, info, clock(i)))
  }

  lemma OpsOfSameUpserts(mappings: seq<TcpRouteMapping>, clock1: nat -> int, clock2: nat -> int)
    ensures SameUpserts(OpsOf(mappings, clock1), OpsOf(mappings, clock2))
  {
  }

  lemma UpsertEventChangesIff(t: Table, e: TcpEvent, now: int)
    requires e.action == "Upsert"
    ensures var (key, info) := ToRoutingTableEntry(e.mapping);
            EventChanges(t, e, now) <==> (key, info.Key()) !in Pairs(t)
  {
    var (key, info) := ToRoutingTableEntry(e.mapping);
    UpsertPairs(t, key, info, now);
    if (key, info.Key()) !in Pairs(t) {
      assert (key, info.Key()) in Pairs(ApplyEvent(t, e, now));
    }
  }

  lemma DeleteEventChangesIff(t: Table, e: TcpEvent, now: int)
    requires e.action == "Delete"
    ensures var (key, info) := ToRoutingTableEntry(e.mapping);
            EventChanges(t, e, now) <==> DeleteApplies(t, key, info, now)
  {
    var (key, info) := ToRoutingTableEntry(e.mapping);
    DeleteAppliesIffPairsChange(t, key, info, now);
  }

  lemma ApplyEventKeepsNoEmptyEntry(t: Table, e: TcpEvent, now: int)
    requires NoEmptyEntry(t)
    ensures NoEmptyEntry(ApplyEvent(t, e, now))
  {
    var (key, info) := ToRoutingTableEntry(e.mapping);
    UpsertKeepsNoEmptyEntry(t, key, info, now);
    DeleteKeepsNoEmptyEntry(t, key, info, now);
  }

  lemma {:induction false} ApplyEventsKeepsNoEmptyEntry(t: Table, events: seq<TcpEvent>, clock: nat -> int)
    requires NoEmptyEntry(t)
    ensures NoEmptyEntry(ApplyEvents(t, events, clock))
  {
    if events != [] {
      var n := |events| - 1;
      ApplyEventsKeepsNoEmptyEntry(t, events[..n], clock);
      ApplyEventKeepsNoEmptyEntry(ApplyEvents(t, events[..n], clock), events[n], clock(n));
    }
  }

  lemma {:induction false} NoChangeKeepsPairs(t: Table, events: seq<TcpEvent>, clock: nat -> int)
    requires !AnyEventChanges(t, events, clock)
    ensures Pairs(ApplyEvents(t, events, clock)) == Pairs(t)
  {
    if events != [] {
      NoChangeKeepsPairs(t, events[..|events| - 1], clock);
    }
  }
}
