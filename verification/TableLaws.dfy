/** What the table operations do, said of the fields of their inputs alone: which tags win,
    which details are kept, when a backend expires, and what an event asks for. */
module TableLaws {
  import opened RoutingModel
  import opened Events

  /** The backend an upsert or delete is about. */
  function Named(info: BackendServerInfo): BackendServerKey {
    BackendServerKey(info.address, info.port, info.tlsPort, info.instanceId)
  }

  /** Seconds as the nanoseconds of the clock. */
  function Seconds(n: int): int {
    n * 1_000_000_000
  }

  /** The backend was updated longer ago than its TTL, or the default TTL if it has none. */
  predicate OutOfTime(details: BackendServerDetails, defaultTTL: int, now: int) {
    now - details.updatedTime > Seconds(if details.ttl == 0 then defaultTTL else details.ttl)
  }

  // ----- Prune -----

  /** A pair leaves in a prune exactly when its time is over; what stays keeps its details,
      and a routing key stays exactly when a backend of it does. */
  lemma PruneByTime(t: Table, defaultTTL: int, now: int, key: RoutingKey, b: BackendServerKey)
    ensures var t' := Prune(t, defaultTTL, now);
            && ((key, b) in Pairs(t') <==> (key, b) in Pairs(t) && !OutOfTime(t[key][b], defaultTTL, now))
            && ((key, b) in Pairs(t') ==> t'[key][b] == t[key][b])
            && (key in t' <==> exists c :: (key, c) in Pairs(t) && !OutOfTime(t[key][c], defaultTTL, now))
  {
    PruneIsExact(t, defaultTTL, now);
    forall c | (key, c) in Pairs(t)
      ensures t[key][c].Expired(defaultTTL, now) <==> OutOfTime(t[key][c], defaultTTL, now)
    {
    }
  }

  // ----- Upsert -----

  /** The details an upsert of a held backend replaces: another guid, or a greater index. */
  predicate IsNews(held: ModificationTag, tag: ModificationTag) {
    held.guid != tag.guid || held.index < tag.index
  }

  /** An upsert that brings news stores its details whole, with the time of this moment. One
      that does not leaves the table as it was. Everything else stays. */
  lemma UpsertByTag(t: Table, key: RoutingKey, info: BackendServerInfo, now: int)
    ensures var t', b := Upsert(t, key, info, now), Named(info);
            var held := key in t && b in t[key];
            && key in t' && b in t'[key]
            && (held && !IsNews(t[key][b].tag, info.tag) ==> t' == t)
            && (!held || IsNews(t[key][b].tag, info.tag) ==>
                  t'[key][b] == BackendServerDetails(info.tag, info.ttl, now))
            && t'[key] - {b} == (if key in t then t[key] - {b} else map[])
            && t' - {key} == t - {key}
  {
  }

  /** The details held for a pair, if any. */
  function DetailsAt(t: Table, key: RoutingKey, b: BackendServerKey): Option<BackendServerDetails> {
    if key in t && b in t[key] then Some(t[key][b]) else None
  }

  predicate IsFor(op: UpsertOp, key: RoutingKey, b: BackendServerKey) {
    op.key == key && Named(op.info) == b
  }

  /** Upsert i is the last of its pair to bring an index greater than all before it. */
  ghost predicate LastRaise(t: Table, ops: seq<UpsertOp>, i: nat, key: RoutingKey, b: BackendServerKey)
    requires i < |ops|
  {
    && IsFor(ops[i], key, b)
    && (key in t && b in t[key] ==> t[key][b].tag.index < ops[i].info.tag.index)
    && (forall j :: 0 <= j < i && IsFor(ops[j], key, b) ==> ops[j].info.tag.index < ops[i].info.tag.index)
    && (forall j :: i < j < |ops| && IsFor(ops[j], key, b) ==> ops[j].info.tag.index <= ops[i].info.tag.index)
  }

  /** With one guid per pair, a list of upserts leaves tag, TTL and time of the last one that
      raised the index of the pair. */
  lemma {:induction false} LastRaiseStays(t: Table, ops: seq<UpsertOp>,
                                          guidOf: ((RoutingKey, BackendServerKey)) -> Guid,
                                          i: nat, key: RoutingKey, b: BackendServerKey)
    requires OneGuidPerPair(t, ops, guidOf) && i < |ops| && LastRaise(t, ops, i, key, b)
    ensures DetailsAt(UpsertAll(t, ops), key, b) ==
            Some(BackendServerDetails(ops[i].info.tag, ops[i].info.ttl, ops[i].now))
  {
    var n := |ops| - 1;
    var before := UpsertAll(t, ops[..n]);
    GuidsOfPrefix(t, ops, guidOf);
    if i == n {
      UpsertAllHoldsMaximum(t, ops[..n], guidOf, key, b);
      IndexBefore(t, ops, before, key, b);
    } else {
      LastRaiseOfPrefix(t, ops, i, key, b);
      LastRaiseStays(t, ops[..n], guidOf, i, key, b);
      NoNewsAfter(t, ops, guidOf, i, key, b);
    }
    UpsertedAt(before, ops[n], key, b);
  }

  lemma GuidsOfPrefix(t: Table, ops: seq<UpsertOp>, guidOf: ((RoutingKey, BackendServerKey)) -> Guid)
    requires ops != [] && OneGuidPerPair(t, ops, guidOf)
    ensures OneGuidPerPair(t, ops[..|ops| - 1], guidOf)
  {
    assert forall op :: op in ops[..|ops| - 1] ==> op in ops;
  }

  lemma LastRaiseOfPrefix(t: Table, ops: seq<UpsertOp>, i: nat, key: RoutingKey, b: BackendServerKey)
    requires i < |ops| - 1 && LastRaise(t, ops, i, key, b)
    ensures LastRaise(t, ops[..|ops| - 1], i, key, b)
  {
    assert forall j :: 0 <= j < |ops| - 1 ==> ops[..|ops| - 1][j] == ops[j];
  }

  lemma NoNewsAfter(t: Table, ops: seq<UpsertOp>, guidOf: ((RoutingKey, BackendServerKey)) -> Guid, i: nat,
                    key: RoutingKey, b: BackendServerKey)
    requires OneGuidPerPair(t, ops, guidOf) && i < |ops| - 1 && LastRaise(t, ops, i, key, b)
    ensures IsFor(ops[|ops| - 1], key, b) ==> !IsNews(ops[i].info.tag, ops[|ops| - 1].info.tag)
  {
    assert ops[i] in ops && ops[|ops| - 1] in ops;
    assert IsFor(ops[|ops| - 1], key, b) ==> ops[i].Pair() == ops[|ops| - 1].Pair();
  }

  lemma IndexBefore(t: Table, ops: seq<UpsertOp>, before: Table, key: RoutingKey, b: BackendServerKey)
    requires ops != [] && LastRaise(t, ops, |ops| - 1, key, b)
    requires IsMaximum(IndexAt(before, key, b), IndexAt(t, key, b), ops[..|ops| - 1], key, b)
    ensures IndexAt(before, key, b) < ops[|ops| - 1].info.tag.index
  {
    var n := |ops| - 1;
    if IndexAt(before, key, b) != IndexAt(t, key, b) {
      var op :| op in ops[..n] && op.Pair() == (key, b) && op.info.tag.index == IndexAt(before, key, b);
      var j :| 0 <= j < n && ops[j] == op;
      assert IsFor(ops[j], key, b);
    }
  }

  /** One upsert, seen at one pair. */
  lemma UpsertedAt(t: Table, op: UpsertOp, key: RoutingKey, b: BackendServerKey)
    ensures var held := DetailsAt(t, key, b);
            DetailsAt(Upsert(t, op.key, op.info, op.now), key, b) ==
            if IsFor(op, key, b) && (held.None? || IsNews(held.value.tag, op.info.tag))
            then Some(BackendServerDetails(op.info.tag, op.info.ttl, op.now)) else held
  {
    UpsertByTag(t, op.key, op.info, op.now);
  }

  /** And where no upsert raised the index, the details are those held before. */
  lemma {:induction false} NoRaiseKeeps(t: Table, ops: seq<UpsertOp>, guidOf: ((RoutingKey, BackendServerKey)) -> Guid,
                                        key: RoutingKey, b: BackendServerKey)
    requires OneGuidPerPair(t, ops, guidOf)
    requires forall op :: op in ops && IsFor(op, key, b) ==>
               key in t && b in t[key] && op.info.tag.index <= t[key][b].tag.index
    ensures DetailsAt(UpsertAll(t, ops), key, b) == DetailsAt(t, key, b)
  {
    if ops != [] {
      var n := |ops| - 1;
      assert forall op :: op in ops[..n] ==> op in ops;
      NoRaiseKeeps(t, ops[..n], guidOf, key, b);
      assert ops[n] in ops;
      UpsertedAt(UpsertAll(t, ops[..n]), ops[n], key, b);
    }
  }

  /** A backend that an upsert refreshed outlives every prune within the TTL it came with. */
  lemma RefreshedOutlivesPrune(t: Table, key: RoutingKey, info: BackendServerInfo, now: int, defaultTTL: int,
                               later: int)
    requires key in t && Named(info) in t[key] ==> IsNews(t[key][Named(info)].tag, info.tag)
    requires later - now <= Seconds(if info.ttl == 0 then defaultTTL else info.ttl)
    ensures (key, Named(info)) in Pairs(Prune(Upsert(t, key, info, now), defaultTTL, later))
  {
    UpsertByTag(t, key, info, now);
    PruneByTime(Upsert(t, key, info, now), defaultTTL, later, key, Named(info));
  }

  // ----- Delete -----

  lemma OthersLeft(bs: Backends, b: BackendServerKey)
    ensures bs - {b} != map[] <==> exists c :: c in bs && c != b
  {
    if c :| c in bs && c != b {
      assert c in bs - {b};
    }
    if bs - {b} != map[] {
      var c :| c in bs - {b};
    }
  }

  /** A delete with the tag held, a greater index or another guid removes its backend, and
      the routing key with the last one. Any other delete changes nothing. */
  lemma DeleteByTag(t: Table, key: RoutingKey, info: BackendServerInfo, now: int)
    ensures var t', b := Delete(t, key, info, now), Named(info);
            if key in t && b in t[key] && (t[key][b].tag == info.tag || IsNews(t[key][b].tag, info.tag))
            then
              && t' - {key} == t - {key}
              && (key in t' <==> exists c :: c in t[key] && c != b)
              && (key in t' ==> t'[key] == t[key] - {b})
            else t' == t
  {
    var b := Named(info);
    if key in t && b in t[key] {
      OthersLeft(t[key], b);
    }
  }

  /** So a delete that is older than what is held is ignored. */
  lemma StaleDeleteIgnored(t: Table, key: RoutingKey, info: BackendServerInfo, now: int)
    requires key in t && Named(info) in t[key]
    requires t[key][Named(info)].tag.guid == info.tag.guid && info.tag.index < t[key][Named(info)].tag.index
    ensures Delete(t, key, info, now) == t
  {
    DeleteByTag(t, key, info, now);
  }

  // ----- Events and fetched mappings -----

  /** The pair a mapping is about. No host name is the empty one. */
  function PairOf(m: TcpRouteMapping): (RoutingKey, BackendServerKey) {
    (RoutingKey(m.externalPort, match m.sniHostname case None => "" case Some(hostname) => hostname),
     BackendServerKey(m.hostIP, m.hostPort, m.hostTLSPort, m.instanceId))
  }

  /** The details a mapping brings. No TTL is zero. */
  function DetailsOf(m: TcpRouteMapping, now: int): BackendServerDetails {
    BackendServerDetails(m.tag, match m.ttl case None => 0 case Some(ttl) => ttl, now)
  }

  lemma EntryOfMapping(m: TcpRouteMapping, now: int)
    ensures var (key, info) := ToRoutingTableEntry(m);
            PairOf(m) == (key, Named(info)) == (key, info.Key()) && DetailsOf(m, now) == info.Details(now)
            && info.tag == m.tag
  {
  }

  /** An upsert event adds the pair of its mapping, with the details of the mapping if the
      pair is new or the tag is news; a delete event removes that pair or leaves the table
      alone; any other event leaves the table alone. */
  lemma EventByMapping(t: Table, e: TcpEvent, now: int)
    ensures var t', (key, b), tag := ApplyEvent(t, e, now), PairOf(e.mapping), e.mapping.tag;
            var held := DetailsAt(t, key, b);
            match e.action
            case "Upsert" =>
              && Pairs(t') == Pairs(t) + {(key, b)}
              && DetailsAt(t', key, b) == Some(if held.None? || IsNews(held.value.tag, tag)
                                              then DetailsOf(e.mapping, now) else held.value)
            case "Delete" =>
              if held.Some? && (held.value.tag == tag || IsNews(held.value.tag, tag))
              then Pairs(t') == Pairs(t) - {(key, b)} else t' == t
            case _ => t' == t
  {
    var (key, info) := ToRoutingTableEntry(e.mapping);
    EntryOfMapping(e.mapping, now);
    UpsertPairs(t, key, info, now);
    UpsertByTag(t, key, info, now);
    DeletePairs(t, key, info, now);
  }

  /** An event leaves every other pair as it was. */
  lemma EventLeavesOthers(t: Table, e: TcpEvent, now: int, key: RoutingKey, b: BackendServerKey)
    requires PairOf(e.mapping) != (key, b)
    ensures DetailsAt(ApplyEvent(t, e, now), key, b) == DetailsAt(t, key, b)
  {
    var (k, info) := ToRoutingTableEntry(e.mapping);
    EntryOfMapping(e.mapping, now);
    UpsertByTag(t, k, info, now);
    DeleteByTag(t, k, info, now);
  }

  /** Events are applied in the order they came: the last one sees what the others left. */
  lemma LastEventLast(t: Table, events: seq<TcpEvent>, e: TcpEvent, clock: nat -> int)
    ensures ApplyEvents(t, events + [e], clock) == ApplyEvent(ApplyEvents(t, events, clock), e, clock(|events|))
  {
    assert (events + [e])[..|events|] == events;
  }
}
