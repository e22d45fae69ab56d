/** The values the router works on, and what each table operation means on values.

    A routing table maps a routing key (inbound port and SNI host name) to its
    backends, and a backend to its modification tag, TTL and time of last update.
    The classes of RoutingTables.dfy and Updaters.dfy are proved against the
    functions of this module; the laws are proved here. */
module RoutingModel {

  type uint16 = x: int | 0 <= x < 0x1_0000

  datatype Option<+T> = None | Some(value: T)

  // The tag order belongs to a library that is not part of this model. It is fixed
  // here for non-empty guids only, so a guid is non-empty by its type.
  type Guid = s: string | s != "" witness "guid"

  datatype ModificationTag = ModificationTag(guid: Guid, index: nat) {
    predicate SucceededBy(other: ModificationTag) {
      guid != other.guid || index < other.index
    }
  }

  datatype RoutingKey = RoutingKey(port: uint16, sniHostname: string)

  datatype BackendServerKey =
    BackendServerKey(address: string, port: uint16, tlsPort: int, instanceId: string)

  // Times are nanoseconds, TTLs are seconds.
  datatype BackendServerDetails =
    BackendServerDetails(tag: ModificationTag, ttl: int, updatedTime: int)
  {
    predicate UpdateSucceededBy(other: BackendServerDetails) {
      tag.SucceededBy(other.tag)
    }

    predicate DeleteSucceededBy(other: BackendServerDetails) {
      tag == other.tag || tag.SucceededBy(other.tag)
    }

    predicate DifferentFrom(other: BackendServerDetails) {
      UpdateSucceededBy(other) && false
    }

    function EffectiveTTL(defaultTTL: int): int {
      (if ttl == 0 then defaultTTL else ttl) * SECOND
    }

    predicate Expired(defaultTTL: int, now: int) {
      now - EffectiveTTL(defaultTTL) > updatedTime
    }
  }

  const SECOND: int := 1_000_000_000

  datatype BackendServerInfo = BackendServerInfo(
    address: string, port: uint16, tlsPort: int, instanceId: string, tag: ModificationTag, ttl: int)
  {
    function Key(): BackendServerKey {
      BackendServerKey(address, port, tlsPort, instanceId)
    }

    function Details(now: int): BackendServerDetails {
      BackendServerDetails(tag, ttl, now)
    }
  }

  type Backends = map<BackendServerKey, BackendServerDetails>
  type Table = map<RoutingKey, Backends>

  /** The pairs (routing key, backend) a table holds. Nothing else about a table
      can reach the HAProxy configuration. */
  ghost function Pairs(t: Table): (r: set<(RoutingKey, BackendServerKey)>)
    ensures forall k, b :: (k, b) in r <==> k in t && b in t[k]
  {
    set k, b | k in t && b in t[k] :: (k, b)
  }

  ghost predicate NoEmptyEntry(t: Table) {
    forall k :: k in t ==> t[k] != map[]
  }

  // ----- Upsert and delete -----

  function UpsertBackend(bs: Backends, info: BackendServerInfo, now: int): Backends {
    if info.Key() !in bs || bs[info.Key()].UpdateSucceededBy(info.Details(now))
    then bs[info.Key() := info.Details(now)]
    else bs
  }

  function Upsert(t: Table, key: RoutingKey, info: BackendServerInfo, now: int): Table {
    t[key := UpsertBackend(if key in t then t[key] else map[], info, now)]
  }

  predicate DeleteApplies(t: Table, key: RoutingKey, info: BackendServerInfo, now: int) {
    key in t && info.Key() in t[key] && t[key][info.Key()].DeleteSucceededBy(info.Details(now))
  }

  function Delete(t: Table, key: RoutingKey, info: BackendServerInfo, now: int): Table {
    if DeleteApplies(t, key, info, now) then
      var rest := t[key] - {info.Key()};
      if rest == map[] then t - {key} else t[key := rest]
    else t
  }

  /** Upsert adds its pair and nothing else, and removes none. */
  lemma UpsertPairs(t: Table, key: RoutingKey, info: BackendServerInfo, now: int)
    ensures Pairs(Upsert(t, key, info, now)) == Pairs(t) + {(key, info.Key())}
  {
  }

  /** Delete removes its own pair when it applies, and otherwise changes nothing. */
  lemma DeletePairs(t: Table, key: RoutingKey, info: BackendServerInfo, now: int)
    ensures var t' := Delete(t, key, info, now);
            if DeleteApplies(t, key, info, now)
            then (key, info.Key()) in Pairs(t) && Pairs(t') == Pairs(t) - {(key, info.Key())}
            else t' == t
  {
    if DeleteApplies(t, key, info, now) {
      var rest := t[key] - {info.Key()};
      assert forall b :: b in t[key] <==> b in rest || b == info.Key();
    }
  }

  lemma DeleteAppliesIffPairsChange(t: Table, key: RoutingKey, info: BackendServerInfo, now: int)
    ensures DeleteApplies(t, key, info, now) <==> Pairs(Delete(t, key, info, now)) != Pairs(t)
  {
    DeletePairs(t, key, info, now);
    if DeleteApplies(t, key, info, now) {
      assert (key, info.Key()) !in Pairs(Delete(t, key, info, now));
    }
  }

  lemma UpsertKeepsNoEmptyEntry(t: Table, key: RoutingKey, info: BackendServerInfo, now: int)
    requires NoEmptyEntry(t)
    ensures NoEmptyEntry(Upsert(t, key, info, now))
  {
    var bs := UpsertBackend(if key in t then t[key] else map[], info, now);
    assert info.Key() in bs;
  }

  lemma DeleteKeepsNoEmptyEntry(t: Table, key: RoutingKey, info: BackendServerInfo, now: int)
    requires NoEmptyEntry(t)
    ensures NoEmptyEntry(Delete(t, key, info, now))
  {
  }

  // ----- Prune -----

  function PruneBackends(bs: Backends, defaultTTL: int, now: int): Backends {
    map b | b in bs && !bs[b].Expired(defaultTTL, now) :: bs[b]
  }

  function Prune(t: Table, defaultTTL: int, now: int): Table {
    map k | k in t && PruneBackends(t[k], defaultTTL, now) != map[] :: PruneBackends(t[k], defaultTTL, now)
  }

  /** A pair outlives a prune exactly when its backend has not expired, its details
      are untouched, and a routing key goes exactly when no backend of it is left. */
  lemma PruneIsExact(t: Table, defaultTTL: int, now: int)
    ensures var t' := Prune(t, defaultTTL, now);
            && NoEmptyEntry(t')
            && (forall k, b :: (k, b) in Pairs(t') <==> (k, b) in Pairs(t) && !t[k][b].Expired(defaultTTL, now))
            && (forall k, b :: k in t' && b in t'[k] ==> t'[k][b] == t[k][b])
            && (forall k :: k in t' <==> exists b :: (k, b) in Pairs(t'))
  {
    var t' := Prune(t, defaultTTL, now);
    forall k, b | k in t && b in t[k] && !t[k][b].Expired(defaultTTL, now)
      ensures k in t' && b in t'[k]
    {
      assert b in PruneBackends(t[k], defaultTTL, now);
    }
    forall k | k in t'
      ensures exists b :: (k, b) in Pairs(t')
    {
      var b :| b in PruneBackends(t[k], defaultTTL, now);
      assert (k, b) in Pairs(t');
    }
  }

  /** Pruning again later is the same as pruning once, later. */
  lemma PruneComposes(t: Table, defaultTTL: int, now1: int, now2: int)
    requires now1 <= now2
    ensures Prune(Prune(t, defaultTTL, now1), defaultTTL, now2) == Prune(t, defaultTTL, now2)
  {
    forall k | k in t
      ensures PruneBackends(PruneBackends(t[k], defaultTTL, now1), defaultTTL, now2)
           == PruneBackends(t[k], defaultTTL, now2)
    {
    }
    assert forall k :: k in t && PruneBackends(t[k], defaultTTL, now2) != map[]
                   ==> PruneBackends(t[k], defaultTTL, now1) != map[];
  }

  // ----- Bulk upserts -----

  datatype UpsertOp = UpsertOp(key: RoutingKey, info: BackendServerInfo, now: int) {
    function Pair(): (RoutingKey, BackendServerKey) {
      (key, info.Key())
    }
  }

  function UpsertAll(t: Table, ops: seq<UpsertOp>): Table {
    if ops == [] then t
    else
      var op := ops[|ops| - 1];
      Upsert(UpsertAll(t, ops[..|ops| - 1]), op.key, op.info, op.now)
  }

  ghost function PairsOf(ops: seq<UpsertOp>): set<(RoutingKey, BackendServerKey)> {
    set op | op in ops :: op.Pair()
  }

  lemma {:induction false} UpsertAllPairs(t: Table, ops: seq<UpsertOp>)
    ensures Pairs(UpsertAll(t, ops)) == Pairs(t) + PairsOf(ops)
  {
    if ops != [] {
      var n := |ops| - 1;
      var op := ops[n];
      UpsertAllPairs(t, ops[..n]);
      UpsertPairs(UpsertAll(t, ops[..n]), op.key, op.info, op.now);
      assert ops == ops[..n] + [op];
      assert PairsOf(ops) == PairsOf(ops[..n]) + {op.Pair()};
    }
  }

  lemma {:induction false} UpsertAllKeepsNoEmptyEntry(t: Table, ops: seq<UpsertOp>)
    requires NoEmptyEntry(t)
    ensures NoEmptyEntry(UpsertAll(t, ops))
  {
    if ops != [] {
      var op := ops[|ops| - 1];
      UpsertAllKeepsNoEmptyEntry(t, ops[..|ops| - 1]);
      UpsertKeepsNoEmptyEntry(UpsertAll(t, ops[..|ops| - 1]), op.key, op.info, op.now);
    }
  }

  lemma {:induction false} UpsertAllKeys(t: Table, ops: seq<UpsertOp>)
    ensures UpsertAll(t, ops).Keys == t.Keys + (set op | op in ops :: op.key)
  {
    if ops != [] {
      var n := |ops| - 1;
      UpsertAllKeys(t, ops[..n]);
      assert ops == ops[..n] + [ops[n]];
    }
  }

  // ----- Convergence: upserts may arrive in any order, and more than once -----

  /** The index a table holds for a pair, or -1 when it does not hold the pair. */
  function IndexAt(t: Table, k: RoutingKey, b: BackendServerKey): int {
    if k in t && b in t[k] then t[k][b].tag.index else -1
  }

  /** Every tag of a pair, in the table and in the upserts, has the pair's own guid. */
  ghost predicate OneGuidPerPair(t: Table, ops: seq<UpsertOp>, guidOf: ((RoutingKey, BackendServerKey)) -> Guid) {
    && (forall k, b :: k in t && b in t[k] ==> t[k][b].tag.guid == guidOf((k, b)))
    && (forall op :: op in ops ==> op.info.tag.guid == guidOf(op.Pair()))
  }

  ghost predicate IsMaximum(m: int, start: int, ops: seq<UpsertOp>, k: RoutingKey, b: BackendServerKey) {
    && start <= m
    && (forall op :: op in ops && op.Pair() == (k, b) ==> op.info.tag.index <= m)
    && (m == start || exists op :: op in ops && op.Pair() == (k, b) && op.info.tag.index == m)
  }

  lemma UpsertKeepsGuids(t: Table, op: UpsertOp, guidOf: ((RoutingKey, BackendServerKey)) -> Guid)
    requires OneGuidPerPair(t, [op], guidOf)
    ensures OneGuidPerPair(Upsert(t, op.key, op.info, op.now), [], guidOf)
  {
    assert op in [op];
  }

  lemma {:induction false} UpsertAllHoldsMaximum(
      t: Table, ops: seq<UpsertOp>, guidOf: ((RoutingKey, BackendServerKey)) -> Guid,
      k: RoutingKey, b: BackendServerKey)
    requires OneGuidPerPair(t, ops, guidOf)
    ensures OneGuidPerPair(UpsertAll(t, ops), [], guidOf)
    ensures IsMaximum(IndexAt(UpsertAll(t, ops), k, b), IndexAt(t, k, b), ops, k, b)
  {
    if ops != [] {
      var n := |ops| - 1;
      var op := ops[n];
      var before := UpsertAll(t, ops[..n]);
      assert ops == ops[..n] + [op];
      UpsertAllHoldsMaximum(t, ops[..n], guidOf, k, b);
      assert op in ops;
      UpsertKeepsGuids(before, op, guidOf);
      var m0, m1 := IndexAt(before, k, b), IndexAt(UpsertAll(t, ops), k, b);
      if op.Pair() == (k, b) {
        assert m1 == if m0 < op.info.tag.index then op.info.tag.index else m0;
      } else {
        assert m1 == m0;
      }
    }
  }

  /** Every upsert of a has one in b for the same pair with the same tag. */
  ghost predicate Covered(a: seq<UpsertOp>, b: seq<UpsertOp>) {
    forall op :: op in a ==> exists op' :: op' in b && op'.Pair() == op.Pair() && op'.info.tag == op.info.tag
  }

  lemma MaximumOfCovered(m1: int, m2: int, start: int, ops1: seq<UpsertOp>, ops2: seq<UpsertOp>,
                         k: RoutingKey, b: BackendServerKey)
    requires Covered(ops1, ops2)
    requires IsMaximum(m1, start, ops1, k, b) && IsMaximum(m2, start, ops2, k, b)
    ensures m1 <= m2
  {
    if m1 != start {
      var op :| op in ops1 && op.Pair() == (k, b) && op.info.tag.index == m1;
      var op' :| op' in ops2 && op'.Pair() == op.Pair() && op'.info.tag == op.info.tag;
    }
  }

  lemma UpsertsConvergeAt(t: Table, ops1: seq<UpsertOp>, ops2: seq<UpsertOp>,
                          guidOf: ((RoutingKey, BackendServerKey)) -> Guid, k: RoutingKey, b: BackendServerKey)
    requires OneGuidPerPair(t, ops1, guidOf) && OneGuidPerPair(t, ops2, guidOf)
    requires Covered(ops1, ops2) && Covered(ops2, ops1)
    ensures IndexAt(UpsertAll(t, ops1), k, b) == IndexAt(UpsertAll(t, ops2), k, b)
    ensures OneGuidPerPair(UpsertAll(t, ops1), [], guidOf) && OneGuidPerPair(UpsertAll(t, ops2), [], guidOf)
  {
    UpsertAllHoldsMaximum(t, ops1, guidOf, k, b);
    UpsertAllHoldsMaximum(t, ops2, guidOf, k, b);
    var m1, m2 := IndexAt(UpsertAll(t, ops1), k, b), IndexAt(UpsertAll(t, ops2), k, b);
    MaximumOfCovered(m1, m2, IndexAt(t, k, b), ops1, ops2, k, b);
    MaximumOfCovered(m2, m1, IndexAt(t, k, b), ops2, ops1, k, b);
  }

  function TagAt(t: Table, k: RoutingKey, b: BackendServerKey): Option<ModificationTag> {
    if k in t && b in t[k] then Some(t[k][b].tag) else None
  }

  /** Two lists of upserts with the same content, in any order, at any times and with
      any repetition, leave the same pairs with the same tags. */
  lemma UpsertsConverge(t: Table, ops1: seq<UpsertOp>, ops2: seq<UpsertOp>,
                        guidOf: ((RoutingKey, BackendServerKey)) -> Guid)
    requires OneGuidPerPair(t, ops1, guidOf)
    requires Covered(ops1, ops2) && Covered(ops2, ops1)
    ensures forall k, b :: TagAt(UpsertAll(t, ops1), k, b) == TagAt(UpsertAll(t, ops2), k, b)
  {
    forall k, b
      ensures TagAt(UpsertAll(t, ops1), k, b) == TagAt(UpsertAll(t, ops2), k, b)
    {
      UpsertsConvergeAt(t, ops1, ops2, guidOf, k, b);
    }
  }

  // ----- Bulk sync on values -----

  /** The table after a sync fetched a snapshot: live holds the upserts as applied to
      the live table, snapshot the same upserts as applied to an empty one. Their times
      differ, since each upsert reads the clock. */
  function SyncTable(t: Table, live: seq<UpsertOp>, snapshot: seq<UpsertOp>): Table {
    var updated, adopted := UpsertAll(t, live), UpsertAll(map[], snapshot);
    if |adopted| != |updated| then adopted else updated
  }

  predicate SameUpserts(a: seq<UpsertOp>, b: seq<UpsertOp>) {
    |a| == |b| && forall i :: 0 <= i < |a| ==> a[i].key == b[i].key && a[i].info == b[i].info
  }

  ghost function KeysOf(ops: seq<UpsertOp>): set<RoutingKey> {
    set op | op in ops :: op.key
  }

  lemma SameUpsertsSamePairs(a: seq<UpsertOp>, b: seq<UpsertOp>)
    requires SameUpserts(a, b)
    ensures PairsOf(a) == PairsOf(b) && KeysOf(a) == KeysOf(b)
  {
    assert forall i :: 0 <= i < |a| ==> a[i].Pair() == b[i].Pair();
    forall op | op in a ensures op.Pair() in PairsOf(b) && op.key in KeysOf(b) {
      var i :| 0 <= i < |a| && a[i] == op;
      assert b[i] in b;
    }
    forall op | op in b ensures op.Pair() in PairsOf(a) && op.key in KeysOf(a) {
      var i :| 0 <= i < |a| && b[i] == op;
      assert a[i] in a;
    }
  }

  lemma SubsetOfEqualSizeIsEqual<T>(a: set<T>, b: set<T>)
    requires a <= b && |a| == |b|
    ensures a == b
  {
    assert |b| == |a| + |b - a| by {
      assert b == a + (b - a);
    }
    assert b - a == {};
  }

  /** Comparing sizes is enough: the fresh table is adopted exactly when the live one
      holds a routing key the snapshot lacks. */
  lemma AdoptionIsExact(t: Table, live: seq<UpsertOp>, snapshot: seq<UpsertOp>)
    requires SameUpserts(live, snapshot)
    ensures |UpsertAll(map[], snapshot)| != |UpsertAll(t, live)| <==> !(t.Keys <= KeysOf(snapshot))
  {
    SameUpsertsSamePairs(live, snapshot);
    UpsertAllKeys(t, live);
    UpsertAllKeys(map[], snapshot);
    var updated, adopted := UpsertAll(t, live).Keys, UpsertAll(map[], snapshot).Keys;
    assert updated == t.Keys + adopted && adopted == KeysOf(snapshot);
    if t.Keys <= KeysOf(snapshot) {
      assert updated == adopted;
    } else if |adopted| == |updated| {
      SubsetOfEqualSizeIsEqual(adopted, updated);
    }
  }

  lemma SyncTableIs(t: Table, live: seq<UpsertOp>, snapshot: seq<UpsertOp>)
    requires SameUpserts(live, snapshot)
    ensures SyncTable(t, live, snapshot) ==
            if t.Keys <= KeysOf(snapshot) then UpsertAll(t, live) else UpsertAll(map[], snapshot)
  {
    AdoptionIsExact(t, live, snapshot);
  }

  /** After a sync the routing keys are exactly the snapshot's. */
  lemma SyncTableKeys(t: Table, live: seq<UpsertOp>, snapshot: seq<UpsertOp>)
    requires SameUpserts(live, snapshot)
    ensures SyncTable(t, live, snapshot).Keys == KeysOf(snapshot)
  {
    AdoptionIsExact(t, live, snapshot);
    SameUpsertsSamePairs(live, snapshot);
    UpsertAllKeys(t, live);
    UpsertAllKeys(map[], snapshot);
  }

  /** After a sync no pair of the snapshot is missing. Pairs outside the snapshot stay
      when, and only when, the live table had no routing key outside it. */
  lemma SyncTablePairs(t: Table, live: seq<UpsertOp>, snapshot: seq<UpsertOp>)
    requires SameUpserts(live, snapshot)
    ensures Pairs(SyncTable(t, live, snapshot)) ==
            (if t.Keys <= KeysOf(snapshot) then Pairs(t) else {}) + PairsOf(snapshot)
  {
    AdoptionIsExact(t, live, snapshot);
    if t.Keys <= KeysOf(snapshot) {
      SameUpsertsSamePairs(live, snapshot);
      UpsertAllPairs(t, live);
    } else {
      UpsertAllPairs(map[], snapshot);
    }
  }

  /** A sync leaves exactly the snapshot's pairs iff no stale backend hides under keys
      that all survive. */
  lemma SyncYieldsSnapshotIff(t: Table, live: seq<UpsertOp>, snapshot: seq<UpsertOp>)
    requires SameUpserts(live, snapshot)
    ensures Pairs(SyncTable(t, live, snapshot)) == PairsOf(snapshot)
            <==> !(t.Keys <= KeysOf(snapshot)) || Pairs(t) <= PairsOf(snapshot)
  {
    SyncTablePairs(t, live, snapshot);
  }

  lemma SyncTableKeepsNoEmptyEntry(t: Table, live: seq<UpsertOp>, snapshot: seq<UpsertOp>)
    requires NoEmptyEntry(t)
    ensures NoEmptyEntry(SyncTable(t, live, snapshot))
  {
    UpsertAllKeepsNoEmptyEntry(t, live);
    UpsertAllKeepsNoEmptyEntry(map[], snapshot);
  }
}
