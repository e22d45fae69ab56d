/** The routing table as the router holds it: one map object per routing key,
    changed in place. Valid() is the separation every operation keeps: no two
    routing keys own the same map object. */
module RoutingTables {
  import opened RoutingModel

  /** The backends of a list, backend i at time clock(i), a later one replacing an earlier
      one with the same key. */
  function BackendsOf(backends: seq<BackendServerInfo>, clock: nat -> int): Backends {
    if backends == [] then map[]
    else
      var n := |backends| - 1;
      BackendsOf(backends[..n], clock)[backends[n].Key() := backends[n].Details(clock(n))]
  }

  /** The entry holds the backends of the list and no others, each with the details given
      last. */
  lemma {:induction false} LastDetailsWin(backends: seq<BackendServerInfo>, clock: nat -> int, i: nat)
    requires i < |backends| && forall j :: i < j < |backends| ==> backends[j].Key() != backends[i].Key()
    ensures backends[i].Key() in BackendsOf(backends, clock)
    ensures BackendsOf(backends, clock)[backends[i].Key()] == backends[i].Details(clock(i))
  {
    var n := |backends| - 1;
    if i < n {
      LastDetailsWin(backends[..n], clock, i);
    }
  }

  lemma {:induction false} OnlyListedBackends(backends: seq<BackendServerInfo>, clock: nat -> int, b: BackendServerKey)
    ensures b in BackendsOf(backends, clock) <==> exists i :: 0 <= i < |backends| && backends[i].Key() == b
  {
    if backends != [] {
      var n := |backends| - 1;
      OnlyListedBackends(backends[..n], clock, b);
      if i :| 0 <= i < |backends| && backends[i].Key() == b && i != n {
        assert backends[..n][i].Key() == b;
      }
    }
  }

  class BackendMap {
    var contents: Backends

    constructor NewRoutingTableEntry(backends: seq<BackendServerInfo>, clock: nat -> int)
      ensures contents == BackendsOf(backends, clock)
    {
      contents := map[];
      new;
      for i := 0 to |backends|
        invariant contents == BackendsOf(backends[..i], clock)
      {
        assert backends[..i + 1][..i] == backends[..i];
        contents := contents[backends[i].Key() := backends[i].Details(clock(i))];
      }
      assert backends[..|backends|] == backends;
    }

    method PruneBackends(defaultTTL: int, now: int)
      modifies this
      ensures contents == RoutingModel.PruneBackends(old(contents), defaultTTL, now)
    {
      var todo := contents.Keys;
      while todo != {}
        invariant todo <= contents.Keys <= old(contents).Keys
        invariant forall b :: b in old(contents) ==>
                    (b in contents <==> b in todo || !old(contents)[b].Expired(defaultTTL, now))
        invariant forall b :: b in contents ==> contents[b] == old(contents)[b]
      {
        var b :| b in todo;
        todo := todo - {b};
        if contents[b].Expired(defaultTTL, now) {
          contents := contents - {b};
        }
      }
    }
  }

  class RoutingTable {
    ghost var Contents: Table          // the table as a value
    ghost var Maps: set<BackendMap>    // the map objects the table may change

    var entries: map<RoutingKey, BackendMap>

    ghost predicate Valid()
      reads this, Maps
    {
      && entries.Keys == Contents.Keys
      && (forall k :: k in entries ==> entries[k] in Maps && entries[k].contents == Contents[k])
      && (forall k1, k2 :: k1 in entries && k2 in entries && k1 != k2 ==> entries[k1] != entries[k2])
    }

    constructor ()
      ensures Valid() && Contents == map[] && Maps == {}
    {
      entries := map[];
      Contents, Maps := map[], {};
    }

    method Size() returns (n: nat)
      requires Valid()
      ensures n == |Contents|
    {
      n := |entries|;
      assert |Contents.Keys| == |entries.Keys|;
    }

    /** Adds or refreshes one backend in place. The result says whether the pair is new. */
    method UpsertBackendServerKey(key: RoutingKey, info: BackendServerInfo, now: int) returns (changed: bool)
      requires Valid()
      modifies this, Maps
      ensures Valid() && fresh(Maps - old(Maps))
      ensures Contents == Upsert(old(Contents), key, info, now)
      ensures changed <==> (key, info.Key()) !in Pairs(old(Contents))
      ensures forall m :: m in old(Maps) && old(key in entries ==> entries[key] != m) ==> unchanged(m)
    {
      Contents := Upsert(Contents, key, info, now);
      if key !in entries {
        var clock := (_: nat) => now;
        var entry := new BackendMap.NewRoutingTableEntry([info], clock);
        assert BackendsOf([info], clock) == UpsertBackend(map[], info, now) by {
          assert [info][..0] == [];
        }
        entries := entries[key := entry];
        Maps := Maps + {entry};
        return true;
      }
      var existing := entries[key];
      var found := info.Key() in existing.contents;
      var details := info.Details(now);
      var current := if found then existing.contents[info.Key()] else details;
      if !found || current.UpdateSucceededBy(details) {
        existing.contents := existing.contents[info.Key() := details];
      }
      return !found || current.DifferentFrom(details);
    }

    /** Removes one backend in place, and its routing key with the last backend. The
        result says whether the pair was removed. */
    method DeleteBackendServerKey(key: RoutingKey, info: BackendServerInfo, now: int) returns (changed: bool)
      requires Valid()
      modifies this, Maps
      ensures Valid() && Maps == old(Maps)
      ensures Contents == Delete(old(Contents), key, info, now)
      ensures changed <==> DeleteApplies(old(Contents), key, info, now)
      ensures forall m :: m in Maps && old(key in entries ==> entries[key] != m) ==> unchanged(m)
    {
      if key !in entries {
        return false;
      }
      Contents := Delete(Contents, key, info, now);
      var existing := entries[key];
      changed := info.Key() in existing.contents
                 && existing.contents[info.Key()].DeleteSucceededBy(info.Details(now));
      if changed {
        existing.contents := existing.contents - {info.Key()};
        if existing.contents == map[] {
          entries := entries - {key};
        }
      }
    }

    /** Drops every expired backend and every routing key left without backends. */
    method PruneEntries(defaultTTL: int, now: int)
      requires Valid()
      modifies this, Maps
      ensures Valid() && Maps == old(Maps)
      ensures Contents == Prune(old(Contents), defaultTTL, now)
    {
      ghost var before := Contents;
      var todo := entries.Keys;
      assert Contents == PruneOutside(todo, before, defaultTTL, now);
      while todo != {}
        invariant Valid() && Maps == old(Maps)
        invariant todo <= entries.Keys <= before.Keys
        invariant Contents == PruneOutside(todo, before, defaultTTL, now)
      {
        var k :| k in todo;
        PruneEntry(k, defaultTTL, now);
        PruneOutsideStep(todo, before, k, defaultTTL, now);
        todo := todo - {k};
      }
    }

    /** Takes over the entries of another table, whose maps it owns from here on. */
    method Adopt(other: RoutingTable)
      requires other.Valid()
      modifies this
      ensures Valid() && Contents == other.Contents && Maps == other.Maps && entries == other.entries
    {
      entries := other.entries;
      Contents, Maps := other.Contents, other.Maps;
    }

    /** One round of the loop of PruneEntries. */
    method PruneEntry(key: RoutingKey, defaultTTL: int, now: int)
      requires Valid() && key in entries
      modifies this, Maps
      ensures Valid() && Maps == old(Maps)
      ensures Contents == PruneKey(old(Contents), key, defaultTTL, now)
      ensures entries == old(entries) || entries == old(entries) - {key}
    {
      Contents := PruneKey(Contents, key, defaultTTL, now);
      entries[key].PruneBackends(defaultTTL, now);
      if entries[key].contents == map[] {
        entries := entries - {key};
      }
    }
  }

  function PruneKey(t: Table, key: RoutingKey, defaultTTL: int, now: int): Table
    requires key in t
  {
    var kept := PruneBackends(t[key], defaultTTL, now);
    if kept == map[] then t - {key} else t[key := kept]
  }

  /** The table when the keys of todo have not been visited yet. */
  ghost function PruneOutside(todo: set<RoutingKey>, t: Table, defaultTTL: int, now: int): Table {
    map k | k in t && (k in todo || PruneBackends(t[k], defaultTTL, now) != map[])
      :: if k in todo then t[k] else PruneBackends(t[k], defaultTTL, now)
  }

  lemma PruneOutsideStep(todo: set<RoutingKey>, t: Table, k: RoutingKey, defaultTTL: int, now: int)
    requires k in todo && k in t
    ensures PruneKey(PruneOutside(todo, t, defaultTTL, now), k, defaultTTL, now)
         == PruneOutside(todo - {k}, t, defaultTTL, now)
  {
  }
}
