/** The iteration orders of Go's maps and what of them the configuration shows: exactly the
    order of servers that tie. */
module IterationOrders {
  import opened RoutingModel
  import opened Sorting
  import opened HAProxyConfigs

  // ----- Every configuration of a table comes from some iteration orders -----

  /** The backends of a route in an order that makes the stable sort yield the route's
      servers: those servers first. */
  ghost function ListedFor(conf: HAProxyConfig, t: Table, key: RoutingKey): seq<BackendServerKey>
    requires key in t
  {
    if Survives(t, key) && key.port in conf && key.sniHostname in conf[key.port]
    then conf[key.port][key.sniHostname] + Listed(t[key].Keys - ValidServers(t[key]))
    else Listed(t[key].Keys)
  }

  lemma ListedForIsVisit(conf: HAProxyConfig, t: Table, key: RoutingKey)
    requires IsConfigOf(conf, t) && key in t
    ensures IsVisit(Visit(key, ListedFor(conf, t, key)), t)
  {
    if Survives(t, key) {
      var valid := ValidServers(t[key]);
      assert multiset(valid) + multiset(t[key].Keys - valid) == multiset(t[key].Keys);
    }
  }

  lemma ListedServersYield(servers: HAProxyBackend, rest: seq<BackendServerKey>)
    requires (forall b :: b in servers ==> ValidServer(b)) && (forall b :: b in rest ==> !ValidServer(b))
    requires Sorted(ServerLess, servers)
    ensures ServersInOrder(servers + rest) == servers
  {
    FilterConcat(servers, rest, ServerIsValid());
    FilterAll(servers, ServerIsValid());
    FilterNone(rest, ServerIsValid());
    assert servers + [] == servers;
    SortedIsFixed(ServerLess, servers);
  }

  lemma ListedForYields(conf: HAProxyConfig, t: Table, key: RoutingKey)
    requires IsConfigOf(conf, t) && Survives(t, key)
    ensures conf[key.port][key.sniHostname] != []
    ensures ServersInOrder(ListedFor(conf, t, key)) == conf[key.port][key.sniHostname]
  {
    var servers, valid := conf[key.port][key.sniHostname], ValidServers(t[key]);
    var rest := Listed(t[key].Keys - valid);
    assert multiset(servers) == multiset(valid);
    ElementsOf(servers, valid);
    ElementsOf(rest, t[key].Keys - valid);
    assert forall b :: b in t[key] && ValidServer(b) ==> b in valid;
    ListedServersYield(servers, rest);
  }

  lemma ElementsOf<T>(s: seq<T>, elements: set<T>)
    requires multiset(s) == multiset(elements)
    ensures forall x :: x in s <==> x in elements
  {
    forall x
      ensures x in s <==> x in elements
    {
      assert x in s <==> x in multiset(s);
    }
  }

  lemma SameRouteAfterVisit(made: HAProxyConfig, conf: HAProxyConfig, t: Table, keys: set<RoutingKey>, v: Visit,
                            key: RoutingKey)
    requires forall k :: k in keys && Survives(t, k) ==> SameRoute(made, conf, k)
    requires v.key in t && v.key !in keys
    requires Survives(t, v.key) ==> SameRoute(AfterVisit(made, v), conf, v.key)
    requires key in keys + {v.key} && Survives(t, key)
    ensures SameRoute(AfterVisit(made, v), conf, key)
  {
  }

  lemma SameRouteVisited(made: HAProxyConfig, conf: HAProxyConfig, t: Table, key: RoutingKey)
    requires IsConfigOf(conf, t) && Survives(t, key)
    ensures SameRoute(AfterVisit(made, Visit(key, ListedFor(conf, t, key))), conf, key)
  {
    ListedForYields(conf, t, key);
  }

  lemma {:induction false} VisitsYielding(conf: HAProxyConfig, t: Table,
                                          keys: set<RoutingKey>) returns (visits: seq<Visit>)
    requires IsConfigOf(conf, t) && keys <= t.Keys
    ensures Visits(visits, t, keys)
    ensures forall key :: key in keys && Survives(t, key) ==> SameRoute(ConfigInOrder(visits), conf, key)
  {
    if keys == {} {
      visits := [];
    } else {
      var last :| last in keys;
      var before := VisitsYielding(conf, t, keys - {last});
      var v := Visit(last, ListedFor(conf, t, last));
      ListedForIsVisit(conf, t, last);
      VisitsNext(before, t, keys - {last}, v);
      assert keys - {last} + {last} == keys;
      visits := before + [v];
      if Survives(t, last) {
        SameRouteVisited(ConfigInOrder(before), conf, t, last);
      }
      forall key | key in keys && Survives(t, key)
        ensures SameRoute(ConfigInOrder(visits), conf, key)
      {
        SameRouteAfterVisit(ConfigInOrder(before), conf, t, keys - {last}, v, key);
      }
    }
  }

  lemma ConfigIsOutcome(conf: HAProxyConfig, t: Table)
    requires IsConfigOf(conf, t)
    ensures IsOutcome(conf, t)
  {
    var visits := VisitsYielding(conf, t, t.Keys);
    IterationGivesConfig(visits, t);
    SameRoutes(ConfigInOrder(visits), conf, t);
  }

  /** What can come out is what the table asks for, no more and no less: the routes that
      survive, with their valid servers sorted, and ties in any order. */
  lemma OutcomesAreConfigs(conf: HAProxyConfig, t: Table)
    ensures IsOutcome(conf, t) <==> IsConfigOf(conf, t)
  {
    if IsOutcome(conf, t) {
      var visits :| IsIteration(visits, t) && conf == ConfigInOrder(visits);
      IterationGivesConfig(visits, t);
    }
    if IsConfigOf(conf, t) {
      ConfigIsOutcome(conf, t);
    }
  }

  // ----- Ties -----

  function Swapped(s: HAProxyBackend, i: nat, j: nat): HAProxyBackend
    requires i < |s| && j < |s|
  {
    s[i := s[j]][j := s[i]]
  }

  lemma SwappedElements(s: HAProxyBackend, i: nat, j: nat)
    requires i < j < |s|
    ensures multiset(Swapped(s, i, j)) == multiset(s)
  {
  }

  /** Servers that tie can change places in a sorted list. */
  lemma SwappedSorted(s: HAProxyBackend, i: nat, j: nat)
    requires i < j < |s| && Sorted(ServerLess, s) && Tie(s[i], s[j])
    ensures Sorted(ServerLess, Swapped(s, i, j))
  {
    var s' := Swapped(s, i, j);
    assert forall k :: 0 <= k < |s| ==> Tie(s'[k], s[k]);
    forall k, l | 0 <= k < l < |s'|
      ensures !ServerLess(s'[l], s'[k])
    {
      assert ServerLess(s'[l], s'[k]) <==> ServerLess(s[l], s[k]);
    }
  }

  lemma ReplacedIsConfig(conf: HAProxyConfig, t: Table, key: RoutingKey, servers: HAProxyBackend)
    requires IsConfigOf(conf, t) && Survives(t, key) && ListsServers(servers, ValidServers(t[key]))
    ensures IsConfigOf(WithRoute(conf, key, servers), t)
  {
    assert key.sniHostname in WithRoute(conf, key, servers)[key.port];
  }

  /** A tie shows: whatever the orders, there are others that give another result. */
  lemma TieGivesAnother(visits: seq<Visit>, t: Table, key: RoutingKey, a: BackendServerKey, b: BackendServerKey)
      returns (others: seq<Visit>)
    requires IsIteration(visits, t) && Survives(t, key)
    requires a in ValidServers(t[key]) && b in ValidServers(t[key]) && a != b && Tie(a, b)
    ensures IsIteration(others, t) && ConfigInOrder(others) != ConfigInOrder(visits)
  {
    var conf := ConfigInOrder(visits);
    IterationGivesConfig(visits, t);
    var other := SwappedConfig(conf, t, key, a, b);
    ConfigIsOutcome(other, t);
    others :| IsIteration(others, t) && other == ConfigInOrder(others);
  }

  lemma SwappedConfig(conf: HAProxyConfig, t: Table, key: RoutingKey, a: BackendServerKey, b: BackendServerKey)
      returns (other: HAProxyConfig)
    requires IsConfigOf(conf, t) && Survives(t, key)
    requires a in ValidServers(t[key]) && b in ValidServers(t[key]) && a != b && Tie(a, b)
    ensures IsConfigOf(other, t) && other != conf
  {
    var servers := conf[key.port][key.sniHostname];
    assert a in multiset(servers) && b in multiset(servers);
    var i :| 0 <= i < |servers| && servers[i] == a;
    var j :| 0 <= j < |servers| && servers[j] == b;
    var (lo, hi) := if i < j then (i, j) else (j, i);
    SwappedElements(servers, lo, hi);
    SwappedSorted(servers, lo, hi);
    var servers' := Swapped(servers, lo, hi);
    assert servers'[lo] != servers[lo];
    other := WithRoute(conf, key, servers');
    assert other[key.port][key.sniHostname] != conf[key.port][key.sniHostname];
    ReplacedIsConfig(conf, t, key, servers');
  }

  lemma IterationExists(t: Table) returns (visits: seq<Visit>)
    ensures IsIteration(visits, t)
  {
    visits := AnyVisits(t, t.Keys);
  }

  lemma {:induction false} AnyVisits(t: Table, keys: set<RoutingKey>) returns (visits: seq<Visit>)
    requires keys <= t.Keys
    ensures Visits(visits, t, keys)
  {
    if keys == {} {
      visits := [];
    } else {
      var key :| key in keys;
      var before := AnyVisits(t, keys - {key});
      var v := Visit(key, Listed(t[key].Keys));
      VisitsNext(before, t, keys - {key}, v);
      assert keys - {key} + {key} == keys;
      visits := before + [v];
    }
  }

  /** The iteration orders of the maps do not show in the configuration exactly for tables
      without ties. */
  lemma ConfigDeterminedIff(t: Table)
    ensures (forall v1, v2 :: IsIteration(v1, t) && IsIteration(v2, t) ==> ConfigInOrder(v1) == ConfigInOrder(v2))
       <==> NoTies(t)
  {
    if NoTies(t) {
      forall v1, v2 | IsIteration(v1, t) && IsIteration(v2, t)
        ensures ConfigInOrder(v1) == ConfigInOrder(v2)
      {
        IterationGivesConfig(v1, t);
        IterationGivesConfig(v2, t);
        ConfigUnique(ConfigInOrder(v1), ConfigInOrder(v2), t);
      }
    } else {
      var key, a, b :| Survives(t, key) && a in ValidServers(t[key]) && b in ValidServers(t[key]) && Tie(a, b) && a != b;
      var visits := IterationExists(t);
      var others := TieGivesAnother(visits, t, key, a, b);
    }
  }
}
