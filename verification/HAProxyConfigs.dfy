/** From a routing table to the configuration: which routes and backends survive, how they
    are grouped, and in which order servers come. */
module HAProxyConfigs {
  import opened RoutingModel
  import opened Text
  import opened Sorting
  import opened DnsNames

  type HAProxyBackend = seq<BackendServerKey>
  type HAProxyFrontend = map<string, HAProxyBackend>
  type HAProxyConfig = map<uint16, HAProxyFrontend>

  predicate ValidRoute(key: RoutingKey) {
    key.port != 0 && (key.sniHostname != "" ==> IsValidDNSName(key.sniHostname))
  }

  predicate ValidServer(b: BackendServerKey) {
    && !(b.port == 0 && b.tlsPort <= 0)
    && b.address != "" && IsValidDNSName(b.address)
    && !(b.tlsPort > 0 && b.instanceId == "")
  }

  function ValidServers(bs: Backends): set<BackendServerKey> {
    set b | b in bs && ValidServer(b)
  }

  /** A route gets into the configuration: its key is valid and so is one backend of it. */
  predicate Survives(t: Table, key: RoutingKey) {
    key in t && ValidRoute(key) && ValidServers(t[key]) != {}
  }

  // Servers are compared by address and plain port only.
  predicate ServerLess(a: BackendServerKey, b: BackendServerKey) {
    if a.address == b.address then a.port < b.port else StrLess(a.address, b.address)
  }

  /** A sorted list of the given servers, each once. Ties may be in any order. */
  ghost predicate ListsServers(servers: HAProxyBackend, valid: set<BackendServerKey>) {
    multiset(servers) == multiset(valid) && Sorted(ServerLess, servers)
  }

  /** What the configuration of a table is, up to the order of ties. */
  ghost predicate IsConfigOf(conf: HAProxyConfig, t: Table) {
    && (forall p :: p in conf ==> conf[p] != map[])
    && (forall key :: Survives(t, key) <==> key.port in conf && key.sniHostname in conf[key.port])
    && (forall key :: Survives(t, key) ==>
          ListsServers(conf[key.port][key.sniHostname], ValidServers(t[key])))
  }

  // ----- The order of servers -----

  lemma ServerLessIsWeakOrder()
    ensures WeakOrder(ServerLess)
  {
    forall a, b | ServerLess(a, b)
      ensures !ServerLess(b, a)
    {
      ServerLessAsymmetric(a, b);
    }
    forall a, b, c | !ServerLess(a, b) && !ServerLess(b, c)
      ensures !ServerLess(a, c)
    {
      ServerLessNegativelyTransitive(a, b, c);
    }
  }

  lemma ServerLessAsymmetric(a: BackendServerKey, b: BackendServerKey)
    requires ServerLess(a, b)
    ensures !ServerLess(b, a)
  {
    if a.address != b.address {
      StrLessAsymmetric(a.address, b.address);
    }
  }

  lemma StrLessNegativelyTransitive(a: string, b: string, c: string)
    requires !StrLess(a, b) && !StrLess(b, c)
    ensures !StrLess(a, c)
  {
    StrLessTotal(a, b);
    StrLessTotal(b, c);
    if StrLess(a, c) {
      StrLessAsymmetric(a, c);
      if a != b && b != c {
        StrLessTransitive(c, b, a);
      }
    }
  }

  lemma ServerLessNegativelyTransitive(a: BackendServerKey, b: BackendServerKey, c: BackendServerKey)
    requires !ServerLess(a, b) && !ServerLess(b, c)
    ensures !ServerLess(a, c)
  {
    if ServerLess(a, c) {
      StrLessTotal(a.address, b.address);
      StrLessTotal(b.address, c.address);
      if a.address != b.address && b.address != c.address {
        StrLessTransitive(c.address, b.address, a.address);
      }
      if a.address != c.address {
        StrLessAsymmetric(a.address, c.address);
      }
    }
  }

  // ----- What is accepted, said of the fields -----

  /** The regular expression, and at most 255 characters besides the dots. */
  ghost predicate AcceptedName(name: string) {
    Matches(DNS_NAME, name) && |name| - multiset(name)['.'] <= 255
  }

  ghost predicate AcceptedRoute(key: RoutingKey) {
    key.port != 0 && (key.sniHostname == "" || AcceptedName(key.sniHostname))
  }

  /** A backend has some port and an accepted address, and one with a TLS port has an
      instance id. */
  ghost predicate AcceptedBackend(b: BackendServerKey) {
    && (b.port != 0 || b.tlsPort > 0)
    && AcceptedName(b.address)
    && (b.tlsPort > 0 ==> b.instanceId != "")
  }

  ghost predicate AcceptedEntry(t: Table, key: RoutingKey) {
    key in t && AcceptedRoute(key) && exists b :: b in t[key] && AcceptedBackend(b)
  }

  lemma AcceptedNameIff(name: string)
    ensures AcceptedName(name) <==> name != "" && IsValidDNSName(name)
  {
    ScannerDecidesRegex(name);
    NonDotsIs(name);
  }

  lemma AcceptedIff(key: RoutingKey, b: BackendServerKey)
    ensures AcceptedRoute(key) <==> ValidRoute(key)
    ensures AcceptedBackend(b) <==> ValidServer(b)
  {
    AcceptedNameIff(key.sniHostname);
    AcceptedNameIff(b.address);
  }

  lemma AcceptedEntryIff(t: Table, key: RoutingKey)
    ensures AcceptedEntry(t, key) <==> Survives(t, key)
  {
    forall b
      ensures AcceptedRoute(key) <==> ValidRoute(key)
      ensures AcceptedBackend(b) <==> ValidServer(b)
    {
      AcceptedIff(key, b);
    }
    if Survives(t, key) {
      var b :| b in ValidServers(t[key]);
    }
    if b :| key in t && b in t[key] && ValidServer(b) {
      assert b in ValidServers(t[key]);
    }
  }

  /** The servers of a route: the accepted backends of its entry and no others, each once,
      by address in byte order and by plain port where the addresses are the same. */
  ghost predicate ListsAccepted(servers: HAProxyBackend, backends: Backends) {
    && (forall b :: b in servers <==> b in backends && AcceptedBackend(b))
    && (forall i, j :: 0 <= i < j < |servers| ==> servers[i] != servers[j])
    && (forall i, j :: 0 <= i < j < |servers| ==> InOrder(servers[i], servers[j]))
  }

  ghost predicate InOrder(a: BackendServerKey, b: BackendServerKey) {
    if a.address == b.address then a.port <= b.port else exists k: nat :: LessFrom(a.address, b.address, k)
  }

  /** The configuration a table asks for, by fields. */
  ghost predicate IsAskedFor(conf: HAProxyConfig, t: Table) {
    && (forall key: RoutingKey :: AcceptedEntry(t, key) <==> key.port in conf && key.sniHostname in conf[key.port])
    && (forall key: RoutingKey :: AcceptedEntry(t, key) ==> ListsAccepted(conf[key.port][key.sniHostname], t[key]))
    && (forall p :: p in conf ==> exists h :: h in conf[p])
  }

  lemma InOrderIff(a: BackendServerKey, b: BackendServerKey)
    ensures InOrder(a, b) <==> !ServerLess(b, a)
  {
    StrLessIff(a.address, b.address);
    StrLessTotal(a.address, b.address);
    if StrLess(a.address, b.address) {
      StrLessAsymmetric(a.address, b.address);
    }
  }

  lemma ListsServersByFields(servers: HAProxyBackend, backends: Backends)
    requires ListsServers(servers, ValidServers(backends))
    ensures ListsAccepted(servers, backends)
  {
    forall b
      ensures b in servers <==> b in backends && AcceptedBackend(b)
    {
      AcceptedIff(RoutingKey(0, ""), b);
      assert b in servers <==> b in multiset(servers);
    }
    forall b
      ensures multiset(servers)[b] <= 1
    {
      assert multiset(ValidServers(backends))[b] <= 1;
    }
    SimpleIsDistinct(servers);
    forall i, j | 0 <= i < j < |servers|
      ensures InOrder(servers[i], servers[j])
    {
      InOrderIff(servers[i], servers[j]);
    }
  }

  /** A configuration is what its table asks for. */
  lemma ConfigByFields(conf: HAProxyConfig, t: Table)
    requires IsConfigOf(conf, t)
    ensures IsAskedFor(conf, t)
  {
    forall key: RoutingKey
      ensures AcceptedEntry(t, key) <==> key.port in conf && key.sniHostname in conf[key.port]
      ensures AcceptedEntry(t, key) ==> ListsAccepted(conf[key.port][key.sniHostname], t[key])
    {
      AcceptedEntryIff(t, key);
      if Survives(t, key) {
        ListsServersByFields(conf[key.port][key.sniHostname], t[key]);
      }
    }
  }

  // ----- Building the configuration -----

  /** The configuration built while the keys of todo are still to come. */
  ghost predicate IsPartialConfigOf(conf: HAProxyConfig, t: Table, todo: set<RoutingKey>) {
    && (forall p :: p in conf ==> conf[p] != map[])
    && (forall key :: Survives(t, key) && key !in todo <==> key.port in conf && key.sniHostname in conf[key.port])
    && (forall key :: Survives(t, key) && key !in todo ==>
          ListsServers(conf[key.port][key.sniHostname], ValidServers(t[key])))
  }

  function WithRoute(conf: HAProxyConfig, key: RoutingKey, servers: HAProxyBackend): HAProxyConfig {
    var frontend := if key.port in conf then conf[key.port] else map[];
    conf[key.port := frontend[key.sniHostname := servers]]
  }

  lemma PartialWithRoute(conf: HAProxyConfig, t: Table, todo: set<RoutingKey>, key: RoutingKey, servers: HAProxyBackend)
    requires IsPartialConfigOf(conf, t, todo) && key in todo && Survives(t, key)
    requires ListsServers(servers, ValidServers(t[key]))
    ensures IsPartialConfigOf(WithRoute(conf, key, servers), t, todo - {key})
  {
    assert key.sniHostname in WithRoute(conf, key, servers)[key.port];
  }

  // ----- Iteration orders -----

  /** One round of the loop over a table: a routing key, and its backends in the order in
      which their map yields them. */
  datatype Visit = Visit(key: RoutingKey, listed: seq<BackendServerKey>)

  ghost predicate IsVisit(v: Visit, t: Table) {
    v.key in t && multiset(v.listed) == multiset(t[v.key].Keys)
  }

  /** Each of the given keys is visited once, in some order. */
  ghost predicate Visits(visits: seq<Visit>, t: Table, keys: set<RoutingKey>) {
    if visits == [] then keys == {}
    else
      var n := |visits| - 1;
      && IsVisit(visits[n], t) && visits[n].key in keys
      && Visits(visits[..n], t, keys - {visits[n].key})
  }

  ghost predicate IsIteration(visits: seq<Visit>, t: Table) {
    Visits(visits, t, t.Keys)
  }

  /** The configurations a table can come out as: one for each choice of iteration orders. */
  ghost predicate IsOutcome(conf: HAProxyConfig, t: Table) {
    exists visits :: IsIteration(visits, t) && conf == ConfigInOrder(visits)
  }

  function ServerIsValid(): BackendServerKey -> bool {
    (b: BackendServerKey) => ValidServer(b)
  }

  /** The servers of a route, when its backends come in the given order. */
  function ServersInOrder(listed: seq<BackendServerKey>): HAProxyBackend {
    SliceStable(ServerLess, Filter(listed, ServerIsValid()))
  }

  /** The configuration, when the maps yield their keys in the given orders. */
  function ConfigInOrder(visits: seq<Visit>): HAProxyConfig {
    if visits == [] then map[]
    else
      var n := |visits| - 1;
      AfterVisit(ConfigInOrder(visits[..n]), visits[n])
  }

  function AfterVisit(conf: HAProxyConfig, v: Visit): HAProxyConfig {
    var servers := ServersInOrder(v.listed);
    if ValidRoute(v.key) && servers != [] then WithRoute(conf, v.key, servers) else conf
  }

  lemma ValidElements(listed: seq<BackendServerKey>, backends: Backends)
    requires multiset(listed) == multiset(backends.Keys)
    ensures multiset(Filter(listed, ServerIsValid())) == multiset(ValidServers(backends))
  {
    FilterElements(listed, ServerIsValid());
  }

  lemma ServersInOrderList(listed: seq<BackendServerKey>, backends: Backends)
    requires multiset(listed) == multiset(backends.Keys)
    ensures ListsServers(ServersInOrder(listed), ValidServers(backends))
    ensures ServersInOrder(listed) == [] <==> ValidServers(backends) == {}
  {
    var valid := Filter(listed, ServerIsValid());
    ValidElements(listed, backends);
    ServerLessIsWeakOrder();
    SliceStableElements(ServerLess, valid);
    SliceStableSorted(ServerLess, valid);
    assert |ServersInOrder(listed)| == |multiset(ValidServers(backends))|;
  }

  lemma PartialAfterVisit(conf: HAProxyConfig, t: Table, todo: set<RoutingKey>, v: Visit)
    requires IsPartialConfigOf(conf, t, todo) && v.key in todo && IsVisit(v, t)
    ensures IsPartialConfigOf(AfterVisit(conf, v), t, todo - {v.key})
  {
    ServersInOrderList(v.listed, t[v.key]);
    if Survives(t, v.key) {
      PartialWithRoute(conf, t, todo, v.key, ServersInOrder(v.listed));
    }
  }

  lemma {:induction false} VisitsGivePartial(visits: seq<Visit>, t: Table, keys: set<RoutingKey>)
    requires Visits(visits, t, keys) && keys <= t.Keys
    ensures IsPartialConfigOf(ConfigInOrder(visits), t, t.Keys - keys)
  {
    if visits != [] {
      var n := |visits| - 1;
      VisitsGivePartial(visits[..n], t, keys - {visits[n].key});
      PartialAfterVisit(ConfigInOrder(visits[..n]), t, t.Keys - (keys - {visits[n].key}), visits[n]);
      assert t.Keys - (keys - {visits[n].key}) - {visits[n].key} == t.Keys - keys;
    }
  }

  /** In whatever orders the maps yield their keys, the result is a configuration of the
      table. */
  lemma IterationGivesConfig(visits: seq<Visit>, t: Table)
    requires IsIteration(visits, t)
    ensures IsConfigOf(ConfigInOrder(visits), t)
  {
    VisitsGivePartial(visits, t, t.Keys);
    assert t.Keys - t.Keys == {};
  }

  lemma VisitsNext(visits: seq<Visit>, t: Table, keys: set<RoutingKey>, v: Visit)
    requires Visits(visits, t, keys) && IsVisit(v, t) && v.key !in keys
    ensures Visits(visits + [v], t, keys + {v.key})
    ensures ConfigInOrder(visits + [v]) == AfterVisit(ConfigInOrder(visits), v)
  {
    assert (visits + [v])[..|visits|] == visits;
    assert keys + {v.key} - {v.key} == keys;
  }

  method NewHAProxyConfig(table: Table) returns (conf: HAProxyConfig)
    ensures IsOutcome(conf, table)
    ensures IsConfigOf(conf, table)
    ensures IsAskedFor(conf, table)
  {
    conf := map[];
    var todo := table.Keys;
    ghost var visits: seq<Visit> := [];
    while todo != {}
      invariant VisitedBut(visits, table, todo, conf)
    {
      var key :| key in todo;
      ghost var before := conf;
      ghost var listed;
      conf, listed := AddRoute(conf, key, table[key]);
      VisitedNext(visits, table, todo, before, Visit(key, listed));
      visits := visits + [Visit(key, listed)];
      todo := todo - {key};
    }
    VisitedAll(visits, table, conf);
    ConfigByFields(conf, table);
  }

  ghost predicate VisitedBut(visits: seq<Visit>, t: Table, todo: set<RoutingKey>, conf: HAProxyConfig) {
    todo <= t.Keys && Visits(visits, t, t.Keys - todo) && conf == ConfigInOrder(visits)
  }

  lemma VisitedNext(visits: seq<Visit>, t: Table, todo: set<RoutingKey>, conf: HAProxyConfig, v: Visit)
    requires VisitedBut(visits, t, todo, conf) && IsVisit(v, t) && v.key in todo
    ensures VisitedBut(visits + [v], t, todo - {v.key}, AfterVisit(conf, v))
  {
    VisitsNext(visits, t, t.Keys - todo, v);
    assert t.Keys - todo + {v.key} == t.Keys - (todo - {v.key});
  }

  lemma VisitedAll(visits: seq<Visit>, t: Table, conf: HAProxyConfig)
    requires VisitedBut(visits, t, {}, conf)
    ensures IsOutcome(conf, t) && IsConfigOf(conf, t)
  {
    assert t.Keys - {} == t.Keys;
    IterationGivesConfig(visits, t);
  }

  lemma SkippedVisit(conf: HAProxyConfig, key: RoutingKey, listed: seq<BackendServerKey>)
    ensures !ValidRoute(key) || Filter(listed, ServerIsValid()) == [] ==> AfterVisit(conf, Visit(key, listed)) == conf
  {
  }

  lemma AddedVisit(conf: HAProxyConfig, key: RoutingKey, listed: seq<BackendServerKey>)
    requires ValidRoute(key) && Filter(listed, ServerIsValid()) != []
    ensures AfterVisit(conf, Visit(key, listed)) == WithRoute(conf, key, ServersInOrder(listed))
  {
    SliceStableLength(ServerLess, Filter(listed, ServerIsValid()));
  }

  /** One round of the loop over the table. */
  method AddRoute(conf: HAProxyConfig, key: RoutingKey, backends: Backends)
    returns (conf': HAProxyConfig, ghost listed: seq<BackendServerKey>)
    ensures multiset(listed) == multiset(backends.Keys)
    ensures conf' == AfterVisit(conf, Visit(key, listed))
  {
    conf' := conf;
    listed := Listed(backends.Keys);
    SkippedVisit(conf, key, listed);
    if key.port == 0 {
      return;
    }
    if key.sniHostname != "" && !IsValidDNSName(key.sniHostname) {
      return;
    }
    var servers;
    servers, listed := CollectServers(backends);
    if |servers| == 0 {
      SkippedVisit(conf, key, listed);
      return;
    }
    AddedVisit(conf, key, listed);
    servers := SliceStable(ServerLess, servers);
    var frontend := if key.port in conf' then conf'[key.port] else map[];
    conf' := conf'[key.port := frontend[key.sniHostname := servers]];
  }

  /** The valid backends of an entry, in the order in which the map yields them. */
  method CollectServers(backends: Backends) returns (servers: HAProxyBackend, ghost listed: seq<BackendServerKey>)
    ensures multiset(listed) == multiset(backends.Keys)
    ensures servers == Filter(listed, ServerIsValid())
    ensures multiset(servers) == multiset(ValidServers(backends))
  {
    servers, listed := [], [];
    var todo := backends.Keys;
    while todo != {}
      invariant todo <= backends.Keys
      invariant multiset(listed) == multiset(backends.Keys - todo)
      invariant servers == Filter(listed, ServerIsValid())
    {
      var b :| b in todo;
      todo := todo - {b};
      FilterSnoc(listed, b, ServerIsValid());
      listed := listed + [b];
      if b.port == 0 && b.tlsPort <= 0 {
        continue;
      }
      if b.address == "" || !IsValidDNSName(b.address) {
        continue;
      }
      if b.tlsPort > 0 && b.instanceId == "" {
        continue;
      }
      servers := servers + [b];
    }
    assert backends.Keys - todo == backends.Keys;
    ValidElements(listed, backends);
  }

  // ----- Laws -----

  predicate Tie(a: BackendServerKey, b: BackendServerKey) {
    a.address == b.address && a.port == b.port
  }

  /** No two valid backends of a route share address and plain port. */
  ghost predicate NoTies(t: Table) {
    forall key, a, b :: Survives(t, key) && a in ValidServers(t[key]) && b in ValidServers(t[key]) && Tie(a, b) ==> a == b
  }

  lemma ListsServersUnique(a: HAProxyBackend, b: HAProxyBackend, valid: set<BackendServerKey>)
    requires ListsServers(a, valid) && ListsServers(b, valid)
    requires forall x, y :: x in valid && y in valid && Tie(x, y) ==> x == y
    ensures a == b
  {
    forall x, y | x in a && y in a
      ensures x == y || ServerLess(x, y) || ServerLess(y, x)
    {
      assert x in multiset(a) && y in multiset(a);
      StrLessTotal(x.address, y.address);
      assert Tie(x, y) ==> x == y;
    }
    SortedUnique(ServerLess, a, b);
  }

  ghost predicate SameRoute(c1: HAProxyConfig, c2: HAProxyConfig, key: RoutingKey) {
    && key.port in c1 && key.sniHostname in c1[key.port]
    && key.port in c2 && key.sniHostname in c2[key.port]
    && c1[key.port][key.sniHostname] == c2[key.port][key.sniHostname]
  }

  lemma SameRoutes(c1: HAProxyConfig, c2: HAProxyConfig, t: Table)
    requires IsConfigOf(c1, t) && IsConfigOf(c2, t)
    requires forall key :: Survives(t, key) ==> SameRoute(c1, c2, key)
    ensures c1 == c2
  {
    forall p | p in c1 || p in c2
      ensures p in c1 && p in c2 && c1[p] == c2[p]
    {
      SameFrontend(c1, c2, t, p);
    }
  }

  lemma SameFrontend(c1: HAProxyConfig, c2: HAProxyConfig, t: Table, p: uint16)
    requires IsConfigOf(c1, t) && IsConfigOf(c2, t) && (p in c1 || p in c2)
    requires forall key :: Survives(t, key) ==> SameRoute(c1, c2, key)
    ensures p in c1 && p in c2 && c1[p] == c2[p]
  {
    if p in c1 {
      SamePorts(c1, c2, t, p);
    } else {
      SamePorts(c2, c1, t, p);
    }
    forall h | h in c1[p] || h in c2[p]
      ensures h in c1[p] && h in c2[p] && c1[p][h] == c2[p][h]
    {
      assert Survives(t, RoutingKey(p, h));
    }
  }

  /** Without ties a table has one configuration. */
  lemma ConfigUnique(c1: HAProxyConfig, c2: HAProxyConfig, t: Table)
    requires IsConfigOf(c1, t) && IsConfigOf(c2, t) && NoTies(t)
    ensures c1 == c2
  {
    forall key | Survives(t, key)
      ensures SameRoute(c1, c2, key)
    {
      ListsServersUnique(c1[key.port][key.sniHostname], c2[key.port][key.sniHostname], ValidServers(t[key]));
    }
    SameRoutes(c1, c2, t);
  }

  lemma SamePorts(c1: HAProxyConfig, c2: HAProxyConfig, t: Table, p: uint16)
    requires IsConfigOf(c1, t) && IsConfigOf(c2, t) && p in c1
    ensures p in c2
  {
    var h :| h in c1[p];
    assert Survives(t, RoutingKey(p, h));
  }

  /** With ties, every order still lists the same servers, sorted. */
  lemma ConfigSameUpToTies(c1: HAProxyConfig, c2: HAProxyConfig, t: Table, p: uint16, h: string)
    requires IsConfigOf(c1, t) && IsConfigOf(c2, t)
    requires p in c1 && h in c1[p]
    ensures p in c2 && h in c2[p]
    ensures multiset(c1[p][h]) == multiset(c2[p][h]) && Sorted(ServerLess, c1[p][h]) && Sorted(ServerLess, c2[p][h])
  {
    assert Survives(t, RoutingKey(p, h));
  }

  /** Only the pairs of a table matter: tables with the same pairs have the same
      configurations. */
  lemma ConfigDependsOnPairs(conf: HAProxyConfig, t1: Table, t2: Table)
    requires IsConfigOf(conf, t1) && Pairs(t1) == Pairs(t2)
    ensures IsConfigOf(conf, t2)
  {
    forall key
      ensures Survives(t1, key) <==> Survives(t2, key)
      ensures Survives(t1, key) ==> ValidServers(t1[key]) == ValidServers(t2[key])
    {
      SameValidServers(t1, t2, key);
      SameValidServers(t2, t1, key);
    }
  }

  lemma SameValidServers(t1: Table, t2: Table, key: RoutingKey)
    requires Pairs(t1) == Pairs(t2)
    ensures Survives(t1, key) ==> Survives(t2, key) && ValidServers(t1[key]) == ValidServers(t2[key])
  {
    if Survives(t1, key) {
      var b :| b in ValidServers(t1[key]);
      assert (key, b) in Pairs(t1);
      forall b
        ensures b in ValidServers(t1[key]) <==> b in ValidServers(t2[key])
      {
        assert (key, b) in Pairs(t1) <==> (key, b) in Pairs(t2);
      }
    }
  }
}
