/** From a routing table to what HAProxy does with its printed configuration. */
module TableMeaning {
  import opened RoutingModel
  import opened Text
  import opened DnsNames
  import opened HAProxyConfigs
  import opened HAProxySyntax
  import opened Marshaller
  import opened Meaning
  import opened PrintedText

  /** The route of a table that answers a connection: the one for its server name if it
      survives validation, else the default route of the port. */
  function RouteFor(t: Table, port: uint16, sni: Option<string>): (r: Option<RoutingKey>)
    ensures r.Some? ==> Survives(t, r.value)
  {
    if sni.Some? && Survives(t, RoutingKey(port, sni.value)) then Some(RoutingKey(port, sni.value))
    else if Survives(t, RoutingKey(port, "")) then Some(RoutingKey(port, ""))
    else None
  }

  /** The outcome the table asks for: the printed servers of the route, sorted, or none. */
  ghost predicate Answers(reached: Option<seq<Server>>, t: Table, tls: BackendTLSConfig, port: uint16,
                          sni: Option<string>)
  {
    var route := RouteFor(t, port, sni);
    if route.None? then reached == None
    else exists servers :: ListsServers(servers, ValidServers(t[route.value])) && reached == Some(PrintedServers(servers, tls))
  }

  lemma HostForIsRouteFor(conf: HAProxyConfig, t: Table, port: uint16, sni: Option<string>)
    requires IsConfigOf(conf, t)
    ensures var host := HostFor(conf, port, sni);
            RouteFor(t, port, sni) == if host.Some? then Some(RoutingKey(port, host.value)) else None
  {
    assert Survives(t, RoutingKey(port, "")) <==> port in conf && "" in conf[port];
    if sni.Some? {
      assert Survives(t, RoutingKey(port, sni.value)) <==> port in conf && sni.value in conf[port];
    }
  }

  /** Read by HAProxy, the sections of a table's configuration do what the table asks for. */
  lemma ConfigMeansTable(conf: HAProxyConfig, t: Table, tls: BackendTLSConfig, port: uint16, sni: Option<string>)
    requires IsConfigOf(conf, t)
    ensures Answers(Select(ConfigSections(conf, tls), port, sni), t, tls, port, sni)
  {
    SelectIsLookup(conf, tls, port, sni);
    HostForIsRouteFor(conf, t, port, sni);
    var route := RouteFor(t, port, sni);
    if route.Some? {
      assert ListsServers(conf[port][route.value.sniHostname], ValidServers(t[route.value]));
    }
  }

  /** What the text needs beyond the validation: the instance ids of surviving TLS backends,
      and the paths of the certificates printed with them, are words. */
  ghost predicate TlsStringsAreWords(t: Table, tls: BackendTLSConfig) {
    forall key, b :: Survives(t, key) && b in ValidServers(t[key]) ==> TlsWordsOf(b, tls)
  }

  predicate TlsWordsOf(b: BackendServerKey, tls: BackendTLSConfig) {
    b.tlsPort > 0 && tls.enabled ==>
      IsWord(b.instanceId) && IsWord(tls.caCertificatePath) && NoSpace(tls.clientCertAndKeyPath)
  }

  lemma ServersClean(servers: HAProxyBackend, valid: set<BackendServerKey>, tls: BackendTLSConfig)
    requires ListsServers(servers, valid)
    requires forall b :: b in valid ==> ValidServer(b)
    ensures CleanServers(servers, tls) <==> forall b :: b in valid ==> TlsWordsOf(b, tls)
  {
    forall b
      ensures b in servers <==> b in valid
    {
      assert b in servers <==> b in multiset(servers);
    }
    forall b | b in valid
      ensures NoSpace(b.address)
    {
      ValidNameCharacters(b.address);
    }
  }

  lemma RouteClean(conf: HAProxyConfig, t: Table, tls: BackendTLSConfig, key: RoutingKey)
    requires IsConfigOf(conf, t) && Survives(t, key)
    ensures key.port in conf && key.sniHostname in conf[key.port]
    ensures NoSpace(key.sniHostname) && CleanServers(conf[key.port][key.sniHostname], tls) <==>
            forall b :: b in ValidServers(t[key]) ==> TlsWordsOf(b, tls)
  {
    ServersClean(conf[key.port][key.sniHostname], ValidServers(t[key]), tls);
    if key.sniHostname != "" {
      ValidNameCharacters(key.sniHostname);
    }
  }

  lemma TableClean(conf: HAProxyConfig, t: Table, tls: BackendTLSConfig)
    requires IsConfigOf(conf, t)
    ensures CleanConfig(conf, tls) <==> TlsStringsAreWords(t, tls)
  {
    forall key | Survives(t, key)
      ensures key.port in conf && key.sniHostname in conf[key.port]
      ensures NoSpace(key.sniHostname) && CleanServers(conf[key.port][key.sniHostname], tls) <==>
              forall b :: b in ValidServers(t[key]) ==> TlsWordsOf(b, tls)
    {
      RouteClean(conf, t, tls, key);
    }
    forall p, h | p in conf && h in conf[p]
      ensures Survives(t, RoutingKey(p, h))
    {
    }
  }

  /** The printed text reads back exactly when those strings are words ... */
  lemma TableRoundTrip(conf: HAProxyConfig, t: Table, tls: BackendTLSConfig)
    requires IsConfigOf(conf, t)
    ensures ParseConfig(ConfigText(ConfigSections(conf, tls))) == Some(ConfigSections(conf, tls)) <==>
            TlsStringsAreWords(t, tls)
  {
    MarshalRoundTrip(conf, tls);
    TableClean(conf, t, tls);
  }

  /** ... and then the text does what the table asks for. A server left out because TLS is
      off never sends its connections to the default route: RouteFor does not look at tls. */
  lemma TextMeansTable(conf: HAProxyConfig, t: Table, tls: BackendTLSConfig, port: uint16, sni: Option<string>)
    requires IsConfigOf(conf, t) && TlsStringsAreWords(t, tls)
    ensures Answers(SelectByText(ConfigText(ConfigSections(conf, tls)), port, sni), t, tls, port, sni)
  {
    TableRoundTrip(conf, t, tls);
    ConfigMeansTable(conf, t, tls, port, sni);
  }

  /** The servers a connection can reach are the printable valid backends of its route. */
  lemma ReachedServers(reached: Option<seq<Server>>, t: Table, tls: BackendTLSConfig, port: uint16,
                       sni: Option<string>, s: Server)
    requires Answers(reached, t, tls, port, sni)
    ensures var route := RouteFor(t, port, sni);
            reached.Some? && s in reached.value <==>
            route.Some? && exists b :: b in t[route.value] && ValidServer(b) && Printable(b, tls) && s == PrintedServer(b, tls)
  {
    var route := RouteFor(t, port, sni);
    if route.Some? {
      var valid := ValidServers(t[route.value]);
      var servers :| ListsServers(servers, valid) && reached == Some(PrintedServers(servers, tls));
      PrintedServersHold(servers, tls, s);
      forall b
        ensures b in servers <==> b in valid
      {
        assert b in servers <==> b in multiset(servers);
      }
    }
  }

  // ----- The answer, said of the fields -----

  /** The server is the backend: named after its endpoint, its address, with its TLS port, instance id and certificates
      where it has a TLS port, and with its plain port and nothing else where it has none. */
  predicate Serves(server: Server, b: BackendServerKey, tls: BackendTLSConfig) {
    && server.name == "server_" + server.address + "_" + Decimal(server.port)
    && server.address == b.address
    && server.port == (if b.tlsPort > 0 then b.tlsPort else b.port as int)
    && (b.tlsPort > 0 <==> server.tls.Verified?)
    && (b.tlsPort > 0 ==>
          && server.tls.verifyHost == b.instanceId
          && server.tls.caFile == tls.caCertificatePath
          && (server.tls.crt.Some? <==> tls.clientCertAndKeyPath != "")
          && (server.tls.crt.Some? ==> server.tls.crt.value == tls.clientCertAndKeyPath))
  }

  /** A backend takes part if it is accepted and its need for TLS can be met. */
  ghost predicate TakesPart(b: BackendServerKey, backends: Backends, tls: BackendTLSConfig) {
    b in backends && AcceptedBackend(b) && (b.tlsPort > 0 ==> tls.enabled)
  }

  /** The servers reached are the backends that take part, all of them and no others. */
  ghost predicate ServesAll(servers: seq<Server>, backends: Backends, tls: BackendTLSConfig) {
    && (forall b :: TakesPart(b, backends, tls) ==> exists s :: s in servers && Serves(s, b, tls))
    && (forall s :: s in servers ==> exists b :: TakesPart(b, backends, tls) && Serves(s, b, tls))
  }

  /** A connection with a server name that has an accepted entry is answered by that entry,
      any other by the entry of the port without a name, or turned away if there is none. */
  ghost predicate AnswersByFields(reached: Option<seq<Server>>, t: Table, tls: BackendTLSConfig, port: uint16,
                                  sni: Option<string>)
  {
    var named := sni.Some? && AcceptedEntry(t, RoutingKey(port, sni.value));
    var key := RoutingKey(port, if named then sni.value else "");
    if AcceptedEntry(t, key) then reached.Some? && ServesAll(reached.value, t[key], tls) else reached == None
  }

  lemma PrintedServerServes(b: BackendServerKey, tls: BackendTLSConfig)
    ensures Serves(PrintedServer(b, tls), b, tls)
  {
  }

  lemma AnswersAreByFields(reached: Option<seq<Server>>, t: Table, tls: BackendTLSConfig, port: uint16,
                           sni: Option<string>)
    requires Answers(reached, t, tls, port, sni)
    ensures AnswersByFields(reached, t, tls, port, sni)
  {
    AcceptedEntryIff(t, RoutingKey(port, ""));
    if sni.Some? {
      AcceptedEntryIff(t, RoutingKey(port, sni.value));
    }
    var route := RouteFor(t, port, sni);
    if route.Some? {
      ReachedServesAll(reached, t, tls, port, sni, route.value);
    }
  }

  lemma ReachedServesAll(reached: Option<seq<Server>>, t: Table, tls: BackendTLSConfig, port: uint16,
                         sni: Option<string>,
                         key: RoutingKey)
    requires Answers(reached, t, tls, port, sni) && RouteFor(t, port, sni) == Some(key)
    ensures reached.Some? && ServesAll(reached.value, t[key], tls)
  {
    forall b | TakesPart(b, t[key], tls)
      ensures exists s :: s in reached.value && Serves(s, b, tls)
    {
      AcceptedIff(key, b);
      PrintedServerServes(b, tls);
      ReachedServers(reached, t, tls, port, sni, PrintedServer(b, tls));
    }
    forall s | s in reached.value
      ensures exists b :: TakesPart(b, t[key], tls) && Serves(s, b, tls)
    {
      ReachedServers(reached, t, tls, port, sni, s);
      var b :| b in t[key] && ValidServer(b) && Printable(b, tls) && s == PrintedServer(b, tls);
      AcceptedIff(key, b);
      PrintedServerServes(b, tls);
    }
  }

  /** The printed text of a table's configuration, parsed and interpreted, answers every
      connection so. */
  lemma TextServesTable(conf: HAProxyConfig, t: Table, tls: BackendTLSConfig, port: uint16, sni: Option<string>)
    requires IsConfigOf(conf, t) && TlsStringsAreWords(t, tls)
    ensures AnswersByFields(SelectByText(ConfigText(ConfigSections(conf, tls)), port, sni), t, tls, port, sni)
  {
    TextMeansTable(conf, t, tls, port, sni);
    AnswersAreByFields(SelectByText(ConfigText(ConfigSections(conf, tls)), port, sni), t, tls, port, sni);
  }

  // ----- Equal texts -----

  type View = map<uint16, map<string, seq<Server>>>

  /** What of a configuration can be seen in its text. */
  function ViewOf(conf: HAProxyConfig, tls: BackendTLSConfig): View {
    map p | p in conf :: FrontendView(conf[p], tls)
  }

  function FrontendView(frontend: HAProxyFrontend, tls: BackendTLSConfig): map<string, seq<Server>> {
    map h | h in frontend :: PrintedServers(frontend[h], tls)
  }

  lemma EqualViews(c1: HAProxyConfig, tls1: BackendTLSConfig, c2: HAProxyConfig, tls2: BackendTLSConfig)
    requires c1.Keys == c2.Keys
    requires forall p :: p in c1.Keys ==> FrontendView(c1[p], tls1) == FrontendView(c2[p], tls2)
    ensures ViewOf(c1, tls1) == ViewOf(c2, tls2)
  {
  }

  lemma EqualFrontendViews(f1: HAProxyFrontend, tls1: BackendTLSConfig, f2: HAProxyFrontend, tls2: BackendTLSConfig)
    requires f1.Keys == f2.Keys
    requires forall h :: h in f1.Keys ==> PrintedServers(f1[h], tls1) == PrintedServers(f2[h], tls2)
    ensures FrontendView(f1, tls1) == FrontendView(f2, tls2)
  {
  }

  lemma SectionsShowView(c1: HAProxyConfig, tls1: BackendTLSConfig, c2: HAProxyConfig, tls2: BackendTLSConfig)
    requires ConfigSections(c1, tls1) == ConfigSections(c2, tls2)
    ensures ViewOf(c1, tls1) == ViewOf(c2, tls2)
  {
    PortsShow(c1, tls1, c2, tls2);
    forall p | p in c1.Keys
      ensures FrontendView(c1[p], tls1) == FrontendView(c2[p], tls2)
    {
      FrontendShows(c1, tls1, c2, tls2, p);
    }
    EqualViews(c1, tls1, c2, tls2);
  }

  lemma PortsShow(c1: HAProxyConfig, tls1: BackendTLSConfig, c2: HAProxyConfig, tls2: BackendTLSConfig)
    requires ConfigSections(c1, tls1) == ConfigSections(c2, tls2)
    ensures c1.Keys == c2.Keys
  {
    forall p
      ensures p in c1.Keys <==> p in c2.Keys
    {
      PortShows(c1, tls1, c2, tls2, p);
    }
  }

  lemma PortShows(c1: HAProxyConfig, tls1: BackendTLSConfig, c2: HAProxyConfig, tls2: BackendTLSConfig, p: uint16)
    requires ConfigSections(c1, tls1) == ConfigSections(c2, tls2)
    ensures p in c1 <==> p in c2
  {
    FindFrontend(c1, tls1, p);
    FindFrontend(c2, tls2, p);
  }

  lemma FrontendShows(c1: HAProxyConfig, tls1: BackendTLSConfig, c2: HAProxyConfig, tls2: BackendTLSConfig, p: uint16)
    requires ConfigSections(c1, tls1) == ConfigSections(c2, tls2)
    requires p in c1 && p in c2
    ensures FrontendView(c1[p], tls1) == FrontendView(c2[p], tls2)
  {
    forall h
      ensures h in c1[p].Keys <==> h in c2[p].Keys
      ensures h in c1[p].Keys ==> PrintedServers(c1[p][h], tls1) == PrintedServers(c2[p][h], tls2)
    {
      BackendShows(c1, tls1, c2, tls2, p, h);
    }
    EqualFrontendViews(c1[p], tls1, c2[p], tls2);
  }

  lemma BackendShows(c1: HAProxyConfig, tls1: BackendTLSConfig, c2: HAProxyConfig, tls2: BackendTLSConfig, p: uint16,
                     h: string)
    requires ConfigSections(c1, tls1) == ConfigSections(c2, tls2)
    requires p in c1 && p in c2
    ensures h in c1[p] <==> h in c2[p]
    ensures h in c1[p] ==> PrintedServers(c1[p][h], tls1) == PrintedServers(c2[p][h], tls2)
  {
    FindBackend(c1, tls1, p, h);
    FindBackend(c2, tls2, p, h);
    if h in c1[p] {
      ServersOfLines(PrintedServers(c1[p][h], tls1));
      ServersOfLines(PrintedServers(c2[p][h], tls2));
    }
  }

  lemma SameFrontendSections(p: uint16, f1: HAProxyFrontend, tls1: BackendTLSConfig, f2: HAProxyFrontend,
                             tls2: BackendTLSConfig)
    requires FrontendView(f1, tls1) == FrontendView(f2, tls2)
    ensures FrontendSections(p, f1, tls1) == FrontendSections(p, f2, tls2)
  {
    SameKeys(f1, tls1, f2, tls2);
    var hostnames := SortedHostnames(f1);
    forall h | h in hostnames
      ensures PrintedServers(f1[h], tls1) == PrintedServers(f2[h], tls2)
    {
      assert FrontendView(f1, tls1)[h] == FrontendView(f2, tls2)[h];
    }
    assert BackendSections(p, f1, hostnames, tls1) == BackendSections(p, f2, hostnames, tls2);
    assert FrontendHead(p, f1) == FrontendHead(p, f2);
  }

  lemma SameKeys(f1: HAProxyFrontend, tls1: BackendTLSConfig, f2: HAProxyFrontend, tls2: BackendTLSConfig)
    requires FrontendView(f1, tls1) == FrontendView(f2, tls2)
    ensures f1.Keys == f2.Keys && SortedHostnames(f1) == SortedHostnames(f2)
    ensures ContainsSNI(f1) <==> ContainsSNI(f2)
  {
    assert f1.Keys == FrontendView(f1, tls1).Keys == FrontendView(f2, tls2).Keys == f2.Keys;
    assert forall h :: h in f1 <==> h in f1.Keys;
    assert forall h :: h in f2 <==> h in f2.Keys;
  }

  lemma {:induction false} SameSectionsOfPorts(ports: seq<uint16>, c1: HAProxyConfig, tls1: BackendTLSConfig,
                                               c2: HAProxyConfig, tls2: BackendTLSConfig)
    requires forall p :: p in ports ==> p in c1 && p in c2 && FrontendView(c1[p], tls1) == FrontendView(c2[p], tls2)
    ensures SectionsOfPorts(ports, c1, tls1) == SectionsOfPorts(ports, c2, tls2)
  {
    if ports != [] {
      var n := |ports| - 1;
      SameSectionsOfPorts(ports[..n], c1, tls1, c2, tls2);
      SameFrontendSections(ports[n], c1[ports[n]], tls1, c2[ports[n]], tls2);
    }
  }

  lemma ViewGivesSections(c1: HAProxyConfig, tls1: BackendTLSConfig, c2: HAProxyConfig, tls2: BackendTLSConfig)
    requires ViewOf(c1, tls1) == ViewOf(c2, tls2)
    ensures ConfigSections(c1, tls1) == ConfigSections(c2, tls2)
  {
    assert c1.Keys == ViewOf(c1, tls1).Keys == ViewOf(c2, tls2).Keys == c2.Keys;
    forall p | p in SortedPorts(c1)
      ensures p in c1 && p in c2 && FrontendView(c1[p], tls1) == FrontendView(c2[p], tls2)
    {
      assert ViewOf(c1, tls1)[p] == ViewOf(c2, tls2)[p];
    }
    SameSectionsOfPorts(SortedPorts(c1), c1, tls1, c2, tls2);
  }

  /** Two configurations print the same text exactly when they show the same servers under
      the same routes. */
  lemma EqualTextsIffEqualViews(c1: HAProxyConfig, tls1: BackendTLSConfig, c2: HAProxyConfig, tls2: BackendTLSConfig)
    requires CleanConfig(c1, tls1) && CleanConfig(c2, tls2)
    ensures ConfigText(ConfigSections(c1, tls1)) == ConfigText(ConfigSections(c2, tls2)) <==>
            ViewOf(c1, tls1) == ViewOf(c2, tls2)
  {
    if ViewOf(c1, tls1) == ViewOf(c2, tls2) {
      ViewGivesSections(c1, tls1, c2, tls2);
    }
    if ConfigText(ConfigSections(c1, tls1)) == ConfigText(ConfigSections(c2, tls2)) {
      MarshalRoundTrip(c1, tls1);
      MarshalRoundTrip(c2, tls2);
      SectionsShowView(c1, tls1, c2, tls2);
    }
  }
}
