/** Name integrity of the printed configuration: the rules refer to backends that are there,
    each once, and servers of one backend are told apart. */
module References {
  import opened RoutingModel
  import opened Sequences
  import opened HAProxyConfigs
  import opened HAProxySyntax
  import opened Marshaller
  import opened Names

  predicate Refers(d: Directive) {
    d.UseBackend? || d.DefaultBackend?
  }

  /** The backend names the rules of a body refer to, in order. */
  function Referenced(body: seq<Directive>): seq<string> {
    if body == [] then []
    else
      var n := |body| - 1;
      Referenced(body[..n]) + if Refers(body[n]) then [body[n].name] else []
  }

  function AllReferenced(sections: seq<Section>): seq<string> {
    if sections == [] then []
    else
      var n := |sections| - 1;
      AllReferenced(sections[..n]) + Referenced(sections[n].body)
  }

  /** The names of the backends that are there, in order. */
  function Declared(sections: seq<Section>): seq<string> {
    if sections == [] then []
    else
      var n := |sections| - 1;
      Declared(sections[..n]) + if sections[n].header.Backend? then [sections[n].header.name] else []
  }

  ghost predicate Distinct<T>(s: seq<T>) {
    forall i, j :: 0 <= i < j < |s| ==> s[i] != s[j]
  }

  lemma ReferencedSnoc(body: seq<Directive>, d: Directive)
    ensures Referenced(body + [d]) == Referenced(body) + if Refers(d) then [d.name] else []
  {
    assert (body + [d])[..|body|] == body;
  }

  lemma AllReferencedSnoc(sections: seq<Section>, s: Section)
    ensures AllReferenced(sections + [s]) == AllReferenced(sections) + Referenced(s.body)
  {
    assert (sections + [s])[..|sections|] == sections;
  }

  lemma DeclaredSnoc(sections: seq<Section>, s: Section)
    ensures Declared(sections + [s]) == Declared(sections) + if s.header.Backend? then [s.header.name] else []
  {
    assert (sections + [s])[..|sections|] == sections;
  }

  lemma {:induction false} AllReferencedConcat(a: seq<Section>, b: seq<Section>)
    ensures AllReferenced(a + b) == AllReferenced(a) + AllReferenced(b)
  {
    if b == [] {
      assert a + b == a;
    } else {
      var n := |b| - 1;
      AllReferencedConcat(a, b[..n]);
      AllReferencedSnoc(a + b[..n], b[n]);
      assert b == b[..n] + [b[n]];
      AppendAssoc(a, b[..n], b[n]);
      Assoc(AllReferenced(a), AllReferenced(b[..n]), Referenced(b[n].body));
    }
  }

  lemma {:induction false} DeclaredConcat(a: seq<Section>, b: seq<Section>)
    ensures Declared(a + b) == Declared(a) + Declared(b)
  {
    if b == [] {
      assert a + b == a;
    } else {
      var n := |b| - 1;
      DeclaredConcat(a, b[..n]);
      DeclaredSnoc(a + b[..n], b[n]);
      assert b == b[..n] + [b[n]];
      AppendAssoc(a, b[..n], b[n]);
    }
  }

  lemma {:induction false} NoneReferenced(body: seq<Directive>)
    requires forall i :: 0 <= i < |body| ==> !Refers(body[i])
    ensures Referenced(body) == []
  {
    if body != [] {
      NoneReferenced(body[..|body| - 1]);
    }
  }

  /** The backend names of a port's host names. */
  function NamesOf(p: uint16, hostnames: seq<string>): seq<string> {
    seq(|hostnames|, (i: nat) requires i < |hostnames| => BackendName(p, hostnames[i]))
  }

  lemma NamesNext(p: uint16, hostnames: seq<string>, h: string)
    ensures NamesOf(p, hostnames + [h]) == NamesOf(p, hostnames) + [BackendName(p, h)]
    ensures Rules(p, hostnames + [h]) == Rules(p, hostnames) + [Rule(p, h)]
  {
  }

  lemma RuleRefers(p: uint16, h: string)
    ensures Refers(Rule(p, h)) && Rule(p, h).name == BackendName(p, h)
  {
  }

  lemma {:induction false} RulesRefer(p: uint16, head: seq<Directive>, hostnames: seq<string>)
    requires Referenced(head) == []
    ensures Referenced(head + Rules(p, hostnames)) == NamesOf(p, hostnames)
  {
    if hostnames == [] {
      assert head + Rules(p, hostnames) == head;
    } else {
      var before, h := hostnames[..|hostnames| - 1], hostnames[|hostnames| - 1];
      RulesRefer(p, head, before);
      assert hostnames == before + [h];
      NamesNext(p, before, h);
      RuleRefers(p, h);
      ReferencedSnoc(head + Rules(p, before), Rule(p, h));
      AppendAssoc(head, Rules(p, before), Rule(p, h));
    }
  }

  lemma HeadRefersToNone(p: uint16, frontend: HAProxyFrontend)
    ensures Referenced(FrontendHead(p, frontend)) == []
  {
    NoneReferenced(FrontendHead(p, frontend));
  }

  lemma BackendRefersToNone(p: uint16, h: string, servers: HAProxyBackend, tls: BackendTLSConfig)
    ensures Referenced(BackendSection(p, h, servers, tls).body) == []
  {
    NoneReferenced(BackendSection(p, h, servers, tls).body);
  }

  lemma {:induction false} BackendsDeclare(p: uint16, frontend: HAProxyFrontend, hostnames: seq<string>,
                                           tls: BackendTLSConfig)
    requires forall h :: h in hostnames ==> h in frontend
    ensures Declared(BackendSections(p, frontend, hostnames, tls)) == NamesOf(p, hostnames)
    ensures AllReferenced(BackendSections(p, frontend, hostnames, tls)) == []
  {
    if hostnames != [] {
      var n := |hostnames| - 1;
      BackendsDeclare(p, frontend, hostnames[..n], tls);
      BackendSectionsNext(p, frontend, hostnames, tls, n);
      assert hostnames == hostnames[..n] + [hostnames[n]] && hostnames[..n + 1] == hostnames;
      NextBackendDeclares(p, frontend, hostnames[..n], hostnames[n], tls);
    }
  }

  lemma NextBackendDeclares(p: uint16, frontend: HAProxyFrontend, before: seq<string>, h: string, tls: BackendTLSConfig)
    requires h in frontend && forall g :: g in before ==> g in frontend
    requires Declared(BackendSections(p, frontend, before, tls)) == NamesOf(p, before)
    requires AllReferenced(BackendSections(p, frontend, before, tls)) == []
    ensures var sections := BackendSections(p, frontend, before, tls) + [BackendSection(p, h, frontend[h], tls)];
            Declared(sections) == NamesOf(p, before + [h]) && AllReferenced(sections) == []
  {
    var sections, s := BackendSections(p, frontend, before, tls), BackendSection(p, h, frontend[h], tls);
    AllReferencedSnoc(sections, s);
    DeclaredSnoc(sections, s);
    BackendRefersToNone(p, h, frontend[h], tls);
    NamesNext(p, before, h);
  }

  lemma FrontendDeclares(s: Section, body: seq<Directive>)
    requires s.header.Frontend? && s.body == body
    ensures AllReferenced([s]) == Referenced(body) && Declared([s]) == []
  {
    assert [s][..0] == [];
  }

  lemma PortIsConsistent(p: uint16, frontend: HAProxyFrontend, tls: BackendTLSConfig)
    ensures AllReferenced(FrontendSections(p, frontend, tls)) == NamesOf(p, SortedHostnames(frontend))
    ensures Declared(FrontendSections(p, frontend, tls)) == NamesOf(p, SortedHostnames(frontend))
  {
    var hostnames := SortedHostnames(frontend);
    var s, backends := FrontendSection(p, frontend, hostnames), BackendSections(p, frontend, hostnames, tls);
    AllReferencedConcat([s], backends);
    DeclaredConcat([s], backends);
    FrontendDeclares(s, FrontendHead(p, frontend) + Rules(p, hostnames));
    HeadRefersToNone(p, frontend);
    RulesRefer(p, FrontendHead(p, frontend), hostnames);
    BackendsDeclare(p, frontend, hostnames, tls);
  }

  ghost function NamesOfPorts(ports: seq<uint16>, conf: HAProxyConfig): seq<string>
    requires forall p :: p in ports ==> p in conf
  {
    if ports == [] then []
    else
      var n := |ports| - 1;
      NamesOfPorts(ports[..n], conf) + NamesOf(ports[n], SortedHostnames(conf[ports[n]]))
  }

  lemma {:induction false} PortsAreConsistent(ports: seq<uint16>, conf: HAProxyConfig, tls: BackendTLSConfig)
    requires forall p :: p in ports ==> p in conf
    ensures AllReferenced(SectionsOfPorts(ports, conf, tls)) == NamesOfPorts(ports, conf)
    ensures Declared(SectionsOfPorts(ports, conf, tls)) == NamesOfPorts(ports, conf)
  {
    if ports != [] {
      var n := |ports| - 1;
      var before, last := SectionsOfPorts(ports[..n], conf, tls), FrontendSections(ports[n], conf[ports[n]], tls);
      PortsAreConsistent(ports[..n], conf, tls);
      PortIsConsistent(ports[n], conf[ports[n]], tls);
      AllReferencedConcat(before, last);
      DeclaredConcat(before, last);
    }
  }

  lemma {:induction false} NamesArePorts(ports: seq<uint16>, conf: HAProxyConfig, name: string)
    requires forall p :: p in ports ==> p in conf
    requires name in NamesOfPorts(ports, conf)
    ensures exists p, h :: p in ports && name == BackendName(p, h)
  {
    var n := |ports| - 1;
    if name in NamesOfPorts(ports[..n], conf) {
      NamesArePorts(ports[..n], conf, name);
      var p, h :| p in ports[..n] && name == BackendName(p, h);
      assert p in ports;
    } else {
      var h := NameIsOf(ports[n], SortedHostnames(conf[ports[n]]), name);
      assert ports[n] in ports && name == BackendName(ports[n], h);
    }
  }

  lemma NameIsOf(p: uint16, hostnames: seq<string>, name: string) returns (h: string)
    requires name in NamesOf(p, hostnames)
    ensures name == BackendName(p, h)
  {
    var i :| 0 <= i < |hostnames| && name == NamesOf(p, hostnames)[i];
    h := hostnames[i];
  }

  lemma NamesOfDistinct(p: uint16, hostnames: seq<string>)
    requires Distinct(hostnames)
    ensures Distinct(NamesOf(p, hostnames))
  {
    forall i, j | 0 <= i < j < |hostnames|
      ensures BackendName(p, hostnames[i]) != BackendName(p, hostnames[j])
    {
      BackendNameInjective(p, hostnames[i], p, hostnames[j]);
    }
  }

  lemma DistinctConcat<T>(a: seq<T>, b: seq<T>)
    requires Distinct(a) && Distinct(b) && forall x :: x in a ==> x !in b
    ensures Distinct(a + b)
  {
    assert forall i :: 0 <= i < |a| ==> (a + b)[i] in a;
  }

  lemma {:induction false} NamesOfPortsDistinct(ports: seq<uint16>, conf: HAProxyConfig)
    requires Distinct(ports) && forall p :: p in ports ==> p in conf
    ensures Distinct(NamesOfPorts(ports, conf))
  {
    if ports != [] {
      var n := |ports| - 1;
      var hostnames := SortedHostnames(conf[ports[n]]);
      var before, last := NamesOfPorts(ports[..n], conf), NamesOf(ports[n], hostnames);
      NamesOfPortsDistinct(ports[..n], conf);
      ListedDistinct(conf[ports[n]], hostnames);
      NamesOfDistinct(ports[n], hostnames);
      forall name | name in before
        ensures name !in last
      {
        NamesArePorts(ports[..n], conf, name);
        var p, h :| p in ports[..n] && name == BackendName(p, h);
        NotOfPort(p, h, ports[n], hostnames);
      }
      DistinctConcat(before, last);
    }
  }

  lemma NotOfPort(p: uint16, h: string, q: uint16, hostnames: seq<string>)
    requires p != q
    ensures BackendName(p, h) !in NamesOf(q, hostnames)
  {
    forall i | 0 <= i < |hostnames|
      ensures NamesOf(q, hostnames)[i] != BackendName(p, h)
    {
      BackendNameInjective(p, h, q, hostnames[i]);
    }
  }

  lemma ListedDistinct(frontend: HAProxyFrontend, hostnames: seq<string>)
    requires hostnames == SortedHostnames(frontend)
    ensures Distinct(hostnames)
  {
    StrLessIsTotalOrder();
  }

  /** The rules of the printed configuration refer to its backends one for one and in order,
      and no two backends share a name: every reference resolves to one backend, and every
      backend is referred to by one rule. */
  lemma ReferencesMatch(conf: HAProxyConfig, tls: BackendTLSConfig)
    ensures AllReferenced(ConfigSections(conf, tls)) == Declared(ConfigSections(conf, tls))
    ensures Distinct(Declared(ConfigSections(conf, tls)))
  {
    var ports := SortedPorts(conf);
    PortsAreConsistent(ports, conf, tls);
    NamesOfPortsDistinct(ports, conf);
  }

  lemma {:induction false} PrintedServerNames(servers: HAProxyBackend, tls: BackendTLSConfig, i: nat)
    requires i < |PrintedServers(servers, tls)|
    ensures var s := PrintedServers(servers, tls)[i]; s.name == ServerName(s.address, s.port)
  {
    var n := |servers| - 1;
    if i < |PrintedServers(servers[..n], tls)| {
      PrintedServerNames(servers[..n], tls, i);
    }
  }

  /** Two servers of a backend share a name exactly when they share address and printed port. */
  lemma ServerNamesTellApart(servers: HAProxyBackend, tls: BackendTLSConfig, i: nat, j: nat)
    requires i < |PrintedServers(servers, tls)| && j < |PrintedServers(servers, tls)|
    ensures var (s, r) := (PrintedServers(servers, tls)[i], PrintedServers(servers, tls)[j]);
            s.name == r.name <==> s.address == r.address && s.port == r.port
  {
    PrintedServerNames(servers, tls, i);
    PrintedServerNames(servers, tls, j);
    var s, r := PrintedServers(servers, tls)[i], PrintedServers(servers, tls)[j];
    ServerNameInjective(s.address, s.port, r.address, r.port);
  }
}
