/** The printer: from a configuration to the text of HAProxy's configuration file. The
    methods build strings in loops, as the source does; ConfigSections says what the
    text lists. */
module Marshaller {
  import opened RoutingModel
  import opened Text
  import opened Sequences
  import opened Sorting
  import opened HAProxyConfigs
  import opened HAProxySyntax

  datatype BackendTLSConfig = BackendTLSConfig(enabled: bool, caCertificatePath: string, clientCertAndKeyPath: string)

  // ----- What is printed -----

  function FrontendName(port: uint16): string {
    "frontend_" + Decimal(port)
  }

  function BackendName(port: uint16, hostname: string): string {
    if hostname == "" then "backend_" + Decimal(port) else "backend_" + Decimal(port) + "_" + hostname
  }

  function ServerName(address: string, port: nat): string {
    "server_" + address + "_" + Decimal(port)
  }

  /** A server that needs TLS is left out when TLS is off. */
  predicate Printable(b: BackendServerKey, tls: BackendTLSConfig) {
    b.tlsPort > 0 ==> tls.enabled
  }

  function PrintedServer(b: BackendServerKey, tls: BackendTLSConfig): Server {
    if b.tlsPort > 0 then
      Server(ServerName(b.address, b.tlsPort), b.address, b.tlsPort,
             Verified(b.instanceId, tls.caCertificatePath,
                      if tls.clientCertAndKeyPath != "" then Some(tls.clientCertAndKeyPath) else None))
    else Server(ServerName(b.address, b.port), b.address, b.port, Plain)
  }

  function PrintedServers(servers: HAProxyBackend, tls: BackendTLSConfig): seq<Server> {
    if servers == [] then []
    else
      var n := |servers| - 1;
      PrintedServers(servers[..n], tls) + if Printable(servers[n], tls) then [PrintedServer(servers[n], tls)] else []
  }

  function ServerLines(servers: seq<Server>): seq<Directive> {
    seq(|servers|, (i: nat) requires i < |servers| => ServerLine(servers[i]))
  }

  function BackendSection(port: uint16, hostname: string, servers: HAProxyBackend, tls: BackendTLSConfig): Section {
    Section(Backend(BackendName(port, hostname)), [ModeTcp] + ServerLines(PrintedServers(servers, tls)))
  }

  function BackendSections(port: uint16, frontend: HAProxyFrontend, hostnames: seq<string>,
                           tls: BackendTLSConfig): seq<Section>
    requires forall h :: h in hostnames ==> h in frontend
  {
    seq(|hostnames|, (i: nat) requires i < |hostnames| =>
      BackendSection(port, hostnames[i], frontend[hostnames[i]], tls))
  }

  predicate ContainsSNI(frontend: HAProxyFrontend) {
    exists h :: h in frontend && h != ""
  }

  /** How connections for a host name reach its backend. */
  function Rule(port: uint16, hostname: string): Directive {
    if hostname == "" then DefaultBackend(BackendName(port, hostname))
    else UseBackend(BackendName(port, hostname), hostname)
  }

  function Rules(port: uint16, hostnames: seq<string>): seq<Directive> {
    seq(|hostnames|, (i: nat) requires i < |hostnames| => Rule(port, hostnames[i]))
  }

  function FrontendHead(port: uint16, frontend: HAProxyFrontend): seq<Directive> {
    [ModeTcp, Bind(port)] + if ContainsSNI(frontend) then [InspectDelay, AcceptTlsHello] else []
  }

  function FrontendSection(port: uint16, frontend: HAProxyFrontend, hostnames: seq<string>): Section {
    Section(Frontend(FrontendName(port)), FrontendHead(port, frontend) + Rules(port, hostnames))
  }

  predicate PortLess(a: uint16, b: uint16) {
    a < b
  }

  lemma StrLessIsTotalOrder()
    ensures TotalOrder(StrLess)
  {
    forall a, b
      ensures StrLess(a, b) ==> !StrLess(b, a)
      ensures a == b || StrLess(a, b) || StrLess(b, a)
    {
      StrLessTotal(a, b);
      if StrLess(a, b) {
        StrLessAsymmetric(a, b);
      }
    }
    forall a, b, c | !StrLess(a, b) && !StrLess(b, c)
      ensures !StrLess(a, c)
    {
      StrLessNegativelyTransitive(a, b, c);
    }
  }

  ghost function SortedHostnames(frontend: HAProxyFrontend): (hostnames: seq<string>)
    ensures Lists(StrLess, hostnames, frontend.Keys)
  {
    StrLessIsTotalOrder();
    Ascending(StrLess, frontend.Keys)
  }

  ghost function SortedPorts(conf: HAProxyConfig): (ports: seq<uint16>)
    ensures Lists(PortLess, ports, conf.Keys)
  {
    Ascending(PortLess, conf.Keys)
  }

  ghost function FrontendSections(port: uint16, frontend: HAProxyFrontend, tls: BackendTLSConfig): seq<Section> {
    var hostnames := SortedHostnames(frontend);
    [FrontendSection(port, frontend, hostnames)] + BackendSections(port, frontend, hostnames, tls)
  }

  ghost function SectionsOfPorts(ports: seq<uint16>, conf: HAProxyConfig, tls: BackendTLSConfig): seq<Section>
    requires forall p :: p in ports ==> p in conf
  {
    if ports == [] then []
    else
      var n := |ports| - 1;
      SectionsOfPorts(ports[..n], conf, tls) + FrontendSections(ports[n], conf[ports[n]], tls)
  }

  ghost function ConfigSections(conf: HAProxyConfig, tls: BackendTLSConfig): seq<Section> {
    SectionsOfPorts(SortedPorts(conf), conf, tls)
  }

  // ----- Printing -----

  method SortedHAProxyInboundPorts(conf: HAProxyConfig) returns (keys: seq<uint16>)
    ensures keys == SortedPorts(conf)
  {
    var listed: seq<uint16> := [];
    var todo := conf.Keys;
    while todo != {}
      invariant todo <= conf.Keys
      invariant multiset(listed) == multiset(conf.Keys - todo)
    {
      var k :| k in todo;
      listed := listed + [k];
      todo := todo - {k};
    }
    assert conf.Keys - todo == conf.Keys;
    keys := SliceStable(PortLess, listed);
    SortedKeysList(PortLess, listed, conf.Keys);
    ListsUnique(PortLess, keys, SortedPorts(conf), conf.Keys);
  }

  method SortedSniHostnames(frontend: HAProxyFrontend) returns (keys: seq<string>)
    ensures keys == SortedHostnames(frontend)
  {
    var listed: seq<string> := [];
    var todo := frontend.Keys;
    while todo != {}
      invariant todo <= frontend.Keys
      invariant multiset(listed) == multiset(frontend.Keys - todo)
    {
      var k :| k in todo;
      listed := listed + [k];
      todo := todo - {k};
    }
    assert frontend.Keys - todo == frontend.Keys;
    keys := SliceStable(StrLess, listed);
    StrLessIsTotalOrder();
    SortedKeysList(StrLess, listed, frontend.Keys);
    ListsUnique(StrLess, keys, SortedHostnames(frontend), frontend.Keys);
  }

  method ContainsSNIRoutes(frontend: HAProxyFrontend) returns (r: bool)
    ensures r <==> ContainsSNI(frontend)
  {
    var todo := frontend.Keys;
    while todo != {}
      invariant todo <= frontend.Keys
      invariant forall h :: h in frontend && h != "" ==> h in todo
    {
      var h :| h in todo;
      if h != "" {
        return true;
      }
      todo := todo - {h};
    }
    return false;
  }

  lemma RenderNext(lines: seq<string>, line: string)
    ensures Render(lines + [line]) == Render(lines) + "\n" + line
  {
    assert (lines + [line])[..|lines|] == lines;
  }

  /** The lines of an unfinished section. */
  function OpenSection(header: Directive, body: seq<Directive>): seq<string> {
    [LineText(header)] + BodyLines(body)
  }

  lemma OpenSectionNext(header: Directive, body: seq<Directive>, d: Directive)
    ensures Render(OpenSection(header, body + [d])) == Render(OpenSection(header, body)) + "\n" + LineText(d)
  {
    var line := LineText(d);
    assert (body + [d])[..|body|] == body;
    AppendAssoc([LineText(header)], BodyLines(body), line);
    RenderNext(OpenSection(header, body), line);
  }

  lemma OpenSectionStart(header: Directive, line: string)
    requires line == LineText(header)
    ensures Render(OpenSection(header, [])) == "\n" + line
  {
    assert [line] + [] == [line];
    RenderOne(line);
  }

  lemma SectionEnd(header: Directive, body: seq<Directive>)
    ensures Render(SectionLines(Section(header, body))) == Render(OpenSection(header, body)) + "\n"
  {
    RenderNext(OpenSection(header, body), "");
    assert Render(OpenSection(header, body)) + "\n" + "" == Render(OpenSection(header, body)) + "\n";
  }

  method MarshalServer(b: BackendServerKey, tls: BackendTLSConfig) returns (line: string)
    requires Printable(b, tls)
    ensures line == LineText(ServerLine(PrintedServer(b, tls)))
  {
    if b.tlsPort > 0 {
      var options := " ssl verify required verifyhost " + b.instanceId + " ca-file " + tls.caCertificatePath;
      if tls.clientCertAndKeyPath != "" {
        options := options + (" crt " + tls.clientCertAndKeyPath);
      } else {
        assert options + "" == options;
      }
      line := "server " + ServerName(b.address, b.tlsPort) + " " + (b.address + ":" + Decimal(b.tlsPort)) + options;
    } else {
      line := "server " + ServerName(b.address, b.port) + " " + (b.address + ":" + Decimal(b.port));
      assert line + "" == line;
    }
    line := "  " + line;
  }

  /** The body of a backend section up to its first n servers. */
  function BackendBody(servers: HAProxyBackend, tls: BackendTLSConfig, n: nat): seq<Directive>
    requires n <= |servers|
  {
    [ModeTcp] + ServerLines(PrintedServers(servers[..n], tls))
  }

  lemma BackendBodyNext(servers: HAProxyBackend, tls: BackendTLSConfig, n: nat, d: Directive)
    requires n < |servers| && d == ServerLine(PrintedServer(servers[n], tls))
    ensures BackendBody(servers, tls, n + 1) ==
            if Printable(servers[n], tls) then BackendBody(servers, tls, n) + [d] else BackendBody(servers, tls, n)
  {
    assert servers[..n + 1][..n] == servers[..n];
  }

  ghost function BackendText(name: string, servers: HAProxyBackend, tls: BackendTLSConfig, n: nat): string
    requires n <= |servers|
  {
    Render(OpenSection(Backend(name), BackendBody(servers, tls, n)))
  }

  lemma BackendTextStart(name: string, servers: HAProxyBackend, tls: BackendTLSConfig, line: string, mode: string)
    requires line == "backend " + name && mode == "mode tcp"
    ensures BackendText(name, servers, tls, 0) == "\n" + line + "\n" + ("  " + mode)
  {
    var header := Backend(name);
    OpenSectionStart(header, line);
    OpenSectionNext(header, [], ModeTcp);
    assert [] + [ModeTcp] == BackendBody(servers, tls, 0);
  }

  lemma BackendTextNext(name: string, servers: HAProxyBackend, tls: BackendTLSConfig, n: nat, d: Directive)
    requires n < |servers| && d == ServerLine(PrintedServer(servers[n], tls))
    ensures BackendText(name, servers, tls, n + 1) ==
            if Printable(servers[n], tls) then BackendText(name, servers, tls, n) + "\n" + LineText(d)
            else BackendText(name, servers, tls, n)
  {
    BackendBodyNext(servers, tls, n, d);
    OpenSectionNext(Backend(name), BackendBody(servers, tls, n), d);
  }

  lemma BackendTextEnd(name: string, servers: HAProxyBackend, tls: BackendTLSConfig, section: Section)
    requires section == Section(Backend(name), [ModeTcp] + ServerLines(PrintedServers(servers, tls)))
    ensures Render(SectionLines(section)) == BackendText(name, servers, tls, |servers|) + "\n"
  {
    assert servers[..|servers|] == servers;
    SectionEnd(section.header, section.body);
  }

  method MarshalHAProxyBackend(name: string, servers: HAProxyBackend, tls: BackendTLSConfig) returns (output: string)
    ensures output == Render(SectionLines(Section(Backend(name), [ModeTcp] + ServerLines(PrintedServers(servers, tls)))))
  {
    output := "\n" + ("backend " + name);
    output := output + "\n" + ("  " + "mode tcp");
    BackendTextStart(name, servers, tls, "backend " + name, "mode tcp");
    for i := 0 to |servers|
      invariant output == BackendText(name, servers, tls, i)
    {
      BackendTextNext(name, servers, tls, i, ServerLine(PrintedServer(servers[i], tls)));
      if servers[i].tlsPort > 0 && !tls.enabled {
        continue;
      }
      var line := MarshalServer(servers[i], tls);
      output := output + "\n" + line;
    }
    BackendTextEnd(name, servers, tls, Section(Backend(name), [ModeTcp] + ServerLines(PrintedServers(servers, tls))));
    output := output + "\n";
  }

  // ----- Frontends -----

  lemma RulesNext(port: uint16, hostnames: seq<string>, n: nat)
    requires n < |hostnames|
    ensures Rules(port, hostnames[..n + 1]) == Rules(port, hostnames[..n]) + [Rule(port, hostnames[n])]
  {
  }

  lemma BackendSectionsNext(port: uint16, frontend: HAProxyFrontend, hostnames: seq<string>, tls: BackendTLSConfig,
                            n: nat)
    requires n < |hostnames| && forall h :: h in hostnames ==> h in frontend
    ensures BackendSections(port, frontend, hostnames[..n + 1], tls) ==
            BackendSections(port, frontend, hostnames[..n], tls) +
            [BackendSection(port, hostnames[n], frontend[hostnames[n]], tls)]
  {
  }

  lemma ConfigLinesNext(sections: seq<Section>, s: Section)
    ensures ConfigLines(sections + [s]) == ConfigLines(sections) + SectionLines(s)
  {
    assert (sections + [s])[..|sections|] == sections;
  }

  ghost predicate LinesConcat(a: seq<Section>, b: seq<Section>) {
    ConfigLines(a + b) == ConfigLines(a) + ConfigLines(b)
  }

  lemma ConfigLinesConcatNext(a: seq<Section>, b: seq<Section>, s: Section)
    requires LinesConcat(a, b)
    ensures LinesConcat(a, b + [s])
  {
    AppendAssoc(a, b, s);
    ConfigLinesNext(a + b, s);
    ConfigLinesNext(b, s);
    Assoc(ConfigLines(a), ConfigLines(b), SectionLines(s));
  }

  lemma {:induction false} ConfigLinesConcat(a: seq<Section>, b: seq<Section>)
    ensures LinesConcat(a, b)
  {
    if b == [] {
      assert a + b == a;
    } else {
      var n := |b| - 1;
      ConfigLinesConcat(a, b[..n]);
      ConfigLinesConcatNext(a, b[..n], b[n]);
      SplitLast(b);
    }
  }

  lemma ConfigTextConcat(a: seq<Section>, b: seq<Section>)
    ensures ConfigText(a + b) == ConfigText(a) + ConfigText(b)
  {
    ConfigLinesConcat(a, b);
    RenderConcat(ConfigLines(a), ConfigLines(b));
  }

  lemma ConfigTextOne(s: Section, lines: seq<string>)
    requires lines == SectionLines(s)
    ensures ConfigText([s]) == Render(lines)
  {
    ConfigLinesNext([], s);
    assert [] + [s] == [s];
    NothingBefore(lines);
  }

  /** The text of a frontend section up to the rules of its first n host names. */
  ghost function FrontendText(port: uint16, frontend: HAProxyFrontend, hostnames: seq<string>, n: nat): string
    requires n <= |hostnames|
  {
    Render(OpenSection(Frontend(FrontendName(port)), FrontendHead(port, frontend) + Rules(port, hostnames[..n])))
  }

  lemma FrontendTextNext(port: uint16, frontend: HAProxyFrontend, hostnames: seq<string>, n: nat)
    requires n < |hostnames|
    ensures FrontendText(port, frontend, hostnames, n + 1) ==
            FrontendText(port, frontend, hostnames, n) + "\n" + LineText(Rule(port, hostnames[n]))
  {
    var head, rules := FrontendHead(port, frontend), Rules(port, hostnames[..n]);
    RulesNext(port, hostnames, n);
    AppendAssoc(head, rules, Rule(port, hostnames[n]));
    OpenSectionNext(Frontend(FrontendName(port)), head + rules, Rule(port, hostnames[n]));
  }

  method MarshalFrontendHead(port: uint16, frontend: HAProxyFrontend) returns (text: string)
    ensures text == Render(OpenSection(Frontend(FrontendName(port)), FrontendHead(port, frontend)))
  {
    ghost var header := Frontend(FrontendName(port));
    text := "\n" + ("frontend " + FrontendName(port));
    OpenSectionStart(header, "frontend " + FrontendName(port));
    text := text + "\n" + ("  " + "mode tcp");
    OpenSectionNext(header, [], ModeTcp);
    text := text + "\n" + ("  " + ("bind :" + Decimal(port)));
    OpenSectionNext(header, [] + [ModeTcp], Bind(port));
    var sni := ContainsSNIRoutes(frontend);
    if sni {
      text := MarshalInspection(text, header, [] + [ModeTcp] + [Bind(port)]);
    }
    FrontendHeadIs(port, frontend);
  }

  /** The two lines that make a frontend wait for the TLS hello. */
  method MarshalInspection(before: string, ghost header: Directive, ghost body: seq<Directive>)
    returns (text: string)
    requires before == Render(OpenSection(header, body))
    ensures text == Render(OpenSection(header, body + [InspectDelay] + [AcceptTlsHello]))
  {
    text := before + "\n" + ("  " + "tcp-request inspect-delay 5s");
    OpenSectionNext(header, body, InspectDelay);
    text := text + "\n" + ("  " + "tcp-request content accept if { req.ssl_hello_type gt 0 }");
    OpenSectionNext(header, body + [InspectDelay], AcceptTlsHello);
  }

  lemma FrontendHeadIs(port: uint16, frontend: HAProxyFrontend)
    ensures FrontendHead(port, frontend) ==
            [] + [ModeTcp] + [Bind(port)] + if ContainsSNI(frontend) then [InspectDelay] + [AcceptTlsHello] else []
    ensures [] + [ModeTcp] + [Bind(port)] + [] == [] + [ModeTcp] + [Bind(port)]
    ensures [] + [ModeTcp] + [Bind(port)] + ([InspectDelay] + [AcceptTlsHello])
         == [] + [ModeTcp] + [Bind(port)] + [InspectDelay] + [AcceptTlsHello]
  {
  }

  method MarshalRule(port: uint16, hostname: string) returns (backendName: string, line: string)
    ensures backendName == BackendName(port, hostname)
    ensures line == LineText(Rule(port, hostname))
  {
    if hostname == "" {
      backendName := "backend_" + Decimal(port);
      line := "  " + ("default_backend " + backendName);
    } else {
      backendName := "backend_" + Decimal(port) + "_" + hostname;
      line := "  " + ("use_backend " + backendName + " if { req.ssl_sni " + hostname + " }");
    }
  }

  lemma BackendSectionsTextNext(port: uint16, frontend: HAProxyFrontend, hostnames: seq<string>,
                                tls: BackendTLSConfig, n: nat)
    requires n < |hostnames| && forall h :: h in hostnames ==> h in frontend
    ensures ConfigText(BackendSections(port, frontend, hostnames[..n + 1], tls)) ==
            ConfigText(BackendSections(port, frontend, hostnames[..n], tls)) +
            Render(SectionLines(BackendSection(port, hostnames[n], frontend[hostnames[n]], tls)))
  {
    var section := BackendSection(port, hostnames[n], frontend[hostnames[n]], tls);
    BackendSectionsNext(port, frontend, hostnames, tls, n);
    ConfigTextConcat(BackendSections(port, frontend, hostnames[..n], tls), [section]);
    ConfigTextOne(section, SectionLines(section));
  }

  method MarshalHAProxyFrontend(port: uint16, frontend: HAProxyFrontend, tls: BackendTLSConfig) returns (output: string)
    ensures output == ConfigText(FrontendSections(port, frontend, tls))
  {
    var frontendStanza := MarshalFrontendHead(port, frontend);
    var backendStanzas := "";
    var hostnames := SortedSniHostnames(frontend);
    assert FrontendHead(port, frontend) + Rules(port, hostnames[..0]) == FrontendHead(port, frontend);
    for i := 0 to |hostnames|
      invariant frontendStanza == FrontendText(port, frontend, hostnames, i)
      invariant backendStanzas == ConfigText(BackendSections(port, frontend, hostnames[..i], tls))
    {
      var backendName, line := MarshalRule(port, hostnames[i]);
      FrontendTextNext(port, frontend, hostnames, i);
      frontendStanza := frontendStanza + "\n" + line;
      var backend := MarshalHAProxyBackend(backendName, frontend[hostnames[i]], tls);
      BackendSectionsTextNext(port, frontend, hostnames, tls, i);
      backendStanzas := backendStanzas + backend;
    }
    FrontendSectionsText(port, frontend, hostnames, tls);
    output := frontendStanza + "\n" + backendStanzas;
  }

  lemma FrontendSectionsText(port: uint16, frontend: HAProxyFrontend, hostnames: seq<string>, tls: BackendTLSConfig)
    requires hostnames == SortedHostnames(frontend)
    ensures ConfigText(FrontendSections(port, frontend, tls)) ==
            FrontendText(port, frontend, hostnames, |hostnames|) + "\n" +
            ConfigText(BackendSections(port, frontend, hostnames[..|hostnames|], tls))
  {
    var section := FrontendSection(port, frontend, hostnames);
    assert hostnames[..|hostnames|] == hostnames;
    ConfigTextConcat([section], BackendSections(port, frontend, hostnames, tls));
    ConfigTextOne(section, SectionLines(section));
    SectionEnd(section.header, section.body);
  }

  /** The text of the first n ports. */
  ghost function PortsText(ports: seq<uint16>, conf: HAProxyConfig, tls: BackendTLSConfig, n: nat): string
    requires n <= |ports| && forall p :: p in ports ==> p in conf
  {
    ConfigText(SectionsOfPorts(ports[..n], conf, tls))
  }

  lemma PortsTextEnd(ports: seq<uint16>, conf: HAProxyConfig, tls: BackendTLSConfig)
    requires forall p :: p in ports ==> p in conf
    ensures PortsText(ports, conf, tls, |ports|) == ConfigText(SectionsOfPorts(ports, conf, tls))
  {
    assert ports[..|ports|] == ports;
  }

  lemma SectionsOfPortsNext(ports: seq<uint16>, conf: HAProxyConfig, tls: BackendTLSConfig, n: nat)
    requires n < |ports| && forall p :: p in ports ==> p in conf
    ensures PortsText(ports, conf, tls, n + 1) ==
            PortsText(ports, conf, tls, n) + ConfigText(FrontendSections(ports[n], conf[ports[n]], tls))
  {
    assert ports[..n + 1][..n] == ports[..n];
    ConfigTextConcat(SectionsOfPorts(ports[..n], conf, tls), FrontendSections(ports[n], conf[ports[n]], tls));
  }

  /** Marshal prints the sections of the configuration. */
  method Marshal(conf: HAProxyConfig, tls: BackendTLSConfig) returns (output: string)
    ensures output == ConfigText(ConfigSections(conf, tls))
  {
    output := "";
    var sortedPorts := SortedHAProxyInboundPorts(conf);
    for i := 0 to |sortedPorts|
      invariant output == PortsText(sortedPorts, conf, tls, i)
    {
      var port := sortedPorts[i];
      var frontend := MarshalHAProxyFrontend(port, conf[port], tls);
      SectionsOfPortsNext(sortedPorts, conf, tls, i);
      output := output + frontend;
    }
    PortsTextEnd(sortedPorts, conf, tls);
  }
}
