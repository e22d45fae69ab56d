/** When the printed text reads back: for every configuration whose strings are single
    words, which for a configuration made from a table leaves open only the instance ids
    and the certificate paths. */
module PrintedText {
  import opened RoutingModel
  import opened Text
  import opened Sequences
  import opened HAProxyConfigs
  import opened HAProxySyntax
  import opened RoundTrip
  import opened Marshaller
  import opened Names
  import opened Meaning

  // ----- Which strings are words -----

  lemma NoSpaceConcat(a: string, b: string)
    ensures NoSpace(a + b) <==> NoSpace(a) && NoSpace(b)
  {
    assert forall i :: 0 <= i < |a| ==> (a + b)[i] == a[i];
    assert forall i :: 0 <= i < |b| ==> (a + b)[|a| + i] == b[i];
  }

  lemma BackendNameIsWord(prefix: string, under: string, p: uint16, h: string)
    requires prefix == "backend_" && under == "_"
    ensures IsWord(BackendName(p, h)) <==> NoSpace(h)
  {
    DecimalIsWord(p);
    NoSpaceConcat(prefix, Decimal(p));
    NoSpaceConcat(prefix + Decimal(p), under);
    NoSpaceConcat(prefix + Decimal(p) + under, h);
  }

  lemma FrontendNameIsWord(prefix: string, p: uint16)
    requires prefix == "frontend_"
    ensures IsWord(FrontendName(p))
  {
    DecimalIsWord(p);
    NoSpaceConcat(prefix, Decimal(p));
  }

  lemma ServerNameIsWord(prefix: string, under: string, a: string, p: nat)
    requires prefix == "server_" && under == "_"
    ensures IsWord(ServerName(a, p)) <==> NoSpace(a)
  {
    DecimalIsWord(p);
    NoSpaceConcat(prefix, a);
    NoSpaceConcat(prefix + a, under);
    NoSpaceConcat(prefix + a + under, Decimal(p));
  }

  lemma EndpointIsWord(colon: string, s: Server)
    requires colon == ":"
    ensures IsWord(Endpoint(s)) <==> NoSpace(s.address)
  {
    DecimalIsWord(s.port);
    NoSpaceConcat(s.address, colon);
    NoSpaceConcat(s.address + colon, Decimal(s.port));
  }

  // ----- Which directives are clean -----

  lemma HeaderClean(d: Directive)
    requires IsHeader(d)
    ensures IsClean(d) <==> IsWord(d.name)
  {
    var words := DirectiveWords(d);
    assert IsWord(words[0]) && words[1] == d.name;
  }

  lemma DefaultBackendClean(d: Directive)
    requires d.DefaultBackend?
    ensures IsClean(d) <==> IsWord(d.name)
  {
    var words := DirectiveWords(d);
    assert IsWord(words[0]) && words[1] == d.name;
  }

  lemma UseBackendClean(d: Directive, a: string, b: string, c: string)
    requires d.UseBackend? && a == "if" && b == "{" && c == "req.ssl_sni"
    ensures IsClean(d) <==> IsWord(d.name) && IsWord(d.sni)
  {
    var use, end := "use_backend", "}";
    var words := DirectiveWords(d);
    assert words == [use, d.name, a, b, c, d.sni, end];
    UseBackendTexts(use, a, b, c, a + " " + b + " " + c, end);
    assert words[1] == d.name && words[5] == d.sni;
  }

  lemma BindClean(port: nat, word: string)
    requires word == ":" + Decimal(port)
    ensures IsClean(Bind(port))
  {
    DecimalIsWord(port);
    var words := DirectiveWords(Bind(port));
    assert IsWord(words[0]) && words[1] == word && IsWord(word);
  }

  lemma InspectDelayClean(a: string, b: string, c: string)
    requires a == "tcp-request" && b == "inspect-delay" && c == "5s"
    ensures IsClean(InspectDelay)
  {
    assert DirectiveWords(InspectDelay) == [a, b, c];
    InspectDelayTexts(a, b, c);
  }

  lemma AcceptTlsHelloClean(a0: string, a1: string, a2: string, b0: string, b1: string, b2: string,
                            c0: string, c1: string, c2: string)
    requires a0 == "tcp-request" && a1 == "content" && a2 == "accept"
    requires b0 == "if" && b1 == "{" && b2 == "req.ssl_hello_type"
    requires c0 == "gt" && c1 == "0" && c2 == "}"
    ensures IsClean(AcceptTlsHello)
  {
    assert DirectiveWords(AcceptTlsHello) == [a0, a1, a2, b0, b1, b2, c0, c1, c2];
    AcceptWordTexts(a0, a1, a2);
    HelloConditionTexts(b0, b1, b2);
    HelloValueTexts(c0, c1, c2);
  }

  lemma FixedClean(d: Directive)
    requires d.ModeTcp? || d.Bind? || d.InspectDelay? || d.AcceptTlsHello?
    ensures IsClean(d)
  {
    match d
    case ModeTcp =>
    case Bind(port) => BindClean(port, ":" + Decimal(port));
    case InspectDelay => InspectDelayClean("tcp-request", "inspect-delay", "5s");
    case AcceptTlsHello =>
      AcceptTlsHelloClean("tcp-request", "content", "accept", "if", "{", "req.ssl_hello_type", "gt", "0", "}");
  }

  lemma RuleClean(p: uint16, h: string)
    ensures IsClean(Rule(p, h)) <==> NoSpace(h)
  {
    BackendNameIsWord("backend_", "_", p, h);
    if h == "" {
      DefaultBackendClean(Rule(p, h));
    } else {
      UseBackendClean(Rule(p, h), "if", "{", "req.ssl_sni");
    }
  }

  predicate TlsIsWords(tls: ServerTls) {
    tls.Verified? ==> IsWord(tls.verifyHost) && IsWord(tls.caFile) && (tls.crt.Some? ==> IsWord(tls.crt.value))
  }

  lemma TlsWordsAreWords(tls: ServerTls, a: string, b: string, c: string, d: string, caFile: string, crt: string)
    requires a == "ssl" && b == "verify" && c == "required" && d == "verifyhost" && caFile == "ca-file" && crt == "crt"
    ensures AreWords(TlsWords(tls)) <==> TlsIsWords(tls)
  {
    var keywords := "ssl verify required verifyhost";
    TlsKeywordsAreWords(a, b, c, d);
    TlsOptionTexts(keywords, caFile, crt);
    if tls.Verified? {
      var words := [a, b, c, d, tls.verifyHost, caFile, tls.caFile] + if tls.crt.Some? then [crt, tls.crt.value] else [];
      assert TlsWords(tls) == words;
      assert words[4] == tls.verifyHost && words[6] == tls.caFile && (tls.crt.Some? ==> words[8] == tls.crt.value);
    }
  }

  lemma ServerLineClean(s: Server, keyword: string)
    requires keyword == "server"
    ensures IsClean(ServerLine(s)) <==> IsWord(s.name) && NoSpace(s.address) && TlsIsWords(s.tls)
  {
    EndpointIsWord(":", s);
    TlsWordsAreWords(s.tls, "ssl", "verify", "required", "verifyhost", "ca-file", "crt");
    var front, back, words := [keyword, s.name, Endpoint(s)], TlsWords(s.tls), DirectiveWords(ServerLine(s));
    assert words == front + back;
    AreWordsConcat(front, back);
    assert front[1] == s.name && front[2] == Endpoint(s) && IsWord(front[0]);
  }

  lemma AreWordsConcat(a: seq<string>, b: seq<string>)
    ensures AreWords(a + b) <==> AreWords(a) && AreWords(b)
  {
    assert forall i :: 0 <= i < |a| ==> (a + b)[i] == a[i];
    assert forall i :: 0 <= i < |b| ==> (a + b)[|a| + i] == b[i];
  }

  /** What a printed server needs for its line to read back. */
  predicate PrintsWords(b: BackendServerKey, tls: BackendTLSConfig) {
    && NoSpace(b.address)
    && (b.tlsPort > 0 ==>
          IsWord(b.instanceId) && IsWord(tls.caCertificatePath) && NoSpace(tls.clientCertAndKeyPath))
  }

  lemma PrintedServerClean(b: BackendServerKey, tls: BackendTLSConfig)
    ensures IsClean(ServerLine(PrintedServer(b, tls))) <==> PrintsWords(b, tls)
  {
    var s := PrintedServer(b, tls);
    ServerNameIsWord("server_", "_", s.address, s.port);
    ServerLineClean(s, "server");
  }

  // ----- Which sections are clean -----

  predicate CleanSection(s: Section) {
    IsClean(s.header) && forall d :: d in s.body ==> IsClean(d)
  }

  lemma SectionIsClean(s: Section)
    ensures CleanSection(s) <==> IsClean(s.header) && AllClean(s.body)
  {
    if CleanSection(s) {
      assert forall i :: 0 <= i < |s.body| ==> s.body[i] in s.body;
    }
  }

  ghost predicate FlattensClean(sections: seq<Section>) {
    AllClean(Flatten(sections)) <==> forall s :: s in sections ==> CleanSection(s)
  }

  lemma FlattenNext(sections: seq<Section>, s: Section)
    ensures Flatten(sections + [s]) == Flatten(sections) + [s.header] + s.body
  {
    assert (sections + [s])[..|sections|] == sections;
  }

  lemma FlattensCleanNext(sections: seq<Section>, s: Section)
    requires FlattensClean(sections)
    ensures FlattensClean(sections + [s])
  {
    FlattenNext(sections, s);
    AllCleanConcat(Flatten(sections), [s.header]);
    AllCleanConcat(Flatten(sections) + [s.header], s.body);
    assert AllClean([s.header]) <==> IsClean([s.header][0]);
    SectionIsClean(s);
    assert forall r :: r in sections + [s] <==> r in sections || r == s;
  }

  lemma {:induction false} FlattenIsClean(sections: seq<Section>)
    ensures FlattensClean(sections)
  {
    if sections != [] {
      var n := |sections| - 1;
      FlattenIsClean(sections[..n]);
      FlattensCleanNext(sections[..n], sections[n]);
      SplitLast(sections);
    }
  }

  lemma FrontendClean(p: uint16, frontend: HAProxyFrontend, hostnames: seq<string>)
    ensures CleanSection(FrontendSection(p, frontend, hostnames)) <==> forall h :: h in hostnames ==> NoSpace(h)
  {
    var s := FrontendSection(p, frontend, hostnames);
    FrontendNameIsWord("frontend_", p);
    HeaderClean(s.header);
    forall d | d in FrontendHead(p, frontend)
      ensures IsClean(d)
    {
      FixedClean(d);
    }
    forall h | h in hostnames
      ensures Rule(p, h) in s.body && (IsClean(Rule(p, h)) <==> NoSpace(h))
    {
      RulesHold(p, hostnames, Rule(p, h));
      RuleClean(p, h);
    }
    forall d | d in s.body
      ensures d in FrontendHead(p, frontend) || exists h :: h in hostnames && d == Rule(p, h)
    {
      RulesHold(p, hostnames, d);
    }
  }

  lemma {:induction false} PrintedServersHold(servers: HAProxyBackend, tls: BackendTLSConfig, s: Server)
    ensures s in PrintedServers(servers, tls) <==>
            exists b :: b in servers && Printable(b, tls) && s == PrintedServer(b, tls)
  {
    if servers != [] {
      PrintedServersHold(servers[..|servers| - 1], tls, s);
      LastOf(servers);
    }
  }

  predicate CleanServers(servers: HAProxyBackend, tls: BackendTLSConfig) {
    forall b :: b in servers && Printable(b, tls) ==> PrintsWords(b, tls)
  }

  lemma BackendClean(p: uint16, h: string, servers: HAProxyBackend, tls: BackendTLSConfig)
    ensures CleanSection(BackendSection(p, h, servers, tls)) <==> NoSpace(h) && CleanServers(servers, tls)
  {
    var s := BackendSection(p, h, servers, tls);
    BackendNameIsWord("backend_", "_", p, h);
    HeaderClean(s.header);
    FixedClean(ModeTcp);
    forall b | b in servers && Printable(b, tls)
      ensures ServerLine(PrintedServer(b, tls)) in s.body
      ensures IsClean(ServerLine(PrintedServer(b, tls))) <==> PrintsWords(b, tls)
    {
      PrintedServersHold(servers, tls, PrintedServer(b, tls));
      ServerLinesHold(PrintedServers(servers, tls), PrintedServer(b, tls));
      PrintedServerClean(b, tls);
    }
    forall d | d in s.body
      ensures d == ModeTcp || exists b :: b in servers && Printable(b, tls) && d == ServerLine(PrintedServer(b, tls))
    {
      if d != ModeTcp {
        var i :| 0 <= i < |PrintedServers(servers, tls)| && d == ServerLine(PrintedServers(servers, tls)[i]);
        PrintedServersHold(servers, tls, PrintedServers(servers, tls)[i]);
      }
    }
  }

  lemma ServerLinesHold(servers: seq<Server>, s: Server)
    ensures s in servers ==> ServerLine(s) in ServerLines(servers)
  {
    if s in servers {
      var i :| 0 <= i < |servers| && servers[i] == s;
      assert ServerLines(servers)[i] == ServerLine(s);
    }
  }

  // ----- The whole text -----

  predicate CleanFrontend(frontend: HAProxyFrontend, tls: BackendTLSConfig) {
    forall h :: h in frontend ==> NoSpace(h) && CleanServers(frontend[h], tls)
  }

  /** Host names, addresses and, where TLS prints them, instance ids and paths are words. */
  predicate CleanConfig(conf: HAProxyConfig, tls: BackendTLSConfig) {
    forall p :: p in conf ==> CleanFrontend(conf[p], tls)
  }

  ghost predicate CleanPort(conf: HAProxyConfig, tls: BackendTLSConfig, p: uint16)
    requires p in conf
  {
    forall s :: IsSectionOf(s, conf, tls, p) ==> CleanSection(s)
  }

  lemma CleanPortIff(conf: HAProxyConfig, tls: BackendTLSConfig, p: uint16)
    requires p in conf
    ensures CleanFrontend(conf[p], tls) <==> CleanPort(conf, tls, p)
  {
    var hostnames := SortedHostnames(conf[p]);
    FrontendClean(p, conf[p], hostnames);
    assert IsSectionOf(FrontendOf(conf, p, hostnames), conf, tls, p);
    forall h | h in conf[p]
      ensures IsSectionOf(BackendOf(conf, p, h, tls), conf, tls, p)
      ensures CleanSection(BackendOf(conf, p, h, tls)) <==> NoSpace(h) && CleanServers(conf[p][h], tls)
    {
      BackendClean(p, h, conf[p][h], tls);
    }
  }

  lemma CleanPorts(conf: HAProxyConfig, tls: BackendTLSConfig)
    ensures (forall s :: s in ConfigSections(conf, tls) ==> CleanSection(s)) <==>
            forall p :: p in conf ==> CleanPort(conf, tls, p)
  {
    forall s
      ensures s in ConfigSections(conf, tls) <==> exists p :: p in conf && IsSectionOf(s, conf, tls, p)
    {
      ConfigSectionsHold(s, conf, tls);
    }
  }

  lemma SectionsClean(conf: HAProxyConfig, tls: BackendTLSConfig)
    ensures AllClean(Flatten(ConfigSections(conf, tls))) <==> CleanConfig(conf, tls)
  {
    FlattenIsClean(ConfigSections(conf, tls));
    CleanPorts(conf, tls);
    forall p | p in conf
      ensures CleanFrontend(conf[p], tls) <==> CleanPort(conf, tls, p)
    {
      CleanPortIff(conf, tls, p);
    }
  }

  lemma SectionWellFormed(s: Section, conf: HAProxyConfig, tls: BackendTLSConfig, p: uint16)
    requires p in conf && IsSectionOf(s, conf, tls, p)
    ensures WellFormed(s)
  {
    var hostnames := SortedHostnames(conf[p]);
    FrontendWellFormed(p, conf[p], hostnames);
    if s != FrontendOf(conf, p, hostnames) {
      var h :| h in conf[p] && s == BackendOf(conf, p, h, tls);
      BackendWellFormed(p, h, conf[p][h], tls);
    }
  }

  lemma FrontendWellFormed(p: uint16, frontend: HAProxyFrontend, hostnames: seq<string>)
    ensures WellFormed(FrontendSection(p, frontend, hostnames))
  {
  }

  lemma BackendWellFormed(p: uint16, h: string, servers: HAProxyBackend, tls: BackendTLSConfig)
    ensures WellFormed(BackendSection(p, h, servers, tls))
  {
  }

  /** Parsing the printed text gives back what was printed, exactly when the configuration's
      strings are words. */
  lemma MarshalRoundTrip(conf: HAProxyConfig, tls: BackendTLSConfig)
    ensures ParseConfig(ConfigText(ConfigSections(conf, tls))) == Some(ConfigSections(conf, tls)) <==>
            CleanConfig(conf, tls)
  {
    var sections := ConfigSections(conf, tls);
    forall i | 0 <= i < |sections|
      ensures WellFormed(sections[i])
    {
      ConfigSectionsHold(sections[i], conf, tls);
      var p :| p in conf && IsSectionOf(sections[i], conf, tls, p);
      SectionWellFormed(sections[i], conf, tls, p);
    }
    ParsePrintedIff(sections);
    SectionsClean(conf, tls);
  }
}
