/** What HAProxy does with the printed configuration, and the proof that this is what the
    routing table asks for. A connection comes in on a port, with or without a server name
    (the SNI extension, section 3 of RFC 6066). */
module Meaning {
  import opened RoutingModel
  import opened Sequences
  import opened HAProxyConfigs
  import opened HAProxySyntax
  import opened Marshaller
  import opened Names

  // ----- The interpreter -----

  function First<T>(s: seq<T>, p: T -> bool): (r: Option<T>)
    ensures r.Some? ==> r.value in s && p(r.value)
  {
    if s == [] then None
    else if p(s[0]) then Some(s[0])
    else First(s[1..], p)
  }

  function ListensOn(port: uint16): Section -> bool {
    (s: Section) => s.header.Frontend? && ModeTcp in s.body && Bind(port) in s.body
  }

  function IsBackend(name: string): Section -> bool {
    (s: Section) => s.header == Backend(name) && ModeTcp in s.body
  }

  function SwitchesOn(sni: Option<string>): Directive -> bool {
    (d: Directive) => d.UseBackend? && sni == Some(d.sni)
  }

  function IsDefault(): Directive -> bool {
    (d: Directive) => d.DefaultBackend?
  }

  function ServersIn(body: seq<Directive>): seq<Server> {
    if body == [] then []
    else
      var n := |body| - 1;
      ServersIn(body[..n]) + if body[n].ServerLine? then [body[n].server] else []
  }

  /** A frontend knows the server name only if it waits for the TLS hello. */
  function SeenSni(body: seq<Directive>, sni: Option<string>): Option<string> {
    if InspectDelay in body && AcceptTlsHello in body then sni else None
  }

  /** The backend name a frontend picks: the first rule for the server name, else the
      default, else none. */
  function BackendFor(body: seq<Directive>, sni: Option<string>): Option<string> {
    var rule, default := First(body, SwitchesOn(SeenSni(body, sni))), First(body, IsDefault());
    if rule.Some? then Some(rule.value.name)
    else if default.Some? then Some(default.value.name)
    else None
  }

  /** The servers a connection can reach, or None when it is turned away. */
  function Select(sections: seq<Section>, port: uint16, sni: Option<string>): Option<seq<Server>> {
    var frontend := First(sections, ListensOn(port));
    if frontend.None? then None
    else
      var name := BackendFor(frontend.value.body, sni);
      if name.None? then None
      else
        var backend := First(sections, IsBackend(name.value));
        if backend.None? then None else Some(ServersIn(backend.value.body))
  }

  /** The same on a text. */
  function SelectByText(text: string, port: uint16, sni: Option<string>): Option<seq<Server>> {
    var sections := ParseConfig(text);
    if sections.None? then None else Select(sections.value, port, sni)
  }

  lemma {:induction false} FirstIs<T>(s: seq<T>, p: T -> bool, x: T)
    requires x in s && p(x)
    requires forall y :: y in s && p(y) ==> y == x
    ensures First(s, p) == Some(x)
  {
    if s[0] != x {
      FirstIs(s[1..], p, x);
    }
  }

  lemma {:induction false} FirstIsNone<T>(s: seq<T>, p: T -> bool)
    requires forall y :: y in s ==> !p(y)
    ensures First(s, p) == None
  {
    if s != [] {
      FirstIsNone(s[1..], p);
    }
  }

  // ----- The sections of a configuration -----

  function FrontendOf(conf: HAProxyConfig, p: uint16, hostnames: seq<string>): Section
    requires p in conf
  {
    FrontendSection(p, conf[p], hostnames)
  }

  function BackendOf(conf: HAProxyConfig, p: uint16, h: string, tls: BackendTLSConfig): Section
    requires p in conf && h in conf[p]
  {
    BackendSection(p, h, conf[p][h], tls)
  }

  ghost predicate IsSectionOf(s: Section, conf: HAProxyConfig, tls: BackendTLSConfig, p: uint16)
    requires p in conf
  {
    || s == FrontendOf(conf, p, SortedHostnames(conf[p]))
    || exists h :: h in conf[p] && s == BackendOf(conf, p, h, tls)
  }

  lemma FrontendSectionsHold(s: Section, conf: HAProxyConfig, tls: BackendTLSConfig, p: uint16)
    requires p in conf
    ensures s in FrontendSections(p, conf[p], tls) <==> IsSectionOf(s, conf, tls, p)
  {
    var hostnames := SortedHostnames(conf[p]);
    var backends := BackendSections(p, conf[p], hostnames, tls);
    if s in backends {
      var i :| 0 <= i < |backends| && s == backends[i];
      assert hostnames[i] in conf[p] && s == BackendOf(conf, p, hostnames[i], tls);
    }
    forall h | h in conf[p]
      ensures BackendOf(conf, p, h, tls) in backends
    {
      var i :| 0 <= i < |hostnames| && hostnames[i] == h;
      assert backends[i] == BackendOf(conf, p, h, tls);
    }
  }

  lemma {:induction false} SectionsOfPortsHold(s: Section, ports: seq<uint16>, conf: HAProxyConfig,
                                               tls: BackendTLSConfig)
    requires forall p :: p in ports ==> p in conf
    ensures s in SectionsOfPorts(ports, conf, tls) <==> exists p :: p in ports && s in FrontendSections(p, conf[p], tls)
  {
    if ports != [] {
      var n := |ports| - 1;
      SectionsOfPortsHold(s, ports[..n], conf, tls);
      LastOf(ports);
    }
  }

  lemma ConfigSectionsHold(s: Section, conf: HAProxyConfig, tls: BackendTLSConfig)
    ensures s in ConfigSections(conf, tls) <==> exists p :: p in conf && IsSectionOf(s, conf, tls, p)
  {
    SectionsOfPortsHold(s, SortedPorts(conf), conf, tls);
    forall p | p in conf
      ensures s in FrontendSections(p, conf[p], tls) <==> IsSectionOf(s, conf, tls, p)
    {
      FrontendSectionsHold(s, conf, tls, p);
    }
  }

  // ----- Finding a frontend, a rule and a backend -----

  lemma FrontendListensOn(p: uint16, frontend: HAProxyFrontend, hostnames: seq<string>, port: uint16)
    ensures ListensOn(port)(FrontendSection(p, frontend, hostnames)) <==> p == port
  {
    var body := FrontendSection(p, frontend, hostnames).body;
    assert body[0] == ModeTcp && body[1] == Bind(p);
  }

  lemma HeaderOfBackend(conf: HAProxyConfig, p: uint16, h: string, tls: BackendTLSConfig)
    requires p in conf && h in conf[p]
    ensures !BackendOf(conf, p, h, tls).header.Frontend?
  {
  }

  lemma OnlyFrontend(s: Section, conf: HAProxyConfig, tls: BackendTLSConfig, p: uint16, port: uint16)
    requires p in conf && IsSectionOf(s, conf, tls, p) && ListensOn(port)(s)
    ensures p == port && s == FrontendOf(conf, p, SortedHostnames(conf[p]))
  {
    forall h | h in conf[p]
      ensures s != BackendOf(conf, p, h, tls)
    {
      HeaderOfBackend(conf, p, h, tls);
    }
    FrontendListensOn(p, conf[p], SortedHostnames(conf[p]), port);
  }

  lemma FindFrontend(conf: HAProxyConfig, tls: BackendTLSConfig, port: uint16)
    ensures First(ConfigSections(conf, tls), ListensOn(port)) ==
            if port in conf then Some(FrontendOf(conf, port, SortedHostnames(conf[port]))) else None
  {
    var sections := ConfigSections(conf, tls);
    forall s | s in sections && ListensOn(port)(s)
      ensures port in conf && s == FrontendOf(conf, port, SortedHostnames(conf[port]))
    {
      ConfigSectionsHold(s, conf, tls);
      var p :| p in conf && IsSectionOf(s, conf, tls, p);
      OnlyFrontend(s, conf, tls, p, port);
    }
    if port in conf {
      var s := FrontendOf(conf, port, SortedHostnames(conf[port]));
      ConfigSectionsHold(s, conf, tls);
      FrontendListensOn(port, conf[port], SortedHostnames(conf[port]), port);
      FirstIs(sections, ListensOn(port), s);
    } else {
      FirstIsNone(sections, ListensOn(port));
    }
  }

  lemma HeaderOfFrontend(conf: HAProxyConfig, p: uint16, hostnames: seq<string>)
    requires p in conf
    ensures FrontendOf(conf, p, hostnames).header.Frontend?
  {
  }

  lemma OnlyBackend(s: Section, conf: HAProxyConfig, tls: BackendTLSConfig, q: uint16, p: uint16, h: string)
    requires q in conf && IsSectionOf(s, conf, tls, q) && s.header == Backend(BackendName(p, h))
    ensures p in conf && h in conf[p] && s == BackendOf(conf, p, h, tls)
  {
    HeaderOfFrontend(conf, q, SortedHostnames(conf[q]));
    var g :| g in conf[q] && s == BackendOf(conf, q, g, tls);
    BackendNameInjective(p, h, q, g);
  }

  lemma FindBackend(conf: HAProxyConfig, tls: BackendTLSConfig, p: uint16, h: string)
    ensures First(ConfigSections(conf, tls), IsBackend(BackendName(p, h))) ==
            if p in conf && h in conf[p] then Some(BackendOf(conf, p, h, tls)) else None
  {
    var sections := ConfigSections(conf, tls);
    forall s | s in sections && IsBackend(BackendName(p, h))(s)
      ensures p in conf && h in conf[p] && s == BackendOf(conf, p, h, tls)
    {
      ConfigSectionsHold(s, conf, tls);
      var q :| q in conf && IsSectionOf(s, conf, tls, q);
      OnlyBackend(s, conf, tls, q, p, h);
    }
    if p in conf && h in conf[p] {
      ConfigSectionsHold(BackendOf(conf, p, h, tls), conf, tls);
      assert BackendOf(conf, p, h, tls).body[0] == ModeTcp;
      FirstIs(sections, IsBackend(BackendName(p, h)), BackendOf(conf, p, h, tls));
    } else {
      FirstIsNone(sections, IsBackend(BackendName(p, h)));
    }
  }

  lemma RulesHold(p: uint16, hostnames: seq<string>, d: Directive)
    ensures d in Rules(p, hostnames) <==> exists h :: h in hostnames && d == Rule(p, h)
  {
    var rules := Rules(p, hostnames);
    if d in rules {
      var i :| 0 <= i < |rules| && rules[i] == d;
      assert hostnames[i] in hostnames && d == Rule(p, hostnames[i]);
    }
    if h :| h in hostnames && d == Rule(p, h) {
      var i :| 0 <= i < |hostnames| && hostnames[i] == h;
      assert rules[i] == d;
    }
  }

  ghost function FrontendBody(conf: HAProxyConfig, p: uint16): seq<Directive>
    requires p in conf
  {
    FrontendOf(conf, p, SortedHostnames(conf[p])).body
  }

  lemma FrontendBodyHolds(conf: HAProxyConfig, p: uint16, d: Directive)
    requires p in conf
    ensures d in FrontendBody(conf, p) <==>
            d in FrontendHead(p, conf[p]) || exists h :: h in conf[p] && d == Rule(p, h)
  {
    RulesHold(p, SortedHostnames(conf[p]), d);
  }

  lemma SniIsSeen(conf: HAProxyConfig, p: uint16, sni: Option<string>)
    requires p in conf
    ensures SeenSni(FrontendBody(conf, p), sni) == if ContainsSNI(conf[p]) then sni else None
  {
    FrontendBodyHolds(conf, p, InspectDelay);
    FrontendBodyHolds(conf, p, AcceptTlsHello);
  }

  lemma FindRule(conf: HAProxyConfig, p: uint16, sni: Option<string>)
    requires p in conf
    ensures First(FrontendBody(conf, p), SwitchesOn(sni)) ==
            if sni.Some? && sni.value != "" && sni.value in conf[p]
            then Some(UseBackend(BackendName(p, sni.value), sni.value)) else None
  {
    var body := FrontendBody(conf, p);
    forall d | d in body && SwitchesOn(sni)(d)
      ensures sni.Some? && sni.value != "" && sni.value in conf[p]
      ensures sni.Some? ==> d == UseBackend(BackendName(p, sni.value), sni.value)
    {
      FrontendBodyHolds(conf, p, d);
    }
    if sni.Some? && sni.value != "" && sni.value in conf[p] {
      var d := UseBackend(BackendName(p, sni.value), sni.value);
      assert d == Rule(p, sni.value);
      FrontendBodyHolds(conf, p, d);
      FirstIs(body, SwitchesOn(sni), d);
    } else {
      FirstIsNone(body, SwitchesOn(sni));
    }
  }

  lemma FindDefault(conf: HAProxyConfig, p: uint16)
    requires p in conf
    ensures First(FrontendBody(conf, p), IsDefault()) ==
            if "" in conf[p] then Some(DefaultBackend(BackendName(p, ""))) else None
  {
    var body := FrontendBody(conf, p);
    forall d | d in body && IsDefault()(d)
      ensures "" in conf[p] && d == DefaultBackend(BackendName(p, ""))
    {
      FrontendBodyHolds(conf, p, d);
    }
    if "" in conf[p] {
      var d := DefaultBackend(BackendName(p, ""));
      assert d == Rule(p, "");
      FrontendBodyHolds(conf, p, d);
      FirstIs(body, IsDefault(), d);
    } else {
      FirstIsNone(body, IsDefault());
    }
  }

  // ----- Meaning of a configuration -----

  /** The host name under which a configuration answers a connection. */
  function HostFor(conf: HAProxyConfig, port: uint16, sni: Option<string>): Option<string> {
    if port !in conf then None
    else if sni.Some? && sni.value in conf[port] then sni
    else if "" in conf[port] then Some("")
    else None
  }

  lemma BackendForHost(conf: HAProxyConfig, port: uint16, sni: Option<string>)
    requires port in conf
    ensures var host := HostFor(conf, port, sni);
            BackendFor(FrontendBody(conf, port), sni) ==
            if host.Some? then Some(BackendName(port, host.value)) else None
  {
    var seen := if ContainsSNI(conf[port]) then sni else None;
    SniIsSeen(conf, port, sni);
    FindRule(conf, port, seen);
    FindDefault(conf, port);
  }

  lemma {:induction false} ServersOfLines(servers: seq<Server>)
    ensures ServersIn([ModeTcp] + ServerLines(servers)) == servers
  {
    var body := [ModeTcp] + ServerLines(servers);
    if servers == [] {
      assert body[..0] == [] && body[0] == ModeTcp;
    } else {
      var n := |servers| - 1;
      ServersOfLines(servers[..n]);
      assert body[..n + 1] == [ModeTcp] + ServerLines(servers[..n]);
      assert servers == servers[..n] + [servers[n]];
    }
  }

  /** Printing keeps the meaning of a configuration: each connection reaches exactly the
      printed servers of its host name, or of the default route. */
  lemma SelectIsLookup(conf: HAProxyConfig, tls: BackendTLSConfig, port: uint16, sni: Option<string>)
    ensures var host := HostFor(conf, port, sni);
            Select(ConfigSections(conf, tls), port, sni) ==
            if host.Some? then Some(PrintedServers(conf[port][host.value], tls)) else None
  {
    FindFrontend(conf, tls, port);
    if port in conf {
      BackendForHost(conf, port, sni);
      var host := HostFor(conf, port, sni);
      if host.Some? {
        FindBackend(conf, tls, port, host.value);
        ServersOfLines(PrintedServers(conf[port][host.value], tls));
      }
    }
  }
}
