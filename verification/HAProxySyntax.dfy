/** The part of HAProxy's configuration language the router prints: its lines, and a
    parser that reads them back. A line is its words; blank lines mean nothing. Quoting,
    escapes and comments are not part of this subset. */
module HAProxySyntax {
  import opened RoutingModel
  import opened Text

  datatype ServerTls =
    | Plain
    | Verified(verifyHost: string, caFile: string, crt: Option<string>)

  datatype Server = Server(name: string, address: string, port: nat, tls: ServerTls)

  datatype Directive =
    | Frontend(name: string)
    | Backend(name: string)
    | ModeTcp
    | Bind(port: nat)
    | InspectDelay
    | AcceptTlsHello
    | UseBackend(name: string, sni: string)
    | DefaultBackend(name: string)
    | ServerLine(server: Server)

  predicate IsHeader(d: Directive) {
    d.Frontend? || d.Backend?
  }

  /** A header line and the lines up to the next header. */
  datatype Section = Section(header: Directive, body: seq<Directive>)

  // ----- Printing -----

  function TlsText(tls: ServerTls): string {
    match tls
    case Plain => ""
    case Verified(verifyHost, caFile, crt) =>
      " ssl verify required verifyhost " + verifyHost + " ca-file " + caFile
      + if crt.Some? then " crt " + crt.value else ""
  }

  function Endpoint(s: Server): string {
    s.address + ":" + Decimal(s.port)
  }

  function DirectiveText(d: Directive): string {
    match d
    case Frontend(name) => "frontend " + name
    case Backend(name) => "backend " + name
    case ModeTcp => "mode tcp"
    case Bind(port) => "bind :" + Decimal(port)
    case InspectDelay => "tcp-request inspect-delay 5s"
    case AcceptTlsHello => "tcp-request content accept if { req.ssl_hello_type gt 0 }"
    case UseBackend(name, sni) => "use_backend " + name + " if { req.ssl_sni " + sni + " }"
    case DefaultBackend(name) => "default_backend " + name
    case ServerLine(s) => "server " + s.name + " " + Endpoint(s) + TlsText(s.tls)
  }

  function LineText(d: Directive): string {
    if IsHeader(d) then DirectiveText(d) else "  " + DirectiveText(d)
  }

  function BodyLines(body: seq<Directive>): seq<string> {
    if body == [] then []
    else BodyLines(body[..|body| - 1]) + [LineText(body[|body| - 1])]
  }

  function SectionLines(s: Section): seq<string> {
    [LineText(s.header)] + BodyLines(s.body) + [""]
  }

  function ConfigLines(sections: seq<Section>): seq<string> {
    if sections == [] then []
    else ConfigLines(sections[..|sections| - 1]) + SectionLines(sections[|sections| - 1])
  }

  /** The text of a configuration: sections, each ended by a blank line. */
  function ConfigText(sections: seq<Section>): string {
    Render(ConfigLines(sections))
  }

  // ----- Words of a line -----

  function TlsWords(tls: ServerTls): seq<string> {
    match tls
    case Plain => []
    case Verified(verifyHost, caFile, crt) =>
      ["ssl", "verify", "required", "verifyhost", verifyHost, "ca-file", caFile]
      + if crt.Some? then ["crt", crt.value] else []
  }

  function DirectiveWords(d: Directive): seq<string> {
    match d
    case Frontend(name) => ["frontend", name]
    case Backend(name) => ["backend", name]
    case ModeTcp => ["mode", "tcp"]
    case Bind(port) => ["bind", ":" + Decimal(port)]
    case InspectDelay => ["tcp-request", "inspect-delay", "5s"]
    case AcceptTlsHello => ["tcp-request", "content", "accept", "if", "{", "req.ssl_hello_type", "gt", "0", "}"]
    case UseBackend(name, sni) => ["use_backend", name, "if", "{", "req.ssl_sni", sni, "}"]
    case DefaultBackend(name) => ["default_backend", name]
    case ServerLine(s) => ["server", s.name, Endpoint(s)] + TlsWords(s.tls)
  }

  /** Every string of the directive is a word of its own on the line. */
  predicate IsClean(d: Directive) {
    AreWords(DirectiveWords(d))
  }

  // ----- Parsing -----

  function ParseTls(words: seq<string>): Option<ServerTls> {
    if words == [] then Some(Plain)
    else if |words| == 7 && words[..4] == ["ssl", "verify", "required", "verifyhost"] && words[5] == "ca-file"
      then Some(Verified(words[4], words[6], None))
    else if |words| == 9 && words[..4] == ["ssl", "verify", "required", "verifyhost"] && words[5] == "ca-file"
            && words[7] == "crt"
      then Some(Verified(words[4], words[6], Some(words[8])))
    else None
  }

  /** address:port, cut at the last colon. */
  function ParseServer(name: string, endpoint: string, tlsWords: seq<string>): Option<Server> {
    var colon := LastIndex(endpoint, ':');
    if colon == |endpoint| then None
    else
      var port, tls := ParseDecimal(endpoint[colon + 1..]), ParseTls(tlsWords);
      if port.None? || tls.None? then None
      else Some(Server(name, endpoint[..colon], port.value, tls.value))
  }

  function ParseBind(word: string): Option<Directive> {
    if word == "" || word[0] != ':' || ParseDecimal(word[1..]).None? then None
    else Some(Bind(ParseDecimal(word[1..]).value))
  }

  function ParseWords(words: seq<string>): Option<Directive> {
    if |words| == 2 && words[0] == "frontend" then Some(Frontend(words[1]))
    else if |words| == 2 && words[0] == "backend" then Some(Backend(words[1]))
    else if words == DirectiveWords(ModeTcp) then Some(ModeTcp)
    else if |words| == 2 && words[0] == "bind" then ParseBind(words[1])
    else if words == DirectiveWords(InspectDelay) then Some(InspectDelay)
    else if words == DirectiveWords(AcceptTlsHello) then Some(AcceptTlsHello)
    else if |words| == 7 && words == DirectiveWords(UseBackend(words[1], words[5])) then
      Some(UseBackend(words[1], words[5]))
    else if |words| == 2 && words[0] == "default_backend" then Some(DefaultBackend(words[1]))
    else if |words| >= 3 && words[0] == "server" then
      var server := ParseServer(words[1], words[2], words[3..]);
      if server.Some? then Some(ServerLine(server.value)) else None
    else None
  }

  /** The directives of one line: none for a blank one. */
  function ParseLine(line: string): Option<seq<Directive>> {
    var words := Words(line);
    if words == [] then Some([])
    else
      var d := ParseWords(words);
      if d.None? then None else Some([d.value])
  }

  function ParseLines(lines: seq<string>): Option<seq<Directive>> {
    if lines == [] then Some([])
    else
      var before, last := ParseLines(lines[..|lines| - 1]), ParseLine(lines[|lines| - 1]);
      if before.None? || last.None? then None else Some(before.value + last.value)
  }

  /** Groups lines into sections; a line before the first header is an error. */
  function Sections(ds: seq<Directive>): Option<seq<Section>> {
    if ds == [] then Some([])
    else
      var n := |ds| - 1;
      var before := Sections(ds[..n]);
      if before.None? then None
      else if IsHeader(ds[n]) then Some(before.value + [Section(ds[n], [])])
      else if before.value == [] then None
      else
        var last := before.value[|before.value| - 1];
        Some(before.value[..|before.value| - 1] + [last.(body := last.body + [ds[n]])])
  }

  function ParseConfig(text: string): Option<seq<Section>> {
    var ds := ParseLines(Lines(text));
    if ds.None? then None else Sections(ds.value)
  }
}
