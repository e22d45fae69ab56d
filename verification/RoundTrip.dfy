/** Parsing what was printed gives back what was meant, exactly when every string that
    comes from outside is a single word. */
module RoundTrip {
  import opened RoutingModel
  import opened Text
  import opened HAProxySyntax
  import opened Sequences

  // ----- One line -----

  lemma TwoWords(a: string, b: string)
    requires IsWord(a) && IsWord(b)
    ensures Words(a + " " + b) == [a, b]
  {
    WordsOfWord(a);
    WordsOfWord(b);
    WordsConcat(a, b);
  }

  lemma ThreeWords(a: string, b: string, c: string)
    requires IsWord(a) && IsWord(b) && IsWord(c)
    ensures Words(a + " " + b + " " + c) == [a, b, c]
  {
    TwoWords(a, b);
    WordsOfWord(c);
    WordsConcat(a + " " + b, c);
  }

  // In what follows the fixed words of a line come in as parameters, and the lemmas about
  // the fixed texts say nothing about words, so that the verifier does not compute with
  // long literals.

  lemma HeaderWords(d: Directive)
    requires IsHeader(d) && IsClean(d)
    ensures Words(DirectiveText(d)) == DirectiveWords(d)
  {
    var keyword := if d.Frontend? then "frontend" else "backend";
    assert d.name == DirectiveWords(d)[1] && keyword == DirectiveWords(d)[0];
    assert DirectiveText(d) == keyword + " " + d.name;
    TwoWords(keyword, d.name);
  }

  lemma ModeTcpWords(s: string, a: string, b: string)
    requires s == "mode tcp" && a == "mode" && b == "tcp"
    ensures Words(s) == [a, b]
  {
    assert s == a + " " + b;
    TwoWords(a, b);
  }

  lemma BindWords(s: string, keyword: string, port: nat)
    requires s == "bind :" + Decimal(port) && keyword == "bind"
    ensures Words(s) == [keyword, ":" + Decimal(port)]
  {
    DecimalIsWord(port);
    assert s == keyword + " " + (":" + Decimal(port));
    TwoWords(keyword, ":" + Decimal(port));
  }

  lemma DefaultBackendWords(s: string, keyword: string, name: string)
    requires s == "default_backend " + name && keyword == "default_backend" && IsWord(name)
    ensures Words(s) == [keyword, name]
  {
    assert s == keyword + " " + name;
    TwoWords(keyword, name);
  }

  // tcp-request inspect-delay 5s

  lemma InspectDelayTexts(a: string, b: string, c: string)
    requires a == "tcp-request" && b == "inspect-delay" && c == "5s"
    ensures IsWord(a) && IsWord(b) && IsWord(c)
  {
  }

  lemma InspectDelayText(s: string, a: string, b: string, c: string)
    requires s == "tcp-request inspect-delay 5s"
    requires a == "tcp-request" && b == "inspect-delay" && c == "5s"
    ensures s == a + " " + b + " " + c
  {
  }

  lemma InspectDelayWords(s: string, a: string, b: string, c: string)
    requires s == "tcp-request inspect-delay 5s"
    requires a == "tcp-request" && b == "inspect-delay" && c == "5s"
    ensures Words(s) == [a, b, c]
  {
    InspectDelayText(s, a, b, c);
    InspectDelayTexts(a, b, c);
    ThreeWords(a, b, c);
  }

  // tcp-request content accept if { req.ssl_hello_type gt 0 }

  lemma AcceptWordTexts(a: string, b: string, c: string)
    requires a == "tcp-request" && b == "content" && c == "accept"
    ensures IsWord(a) && IsWord(b) && IsWord(c)
    ensures "tcp-request content accept" == a + " " + b + " " + c
  {
  }

  lemma HelloConditionTexts(a: string, b: string, c: string)
    requires a == "if" && b == "{" && c == "req.ssl_hello_type"
    ensures IsWord(a) && IsWord(b) && IsWord(c)
    ensures "if { req.ssl_hello_type" == a + " " + b + " " + c
  {
  }

  lemma HelloValueTexts(a: string, b: string, c: string)
    requires a == "gt" && b == "0" && c == "}"
    ensures IsWord(a) && IsWord(b) && IsWord(c)
    ensures "gt 0 }" == a + " " + b + " " + c
  {
  }

  lemma AcceptText(s: string, a: string, b: string, c: string)
    requires s == "tcp-request content accept if { req.ssl_hello_type gt 0 }"
    requires a == "tcp-request content accept" && b == "if { req.ssl_hello_type" && c == "gt 0 }"
    ensures s == a + " " + b + " " + c
  {
  }

  lemma AcceptTlsHelloWords(s: string, a0: string, a1: string, a2: string, b0: string, b1: string, b2: string,
                            c0: string, c1: string, c2: string)
    requires s == "tcp-request content accept if { req.ssl_hello_type gt 0 }"
    requires a0 == "tcp-request" && a1 == "content" && a2 == "accept"
    requires b0 == "if" && b1 == "{" && b2 == "req.ssl_hello_type"
    requires c0 == "gt" && c1 == "0" && c2 == "}"
    ensures Words(s) == [a0, a1, a2] + [b0, b1, b2] + [c0, c1, c2]
  {
    var a, b, c := a0 + " " + a1 + " " + a2, b0 + " " + b1 + " " + b2, c0 + " " + c1 + " " + c2;
    AcceptWordTexts(a0, a1, a2);
    HelloConditionTexts(b0, b1, b2);
    HelloValueTexts(c0, c1, c2);
    AcceptText(s, a, b, c);
    WordsConcat3(a, b, c);
    ThreeWords(a0, a1, a2);
    ThreeWords(b0, b1, b2);
    ThreeWords(c0, c1, c2);
  }

  // use_backend NAME if { req.ssl_sni SNI }

  lemma UseBackendShape(use: string, name: string, condition: string, sni: string, end: string)
    requires IsWord(use) && IsWord(name) && IsWord(sni) && IsWord(end)
    ensures Words(use + " " + name + (" " + condition + " ") + sni + (" " + end)) == [use, name] + Words(condition) + [sni, end]
  {
    var first := use + " " + name;
    WordsAfter(first + (" " + condition + " ") + sni, end);
    WordsAround(first, condition, sni);
    TwoWords(use, name);
    WordsOfWord(sni);
    WordsOfWord(end);
  }

  lemma UseBackendTexts(use: string, a: string, b: string, c: string, condition: string, end: string)
    requires use == "use_backend" && a == "if" && b == "{" && c == "req.ssl_sni" && end == "}"
    requires condition == a + " " + b + " " + c
    ensures IsWord(use) && IsWord(a) && IsWord(b) && IsWord(c) && IsWord(end)
    ensures "use_backend " == use + " "
    ensures " if { req.ssl_sni " == " " + condition + " "
    ensures " }" == " " + end
  {
  }

  lemma UseBackendWords(s: string, name: string, sni: string, use: string, a: string, b: string, c: string, end: string)
    requires use == "use_backend" && a == "if" && b == "{" && c == "req.ssl_sni" && end == "}"
    requires s == "use_backend " + name + " if { req.ssl_sni " + sni + " }"
    requires IsWord(name) && IsWord(sni)
    ensures Words(s) == [use, name, a, b, c, sni, end]
  {
    var condition := a + " " + b + " " + c;
    UseBackendTexts(use, a, b, c, condition, end);
    UseBackendShape(use, name, condition, sni, end);
    ThreeWords(a, b, c);
  }

  // server NAME ADDRESS:PORT, and what follows with TLS

  lemma TlsKeywordsAreWords(a: string, b: string, c: string, d: string)
    requires a == "ssl" && b == "verify" && c == "required" && d == "verifyhost"
    ensures IsWord(a) && IsWord(b) && IsWord(c) && IsWord(d)
  {
  }

  lemma TlsKeywordsText(keywords: string, a: string, b: string, c: string, d: string)
    requires keywords == "ssl verify required verifyhost"
    requires a == "ssl" && b == "verify" && c == "required" && d == "verifyhost"
    ensures keywords == a + " " + b + " " + c + " " + d
  {
  }

  lemma TlsOptionTexts(keywords: string, caFile: string, crt: string)
    requires keywords == "ssl verify required verifyhost" && caFile == "ca-file" && crt == "crt"
    ensures IsWord(caFile) && IsWord(crt)
    ensures " ssl verify required verifyhost " == " " + keywords + " "
    ensures " ca-file " == " " + caFile + " " && " crt " == " " + crt + " "
  {
  }

  lemma TlsKeywordWords(keywords: string)
    requires keywords == "ssl verify required verifyhost"
    ensures Words(keywords) == ["ssl", "verify", "required", "verifyhost"]
  {
    var a, b, c, d := "ssl", "verify", "required", "verifyhost";
    TlsKeywordsAreWords(a, b, c, d);
    TlsKeywordsText(keywords, a, b, c, d);
    ThreeWords(a, b, c);
    WordsOfWord(d);
    WordsConcat(a + " " + b + " " + c, d);
  }

  /** front stands for the line before the TLS part. */
  lemma VerifiedShape(front: string, keywords: string, host: string, caFile: string, ca: string)
    requires IsWord(host) && IsWord(caFile) && IsWord(ca)
    ensures Words(front + (" " + keywords + " ") + host + (" " + caFile + " ") + ca)
         == Words(front) + Words(keywords) + [host, caFile, ca]
  {
    var t := front + (" " + keywords + " ") + host;
    WordsAround(front, keywords, host);
    WordsAround(t, caFile, ca);
    WordsOfWord(host);
    WordsOfWord(caFile);
    WordsOfWord(ca);
  }

  lemma OptionShape(front: string, option: string, value: string)
    requires IsWord(option) && IsWord(value)
    ensures Words(front + (" " + option + " ") + value) == Words(front) + [option, value]
  {
    WordsAround(front, option, value);
    WordsOfWord(option);
    WordsOfWord(value);
  }

  lemma VerifiedText(front: string, tls: ServerTls, keywords: string, caFile: string, crt: string)
    requires tls.Verified?
    requires " ssl verify required verifyhost " == " " + keywords + " "
    requires " ca-file " == " " + caFile + " " && " crt " == " " + crt + " "
    ensures var text := front + (" " + keywords + " ") + tls.verifyHost + (" " + caFile + " ") + tls.caFile;
            front + TlsText(tls) == if tls.crt.Some? then text + (" " + crt + " ") + tls.crt.value else text
  {
  }

  lemma VerifiedWords(front: string, tls: ServerTls, keywords: string, caFile: string, crt: string)
    requires keywords == "ssl verify required verifyhost" && caFile == "ca-file" && crt == "crt"
    requires tls.Verified? && IsWord(tls.verifyHost) && IsWord(tls.caFile) && (tls.crt.Some? ==> IsWord(tls.crt.value))
    ensures var words := Words(front) + Words(keywords) + [tls.verifyHost, caFile, tls.caFile];
            Words(front + TlsText(tls)) == if tls.crt.Some? then words + [crt, tls.crt.value] else words
  {
    TlsOptionTexts(keywords, caFile, crt);
    VerifiedText(front, tls, keywords, caFile, crt);
    VerifiedShape(front, keywords, tls.verifyHost, caFile, tls.caFile);
    if tls.crt.Some? {
      OptionShape(front + (" " + keywords + " ") + tls.verifyHost + (" " + caFile + " ") + tls.caFile, crt, tls.crt.value);
    }
  }

  lemma ServerFrontWords(s: Server, keyword: string)
    requires IsWord(s.name) && NoSpace(s.address) && keyword == "server"
    ensures IsWord(Endpoint(s))
    ensures Words("server " + s.name + " " + Endpoint(s)) == [keyword, s.name, Endpoint(s)]
  {
    DecimalIsWord(s.port);
    assert "server " == keyword + " ";
    ThreeWords(keyword, s.name, Endpoint(s));
  }

  lemma EndpointClean(s: Server)
    ensures NoSpace(Endpoint(s)) ==> NoSpace(s.address)
  {
    assert forall i :: 0 <= i < |s.address| ==> Endpoint(s)[i] == s.address[i];
  }

  lemma TlsTextWords(front: string, tls: ServerTls)
    requires tls.Verified? && IsWord(tls.verifyHost) && IsWord(tls.caFile) && (tls.crt.Some? ==> IsWord(tls.crt.value))
    ensures Words(front + TlsText(tls)) == Words(front) + TlsWords(tls)
  {
    var keywords, caFile, crt := "ssl verify required verifyhost", "ca-file", "crt";
    VerifiedWords(front, tls, keywords, caFile, crt);
    TlsKeywordWords(keywords);
    TlsWordsSplit(Words(front), tls, caFile, crt);
  }

  lemma TlsWordsSplit(front: seq<string>, tls: ServerTls, caFile: string, crt: string)
    requires tls.Verified? && caFile == "ca-file" && crt == "crt"
    ensures var words := front + ["ssl", "verify", "required", "verifyhost"] + [tls.verifyHost, caFile, tls.caFile];
            front + TlsWords(tls) == if tls.crt.Some? then words + [crt, tls.crt.value] else words
  {
  }

  lemma ServerLineWords(s: Server)
    requires IsClean(ServerLine(s))
    ensures Words(DirectiveText(ServerLine(s))) == DirectiveWords(ServerLine(s))
  {
    var words := DirectiveWords(ServerLine(s));
    var front, keyword := "server " + s.name + " " + Endpoint(s), "server";
    assert words[1] == s.name && words[2] == Endpoint(s);
    EndpointClean(s);
    ServerFrontWords(s, keyword);
    if s.tls.Plain? {
      assert front + "" == front;
    } else {
      VerifiedPartClean(s);
      TlsTextWords(front, s.tls);
    }
  }

  lemma VerifiedPartClean(s: Server)
    requires IsClean(ServerLine(s)) && s.tls.Verified?
    ensures IsWord(s.tls.verifyHost) && IsWord(s.tls.caFile) && (s.tls.crt.Some? ==> IsWord(s.tls.crt.value))
  {
    var words := DirectiveWords(ServerLine(s));
    assert words[3..] == TlsWords(s.tls);
    assert words[7] == s.tls.verifyHost && words[9] == s.tls.caFile;
    assert s.tls.crt.Some? ==> words[11] == s.tls.crt.value;
  }

  /** A clean directive is printed as its words. */
  lemma PrintedWords(d: Directive)
    requires IsClean(d)
    ensures Words(LineText(d)) == DirectiveWords(d)
  {
    WordsOfIndented(DirectiveText(d));
    if IsHeader(d) {
      HeaderWords(d);
    } else if d.ServerLine? {
      ServerLineWords(d.server);
    } else if d.UseBackend? {
      assert DirectiveWords(d)[1] == d.name && DirectiveWords(d)[5] == d.sni;
      UseBackendWords(DirectiveText(d), d.name, d.sni, "use_backend", "if", "{", "req.ssl_sni", "}");
    } else {
      FixedLineWords(d);
    }
  }

  lemma FixedLineWords(d: Directive)
    requires d.ModeTcp? || d.Bind? || d.InspectDelay? || d.AcceptTlsHello? || (d.DefaultBackend? && IsClean(d))
    ensures Words(DirectiveText(d)) == DirectiveWords(d)
  {
    match d
    case ModeTcp => ModeTcpWords(DirectiveText(d), "mode", "tcp");
    case Bind(port) => BindWords(DirectiveText(d), "bind", port);
    case InspectDelay => InspectDelayWords(DirectiveText(d), "tcp-request", "inspect-delay", "5s");
    case AcceptTlsHello =>
      AcceptTlsHelloWords(DirectiveText(d), "tcp-request", "content", "accept",
                          "if", "{", "req.ssl_hello_type", "gt", "0", "}");
    case DefaultBackend(name) =>
      assert DirectiveWords(d)[1] == name;
      DefaultBackendWords(DirectiveText(d), "default_backend", name);
  }

  // ----- Words back to a directive -----

  lemma ServerParses(s: Server, port: string)
    requires port == Decimal(s.port)
    ensures ParseServer(s.name, Endpoint(s), TlsWords(s.tls)) == Some(s)
  {
    DecimalRoundTrip(s.port);
    LastIndexIs(s.address, ':', port);
    assert Endpoint(s) == s.address + [':'] + port;
    assert Endpoint(s)[|s.address| + 1..] == port && Endpoint(s)[..|s.address|] == s.address;
    TlsParses(s.tls);
  }

  lemma TlsParses(tls: ServerTls)
    ensures ParseTls(TlsWords(tls)) == Some(tls)
  {
    if tls.Verified? {
      assert TlsWords(tls)[..4] == ["ssl", "verify", "required", "verifyhost"];
    }
  }

  lemma BindParses(port: nat)
    ensures ParseBind(":" + Decimal(port)) == Some(Bind(port))
  {
    DecimalRoundTrip(port);
    assert (":" + Decimal(port))[1..] == Decimal(port);
  }

  lemma WordsParse(d: Directive)
    ensures ParseWords(DirectiveWords(d)) == Some(d)
  {
    if d.ServerLine? {
      assert DirectiveWords(d)[3..] == TlsWords(d.server.tls);
      ServerParses(d.server, Decimal(d.server.port));
    } else if d.Bind? {
      BindParses(d.port);
    }
  }

  // ----- A whole text -----

  predicate AllClean(ds: seq<Directive>) {
    forall i :: 0 <= i < |ds| ==> IsClean(ds[i])
  }

  function Flatten(sections: seq<Section>): seq<Directive> {
    if sections == [] then []
    else
      var last := sections[|sections| - 1];
      Flatten(sections[..|sections| - 1]) + [last.header] + last.body
  }

  predicate WellFormed(s: Section) {
    IsHeader(s.header) && forall i :: 0 <= i < |s.body| ==> !IsHeader(s.body[i])
  }

  ghost predicate Reads(lines: seq<string>, ds: seq<Directive>) {
    ParseLines(lines) == Some(ds)
  }

  lemma ReadsSnoc(lines: seq<string>, ds: seq<Directive>, line: string, more: seq<Directive>)
    requires Reads(lines, ds) && ParseLine(line) == Some(more)
    ensures Reads(lines + [line], ds + more)
  {
    assert (lines + [line])[..|lines|] == lines;
  }

  lemma LineParses(d: Directive)
    requires IsClean(d)
    ensures ParseLine(LineText(d)) == Some([d])
  {
    PrintedWords(d);
    WordsParse(d);
  }

  lemma {:induction false} BodyReads(front: seq<string>, ds: seq<Directive>, body: seq<Directive>)
    requires AllClean(body) && Reads(front, ds)
    ensures Reads(front + BodyLines(body), ds + body)
    decreases |body|, 0
  {
    if body == [] {
      assert front + BodyLines(body) == front && ds + body == ds;
    } else {
      BodyReadsNext(front, ds, body[..|body| - 1], body[|body| - 1]);
      SplitLast(body);
    }
  }

  lemma BodyReadsNext(front: seq<string>, ds: seq<Directive>, body: seq<Directive>, d: Directive)
    requires AllClean(body) && IsClean(d) && Reads(front, ds)
    ensures Reads(front + BodyLines(body + [d]), ds + (body + [d]))
    decreases |body|, 1
  {
    var line := LineText(d);
    BodyReads(front, ds, body);
    LineParses(d);
    ReadsSnoc(front + BodyLines(body), ds + body, line, [d]);
    Assoc(front, BodyLines(body), [line]);
    Assoc(ds, body, [d]);
    assert (body + [d])[..|body|] == body;
  }

  lemma BlankLineParses(line: string)
    requires line == ""
    ensures ParseLine(line) == Some([])
  {
  }

  lemma SectionReads(front: seq<string>, ds: seq<Directive>, s: Section)
    requires IsClean(s.header) && AllClean(s.body) && Reads(front, ds)
    ensures Reads(front + SectionLines(s), ds + [s.header] + s.body)
  {
    var headed, blank := front + [LineText(s.header)], "";
    LineParses(s.header);
    ReadsSnoc(front, ds, LineText(s.header), [s.header]);
    BodyReads(headed, ds + [s.header], s.body);
    BlankLineParses(blank);
    ReadsSnoc(headed + BodyLines(s.body), ds + [s.header] + s.body, blank, []);
    AssocFour(front, [LineText(s.header)], BodyLines(s.body), [blank]);
    assert ds + [s.header] + s.body + [] == ds + [s.header] + s.body;
  }

  lemma AssocFour<T>(a: seq<T>, b: seq<T>, c: seq<T>, d: seq<T>)
    ensures a + (b + c + d) == a + b + c + d
  {
  }

  lemma {:induction false} ConfigReads(front: seq<string>, sections: seq<Section>)
    requires AllClean(Flatten(sections)) && Reads(front, [])
    ensures Reads(front + ConfigLines(sections), Flatten(sections))
  {
    if sections == [] {
      assert front + [] == front;
    } else {
      var n := |sections| - 1;
      var before := Flatten(sections[..n]);
      FlattenClean(before, sections[n], Flatten(sections));
      ConfigReads(front, sections[..n]);
      SectionReads(front + ConfigLines(sections[..n]), before, sections[n]);
      Assoc(front, ConfigLines(sections[..n]), SectionLines(sections[n]));
    }
  }

  lemma AllCleanConcat(a: seq<Directive>, b: seq<Directive>)
    ensures AllClean(a + b) <==> AllClean(a) && AllClean(b)
  {
    assert forall i :: 0 <= i < |a| ==> (a + b)[i] == a[i];
    assert forall i :: 0 <= i < |b| ==> (a + b)[|a| + i] == b[i];
  }

  lemma FlattenClean(before: seq<Directive>, s: Section, all: seq<Directive>)
    requires all == before + [s.header] + s.body && AllClean(all)
    ensures AllClean(before) && IsClean(s.header) && AllClean(s.body)
  {
    AllCleanConcat(before + [s.header], s.body);
    AllCleanConcat(before, [s.header]);
    assert IsClean([s.header][0]);
  }

  lemma SectionsHeader(ds: seq<Directive>, d: Directive)
    requires Sections(ds).Some? && IsHeader(d)
    ensures Sections(ds + [d]) == Some(Sections(ds).value + [Section(d, [])])
  {
    assert (ds + [d])[..|ds|] == ds;
  }

  lemma SectionsLine(ds: seq<Directive>, d: Directive)
    requires Sections(ds).Some? && Sections(ds).value != [] && !IsHeader(d)
    ensures var before := Sections(ds).value;
            var last := before[|before| - 1];
            Sections(ds + [d]) == Some(before[..|before| - 1] + [last.(body := last.body + [d])])
  {
    assert (ds + [d])[..|ds|] == ds;
  }

  lemma {:induction false} SectionsGrow(ds: seq<Directive>, s: Section, n: nat)
    requires WellFormed(s) && n <= |s.body| && Sections(ds).Some?
    ensures Grown(ds, s.header, s.body[..n])
  {
    if n == 0 {
      assert ds + [s.header] + s.body[..0] == ds + [s.header];
      SectionsHeader(ds, s.header);
    } else {
      SectionsGrow(ds, s, n - 1);
      GrownByLine(ds, s.header, s.body[..n - 1], s.body[n - 1]);
      assert s.body[..n] == s.body[..n - 1] + [s.body[n - 1]];
    }
  }

  /** A header and lines after ds are one more section. */
  ghost predicate Grown(ds: seq<Directive>, header: Directive, body: seq<Directive>)
    requires Sections(ds).Some?
  {
    Sections(ds + [header] + body) == Some(Sections(ds).value + [Section(header, body)])
  }

  lemma GrownByLine(ds: seq<Directive>, header: Directive, body: seq<Directive>, d: Directive)
    requires Sections(ds).Some? && Grown(ds, header, body) && !IsHeader(d)
    ensures Grown(ds, header, body + [d])
  {
    SectionsLine(ds + [header] + body, d);
    AppendAssoc(ds + [header], body, d);
  }

  lemma {:induction false} FlattenSections(sections: seq<Section>)
    requires forall i :: 0 <= i < |sections| ==> WellFormed(sections[i])
    ensures Sections(Flatten(sections)) == Some(sections)
  {
    if sections != [] {
      var n := |sections| - 1;
      var last := sections[n];
      FlattenSections(sections[..n]);
      SectionsGrow(Flatten(sections[..n]), last, |last.body|);
      assert last.body[..|last.body|] == last.body;
      assert sections == sections[..n] + [last];
    }
  }

  // ----- No newline inside a line -----

  predicate AreOneLine(lines: seq<string>) {
    forall i :: 0 <= i < |lines| ==> OneLine(lines[i])
  }

  lemma OneLineConcat(a: string, b: string)
    requires OneLine(a) && OneLine(b)
    ensures OneLine(a + b)
  {
  }

  lemma ServerOneLine(s: Server)
    requires IsClean(ServerLine(s))
    ensures OneLine(DirectiveText(ServerLine(s)))
  {
    var words := DirectiveWords(ServerLine(s));
    var front, server := "server " + s.name + " " + Endpoint(s), "server ";
    assert words[1] == s.name && words[2] == Endpoint(s);
    OneLineConcat(server, s.name);
    OneLineConcat(server + s.name, " ");
    OneLineConcat(server + s.name + " ", Endpoint(s));
    if s.tls.Verified? {
      VerifiedPartClean(s);
      TlsOneLine(s.tls);
    }
    OneLineConcat(front, TlsText(s.tls));
  }

  lemma TlsOneLine(tls: ServerTls)
    requires tls.Verified? && IsWord(tls.verifyHost) && IsWord(tls.caFile) && (tls.crt.Some? ==> IsWord(tls.crt.value))
    ensures OneLine(TlsText(tls))
  {
    var keywords, caFile, crt := " ssl verify required verifyhost ", " ca-file ", " crt ";
    var t := keywords + tls.verifyHost + caFile + tls.caFile;
    OneLineConcat(keywords, tls.verifyHost);
    OneLineConcat(keywords + tls.verifyHost, caFile);
    OneLineConcat(keywords + tls.verifyHost + caFile, tls.caFile);
    if tls.crt.Some? {
      OneLineConcat(crt, tls.crt.value);
      OneLineConcat(t, crt + tls.crt.value);
    } else {
      OneLineConcat(t, "");
    }
  }

  lemma UseBackendOneLine(d: Directive)
    requires d.UseBackend? && IsClean(d)
    ensures OneLine(DirectiveText(d))
  {
    var words, use, condition, end := DirectiveWords(d), "use_backend ", " if { req.ssl_sni ", " }";
    assert words[1] == d.name && words[5] == d.sni;
    OneLineConcat(use, d.name);
    OneLineConcat(use + d.name, condition);
    OneLineConcat(use + d.name + condition, d.sni);
    OneLineConcat(use + d.name + condition + d.sni, end);
  }

  lemma NamedOneLine(d: Directive)
    requires (d.Frontend? || d.Backend? || d.DefaultBackend?) && IsClean(d)
    ensures OneLine(DirectiveText(d))
  {
    var keyword := if d.Frontend? then "frontend " else if d.Backend? then "backend " else "default_backend ";
    assert DirectiveWords(d)[1] == d.name;
    OneLineConcat(keyword, d.name);
  }

  lemma AcceptOneLine(s: string)
    requires s == "tcp-request content accept if { req.ssl_hello_type gt 0 }"
    ensures OneLine(s)
  {
    var a, b, c := "tcp-request content accept", "if { req.ssl_hello_type", "gt 0 }";
    AcceptText(s, a, b, c);
    OneLineConcat(a, " ");
    OneLineConcat(a + " ", b);
    OneLineConcat(a + " " + b, " ");
    OneLineConcat(a + " " + b + " ", c);
  }

  lemma BindOneLine(port: nat)
    ensures OneLine(DirectiveText(Bind(port)))
  {
    var bind := "bind :";
    DecimalIsWord(port);
    OneLineConcat(bind, Decimal(port));
  }

  lemma FixedOneLine(d: Directive)
    requires d.ModeTcp? || d.Bind? || d.InspectDelay? || d.AcceptTlsHello?
    ensures OneLine(DirectiveText(d))
  {
    if d.Bind? {
      BindOneLine(d.port);
    } else if d.AcceptTlsHello? {
      AcceptOneLine(DirectiveText(d));
    }
  }

  lemma CleanOneLine(d: Directive)
    requires IsClean(d)
    ensures OneLine(LineText(d))
  {
    var text, indent := DirectiveText(d), "  ";
    if d.ServerLine? {
      ServerOneLine(d.server);
    } else if d.UseBackend? {
      UseBackendOneLine(d);
    } else if d.Frontend? || d.Backend? || d.DefaultBackend? {
      NamedOneLine(d);
    } else {
      FixedOneLine(d);
    }
    OneLineConcat(indent, text);
  }

  lemma AreOneLineConcat(a: seq<string>, b: seq<string>)
    requires AreOneLine(a) && AreOneLine(b)
    ensures AreOneLine(a + b)
  {
  }

  lemma {:induction false} BodyOneLine(body: seq<Directive>)
    requires AllClean(body)
    ensures AreOneLine(BodyLines(body))
  {
    if body != [] {
      var n := |body| - 1;
      var line := LineText(body[n]);
      BodyOneLine(body[..n]);
      CleanOneLine(body[n]);
      AreOneLineConcat(BodyLines(body[..n]), [line]);
    }
  }

  lemma SectionOneLine(s: Section)
    requires IsClean(s.header) && AllClean(s.body)
    ensures AreOneLine(SectionLines(s))
  {
    var line, blank := LineText(s.header), "";
    CleanOneLine(s.header);
    BodyOneLine(s.body);
    AreOneLineConcat([line], BodyLines(s.body));
    AreOneLineConcat([line] + BodyLines(s.body), [blank]);
  }

  lemma {:induction false} ConfigOneLine(sections: seq<Section>)
    requires AllClean(Flatten(sections))
    ensures AreOneLine(ConfigLines(sections))
  {
    if sections != [] {
      var n := |sections| - 1;
      FlattenClean(Flatten(sections[..n]), sections[n], Flatten(sections));
      ConfigOneLine(sections[..n]);
      SectionOneLine(sections[n]);
      AreOneLineConcat(ConfigLines(sections[..n]), SectionLines(sections[n]));
    }
  }

  // ----- What the parser yields is clean -----

  lemma ServerParsedClean(name: string, endpoint: string, tlsWords: seq<string>)
    requires IsWord(name) && IsWord(endpoint) && AreWords(tlsWords)
    requires ParseServer(name, endpoint, tlsWords).Some?
    ensures IsClean(ServerLine(ParseServer(name, endpoint, tlsWords).value))
  {
    var s := ParseServer(name, endpoint, tlsWords).value;
    DecimalIsWord(s.port);
    assert forall i :: 0 <= i < |s.address| ==> s.address[i] == endpoint[i];
    assert IsWord(Endpoint(s));
    TlsParsedWords(tlsWords);
    ServerWordsClean(s, "server");
  }

  lemma TlsParsedWords(words: seq<string>)
    requires ParseTls(words).Some?
    ensures TlsWords(ParseTls(words).value) == words
  {
    if words != [] {
      assert words[..4] == [words[0], words[1], words[2], words[3]];
    }
  }

  lemma ServerWordsClean(s: Server, keyword: string)
    requires keyword == "server" && IsWord(s.name) && IsWord(Endpoint(s)) && AreWords(TlsWords(s.tls))
    ensures IsClean(ServerLine(s))
  {
    assert IsWord(keyword);
    assert DirectiveWords(ServerLine(s)) == [keyword, s.name, Endpoint(s)] + TlsWords(s.tls);
  }

  lemma ParsedWordsClean(words: seq<string>)
    requires AreWords(words) && ParseWords(words).Some?
    ensures IsClean(ParseWords(words).value)
  {
    var d := ParseWords(words).value;
    if d.ServerLine? {
      ServerParsedClean(words[1], words[2], words[3..]);
    } else if d.Bind? {
      DecimalIsWord(d.port);
      assert IsWord("bind");
    } else {
      assert DirectiveWords(d) == words;
    }
  }

  lemma {:induction false} ParsedLinesClean(lines: seq<string>)
    requires ParseLines(lines).Some?
    ensures AllClean(ParseLines(lines).value)
  {
    if lines != [] {
      var n := |lines| - 1;
      ParsedLinesClean(lines[..n]);
      ParsedLineClean(lines[n]);
    }
  }

  lemma ParsedLineClean(line: string)
    requires ParseLine(line).Some?
    ensures AllClean(ParseLine(line).value)
  {
    if Words(line) != [] {
      ParsedWordsClean(Words(line));
    }
  }

  lemma {:induction false} SectionsFlatten(ds: seq<Directive>)
    requires Sections(ds).Some?
    ensures Flatten(Sections(ds).value) == ds
  {
    if ds != [] {
      var n := |ds| - 1;
      SectionsFlatten(ds[..n]);
      var before := Sections(ds[..n]).value;
      if IsHeader(ds[n]) {
        assert (before + [Section(ds[n], [])])[..|before|] == before;
      } else {
        var last := before[|before| - 1];
        var sections := before[..|before| - 1] + [last.(body := last.body + [ds[n]])];
        assert sections[..|sections| - 1] == before[..|before| - 1];
      }
    }
  }

  lemma CleanReadsBack(sections: seq<Section>)
    requires forall i :: 0 <= i < |sections| ==> WellFormed(sections[i])
    requires AllClean(Flatten(sections))
    ensures ParseConfig(ConfigText(sections)) == Some(sections)
  {
    TextLines(sections, "");
    LinesRead(sections, "");
    FlattenSections(sections);
  }

  lemma TextLines(sections: seq<Section>, blank: string)
    requires AllClean(Flatten(sections)) && blank == ""
    ensures Lines(ConfigText(sections)) == [blank] + ConfigLines(sections)
  {
    ConfigOneLine(sections);
    LinesOfRender(blank, ConfigLines(sections));
    NothingBefore(ConfigText(sections));
  }

  lemma LinesRead(sections: seq<Section>, blank: string)
    requires AllClean(Flatten(sections)) && blank == ""
    ensures Reads([blank] + ConfigLines(sections), Flatten(sections))
  {
    BlankReads(blank);
    ConfigReads([blank], sections);
  }

  lemma BlankReads(blank: string)
    requires blank == ""
    ensures Reads([blank], [])
  {
    var lines := [blank];
    var nothing: seq<Directive> := [];
    BlankLineParses(blank);
    assert lines[..0] == [];
    assert ParseLines(lines) == Some(nothing + nothing);
    assert nothing + nothing == nothing;
  }

  lemma ReadIsClean(text: string)
    requires ParseConfig(text).Some?
    ensures AllClean(Flatten(ParseConfig(text).value))
  {
    ParsedLinesClean(Lines(text));
    SectionsFlatten(ParseLines(Lines(text)).value);
  }

  /** Printing then parsing is the identity exactly on configurations all of whose strings
      are single words. */
  lemma ParsePrintedIff(sections: seq<Section>)
    requires forall i :: 0 <= i < |sections| ==> WellFormed(sections[i])
    ensures ParseConfig(ConfigText(sections)) == Some(sections) <==> AllClean(Flatten(sections))
  {
    if AllClean(Flatten(sections)) {
      CleanReadsBack(sections);
    }
    if ParseConfig(ConfigText(sections)).Some? {
      ReadIsClean(ConfigText(sections));
    }
  }
}
