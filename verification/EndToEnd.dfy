/** From the events the router receives to the connections HAProxy answers. */
module EndToEnd {
  import opened RoutingModel
  import opened HAProxyConfigs
  import opened HAProxySyntax
  import opened Marshaller
  import opened Meaning
  import opened TableMeaning
  import opened Configurers
  import opened Events
  import opened UpdaterSteps
  import opened UpdaterInvariants
  import opened UpdaterTheorems

  /** Events none of which reports a change leave the configurations of the table as they
      were, so leaving HAProxy alone is right. */
  lemma NoChangeNoReconfiguration(conf: HAProxyConfig, t: Table, events: seq<TcpEvent>, clock: nat -> int)
    requires !AnyEventChanges(t, events, clock)
    ensures IsConfigOf(conf, t) <==> IsConfigOf(conf, ApplyEvents(t, events, clock))
  {
    NoChangeKeepsPairs(t, events, clock);
    if IsConfigOf(conf, t) {
      ConfigDependsOnPairs(conf, t, ApplyEvents(t, events, clock));
    }
    if IsConfigOf(conf, ApplyEvents(t, events, clock)) {
      ConfigDependsOnPairs(conf, ApplyEvents(t, events, clock), t);
    }
  }

  // ----- One table and its text -----

  lemma TextAnswers(text: string, told: Table, t: Table, tls: BackendTLSConfig, port: uint16, sni: Option<string>)
    requires IsTextOf(text, told, tls) && Pairs(told) == Pairs(t) && TlsStringsAreWords(t, tls)
    ensures Answers(SelectByText(text, port, sni), t, tls, port, sni)
  {
    var conf :| IsConfigOf(conf, told) && text == ConfigText(ConfigSections(conf, tls));
    ConfigDependsOnPairs(conf, told, t);
    TextMeansTable(conf, t, tls, port, sni);
  }

  /** The server name with which a connection asks for a route. */
  function SniOf(key: RoutingKey): Option<string> {
    if key.sniHostname == "" then None else Some(key.sniHostname)
  }

  lemma BackendAnswers(reached: Option<seq<Server>>, t: Table, tls: BackendTLSConfig, key: RoutingKey,
                       b: BackendServerKey)
    requires Answers(reached, t, tls, key.port, SniOf(key))
    requires (key, b) in Pairs(t) && ValidRoute(key) && ValidServer(b) && Printable(b, tls)
    ensures reached.Some? && PrintedServer(b, tls) in reached.value
  {
    assert b in ValidServers(t[key]);
    assert RouteFor(t, key.port, SniOf(key)) == Some(key);
    ReachedServers(reached, t, tls, key.port, SniOf(key), PrintedServer(b, tls));
  }

  lemma AnswerIsBackend(reached: Option<seq<Server>>, t: Table, tls: BackendTLSConfig, port: uint16,
                        sni: Option<string>, server: Server)
      returns (key: RoutingKey, b: BackendServerKey)
    requires Answers(reached, t, tls, port, sni) && reached.Some? && server in reached.value
    ensures (key, b) in Pairs(t)
    ensures key.port == port && (key.sniHostname == "" || sni == Some(key.sniHostname))
    ensures ValidServer(b) && Printable(b, tls) && server == PrintedServer(b, tls)
  {
    ReachedServers(reached, t, tls, port, sni, server);
    key := RouteFor(t, port, sni).value;
    b :| b in t[key] && ValidServer(b) && Printable(b, tls) && server == PrintedServer(b, tls);
  }

  // ----- Any run of the router -----

  /** Whatever has happened, once no sync holds an unreported change and nothing was pruned
      since the last call to the configurer, HAProxy reading the text of that call answers
      every connection as the router's table of this moment asks for. */
  lemma HAProxyFollowsTable(s: State, text: string, tls: BackendTLSConfig, port: uint16, sni: Option<string>)
    requires Reachable(s) && Quiet(s.syncs) && s.pruned == {}
    requires IsTextOf(text, LastTable(s), tls) && TlsStringsAreWords(s.table, tls)
    ensures Answers(SelectByText(text, port, sni), s.table, tls, port, sni)
    ensures AnswersByFields(SelectByText(text, port, sni), s.table, tls, port, sni)
  {
    NoLiveRouteMissing(s);
    TextAnswers(text, LastTable(s), s.table, tls, port, sni);
    AnswersAreByFields(SelectByText(text, port, sni), s.table, tls, port, sni);
  }

  /** The calls of a run, made one after the other, as the configurer sees them. */
  ghost predicate AreCallsOf(attempts: seq<Attempt>, calls: seq<Call>) {
    && |attempts| == |calls|
    && forall i :: 0 <= i < |calls| ==>
         attempts[i].call == ConfigureCall(calls[i].table, calls[i].forceHealthCheckToFail)
  }

  lemma LastCallWritten(s: Settings, worlds: seq<World>, attempts: seq<Attempt>, outcomes: seq<Outcome>)
    requires IsHistory(s, worlds, attempts, outcomes)
    requires attempts != [] && Replaces(attempts[|attempts| - 1].env)
    ensures IsContentOf(worlds[|attempts|].config, s, attempts[|attempts| - 1].call.table)
  {
    var n := |attempts|;
    ConfigIsWhole(s, worlds, attempts, outcomes, n);
    assert attempts[..n] == attempts;
    assert LastWritten(attempts) == Some(attempts[n - 1].call.table);
  }

  /** And so it does from the file: if the calls to the configurer were made one after the
      other and the last one got to replace the file, then the file is the base followed by
      a text that answers every connection as the table asks for. */
  lemma FileFollowsTable(s: State, settings: Settings, worlds: seq<World>, attempts: seq<Attempt>,
                         outcomes: seq<Outcome>)
      returns (text: string)
    requires Reachable(s) && Quiet(s.syncs) && s.pruned == {} && s.calls != []
    requires TlsStringsAreWords(s.table, settings.tls)
    requires IsHistory(settings, worlds, attempts, outcomes) && AreCallsOf(attempts, s.calls)
    requires Replaces(attempts[|attempts| - 1].env)
    ensures worlds[|attempts|].config == settings.baseConfig + text
    ensures forall port, sni :: Answers(SelectByText(text, port, sni), s.table, settings.tls, port, sni)
    ensures forall port, sni :: AnswersByFields(SelectByText(text, port, sni), s.table, settings.tls, port, sni)
  {
    LastCallWritten(settings, worlds, attempts, outcomes);
    text :| IsTextOf(text, LastTable(s), settings.tls) && worlds[|attempts|].config == settings.baseConfig + text;
    forall port, sni
      ensures Answers(SelectByText(text, port, sni), s.table, settings.tls, port, sni)
      ensures AnswersByFields(SelectByText(text, port, sni), s.table, settings.tls, port, sni)
    {
      HAProxyFollowsTable(s, text, settings.tls, port, sni);
    }
  }

  /** Even after prunes, every valid backend of the table can be reached ... */
  lemma LiveBackendIsReached(s: State, text: string, tls: BackendTLSConfig, key: RoutingKey, b: BackendServerKey)
    requires Reachable(s) && Quiet(s.syncs)
    requires IsTextOf(text, LastTable(s), tls) && TlsStringsAreWords(LastTable(s), tls)
    requires (key, b) in Pairs(s.table) && AcceptedRoute(key) && AcceptedBackend(b) && (b.tlsPort > 0 ==> tls.enabled)
    ensures var reached := SelectByText(text, key.port, SniOf(key));
            reached.Some? && PrintedServer(b, tls) in reached.value && Serves(PrintedServer(b, tls), b, tls)
  {
    var last := LastTable(s);
    AcceptedIff(key, b);
    PrintedServerServes(b, tls);
    NoLiveRouteMissing(s);
    TextAnswers(text, last, last, tls, key.port, SniOf(key));
    BackendAnswers(SelectByText(text, key.port, SniOf(key)), last, tls, key, b);
  }

  /** ... and every server that can be reached is one of the table's or was pruned since the
      last call. */
  lemma ReachedBackendIsKnown(s: State, text: string, tls: BackendTLSConfig, port: uint16, sni: Option<string>,
                              server: Server)
      returns (key: RoutingKey, b: BackendServerKey)
    requires Reachable(s) && Quiet(s.syncs)
    requires IsTextOf(text, LastTable(s), tls) && TlsStringsAreWords(LastTable(s), tls)
    requires SelectByText(text, port, sni).Some? && server in SelectByText(text, port, sni).value
    ensures (key, b) in Pairs(s.table) + s.pruned
    ensures key.port == port && (key.sniHostname == "" || sni == Some(key.sniHostname))
    ensures AcceptedBackend(b) && (b.tlsPort > 0 ==> tls.enabled)
    ensures server == PrintedServer(b, tls) && Serves(server, b, tls)
  {
    var last := LastTable(s);
    NoLiveRouteMissing(s);
    TextAnswers(text, last, last, tls, port, sni);
    key, b := AnswerIsBackend(SelectByText(text, port, sni), last, tls, port, sni, server);
    AcceptedIff(key, b);
    PrintedServerServes(b, tls);
  }
}
