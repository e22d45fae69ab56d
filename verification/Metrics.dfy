/** From HAProxy's statistics to the metrics report. Counters are 64-bit and wrap. */
module Metrics {
  import opened RoutingModel
  import opened Text
  import opened Marshaller
  import opened Names

  const WORD: int := 0x1_0000_0000_0000_0000

  type uint64 = x: int | 0 <= x < WORD

  datatype HaproxyStat = HaproxyStat(
    proxyName: string, currentQueued: uint64, currentSessions: uint64, errorConnecting: uint64,
    averageQueueTimeMs: uint64, averageConnectTimeMs: uint64, averageSessionTimeMs: uint64)

  datatype ProxyStats = ProxyStats(connectionTime: uint64, currentSessions: uint64)

  datatype MetricsReport = MetricsReport(
    totalCurrentQueuedRequests: uint64, totalBackendConnectionErrors: uint64,
    averageQueueTimeMs: uint64, averageConnectTimeMs: uint64,
    proxyMetrics: map<RoutingKey, ProxyStats>, routeErrorMap: map<string, uint64>)

  /** The sum of two counters as the machine computes it. */
  function Add(a: uint64, b: uint64): uint64 {
    if a + b < WORD then a + b else a + b - WORD
  }

  // ----- Proxy names -----

  function UpTo(s: string, c: char): (n: nat)
    ensures n <= |s| && (n < |s| ==> s[n] == c)
    ensures forall i :: 0 <= i < n ==> s[i] != c
  {
    if s == "" || s[0] == c then 0 else 1 + UpTo(s[1..], c)
  }

  function Split(s: string, c: char): (parts: seq<string>)
    ensures parts != []
    decreases |s|
  {
    var n := UpTo(s, c);
    if n == |s| then [s] else [s[..n]] + Split(s[n + 1..], c)
  }

  lemma SplitOne(a: string, c: char)
    requires c !in a
    ensures Split(a, c) == [a]
  {
  }

  lemma SplitNext(a: string, c: char, rest: string)
    requires c !in a
    ensures Split(a + [c] + rest, c) == [a] + Split(rest, c)
  {
    var s := a + [c] + rest;
    var n := UpTo(s, c);
    assert s[|a|] == c;
    assert forall i :: 0 <= i < |a| ==> s[i] == a[i];
    assert n == |a| && s[..n] == a && s[n + 1..] == rest;
  }

  function ParseUint16(s: string): Option<uint16> {
    if AreDigits(s) && DecimalValue(s) < 0x1_0000 then Some(DecimalValue(s)) else None
  }

  function ProxyKey(proxy: string): Option<RoutingKey> {
    var parts := Split(proxy, '_');
    if |parts| != 3 then None
    else
      var port := ParseUint16(parts[2]);
      if port.None? then None else Some(RoutingKey(port.value, ""))
  }

  ghost predicate ThreeParts(name: string, a: string, b: string, d: string) {
    '_' !in a && '_' !in b && '_' !in d && name == a + "_" + b + "_" + d
  }

  /** The first part of a split, and the split of what follows it. */
  lemma SplitHead(s: string, c: char)
    ensures c !in Split(s, c)[0]
    ensures |Split(s, c)| == 1 ==> s == Split(s, c)[0]
    ensures |Split(s, c)| > 1 ==>
              var first := Split(s, c)[0];
              |first| < |s| && s == first + [c] + s[|first| + 1..] && Split(s, c)[1..] == Split(s[|first| + 1..], c)
  {
    var n := UpTo(s, c);
    if n < |s| {
      assert Split(s, c)[1..] == Split(s[n + 1..], c);
    }
  }

  lemma SplitInThree(name: string) returns (a: string, b: string, d: string)
    requires |Split(name, '_')| == 3
    ensures ThreeParts(name, a, b, d) && Split(name, '_') == [a, b, d]
  {
    var parts := Split(name, '_');
    a, b, d := parts[0], parts[1], parts[2];
    SplitHead(name, '_');
    var rest := name[|a| + 1..];
    SplitHead(rest, '_');
    var last := rest[|b| + 1..];
    SplitHead(last, '_');
    assert parts[1..][1..] == [d] == Split(last, '_');
    ThreeJoined(name, a, b, d, rest, "_");
  }

  lemma ThreeJoined(name: string, a: string, b: string, d: string, rest: string, under: string)
    requires under == "_" && name == a + ['_'] + rest && rest == b + ['_'] + d
    ensures name == a + under + b + under + d
  {
  }

  lemma ThreePartsSplit(name: string, a: string, b: string, d: string, under: string)
    requires under == "_" && ThreeParts(name, a, b, d)
    ensures Split(name, '_') == [a, b, d]
  {
    var rest := b + ['_'] + d;
    assert name == a + ['_'] + rest;
    SplitNext(a, '_', rest);
    SplitNext(b, '_', d);
    SplitOne(d, '_');
  }

  /** A name parses exactly when it is three parts without underscores, joined by two, of
      which the last is a decimal number below 65536; and then to that port. */
  lemma ProxyKeyIff(name: string, key: RoutingKey)
    ensures ProxyKey(name) == Some(key) <==>
            exists a, b, d :: ThreeParts(name, a, b, d) && AreDigits(d) && DecimalValue(d) < 65536
                              && key == RoutingKey(DecimalValue(d), "")
  {
    if ProxyKey(name) == Some(key) {
      var a, b, d := SplitInThree(name);
      assert ThreeParts(name, a, b, d) && AreDigits(d);
    }
    if a, b, d :| ThreeParts(name, a, b, d) && AreDigits(d) && DecimalValue(d) < 65536
                  && key == RoutingKey(DecimalValue(d), "") {
      ThreePartsSplit(name, a, b, d, "_");
    }
  }

  lemma FrontendNameSplit(prefix: string, p: uint16)
    requires prefix == "frontend"
    ensures Split(FrontendName(p), '_') == [prefix, Decimal(p)]
  {
    DecimalHasNoUnderscore(p);
    assert FrontendName(p) == prefix + ['_'] + Decimal(p);
    SplitNext(prefix, '_', Decimal(p));
    SplitOne(Decimal(p), '_');
  }

  lemma BackendNameSplit(prefix: string, p: uint16, h: string)
    requires prefix == "backend"
    ensures Split(BackendName(p, h), '_') == [prefix, Decimal(p)] + if h == "" then [] else Split(h, '_')
  {
    BackendNameIs("backend_", p, h);
    PrefixEnds(prefix);
    SplitNext(prefix, '_', RouteName(p, h));
    RouteNameSplit(p, h);
  }

  lemma PrefixEnds(prefix: string)
    requires prefix == "backend"
    ensures "backend_" == prefix + ['_'] && '_' !in prefix
  {
  }

  lemma RouteNameSplit(p: uint16, h: string)
    ensures Split(RouteName(p, h), '_') == [Decimal(p)] + if h == "" then [] else Split(h, '_')
  {
    DecimalHasNoUnderscore(p);
    if h == "" {
      SplitOne(Decimal(p), '_');
    } else {
      SplitNext(Decimal(p), '_', h);
      UnderscoreText(Decimal(p), h, "_");
    }
  }

  lemma UnderscoreText(a: string, b: string, under: string)
    requires under == "_"
    ensures a + under + b == a + ['_'] + b
  {
  }

  /** Of the names the router itself gives, no frontend and no default backend is ever
      counted as a proxy. The backend of a host name is counted only when the host name is
      a number, and then under that number as its port. */
  lemma PrintedNamesAsProxies(p: uint16, h: string)
    ensures ProxyKey(FrontendName(p)) == None
    ensures ProxyKey(BackendName(p, h)) ==
            if ParseUint16(h).Some? then Some(RoutingKey(ParseUint16(h).value, "")) else None
  {
    FrontendNameSplit("frontend", p);
    BackendNameSplit("backend", p, h);
    var parts := Split(BackendName(p, h), '_');
    if '_' in h {
      var n := UpTo(h, '_');
      assert Split(h, '_') == [h[..n]] + Split(h[n + 1..], '_');
      assert |parts| != 3;
    } else if h != "" {
      SplitOne(h, '_');
      assert parts[2] == h;
    }
  }

  // ----- Totals -----

  /** The running total of a column of the statistics. */
  function Total(stats: seq<HaproxyStat>, weight: HaproxyStat -> uint64): uint64 {
    if stats == [] then 0
    else Add(Total(stats[..|stats| - 1], weight), weight(stats[|stats| - 1]))
  }

  function Queued(): HaproxyStat -> uint64 {
    (s: HaproxyStat) => s.currentQueued
  }

  function Errors(): HaproxyStat -> uint64 {
    (s: HaproxyStat) => s.errorConnecting
  }

  function QueueTime(): HaproxyStat -> uint64 {
    (s: HaproxyStat) => s.averageQueueTimeMs
  }

  function ConnectTime(): HaproxyStat -> uint64 {
    (s: HaproxyStat) => s.averageConnectTimeMs
  }

  function Sessions(): HaproxyStat -> uint64 {
    (s: HaproxyStat) => s.currentSessions
  }

  lemma TotalNext(stats: seq<HaproxyStat>, s: HaproxyStat, weight: HaproxyStat -> uint64)
    ensures Total(stats + [s], weight) == Add(Total(stats, weight), weight(s))
  {
    assert (stats + [s])[..|stats|] == stats;
  }

  // ----- Totals by group -----

  function ByName(): HaproxyStat -> Option<string> {
    (s: HaproxyStat) => Some(s.proxyName)
  }

  /** By the port the name parses to; rows whose name does not parse are in no group. */
  function ByPort(): HaproxyStat -> Option<RoutingKey> {
    (s: HaproxyStat) => ProxyKey(s.proxyName)
  }

  function InGroup<K(==)>(group: HaproxyStat -> Option<K>, k: K, weight: HaproxyStat -> uint64): HaproxyStat -> uint64 {
    (s: HaproxyStat) => if group(s) == Some(k) then weight(s) else 0
  }

  function InSomeGroup<K>(group: HaproxyStat -> Option<K>, weight: HaproxyStat -> uint64): HaproxyStat -> uint64 {
    (s: HaproxyStat) => if group(s).Some? then weight(s) else 0
  }

  ghost predicate Occurs<K>(k: K, stats: seq<HaproxyStat>, group: HaproxyStat -> Option<K>) {
    exists s :: s in stats && group(s) == Some(k)
  }

  /** m holds, for each group that occurs, the total of its rows. */
  ghost predicate AreTotals<K(!new)>(m: map<K, uint64>, stats: seq<HaproxyStat>, group: HaproxyStat -> Option<K>,
                                     weight: HaproxyStat -> uint64)
  {
    && (forall k :: k in m <==> Occurs(k, stats, group))
    && (forall k :: k in m ==> m[k] == Total(stats, InGroup(group, k, weight)))
  }

  function AddTo<K>(m: map<K, uint64>, k: Option<K>, x: uint64): map<K, uint64> {
    if k.None? then m else m[k.value := Add(if k.value in m then m[k.value] else 0, x)]
  }

  lemma {:induction false} TotalOfAbsent(stats: seq<HaproxyStat>, weight: HaproxyStat -> uint64)
    requires forall s :: s in stats ==> weight(s) == 0
    ensures Total(stats, weight) == 0
  {
    if stats != [] {
      TotalOfAbsent(stats[..|stats| - 1], weight);
    }
  }

  lemma OccursNext<K(!new)>(k: K, stats: seq<HaproxyStat>, s: HaproxyStat, group: HaproxyStat -> Option<K>)
    ensures Occurs(k, stats + [s], group) <==> Occurs(k, stats, group) || group(s) == Some(k)
  {
    assert s in stats + [s];
    assert forall r :: r in stats + [s] <==> r in stats || r == s;
  }

  lemma GroupTotalNext<K(!new)>(m: map<K, uint64>, stats: seq<HaproxyStat>, s: HaproxyStat,
                                group: HaproxyStat -> Option<K>, weight: HaproxyStat -> uint64, k: K)
    requires k in m ==> m[k] == Total(stats, InGroup(group, k, weight))
    requires k !in m ==> !Occurs(k, stats, group)
    requires k in AddTo(m, group(s), weight(s))
    ensures AddTo(m, group(s), weight(s))[k] == Total(stats + [s], InGroup(group, k, weight))
  {
    if k !in m {
      TotalOfAbsent(stats, InGroup(group, k, weight));
    }
    TotalNext(stats, s, InGroup(group, k, weight));
  }

  lemma TotalsNext<K(!new)>(m: map<K, uint64>, stats: seq<HaproxyStat>, s: HaproxyStat,
                            group: HaproxyStat -> Option<K>, weight: HaproxyStat -> uint64)
    requires AreTotals(m, stats, group, weight)
    ensures AreTotals(AddTo(m, group(s), weight(s)), stats + [s], group, weight)
  {
    var m' := AddTo(m, group(s), weight(s));
    forall k
      ensures k in m' <==> Occurs(k, stats + [s], group)
    {
      OccursNext(k, stats, s, group);
    }
    forall k | k in m'
      ensures m'[k] == Total(stats + [s], InGroup(group, k, weight))
    {
      GroupTotalNext(m, stats, s, group, weight, k);
    }
  }

  // ----- The report -----

  function ConnectTimes(m: map<RoutingKey, ProxyStats>): map<RoutingKey, uint64> {
    map key | key in m :: m[key].connectionTime
  }

  function SessionCounts(m: map<RoutingKey, ProxyStats>): map<RoutingKey, uint64> {
    map key | key in m :: m[key].currentSessions
  }

  ghost predicate IsReportOf(r: MetricsReport, stats: seq<HaproxyStat>)
    requires stats != []
  {
    && r.totalCurrentQueuedRequests == Total(stats, Queued())
    && r.totalBackendConnectionErrors == Total(stats, Errors())
    && r.averageQueueTimeMs == Total(stats, QueueTime()) / |stats|
    && r.averageConnectTimeMs == Total(stats, ConnectTime()) / |stats|
    && AreTotals(r.routeErrorMap, stats, ByName(), Errors())
    && AreTotals(ConnectTimes(r.proxyMetrics), stats, ByPort(), ConnectTime())
    && AreTotals(SessionCounts(r.proxyMetrics), stats, ByPort(), Sessions())
  }

  method PopulateProxyStats(s: HaproxyStat, m: map<RoutingKey, ProxyStats>) returns (m': map<RoutingKey, ProxyStats>)
    ensures ConnectTimes(m') == AddTo(ConnectTimes(m), ByPort()(s), s.averageConnectTimeMs)
    ensures SessionCounts(m') == AddTo(SessionCounts(m), ByPort()(s), s.currentSessions)
  {
    m' := m;
    var key := ProxyKey(s.proxyName);
    if key.Some? {
      if key.value !in m' {
        m' := m'[key.value := ProxyStats(0, 0)];
      }
      var v := m'[key.value];
      v := v.(connectionTime := Add(v.connectionTime, s.averageConnectTimeMs));
      v := v.(currentSessions := Add(v.currentSessions, s.currentSessions));
      m' := m'[key.value := v];
    }
  }

  method Convert(stats: seq<HaproxyStat>) returns (report: Option<MetricsReport>)
    ensures report.None? <==> stats == []
    ensures report.Some? ==> IsReportOf(report.value, stats)
  {
    if |stats| == 0 {
      return None;
    }
    var queued, errors, connectTime, queueTime: uint64 := 0, 0, 0, 0;
    var proxyStatsMap: map<RoutingKey, ProxyStats> := map[];
    var routeErrorMap: map<string, uint64> := map[];
    for i := 0 to |stats|
      invariant queued == Total(stats[..i], Queued())
      invariant errors == Total(stats[..i], Errors())
      invariant connectTime == Total(stats[..i], ConnectTime())
      invariant queueTime == Total(stats[..i], QueueTime())
      invariant AreTotals(routeErrorMap, stats[..i], ByName(), Errors())
      invariant AreTotals(ConnectTimes(proxyStatsMap), stats[..i], ByPort(), ConnectTime())
      invariant AreTotals(SessionCounts(proxyStatsMap), stats[..i], ByPort(), Sessions())
    {
      var s := stats[i];
      assert stats[..i + 1] == stats[..i] + [s];
      NextTotals(stats[..i], s);
      queued := Add(queued, s.currentQueued);
      errors := Add(errors, s.errorConnecting);
      connectTime := Add(connectTime, s.averageConnectTimeMs);
      queueTime := Add(queueTime, s.averageQueueTimeMs);
      NextGroupTotals(routeErrorMap, proxyStatsMap, stats[..i], s);
      routeErrorMap := AddTo(routeErrorMap, Some(s.proxyName), s.errorConnecting);
      proxyStatsMap := PopulateProxyStats(s, proxyStatsMap);
    }
    assert stats[..|stats|] == stats;
    QuotientFits(queueTime, |stats|);
    QuotientFits(connectTime, |stats|);
    report := Some(MetricsReport(queued, errors, queueTime / |stats|, connectTime / |stats|, proxyStatsMap, routeErrorMap));
  }

  lemma QuotientFits(x: uint64, n: nat)
    requires n > 0
    ensures 0 <= x / n < WORD
  {
    assert x / n <= x;
  }

  lemma NextTotals(stats: seq<HaproxyStat>, s: HaproxyStat)
    ensures Total(stats + [s], Queued()) == Add(Total(stats, Queued()), s.currentQueued)
    ensures Total(stats + [s], Errors()) == Add(Total(stats, Errors()), s.errorConnecting)
    ensures Total(stats + [s], ConnectTime()) == Add(Total(stats, ConnectTime()), s.averageConnectTimeMs)
    ensures Total(stats + [s], QueueTime()) == Add(Total(stats, QueueTime()), s.averageQueueTimeMs)
  {
    TotalNext(stats, s, Queued());
    TotalNext(stats, s, Errors());
    TotalNext(stats, s, ConnectTime());
    TotalNext(stats, s, QueueTime());
  }

  lemma NextGroupTotals(errors: map<string, uint64>, proxies: map<RoutingKey, ProxyStats>, stats: seq<HaproxyStat>,
                        s: HaproxyStat)
    requires AreTotals(errors, stats, ByName(), Errors())
    requires AreTotals(ConnectTimes(proxies), stats, ByPort(), ConnectTime())
    requires AreTotals(SessionCounts(proxies), stats, ByPort(), Sessions())
    ensures AreTotals(AddTo(errors, Some(s.proxyName), s.errorConnecting), stats + [s], ByName(), Errors())
    ensures AreTotals(AddTo(ConnectTimes(proxies), ByPort()(s), s.averageConnectTimeMs), stats + [s], ByPort(), ConnectTime())
    ensures AreTotals(AddTo(SessionCounts(proxies), ByPort()(s), s.currentSessions), stats + [s], ByPort(), Sessions())
  {
    TotalsNext(errors, stats, s, ByName(), Errors());
    TotalsNext(ConnectTimes(proxies), stats, s, ByPort(), ConnectTime());
    TotalsNext(SessionCounts(proxies), stats, s, ByPort(), Sessions());
  }

  // ----- Conservation -----

  /** The sum of the values of a map. */
  ghost function Sum<K>(m: map<K, uint64>): uint64 {
    if m == map[] then 0
    else
      var k :| k in m;
      Add(m[k], Sum(m - {k}))
  }

  lemma AddSwaps(a: uint64, b: uint64, c: uint64)
    ensures Add(a, Add(b, c)) == Add(b, Add(a, c)) == Add(Add(a, b), c)
  {
  }

  /** Any key may be taken out first. */
  lemma {:induction false} SumWithout<K>(m: map<K, uint64>, k: K)
    requires k in m
    ensures Sum(m) == Add(m[k], Sum(m - {k}))
    decreases |m|
  {
    var j :| j in m && Sum(m) == Add(m[j], Sum(m - {j}));
    if j != k {
      SumWithout(m - {j}, k);
      SumWithout(m - {k}, j);
      assert m - {j} - {k} == m - {k} - {j};
      AddSwaps(m[j], m[k], Sum(m - {j} - {k}));
    }
  }

  lemma SumAddTo<K>(m: map<K, uint64>, k: K, x: uint64)
    ensures Sum(AddTo(m, Some(k), x)) == Add(Sum(m), x)
  {
    var m' := AddTo(m, Some(k), x);
    SumWithout(m', k);
    if k in m {
      SumWithout(m, k);
      assert m' - {k} == m - {k};
      AddSwaps(m[k], x, Sum(m - {k}));
    } else {
      assert m' - {k} == m;
    }
  }

  function Totals<K>(stats: seq<HaproxyStat>, group: HaproxyStat -> Option<K>,
                     weight: HaproxyStat -> uint64): map<K, uint64> {
    if stats == [] then map[]
    else
      var n := |stats| - 1;
      AddTo(Totals(stats[..n], group, weight), group(stats[n]), weight(stats[n]))
  }

  lemma {:induction false} TotalsAre<K(!new)>(stats: seq<HaproxyStat>, group: HaproxyStat -> Option<K>,
                                              weight: HaproxyStat -> uint64)
    ensures AreTotals(Totals(stats, group, weight), stats, group, weight)
    ensures Sum(Totals(stats, group, weight)) == Total(stats, InSomeGroup(group, weight))
  {
    if stats != [] {
      var n := |stats| - 1;
      var before, s := Totals(stats[..n], group, weight), stats[n];
      TotalsAre(stats[..n], group, weight);
      TotalsNext(before, stats[..n], s, group, weight);
      assert stats == stats[..n] + [s];
      if group(s).Some? {
        SumAddTo(before, group(s).value, weight(s));
      }
    }
  }

  /** The totals of the groups add up to the total of the rows that are in some group. */
  lemma GroupsConserveTotal<K(!new)>(m: map<K, uint64>, stats: seq<HaproxyStat>, group: HaproxyStat -> Option<K>,
                                     weight: HaproxyStat -> uint64)
    requires AreTotals(m, stats, group, weight)
    ensures Sum(m) == Total(stats, InSomeGroup(group, weight))
  {
    TotalsAre(stats, group, weight);
    assert m == Totals(stats, group, weight);
  }

  lemma {:induction false} TotalsAgree(stats: seq<HaproxyStat>, w1: HaproxyStat -> uint64, w2: HaproxyStat -> uint64)
    requires forall s :: w1(s) == w2(s)
    ensures Total(stats, w1) == Total(stats, w2)
  {
    if stats != [] {
      TotalsAgree(stats[..|stats| - 1], w1, w2);
    }
  }

  /** The errors of the report add up: by route to the total, and the proxies' connect times
      and sessions to those of the rows whose name parses. */
  lemma ReportConservesTotals(r: MetricsReport, stats: seq<HaproxyStat>)
    requires stats != [] && IsReportOf(r, stats)
    ensures Sum(r.routeErrorMap) == r.totalBackendConnectionErrors
    ensures Sum(ConnectTimes(r.proxyMetrics)) == Total(stats, InSomeGroup(ByPort(), ConnectTime()))
    ensures Sum(SessionCounts(r.proxyMetrics)) == Total(stats, InSomeGroup(ByPort(), Sessions()))
  {
    GroupsConserveTotal(r.routeErrorMap, stats, ByName(), Errors());
    TotalsAgree(stats, InSomeGroup(ByName(), Errors()), Errors());
    GroupsConserveTotal(ConnectTimes(r.proxyMetrics), stats, ByPort(), ConnectTime());
    GroupsConserveTotal(SessionCounts(r.proxyMetrics), stats, ByPort(), Sessions());
  }

  // ----- Against unbounded numbers -----

  function PlainTotal(stats: seq<HaproxyStat>, weight: HaproxyStat -> uint64): nat {
    if stats == [] then 0
    else PlainTotal(stats[..|stats| - 1], weight) + weight(stats[|stats| - 1])
  }

  lemma AddWraps(a: uint64, b: uint64)
    ensures Add(a, b) == (a + b) % WORD
  {
  }

  lemma WrapAdd(a: nat, b: nat)
    ensures (a % WORD + b) % WORD == (a + b) % WORD
  {
  }

  /** A total is the true one modulo 2^64. */
  lemma {:induction false} TotalWraps(stats: seq<HaproxyStat>, weight: HaproxyStat -> uint64)
    ensures Total(stats, weight) == PlainTotal(stats, weight) % WORD
  {
    if stats != [] {
      var n := |stats| - 1;
      TotalWraps(stats[..n], weight);
      AddWraps(Total(stats[..n], weight), weight(stats[n]));
      WrapAdd(PlainTotal(stats[..n], weight), weight(stats[n]));
    }
  }

  lemma OneMore(x: nat, n: nat)
    ensures x * (n + 1) == x * n + x
  {
  }

  lemma {:induction false} PlainTotalBounds(stats: seq<HaproxyStat>, weight: HaproxyStat -> uint64, lo: nat, hi: nat)
    requires forall s :: s in stats ==> lo <= weight(s) <= hi
    ensures lo * |stats| <= PlainTotal(stats, weight) <= hi * |stats|
  {
    if stats != [] {
      var n := |stats| - 1;
      PlainTotalBounds(stats[..n], weight, lo, hi);
      OneMore(lo, n);
      OneMore(hi, n);
    }
  }

  lemma QuotientBounds(x: nat, n: nat, lo: nat, hi: nat)
    requires n > 0 && lo * n <= x <= hi * n
    ensures lo <= x / n <= hi
  {
    var q := x / n;
    assert x == q * n + x % n && 0 <= x % n < n;
    assert q < lo ==> (q + 1) * n <= lo * n;
    assert q > hi ==> q * n >= (hi + 1) * n;
  }

  lemma QuotientLess(x: nat, y: nat, n: nat)
    requires n > 0 && x + n <= y
    ensures x / n < y / n
  {
    var q, r := x / n, y / n;
    assert x == q * n + x % n && y == r * n + y % n;
    assert r <= q ==> r * n <= q * n;
  }

  /** The reported average is the true average exactly when the total did not wrap around;
      otherwise it is too small. */
  lemma AverageExactIff(stats: seq<HaproxyStat>, weight: HaproxyStat -> uint64)
    requires 0 < |stats| <= WORD
    ensures var (reported, exact) := (Total(stats, weight) / |stats|, PlainTotal(stats, weight) / |stats|);
            if PlainTotal(stats, weight) < WORD then reported == exact else reported < exact
  {
    TotalWraps(stats, weight);
    if PlainTotal(stats, weight) >= WORD {
      assert Total(stats, weight) + WORD <= PlainTotal(stats, weight);
      QuotientLess(Total(stats, weight), PlainTotal(stats, weight), |stats|);
    }
  }

  /** Without wraparound an average lies between the least and the greatest of its rows. */
  lemma AverageBetween(stats: seq<HaproxyStat>, weight: HaproxyStat -> uint64, lo: nat, hi: nat)
    requires stats != [] && PlainTotal(stats, weight) < WORD
    requires forall s :: s in stats ==> lo <= weight(s) <= hi
    ensures lo <= Total(stats, weight) / |stats| <= hi
  {
    TotalWraps(stats, weight);
    PlainTotalBounds(stats, weight, lo, hi);
    QuotientBounds(PlainTotal(stats, weight), |stats|, lo, hi);
  }
}
