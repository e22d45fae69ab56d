/** The names in the printed configuration keep routes and servers apart, although host
    names and addresses may hold underscores themselves. */
module Names {
  import opened RoutingModel
  import opened Text
  import opened Marshaller

  lemma FirstCutUnique(a1: string, b1: string, a2: string, b2: string, c: char)
    requires a1 + [c] + b1 == a2 + [c] + b2 && c !in a1 && c !in a2
    ensures a1 == a2 && b1 == b2
  {
    var s1, s2 := a1 + [c] + b1, a2 + [c] + b2;
    assert s1[|a1|] == c && s2[|a2|] == c;
    assert forall i :: 0 <= i < |a1| ==> s1[i] == a1[i];
    assert forall i :: 0 <= i < |a2| ==> s2[i] == a2[i];
    assert |a1| == |a2|;
    assert a1 == s1[..|a1|] && a2 == s2[..|a2|];
    assert b1 == s1[|a1| + 1..] && b2 == s2[|a2| + 1..];
  }

  lemma DecimalHasNoUnderscore(n: nat)
    ensures '_' !in Decimal(n)
  {
    DecimalIsWord(n);
  }

  lemma PrefixCancels(prefix: string, a: string, b: string)
    requires prefix + a == prefix + b
    ensures a == b
  {
    assert a == (prefix + a)[|prefix|..] && b == (prefix + b)[|prefix|..];
  }

  /** What follows the prefix in a backend name. */
  function RouteName(port: uint16, hostname: string): string {
    if hostname == "" then Decimal(port) else Decimal(port) + "_" + hostname
  }

  lemma BackendNameIs(prefix: string, port: uint16, hostname: string)
    requires prefix == "backend_"
    ensures BackendName(port, hostname) == prefix + RouteName(port, hostname)
  {
    assert prefix + (Decimal(port) + "_" + hostname) == prefix + Decimal(port) + "_" + hostname;
  }

  lemma RouteNameInjective(p: uint16, h: string, q: uint16, g: string)
    requires RouteName(p, h) == RouteName(q, g)
    ensures p == q && h == g
  {
    DecimalHasNoUnderscore(p);
    DecimalHasNoUnderscore(q);
    if h != "" {
      assert RouteName(p, h)[|Decimal(p)|] == '_';
    }
    if g != "" {
      assert RouteName(q, g)[|Decimal(q)|] == '_';
    }
    assert h == "" <==> '_' !in RouteName(p, h);
    assert g == "" <==> '_' !in RouteName(q, g);
    if h != "" {
      FirstCutUnique(Decimal(p), h, Decimal(q), g, '_');
    }
    DecimalInjective(p, q);
  }

  /** Different routes have different backend names. */
  lemma BackendNameInjective(p: uint16, h: string, q: uint16, g: string)
    ensures BackendName(p, h) == BackendName(q, g) <==> p == q && h == g
  {
    if BackendName(p, h) == BackendName(q, g) {
      var prefix := "backend_";
      BackendNameIs(prefix, p, h);
      BackendNameIs(prefix, q, g);
      PrefixCancels(prefix, RouteName(p, h), RouteName(q, g));
      RouteNameInjective(p, h, q, g);
    }
  }

  lemma ServerNameIs(prefix: string, address: string, port: nat)
    requires prefix == "server_"
    ensures ServerName(address, port) == prefix + (address + ['_'] + Decimal(port))
  {
  }

  /** Different endpoints have different server names. */
  lemma ServerNameInjective(a: string, p: nat, b: string, q: nat)
    ensures ServerName(a, p) == ServerName(b, q) <==> a == b && p == q
  {
    if ServerName(a, p) == ServerName(b, q) {
      var prefix := "server_";
      ServerNameIs(prefix, a, p);
      ServerNameIs(prefix, b, q);
      PrefixCancels(prefix, a + ['_'] + Decimal(p), b + ['_'] + Decimal(q));
      DecimalHasNoUnderscore(p);
      DecimalHasNoUnderscore(q);
      CutUnique(a, Decimal(p), b, Decimal(q), '_');
      DecimalInjective(p, q);
    }
  }
}
