/** The host names and addresses the configuration accepts. The source decides with a
    regular expression; here is the expression, what it means for one to match, and a
    single pass over the name that decides the same language. */
module DnsNames {
  import opened Sequences
  import opened Text

  // ----- The regular expression -----

  datatype CharClass = NameStart | NamePart | Dot | DotOrUnderscore

  predicate IsNameStart(c: char) {
    'a' <= c <= 'z' || 'A' <= c <= 'Z' || '0' <= c <= '9' || c == '_'
  }

  predicate IsNamePart(c: char) {
    IsNameStart(c) || c == '-'
  }

  predicate InClass(c: char, class_: CharClass) {
    match class_
    case NameStart => IsNameStart(c)
    case NamePart => IsNamePart(c)
    case Dot => c == '.'
    case DotOrUnderscore => c == '.' || c == '_'
  }

  datatype Regex =
    | One(class_: CharClass)
    | Cat(first: Regex, second: Regex)
    | UpTo(n: nat, repeated: Regex)
    | Star(starred: Regex)
    | Optional(option: Regex)

  ghost predicate Matches(r: Regex, s: string)
    decreases r, |s|, 0
  {
    match r
    case One(class_) => |s| == 1 && InClass(s[0], class_)
    case Cat(first, second) => exists i :: 0 <= i <= |s| && Matches(first, s[..i]) && Matches(second, s[i..])
    case UpTo(n, repeated) => MatchesUpTo(repeated, n, s)
    case Star(starred) =>
      s == "" || exists i :: 0 < i <= |s| && Matches(starred, s[..i]) && Matches(r, s[i..])
    case Optional(option) => s == "" || Matches(option, s)
  }

  ghost predicate MatchesUpTo(r: Regex, n: nat, s: string)
    decreases r, |s|, n + 1
  {
    s == "" || (n > 0 && exists i :: 0 < i <= |s| && Matches(r, s[..i]) && MatchesUpTo(r, n - 1, s[i..]))
  }

  // ([a-zA-Z0-9_]{1}[a-zA-Z0-9_-]{0,62}){1}
  const LABEL: Regex := Cat(One(NameStart), UpTo(62, One(NamePart)))

  // (\.[a-zA-Z0-9_]{1}[a-zA-Z0-9_-]{0,62})*[\._]?
  const LABELS: Regex := Star(Cat(One(Dot), LABEL))
  const TAIL: Regex := Cat(LABELS, Optional(One(DotOrUnderscore)))

  const DNS_NAME: Regex := Cat(LABEL, TAIL)

  // ----- The same language in one pass -----

  function NonDots(s: string): nat {
    if s == "" then 0 else (if s[0] == '.' then 0 else 1) + NonDots(s[1..])
  }

  /** Reads on with n characters of the current label read; none means after a dot. */
  predicate Scan(s: string, n: nat) {
    if s == "" then true
    else if n == 0 then IsNameStart(s[0]) && Scan(s[1..], 1)
    else if s[0] == '.' then Scan(s[1..], 0)
    else if IsNamePart(s[0]) && n < 63 then Scan(s[1..], n + 1)
    else s == "_"
  }

  predicate IsValidDNSName(hostname: string) {
    NonDots(hostname) <= 255 && hostname != "" && Scan(hostname, 0)
  }

  // ----- The pass decides the expression -----

  predicate AreNameParts(s: string) {
    forall i :: 0 <= i < |s| ==> IsNamePart(s[i])
  }

  predicate IsLabel(s: string) {
    1 <= |s| <= 63 && IsNameStart(s[0]) && AreNameParts(s)
  }

  lemma {:induction false} UpToMatches(n: nat, s: string)
    ensures MatchesUpTo(One(NamePart), n, s) <==> |s| <= n && AreNameParts(s)
    decreases n
  {
    if s != "" && n > 0 {
      UpToMatches(n - 1, s[1..]);
      if |s| <= n && AreNameParts(s) {
        assert Matches(One(NamePart), s[..1]);
      }
      if MatchesUpTo(One(NamePart), n, s) {
        var i :| 0 < i <= |s| && Matches(One(NamePart), s[..i]) && MatchesUpTo(One(NamePart), n - 1, s[i..]);
        assert i == 1;
        assert forall j :: 0 < j < |s| ==> s[j] == s[1..][j - 1];
      }
    }
  }

  lemma LabelMatches(s: string)
    ensures Matches(LABEL, s) <==> IsLabel(s)
  {
    if Matches(LABEL, s) {
      var i :| 0 <= i <= |s| && Matches(One(NameStart), s[..i]) && Matches(UpTo(62, One(NamePart)), s[i..]);
      assert i == 1;
      UpToMatches(62, s[1..]);
      assert forall j :: 0 < j < |s| ==> s[j] == s[1..][j - 1];
    }
    if IsLabel(s) {
      UpToMatches(62, s[1..]);
      assert Matches(One(NameStart), s[..1]) && Matches(UpTo(62, One(NamePart)), s[1..]);
    }
  }

  /** What may follow a label: nothing, a last dot or underscore, or a dot and a name. */
  ghost predicate IsTail(s: string)
    decreases |s|
  {
    || s == "" || s == "." || s == "_"
    || (s[0] == '.' && exists i :: 0 < i <= |s| - 1 && IsLabel(s[1..][..i]) && IsTail(s[1..][i..]))
  }

  ghost predicate IsName(s: string) {
    exists i :: 0 < i <= |s| && IsLabel(s[..i]) && IsTail(s[i..])
  }

  lemma DotLabelMatches(s: string)
    ensures Matches(Cat(One(Dot), LABEL), s) <==> |s| >= 2 && s[0] == '.' && IsLabel(s[1..])
  {
    if Matches(Cat(One(Dot), LABEL), s) {
      var i :| 0 <= i <= |s| && Matches(One(Dot), s[..i]) && Matches(LABEL, s[i..]);
      assert i == 1;
      LabelMatches(s[1..]);
    }
    if |s| >= 2 && s[0] == '.' && IsLabel(s[1..]) {
      LabelMatches(s[1..]);
      assert Matches(One(Dot), s[..1]) && Matches(LABEL, s[1..]);
    }
  }

  lemma {:induction false} TailFromMatch(s: string, i: nat)
    requires i <= |s| && Matches(LABELS, s[..i]) && Matches(Optional(One(DotOrUnderscore)), s[i..])
    ensures IsTail(s)
    decreases i
  {
    if i == 0 {
      assert s[0..] == s;
    } else {
      var labels := s[..i];
      var j :| 0 < j <= |labels| && Matches(Cat(One(Dot), LABEL), labels[..j]) && Matches(LABELS, labels[j..]);
      DotLabelMatches(labels[..j]);
      var rest := s[j..];
      TakeTake(s, i, j);
      TakeDrop(s, i, j);
      DropDrop(s, j, i - j);
      TailFromMatch(rest, i - j);
      TailFromRest(s, j);
    }
  }

  lemma TailFromRest(s: string, j: nat)
    requires 2 <= j <= |s| && s[0] == '.' && IsLabel(s[..j][1..]) && IsTail(s[j..])
    ensures IsTail(s)
  {
    TakeDrop(s, j, 1);
    DropDrop(s, 1, j - 1);
  }

  lemma {:induction false} MatchFromTail(s: string) returns (i: nat)
    requires IsTail(s)
    ensures i <= |s| && Matches(LABELS, s[..i]) && Matches(Optional(One(DotOrUnderscore)), s[i..])
    decreases |s|
  {
    if s == "" || s == "." || s == "_" {
      i := 0;
      assert s[0..] == s;
    } else {
      var j :| 0 < j <= |s| - 1 && IsLabel(s[1..][..j]) && IsTail(s[1..][j..]);
      var rest := s[1..][j..];
      var k := MatchFromTail(rest);
      i := j + 1 + k;
      var labels := s[..i];
      DropDrop(s, 1, j);
      TakeTake(s, i, j + 1);
      TakeDrop(s, j + 1, 1);
      TakeDrop(s, i, j + 1);
      DropDrop(s, j + 1, k);
      DotLabelMatches(labels[..j + 1]);
    }
  }

  lemma TailMatches(s: string)
    ensures Matches(TAIL, s) <==> IsTail(s)
  {
    if Matches(TAIL, s) {
      var i :| 0 <= i <= |s| && Matches(LABELS, s[..i]) && Matches(Optional(One(DotOrUnderscore)), s[i..]);
      TailFromMatch(s, i);
    }
    if IsTail(s) {
      var i := MatchFromTail(s);
    }
  }

  lemma NameMatches(s: string)
    ensures Matches(DNS_NAME, s) <==> IsName(s)
  {
    forall i | 0 <= i <= |s|
      ensures Matches(LABEL, s[..i]) <==> IsLabel(s[..i])
      ensures Matches(TAIL, s[i..]) <==> IsTail(s[i..])
    {
      LabelMatches(s[..i]);
      TailMatches(s[i..]);
    }
  }

  /** n characters of a label read, m more of it to come. */
  ghost predicate GoesOn(s: string, n: nat, m: nat) {
    m <= |s| && n + m <= 63 && AreNameParts(s[..m]) && IsTail(s[m..])
  }

  ghost predicate GoesOnSomehow(s: string, n: nat) {
    exists m: nat :: GoesOn(s, n, m)
  }

  lemma {:induction false} ScanInLabel(s: string, n: nat)
    requires 1 <= n <= 63
    ensures Scan(s, n) <==> GoesOnSomehow(s, n)
    decreases |s|
  {
    assert s[0..] == s;
    if s == "" {
      assert GoesOn(s, n, 0);
    } else if s[0] == '.' {
      ScanDot(s, n);
    } else if IsNamePart(s[0]) && n < 63 {
      ScanInLabel(s[1..], n + 1);
      GoesOnByOne(s, n);
    } else {
      GoesOnNoFurther(s, n);
    }
  }

  lemma GoesOnByOne(s: string, n: nat)
    requires s != "" && IsNamePart(s[0]) && n < 63
    ensures GoesOnSomehow(s, n) <==> GoesOnSomehow(s[1..], n + 1)
  {
    var rest, next := s[1..], n + 1;
    assert s[0..] == s;
    if m: nat :| GoesOn(rest, next, m) {
      assert s[..m + 1] == [s[0]] + rest[..m] && s[m + 1..] == rest[m..];
      assert GoesOn(s, n, m + 1);
    }
    if m: nat :| GoesOn(s, n, m) {
      if m == 0 {
        assert s == "_" && GoesOn(rest, next, 0);
      } else {
        assert s[..m][1..] == rest[..m - 1] && s[m..] == rest[m - 1..];
        assert GoesOn(rest, next, m - 1);
      }
    }
  }

  lemma GoesOnNoFurther(s: string, n: nat)
    requires s != "" && s[0] != '.' && (!IsNamePart(s[0]) || n == 63)
    ensures GoesOnSomehow(s, n) <==> s == "_" && n <= 63
  {
    assert s[0..] == s;
    if s == "_" && n <= 63 {
      assert GoesOn(s, n, 0);
    }
    if m: nat :| GoesOn(s, n, m) {
      FirstOfParts(s, m);
    }
  }

  lemma FirstOfParts(s: string, m: nat)
    requires m <= |s|
    ensures m > 0 && AreNameParts(s[..m]) ==> IsNamePart(s[0])
  {
    if m > 0 {
      assert s[..m][0] == s[0];
    }
  }

  lemma ScanDot(s: string, n: nat)
    requires s != "" && s[0] == '.' && 1 <= n <= 63
    ensures Scan(s, n) <==> GoesOnSomehow(s, n)
    decreases |s|, 0
  {
    assert s[0..] == s;
    ScanAfterDot(s[1..]);
    if IsTail(s) {
      assert GoesOn(s, n, 0);
    }
    if m: nat :| GoesOn(s, n, m) {
      FirstOfParts(s, m);
    }
  }

  lemma {:induction false} ScanAfterDot(s: string)
    ensures Scan(s, 0) <==> s == "" || IsName(s)
    decreases |s|, 1
  {
    if s != "" {
      if IsNameStart(s[0]) {
        ScanInLabel(s[1..], 1);
        if m: nat :| GoesOn(s[1..], 1, m) {
          assert s[..m + 1] == [s[0]] + s[1..][..m] && s[m + 1..] == s[1..][m..];
          assert IsLabel(s[..m + 1]);
        }
        if IsName(s) {
          var i :| 0 < i <= |s| && IsLabel(s[..i]) && IsTail(s[i..]);
          assert s[..i][1..] == s[1..][..i - 1] && s[i..] == s[1..][i - 1..];
          assert GoesOn(s[1..], 1, i - 1);
        }
      }
    }
  }

  /** The single pass accepts exactly what the regular expression matches, within the
      limit of 255 characters besides dots. */
  lemma ScannerDecidesRegex(s: string)
    ensures IsValidDNSName(s) <==> Matches(DNS_NAME, s) && NonDots(s) <= 255
  {
    NameMatches(s);
    ScanAfterDot(s);
  }

  // ----- What an accepted name looks like -----

  lemma {:induction false} ScanAllows(s: string, n: nat)
    requires Scan(s, n) && n <= 63
    ensures forall i :: 0 <= i < |s| ==> IsNamePart(s[i]) || s[i] == '.'
    ensures forall i :: 0 <= i < |s| - 1 ==> !(s[i] == '.' && s[i + 1] == '.')
    ensures n == 0 && s != "" ==> s[0] != '.'
    decreases |s|
  {
    if s != "" && s != "_" {
      var next := if n == 0 then 1 else if s[0] == '.' then 0 else n + 1;
      ScanAllows(s[1..], next);
      assert forall i :: 0 < i < |s| ==> s[i] == s[1..][i - 1];
      forall i | 0 <= i < |s| - 1
        ensures !(s[i] == '.' && s[i + 1] == '.')
      {
        if i > 0 {
          assert s[i] == s[1..][i - 1] && s[i + 1] == s[1..][i];
        }
      }
    }
  }

  /** A stretch of a name from lo to hi without a dot fits in a label. */
  ghost predicate Fits(s: string, n: nat, lo: nat, hi: nat)
    requires lo <= hi <= |s| && n <= 63
  {
    var length := (if lo == 0 then n else 0) + hi - lo;
    length <= 63 || (length == 64 && hi == |s| && s[hi - 1] == '_')
  }

  lemma {:induction false} ScanFits(s: string, n: nat, lo: nat, hi: nat)
    requires n <= 63 && Scan(s, n) && lo <= hi <= |s| && '.' !in s[lo..hi]
    ensures Fits(s, n, lo, hi)
    decreases |s|
  {
    if lo < hi && s != "_" {
      var next := if n == 0 then 1 else if s[0] == '.' then 0 else n + 1;
      if lo == 0 {
        assert s[0] == s[lo..hi][0];
        assert s[1..][..hi - 1] == s[lo..hi][1..];
        ScanFits(s[1..], next, 0, hi - 1);
      } else {
        assert s[1..][lo - 1..hi - 1] == s[lo..hi];
        ScanFits(s[1..], next, lo - 1, hi - 1);
      }
    }
  }

  /** An accepted name is not empty, uses letters, digits, '_', '-' and '.' only, has no
      leading dot and no two dots in a row. */
  lemma ValidNameCharacters(s: string)
    requires IsValidDNSName(s)
    ensures IsWord(s) && s[0] != '.'
    ensures forall i :: 0 <= i < |s| ==> IsNamePart(s[i]) || s[i] == '.'
    ensures forall i :: 0 <= i < |s| - 1 ==> !(s[i] == '.' && s[i + 1] == '.')
  {
    ScanAllows(s, 0);
  }

  /** Its labels have at most 63 characters, save that the last may have 64 when it ends
      in '_'. */
  lemma ValidNameLabels(s: string, lo: nat, hi: nat)
    requires IsValidDNSName(s) && lo <= hi <= |s| && '.' !in s[lo..hi]
    ensures hi - lo <= 63 || (hi - lo == 64 && hi == |s| && s[hi - 1] == '_')
  {
    ScanFits(s, 0, lo, hi);
  }

  // ----- The accepted names, spelled out -----

  predicate IsAlphanumeric(c: char) {
    'a' <= c <= 'z' || 'A' <= c <= 'Z' || '0' <= c <= '9'
  }

  /** One to 63 letters, digits, underscores and hyphens, not starting with a hyphen. */
  predicate SpelledLabel(label_: string) {
    && 1 <= |label_| <= 63
    && (forall i :: 0 <= i < |label_| ==> IsAlphanumeric(label_[i]) || label_[i] == '_' || label_[i] == '-')
    && label_[0] != '-'
  }

  function JoinDots(labels: seq<string>): string
    requires labels != []
  {
    if |labels| == 1 then labels[0] else labels[0] + "." + JoinDots(labels[1..])
  }

  ghost predicate Spells(labels: seq<string>, end: string, s: string) {
    && labels != [] && (forall i :: 0 <= i < |labels| ==> SpelledLabel(labels[i]))
    && (end == "" || end == "." || end == "_")
    && s == JoinDots(labels) + end
  }

  lemma SpelledLabelIs(label_: string)
    ensures SpelledLabel(label_) <==> IsLabel(label_)
  {
    if SpelledLabel(label_) {
      assert forall i :: 0 <= i < |label_| ==> IsNamePart(label_[i]);
    }
  }

  lemma {:induction false} SpellName(s: string) returns (labels: seq<string>, end: string)
    requires IsName(s)
    ensures Spells(labels, end, s)
    decreases |s|
  {
    var i :| 0 < i <= |s| && IsLabel(s[..i]) && IsTail(s[i..]);
    var first, tail := s[..i], s[i..];
    SpelledLabelIs(first);
    assert s == first + tail;
    if tail == "" || tail == "." || tail == "_" {
      labels, end := [first], tail;
    } else {
      var rest := tail[1..];
      assert IsName(rest) && tail == "." + rest;
      var labels';
      labels', end := SpellName(rest);
      labels := [first] + labels';
      SpellsNext(first, labels', end, s, rest);
    }
  }

  lemma SpellsNext(first: string, labels: seq<string>, end: string, s: string, rest: string)
    requires SpelledLabel(first) && Spells(labels, end, rest)
    requires s == first + ("." + rest)
    ensures Spells([first] + labels, end, s)
  {
    assert ([first] + labels)[1..] == labels;
    assert first + "." + (JoinDots(labels) + end) == first + "." + JoinDots(labels) + end;
  }

  lemma {:induction false} SpelledIsName(labels: seq<string>, end: string, s: string)
    requires Spells(labels, end, s)
    ensures IsName(s)
    decreases |labels|
  {
    var first := labels[0];
    SpelledLabelIs(first);
    if |labels| == 1 {
      assert s[..|first|] == first && s[|first|..] == end;
    } else {
      var rest := JoinDots(labels[1..]) + end;
      SpelledIsName(labels[1..], end, rest);
      assert s == first + ("." + rest);
      assert s[..|first|] == first && s[|first|..] == "." + rest;
      assert ("." + rest)[1..] == rest;
      NameIsTail("." + rest, rest);
    }
  }

  lemma NameIsTail(s: string, rest: string)
    requires s != "" && s[0] == '.' && s[1..] == rest && IsName(rest)
    ensures IsTail(s)
  {
    var i :| 0 < i <= |rest| && IsLabel(rest[..i]) && IsTail(rest[i..]);
  }

  lemma {:induction false} NonDotsIs(s: string)
    ensures NonDots(s) == |s| - multiset(s)['.']
  {
    if s != "" {
      NonDotsIs(s[1..]);
      assert s == [s[0]] + s[1..];
    }
  }

  /** The accepted names are exactly the dotted lists of such labels, with nothing, a dot or
      an underscore after the last one, of at most 255 characters besides the dots. */
  lemma AcceptedNamesSpelled(s: string)
    ensures IsValidDNSName(s) <==> (exists labels, end :: Spells(labels, end, s)) && |s| - multiset(s)['.'] <= 255
  {
    ScannerDecidesRegex(s);
    NameMatches(s);
    NonDotsIs(s);
    if IsName(s) {
      var labels, end := SpellName(s);
    }
    if labels, end :| Spells(labels, end, s) {
      SpelledIsName(labels, end, s);
    }
  }

  function TotalLength(labels: seq<string>): nat {
    if labels == [] then 0 else |labels[0]| + TotalLength(labels[1..])
  }

  lemma {:induction false} NonDotsOfJoin(labels: seq<string>)
    requires labels != []
    ensures |JoinDots(labels)| - multiset(JoinDots(labels))['.'] <= TotalLength(labels)
  {
    if |labels| == 1 {
      assert TotalLength(labels) == |labels[0]| + TotalLength(labels[1..]);
    } else {
      NonDotsOfJoin(labels[1..]);
      assert multiset(JoinDots(labels)) == multiset(labels[0]) + multiset(".") + multiset(JoinDots(labels[1..]));
    }
  }

  /** One to 63 letters, digits and inner hyphens. */
  predicate HostLabel(label_: string) {
    && 1 <= |label_| <= 63
    && IsAlphanumeric(label_[0]) && IsAlphanumeric(label_[|label_| - 1])
    && forall i :: 0 <= i < |label_| ==> IsAlphanumeric(label_[i]) || label_[i] == '-'
  }

  /** So a host name is accepted if its labels have at most 255 characters together. */
  lemma HostNamesAccepted(labels: seq<string>)
    requires labels != [] && TotalLength(labels) <= 255
    requires forall i :: 0 <= i < |labels| ==> HostLabel(labels[i])
    ensures IsValidDNSName(JoinDots(labels))
  {
    forall i | 0 <= i < |labels|
      ensures SpelledLabel(labels[i])
    {
      assert HostLabel(labels[i]);
    }
    NonDotsOfJoin(labels);
    AcceptedNamesSpelled(JoinDots(labels));
    assert Spells(labels, "", JoinDots(labels)) by {
      assert JoinDots(labels) + "" == JoinDots(labels);
    }
  }

  function Decimals(numbers: seq<nat>): seq<string> {
    seq(|numbers|, (i: nat) requires i < |numbers| => Decimal(numbers[i]))
  }

  /** And so is every IPv4 address in dotted decimal. */
  lemma AddressesAccepted(numbers: seq<nat>)
    requires |numbers| == 4 && forall i :: 0 <= i < 4 ==> numbers[i] <= 255
    ensures IsValidDNSName(JoinDots(Decimals(numbers)))
  {
    forall i | 0 <= i < 4
      ensures HostLabel(Decimals(numbers)[i]) && |Decimals(numbers)[i]| <= 3
    {
      ShortDecimal(numbers[i]);
    }
    TotalOfShort(Decimals(numbers));
    HostNamesAccepted(Decimals(numbers));
  }

  lemma ShortDecimal(n: nat)
    requires n <= 255
    ensures HostLabel(Decimal(n)) && |Decimal(n)| <= 3
  {
    DecimalIsWord(n);
    assert n >= 10 ==> |Decimal(n)| == |Decimal(n / 10)| + 1;
    assert n >= 100 ==> |Decimal(n / 10)| == |Decimal(n / 100)| + 1 && n / 10 / 10 == n / 100;
  }

  lemma {:induction false} TotalOfShort(labels: seq<string>)
    requires forall i :: 0 <= i < |labels| ==> |labels[i]| <= 3
    ensures TotalLength(labels) <= 3 * |labels|
  {
    if labels != [] {
      TotalOfShort(labels[1..]);
    }
  }
}
