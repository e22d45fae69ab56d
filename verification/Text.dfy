/** Strings as the printer writes them and the parser reads them: lines, words, decimal
    numbers, and the byte order of Go's string comparison. A char stands for one byte. */
module Text {
  import opened RoutingModel
  import opened Sequences

  // ----- Words -----

  predicate IsSpace(c: char) {
    c == ' ' || '\t' <= c <= '\r'
  }

  predicate NoSpace(s: string) {
    forall i :: 0 <= i < |s| ==> !IsSpace(s[i])
  }

  predicate IsWord(s: string) {
    s != "" && NoSpace(s)
  }

  predicate AreWords(words: seq<string>) {
    forall i :: 0 <= i < |words| ==> IsWord(words[i])
  }

  function WordLength(s: string): (n: nat)
    ensures n <= |s| && NoSpace(s[..n])
    ensures s != "" && !IsSpace(s[0]) ==> n > 0
  {
    if s == "" || IsSpace(s[0]) then 0 else 1 + WordLength(s[1..])
  }

  /** The words of a line: its longest pieces without white space. */
  function Words(s: string): (words: seq<string>)
    ensures AreWords(words)
  {
    if s == "" then []
    else if IsSpace(s[0]) then Words(s[1..])
    else [s[..WordLength(s)]] + Words(s[WordLength(s)..])
  }

  lemma {:induction false} WordLengthIs(word: string, rest: string)
    requires NoSpace(word) && (rest == "" || IsSpace(rest[0]))
    ensures WordLength(word + rest) == |word|
  {
    if word != "" {
      assert (word + rest)[1..] == word[1..] + rest;
      WordLengthIs(word[1..], rest);
    } else {
      assert word + rest == rest;
    }
  }

  lemma {:induction false} WordLengthBefore(s: string, rest: string)
    requires rest != "" && IsSpace(rest[0])
    ensures WordLength(s + rest) == WordLength(s)
  {
    if s != "" {
      assert (s + rest)[1..] == s[1..] + rest;
      WordLengthBefore(s[1..], rest);
    } else {
      assert s + rest == rest;
    }
  }

  lemma WordsOfWord(word: string)
    requires IsWord(word)
    ensures Words(word) == [word]
  {
    WordLengthIs(word, "");
    assert word + "" == word && word[..|word|] == word;
  }

  /** A blank parts words. */
  lemma {:induction false} WordsConcat(a: string, b: string)
    ensures Words(a + " " + b) == Words(a) + Words(b)
    decreases |a|
  {
    var s := a + " " + b;
    if a == "" {
      assert s[1..] == b;
    } else if IsSpace(a[0]) {
      assert s[1..] == a[1..] + " " + b;
      WordsConcat(a[1..], b);
    } else {
      var n := WordLength(a);
      assert s == a + (" " + b);
      WordLengthBefore(a, " " + b);
      assert s[..n] == a[..n] && s[n..] == a[n..] + " " + b;
      WordsConcat(a[n..], b);
    }
  }

  lemma WordsConcat3(a: string, b: string, c: string)
    ensures Words(a + " " + b + " " + c) == Words(a) + Words(b) + Words(c)
  {
    WordsConcat(a + " " + b, c);
    WordsConcat(a, b);
  }

  lemma WordsAround(a: string, b: string, c: string)
    ensures Words(a + (" " + b + " ") + c) == Words(a) + Words(b) + Words(c)
  {
    var blank := " ";
    WordsConcat3(a, b, c);
    Assoc(a, blank + b, blank);
    Assoc(a, blank, b);
  }

  lemma WordsAfter(a: string, b: string)
    ensures Words(a + (" " + b)) == Words(a) + Words(b)
  {
    var blank := " ";
    WordsConcat(a, b);
    Assoc(a, blank, b);
  }

  lemma WordsOfIndented(s: string)
    ensures Words("  " + s) == Words(s)
  {
    assert ("  " + s)[1..] == " " + s && (" " + s)[1..] == s;
  }

  // ----- Lines -----

  predicate OneLine(s: string) {
    forall i :: 0 <= i < |s| ==> s[i] != '\n'
  }

  /** The text the printer writes for a list of lines: it starts every line with a newline. */
  function Render(lines: seq<string>): string {
    if lines == [] then ""
    else Render(lines[..|lines| - 1]) + "\n" + lines[|lines| - 1]
  }

  function LineLength(s: string): (n: nat)
    ensures n <= |s| && OneLine(s[..n])
    ensures n < |s| ==> s[n] == '\n'
  {
    if s == "" || s[0] == '\n' then 0 else 1 + LineLength(s[1..])
  }

  function Lines(s: string): seq<string>
    decreases |s|
  {
    var n := LineLength(s);
    if n == |s| then [s] else [s[..n]] + Lines(s[n + 1..])
  }

  lemma {:induction false} RenderConcat(a: seq<string>, b: seq<string>)
    ensures Render(a + b) == Render(a) + Render(b)
  {
    if b == [] {
      assert a + b == a;
    } else {
      var n := |b| - 1;
      RenderConcat(a, b[..n]);
      assert (a + b)[..|a + b| - 1] == a + b[..n];
    }
  }

  lemma RenderOne(line: string)
    ensures Render([line]) == "\n" + line
  {
    assert [line][..0] == [];
  }

  lemma {:induction false} LineLengthIs(line: string, rest: string)
    requires OneLine(line) && (rest == "" || rest[0] == '\n')
    ensures LineLength(line + rest) == |line|
  {
    if line != "" {
      assert (line + rest)[1..] == line[1..] + rest;
      LineLengthIs(line[1..], rest);
    } else {
      assert line + rest == rest;
    }
  }

  lemma {:induction false} LinesOfRender(line: string, lines: seq<string>)
    requires OneLine(line) && forall i :: 0 <= i < |lines| ==> OneLine(lines[i])
    ensures Lines(line + Render(lines)) == [line] + lines
    decreases |lines|
  {
    if lines == [] {
      assert line + "" == line;
      LineLengthIs(line, "");
    } else {
      var rest := lines[0] + Render(lines[1..]);
      assert lines == [lines[0]] + lines[1..];
      RenderConcat([lines[0]], lines[1..]);
      RenderOne(lines[0]);
      assert Render(lines) == "\n" + rest;
      LineLengthIs(line, Render(lines));
      var text := line + Render(lines);
      assert text[..|line|] == line && text[|line| + 1..] == rest;
      LinesOfRender(lines[0], lines[1..]);
    }
  }

  // ----- Decimal numbers -----

  predicate IsDigit(c: char) {
    '0' <= c <= '9'
  }

  predicate AreDigits(s: string) {
    s != "" && forall i :: 0 <= i < |s| ==> IsDigit(s[i])
  }

  function Decimal(n: nat): string {
    if n < 10 then [DigitOf(n)] else Decimal(n / 10) + [DigitOf(n % 10)]
  }

  function DigitOf(d: nat): char
    requires d < 10
  {
    '0' + d as char
  }

  function DecimalValue(s: string): nat
    requires forall i :: 0 <= i < |s| ==> IsDigit(s[i])
  {
    if s == "" then 0
    else 10 * DecimalValue(s[..|s| - 1]) + DigitValue(s[|s| - 1])
  }

  function DigitValue(c: char): nat
    requires IsDigit(c)
  {
    c as int - '0' as int
  }

  function ParseDecimal(s: string): Option<nat> {
    if AreDigits(s) then Some(DecimalValue(s)) else None
  }

  lemma {:induction false} DecimalRoundTrip(n: nat)
    ensures AreDigits(Decimal(n)) && DecimalValue(Decimal(n)) == n
  {
    if n >= 10 {
      DecimalRoundTrip(n / 10);
      assert Decimal(n)[..|Decimal(n)| - 1] == Decimal(n / 10);
    } else {
      assert Decimal(n)[..0] == "";
    }
  }

  lemma DecimalIsWord(n: nat)
    ensures IsWord(Decimal(n))
    ensures forall i :: 0 <= i < |Decimal(n)| ==> IsDigit(Decimal(n)[i])
  {
    DecimalRoundTrip(n);
  }

  lemma DecimalInjective(m: nat, n: nat)
    requires Decimal(m) == Decimal(n)
    ensures m == n
  {
    DecimalRoundTrip(m);
    DecimalRoundTrip(n);
  }

  // ----- Cutting a string at its last separator -----

  /** The position of the last c in s, or |s| when there is none. */
  function LastIndex(s: string, c: char): (n: nat)
    ensures n <= |s| && (n < |s| ==> s[n] == c)
    ensures forall i :: n < i < |s| ==> s[i] != c
    ensures n == |s| ==> c !in s
  {
    if s == "" then 0
    else if s[|s| - 1] == c then |s| - 1
    else
      var m := LastIndex(s[..|s| - 1], c);
      if m == |s| - 1 then |s| else m
  }

  lemma LastIndexIs(a: string, c: char, b: string)
    requires c !in b
    ensures LastIndex(a + [c] + b, c) == |a|
  {
    forall i | |a| < i < |a| + 1 + |b|
      ensures (a + [c] + b)[i] != c
    {
      AfterCut(a, c, b, i);
    }
    LastIndexAt(a + [c] + b, c, |a|);
  }

  lemma AfterCut(a: string, c: char, b: string, i: nat)
    requires |a| < i < |a| + 1 + |b|
    ensures (a + [c] + b)[i] == b[i - |a| - 1] && b[i - |a| - 1] in b
  {
  }

  lemma LastIndexAt(s: string, c: char, k: nat)
    requires k < |s| && s[k] == c && forall i :: k < i < |s| ==> s[i] != c
    ensures LastIndex(s, c) == k
  {
    assert s[k] == c && c in s;
  }

  /** Two cuts at the last separator of the same string are the same cut. */
  lemma CutUnique(a1: string, b1: string, a2: string, b2: string, c: char)
    requires a1 + [c] + b1 == a2 + [c] + b2 && c !in b1 && c !in b2
    ensures a1 == a2 && b1 == b2
  {
    LastIndexIs(a1, c, b1);
    LastIndexIs(a2, c, b2);
    var s := a1 + [c] + b1;
    assert a1 == s[..|a1|] && a2 == s[..|a2|];
    assert b1 == s[|a1| + 1..] && b2 == s[|a2| + 1..];
  }

  // ----- The order of strings -----

  predicate StrLess(a: string, b: string) {
    b != "" && (a == "" || a[0] < b[0] || (a[0] == b[0] && StrLess(a[1..], b[1..])))
  }

  lemma {:induction false} StrLessTotal(a: string, b: string)
    ensures a == b || StrLess(a, b) || StrLess(b, a)
  {
    if a != "" && b != "" && a[0] == b[0] {
      StrLessTotal(a[1..], b[1..]);
      assert a == [a[0]] + a[1..] && b == [b[0]] + b[1..];
    }
  }

  lemma {:induction false} StrLessAsymmetric(a: string, b: string)
    requires StrLess(a, b)
    ensures !StrLess(b, a) && a != b
  {
    if a != "" && a[0] == b[0] {
      StrLessAsymmetric(a[1..], b[1..]);
    }
  }

  lemma {:induction false} StrLessTransitive(a: string, b: string, c: string)
    requires StrLess(a, b) && StrLess(b, c)
    ensures StrLess(a, c)
  {
    if a != "" && a[0] == b[0] == c[0] {
      StrLessTransitive(a[1..], b[1..], c[1..]);
    }
  }

  /** The first k bytes agree, and then a ends or has the smaller byte. */
  predicate LessFrom(a: string, b: string, k: nat) {
    && k <= |a| && k < |b| && a[..k] == b[..k]
    && (k == |a| || a[k] < b[k])
  }

  /** The order is that of the first byte in which the strings differ, a prefix being less. */
  lemma {:induction false} StrLessIff(a: string, b: string)
    ensures StrLess(a, b) <==> exists k: nat :: LessFrom(a, b, k)
  {
    if b == "" {
    } else if a == "" || a[0] != b[0] {
      assert LessFrom(a, b, 0) <==> a == "" || a[0] < b[0];
      assert forall k: nat :: k > 0 && LessFrom(a, b, k) ==> a[..k][0] == b[..k][0];
    } else {
      StrLessIff(a[1..], b[1..]);
      if k: nat :| LessFrom(a[1..], b[1..], k) {
        LessFromTail(a, b, k + 1);
      }
      if k: nat :| LessFrom(a, b, k) {
        LessFromTail(a, b, k);
      }
    }
  }

  lemma LessFromTail(a: string, b: string, k: nat)
    requires a != "" && b != "" && a[0] == b[0]
    ensures k > 0 ==> (LessFrom(a, b, k) <==> LessFrom(a[1..], b[1..], k - 1))
    ensures k == 0 ==> !LessFrom(a, b, k)
  {
    if 0 < k <= |a| && k <= |b| {
      assert a[..k] == [a[0]] + a[1..][..k - 1];
      assert b[..k] == [b[0]] + b[1..][..k - 1];
      assert a[1..][..k - 1] == a[..k][1..] && b[1..][..k - 1] == b[..k][1..];
    }
  }

  lemma DecimalDigits(n: nat, d: nat)
    requires d < 10
    ensures Decimal(d) == ["0123456789"[d]]
    ensures n > 0 ==> Decimal(10 * n + d) == Decimal(n) + ["0123456789"[d]]
  {
  }
}
