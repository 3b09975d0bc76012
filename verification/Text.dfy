/** The string operations of Rust's standard library the store relies on. */
module Text {
  import opened Options

  predicate EndsWith(s: string, suffix: string) {
    |suffix| <= |s| && s[|s| - |suffix|..] == suffix
  }

  // ----- split and join -------------------------------------------------

  function Split(s: string, sep: char): (parts: seq<string>)
    ensures parts != []
  {
    if s == [] then [[]]
    else
      var rest := Split(s[1..], sep);
      if s[0] == sep then [[]] + rest else [[s[0]] + rest[0]] + rest[1..]
  }

  function Join(parts: seq<string>, sep: char): string {
    if parts == [] then []
    else if |parts| == 1 then parts[0]
    else parts[0] + [sep] + Join(parts[1..], sep)
  }

  lemma {:induction false} JoinSplit(s: string, sep: char)
    ensures Join(Split(s, sep), sep) == s
    ensures forall part :: part in Split(s, sep) ==> sep !in part
  {
    if s != [] {
      JoinSplit(s[1..], sep);
      var rest := Split(s[1..], sep);
      assert rest == [rest[0]] + rest[1..];
    }
  }

  /** A separator splits exactly there. */
  lemma {:induction false} SplitAppend(a: string, b: string, sep: char)
    ensures Split(a + [sep] + b, sep) == Split(a, sep) + Split(b, sep)
  {
    var whole := a + [sep] + b;
    if a == [] {
      assert whole[1..] == b;
    } else {
      assert whole[1..] == a[1..] + [sep] + b;
      SplitAppend(a[1..], b, sep);
    }
  }

  lemma {:induction false} SplitWithout(s: string, sep: char)
    requires sep !in s
    ensures Split(s, sep) == [s]
  {
    if s != [] {
      SplitWithout(s[1..], sep);
      assert s == [s[0]] + s[1..];
    }
  }

  /** The first line ends at the first separator. */
  lemma SplitFirst(a: string, b: string, sep: char)
    requires sep !in a
    ensures Split(a + [sep] + b, sep) == [a] + Split(b, sep)
  {
    SplitAppend(a, b, sep);
    SplitWithout(a, sep);
  }

  lemma {:induction false} SplitJoin(parts: seq<string>, sep: char)
    requires parts != [] && forall part :: part in parts ==> sep !in part
    ensures Split(Join(parts, sep), sep) == parts
  {
    SplitWithout(parts[0], sep);
    if |parts| > 1 {
      SplitJoin(parts[1..], sep);
      SplitAppend(parts[0], Join(parts[1..], sep), sep);
    }
  }

  lemma {:induction false} SplitChars(s: string, sep: char, part: string, c: char)
    requires part in Split(s, sep) && c in part
    ensures c in s
  {
    if s != [] {
      var rest := Split(s[1..], sep);
      if part in rest {
        SplitChars(s[1..], sep, part, c);
      } else if s[0] != sep && c != s[0] {
        assert rest[0] in rest;
        SplitChars(s[1..], sep, rest[0], c);
      }
    }
  }

  lemma Regroup(a: string, b: string, c: string, d: string)
    ensures a + b + c + d == a + (b + c + d)
  {
  }

  lemma RegroupTail(head: string, a: string, b: string, c: string, d: string)
    ensures head + a + b + c + d == head + (a + b + c + d)
  {
    Regroup(head, a, b, c);
    Regroup(head, a + b + c, d, []);
    assert a + b + c + d + [] == a + b + c + d;
    assert head + (a + b + c) + d + [] == head + (a + b + c) + d;
  }

  lemma Reassociate<T>(a: seq<T>, b: seq<T>, c: seq<T>)
    ensures a + (b + c) == (a + b) + c
  {
  }

  lemma TakeMore<T>(s: seq<T>, i: nat)
    requires i < |s|
    ensures s[..i + 1] == s[..i] + [s[i]]
  {
  }

  // ----- whitespace and case --------------------------------------------

  /** Unicode `White_Space`. */
  predicate IsWhitespace(c: char) {
    || '\t' <= c <= '\r'
    || c in {' ', '\U{85}', '\U{A0}', '\U{1680}', '\U{2028}', '\U{2029}', '\U{202F}', '\U{205F}', '\U{3000}'}
    || '\U{2000}' <= c <= '\U{200A}'
  }

  /** The 25 code points by number. */
  lemma WhitespaceExactly(c: char)
    ensures IsWhitespace(c) <==>
              c as int in {9, 10, 11, 12, 13, 32, 133, 160, 5760, 8192, 8193, 8194, 8195, 8196, 8197, 8198, 8199, 8200,
                           8201, 8202, 8232, 8233, 8239, 8287, 12288}
  {
    var n := c as int;
    assert c == n as char;
  }

  function TrimStart(s: string): string {
    if s != [] && IsWhitespace(s[0]) then TrimStart(s[1..]) else s
  }

  function TrimEnd(s: string): string {
    if s != [] && IsWhitespace(s[|s| - 1]) then TrimEnd(s[..|s| - 1]) else s
  }

  function Trim(s: string): string {
    TrimEnd(TrimStart(s))
  }

  lemma {:induction false} TrimEndChars(s: string)
    ensures TrimEnd(s) <= s
    ensures TrimEnd(s) != [] ==> !IsWhitespace(TrimEnd(s)[|TrimEnd(s)| - 1])
  {
    if s != [] && IsWhitespace(s[|s| - 1]) { TrimEndChars(s[..|s| - 1]); }
  }

  lemma {:induction false} TrimStartChars(s: string)
    ensures forall c :: c in TrimStart(s) ==> c in s
    ensures TrimStart(s) != [] ==> !IsWhitespace(TrimStart(s)[0])
  {
    if s != [] && IsWhitespace(s[0]) { TrimStartChars(s[1..]); }
  }

  predicate AllWhitespace(s: string) {
    forall c :: c in s ==> IsWhitespace(c)
  }

  lemma {:induction false} TrimStartExactly(s: string)
    ensures exists a :: AllWhitespace(a) && s == a + TrimStart(s)
  {
    if s != [] && IsWhitespace(s[0]) {
      TrimStartExactly(s[1..]);
      var a :| AllWhitespace(a) && s[1..] == a + TrimStart(s[1..]);
      assert s == ([s[0]] + a) + TrimStart(s) && AllWhitespace([s[0]] + a);
    } else {
      assert s == [] + TrimStart(s) && AllWhitespace([]);
    }
  }

  lemma {:induction false} TrimEndExactly(s: string)
    ensures exists b :: AllWhitespace(b) && s == TrimEnd(s) + b
  {
    if s != [] && IsWhitespace(s[|s| - 1]) {
      TrimEndExactly(s[..|s| - 1]);
      var b :| AllWhitespace(b) && s[..|s| - 1] == TrimEnd(s[..|s| - 1]) + b;
      assert s == TrimEnd(s) + (b + [s[|s| - 1]]) && AllWhitespace(b + [s[|s| - 1]]);
    } else {
      assert s == TrimEnd(s) + [] && AllWhitespace([]);
    }
  }

  /** Trimming takes whitespace off both ends, all of it and nothing else. */
  lemma TrimExactly(s: string, t: string)
    ensures t == Trim(s) <==>
              && (exists a, b :: AllWhitespace(a) && AllWhitespace(b) && s == a + t + b)
              && (t != [] ==> !IsWhitespace(t[0]) && !IsWhitespace(t[|t| - 1]))
  {
    TrimStartExactly(s);
    TrimEndExactly(TrimStart(s));
    var a :| AllWhitespace(a) && s == a + TrimStart(s);
    var b :| AllWhitespace(b) && TrimStart(s) == Trim(s) + b;
    assert s == a + Trim(s) + b;
    TrimStartChars(s);
    TrimEndChars(TrimStart(s));
    if && (exists a, b :: AllWhitespace(a) && AllWhitespace(b) && s == a + t + b)
       && (t != [] ==> !IsWhitespace(t[0]) && !IsWhitespace(t[|t| - 1])) {
      var c, d :| AllWhitespace(c) && AllWhitespace(d) && s == c + t + d;
      SameMiddle(a, Trim(s), b, c, t, d);
    }
  }

  lemma SameMiddle(a: string, s: string, b: string, c: string, t: string, d: string)
    requires AllWhitespace(a) && AllWhitespace(b) && AllWhitespace(c) && AllWhitespace(d) && a + s + b == c + t + d
    requires s != [] ==> !IsWhitespace(s[0]) && !IsWhitespace(s[|s| - 1])
    requires t != [] ==> !IsWhitespace(t[0]) && !IsWhitespace(t[|t| - 1])
    ensures s == t
  {
    var whole := a + s + b;
    assert forall i :: 0 <= i < |a| ==> whole[i] == a[i] && a[i] in a;
    assert forall i :: |a + s| <= i < |whole| ==> whole[i] == b[i - |a + s|] && b[i - |a + s|] in b;
    assert forall i :: 0 <= i < |c| ==> whole[i] == c[i] && c[i] in c;
    assert forall i :: |c + t| <= i < |whole| ==> whole[i] == d[i - |c + t|] && d[i - |c + t|] in d;
    if s != [] { assert whole[|a|] == s[0] && whole[|a + s| - 1] == s[|s| - 1]; }
    if t != [] { assert whole[|c|] == t[0] && whole[|c + t| - 1] == t[|t| - 1]; }
    if s != [] && t != [] {
      assert s == whole[|a|..|a + s|] && t == whole[|c|..|c + t|];
    }
  }

  lemma TrimIdempotent(s: string)
    ensures Trim(Trim(s)) == Trim(s)
    ensures forall c :: c in Trim(s) ==> c in s
  {
    TrimStartChars(s);
    TrimEndChars(TrimStart(s));
    TrimEndChars(Trim(s));
  }

  function LowerChar(c: char): char {
    if 'A' <= c <= 'Z' then (c as int - 'A' as int + 'a' as int) as char else c
  }

  function Lower(s: string): string {
    seq(|s|, i requires 0 <= i < |s| => LowerChar(s[i]))
  }

  /** Each letter of the first alphabet becomes the one at its place in the
      second; everything else stays. */
  lemma LowerExactly(s: string, i: nat)
    requires i < |s|
    ensures var capitals, small := "ABCDEFGHIJKLMNOPQRSTUVWXYZ", "abcdefghijklmnopqrstuvwxyz";
            && |Lower(s)| == |s|
            && (forall j :: 0 <= j < 26 && s[i] == capitals[j] ==> Lower(s)[i] == small[j])
            && (s[i] !in capitals ==> Lower(s)[i] == s[i])
  {
    var capitals, small := "ABCDEFGHIJKLMNOPQRSTUVWXYZ", "abcdefghijklmnopqrstuvwxyz";
    assert forall j :: 0 <= j < 26 ==> capitals[j] as int == 65 + j;
    assert forall j :: 0 <= j < 26 ==> small[j] as int == 97 + j;
    if 'A' <= s[i] <= 'Z' {
      assert s[i] == capitals[s[i] as int - 65];
    }
  }

  lemma LowerFixed(s: string)
    requires forall c :: c in s ==> !('A' <= c <= 'Z')
    ensures Lower(s) == s
  {
    forall i | 0 <= i < |s| ensures Lower(s)[i] == s[i] {
      assert s[i] in s;
    }
  }

  /** Text that neither starts nor ends with whitespace is trimmed. */
  lemma TrimFixed(s: string)
    requires s != [] && !IsWhitespace(s[0]) && !IsWhitespace(s[|s| - 1])
    ensures Trim(s) == s
  {
  }

  // ----- decimal numbers ------------------------------------------------

  function Digit(d: nat): char
    requires d < 10
  {
    ('0' as int + d) as char
  }

  function Decimal(n: nat): string {
    if n < 10 then [Digit(n)] else Decimal(n / 10) + [Digit(n % 10)]
  }

  function DecimalValue(s: string): int {
    if s == [] then 0 else 10 * DecimalValue(s[..|s| - 1]) + (s[|s| - 1] as int - '0' as int)
  }

  lemma {:induction false} DecimalRoundTrip(n: nat)
    ensures DecimalValue(Decimal(n)) == n
    ensures forall c :: c in Decimal(n) ==> '0' <= c <= '9'
    ensures Decimal(n) != [] && (Decimal(n)[0] == '0' <==> n == 0) && (|Decimal(n)| == 1 <==> n < 10)
  {
    if n >= 10 {
      DecimalRoundTrip(n / 10);
      assert Decimal(n)[..|Decimal(n)| - 1] == Decimal(n / 10);
    } else {
      assert Decimal(n)[..0] == [];
    }
  }
}
