/** How `git log --name-only` prints a path: as it is when every byte is
    printable ASCII other than `"` and `\`, as a quoted C string otherwise. */
module Quoting {
  import opened CommitGraph

  predicate Plain(c: char) {
    ' ' <= c <= '~' && c != '"' && c != '\\'
  }

  predicate Verbatim(p: Path) {
    forall i :: 0 <= i < |p| ==> Plain(p[i])
  }

  function Utf8(c: char): seq<nat> {
    var n := c as int;
    if n < 0x80 then [n]
    else if n < 0x800 then [0xC0 + n / 0x40, 0x80 + n % 0x40]
    else if n < 0x1_0000 then [0xE0 + n / 0x1000, 0x80 + n / 0x40 % 0x40, 0x80 + n % 0x40]
    else [0xF0 + n / 0x4_0000, 0x80 + n / 0x1000 % 0x40, 0x80 + n / 0x40 % 0x40, 0x80 + n % 0x40]
  }

  function OctalDigit(d: nat): char {
    "01234567"[d % 8]
  }

  function Octal(bytes: seq<nat>): string {
    if bytes == [] then [] else
      var b := bytes[0];
      ['\\', OctalDigit(b / 64), OctalDigit(b / 8), OctalDigit(b)] + Octal(bytes[1..])
  }

  function Escape(c: char): string {
    if Plain(c) then [c]
    else if c == '"' || c == '\\' then ['\\', c]
    else match c as int
      case 7 => "\\a"
      case 8 => "\\b"
      case 9 => "\\t"
      case 10 => "\\n"
      case 11 => "\\v"
      case 12 => "\\f"
      case 13 => "\\r"
      case _ => Octal(Utf8(c))
  }

  function EscapeAll(p: string): string {
    if p == [] then [] else Escape(p[0]) + EscapeAll(p[1..])
  }

  function Printed(p: Path): string {
    if Verbatim(p) then p else ['"'] + EscapeAll(p) + ['"']
  }

  lemma {:induction false} EscapeAllGrows(p: string)
    ensures |p| <= |EscapeAll(p)|
  {
    if p != [] { EscapeAllGrows(p[1..]); }
  }

  /** A path is printed as another string exactly when it is not verbatim, and
      that string is never a verbatim path. */
  lemma PrintedExactly(p: Path)
    ensures Printed(p) == p <==> Verbatim(p)
    ensures Verbatim(Printed(p)) <==> Verbatim(p)
  {
    EscapeAllGrows(p);
    if !Verbatim(p) { assert !Plain(Printed(p)[0]); }
  }

  /** Printed as it is: bytes 32 to 126 other than 34 and 92. */
  lemma VerbatimExactly(p: Path)
    ensures Verbatim(p) <==> forall i :: 0 <= i < |p| ==> 32 <= p[i] as int <= 126 && p[i] as int !in {34, 92}
  {
    forall c: char ensures Plain(c) <==> 32 <= c as int <= 126 && c as int !in {34, 92} {
    }
  }

  function FromOctal(digits: string): int {
    if digits == [] then 0 else 8 * FromOctal(digits[..|digits| - 1]) + (digits[|digits| - 1] as int - 48)
  }

  /** A byte is escaped as a backslash and its three octal digits. */
  lemma OctalExactly(b: nat)
    requires b < 256
    ensures var s := Octal([b]);
            && |s| == 4 && s[0] == '\\' && FromOctal(s[1..]) == b
            && forall i :: 1 <= i < 4 ==> '0' <= s[i] <= '7'
  {
    var x, y, z := OctalDigit(b / 64), OctalDigit(b / 8), OctalDigit(b);
    assert Octal([b]) == ['\\', x, y, z] by { assert [b][1..] == []; }
    DigitValue(b / 64);
    DigitValue(b / 8);
    DigitValue(b);
    assert Octal([b])[1..] == [x, y, z];
    ThreeDigits([x, y, z]);
  }

  lemma DigitValue(d: nat)
    ensures OctalDigit(d) as int == 48 + d % 8
    ensures '0' <= OctalDigit(d) <= '7'
  {
    var digits := "01234567";
    assert forall k :: 0 <= k < 8 ==> digits[k] as int == 48 + k;
  }

  lemma ThreeDigits(s: string)
    requires |s| == 3
    ensures FromOctal(s) == 64 * (s[0] as int - 48) + 8 * (s[1] as int - 48) + (s[2] as int - 48)
  {
    assert s[..2][..1] == s[..1] && s[..1][..0] == [];
    assert FromOctal(s[..1]) == s[0] as int - 48;
    assert FromOctal(s[..2]) == 8 * FromOctal(s[..1]) + (s[1] as int - 48);
  }

  lemma {:induction false} OctalConcatenates(a: seq<nat>, b: seq<nat>)
    ensures Octal(a + b) == Octal(a) + Octal(b)
  {
    if a == [] {
      assert a + b == b;
    } else {
      assert (a + b)[1..] == a[1..] + b;
      OctalConcatenates(a[1..], b);
    }
  }

  lemma SixBits(n: nat)
    ensures n == 64 * (n / 64) + n % 64
    ensures n == 4096 * (n / 4096) + 64 * (n / 64 % 64) + n % 64
    ensures n == 262_144 * (n / 262_144) + 4096 * (n / 4096 % 64) + 64 * (n / 64 % 64) + n % 64
  {
    assert n / 4096 == n / 64 / 64;
    assert n / 262_144 == n / 4096 / 64;
  }

  /** Section 3 of RFC 3629: the bytes of a character hold its number, seven
      bits in one byte or six in each but the first. */
  lemma Utf8Exactly(c: char)
    ensures c as int < 0x80 ==> Utf8(c) == [c as int]
    ensures 0x80 <= c as int < 0x800 ==>
              && |Utf8(c)| == 2 && 0xC2 <= Utf8(c)[0] < 0xE0
              && c as int == 64 * (Utf8(c)[0] - 0xC0) + (Utf8(c)[1] - 0x80)
    ensures 0x800 <= c as int < 0x1_0000 ==>
              && |Utf8(c)| == 3 && 0xE0 <= Utf8(c)[0] < 0xF0
              && c as int == 4096 * (Utf8(c)[0] - 0xE0) + 64 * (Utf8(c)[1] - 0x80) + (Utf8(c)[2] - 0x80)
    ensures 0x1_0000 <= c as int ==>
              && |Utf8(c)| == 4 && 0xF0 <= Utf8(c)[0] <= 0xF4
              && c as int == 262_144 * (Utf8(c)[0] - 0xF0) + 4096 * (Utf8(c)[1] - 0x80)
                             + 64 * (Utf8(c)[2] - 0x80) + (Utf8(c)[3] - 0x80)
    ensures forall i :: 1 <= i < |Utf8(c)| ==> 0x80 <= Utf8(c)[i] < 0xC0
  {
    SixBits(c as int);
  }

  /** Named escapes, the quote and the backslash are two characters; all other
      bytes that are not printed as they are go out in octal. */
  lemma EscapeExactly(c: char)
    requires !Plain(c)
    ensures c in {'"', '\\'} ==> Escape(c) == ['\\', c]
    ensures 7 <= c as int <= 13 ==> Escape(c) == ['\\', "abtnvfr"[c as int - 7]]
    ensures c !in {'"', '\\'} && !(7 <= c as int <= 13) ==> Escape(c) == Octal(Utf8(c))
  {
  }

  lemma {:induction false} EscapeAllConcatenates(a: string, b: string)
    ensures EscapeAll(a + b) == EscapeAll(a) + EscapeAll(b)
  {
    if a == [] {
      assert a + b == b;
    } else {
      assert (a + b)[1..] == a[1..] + b;
      EscapeAllConcatenates(a[1..], b);
    }
  }

  lemma {:induction false} VerbatimEscape(p: string)
    requires Verbatim(p)
    ensures EscapeAll(p) == p
  {
    if p != [] {
      assert forall i :: 0 <= i < |p[1..]| ==> p[1..][i] == p[i + 1];
      VerbatimEscape(p[1..]);
    }
  }

  lemma AccentEscape()
    ensures Escape('\U{e9}') == "\\303\\251"
  {
    var bytes := [0xC3, 0xA9];
    assert Utf8('\U{e9}') == bytes;
    assert bytes[1..] == [0xA9] && [0xA9][1..] == [];
    assert Octal([0xA9]) == "\\251";
  }

  /** An accented letter is enough. */
  lemma AccentedIsQuoted(tail: string)
    requires Verbatim(tail)
    ensures Printed(['\U{e9}'] + tail) == ['"'] + ("\\303\\251" + tail) + ['"']
  {
    var p := ['\U{e9}'] + tail;
    assert p[0] == '\U{e9}' && p[1..] == tail;
    VerbatimEscape(tail);
    AccentEscape();
  }
}
