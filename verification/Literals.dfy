/**
  How a text value travels into a config line: quoted as a TOML literal, in a replacement also run
  through a pattern template, and read back by a TOML parser.
 */
module Literals {
  import opened Common

  const LF := '\n'
  const CR := '\r'
  const TAB := '\t'
  const QUOTE := '"'
  const BACKSLASH := '\\'
  const DEL := 127 as char

  predicate Control(c: char) { c as int < 32 }

  // --- Quoting ---

  function HexDigit(n: int): char
    requires 0 <= n < 16
  {
    if n < 10 then (48 + n) as char else (87 + n) as char
  }

  /** One character of a quoted literal. */
  function Escaped(c: char): string {
    if c == BACKSLASH then [BACKSLASH, BACKSLASH]
    else if c == QUOTE then [BACKSLASH, QUOTE]
    else if c == LF then [BACKSLASH, 'n']
    else if c == CR then [BACKSLASH, 'r']
    else if c == TAB then [BACKSLASH, 't']
    else if Control(c) then [BACKSLASH, 'u', '0', '0', HexDigit(c as int / 16), HexDigit(c as int % 16)]
    else [c]
  }

  function EscapedAll(v: string): string {
    if v == "" then "" else Escaped(v[0]) + EscapedAll(v[1..])
  }

  /** The literal without its opening quote. */
  function Quoted(v: string): string { EscapedAll(v) + [QUOTE] }

  // --- Template expansion ---

  predicate AsciiLetter(c: char) { 'a' <= c <= 'z' || 'A' <= c <= 'Z' }

  function Before(c: string, rest: Option<string>): Option<string> {
    if rest == None then None else Some(c + rest.value)
  }

  /** What a template makes of a backslash and the character after it; None where it is refused. */
  function TemplateEscape(c: char): Option<string> {
    if c == BACKSLASH then Some([BACKSLASH])
    else if c == 'n' then Some([LF])
    else if c == 'r' then Some([CR])
    else if c == 't' then Some([TAB])
    else if c == 'a' then Some([7 as char])
    else if c == 'b' then Some([8 as char])
    else if c == 'f' then Some([12 as char])
    else if c == 'v' then Some([11 as char])
    else if AsciiLetter(c) || '0' <= c <= '9' then None
    else Some([BACKSLASH, c])
  }

  function Expand(s: string): Option<string> {
    if s == "" then Some("")
    else if s[0] != BACKSLASH then Before([s[0]], Expand(s[1..]))
    else if |s| == 1 || TemplateEscape(s[1]) == None then None
    else Before(TemplateEscape(s[1]).value, Expand(s[2..]))
  }

  // --- Reading ---

  /** Not allowed as it stands inside a quoted literal. */
  predicate Illegal(c: char) { (Control(c) && c != TAB) || c == DEL }

  function HexValue(c: char): Option<int> {
    if '0' <= c <= '9' then Some(c as int - 48)
    else if 'a' <= c <= 'f' then Some(c as int - 87)
    else if 'A' <= c <= 'F' then Some(c as int - 55)
    else None
  }

  /** The number the first n characters spell, if they are hex digits. */
  function HexNumber(s: string, n: nat): Option<nat>
    decreases n
  {
    if n == 0 then Some(0)
    else if |s| < n || HexValue(s[n - 1]) == None then None
    else
      var front := HexNumber(s, n - 1);
      if front == None then None else Some(16 * front.value + HexValue(s[n - 1]).value)
  }

  function ScalarOf(n: Option<nat>): Option<char> {
    if n.Some? && (n.value < 0xD800 || 0xE000 <= n.value < 0x11_0000) then Some(n.value as char) else None
  }

  /** The single-character escapes of a quoted literal. */
  function ReadEscape(c: char): Option<char> {
    if c == BACKSLASH || c == QUOTE then Some(c)
    else if c == 'b' then Some(8 as char)
    else if c == 't' then Some(TAB)
    else if c == 'n' then Some(LF)
    else if c == 'f' then Some(12 as char)
    else if c == 'r' then Some(CR)
    else None
  }

  /** What may follow the closing quote on its line: blanks, and a comment. */
  predicate Trailing(s: string) {
    s == "" || ((s[0] == ' ' || s[0] == TAB) && Trailing(s[1..]))
        || (s[0] == '#' && forall i :: 0 <= i < |s| ==> !Illegal(s[i]))
  }

  /** What a parser reads after the opening quote; None where the line does not parse. */
  function Read(s: string): Option<string>
    decreases |s|, 0
  {
    if s == "" then None
    else if s[0] == QUOTE then if Trailing(s[1..]) then Some("") else None
    else if s[0] != BACKSLASH then if Illegal(s[0]) then None else Before([s[0]], Read(s[1..]))
    else if |s| == 1 then None
    else if s[1] == 'u' then ReadCode(s[2..], 4)
    else if s[1] == 'U' then ReadCode(s[2..], 8)
    else if ReadEscape(s[1]) == None then None
    else Before([ReadEscape(s[1]).value], Read(s[2..]))
  }

  /** A character given by its number, and the rest. */
  function ReadCode(s: string, n: nat): Option<string>
    decreases |s|, 1
  {
    var c := ScalarOf(HexNumber(s, n));
    if c == None || |s| < n then None else Before([c.value], Read(s[n..]))
  }

  // --- An inserted line ---

  /** What is read back from a literal written as it is. */
  function InsertRead(v: string): Option<string> { Read(Quoted(v)) }

  predicate InsertSafe(v: string) { DEL !in v }

  lemma CodeReads(c: char, rest: string)
    requires Control(c)
    ensures Read(['\\', 'u', '0', '0', HexDigit(c as int / 16), HexDigit(c as int % 16)] + rest) ==
            Before([c], Read(rest))
  {
    var hi, lo := c as int / 16, c as int % 16;
    var s := ['\\', 'u', '0', '0', HexDigit(hi), HexDigit(lo)] + rest;
    var t := s[2..];
    assert t == ['0', '0', HexDigit(hi), HexDigit(lo)] + rest;
    assert HexValue(HexDigit(hi)) == Some(hi) && HexValue(HexDigit(lo)) == Some(lo);
    assert HexNumber(t, 1) == Some(0);
    assert HexNumber(t, 2) == Some(0);
    assert HexNumber(t, 3) == Some(hi);
    assert HexNumber(t, 4) == Some(16 * hi + lo);
    assert t[4..] == rest;
  }

  lemma EscapedReads(c: char, rest: string)
    ensures Read(Escaped(c) + rest) == if c == DEL then None else Before([c], Read(rest))
  {
    var s := Escaped(c) + rest;
    if Control(c) && c != LF && c != CR && c != TAB {
      CodeReads(c, rest);
    } else if |Escaped(c)| == 2 {
      assert s[2..] == rest;
    } else {
      assert s[1..] == rest;
    }
  }

  /**
    A literal written as it is reads back exactly when it holds no DEL, which is not escaped;
    otherwise the line does not parse.
   */
  lemma {:induction false} InsertReadsExactly(v: string)
    ensures InsertRead(v) == if InsertSafe(v) then Some(v) else None
  {
    if v == "" {
      assert Quoted(v) == [QUOTE];
    } else {
      var rest := v[1..];
      InsertReadsExactly(rest);
      assert Quoted(v) == Escaped(v[0]) + Quoted(rest);
      EscapedReads(v[0], Quoted(rest));
      assert v == [v[0]] + rest;
    }
  }

  // --- A raw line ---

  /** What is read back from a value put between quotes unescaped. */
  function RawRead(v: string): Option<string> { Read(v + [QUOTE]) }

  predicate RawSafe(v: string) {
    forall i :: 0 <= i < |v| ==> v[i] != BACKSLASH && v[i] != QUOTE && !Illegal(v[i])
  }

  /** Without a backslash or a quote, a raw value reads back exactly when no character of it is illegal. */
  lemma {:induction false} RawReadsExactly(v: string)
    requires BACKSLASH !in v && QUOTE !in v
    ensures RawRead(v) == if RawSafe(v) then Some(v) else None
  {
    if v == "" {
      assert v + [QUOTE] == [QUOTE];
    } else {
      var rest := v[1..];
      RawReadsExactly(rest);
      assert (v + [QUOTE])[1..] == rest + [QUOTE];
      assert v == [v[0]] + rest;
      assert RawSafe(v) <==> !Illegal(v[0]) && RawSafe(rest);
    }
  }

  // --- A replaced line ---

  /** One character of a literal after the template. */
  function Replaced(c: char): string {
    if c == QUOTE then [BACKSLASH, QUOTE] else [c]
  }

  function ReplacedAll(v: string): string {
    if v == "" then "" else Replaced(v[0]) + ReplacedAll(v[1..])
  }

  /** A control character other than tab and the two line ends: its escape is refused by the template. */
  predicate Refused(c: char) { Control(c) && c != LF && c != CR && c != TAB }

  predicate HasRefused(v: string) { exists i :: 0 <= i < |v| && Refused(v[i]) }

  lemma EscapedExpands(c: char, rest: string)
    ensures Expand(Escaped(c) + rest) == if Refused(c) then None else Before(Replaced(c), Expand(rest))
  {
    var s := Escaped(c) + rest;
    if |Escaped(c)| == 1 {
      assert s[1..] == rest;
    } else if |Escaped(c)| == 2 {
      assert s[2..] == rest;
    } else {
      assert s[1] == 'u';
    }
  }

  /** The template undoes the escapes of backslash and line ends, keeps those of quotes, and refuses numbered ones. */
  lemma {:induction false} ExpandsExactly(v: string)
    ensures Expand(Quoted(v)) == if HasRefused(v) then None else Some(ReplacedAll(v) + [QUOTE])
  {
    if v == "" {
      assert Quoted(v) == [QUOTE] && [QUOTE][1..] == "";
      assert [QUOTE] + "" == [QUOTE] && ReplacedAll(v) + [QUOTE] == [QUOTE];
    } else {
      var rest := v[1..];
      ExpandsExactly(rest);
      assert Quoted(v) == Escaped(v[0]) + Quoted(rest);
      EscapedExpands(v[0], Quoted(rest));
      if i :| 0 <= i < |rest| && Refused(rest[i]) { assert Refused(v[i + 1]); }
      if i :| 0 <= i < |v| && Refused(v[i]) { assert i > 0 ==> Refused(rest[i - 1]); }
      assert Replaced(v[0]) + (ReplacedAll(rest) + [QUOTE]) == ReplacedAll(v) + [QUOTE];
    }
  }

  /** What is read back from a literal that went through the template. */
  function ReplaceRead(v: string): Option<string> { Read(ReplacedAll(v) + [QUOTE]) }

  predicate Kept(c: char) { c != BACKSLASH && !Illegal(c) }

  predicate ReplaceSafe(v: string) { forall i :: 0 <= i < |v| ==> Kept(v[i]) }

  lemma ReplacedReads(c: char, rest: string)
    requires c != BACKSLASH
    ensures Read(Replaced(c) + rest) == if Kept(c) then Before([c], Read(rest)) else None
  {
    var s := Replaced(c) + rest;
    if c == QUOTE {
      assert s[2..] == rest;
    } else {
      assert s[1..] == rest;
    }
  }

  lemma ReplacedSplits(v: string)
    requires v != ""
    ensures ReplacedAll(v) + [QUOTE] == Replaced(v[0]) + (ReplacedAll(v[1..]) + [QUOTE])
  {
  }

  lemma {:induction false} SafeReads(v: string)
    requires ReplaceSafe(v)
    ensures ReplaceRead(v) == Some(v)
  {
    if v == "" {
      assert ReplacedAll(v) + [QUOTE] == [QUOTE];
    } else {
      SafeReads(v[1..]);
      ReplacedSplits(v);
      ReplacedReads(v[0], ReplacedAll(v[1..]) + [QUOTE]);
      assert v == [v[0]] + v[1..];
    }
  }

  /** Without a backslash, one character that is not kept makes the line unparsable. */
  lemma {:induction false} UnkeptBreaks(v: string)
    requires BACKSLASH !in v && !ReplaceSafe(v)
    ensures ReplaceRead(v) == None
  {
    ReplacedSplits(v);
    ReplacedReads(v[0], ReplacedAll(v[1..]) + [QUOTE]);
    if Kept(v[0]) {
      assert !ReplaceSafe(v[1..]) by {
        var i :| 0 <= i < |v| && !Kept(v[i]);
        assert v[1..][i - 1] == v[i];
      }
      UnkeptBreaks(v[1..]);
    }
  }

  // --- A backslash shortens ---

  /** The replaced literal from some character on, with its closing quote. */
  function Tail(v: string): string { ReplacedAll(v) + [QUOTE] }

  /** A hex digit at the front of the literal is the value's own next character. */
  lemma HexIsOwn(v: string)
    requires HexValue(Tail(v)[0]).Some?
    ensures v != "" && Tail(v)[0] == v[0] && Tail(v)[1..] == Tail(v[1..])
  {
    assert v == "" ==> Tail(v) == [QUOTE];
    if v != "" { ReplacedSplits(v); }
  }

  lemma {:induction false} HexPrefix(s: string, n: nat, k: nat)
    requires HexNumber(s, n).Some? && k < n
    ensures n <= |s| && HexValue(s[k]).Some?
  {
    if k < n - 1 {
      HexPrefix(s, n - 1, k);
    }
  }

  /** As many hex digits at the front are as many of the value's own characters. */
  lemma {:induction false} HexesAreOwn(v: string, n: nat)
    requires n <= |Tail(v)| && forall k :: 0 <= k < n ==> HexValue(Tail(v)[k]).Some?
    ensures n <= |v| && Tail(v)[n..] == Tail(v[n..])
  {
    if n == 0 {
      assert v[0..] == v && Tail(v)[0..] == Tail(v);
    } else {
      HexIsOwn(v);
      var rest := v[1..];
      forall k | 0 <= k < n - 1 ensures HexValue(Tail(rest)[k]).Some? { assert Tail(v)[k + 1] == Tail(rest)[k]; }
      HexesAreOwn(rest, n - 1);
      assert rest[n - 1..] == v[n..];
      assert Tail(v)[n..] == Tail(rest)[n - 1..];
    }
  }

  lemma CodeIsOwn(v: string, n: nat)
    requires ReadCode(Tail(v), n).Some?
    ensures n <= |v| && Read(Tail(v[n..])).Some? && |ReadCode(Tail(v), n).value| == 1 + |Read(Tail(v[n..])).value|
  {
    forall k | 0 <= k < n ensures HexValue(Tail(v)[k]).Some? { HexPrefix(Tail(v), n, k); }
    HexesAreOwn(v, n);
  }

  /** A backslash at the end of the value swallows the closing quote. */
  lemma LastBackslash(v: string)
    requires v != "" && v[0] == BACKSLASH
    ensures |v| == 1 ==> Read(Tail(v)) == None
  {
    ReplacedSplits(v);
    assert |v| == 1 ==> Tail(v) == [BACKSLASH, QUOTE] && Tail(v)[2..] == "";
  }

  /** After a backslash of the value: what is left is shorter, and at most one character was read for it. */
  lemma AfterEscape(v: string) returns (n: nat)
    requires |v| >= 2 && v[0] == BACKSLASH && Read(Tail(v)).Some?
    ensures 2 <= n <= |v|
    ensures |Read(Tail(v)).value| == 1
            || (Read(Tail(v[n..])).Some? && |Read(Tail(v)).value| == 1 + |Read(Tail(v[n..])).value|)
  {
    var s, d := Tail(v), v[1];
    ReplacedSplits(v);
    ReplacedSplits(v[1..]);
    assert v[1..][1..] == v[2..];
    assert s == [BACKSLASH] + (Replaced(d) + Tail(v[2..]));
    n := 2;
    if d == QUOTE {
      assert s[1] == BACKSLASH && s[2..] == [QUOTE] + Tail(v[2..]);
      assert Read(s[2..]) == Some("");
    } else {
      assert s[1] == d && s[2..] == Tail(v[2..]);
      if d == 'u' || d == 'U' {
        var m := if d == 'u' then 4 else 8;
        CodeIsOwn(v[2..], m);
        assert v[2..][m..] == v[2 + m..];
        n := 2 + m;
      }
    }
  }

  /**
    What is read back from a replaced line is never longer than what was meant, and shorter if that
    had a backslash.
   */
  lemma {:induction false} ReplacingShortens(v: string)
    requires ReplaceRead(v).Some?
    ensures |ReplaceRead(v).value| <= |v|
    ensures BACKSLASH in v ==> |ReplaceRead(v).value| < |v|
    decreases |v|
  {
    if v == "" {
      assert ReplacedAll(v) + [QUOTE] == [QUOTE];
    } else if v[0] == BACKSLASH {
      LastBackslash(v);
      var n := AfterEscape(v);
      if |Read(Tail(v)).value| != 1 {
        ReplacingShortens(v[n..]);
      }
    } else {
      ReplacedSplits(v);
      ReplacedReads(v[0], Tail(v[1..]));
      ReplacingShortens(v[1..]);
      assert BACKSLASH in v ==> BACKSLASH in v[1..];
    }
  }

  /** A replaced line reads back exactly when the value holds no backslash, no control character but tab, and no DEL. */
  lemma ReplaceReadsExactly(v: string)
    ensures ReplaceRead(v) == Some(v) <==> ReplaceSafe(v)
  {
    if ReplaceSafe(v) {
      SafeReads(v);
    } else if BACKSLASH in v {
      if ReplaceRead(v).Some? { ReplacingShortens(v); }
    } else {
      UnkeptBreaks(v);
    }
  }
}
