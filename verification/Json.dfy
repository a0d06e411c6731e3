/**
 The pieces of text that an event record is made of: JSON string bodies (section 7 of
 RFC 8259) and decimal numbers, each with the reader that takes it apart again.
 */
module Json {
  import opened Options
  import opened Timestamp

  // ---------------------------------------------------------------- strings

  const HEX := "0123456789abcdef"

  function HexDigit(n: int): char
    requires 0 <= n < 16
  {
    HEX[n]
  }

  /** What the source writes for one character. */
  function Escape(c: char): string {
    if c == '"' then "\\\""
    else if c == '\\' then "\\\\"
    else if c == '\n' then "\\n"
    else if c == '\r' then "\\r"
    else if c == '\t' then "\\t"
    else if c as int < 0x20 then "\\u00" + [HexDigit(c as int / 16), HexDigit(c as int % 16)]
    else [c]
  }

  function EscapeAll(s: string): string {
    if s == "" then "" else EscapeAll(s[..|s| - 1]) + Escape(s[|s| - 1])
  }

  function HexValue(c: char): (v: Option<int>)
    ensures v.Some? ==> 0 <= v.value < 16
  {
    if '0' <= c <= '9' then Some(c as int - '0' as int)
    else if 'a' <= c <= 'f' then Some(c as int - 'a' as int + 10)
    else if 'A' <= c <= 'F' then Some(c as int - 'A' as int + 10)
    else None
  }

  /** Four hexadecimal digits naming a character of the basic plane. */
  function FourHex(s: string): Option<char>
    requires |s| >= 4
  {
    var a, b, c, d := HexValue(s[0]), HexValue(s[1]), HexValue(s[2]), HexValue(s[3]);
    if a.None? || b.None? || c.None? || d.None? then None
    else
      var v := ((a.value * 16 + b.value) * 16 + c.value) * 16 + d.value;
      if v < 0xD800 then Some(v as char) else None
  }

  /** One character of a JSON string body: what it stands for, and what follows it. */
  function ReadChar(s: string): (r: Option<(char, string)>)
    ensures r.Some? ==> |r.value.1| < |s|
  {
    if s == "" || s[0] as int < 0x20 || s[0] == '"' then None
    else if s[0] != '\\' then Some((s[0], s[1..]))
    else if |s| < 2 then None
    else if s[1] == '"' || s[1] == '\\' || s[1] == '/' then Some((s[1], s[2..]))
    else if s[1] == 'n' then Some(('\n', s[2..]))
    else if s[1] == 'r' then Some(('\r', s[2..]))
    else if s[1] == 't' then Some(('\t', s[2..]))
    else if s[1] == 'b' then Some((8 as char, s[2..]))
    else if s[1] == 'f' then Some((12 as char, s[2..]))
    else if s[1] == 'u' && |s| >= 6 && FourHex(s[2..6]).Some? then Some((FourHex(s[2..6]).value, s[6..]))
    else None
  }

  /** A JSON string body up to its closing quotation mark, and what follows that. */
  function ReadString(s: string): (r: Option<(string, string)>)
    decreases |s|
  {
    if s != "" && s[0] == '"' then Some(("", s[1..]))
    else
      match ReadChar(s)
      case None => None
      case Some((c, rest)) =>
        match ReadString(rest)
        case None => None
        case Some((v, after)) => Some(([c] + v, after))
  }

  /** An escaped character is never a bare quotation mark and reads back as itself. */
  lemma EscapeReads(c: char, rest: string)
    ensures Escape(c) != "" && (Escape(c) + rest)[0] != '"'
    ensures ReadChar(Escape(c) + rest) == Some((c, rest))
  {
    var e := Escape(c);
    assert (e + rest)[|e|..] == rest;
    if |e| == 6 {
      assert (e + rest)[2..6] == e[2..6];
      ControlReads(c);
    }
  }

  lemma ControlReads(c: char)
    requires c as int < 0x20 && |Escape(c)| == 6
    ensures FourHex(Escape(c)[2..6]) == Some(c)
  {
    var v := c as int;
    assert HexValue(HexDigit(v / 16)) == Some(v / 16);
    assert HexValue(HexDigit(v % 16)) == Some(v % 16);
  }

  /** Short escapes where the code has them, lower-case hexadecimal for every other control
      character, and everything else as it is. */
  lemma EscapeIs(c: char)
    ensures c == '"' || c == '\\' ==> Escape(c) == ['\\', c]
    ensures Escape('\n') == "\\n" && Escape('\r') == "\\r" && Escape('\t') == "\\t"
    ensures c as int < 0x20 && c != '\n' && c != '\r' && c != '\t' ==>
              exists high, low :: 0 <= high < 2 && 0 <= low < 16 && 16 * high + low == c as int
                && Escape(c) == "\\u00" + ["01"[high], "0123456789abcdef"[low]]
    ensures c as int >= 0x20 && c != '"' && c != '\\' ==> Escape(c) == [c]
  {
    if c as int < 0x20 && c != '\n' && c != '\r' && c != '\t' {
      var high, low := c as int / 16, c as int % 16;
      assert "01"[high] == HEX[high];
      assert Escape(c) == "\\u00" + ["01"[high], "0123456789abcdef"[low]];
    }
  }

  lemma EscapeAllHead(s: string)
    requires s != ""
    ensures EscapeAll(s) == Escape(s[0]) + EscapeAll(s[1..])
  {
    hide Escape;
    assert s == [s[0]] + s[1..];
    EscapeAllConcat([s[0]], s[1..]);
    assert EscapeAll([s[0]]) == EscapeAll("") + Escape(s[0]);
  }

  /** Escaping is undone by reading, and the reader stops exactly where the string ends. */
  lemma {:induction false} EscapeAllReads(s: string, rest: string)
    ensures ReadString(EscapeAll(s) + ("\"" + rest)) == Some((s, rest))
  {
    hide Escape, ReadChar;
    if s == "" {
      assert EscapeAll(s) + ("\"" + rest) == "\"" + rest;
    } else {
      EscapeAllHead(s);
      var tail := EscapeAll(s[1..]) + ("\"" + rest);
      assert EscapeAll(s) + ("\"" + rest) == Escape(s[0]) + tail;
      EscapeReads(s[0], tail);
      EscapeAllReads(s[1..], rest);
      assert [s[0]] + s[1..] == s;
    }
  }

  lemma {:induction false} EscapeAllConcat(s: string, t: string)
    ensures EscapeAll(s + t) == EscapeAll(s) + EscapeAll(t)
  {
    hide Escape;
    if t == "" {
      assert s + t == s;
    } else {
      assert (s + t)[..|s + t| - 1] == s + t[..|t| - 1];
      EscapeAllConcat(s, t[..|t| - 1]);
    }
  }

  predicate Plain(s: string) {
    forall i :: 0 <= i < |s| ==> s[i] as int >= 0x20 && s[i] != '"' && s[i] != '\\'
  }

  lemma PlainCharacter(c: char)
    requires c as int >= 0x20 && c != '"' && c != '\\'
    ensures Escape(c) == [c]
  {
  }

  lemma {:induction false} PlainEscapes(s: string)
    requires Plain(s)
    ensures EscapeAll(s) == s
  {
    hide Escape;
    if s != "" {
      var p, c := s[..|s| - 1], s[|s| - 1];
      PlainEscapes(p);
      PlainCharacter(c);
      assert s == p + [c];
    }
  }

  // ---------------------------------------------------------------- numbers

  function Decimal(n: nat): (s: string)
    ensures s != "" && AllDigits(s)
  {
    if n < 10 then [Digit(n)] else Decimal(n / 10) + [Digit(n % 10)]
  }

  function Signed(n: int): string {
    if n < 0 then "-" + Decimal(-n) else Decimal(n)
  }

  lemma {:induction false} NumberOfDecimal(n: nat)
    ensures Number(Decimal(n)) == n
  {
    if n >= 10 {
      NumberOfDecimal(n / 10);
      assert Decimal(n)[..|Decimal(n)| - 1] == Decimal(n / 10);
    }
  }

  /** How many digits `s` begins with. */
  function DigitCount(s: string): (k: nat)
    ensures k <= |s| && AllDigits(s[..k])
    ensures k < |s| ==> !IsDigit(s[k])
  {
    if s == "" || !IsDigit(s[0]) then 0
    else
      var k := DigitCount(s[1..]);
      assert s[..k + 1] == [s[0]] + s[1..][..k];
      k + 1
  }

  /** The number that `s` begins with, and what follows it. */
  function ReadNumber(s: string): Option<(nat, string)> {
    var k := DigitCount(s);
    if k == 0 then None else
      NumberNonNegative(s[..k]);
      Some((Number(s[..k]), s[k..]))
  }

  lemma {:induction false} NumberNonNegative(s: string)
    requires AllDigits(s)
    ensures Number(s) >= 0
  {
    if s != "" {
      NumberNonNegative(s[..|s| - 1]);
    }
  }

  function ReadSigned(s: string): Option<(int, string)> {
    var minus := s != "" && s[0] == '-';
    match ReadNumber(if minus then s[1..] else s)
    case None => None
    case Some((n, rest)) =>
      var v: int := n;
      Some((if minus then -v else v, rest))
  }

  lemma {:induction false} DigitsThenRest(d: string, rest: string)
    requires AllDigits(d) && (rest == "" || !IsDigit(rest[0]))
    ensures DigitCount(d + rest) == |d|
  {
    if d == "" {
      assert d + rest == rest;
    } else {
      assert (d + rest)[1..] == d[1..] + rest;
      DigitsThenRest(d[1..], rest);
    }
  }

  lemma DecimalReads(n: nat, rest: string)
    requires rest == "" || !IsDigit(rest[0])
    ensures ReadNumber(Decimal(n) + rest) == Some((n, rest))
  {
    var d := Decimal(n);
    DigitsThenRest(d, rest);
    NumberOfDecimal(n);
    assert (d + rest)[..|d|] == d && (d + rest)[|d|..] == rest;
  }

  lemma SignedReads(n: int, rest: string)
    requires rest == "" || !IsDigit(rest[0])
    ensures ReadSigned(Signed(n) + rest) == Some((n, rest))
  {
    hide ReadNumber, Decimal;
    if n < 0 {
      DecimalReads(-n, rest);
      assert (Signed(n) + rest)[1..] == Decimal(-n) + rest;
    } else {
      DecimalReads(n, rest);
      assert IsDigit(Decimal(n)[0]);
    }
  }
}
