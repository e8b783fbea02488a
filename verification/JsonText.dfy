/** Strings and integers in JSON text: what `json.dumps(ensure_ascii=True)` writes, and how RFC 8259 reads it. */
module JsonText {

  datatype Read<+T> = Fail | Done(value: T, rest: string)

  // ---- Four hexadecimal digits ----

  const HEX := "0123456789abcdef"

  function Hex4(n: nat): (h: string)
    requires n < 0x10000
    ensures |h| == 4
  {
    var tens := n / 16;
    var hundreds := tens / 16;
    [HEX[hundreds / 16], HEX[hundreds % 16], HEX[tens % 16], HEX[n % 16]]
  }

  /** Either case is read; 16 marks a character that is no hexadecimal digit. */
  function HexValue(c: char): (d: nat)
    ensures d <= 16
  {
    if '0' <= c <= '9' then c as int - '0' as int
    else if 'a' <= c <= 'f' then c as int - 'a' as int + 10
    else if 'A' <= c <= 'F' then c as int - 'A' as int + 10
    else 16
  }

  function ReadHex4(t: string): Read<nat> {
    if |t| < 4 then Fail
    else
      var a, b, c, d := HexValue(t[0]), HexValue(t[1]), HexValue(t[2]), HexValue(t[3]);
      if a == 16 || b == 16 || c == 16 || d == 16 then Fail
      else Done(((a * 16 + b) * 16 + c) * 16 + d, t[4..])
  }

  lemma HexDigitBack(d: nat)
    requires d < 16
    ensures HexValue(HEX[d]) == d
  {
    assert HEX[0] == '0' && HEX[1] == '1' && HEX[2] == '2' && HEX[3] == '3' && HEX[4] == '4' && HEX[5] == '5'
      && HEX[6] == '6' && HEX[7] == '7' && HEX[8] == '8' && HEX[9] == '9' && HEX[10] == 'a' && HEX[11] == 'b'
      && HEX[12] == 'c' && HEX[13] == 'd' && HEX[14] == 'e' && HEX[15] == 'f';
  }

  lemma ReadHex4Back(n: nat, rest: string)
    requires n < 0x10000
    ensures ReadHex4(Hex4(n) + rest) == Done(n, rest)
  {
    var tens := n / 16;
    var hundreds := tens / 16;
    HexDigitBack(hundreds / 16);
    HexDigitBack(hundreds % 16);
    HexDigitBack(tens % 16);
    HexDigitBack(n % 16);
    hide HexValue;
    assert (Hex4(n) + rest)[4..] == rest;
  }

  // ---- Characters ----

  function Unicode(n: nat): string
    requires n < 0x10000
  {
    "\\u" + Hex4(n)
  }

  /** One character of a string literal; characters beyond the basic plane take two escapes. */
  function EscapeChar(c: char): (e: string)
    ensures e != "" && e[0] != '"'
  {
    var n := c as int;
    if c == '"' then "\\\""
    else if c == '\\' then "\\\\"
    else if c == '\n' then "\\n"
    else if c == '\r' then "\\r"
    else if c == '\t' then "\\t"
    else if n == 12 then "\\f"
    else if n == 8 then "\\b"
    else if 32 <= n < 127 then [c]
    else if n < 0x10000 then Unicode(n)
    else Unicode(0xD800 + (n - 0x10000) / 1024) + Unicode(0xDC00 + (n - 0x10000) % 1024)
  }

  /** The escapes that stand for one fixed character. */
  function SimpleEscape(c: char): (r: string)
    ensures |r| <= 1
  {
    match c
    case '"' => "\""
    case '\\' => "\\"
    case '/' => "/"
    case 'b' => "\U{8}"
    case 'f' => "\U{C}"
    case 'n' => "\n"
    case 'r' => "\r"
    case 't' => "\t"
    case _ => ""
  }

  /** After a backslash and `u`: one code point, or a surrogate pair; a lone surrogate is no character. */
  function ReadUnicode(t: string): Read<char> {
    match ReadHex4(t)
    case Fail => Fail
    case Done(high, rest) =>
      if !(0xD800 <= high < 0xE000) then
        if high < 0x10000 then Done(high as char, rest) else Fail
      else if high >= 0xDC00 || !("\\u" <= rest) then Fail
      else
        match ReadHex4(rest[2..])
        case Fail => Fail
        case Done(low, after) =>
          if 0xDC00 <= low < 0xE000 then
            Done((0x10000 + (high - 0xD800) * 1024 + (low - 0xDC00)) as char, after)
          else Fail
  }

  /** One character of a string literal, escaped or plain. */
  function ReadChar(t: string): (r: Read<char>)
    requires t != ""
    ensures r.Done? ==> |r.rest| < |t|
  {
    if t[0] < ' ' then Fail
    else if t[0] != '\\' then Done(t[0], t[1..])
    else if |t| == 1 then Fail
    else if t[1] == 'u' then ReadUnicode(t[2..])
    else if SimpleEscape(t[1]) == "" then Fail
    else Done(SimpleEscape(t[1])[0], t[2..])
  }

  lemma ReadUnicodeBack(c: char, rest: string)
    ensures c as int < 0x10000 ==> ReadChar(Unicode(c as int) + rest) == Done(c, rest)
    ensures c as int >= 0x10000 ==>
              var n := c as int - 0x10000;
              ReadChar(Unicode(0xD800 + n / 1024) + Unicode(0xDC00 + n % 1024) + rest) == Done(c, rest)
  {
    hide ReadHex4, Hex4;
    var n := c as int;
    if n < 0x10000 {
      var t := Unicode(n) + rest;
      assert t[2..] == Hex4(n) + rest;
      ReadHex4Back(n, rest);
    } else {
      var high, low := 0xD800 + (n - 0x10000) / 1024, 0xDC00 + (n - 0x10000) % 1024;
      var t := Unicode(high) + Unicode(low) + rest;
      var after := Unicode(low) + rest;
      assert t[2..] == Hex4(high) + after;
      ReadHex4Back(high, after);
      assert after[2..] == Hex4(low) + rest;
      assert "\\u" <= after;
      ReadHex4Back(low, rest);
    }
  }

  lemma ReadCharBack(c: char, rest: string)
    ensures ReadChar(EscapeChar(c) + rest) == Done(c, rest)
  {
    ReadUnicodeBack(c, rest);
    hide ReadUnicode, Unicode;
    var n := c as int;
    var e := EscapeChar(c);
    if |e| == 1 {
      assert (e + rest)[1..] == rest;
    } else if |e| == 2 {
      assert (e + rest)[2..] == rest;
    }
  }

  // ---- String literals ----

  function Escaped(s: string): string {
    if s == "" then "" else EscapeChar(s[0]) + Escaped(s[1..])
  }

  function Quoted(s: string): string {
    "\"" + Escaped(s) + "\""
  }

  /** The text up to the closing quote, which is read too. */
  function ReadText(t: string): (r: Read<string>)
    ensures r.Done? ==> |r.rest| < |t|
    decreases |t|
  {
    if t == "" then Fail
    else if t[0] == '"' then Done("", t[1..])
    else
      match ReadChar(t)
      case Fail => Fail
      case Done(c, rest) =>
        match ReadText(rest)
        case Fail => Fail
        case Done(s, after) => Done([c] + s, after)
  }

  /** Every text is read back from its literal. */
  lemma {:induction false} ReadTextBack(s: string, rest: string)
    ensures ReadText(Escaped(s) + "\"" + rest) == Done(s, rest)
  {
    var t := Escaped(s) + "\"" + rest;
    if s == "" {
      assert t[1..] == rest;
    } else {
      var tail := Escaped(s[1..]) + "\"" + rest;
      hide ReadChar, EscapeChar;
      assert t == EscapeChar(s[0]) + tail;
      ReadCharBack(s[0], tail);
      assert t[0] == EscapeChar(s[0])[0];
      hide Escaped;
      ReadTextBack(s[1..], rest);
      assert [s[0]] + s[1..] == s;
    }
  }

  // ---- Integers ----

  predicate IsDigit(c: char) {
    '0' <= c <= '9'
  }

  function Digit(d: nat): (c: char)
    requires d < 10
    ensures IsDigit(c) && c as int - '0' as int == d
  {
    ('0' as int + d) as char
  }

  /** Decimal digits without a leading zero. */
  function Digits(n: nat): (r: string)
    ensures r != "" && forall i :: 0 <= i < |r| ==> IsDigit(r[i])
    ensures n > 0 ==> r[0] != '0'
  {
    if n < 10 then [Digit(n)] else Digits(n / 10) + [Digit(n % 10)]
  }

  function PrintInt(n: int): (r: string)
    ensures r != "" && (r[0] == '-' || IsDigit(r[0]))
  {
    if n < 0 then "-" + Digits(-n) else Digits(n)
  }

  function DigitValue(c: char): nat
    requires IsDigit(c)
  {
    c as int - '0' as int
  }

  function Value(digits: string): nat
    requires forall i :: 0 <= i < |digits| ==> IsDigit(digits[i])
  {
    if digits == "" then 0
    else Value(digits[..|digits| - 1]) * 10 + DigitValue(digits[|digits| - 1])
  }

  lemma {:induction false} ValueOfDigits(n: nat)
    ensures Value(Digits(n)) == n
  {
    if n >= 10 {
      ValueOfDigits(n / 10);
      assert Digits(n)[..|Digits(n)| - 1] == Digits(n / 10);
    } else {
      assert Value([Digit(n)][..0]) == 0;
    }
  }

  /** How many digits `s` starts with. */
  function DigitRun(s: string): (n: nat)
    ensures n <= |s|
    ensures forall i :: 0 <= i < n ==> IsDigit(s[i])
    ensures n < |s| ==> !IsDigit(s[n])
  {
    if s == "" || !IsDigit(s[0]) then 0 else 1 + DigitRun(s[1..])
  }

  /** A number may not continue as a fraction or an exponent; those are not integers. */
  predicate EndsNumber(rest: string) {
    rest == "" || !(IsDigit(rest[0]) || rest[0] in {'.', 'e', 'E'})
  }

  /** Digits with no leading zero: a first zero stands alone. */
  function ReadNat(s: string): (r: Read<int>)
    ensures r.Done? ==> |r.rest| < |s|
  {
    var n := DigitRun(s);
    if n == 0 then Fail
    else
      var k := if s[0] == '0' then 1 else n;
      if EndsNumber(s[k..]) then Done(Value(s[..k]), s[k..]) else Fail
  }

  function ReadInt(s: string): (r: Read<int>)
    ensures r.Done? ==> |r.rest| < |s|
  {
    if s != "" && s[0] == '-' then
      match ReadNat(s[1..])
      case Fail => Fail
      case Done(n, rest) => Done(-n, rest)
    else ReadNat(s)
  }

  lemma {:induction false} DigitRunStops(digits: string, rest: string)
    requires forall i :: 0 <= i < |digits| ==> IsDigit(digits[i])
    requires EndsNumber(rest)
    ensures DigitRun(digits + rest) == |digits|
  {
    if digits != "" {
      assert (digits + rest)[1..] == digits[1..] + rest;
      DigitRunStops(digits[1..], rest);
    } else {
      assert digits + rest == rest;
    }
  }

  lemma ReadNatBack(n: nat, rest: string)
    requires EndsNumber(rest)
    ensures ReadNat(Digits(n) + rest) == Done(n, rest)
  {
    var s, k := Digits(n) + rest, |Digits(n)|;
    DigitRunStops(Digits(n), rest);
    assert s[..k] == Digits(n) && s[k..] == rest;
    ValueOfDigits(n);
    if s[0] == '0' {
      assert Digits(n)[0] == '0';
      assert n == 0;
    }
  }

  lemma ReadIntBack(n: int, rest: string)
    requires EndsNumber(rest)
    ensures ReadInt(PrintInt(n) + rest) == Done(n, rest)
  {
    hide ReadNat;
    if n < 0 {
      assert (PrintInt(n) + rest)[1..] == Digits(-n) + rest;
      ReadNatBack(-n, rest);
    } else {
      ReadNatBack(n, rest);
      assert (Digits(n) + rest)[0] == Digits(n)[0];
    }
  }

  // ---- The escapes are the shortest ----

  predicate IsPlain(e: string) {
    forall i :: 0 <= i < |e| ==> ' ' <= e[i] <= '~'
  }

  /** Hexadecimal digits in lower case. */
  predicate LowerHex(e: string) {
    forall i :: 0 <= i < |e| ==> !('A' <= e[i] <= 'F')
  }

  lemma HexDigitUnique(c: char)
    requires HexValue(c) < 16 && !('A' <= c <= 'F')
    ensures HEX[HexValue(c)] == c
  {
    assert HEX[0] == '0' && HEX[1] == '1' && HEX[2] == '2' && HEX[3] == '3' && HEX[4] == '4' && HEX[5] == '5'
      && HEX[6] == '6' && HEX[7] == '7' && HEX[8] == '8' && HEX[9] == '9' && HEX[10] == 'a' && HEX[11] == 'b'
      && HEX[12] == 'c' && HEX[13] == 'd' && HEX[14] == 'e' && HEX[15] == 'f';
  }

  lemma Nibbles(a: nat, b: nat, c: nat, d: nat)
    requires a < 16 && b < 16 && c < 16 && d < 16
    ensures var n := ((a * 16 + b) * 16 + c) * 16 + d;
            && n < 0x10000 && n % 16 == d && n / 16 == (a * 16 + b) * 16 + c
            && n / 16 % 16 == c && n / 16 / 16 == a * 16 + b && n / 16 / 16 % 16 == b && n / 16 / 16 / 16 == a
  {}

  lemma Hex4Unique(h: string)
    requires |h| >= 4 && ReadHex4(h).Done? && LowerHex(h[..4])
    ensures ReadHex4(h).value < 0x10000 && Hex4(ReadHex4(h).value) == h[..4] && ReadHex4(h).rest == h[4..]
  {
    var a, b, c, d := HexValue(h[0]), HexValue(h[1]), HexValue(h[2]), HexValue(h[3]);
    assert h[..4] == [h[0], h[1], h[2], h[3]];
    assert h[..4][0] == h[0] && h[..4][1] == h[1] && h[..4][2] == h[2] && h[..4][3] == h[3];
    HexDigitUnique(h[0]);
    HexDigitUnique(h[1]);
    HexDigitUnique(h[2]);
    HexDigitUnique(h[3]);
    Nibbles(a, b, c, d);
    hide HexValue;
    assert ReadHex4(h) == Done(((a * 16 + b) * 16 + c) * 16 + d, h[4..]);
    hide ReadHex4, LowerHex;
  }

  /** Whatever hexadecimal digits the escape has, they are in lower case. */
  predicate HasLowerHex(e: string) {
    (|e| >= 6 ==> LowerHex(e[2..6])) && (|e| == 12 ==> LowerHex(e[8..12]))
  }

  /** One `\u` escape, and what it reads. */
  lemma UnicodeEscape(e: string)
    requires |e| >= 6 && e[0] == '\\' && e[1] == 'u' && ReadHex4(e[2..]).Done? && LowerHex(e[2..6])
    ensures ReadHex4(e[2..]).value < 0x10000 && Unicode(ReadHex4(e[2..]).value) == e[..6]
    ensures ReadHex4(e[2..]).rest == e[6..]
  {
    Hex4Unique(e[2..]) by {
      assert e[2..][..4] == e[2..6];
    }
    hide ReadHex4, Hex4, LowerHex;
    assert e[2..][4..] == e[6..] && e[2..][..4] == e[2..6];
    assert e[..6] == [e[0], e[1]] + e[2..6];
  }

  /**
   Of all printable ways of writing a character in a literal, the one chosen is the shortest, and the only one of its
   length with lower-case hexadecimal digits.
   */
  lemma ShortestEscape(c: char, e: string)
    requires e != "" && e[0] != '"' && IsPlain(e) && ReadChar(e) == Done(c, "")
    ensures |EscapeChar(c)| <= |e|
    ensures |e| == |EscapeChar(c)| && HasLowerHex(e) ==> e == EscapeChar(c)
  {
    hide ReadUnicode, Unicode, IsPlain;
    if e[0] != '\\' {
      assert e == [c] && ' ' <= c <= '~' by {
        assert IsPlain(e);
        PlainAt(e, 0);
      }
    } else if e[1] == 'u' {
      EscapedByNumber(c, e);
    } else {
      assert e == [e[0], e[1]];
    }
  }

  lemma PlainAt(e: string, i: nat)
    requires IsPlain(e) && i < |e|
    ensures ' ' <= e[i] <= '~'
  {}

  lemma EscapedByNumber(c: char, e: string)
    requires |e| >= 2 && e[0] == '\\' && e[1] == 'u' && ReadUnicode(e[2..]) == Done(c, "")
    ensures |EscapeChar(c)| <= |e|
    ensures |e| == |EscapeChar(c)| && HasLowerHex(e) ==> e == EscapeChar(c)
  {
    NumberLength(c, e);
    if |e| == |EscapeChar(c)| && HasLowerHex(e) {
      hide EscapeChar;
      if |e| == 12 {
        PairIsEscape(c, e);
      } else {
        NumberIsEscape(c, e);
      }
    }
  }

  lemma NumberIsEscape(c: char, e: string)
    requires |e| == 6 && e[0] == '\\' && e[1] == 'u' && LowerHex(e[2..6])
    requires ReadUnicode(e[2..]) == Done(c, "") && c as int < 0x10000 && |EscapeChar(c)| == 6
    ensures e == EscapeChar(c)
  {
    var high := ReadHex4(e[2..]).value;
    assert c as int == high by {
      hide ReadHex4;
    }
    assert EscapeChar(c) == Unicode(c as int);
    UnicodeEscape(e);
    hide ReadHex4, Unicode, LowerHex, ReadUnicode;
    assert e[..6] == e;
  }

  lemma PairIsEscape(c: char, e: string)
    requires |e| == 12 && e[0] == '\\' && e[1] == 'u' && LowerHex(e[2..6]) && LowerHex(e[8..12])
    requires ReadUnicode(e[2..]) == Done(c, "") && c as int >= 0x10000
    ensures e == EscapeChar(c)
  {
    hide ReadHex4, Hex4, LowerHex;
    var second, n := e[6..], c as int - 0x10000;
    UnicodeEscape(e);
    var high := ReadHex4(e[2..]).value;
    assert "\\u" <= second;
    assert second[2..6] == e[8..12] && second[..6] == second;
    UnicodeEscape(second);
    var low := ReadHex4(second[2..]).value;
    assert n == (high - 0xD800) * 1024 + (low - 0xDC00) && 0xDC00 <= low < 0xE000 && 0xD800 <= high < 0xDC00;
    PairNumbers(high - 0xD800, low - 0xDC00);
    assert EscapeChar(c) == Unicode(high) + Unicode(low);
    hide EscapeChar, Unicode, ReadUnicode;
    assert e == e[..6] + second;
  }

  lemma PairNumbers(a: int, b: int)
    requires 0 <= b < 1024
    ensures (a * 1024 + b) / 1024 == a && (a * 1024 + b) % 1024 == b
  {}

  /** Six characters for a number below 0x10000, twelve for a pair. */
  lemma NumberLength(c: char, e: string)
    requires |e| >= 2 && ReadUnicode(e[2..]) == Done(c, "")
    ensures |e| == if c as int < 0x10000 then 6 else 12
    ensures |EscapeChar(c)| <= |e|
  {
    hide HexValue, Hex4;
    var t := e[2..];
    assert |t| >= 4 && (c as int < 0x10000 ==> t[4..] == "");
  }
}
