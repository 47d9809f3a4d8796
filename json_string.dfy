/**
 * JSON string literals as Python's `json.dumps` writes them with its default
 * `ensure_ascii=True` (section 7 of RFC 8259): printable ASCII other than the
 * quotation mark and the reverse solidus stands for itself, the seven
 * characters with a two-character escape use it, and every other character
 * becomes `\uXXXX` in lower-case hex (a UTF-16 surrogate pair above U+FFFF).
 * A reader for such literals is the partner the escaping is proved against.
 */
module JsonString {
  import opened Wrappers

  /** The characters between space and tilde: the only ones an escaped literal contains. */
  predicate Printable(c: char) {
    ' ' <= c <= '~'
  }

  predicate AllPrintable(s: string) {
    forall i :: 0 <= i < |s| ==> Printable(s[i])
  }

  /** Lower-case hexadecimal digit for a nibble. */
  function HexDigit(d: nat): (c: char)
    requires d < 16
    ensures Printable(c)
  {
    if d < 10 then ('0' as int + d) as char else ('a' as int + (d - 10)) as char
  }

  /** The value of a hexadecimal digit of either case, as section 7 of RFC 8259 allows. */
  function HexValue(c: char): (r: Option<nat>)
    ensures r.Some? ==> r.value < 16
  {
    if '0' <= c <= '9' then Some(c as int - '0' as int)
    else if 'a' <= c <= 'f' then Some(c as int - 'a' as int + 10)
    else if 'A' <= c <= 'F' then Some(c as int - 'A' as int + 10)
    else None
  }

  /** Four lower-case hex digits of a UTF-16 code unit, most significant first. */
  function Hex4(n: nat): (r: string)
    requires n < 0x10000
    ensures |r| == 4 && AllPrintable(r)
  {
    [HexDigit(n / 0x1000), HexDigit(n / 0x100 % 0x10), HexDigit(n / 0x10 % 0x10), HexDigit(n % 0x10)]
  }

  function ParseHex4(h: string): (r: Option<nat>)
    requires |h| == 4
    ensures r.Some? ==> r.value < 0x10000
  {
    match (HexValue(h[0]), HexValue(h[1]), HexValue(h[2]), HexValue(h[3]))
    case (Some(a), Some(b), Some(c), Some(d)) => Some(a * 0x1000 + b * 0x100 + c * 0x10 + d)
    case _ => None
  }

  lemma HexDigitRoundTrip(d: nat)
    requires d < 16
    ensures HexValue(HexDigit(d)) == Some(d)
  {
  }

  /** The four nibbles of a code unit recombine to it. */
  lemma NibblesRecombine(n: nat)
    requires n < 0x10000
    ensures n == n / 0x1000 * 0x1000 + n / 0x100 % 0x10 * 0x100 + n / 0x10 % 0x10 * 0x10 + n % 0x10
  {
    assert n / 0x10 / 0x10 == n / 0x100;
    assert n / 0x100 / 0x10 == n / 0x1000;
    assert n == 0x10 * (n / 0x10) + n % 0x10;
    assert n / 0x10 == 0x10 * (n / 0x100) + n / 0x10 % 0x10;
    assert n / 0x100 == 0x10 * (n / 0x1000) + n / 0x100 % 0x10;
  }

  lemma Hex4RoundTrip(n: nat)
    requires n < 0x10000
    ensures ParseHex4(Hex4(n)) == Some(n)
  {
    HexDigitRoundTrip(n / 0x1000);
    HexDigitRoundTrip(n / 0x100 % 0x10);
    HexDigitRoundTrip(n / 0x10 % 0x10);
    HexDigitRoundTrip(n % 0x10);
    NibblesRecombine(n);
  }

  /** A `\uXXXX` escape for one UTF-16 code unit. */
  function UnitEscape(n: nat): (r: string)
    requires n < 0x10000
    ensures |r| == 6 && AllPrintable(r)
  {
    "\\u" + Hex4(n)
  }

  /** How the encoder writes one character inside a string literal. */
  function EscapeChar(c: char): (r: string)
    ensures 1 <= |r| <= 12 && AllPrintable(r)
    ensures r[0] == '\\' || (Printable(c) && c != '"' && r == [c])
  {
    if c == '"' then "\\\""
    else if c == '\\' then "\\\\"
    else if c == '\n' then "\\n"
    else if c == '\r' then "\\r"
    else if c == '\t' then "\\t"
    else if c as int == 0x08 then "\\b"
    else if c as int == 0x0C then "\\f"
    else if Printable(c) then [c]
    else if c as int < 0x10000 then UnitEscape(c as int)
    else
      var m := c as int - 0x10000;
      UnitEscape(0xD800 + m / 0x400) + UnitEscape(0xDC00 + m % 0x400)
  }

  /** The body of a string literal: every character escaped, in order. */
  function Escape(s: string): (r: string)
    ensures AllPrintable(r)
    ensures |r| >= |s|
  {
    if s == [] then [] else EscapeChar(s[0]) + Escape(s[1..])
  }

  /** The complete literal, with its quotation marks. */
  function Quote(s: string): (r: string)
    ensures |r| >= 2 && r[0] == '"' && r[|r| - 1] == '"' && AllPrintable(r)
  {
    "\"" + Escape(s) + "\""
  }

  /**
   * Reads one escape sequence at the head of `s` (which starts with a reverse
   * solidus) and gives the character it stands for and how many characters it
   * used. A high surrogate must be followed by an escaped low surrogate.
   */
  function DecodeEscape(s: string): (r: Option<(char, nat)>)
    requires |s| >= 1 && s[0] == '\\'
    ensures r.Some? ==> 2 <= r.value.1 <= |s|
  {
    if |s| < 2 then None
    else if s[1] == '"' then Some(('"', 2))
    else if s[1] == '\\' then Some(('\\', 2))
    else if s[1] == '/' then Some(('/', 2))
    else if s[1] == 'b' then Some((0x08 as char, 2))
    else if s[1] == 'f' then Some((0x0C as char, 2))
    else if s[1] == 'n' then Some(('\n', 2))
    else if s[1] == 'r' then Some(('\r', 2))
    else if s[1] == 't' then Some(('\t', 2))
    else if s[1] == 'u' && |s| >= 6 then
      match ParseHex4(s[2..6])
      case None => None
      case Some(hi) =>
        if 0xDC00 <= hi < 0xE000 then None
        else if hi < 0xD800 || 0xE000 <= hi then Some((hi as char, 6))
        else if |s| >= 12 && s[6] == '\\' && s[7] == 'u' then
          match ParseHex4(s[8..12])
          case Some(lo) =>
            if 0xDC00 <= lo < 0xE000
            then Some(((0x10000 + (hi - 0xD800) * 0x400 + (lo - 0xDC00)) as char, 12))
            else None
          case None => None
        else None
    else None
  }

  /** Puts `c` in front of a decoded body, keeping what follows the literal. */
  function Prepend(c: char, r: Option<(string, string)>): Option<(string, string)> {
    match r
    case None => None
    case Some((x, rest)) => Some(([c] + x, rest))
  }

  /**
   * Reads a string literal whose opening quotation mark has been consumed:
   * the decoded characters and the text after the closing quotation mark.
   * Unescaped control characters are refused, as section 7 of RFC 8259 says.
   */
  function DecodeString(s: string): (r: Option<(string, string)>)
    ensures r.Some? ==> |r.value.1| < |s|
    decreases |s|
  {
    if s == [] then None
    else if s[0] == '"' then Some(([], s[1..]))
    else if s[0] == '\\' then
      match DecodeEscape(s)
      case None => None
      case Some((c, k)) => Prepend(c, DecodeString(s[k..]))
    else if s[0] < ' ' then None
    else Prepend(s[0], DecodeString(s[1..]))
  }

  /** A `\uXXXX` escape of a code unit outside the surrogate range reads back as that character. */
  lemma DecodeUnitEscape(c: char, t: string)
    requires c as int < 0x10000
    ensures DecodeString(UnitEscape(c as int) + t) == Prepend(c, DecodeString(t))
  {
    var s := UnitEscape(c as int) + t;
    Hex4RoundTrip(c as int);
    assert s[2..6] == Hex4(c as int);
    assert DecodeEscape(s) == Some((c, 6));
    assert s[6..] == t;
  }

  /** The surrogate pair written for a character above U+FFFF reads back as that character. */
  lemma DecodeSurrogatePair(c: char, t: string)
    requires c as int >= 0x10000
    ensures DecodeString(EscapeChar(c) + t) == Prepend(c, DecodeString(t))
  {
    var m := c as int - 0x10000;
    var hi, lo := 0xD800 + m / 0x400, 0xDC00 + m % 0x400;
    var s := EscapeChar(c) + t;
    assert s == UnitEscape(hi) + UnitEscape(lo) + t;
    assert DecodeEscape(s) == Some((c, 12)) && s[12..] == t by {
      Hex4RoundTrip(hi);
      Hex4RoundTrip(lo);
      assert s[2..6] == Hex4(hi);
      assert s[8..12] == Hex4(lo);
    }
  }

  /** Each escaped character reads back as itself, whatever follows it. */
  lemma DecodeEscapedChar(c: char, t: string)
    ensures DecodeString(EscapeChar(c) + t) == Prepend(c, DecodeString(t))
  {
    var e := EscapeChar(c);
    if c as int >= 0x10000 {
      DecodeSurrogatePair(c, t);
    } else if !(Printable(c) || c == '\n' || c == '\r' || c == '\t' || c as int == 0x08 || c as int == 0x0C) {
      DecodeUnitEscape(c, t);
    } else if Printable(c) && c != '"' && c != '\\' {
      assert (e + t)[1..] == t;
    } else {
      assert |e| == 2 && (e + t)[2..] == t;
    }
  }

  /** Reading back an escaped literal gives the original text and leaves what follows it. */
  lemma {:induction false} DecodeQuoted(x: string, rest: string)
    ensures DecodeString(Escape(x) + "\"" + rest) == Some((x, rest))
  {
    if x == [] {
      assert Escape(x) + "\"" + rest == "\"" + rest;
    } else {
      var tail := Escape(x[1..]) + "\"" + rest;
      assert Escape(x) + "\"" + rest == EscapeChar(x[0]) + tail;
      DecodeEscapedChar(x[0], tail);
      DecodeQuoted(x[1..], rest);
      assert [x[0]] + x[1..] == x;
    }
  }

  /** The whole literal, opening quotation mark included, reads back as `x`. */
  lemma QuoteRoundTrip(x: string, rest: string)
    ensures |Quote(x) + rest| > 0 && (Quote(x) + rest)[0] == '"'
    ensures DecodeString((Quote(x) + rest)[1..]) == Some((x, rest))
  {
    assert (Quote(x) + rest)[1..] == Escape(x) + "\"" + rest;
    DecodeQuoted(x, rest);
  }

}
