/**
 * JSON numbers (section 6 of RFC 8259) as Python's `json.dumps` writes them:
 * an `int` in plain decimal, a `float` as its `repr`, which always carries a
 * fraction or an exponent. Reading back splits a number off the front of the
 * text at the first character that cannot belong to a number.
 */
module JsonNumber {

  predicate IsDigit(c: char) {
    '0' <= c <= '9'
  }

  predicate AllDigits(s: string) {
    forall i :: 0 <= i < |s| ==> IsDigit(s[i])
  }

  /** The characters a JSON number is made of. */
  predicate NumberChar(c: char) {
    IsDigit(c) || c == '-' || c == '+' || c == '.' || c == 'e' || c == 'E'
  }

  predicate AllNumberChars(s: string) {
    forall i :: 0 <= i < |s| ==> NumberChar(s[i])
  }

  function DigitChar(d: nat): (c: char)
    requires d < 10
    ensures IsDigit(c)
  {
    ('0' as int + d) as char
  }

  /** Decimal digits of `n`, most significant first, without leading zeros. */
  function Decimal(n: nat): (r: string)
    ensures |r| >= 1 && AllDigits(r)
    ensures r[0] == '0' <==> n == 0
  {
    if n < 10 then [DigitChar(n)] else Decimal(n / 10) + [DigitChar(n % 10)]
  }

  /** The number a string of decimal digits denotes. */
  function DigitsValue(s: string): nat
    requires AllDigits(s)
  {
    if s == [] then 0 else DigitsValue(s[..|s| - 1]) * 10 + (s[|s| - 1] as int - '0' as int)
  }

  lemma {:induction false} DecimalRoundTrip(n: nat)
    ensures DigitsValue(Decimal(n)) == n
  {
    if n >= 10 {
      var r := Decimal(n);
      assert r[..|r| - 1] == Decimal(n / 10);
      DecimalRoundTrip(n / 10);
    }
  }

  /** An integer as `repr` writes it: a minus sign for negatives, then its decimal digits. */
  function IntText(i: int): (r: string)
  {
    if i < 0 then "-" + Decimal(-i) else Decimal(i)
  }

  /** Text shaped like an integer: an optional minus sign and at least one digit. */
  predicate IntLexeme(t: string) {
    (|t| >= 1 && AllDigits(t)) || (|t| >= 2 && t[0] == '-' && AllDigits(t[1..]))
  }

  function IntValue(t: string): int
    requires IntLexeme(t)
  {
    if t[0] == '-' then -(DigitsValue(t[1..]) as int) else DigitsValue(t)
  }

  /** Integer text is made of number characters and reads back as the integer it was made from. */
  lemma IntTextRoundTrip(i: int)
    ensures IntLexeme(IntText(i)) && AllNumberChars(IntText(i))
    ensures IntValue(IntText(i)) == i
  {
    var r := IntText(i);
    if i < 0 {
      assert r[1..] == Decimal(-i);
      DecimalRoundTrip(-i);
    } else {
      DecimalRoundTrip(i);
    }
  }

  /**
   * The text of a finite float as `repr` writes it: number characters only,
   * with a fraction or an exponent, which is what tells it from an integer.
   */
  predicate FloatToken(t: string) {
    |t| > 0 && AllNumberChars(t) && ('.' in t || 'e' in t || 'E' in t)
  }

  lemma FloatTokenIsNotInt(t: string)
    requires FloatToken(t)
    ensures !IntLexeme(t)
  {
    var i :| 0 <= i < |t| && (t[i] == '.' || t[i] == 'e' || t[i] == 'E');
    assert !IsDigit(t[i]);
  }

  /** How many characters at the front of `s` can belong to a number. */
  function NumberSpan(s: string): (k: nat)
    ensures k <= |s| && AllNumberChars(s[..k])
    ensures k == |s| || !NumberChar(s[k])
  {
    if s != [] && NumberChar(s[0]) then
      var k := 1 + NumberSpan(s[1..]);
      assert s[..k] == [s[0]] + s[1..][..k - 1];
      k
    else 0
  }

  /** A number followed by anything that cannot continue it is split off exactly. */
  lemma {:induction false} SpanOfNumber(t: string, rest: string)
    requires AllNumberChars(t)
    requires rest == [] || !NumberChar(rest[0])
    ensures NumberSpan(t + rest) == |t|
  {
    if t != [] {
      assert (t + rest)[1..] == t[1..] + rest;
      SpanOfNumber(t[1..], rest);
    }
  }
}
