/**
 * JSON values as the envelope uses them, written the way
 * `json.dumps(value, separators=(",", ":"))` writes them (sections 4 and 7 of
 * RFC 8259 with no whitespace at all), and a reader for that text. The reader
 * is the partner of the writer: everything written reads back as itself.
 */
module Json {
  import opened Wrappers
  import opened JsonString
  import opened JsonNumber

  /** A JSON value: the scalars Python's `str`, `int`, `bool` and `float` become, and objects. */
  datatype Value =
    | Str(s: string)
    | Int(i: int)
    | Bool(b: bool)
    | Float(token: string)
    | Object(members: seq<Member>)

  /** One name/value pair of an object; members keep the dictionary's insertion order. */
  datatype Member = Member(key: string, value: Value)

  /** Values the encoder can write: every float is the text of a finite float. */
  predicate WellFormed(v: Value) {
    match v
    case Float(t) => FloatToken(t)
    case Object(ms) => MembersWellFormed(ms)
    case _ => true
  }

  predicate MembersWellFormed(ms: seq<Member>) {
    ms == [] || (WellFormed(ms[0].value) && MembersWellFormed(ms[1..]))
  }

  /** The compact text of a value; written text is printable ASCII, so it holds no line feed. */
  function Serialize(v: Value): (r: string)
    ensures WellFormed(v) ==> AllPrintable(r)
  {
    match v
    case Str(x) => Quote(x)
    case Int(i) => IntText(i)
    case Bool(b) => if b then "true" else "false"
    case Float(t) => t
    case Object(ms) => "{" + SerializeMembers(ms) + "}"
  }

  /** Members as `"key":value`, separated by single commas. */
  function SerializeMembers(ms: seq<Member>): (r: string)
    ensures MembersWellFormed(ms) ==> AllPrintable(r)
  {
    if ms == [] then ""
    else if |ms| == 1 then MemberText(ms[0])
    else MemberText(ms[0]) + "," + SerializeMembers(ms[1..])
  }

  /** One pair as `"key":value`. */
  function MemberText(m: Member): (r: string)
    ensures WellFormed(m.value) ==> AllPrintable(r)
  {
    Quote(m.key) + ":" + Serialize(m.value)
  }

  /**
   * Reads one value at the front of `s` and gives it with the text after it.
   * Strings and objects end at their closing mark; a number ends at the first
   * character that cannot belong to a number.
   */
  function ParseValue(s: string): (r: Option<(Value, string)>)
    ensures r.Some? ==> |r.value.1| < |s|
    decreases |s|, 1
  {
    if s == [] then None
    else if s[0] == '"' then ParseStr(s)
    else if s[0] == '{' then ParseObject(s)
    else if s[0] == 't' || s[0] == 'f' then ParseBool(s)
    else ParseNumber(s)
  }

  function ParseStr(s: string): (r: Option<(Value, string)>)
    requires s != [] && s[0] == '"'
    ensures r.Some? ==> |r.value.1| < |s|
  {
    match DecodeString(s[1..])
    case Some((x, rest)) => Some((Str(x), rest))
    case None => None
  }

  function ParseBool(s: string): (r: Option<(Value, string)>)
    ensures r.Some? ==> |r.value.1| < |s|
  {
    if |s| >= 4 && s[..4] == "true" then Some((Bool(true), s[4..]))
    else if |s| >= 5 && s[..5] == "false" then Some((Bool(false), s[5..]))
    else None
  }

  /** An integer when the number has neither fraction nor exponent, a float otherwise. */
  function ParseNumber(s: string): (r: Option<(Value, string)>)
    ensures r.Some? ==> |r.value.1| < |s|
  {
    var k := NumberSpan(s);
    if IntLexeme(s[..k]) then Some((Int(IntValue(s[..k])), s[k..]))
    else if FloatToken(s[..k]) then Some((Float(s[..k]), s[k..]))
    else None
  }

  function ParseObject(s: string): (r: Option<(Value, string)>)
    requires s != [] && s[0] == '{'
    ensures r.Some? ==> |r.value.1| < |s|
    decreases |s|, 0
  {
    if |s| >= 2 && s[1] == '}' then Some((Object([]), s[2..]))
    else
      match ParseMembers(s[1..])
      case Some((ms, rest)) => Some((Object(ms), rest))
      case None => None
  }

  /** Reads one `"key":value` pair. */
  function ParseMember(s: string): (r: Option<(Member, string)>)
    ensures r.Some? ==> |r.value.1| < |s|
    decreases |s|, 2
  {
    if s == [] || s[0] != '"' then None
    else
      match DecodeString(s[1..])
      case None => None
      case Some((key, r1)) =>
        if r1 == [] || r1[0] != ':' then None
        else
          match ParseValue(r1[1..])
          case None => None
          case Some((v, r2)) => Some((Member(key, v), r2))
  }

  /** Reads pairs separated by commas up to and including the closing brace. */
  function ParseMembers(s: string): (r: Option<(seq<Member>, string)>)
    ensures r.Some? ==> |r.value.1| < |s|
    decreases |s|, 3
  {
    match ParseMember(s)
    case None => None
    case Some((m, r1)) =>
      if r1 != [] && r1[0] == '}' then Some(([m], r1[1..]))
      else if r1 != [] && r1[0] == ',' then
        match ParseMembers(r1[1..])
        case Some((more, r2)) => Some(([m] + more, r2))
        case None => None
      else None
  }

  /** Text that cannot continue a value that precedes it. */
  predicate Delimits(rest: string) {
    rest == [] || !NumberChar(rest[0])
  }

  lemma ParseSerializedInt(i: int, rest: string)
    requires Delimits(rest)
    ensures ParseValue(Serialize(Int(i)) + rest) == Some((Int(i), rest))
  {
    var t := IntText(i);
    var s := t + rest;
    IntTextRoundTrip(i);
    SpanOfNumber(t, rest);
    assert s[..|t|] == t && s[|t|..] == rest;
    assert NumberChar(s[0]);
    assert ParseNumber(s) == Some((Int(i), rest));
  }

  lemma ParseSerializedFloat(t: string, rest: string)
    requires FloatToken(t) && Delimits(rest)
    ensures ParseValue(Serialize(Float(t)) + rest) == Some((Float(t), rest))
  {
    var s := t + rest;
    FloatTokenIsNotInt(t);
    SpanOfNumber(t, rest);
    assert s[..|t|] == t && s[|t|..] == rest;
    assert NumberChar(s[0]);
    assert ParseNumber(s) == Some((Float(t), rest));
  }

  lemma ParseSerializedBool(b: bool, rest: string)
    ensures ParseValue(Serialize(Bool(b)) + rest) == Some((Bool(b), rest))
  {
    var s := Serialize(Bool(b)) + rest;
    if b {
      assert s[..4] == "true" && s[4..] == rest;
    } else {
      assert s[0] == 'f';
      assert s[..5] == "false" && s[5..] == rest;
    }
  }

  lemma ParseSerializedStr(x: string, rest: string)
    ensures ParseValue(Serialize(Str(x)) + rest) == Some((Str(x), rest))
  {
    QuoteRoundTrip(x, rest);
    assert ParseStr(Quote(x) + rest) == Some((Str(x), rest));
  }

  lemma {:induction false} ParseSerializedObject(ms: seq<Member>, rest: string)
    requires MembersWellFormed(ms) && Delimits(rest)
    ensures ParseValue(Serialize(Object(ms)) + rest) == Some((Object(ms), rest))
    decreases ms, 3
  {
    var s := Serialize(Object(ms)) + rest;
    if ms == [] {
      assert Serialize(Object(ms)) == "{}";
      assert s[2..] == rest;
      assert ParseObject(s) == Some((Object(ms), rest));
    } else {
      assert s[1..] == SerializeMembers(ms) + "}" + rest;
      ParseSerializedMembers(ms, rest);
      assert ParseObject(s) == Some((Object(ms), rest));
    }
  }

  /** Every well-formed value reads back as itself, leaving what follows it. */
  lemma {:induction false} ParseSerialized(v: Value, rest: string)
    requires WellFormed(v) && Delimits(rest)
    ensures ParseValue(Serialize(v) + rest) == Some((v, rest))
    decreases v, 0
  {
    match v
    case Str(x) => ParseSerializedStr(x, rest);
    case Int(i) => ParseSerializedInt(i, rest);
    case Bool(b) => ParseSerializedBool(b, rest);
    case Float(t) => ParseSerializedFloat(t, rest);
    case Object(ms) => ParseSerializedObject(ms, rest);
  }

  lemma {:induction false} ParseSerializedMember(m: Member, after: string)
    requires WellFormed(m.value) && Delimits(after)
    ensures ParseMember(MemberText(m) + after) == Some((m, after))
    decreases m.value, 1
  {
    var q := Quote(m.key);
    var v := Serialize(m.value);
    var r1 := [':'] + (v + after);
    var s := q + r1;
    assert MemberText(m) + after == s by {
      AppendAssoc(q + ":", v, after);
      AppendAssoc(q, ":", v + after);
    }
    assert s == ['"'] + ((Escape(m.key) + "\"") + r1) by {
      AppendAssoc("\"", Escape(m.key), "\"");
      AppendAssoc("\"", Escape(m.key) + "\"", r1);
    }
    DropFront('"', (Escape(m.key) + "\"") + r1);
    DecodeQuoted(m.key, r1);
    DropFront(':', v + after);
    ParseSerialized(m.value, after);
  }

  /** A single pair closed by a brace reads as a one-pair list. */
  lemma ParseMembersLast(s: string, m: Member, rest: string)
    requires ParseMember(s) == Some((m, "}" + rest))
    ensures ParseMembers(s) == Some(([m], rest))
  {
    assert ("}" + rest)[1..] == rest;
  }

  /** A pair followed by a comma reads as that pair in front of the pairs after the comma. */
  lemma ParseMembersCons(s: string, m: Member, tail: string, more: seq<Member>, rest: string)
    requires ParseMember(s) == Some((m, "," + tail))
    requires ParseMembers(tail) == Some((more, rest))
    ensures ParseMembers(s) == Some(([m] + more, rest))
  {
    assert ("," + tail)[1..] == tail;
  }

  lemma Regroup(first: string, more: string, rest: string)
    ensures first + "," + more + "}" + rest == first + ("," + (more + "}" + rest))
  {
  }

  /** Non-empty members followed by the closing brace read back as themselves. */
  lemma {:induction false} ParseSerializedMembers(ms: seq<Member>, rest: string)
    requires ms != [] && MembersWellFormed(ms)
    ensures ParseMembers(SerializeMembers(ms) + "}" + rest) == Some((ms, rest))
    decreases ms, 2
  {
    if |ms| == 1 {
      assert SerializeMembers(ms) == MemberText(ms[0]) && [ms[0]] == ms;
      ParseSerializedLastMember(ms[0], rest);
    } else {
      ParseSerializedMembersMore(ms, rest);
    }
  }

  /** The last pair, then the closing brace. */
  lemma {:induction false} ParseSerializedLastMember(m: Member, rest: string)
    requires WellFormed(m.value)
    ensures ParseMembers(MemberText(m) + "}" + rest) == Some(([m], rest))
    decreases m.value, 2
  {
    var s := MemberText(m) + "}" + rest;
    assert s == MemberText(m) + ("}" + rest);
    ParseSerializedMember(m, "}" + rest);
    ParseMembersLast(s, m, rest);
  }

  /** The inductive step: the first pair, a comma, then the remaining pairs. */
  lemma {:induction false} ParseSerializedMembersMore(ms: seq<Member>, rest: string)
    requires |ms| >= 2 && MembersWellFormed(ms)
    ensures ParseMembers(SerializeMembers(ms) + "}" + rest) == Some((ms, rest))
    decreases ms, 1
  {
    var first, more := MemberText(ms[0]), SerializeMembers(ms[1..]);
    var tail := more + "}" + rest;
    var s := SerializeMembers(ms) + "}" + rest;
    assert s == first + ("," + tail) by {
      assert SerializeMembers(ms) == first + "," + more;
      Regroup(first, more, rest);
    }
    ParseSerializedMember(ms[0], "," + tail);
    ParseSerializedMembers(ms[1..], rest);
    ParseMembersCons(s, ms[0], tail, ms[1..], rest);
    assert [ms[0]] + ms[1..] == ms;
  }
}
