/**
 * The pure half of the Lua bridge dispatcher: the four-field envelope that
 * `dispatch` builds, and the newline-delimited line `_send_json_line` puts on
 * the wire (`json.dumps(message, separators=(",", ":")) + "\n"`, UTF-8). The
 * partners are a listener that splits a byte stream into lines and reads each
 * line back, and a reader that recovers the envelope from the JSON object.
 */
module LuaMessage {
  import opened Wrappers
  import opened JsonString
  import opened JsonNumber
  import opened Json

  newtype byte = x: int | 0 <= x < 256

  /** The line terminator, `\n`. */
  const Newline: byte := 10

  /** The value of the `source` field of every envelope. */
  const Source: string := "nms_copilot"

  /** The argument values the model admits: Python `str`, `int` and `bool`. */
  datatype Scalar = Text(s: string) | Integer(i: int) | Flag(b: bool)

  /** One argument; a sequence of them is an argument dictionary in insertion order. */
  datatype Arg = Arg(name: string, value: Scalar)

  /** What one `dispatch` call sends: the JSON object that `dispatch` builds before framing it. */
  datatype Envelope = Envelope(intent: string, args: seq<Arg>, timestamp: string, source: string)

  /** `args or {}`: a missing dictionary and an empty one both become the empty dictionary. */
  function ArgsOrEmpty(args: Option<seq<Arg>>): (r: seq<Arg>)
    ensures args.None? ==> r == []
    ensures args.Some? ==> r == args.value
  {
    match args
    case None => []
    case Some(a) => if a == [] then [] else a
  }

  /**
   * The envelope for one call; `timestamp` is the text of the clock reading.
   * Whatever the call's arguments, the JSON object it becomes reads back as
   * the same envelope, so the listener recovers the intent, the arguments in
   * order, the timestamp and the source.
   */
  function MakeEnvelope(intent: string, args: Option<seq<Arg>>, timestamp: string): (e: Envelope)
    ensures e.intent == intent && e.args == ArgsOrEmpty(args)
    ensures e.timestamp == timestamp && e.source == Source
    ensures FromJson(ToJson(e)) == Some(e)
  {
    var e := Envelope(intent, ArgsOrEmpty(args), timestamp, Source);
    EnvelopeRoundTrip(e);
    e
  }

  function ScalarValue(x: Scalar): Value {
    match x
    case Text(s) => Str(s)
    case Integer(i) => Int(i)
    case Flag(b) => Bool(b)
  }

  function ArgMembers(args: seq<Arg>): (ms: seq<Member>)
    ensures |ms| == |args|
    ensures forall i :: 0 <= i < |args| ==> ms[i] == Member(args[i].name, ScalarValue(args[i].value))
  {
    if args == [] then [] else [Member(args[0].name, ScalarValue(args[0].value))] + ArgMembers(args[1..])
  }

  /** The JSON object for an envelope, its keys in the order the dispatcher inserts them. */
  function ToJson(e: Envelope): (v: Value)
    ensures v.Object? && |v.members| == 4
    ensures v.members[0].key == "intent" && v.members[1].key == "args"
    ensures v.members[2].key == "timestamp" && v.members[3].key == "source"
  {
    Object([
      Member("intent", Str(e.intent)),
      Member("args", Object(ArgMembers(e.args))),
      Member("timestamp", Float(e.timestamp)),
      Member("source", Str(e.source))])
  }

  function ValueScalar(v: Value): Option<Scalar> {
    match v
    case Str(s) => Some(Text(s))
    case Int(i) => Some(Integer(i))
    case Bool(b) => Some(Flag(b))
    case _ => None
  }

  function MembersArgs(ms: seq<Member>): Option<seq<Arg>> {
    if ms == [] then Some([])
    else
      match (ValueScalar(ms[0].value), MembersArgs(ms[1..]))
      case (Some(x), Some(rest)) => Some([Arg(ms[0].key, x)] + rest)
      case _ => None
  }

  /** Reads an envelope back from a JSON object with exactly the four keys, in order. */
  function FromJson(v: Value): Option<Envelope> {
    if !v.Object? || |v.members| != 4 then None
    else
      var ms := v.members;
      if ms[0].key != "intent" || ms[1].key != "args" || ms[2].key != "timestamp" || ms[3].key != "source"
      then None
      else
        match (ms[0].value, ms[1].value, ms[2].value, ms[3].value)
        case (Str(intent), Object(a), Float(t), Str(source)) =>
          (match MembersArgs(a)
           case Some(args) => Some(Envelope(intent, args, t, source))
           case None => None)
        case _ => None
  }

  lemma {:induction false} ArgsRoundTrip(args: seq<Arg>)
    ensures MembersArgs(ArgMembers(args)) == Some(args)
  {
    if args != [] {
      var ms := ArgMembers(args);
      assert ms[1..] == ArgMembers(args[1..]);
      ArgsRoundTrip(args[1..]);
      assert [Arg(ms[0].key, args[0].value)] + args[1..] == args;
    }
  }

  /** An envelope survives the trip through its JSON object. */
  lemma EnvelopeRoundTrip(e: Envelope)
    ensures FromJson(ToJson(e)) == Some(e)
  {
    ArgsRoundTrip(e.args);
  }

  lemma {:induction false} ArgMembersWellFormed(args: seq<Arg>)
    ensures MembersWellFormed(ArgMembers(args))
  {
    if args != [] {
      assert ArgMembers(args)[1..] == ArgMembers(args[1..]);
      ArgMembersWellFormed(args[1..]);
    }
  }

  /** An envelope whose timestamp is the text of a finite float can be written. */
  lemma EnvelopeWellFormed(e: Envelope)
    requires FloatToken(e.timestamp)
    ensures WellFormed(ToJson(e))
  {
    ArgMembersWellFormed(e.args);
    var ms := ToJson(e).members;
    assert MembersWellFormed(ms[3..]) by {
      assert ms[3..][1..] == [] && MembersWellFormed([]);
      assert WellFormed(ms[3..][0].value);
    }
    assert MembersWellFormed(ms[2..]) by { assert ms[2..][1..] == ms[3..]; }
    assert MembersWellFormed(ms[1..]) by { assert ms[1..][1..] == ms[2..]; }
  }

  predicate Ascii(s: string) {
    forall i :: 0 <= i < |s| ==> s[i] as int < 128
  }

  /**
   * UTF-8 of ASCII text: one byte per character, equal to its code. The
   * listener's decoding of these bytes gives the text back.
   */
  function AsciiBytes(s: string): (b: seq<byte>)
    requires Ascii(s)
    ensures |b| == |s| && forall i :: 0 <= i < |s| ==> b[i] as int == s[i] as int
    ensures BytesText(b) == Some(s)
  {
    var b := seq(|s|, i requires 0 <= i < |s| => s[i] as int as byte);
    assert forall i :: 0 <= i < |b| ==> b[i] < 128;
    assert BytesText(b).value == s;
    b
  }

  /** The UTF-8 encoding of one Unicode scalar value: one to four bytes. */
  function Utf8Char(c: char): (b: seq<byte>)
    ensures 1 <= |b| <= 4
    ensures (|b| == 1) == (c as int < 0x80)
  {
    var n := c as int;
    if n < 0x80 then [n as byte]
    else if n < 0x800 then [(0xC0 + n / 0x40) as byte, (0x80 + n % 0x40) as byte]
    else if n < 0x1_0000 then
      [(0xE0 + n / 0x1000) as byte, (0x80 + n / 0x40 % 0x40) as byte, (0x80 + n % 0x40) as byte]
    else
      [(0xF0 + n / 0x4_0000) as byte, (0x80 + n / 0x1000 % 0x40) as byte,
       (0x80 + n / 0x40 % 0x40) as byte, (0x80 + n % 0x40) as byte]
  }

  /** The UTF-8 encoding of a string, character by character. */
  function Utf8(s: string): (b: seq<byte>)
    ensures |b| >= |s|
  {
    if s == [] then [] else Utf8Char(s[0]) + Utf8(s[1..])
  }

  /**
   * On ASCII text the one-byte-per-character encoding is the general UTF-8
   * encoding, so the framed bytes are what `encode("utf-8")` produces.
   */
  lemma {:induction false} AsciiBytesIsUtf8(s: string)
    requires Ascii(s)
    ensures AsciiBytes(s) == Utf8(s)
  {
    if s != [] {
      assert Ascii(s[1..]) by {
        assert forall i :: 0 <= i < |s[1..]| ==> s[1..][i] == s[i + 1];
      }
      AsciiBytesIsUtf8(s[1..]);
      assert AsciiBytes(s) == [s[0] as int as byte] + AsciiBytes(s[1..]);
    }
  }

  /** The text of a line as the listener decodes it; bytes above 127 are refused. */
  function BytesText(b: seq<byte>): (r: Option<string>)
    ensures r.Some? ==> |r.value| == |b| && forall i :: 0 <= i < |b| ==> r.value[i] as int == b[i] as int
  {
    if forall i :: 0 <= i < |b| ==> b[i] < 128
    then Some(seq(|b|, i requires 0 <= i < |b| => b[i] as int as char))
    else None
  }

  /** A line without its terminator: the compact JSON text as bytes. */
  function Body(v: Value): (b: seq<byte>)
    requires WellFormed(v)
    ensures Newline !in b
  {
    var text := Serialize(v);
    var b := AsciiBytes(text);
    assert forall i :: 0 <= i < |b| ==> b[i] != Newline by {
      forall i | 0 <= i < |b| ensures b[i] != Newline {
        assert Printable(text[i]);
      }
    }
    b
  }

  /** The bytes handed to `sendall`: the compact JSON text and a line feed, encoded as UTF-8. */
  function Frame(v: Value): (b: seq<byte>)
    requires WellFormed(v)
  {
    AsciiBytes(Serialize(v) + "\n")
  }

  /**
   * Framing: a frame is the compact text followed by exactly one line feed,
   * and no other byte of it is a line feed, because every string in it was
   * escaped.
   */
  lemma FrameIsOneLine(v: Value)
    requires WellFormed(v)
    ensures Frame(v) == Body(v) + [Newline]
    ensures BytesText(Body(v)) == Some(Serialize(v))
  {
    assert Frame(v) == Body(v) + [Newline];
  }

  /** The position of the first line feed, or the length when there is none. */
  function NewlineIndex(b: seq<byte>): (k: nat)
    ensures k <= |b|
  {
    if b == [] || b[0] == Newline then 0 else 1 + NewlineIndex(b[1..])
  }

  lemma {:induction false} NewlineIndexOf(line: seq<byte>, more: seq<byte>)
    requires Newline !in line
    ensures NewlineIndex(line + [Newline] + more) == |line|
  {
    if line != [] {
      assert (line + [Newline] + more)[1..] == line[1..] + [Newline] + more;
      NewlineIndexOf(line[1..], more);
    }
  }

  /** The complete lines of a byte stream, terminators removed; an unfinished last line is not yet a line. */
  function SplitLines(b: seq<byte>): seq<seq<byte>>
    decreases |b|
  {
    var k := NewlineIndex(b);
    if k == |b| then [] else [b[..k]] + SplitLines(b[k + 1..])
  }

  /** What the listener makes of one line: the value its text reads as, with nothing left over. */
  function ReadLine(line: seq<byte>): Option<Value> {
    match BytesText(line)
    case None => None
    case Some(text) =>
      match ParseValue(text)
      case Some((v, rest)) => if rest == [] then Some(v) else None
      case None => None
  }

  predicate AllWellFormed(msgs: seq<Value>) {
    forall i :: 0 <= i < |msgs| ==> WellFormed(msgs[i])
  }

  /** Everything sent, in order: the concatenation of the frames. */
  function Stream(msgs: seq<Value>): seq<byte>
    requires AllWellFormed(msgs)
  {
    if msgs == [] then [] else Frame(msgs[0]) + Stream(msgs[1..])
  }

  /** The lines the frames carry. */
  function Bodies(msgs: seq<Value>): (lines: seq<seq<byte>>)
    requires AllWellFormed(msgs)
    ensures |lines| == |msgs| && forall i :: 0 <= i < |msgs| ==> lines[i] == Body(msgs[i])
  {
    if msgs == [] then [] else [Body(msgs[0])] + Bodies(msgs[1..])
  }

  lemma SplitAfterFrame(v: Value, more: seq<byte>)
    requires WellFormed(v)
    ensures SplitLines(Frame(v) + more) == [Body(v)] + SplitLines(more)
  {
    FrameIsOneLine(v);
    var b := Frame(v) + more;
    assert b == Body(v) + [Newline] + more;
    NewlineIndexOf(Body(v), more);
    assert b[..|Body(v)|] == Body(v);
    assert b[|Body(v)| + 1..] == more;
  }

  /** Frames sent one after the other arrive as exactly the lines they carry, in order. */
  lemma {:induction false} StreamSplitsIntoBodies(msgs: seq<Value>)
    requires AllWellFormed(msgs)
    ensures SplitLines(Stream(msgs)) == Bodies(msgs)
  {
    if msgs != [] {
      SplitAfterFrame(msgs[0], Stream(msgs[1..]));
      StreamSplitsIntoBodies(msgs[1..]);
    }
  }

  /** Each line reads back as the value it was made from. */
  lemma ReadBody(v: Value)
    requires WellFormed(v)
    ensures ReadLine(Body(v)) == Some(v)
  {
    FrameIsOneLine(v);
    ParseSerialized(v, []);
    assert Serialize(v) + [] == Serialize(v);
  }

  /**
   * The stream of accepted frames splits into exactly one complete line per
   * message, in order, and each line reads back as the message; a listener
   * that receives the whole stream reads exactly these lines.
   */
  lemma StreamReadsBack(msgs: seq<Value>)
    requires AllWellFormed(msgs)
    ensures |SplitLines(Stream(msgs))| == |msgs|
    ensures forall i :: 0 <= i < |msgs| ==> ReadLine(SplitLines(Stream(msgs))[i]) == Some(msgs[i])
  {
    StreamSplitsIntoBodies(msgs);
    forall i | 0 <= i < |msgs|
      ensures ReadLine(Bodies(msgs)[i]) == Some(msgs[i])
    {
      ReadBody(msgs[i]);
    }
  }

  /** A dispatched line reads back as the envelope's JSON, and that as the envelope itself. */
  lemma DispatchedLineReadsBack(intent: string, args: Option<seq<Arg>>, timestamp: string)
    requires FloatToken(timestamp)
    ensures WellFormed(ToJson(MakeEnvelope(intent, args, timestamp)))
    ensures
      var v := ToJson(MakeEnvelope(intent, args, timestamp));
      ReadLine(Body(v)) == Some(v) &&
      FromJson(v) == Some(Envelope(intent, ArgsOrEmpty(args), timestamp, Source))
  {
    var e := MakeEnvelope(intent, args, timestamp);
    EnvelopeWellFormed(e);
    ReadBody(ToJson(e));
    EnvelopeRoundTrip(e);
  }
}
