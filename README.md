# Voice command relay: Lua bridge dispatcher and regex intent matcher

This project models two parts of the voice-control relay in Dafny.

**The Lua bridge dispatcher** (`LuaSocketDispatcher`) sends every recognised command to a local TCP listener. Each command is one line of compact JSON. The dispatcher holds at most one connection at a time, and it closes the old socket before it opens a new one. A call that finds no socket connects lazily, but only if reconnecting is enabled. A send that fails gets one reconnect. The message is sent a second time only if that reconnect produced a socket. Connect and send failures are reported as a boolean, not raised. The model has two parts:

- **The pure part.**
  - The envelope `{"intent", "args", "timestamp", "source"}`.
  - Its compact JSON text, written as `json.dumps(..., separators=(",", ":"))` writes it with its default `ensure_ascii`.
  - The line the text becomes: its UTF-8 bytes and one `\n`. The encoding is also given in general, character by character, as a reference.
  - As partners, a listener that splits the received byte stream into lines and reads every line back.
- **The stateful part.** A class with:
  - the socket field and the three settings;
  - ghost bookkeeping: the attempt history, the sockets connected and closed, and the messages accepted;
  - a method for each method of the source. `_send_json_line` is split into three: `SendJsonLine`, with `ConnectAndSend` for the lazy connect and `SendHeld` for the send phase on a held socket. `__init__` has two constructors: one that takes every setting, and `Default` with the source's default arguments.

  Network outcomes are inputs to the model. A `Network` value lists the answers to a call's successive connect attempts and send attempts.

**The regex intent matcher** (`RegexParser`) compiles each intent's pattern list into the single alternation `(p1|p2|...)`. It keeps the table in configuration order. `parse` returns the first intent whose alternation matches the transcript. Regular-expression search is a caller-supplied predicate `matches(pattern, text)`.

Modules:

| module | file | contents |
|---|---|---|
| `Wrappers` | `wrappers.dfy` | `Option` |
| `JsonString` | `json_string.dfy` | string escaping with `ensure_ascii`, and its decoder |
| `JsonNumber` | `json_number.dfy` | integer text, float tokens, and number lexing |
| `Json` | `json_value.dfy` | values, the compact writer and a reader |
| `LuaMessage` | `lua_message.dfy` | envelope, line framing, stream splitting and read-back |
| `LuaSocket` | `lua_socket.dfy` | delivery policy, dispatcher class and two example scenarios |
| `RegexParser` | `regex_parser.dfy` | table construction and first-match lookup |

## Model

| member | source | states |
|---|---|---|
| JsonString.Escape | src/dispatchers/lua_socket.py:65-67 | Escaping a string gives printable ASCII only: `json.dumps` escapes quotes, backslashes, control and non-ASCII characters. So no raw line feed survives in the text. |
| JsonString.Hex4RoundTrip | src/dispatchers/lua_socket.py:65-67 | The four lower-case hex digits of a `\uXXXX` escape read back as the code unit they encode. |
| JsonString.DecodeEscapedChar | src/dispatchers/lua_socket.py:65-67 | Every character's escape decodes back to that character. This covers short escapes, `\uXXXX` and surrogate pairs, and leaves the text after it untouched. |
| JsonString.DecodeQuoted | src/dispatchers/lua_socket.py:65-67 | An escaped string followed by a closing quote decodes to the original string and the text after the quote. |
| JsonString.QuoteRoundTrip | src/dispatchers/lua_socket.py:65-67 | A quoted JSON string starts with `"` and reads back as the original string, whatever follows it. |
| JsonNumber.Decimal | src/dispatchers/lua_socket.py:65-67 | The decimal text of a natural number is all digits, and it starts with `0` only for zero. |
| JsonNumber.DecimalRoundTrip | src/dispatchers/lua_socket.py:65-67 | Decimal digits read back as the number they were written from. |
| JsonNumber.IntTextRoundTrip | src/dispatchers/lua_socket.py:65-67 | The text of an integer is an integer lexeme made of number characters, and it reads back as that integer. |
| JsonNumber.FloatTokenIsNotInt | src/dispatchers/lua_socket.py:65-67 | The text of a float (it has a `.` or an exponent) is never read as an integer. |
| JsonNumber.SpanOfNumber | src/dispatchers/lua_socket.py:65-67 | A number followed by a delimiter is lexed as exactly the number's characters. |
| Json.Serialize | src/dispatchers/lua_socket.py:65-67 | The compact text of a well-formed value is printable ASCII. |
| Json.ParseSerialized | src/dispatchers/lua_socket.py:65-67 | The compact text of every well-formed value reads back as that value, with the text after it untouched. |
| Json.ParseSerializedMembers | src/dispatchers/lua_socket.py:65-67 | Comma-separated `"key":value` pairs and the closing brace read back as the same pairs in the same order. |
| LuaMessage.ArgsOrEmpty | src/dispatchers/lua_socket.py:102 | `args or {}`: a missing argument dictionary becomes the empty one, and a given one is kept. |
| LuaMessage.MakeEnvelope | src/dispatchers/lua_socket.py:100-105 | The JSON object built for any call reads back as that call's envelope, so the listener recovers the intent, the arguments (or `{}`) in order, the clock reading and the source `nms_copilot`. |
| LuaMessage.ArgMembers | src/dispatchers/lua_socket.py:100-105 | Each argument becomes one JSON pair, in order, with the same name and the scalar's JSON value. |
| LuaMessage.ToJson | src/dispatchers/lua_socket.py:100-105 | The envelope's JSON object has exactly four keys: `intent`, `args`, `timestamp`, `source`, in that order. |
| LuaMessage.ArgsRoundTrip | src/dispatchers/lua_socket.py:100-105 | The argument pairs read back as the same arguments. |
| LuaMessage.EnvelopeRoundTrip | src/dispatchers/lua_socket.py:100-105 | Reading the JSON object back recovers the envelope: intent, arguments, timestamp and source. |
| LuaMessage.EnvelopeWellFormed | src/dispatchers/lua_socket.py:100-105 | When the timestamp is a float's text, the envelope's JSON object can be written. |
| LuaMessage.AsciiBytes | src/dispatchers/lua_socket.py:65-67 | The bytes of ASCII text decode back to that text, and every byte is below 128. |
| LuaMessage.AsciiBytesIsUtf8 | src/dispatchers/lua_socket.py:65-67 | On ASCII text these bytes are exactly the general UTF-8 encoding, so they are what `encode("utf-8")` produces. |
| LuaMessage.Body | src/dispatchers/lua_socket.py:65-67 | The bytes of the compact JSON text contain no line-feed byte. |
| LuaMessage.FrameIsOneLine | src/dispatchers/lua_socket.py:65-67 | The bytes sent are the body followed by exactly one `\n`, and the body decodes to the compact text. |
| LuaMessage.NewlineIndexOf | src/dispatchers/lua_socket.py:65-67 | In a frame, the first line feed is the terminator. |
| LuaMessage.StreamSplitsIntoBodies | src/dispatchers/lua_socket.py:64-89 | The frames sent one after another split into exactly their bodies, one line per message, in order. |
| LuaMessage.StreamReadsBack | src/dispatchers/lua_socket.py:64-89 | The bytes accepted by the local socket split into one line per accepted message, and each line reads back as that message. A listener that receives them all reads exactly these lines. |
| LuaMessage.DispatchedLineReadsBack | src/dispatchers/lua_socket.py:91-106 | The line built for `dispatch(intent, args)` reads back as its JSON object, and that object reads back as the envelope. |
| LuaSocket.SendPhaseCounts | src/dispatchers/lua_socket.py:75-89 | A send phase makes one or two sends and at most one reconnect. It succeeds iff some send succeeded. A successful first send ends it, and a second send follows a failed send and a successful reconnect. |
| LuaSocket.RetryBounds | src/dispatchers/lua_socket.py:64-89 | One call makes at most two connect attempts and at most two send attempts. |
| LuaSocket.OutcomeIsSomeSend | src/dispatchers/lua_socket.py:75-89 | A call reports True iff one of its send attempts completed. |
| LuaSocket.LazyConnectFirst | src/dispatchers/lua_socket.py:69-74 | With no socket and reconnecting enabled, the call connects before anything else. If that connect fails, it returns False without sending. |
| LuaSocket.NoSocketNoReconnect | src/dispatchers/lua_socket.py:69-71 | With no socket and reconnecting disabled, the call makes no attempt and returns False. |
| LuaSocket.RetryOnlyAfterFailure | src/dispatchers/lua_socket.py:75-89 | A successful first send means success with no reconnect. A second send comes only after a failed send followed by a reconnect that produced a socket. |
| LuaSocket.NeverLatches | src/dispatchers/lua_socket.py:68-74 | With reconnecting enabled, every call goes to the network, including calls after earlier failures. |
| LuaSocket.SendRunObeysPolicy | src/dispatchers/lua_socket.py:75-89 | The send phase chosen by the network's answers is a legal send phase and follows those answers. |
| LuaSocket.RunObeysPolicy | src/dispatchers/lua_socket.py:64-89 | The run chosen by the network's answers obeys the delivery policy and follows those answers. |
| LuaSocket.SendPhaseIsSendRun | src/dispatchers/lua_socket.py:75-89 | A legal send phase that got the network's answers is the one those answers choose. |
| LuaSocket.PolicyIsRun | src/dispatchers/lua_socket.py:64-89 | Every legal call that got the network's answers is the run those answers choose. |
| LuaSocket.RunConnects | src/dispatchers/lua_socket.py:64-89 | A call makes no connect attempt exactly when its first send succeeds on a held socket, or when it holds no socket and may not reconnect. |
| LuaSocket.DeliveryIsDetermined | src/dispatchers/lua_socket.py:64-89 | Two calls in the same state that got the same answers made the same attempts and report the same outcome. |
| LuaSocket.CountersOfCall | src/dispatchers/lua_socket.py:64-89 | Over a history, one call adds at most two connects and two sends, and a successful call adds a send. |
| LuaSocket.LuaSocketDispatcher.constructor | src/dispatchers/lua_socket.py:18-35 | Construction keeps the settings, makes exactly one connect attempt, and holds a socket iff that attempt succeeded. |
| LuaSocket.LuaSocketDispatcher.Default | src/dispatchers/lua_socket.py:18-35 | Construction with the defaults uses host `0.0.0.0`, port 8765 and reconnection on, and otherwise behaves as the constructor. |
| LuaSocket.LuaSocketDispatcher.OpenSockets | src/dispatchers/lua_socket.py:37-62 | At most one connected socket is unclosed: the one held, if any. |
| LuaSocket.LuaSocketDispatcher.ReleaseSocket | src/dispatchers/lua_socket.py:55-62 | `_close` closes the held socket and forgets it. With no socket it changes nothing. |
| LuaSocket.LuaSocketDispatcher.Connect | src/dispatchers/lua_socket.py:37-53 | `_connect` closes the old socket first and makes one attempt. Afterwards a fresh socket is held iff the attempt succeeded, and nothing else is closed. |
| LuaSocket.LuaSocketDispatcher.SendJsonLine | src/dispatchers/lua_socket.py:64-89 | The attempts are exactly those the delivery policy allows, with the network's outcomes. The message is accepted by the local socket once iff the call returns True, and the accepted bytes grow by exactly its frame. A call with no connect attempt keeps the same socket and closes nothing. A call that connects has closed the socket it found, if any, and any socket it then holds is fresh. The sets of connected and closed sockets only grow, and every socket newly connected is fresh. |
| LuaSocket.LuaSocketDispatcher.ConnectAndSend | src/dispatchers/lua_socket.py:69-89 | With no socket and reconnecting enabled, the call connects first and sends only if that produced a socket. The attempts and outcome are those the answers choose, and any socket held afterwards is fresh. The sets of connected and closed sockets only grow, and every socket newly connected is fresh. |
| LuaSocket.LuaSocketDispatcher.SendHeld | src/dispatchers/lua_socket.py:75-89 | With a socket held, the call sends. On failure it reconnects once, and it sends a second time only if that reconnect produced a socket. The attempts and outcome are the send phase chosen by the answers. A successful first send keeps the held socket and closes nothing. A failed one closes exactly the old socket, and any socket held afterwards is the fresh one just connected. |
| LuaSocket.LuaSocketDispatcher.Dispatch | src/dispatchers/lua_socket.py:91-110 | The envelope of the call is delivered under the policy. The envelope is accepted iff delivery succeeded, and the counters grow by at most two each. A call with no connect attempt keeps the same socket and closes nothing. A call that connects has closed the socket it found, if any, and any socket it then holds is fresh. The sets of connected and closed sockets only grow, and every socket newly connected is fresh. |
| LuaSocket.LuaSocketDispatcher.Close | src/dispatchers/lua_socket.py:112-113 | `close` leaves no socket held. Calling it again changes nothing. |
| LuaSocket.NoListener | src/dispatchers/lua_socket.py:35-53 | With no listener, the dispatcher makes one failed connect at construction and one per dispatch. It holds no socket and delivers nothing. |
| LuaSocket.ListenerDropsConnection | src/dispatchers/lua_socket.py:75-89 | After the listener drops the connection, a dispatch sends, fails, reconnects once and resends. The local socket accepts the message once. |
| LuaSocket.LaunchLineReadsBack | src/dispatchers/lua_socket.py:100-106 | If the accepted bytes reach the listener, it reads them as one line holding the `launch` envelope with `speed` = `boost`. |
| RegexParser.Compile | src/intents/regex_parser.py:8-10 | An intent's entry keeps its name. Its pattern is `()` when the intent has no `patterns` setting. Otherwise, when the list is non-empty and bar-free, the inside of its alternation splits back into exactly those patterns, in order. |
| RegexParser.Alternation | src/intents/regex_parser.py:9-10 | The stored pattern is parenthesised. An empty pattern list gives `()`. |
| RegexParser.SplitJoin | src/intents/regex_parser.py:9 | Joining bar-free patterns with the bar separator and splitting at the bars gives the patterns back. |
| RegexParser.AlternationLists | src/intents/regex_parser.py:8-10 | Inside the parentheses, the alternation lists exactly the configured patterns, in order. |
| RegexParser.CompiledNames | src/intents/regex_parser.py:6-10 | The built table lists the configured intents in configuration order. |
| RegexParser.FirstMatch | src/intents/regex_parser.py:13-17 | The lookup finds the first matching entry: no earlier entry matches. It finds none iff no entry matches. |
| RegexParser.EarlierMatchWins | src/intents/regex_parser.py:14-16 | A matching entry is never passed over: the lookup stops there or earlier. |
| RegexParser.EmptyPatternShadows | src/intents/regex_parser.py:8-16 | An intent without patterns gets `()`, which search finds in any text. Such an entry shadows every intent after it. |
| RegexParser.RegexParser.constructor | src/intents/regex_parser.py:5-10 | The table has one entry per configured intent, in order, with its alternation, and its intent names are distinct. |
| RegexParser.RegexParser.Parse | src/intents/regex_parser.py:13-17 | `parse` returns the intent of the first matching entry, or None. It leaves the table unchanged (no `modifies`). |

## Left out

- **Real sockets.** Sockets, `settimeout`, `connect`, `sendall` and `TCP_NODELAY` are not modelled. Each connect or send is a success or failure taken from the `Network` argument.
- **Exceptions that escape `_connect`.** Creating the socket and setting the connect timeout happen outside its `try`. Running out of file descriptors, or a negative `connect_timeout`, raises out of `_connect`, and so out of the constructor, `_send_json_line` and `dispatch`. The model treats every connect as a plain success or failure and has no such path.
- **Sockets whose connect failed.** The model, like the source, does not close them: they are neither in `connected` nor in `released`.
- **The socket after a failed resend.** After a failed resend, the reconnected socket stays held, as in the source.
- **Partial writes.** A failed `sendall` is modelled as writing nothing. In the source it may have written part of the line before failing, and the resend then writes the whole line again. The listener would then see a damaged line. `Wire` counts only writes that completed.
- **Receipt by the listener.** A completed `sendall` only means the local socket took the bytes. They can still be lost, so `Wire` is an upper bound: the listener reads at most these lines, in this order.
- **Closing that raises.** The exception from closing is swallowed and the socket is forgotten anyway. The model cannot tell this case apart from a normal close.
- **The lock.** `threading.Lock` only serialises callers, so calls are modelled as running one at a time. No interleaving is modelled.
- **Timeouts and the clock.**
  - Timeouts are not modelled, and neither are the `connect_timeout` and `send_timeout` settings or their defaults (2.0 seconds).
  - `time.time()` is not called. The timestamp is the text `json.dumps` writes for the clock reading, passed in as a float token: number characters containing `.` or an exponent.
  - Float formatting (`repr` of a float) is not modelled.
- **Logging.** Log output is left out. `Dispatch` returns the logged outcome as a ghost `delivered`, because the source returns nothing.
- **Lone surrogates.** A Python string may hold an unpaired surrogate code point, which `json.dumps` writes as a `\udXXX` escape. A Dafny `char` is a Unicode scalar value and cannot hold one, so such strings are outside the model.
- **Argument values.** They are restricted to `str`, `int` and `bool`. `json.dumps` raising for values it cannot serialise is not modelled.
- **Duplicate argument names.** A dictionary cannot repeat a key, but the model's argument sequence does not forbid repeats.
- **The reader.** The JSON reader reads the compact ASCII form the writer produces. It is not a general RFC 8259 parser: it refuses whitespace, arrays and `null`. It accepts raw non-ASCII characters inside strings; only the listener's byte decoding (`BytesText`) refuses bytes above 127.
- **Regular-expression search and `print`.** `re.search` is the `matches` argument. The constructor's `print` is left out.
- RegexParser.EmptyPatternShadows: it assumes `matches("()", text)` rather than deriving it from `re.search`.
- **The configuration.** It is a sequence of `IntentSpec` with distinct names, standing for the ordered dictionary the source receives.
- **Other dispatchers and modules.** The mock/no-op dispatcher, the speech recogniser, the configuration loader and the entry point are not part of this model.
- **An encode error for line feeds.** A line-feed-triggered encode error would abort a dispatch before any I/O. The code has none: `json.dumps` escapes a line feed inside a string as `\n`. The model follows the code and proves no raw line feed can appear (`LuaMessage.Body`).
