# stdio-rpc in Dafny

A model of the protocol core of `stdio-rpc`, a small RPC protocol carried
over the standard input and output of a parent (the client) and a child
process (the server). The client sends an arithmetic expression. The server
finds the symbols in it, asks the client for the value of each one
(`Query`/`Reply`), substitutes the values, evaluates the text and answers
with a `Response`. A message that is out of turn is answered with `BadSeq`.

The project has these modules, one per file:

- `Io` (`io.dfy`): `Option`, `Result`, the two I/O error kinds, `int64`,
  and two classes. `Source` is a reader over a finite stream with a
  position that advances. `Sink` is a buffered writer with a delivered
  part and a buffered part.
- `BigEndian` (`big_endian.dfy`): bytes and fixed-width big-endian numbers
  (`usize::to_be_bytes` / `from_be_bytes`).
- `PostcardFrame` (`postcard_frame.dfy`): binary framing. A frame is the
  payload length as 8 big-endian bytes, then the payload. `ReadU64Be`,
  `WriteU64Be`, `ReceiveProto` and `SendProto` are methods on a `Source`
  or `Sink`. Each is proved against a function on the stream
  (`DecodeU64`, `EncodeU64`, `Receive`, `SendBytes`). The payload
  serialiser is a pair of function parameters `encode` / `decode`.
- `Messages` (`messages.dfy`): the message families `C2SMsg` and `S2CMsg`.
  It also holds one concrete serialiser with a proved round trip, used to
  instantiate the stream lemmas.
- `JsonFrame` (`json_frame.dfy`): newline framing. `ReceiveJson` is the
  line-skipping receive loop; `SendJson` writes the text and one newline,
  then flushes.
- `Strings` (`strings.dfy`): `char::is_whitespace`, `str::trim` and the
  decimal rendering of an `i64`.
- `Server` (`server.dfy`): `serve` and `handle_request`. The input is the
  sequence of client messages; its end stands for any read failure. The
  `HashMap` iteration order is unspecified. The methods pick keys with
  `:|` and return the order they used as a ghost out-parameter. Every
  specification function takes that order as an argument.
- `Client` (`client.dfy`): the `TOKEN` table, one round `run`, and the
  `main` loop that repeats it over the lines typed on standard input.
- `EndToEnd` (`end_to_end.dfy`): both sides together. Each side sends
  exactly what the other reads. The outcome does not depend on the map
  order. Worked cases: `"a+a"` (one `Query('a')`), `"1+2"` (no `Query`),
  an unknown symbol, and a stray `Reply`.

`BadSeq` does not end the client's receive loop: `run` only reports it
(`src/bin/client.rs:80`) and keeps reading. The model follows the code
(`Client.NoiseIgnored`).

## Model

| member | source | states |
|---|---|---|
| Io.Source.constructor | src/proto_postcard/mod.rs:149 | a reader positioned at the start of the given stream |
| Io.Source.ReadExact | src/proto_postcard/mod.rs:12 | `read_exact` succeeds exactly when the buffer fits in what is left; then the buffer holds the next bytes and the reader has advanced past them; otherwise the stream is drained |
| Io.Sink.constructor | src/proto_postcard/mod.rs:142 | a writer with nothing delivered and nothing buffered |
| Io.Sink.WriteAll | src/proto_postcard/mod.rs:17 | `write_all` appends to the buffer and delivers nothing |
| Io.Sink.Flush | src/proto_postcard/mod.rs:36 | `flush` delivers the buffer, in order, after what was delivered before |
| BigEndian.ToBytes | src/proto_postcard/mod.rs:17 | `to_be_bytes` has exactly `width` bytes |
| BigEndian.FromBytes | src/proto_postcard/mod.rs:13 | `from_be_bytes` gives a value below 256^n |
| BigEndian.FromToBytes | src/proto_postcard/mod.rs:13-17 | reading back the big-endian bytes of a value gives the value |
| BigEndian.ToFromBytes | src/proto_postcard/mod.rs:13-17 | every byte string is the encoding of the value read from it |
| BigEndian.ToBytesAt | src/proto_postcard/mod.rs:17 | byte `i` is base-256 digit `width-1-i`: most significant byte first |
| PostcardFrame.EncodeU64 | src/proto_postcard/mod.rs:16-18 | `write_u64_be` emits exactly 8 bytes |
| PostcardFrame.EncodeU64At | src/proto_postcard/mod.rs:16-18 | byte `i` of the length prefix is digit `7-i`: most significant byte first |
| PostcardFrame.DecodeU64 | src/proto_postcard/mod.rs:10-14 | `read_u64_be` succeeds exactly when 8 bytes remain; otherwise it fails with `UnexpectedEof`; on success it consumes exactly 8 bytes |
| PostcardFrame.U64RoundTrip | src/proto_postcard/mod.rs:10-18 | `read_u64_be` after `write_u64_be(v)` gives `v` and leaves the rest |
| PostcardFrame.DecodeU64Inverse | src/proto_postcard/mod.rs:10-18 | what `read_u64_be` reads is the encoding of the value it returns |
| PostcardFrame.Frame | src/proto_postcard/mod.rs:34-35 | a frame is 8 bytes longer than its payload |
| PostcardFrame.ParseFrame | src/proto_postcard/mod.rs:22-25 | a failed split is `UnexpectedEof`; a successful one splits the stream into prefix, payload and rest |
| PostcardFrame.Receive | src/proto_postcard/mod.rs:21-28 | `receive_proto` never grows the stream, and a received message consumed at least the 8 prefix bytes |
| PostcardFrame.ParseFrameRoundTrip | src/proto_postcard/mod.rs:21-37 | splitting a frame followed by anything gives its payload and exactly that rest |
| PostcardFrame.FrameRoundTrip | src/proto_postcard/mod.rs:21-37 | receiving a frame consumes exactly 8+n bytes and gives what the decoder makes of the payload: the message, or `InvalidData` |
| PostcardFrame.ParseFrameInverse | src/proto_postcard/mod.rs:22-25 | framing is unambiguous: a successful split is one whole frame followed by the rest |
| PostcardFrame.ReceiveInverse | src/proto_postcard/mod.rs:21-28 | a message is received only from a whole frame whose payload decodes to it |
| PostcardFrame.TruncatedFrame | src/proto_postcard/mod.rs:22-25 | a stream that ends anywhere inside a frame gives `UnexpectedEof`, never a message |
| PostcardFrame.SendBytes | src/proto_postcard/mod.rs:30-37 | sending fails with `InvalidData` exactly when serialisation fails |
| PostcardFrame.ReceiveAllStep | src/proto_postcard/mod.rs:21-28 | a receive loop that gets a message goes on from the rest of the stream |
| PostcardFrame.FramesRoundTrip | src/proto_postcard/mod.rs:140-155 | frames written back to back are received in the same order with the same values, and then the loop goes on with what follows |
| PostcardFrame.ReadU64Be | src/proto_postcard/mod.rs:10-14 | the method reads what `DecodeU64` describes and advances the reader by 8 bytes, or drains it and fails |
| PostcardFrame.WriteU64Be | src/proto_postcard/mod.rs:16-18 | the method buffers exactly `EncodeU64(v)` after what was buffered |
| PostcardFrame.ReceiveProto | src/proto_postcard/mod.rs:21-28 | the method's result and the unread stream are exactly `Receive`'s |
| PostcardFrame.SendProto | src/proto_postcard/mod.rs:30-37 | on success the writer has delivered, after what came before, exactly the frame `BE64(n) ++ payload`, and nothing is left buffered; on failure nothing is written |
| Messages.EncodeInt64 | src/proto_postcard/mod.rs:31 | the stand-in serialiser, not postcard's format: an `i64` is encoded in 8 bytes |
| Messages.Int64RoundTrip | src/proto_postcard/mod.rs:26-31 | every `i64` decodes back to itself |
| Messages.EncodeChar | src/proto_postcard/mod.rs:31 | the stand-in serialiser, not postcard's format: a `char` is encoded in 3 bytes |
| Messages.CharRoundTrip | src/proto_postcard/mod.rs:26-31 | every `char` decodes back to itself |
| Messages.EncodeChars | src/proto_postcard/mod.rs:31 | the stand-in serialiser, not postcard's format: `n` chars are encoded in 3n bytes |
| Messages.CharsRoundTrip | src/proto_postcard/mod.rs:26-31 | a string's chars decode back, and the bytes after them are left |
| Messages.EncodeString | src/proto_postcard/mod.rs:31 | the stand-in serialiser, not postcard's format: a string is its 8-byte length followed by 3 bytes per char |
| Messages.StringRoundTrip | src/proto_postcard/mod.rs:26-31 | a string decodes back to itself and leaves the bytes after it |
| Messages.EncodeC2S | src/proto_postcard/mod.rs:30-44 | the stand-in serialiser, not postcard's format: serialising a client message fails exactly for a `Request` too long for a `usize`-sized buffer |
| Messages.EncodeS2C | src/proto_postcard/mod.rs:30-52 | the stand-in serialiser, not postcard's format: serialising a server message fails exactly for a `Log` too long for a `usize`-sized buffer |
| Messages.C2SRoundTrip | src/proto_postcard/mod.rs:26-44 | every variant of `C2SMsg` that can be serialised decodes back to itself |
| Messages.S2CRoundTrip | src/proto_postcard/mod.rs:26-52 | every variant of `S2CMsg` that can be serialised decodes back to itself |
| Messages.C2SStream | src/proto_postcard/mod.rs:140-155 | client messages sent back to back are received in order, and then the end of the stream stops the reader with `UnexpectedEof` |
| Messages.S2CStream | src/proto_postcard/mod.rs:140-155 | the same for server messages |
| Messages.TwoRequests | src/proto_postcard/mod.rs:140-155 | the module's test: two requests written to one buffer are read back in order, for any two strings |
| JsonFrame.NewlineAt | src/proto_json/mod.rs:12 | the first newline, or the end when there is none |
| JsonFrame.LineLength | src/proto_json/mod.rs:12 | `read_line` never takes more than is left |
| JsonFrame.Pop | src/proto_json/mod.rs:13 | `pop` removes the last character, whatever it is; nothing on an empty string |
| JsonFrame.ReceiveSpec | src/proto_json/mod.rs:7-29 | `receive_proto` never grows the stream |
| JsonFrame.ReadLine | src/proto_json/mod.rs:12 | the method returns the characters up to and including the first newline, or all that is left, and the reader advances past them |
| JsonFrame.ReceiveJson | src/proto_json/mod.rs:7-29 | the loop's result and the unread text are exactly `ReceiveSpec`'s |
| JsonFrame.SendSpec | src/proto_json/mod.rs:31-36 | sending fails exactly when serialisation fails; otherwise it writes the text followed by exactly one `\n` |
| JsonFrame.SendJson | src/proto_json/mod.rs:31-36 | on success the text and its newline are delivered after what came before, and nothing is left buffered; on failure nothing is written |
| JsonFrame.EndOfStream | src/proto_json/mod.rs:12-17 | at the end of the stream the receive fails with `InvalidData` |
| JsonFrame.BlankLine | src/proto_json/mod.rs:13-17 | a blank line is fatal, not skipped, and only that line is consumed |
| JsonFrame.LineSplit | src/proto_json/mod.rs:12-13 | `read_line` on a terminated line takes the line and its newline, and `pop` gives back the line |
| JsonFrame.StrayLine | src/proto_json/mod.rs:21-24 | a terminated line not starting with `{` is discarded and the next line is read |
| JsonFrame.BraceLine | src/proto_json/mod.rs:26-27 | the first line starting with `{` goes to the parser, giving its value or `InvalidData`, and nothing after it is read |
| JsonFrame.UnterminatedLine | src/proto_json/mod.rs:12-13 | on a last line with no newline, `pop` removes a real character, so the parser never sees it |
| JsonFrame.SkipStray | src/proto_json/mod.rs:19-24 | any number of stray lines before a frame are passed over |
| JsonFrame.RoundTrip | src/proto_json/mod.rs:19-36 | with a serialiser that writes one `{` line and a parser that inverts it, receive after send gives the message back, whatever stray lines precede it, and leaves the text after it unread |
| Strings.TrimStartSpec | src/bin/client.rs:59 | `trim_start` drops exactly the leading whitespace |
| Strings.TrimEndSpec | src/bin/client.rs:59 | `trim_end` drops exactly the trailing whitespace |
| Strings.TrimSpec | src/bin/client.rs:59 | `trim`'s result neither starts nor ends with whitespace, and is a slice of the line with only whitespace around it |
| Strings.NatDigits | src/bin/server.rs:60 | the digits of a natural number: at least one, all decimal, no leading zero |
| Strings.NatDigitsValue | src/bin/server.rs:60 | the digits read back as the number |
| Strings.Decimal | src/bin/server.rs:60 | `i64::to_string` has a leading `-` exactly for negative values, and digits everywhere else |
| Strings.DecimalRoundTrip | src/bin/server.rs:60 | the rendering reads back as the value |
| Server.SymbolChars | src/bin/server.rs:42-44 | the filter keeps exactly the characters of the expression that are not ASCII digits, whitespace or `+-*/` |
| Server.InitialValues | src/bin/server.rs:42-46 | the map has one key per distinct symbol of the expression and no other, each with value 0 |
| Server.EnumerationSize | src/bin/server.rs:48 | each distinct symbol is visited exactly once: an order has as many entries as the key set |
| Server.SomeEnumeration | src/bin/server.rs:48 | every key set has some iteration order |
| Server.Queries | src/bin/server.rs:49 | one `Query` per visited key, in the order visited |
| Server.QueryLoop | src/bin/server.rs:48-56 | the query loop reads no more than the input holds |
| Server.FirstNonReply | src/bin/server.rs:50-54 | the position of the first message that is not a `Reply` |
| Server.QueryLoopCompleted | src/bin/server.rs:48-53 | when every query is answered: one `Query` per symbol, each followed by exactly one receive |
| Server.QueryLoopInterrupted | src/bin/server.rs:50-54 | a non-`Reply` gets one `BadSeq`, no further `Query` is sent, and the offending message is consumed; if instead the input ends, the loop stops after its last `Query` |
| Server.QueryLoopShape | src/bin/server.rs:48-56 | the query loop in closed form, for all three ways it can end |
| Server.QueryLoopValues | src/bin/server.rs:45-53 | `Reply(v)` after `Query(k)` sets the value of `k` only; every other entry keeps its starting value |
| Server.QueryLoopAppend | src/bin/server.rs:48-56 | the loop over `o1 + o2` is the loop over `o1` and then, if it completed, the loop over `o2` |
| Server.Rendered | src/bin/server.rs:59-60 | one rendering per key of the map |
| Server.RenderedHasNoSymbol | src/bin/server.rs:44-60 | a decimal rendering contains no symbol character |
| Server.ReplaceAppend | src/bin/server.rs:60 | `str::replace` distributes over concatenation |
| Server.ReplaceAbsent | src/bin/server.rs:60 | replacing a character that does not occur changes nothing |
| Server.ReplaceAfterSubstitute | src/bin/server.rs:58-61 | one more `replace` after a substitution is the substitution with one more key, as long as the key occurs in no rendering |
| Server.NoSymbolLeft | src/bin/server.rs:44-61 | after the substitution no symbol character is left |
| Server.SubstituteNothing | src/bin/server.rs:58-61 | substituting an empty map changes nothing |
| Server.SubstituteAll | src/bin/server.rs:58-61 | the `replace` loop, in whatever order the map yields its keys, gives the simultaneous substitution of every rendering, which does not depend on that order |
| Server.HandleSpec | src/bin/server.rs:34-65 | `handle_request` reads no more than the input holds |
| Server.CompletedExchange | src/bin/server.rs:48-64 | a completed exchange sends one `Query` per symbol and then exactly one `Response`, which is the evaluation of text with no symbol left, or 0 when evaluation fails |
| Server.AbortedExchange | src/bin/server.rs:54 | a non-`Reply` during the queries gives exactly one `BadSeq` as the last message, no `Response`, and consumes the offending message |
| Server.NoSymbols | src/bin/server.rs:42-64 | an expression without symbols sends no `Query` and answers at once with the evaluation of the text as written |
| Server.QueryAnswered | src/bin/server.rs:48-53 | one more `Query`, answered by a `Reply`, records that value |
| Server.QueryUnanswered | src/bin/server.rs:49-54 | the next `Query` left unanswered ends the loop: by a read failure at the end of the input, or by `BadSeq` after a `Request` |
| Server.CompleteOrder | src/bin/server.rs:48 | an iteration cut short still extends to an order of all the keys |
| Server.HandleRequest | src/bin/server.rs:34-65 | the method visits the symbols in some iteration order of the key set and does exactly what `HandleSpec` describes for that order |
| Server.PrependPrepend | src/bin/server.rs:23-31 | output sent in two steps is the same as output sent in one step |
| Server.PrependNothing | src/bin/server.rs:23-31 | sending nothing changes nothing |
| Server.ServeRequest | src/bin/server.rs:24-27 | a `Request` at top level sends its exchange, then goes on after what it consumed, unless a read failed |
| Server.FirstRequest | src/bin/server.rs:24-27 | the same, for a stream that starts with the `Request` |
| Server.ServeReply | src/bin/server.rs:29 | a top-level message other than `Request` gets `BadSeq`, and the loop waits for the next message |
| Server.ServedStart | src/bin/server.rs:23 | the invariant of `serve`'s loop holds before the first message |
| Server.ServedEnd | src/bin/server.rs:23-31 | when the input is exhausted, what was sent is everything `serve` sends |
| Server.ServedRequest | src/bin/server.rs:24-27 | the invariant of `serve`'s loop is kept by a `Request`; a read failure inside the exchange ends `serve` |
| Server.ServedReply | src/bin/server.rs:29 | the invariant of `serve`'s loop is kept by a stray `Reply` |
| Server.Serve | src/bin/server.rs:15-32 | the method sends exactly what `ServeSpec` describes for the iteration orders it used, one order per request |
| Client.TokenValues | src/bin/client.rs:11-24 | `TOKEN` maps exactly a→1, b→2, c→3, ▲→1, ▼→-1, ▶→100, ◀→200, and every other character gets the default 0 |
| Client.QueriedSymbols | src/bin/client.rs:73 | no more symbols than messages |
| Client.Replies | src/bin/client.rs:73-77 | one `Reply` per queried symbol, in order, carrying the table's value or 0 when the symbol is missing |
| Client.FirstResponse | src/bin/client.rs:67-72 | the position of the first `Response`, or the end when there is none |
| Client.RunSpec | src/bin/client.rs:55-87 | a round reads no more than the input holds |
| Client.RunOutcome | src/bin/client.rs:59-82 | a round returns `Ok` exactly when a `Response` arrives, and then it has read through the first one; it sends `Request(trim(line))` first, then one `Reply` per `Query` before the `Response` |
| Client.RepliesAppend | src/bin/client.rs:73-77 | answering one more query adds one `Reply` at the end |
| Client.QueriedStep | src/bin/client.rs:68-73 | reading one more message adds its symbol if it is a `Query` |
| Client.RunStep | src/bin/client.rs:73-80 | one pass of the loop on something other than `Response`: a `Query` is answered, anything else sends nothing |
| Client.RunFound | src/bin/client.rs:69-72 | `Response` ends the loop and the round returns `Ok` |
| Client.RunExhausted | src/bin/client.rs:68 | when the input ends before a `Response`, the round ends with an error |
| Client.Run | src/bin/client.rs:55-87 | the method sends, reads and returns exactly what `RunSpec` describes |
| Client.NoiseIgnored | src/bin/client.rs:79-80 | `Log` and `BadSeq` send nothing and do not end the loop |
| Client.NoiseSkipped | src/bin/client.rs:79-80 | `Log` and `BadSeq` before the input shift the first `Response` and ask for nothing |
| Client.NoiseQueried | src/bin/client.rs:79-80 | `Log` and `BadSeq` ask for nothing |
| Client.FirstResponseAfterNoise | src/bin/client.rs:79-80 | `Log` and `BadSeq` do not end the loop |
| Client.QueriedSymbolsAppend | src/bin/client.rs:67-82 | the symbols asked in two stretches of input are those of each stretch, in order |
| Client.NoiseAsksNothing | src/bin/client.rs:79-80 | a stretch of `Log` and `BadSeq` asks for no symbol |
| Client.SessionStep | src/bin/client.rs:45-50 | a round that returns `Ok` hands the rest of the input and the next line to the next round; a round that fails ends `main`'s loop |
| Client.SessionAdvance | src/bin/client.rs:45-50 | the invariant of `main`'s loop is kept by one round |
| Client.Session | src/bin/client.rs:45-50 | the method sends exactly what `SessionSpec` describes: rounds on successive lines until one fails |
| Client.SilentServer | src/bin/client.rs:45-68 | against a server that says nothing, the first round fails after sending its `Request`, and the loop stops |
| EndToEnd.TableValues | src/bin/server.rs:51-53 | the values the server records: one per symbol, each the client's table value |
| EndToEnd.QueriedQueries | src/bin/client.rs:73 | the client reads back the symbols in the order the server asked them |
| EndToEnd.RepliesAreReplies | src/bin/server.rs:50-53 | the client's answers are all `Reply` messages |
| EndToEnd.ValuesFromTable | src/bin/server.rs:48-53 | once every query has been answered from the table, the recorded values are the table's values |
| EndToEnd.AnsweredValues | src/bin/server.rs:48-56 | the server's query loop over the client's replies completes, whatever the order: one `Query` per symbol, the table's values recorded |
| EndToEnd.HandledAnswered | src/bin/server.rs:34-65 | `handle_request` on the client's replies asks every symbol, then sends the `Response`, and stays alive |
| EndToEnd.ServerSide | src/bin/server.rs:15-65 | what `serve` sends to a client that answers from its table: the queries, then a `Response` that mentions no iteration order |
| EndToEnd.LastRequest | src/bin/server.rs:23-31 | a last `Request` whose exchange reads all the input sends all that is sent |
| EndToEnd.FirstResponseAfterQueries | src/bin/client.rs:67-72 | the server's reply stream has its first `Response` after the queries |
| EndToEnd.ClientSide | src/bin/client.rs:55-87 | the client's round on the server's queries and `Response`: the `Request`, then one `Reply` per query, and `Ok` |
| EndToEnd.Conversation | src/bin/server.rs:15-65 | each side's output is exactly what the other side reads; `handle_request` ends alive and the client's round returns `Ok` |
| EndToEnd.OrderIndependence | src/bin/server.rs:48-64 | two iteration orders give as many messages, the same symbols asked about, and the same final `Response` |
| EndToEnd.QueryIn | src/bin/server.rs:49 | a symbol is asked about exactly when it is in the iteration order |
| EndToEnd.OneLineSession | src/bin/client.rs:45-59 | after one typed line, the next round sends `Request("")` (end of standard input) before it finds that the server has stopped |
| EndToEnd.SymbolsOfAPlusA | src/bin/server.rs:42-46 | the only symbol of `a+a` is `a` |
| EndToEnd.OrderOfAPlusA | src/bin/server.rs:48 | the map for `a+a` has exactly one iteration order |
| EndToEnd.AnswerOfAPlusA | src/bin/server.rs:58-62 | for `a+a` the evaluator is handed `1+1` |
| EndToEnd.SingleSymbol | src/bin/server.rs:42-64 | an expression with one distinct symbol sends exactly one `Query` for it and then the `Response` |
| EndToEnd.APlusA | src/bin/server.rs:42-64 | `a+a` gives exactly one `Query('a')`, answered with 1, then the `Response` of `1+1`, whatever order the map yields |
| EndToEnd.SymbolsOfOnePlusTwo | src/bin/server.rs:42-46 | `1+2` has no symbols |
| EndToEnd.AnswerOfOnePlusTwo | src/bin/server.rs:58-62 | for `1+2` the evaluator is handed `1+2` unchanged |
| EndToEnd.OnePlusTwo | src/bin/server.rs:42-64 | `1+2` gives no `Query`, only the `Response` |
| EndToEnd.SymbolsOfX | src/bin/server.rs:42-46 | the only symbol of `x` is `x` |
| EndToEnd.AnswerOfX | src/bin/server.rs:58-62 | for `x` valued 0 the evaluator is handed `0` |
| EndToEnd.UnknownSymbol | src/bin/client.rs:75 | a symbol missing from the client's table gets the default 0: the client answers `Query('x')` with `Reply(0)`, and the server then evaluates `0` |
| EndToEnd.ClientAnswersOne | src/bin/client.rs:73-77 | one `Query` answered with the table's value, then `Response` ends the round with `Ok` |
| EndToEnd.EmptyRounds | src/bin/client.rs:45-59 | after standard input ends, every round sends `Request("")`; `n` responses give `n + 1` empty requests, so only the end of the server's output stops the loop |
| EndToEnd.EmptyRequest | src/bin/server.rs:42-64 | the server answers the empty request at once with `Response(0)` when the evaluator rejects the empty text |
| EndToEnd.StrayReply | src/bin/server.rs:29 | a `Reply` before any `Request` gets `BadSeq`, and the next `Request` is served normally |

## Left out

- postcard and serde_json: the serialisers are function parameters of the framing (`encode`/`decode`, `toJson`/`parse`). Their round trips are hypotheses of the lemmas. `Messages` has its own stand-in serialiser with a proved round trip, not postcard's wire format.
- `evalexpr::eval_int`: a function parameter `eval` that may fail. The failure becomes 0, as `unwrap_or_default` does.
- The symbol table is a parameter of the client's functions and methods. `TOKEN` is the table the binary gives them, and `Client.TokenValues` states its contents.
- The `Display` implementations and all colouring and console output: user interface only.
- Spawning the child process, the pipes and `child.wait`: operating-system plumbing. The two directions are message sequences, not concurrent processes.
- The server's log file: append-only output that the protocol never reads.
- Write errors (a pipe closed while sending): every send is assumed to succeed at the message level. Read errors are modelled as the end of the input sequence.
- Server.Serve: the end of the input stands for every read failure, including a frame that does not decode. The framing lemmas in `PostcardFrame` cover how such a failure arises.
- Client.Session: a failed read on the client's own standard input is not modelled. At end of input `read_line` yields the empty string, which the model follows (`NextLine`).
- Client.Session: the session ends only because the server's output is a finite sequence. With a live server the client does not stop at the end of standard input. Each round then sends `Request("")`, the server answers `Response(0)` because `eval_int("")` fails, and `main` loops for ever. `EndToEnd.EmptyRounds` and `EndToEnd.EmptyRequest` state the two halves of this; the model has no unbounded run to state it in one piece.
- The `BufReader` that `run` builds around the child's stdout each round: its read-ahead is not modelled, so each round reads on from exactly where the previous one stopped.
- `read_line`'s UTF-8 decoding: the JSON stream is modelled as characters, not bytes.
- Allocation of a buffer of untrusted length and the width of `usize`: lengths are unbounded naturals, capped below 2^64 only where a length is encoded.
- The JSON `Response` enum, which has no variants: an empty datatype cannot be declared in Dafny. `JsonFrame.Request` is modelled.
- `src/lib.rs`: `Message`, `impl_message!`, `send_msg` and `receive_msg` only forward to `send_proto` and `receive_proto`, so they have no separate model.
- Messages.TwoRequests: the module's test uses the strings "hello" and "world"; the lemma is stated for any two strings that fit a payload.
