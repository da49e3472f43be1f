# mcp-core: from bytes to replies, verified

`mcp-core` serves the Model Context Protocol over byte streams. This project models the path
from the bytes a peer sends to the bytes it gets back, in Dafny, and proves what that path
promises. It has three layers.

- **Transport.** `Transport.FramedTransport` reads and writes frames incrementally, in newline
  or `Content-Length` framing, which it detects. It is a class over a chunked source that can
  fail. Its methods are proved to compute the pure functions of `FrameSpec` on the *tape*: the
  same bytes and failures with the chunk boundaries erased. `FrameGrammar` defines what a
  well-formed stream is without mentioning the reader, and proves reader and grammar
  equivalent; `FrameRuns`, `RoundTrip` and `FreshRoundTrip` lift this to whole runs and to what
  `write_message` writes. `Unicode` and `Detection` say in characters which lines are blank and
  which are headers, `Refusals` what each broken frame is refused with, and `Failures` what
  becomes of every failure of the source.
- **Session.** `Session.Session` is the JSON-RPC dispatcher, proved to compute
  `Protocol.Route`. `Messages` has the members of requests and answers, in the protocol's own
  words and apart from the dispatcher; on these `OnTheWire` says what each message makes the
  server send, with literal codes, texts and results. `SessionRuns`, `Versions` and
  `Independence` prove what holds over whole conversations and over interleaved connections;
  `Connections` ties the latter to session objects that share one core.
- **Pump.** `Runner.Pump` joins the two and is proved to compute `PumpSpec.Connect`, a function
  of the tape; `ConnectionRuns` and `Composition` prove what follows for a peer and end to end.

A Rust `String` is modelled by its UTF-8 bytes inside the transport, with UTF-8 validity as in
RFC 3629, section 4 (proved to accept exactly the encodings of section 3), and `trim` by the
Unicode White_Space characters. A service may keep state: it is a function of everything it
was asked to do before. Integers are unbounded except where the width matters: `ParseUsize` is
checked arithmetic at 64 bits, and a size cap must be below `usize::MAX`, because `max_len +
1` is computed (src/transport.rs:233).

Where the code and its comments differ, the model follows the code:

- src/transport.rs:16-23 says that a frame the transport does not finish reading ends the
  stream. An I/O failure inside a line does not, outside `Content-Length` framing: the next
  read returns the tail of the broken line as a message (`FrameRuns.TornLineReturnsItsTail`).
  `FrameGrammar.ReadIsUnit` has the exact condition, `TornLine`.
- src/transport.rs:246-248 calls the second length check redundant. It is what refuses a line
  whose newline is byte `max_len + 1`; `FrameSpec.LineOverflows` covers that case.

## Model

| member | source | states |
|---|---|---|
| Reader.ScriptedReader.FillBuf | src/transport.rs:959-999 | a source of chunks and failures with sticky end of stream, seen as a tape that forgets chunk boundaries |
| Reader.ScriptedReader.Consume | src/transport.rs:959-999 | consuming bytes of the front chunk consumes exactly those bytes of the tape |
| Transport.FramedTransport.ReadMessage | src/transport.rs:179-195 | under every chunking and any failures, one read has the outcome, framing, desync reason and position that the frame specification gives on the tape |
| Transport.FramedTransport.ReadLine | src/transport.rs:219-251 | incremental capped reading of a line refines locating its end in the tape |
| Transport.FramedTransport.ReadFrameLine | src/transport.rs:263-272 | every failure but a clean end of stream poisons, keeping its own error |
| Transport.FramedTransport.ReadAuto | src/transport.rs:279-293 | detection loop: blank lines skipped, then the framing committed by the first other line |
| Transport.FramedTransport.ReadNewline | src/transport.rs:274-277 | one line without its line ending |
| Transport.FramedTransport.ReadContentLength | src/transport.rs:319-377 | the header loop and body read of one frame refine the recursive frame specification |
| Transport.FramedTransport.ReadToEnd | src/transport.rs:354-372 | the body read gets exactly the declared bytes, or as many as arrive before the end or a failure, and consumes no more |
| Transport.FramedTransport.WriteMessage | src/transport.rs:198-212 | appends exactly one encoded frame in the framing in force |
| Transport.FramedTransport.CheckLen | src/transport.rs:167-173 | refuses and desynchronises exactly past the cap, keeping the first reason |
| Transport.FramedTransport.DesyncError | src/transport.rs:147-150 | the first reason is kept and reported |
| Transport.FramedTransport.Poison | src/transport.rs:160-163 | a first reason already recorded is not replaced |
| FrameSpec.LineEnds | src/transport.rs:219-251 | a line of at most `max_len` bytes, ended by its newline or the stream, is consumed exactly and yielded, or refused as undecodable without losing framing |
| FrameSpec.LineOverflows | src/transport.rs:230-248 | a longer line costs exactly `max_len + 1` bytes and loses framing |
| FrameSpec.LineFails | src/transport.rs:222 | a failure before the newline takes the bytes already read with it and does not poison |
| FrameSpec.DeclaredLengthExact | src/transport.rs:298-317 | a declared value is accepted as n if and only if it is non-empty, all digits, of unbounded decimal value n, and n is within the cap; it is "too large" if and only if the value exceeds the cap |
| Decimal.ParseUsizeIsValue | src/transport.rs:310-316 | checked machine parsing yields the decimal value and fails only when that does not fit |
| FrameSpec.ReadMessageShrinks | src/transport.rs:221-245 | no read moves backwards and every message costs at least one byte, so the read loops terminate |
| FrameGrammar.ReadIsUnit | src/transport.rs:16-27 | a read stays in sync without tearing a line if and only if it consumed one whole unit of the grammar, and its result, framing and position are then that unit's |
| FrameGrammar.LostExactlyOffGrammar | src/transport.rs:138-150 | framing is given up if and only if what lies ahead is no unit of the grammar |
| FrameGrammar.UnitsDoNotOverlap | src/transport.rs:319-377 | framing is unambiguous: no stream begins with two units that differ in content or length |
| FrameGrammar.UnitComplete | src/transport.rs:179-377 | every unit of the grammar, with any leading blank lines, is read whole and yields its content |
| FrameGrammar.UnitSound | src/transport.rs:179-377 | every in-sync read consumed a unit: on success the opening line, at most 63 further headers, the blank line and the declared body |
| FrameRuns.RunIsStream | src/transport.rs:179-377 | the same equivalence for any number of reads |
| FrameRuns.NothingSmuggled | src/transport.rs:138-146 | over any run, in sync or not, every returned message is the content of a whole unit, and the units stand one after the other from the start |
| FrameRuns.DesyncIsFinal | src/transport.rs:179-186 | once lost, framing stays lost: the first reason is kept, nothing is consumed, every read fails |
| FrameRuns.LossIsExplained | src/transport.rs:152-163 | the read that loses framing returns the cause it records: an I/O failure or an undecodable line that abandons a frame as itself and never as a refusal, anything else as the recorded refusal |
| FrameRuns.SafeFromTornLines | src/transport.rs:253-272 | lines are never torn in `Content-Length` framing whatever fails, nor in any framing when failures strike between lines |
| FrameRuns.TornLineReturnsItsTail | src/transport.rs:222-277 | outside `Content-Length` framing, for every partial line and tail: the failure is reported, the transport stays in sync, and the tail comes back as a message |
| Failures.FailureIsReportedAsItself | src/transport.rs:152-163 | a read consumes a failure of the source if and only if it returns an I/O error; the kind is that failure's, the reader stands right behind it, and no read consumes two |
| Failures.FailurePoisons | src/transport.rs:253-272 | a failure loses framing if and only if the framing is then `Content-Length` |
| Failures.RunReportsFailures | src/transport.rs:152-163 | over any run, the failures returned are the failures passed, each once and in order |
| Failures.ConnectionReportsFailure | src/runner.rs:71-93 | a connection returns an I/O error if and only if it met a failure; it is the first there was, and nothing is read past it |
| FrameRuns.TornIsReported | src/transport.rs:222 | a torn line is always reported as the I/O failure, so a caller that stops at the first error never sees its tail |
| FrameRuns.FramingDecidedOnce | src/transport.rs:279-293 | over any run the framing leaves detection at most once and then never changes |
| Detection.HeaderExactly | src/transport.rs:73-86 | a line has a header value if and only if it is the name, each letter in either case, a colon and that value, with any Unicode white space around name and value |
| Detection.UnrecognisedExactly | src/transport.rs:81-86 | a line is no header if and only if it has no colon or something other than the name before its first one |
| Detection.DetectionExactly | src/transport.rs:279-293 | a fresh transport skips a line of white space, takes every header for a header, and returns any other line without its line ending as a message, in newline framing from then on |
| Detection.AnyHeaderOpensAFrame | src/transport.rs:319-377 | the declared body is read whatever the case of the name, the white space around name and value, and up to 63 further headers |
| Detection.HeaderIsNoMessage | src/transport.rs:73-80 | a first header commits to `Content-Length` framing and is never a message: only a body of exactly the declared length is, and an unusable value loses framing |
| Detection.NewlineExactly | src/transport.rs:274-277 | in newline framing a line is the message before its trailing CR and LF characters, even one that reads like a header |
| Detection.AnnouncesExactly | src/transport.rs:279-293 | a message lets newline framing be detected if and only if it is neither all white space nor a header |
| Refusals.NoHeaderIsRefused | src/transport.rs:319-333 | in `Content-Length` framing a line that is no header is refused, consumed and kept as the reason |
| Refusals.BadValueIsRefused | src/transport.rs:298-325 | an empty value, one that is not all digits and one past the cap are each refused as that |
| Refusals.TooManyHeadersIsRefused | src/transport.rs:335-349 | the 65th header line of a frame is refused, having been consumed |
| Refusals.LongHeaderIsRefused | src/transport.rs:253-272 | a header past the cap is refused after `max_len + 1` of its bytes |
| Refusals.BadHeaderAbandons | src/transport.rs:253-272 | a header that is not UTF-8 abandons the frame and loses framing, so nothing placed behind it is read |
| Refusals.FailingHeaderAbandons | src/transport.rs:263-272 | a failure among the headers is returned as itself and loses framing |
| Refusals.ShortBody | src/transport.rs:351-375 | a body the end of the stream cuts short is a framing violation, one a failure cuts short is that failure; both lose framing and record how far they got |
| FrameRuns.BoundedCost | src/transport.rs:43-49 | past leading blank lines, one read costs at most 66 * max_len + 1 |
| FrameRuns.LineCost | src/transport.rs:214-251 | reading a line costs at most `max_len + 1`, failures counted, which bounds what is buffered |
| FrameRuns.MessagesArePaidFor | src/transport.rs:221-245 | over any run, messages never outnumber what was consumed |
| FrameRuns.MessagesAreStrings | src/transport.rs:249-293 | every message returned is valid UTF-8, and none comes from a desynchronised transport or a torn line |
| RoundTrip.ReadsBack | src/transport.rs:198-212 | messages written in one framing and followed by anything are read back exactly, and the reader stands at what follows |
| RoundTrip.FreshReadsBack | src/transport.rs:198-293 | on a stream of its own, a fresh transport reads the messages back and then a clean close |
| RoundTrip.ReadsBackExactly | src/transport.rs:198-377 | in a decided framing, a list survives the wire if and only if each message fits |
| FreshRoundTrip.FreshReadsBackExactly | src/transport.rs:198-293 | through a fresh transport, a list survives if and only if each message fits and the first announces its framing |
| RoundTrip.WireFormat | src/transport.rs:198-212 | the bytes written: the header with the length in decimal without leading zeros, a blank line and the message; or the message and a newline |
| RoundTrip.HeaderIsRecognised | src/transport.rs:81-86 | the header the transport prints is the header it recognises, with its own value |
| Text.Utf8DropAsciiSuffix | src/transport.rs:56-58 | cutting a line ending off a string leaves a string |
| Unicode.Utf8Exactly | src/transport.rs:249-250 | the bytes accepted as a string are exactly the encodings of sequences of Unicode scalar values |
| Unicode.TrimDrops | src/transport.rs:81-86 | trimming drops the White_Space characters at both ends and nothing else |
| Unicode.LineEndDrops | src/transport.rs:56-58 | trimming a line ending drops the trailing CR and LF characters and nothing else |
| Unicode.BlankExactly | src/transport.rs:283-285 | a line is blank if and only if all its characters are White_Space |
| Text.TrimUtf8 | src/transport.rs:81-86 | trimming on bytes cuts between characters: a string stays a string and has no white space at either end |
| Session.Session.Route | src/server.rs:173-265 | the dispatcher's answer and its whole new state, including the shared service's history |
| Session.Session.HandleInitialize | src/server.rs:267-311 | the whole initialize result, and the handshake flag set |
| Session.Session.HandleToolsCall | src/server.rs:313-400 | outcome, notifications and service history of a tool call |
| SessionRuns.AnswersItsOwn | src/server.rs:439-455 | a message is answered if and only if it is a non-object, or has an id and is not the initialized acknowledgement; the response has exactly one of result and error and echoes the id |
| SessionRuns.AnswersInOrder | src/server.rs:173-265 | over any conversation the wire carries exactly the answers due, in request order |
| SessionRuns.HandshakeGates | src/server.rs:229-256 | over any conversation the initialized flag is "some message opened the session and none closed it since", and the service is called exactly for tool calls made while that holds, with or without an id, and for shutdowns |
| SessionRuns.ToolsListGated | src/server.rs:236-242 | tools/list yields a result if and only if the handshake is done |
| SessionRuns.NotificationsConserved | src/server.rs:353-360 | over any conversation, the number of list_changed messages on the wire is the number of calls that reported a change, answered or not |
| OnTheWire.VersionGate | src/server.rs:205-259 | any version string but "2.0" is refused with -32600 and does nothing; an object without one, or with "2.0", that names a method is never refused as invalid and its method takes its effect on flag and service |
| OnTheWire.NonObjectOnTheWire | src/server.rs:181-198 | a batch or a scalar gets a null-id -32600 with its own text and does nothing |
| OnTheWire.RefusalsOnTheWire | src/server.rs:236-258 | missing and unknown methods, listing or calling before the handshake, and a call without a tool name: literal code and text, nothing done, no answer without an id |
| OnTheWire.ErrorCodes | src/server.rs:181-260 | for each of the five codes, exactly which messages due an answer are refused with it |
| OnTheWire.PingOnTheWire | src/server.rs:235 | ping is answered with an empty object and does nothing |
| OnTheWire.ShutdownOnTheWire | src/server.rs:246-250 | shutdown is answered with null, reaches the service and ends the handshake |
| OnTheWire.AcknowledgementOnTheWire | src/server.rs:231-234 | the acknowledgement, in both spellings, completes the handshake and is never answered, even with an id |
| OnTheWire.InitializeOnTheWire | src/server.rs:267-311 | an initialize request is answered with the requested version if it is supported and else the last configured one, and with serverInfo, capabilities and instructions key by key for that version; the session is then initialized |
| OnTheWire.AgreementIsStable | src/server.rs:425-437 | asking again for the version agreed on agrees on it again, and the later members appear exactly from the date 2025-11-25 on |
| OnTheWire.CallOnTheWire | src/server.rs:313-395 | a tool call, with or without an id, asks the service once with the name and arguments of the message; both tool-level failures are isError results with their text, only an internal fault is a protocol error; a changed list is announced after the answer |
| OnTheWire.ReplyReports | src/service.rs:199-208 | content blocks in order, the error flag, structured content present if and only if set |
| OnTheWire.ListOnTheWire | src/server.rs:402-411 | tools/list names every tool in order, schemas verbatim, annotations if and only if set, and does nothing |
| OnTheWire.ExchangeInContext | src/runner.rs:109-122 | in a conversation, what a message sends stands between what the messages before and after it send |
| OnTheWire.AnnouncementFollowsAnswer | src/runner.rs:113-122 | an answered call that changed the tools puts its response on the wire immediately before the announcement |
| SessionRuns.ErrorKindInvisible | src/server.rs:363-381 | services that differ only in Tool versus InvalidParams produce identical conversations |
| Versions.Negotiation | src/server.rs:425-437 | the answer is supported, is the request if that is supported, else the newest, and is a fixpoint; with no versions it is the literal fallback |
| Versions.RevisionOrder | src/server.rs:284-288 | on YYYY-MM-DD strings, string order is date order |
| Versions.MetadataByDate | src/server.rs:278-297 | optional serverInfo members appear if and only if set and the negotiated date is 2025-11-25 or later |
| Versions.InitializeAnswer | src/server.rs:267-311 | the initialize result, key by key |
| Independence.HandshakeIsPrivate | src/server.rs:78-84 | under every interleaving and any service, a session's handshake state is that of serving its own messages alone |
| Independence.SessionsAreIndependent | src/runner.rs:171-189 | over a stateless service, under every interleaving, each connection is sent exactly what it would be sent alone |
| Connections.Accept | src/runner.rs:172-178 | a connection gets its own fresh session over the shared core and disturbs no other |
| Connections.ServeOne | src/runner.rs:171-189 | serving one message touches one session object and the core, as the system step says |
| Connections.ServeArrivals | src/runner.rs:171-189 | serving arrivals on separate session objects over one core is the interleaving function, with nothing else shared |
| Runner.Pump | src/runner.rs:66-124 | for every input, chunking and failure, pump terminates and its output bytes, result and all states it leaves are a function of the tape |
| Runner.Respond | src/runner.rs:95-122 | one message is answered as the specification says, response first, then its notifications |
| Runner.Finish | src/runner.rs:74-92 | a clean close is success; any other stop is returned, preceded by an error frame only for a framing violation |
| Composition.SplitsAgree | src/transport.rs:219-245 | every split of a byte string into non-empty chunks is the same tape |
| Composition.CleanExit | src/runner.rs:71-93 | a fresh connection ends without error after serving given messages if and only if its input is a stream of whole units holding exactly those messages and then the end (a header block the end cuts off counts as the end), whatever failures the source has |
| Composition.ConnectionIds | src/runner.rs:71-123 | a whole connection sends exactly the answers due, in order: none for a blank message, a null-id error for bad JSON, and one final null-id error only for a framing violation |
| ConnectionRuns.MessageOnTheWire | src/runner.rs:96-112 | white space is ignored; other text that is not JSON gets one null-id -32700 "parse error" and does nothing; JSON is served |
| ConnectionRuns.MessageInContext | src/runner.rs:71-123 | on a connection, what a message sends stands between what the messages before and after it send |
| ConnectionRuns.ConnectionNotifies | src/runner.rs:113-122 | over a whole connection, however it ends, the list_changed messages sent are as many as the calls that reported a change |
| ConnectionRuns.AnnouncementOnTheConnection | src/runner.rs:113-122 | among the answers of a connection, an answered call that changed the tools has its response immediately before the announcement |
| ConnectionRuns.ConnectionEnds | src/runner.rs:71-93 | the first error a transport reads ends the connection: a clean close is success, any other error is returned as it is, and a framing violation, only that, is first told to the peer as a null-id -32700 "framing error" after all answers |
| Composition.ClientServer | src/runner.rs:66-124 | requests written in either framing, served from any chunking, and read back by a fresh transport give exactly the dispatch of the requests, in order, and both ends close cleanly |

## Left out

- JSON text: parsing and printing are parameters of the pump (`PumpSpec.Codec`); the end-to-end theorem assumes that printing gives one line of UTF-8 starting with a brace and that parsing undoes it.
- Transport error texts: a transport error keeps its kind and a structured reason; rendering and the truncation in `for_error` are not modelled.
- Write failures and flushing: the sink accepts every write, so the `?` on writes in `pump` is never taken.
- A source that resumes after end of stream, or that yields an empty chunk before it: the modelled source is at its end for good once it reports it.
- A cap equal to `usize::MAX`: there the code's `max_len + 1` overflows.
- A service that is nondeterministic, or that changes its mind without being called: a service is a function of the calls made to it.
- Interleaving inside one message: connections interleave message by message, while a real tool call can suspend; a suspended session cannot be observed by another except through the service.
- Websocket, stdio and unix-socket plumbing, authentication, the command line, telemetry, trace context and signal handling: they wire libraries together or do not change what is read or answered.
- Config builders and tool-definition setters: each is settled by reading one line.
