/**
 The frame reader as a pure function of the tape.

 Each function gives the outcome of one operation of the transport: the message or error,
 the reason framing was lost (if it was), and the tape that remains. Chunks do not occur
 here; `Transport.FramedTransport` is proved to compute exactly these functions.
 */
module FrameSpec {
  import opened Wrappers
  import opened Text
  import opened Reader
  import opened Decimal

  /** Upper bound on the header lines one `Content-Length` frame may carry. */
  const MAX_HEADER_LINES: nat := 64

  datatype Framing = Auto | Newline | ContentLength

  /** Why a frame was refused or framing was lost: the content of the error text, unrendered. */
  datatype Reason =
    | LineTooLong(len: nat)
    | InvalidUtf8
    | NotAHeader(line: bytes)
    | EmptyLength
    | NotAByteCount(text: bytes)
    | LengthTooLarge(text: bytes)
    | TooManyHeaders
    | BodyShort(got: nat, declared: nat)
    | BodyFailed(got: nat, declared: nat, kind: IoKind)
    | Abandoned(cause: Error)
    | Desynchronised(first: Reason)

  datatype Error =
    | ConnectionClosed
    | InvalidMessage(reason: Reason)
    | Io(kind: IoKind)

  /** The transport's own state: the detected framing, and why framing was lost. */
  datatype Mode = Mode(framing: Framing, desync: Option<Reason>)

  /** `get_or_insert`: the first reason is kept. */
  function FirstReason(desync: Option<Reason>, reason: Reason): Reason {
    if desync.Some? then desync.value else reason
  }

  // ----- Headers -----

  const CONTENT_LENGTH: bytes := Ascii("content-length")

  /** The raw value of `line` if it is a `Content-Length` header. */
  function ContentLengthValue(line: bytes): (r: Option<bytes>) {
    var text := Trim(TrimCrlf(line));
    match Find(text, COLON)
    case None => None
    case Some(i) =>
      if EqIgnoreAsciiCase(Trim(text[..i]), CONTENT_LENGTH) then Some(Trim(text[i + 1..])) else None
  }

  /** A declared value as a length the transport is willing to read, or why it is not. */
  function DeclaredLength(maxLen: nat, value: bytes): (r: Result<nat, Reason>) {
    if value == [] then Err(EmptyLength)
    else if !AllDigits(value) then Err(NotAByteCount(value))
    else
      match ParseUsize(value)
      case Some(len) => if len > maxLen then Err(LengthTooLarge(value)) else Ok(len)
      case None => Err(LengthTooLarge(value))
  }

  /** Machine parsing refines unbounded decimal value; an overflow is always past the cap. */
  lemma DeclaredLengthExact(maxLen: nat, value: bytes)
    requires maxLen <= USIZE_MAX
    ensures forall n: nat :: DeclaredLength(maxLen, value) == Ok(n) <==>
              value != [] && AllDigits(value) && Value(value) == n && n <= maxLen
    ensures DeclaredLength(maxLen, value) == Err(LengthTooLarge(value)) <==>
              value != [] && AllDigits(value) && Value(value) > maxLen
    ensures DeclaredLength(maxLen, value) == Err(NotAByteCount(value)) <==> value != [] && !AllDigits(value)
    ensures DeclaredLength(maxLen, value) == Err(EmptyLength) <==> value == []
  {
    if AllDigits(value) {
      ParseUsizeIsValue(value);
    }
  }

  // ----- Lines -----

  /** Number of bytes in the line `run` starts with: up to and including its newline, or all there is. */
  function Extent(run: bytes): (k: nat)
    ensures k <= |run|
  {
    if run == [] then 0
    else if run[0] == LF then 1
    else 1 + Extent(run[1..])
  }

  /** No newline before the last byte. */
  predicate OneLine(line: bytes) {
    line != [] && (|line| == 1 || (line[0] != LF && OneLine(line[1..])))
  }

  lemma {:induction false} OneLineIs(line: bytes)
    ensures OneLine(line) <==> line != [] && LF !in line[..|line| - 1]
  {
    if |line| > 1 {
      OneLineIs(line[1..]);
      assert line[..|line| - 1] == [line[0]] + line[1..][..|line| - 2];
    }
  }

  lemma {:induction false} ExtentIs(line: bytes, rest: bytes)
    requires OneLine(line)
    ensures Extent(line + rest) >= |line|
    ensures line[|line| - 1] == LF || rest == [] ==> Extent(line + rest) == |line|
  {
    assert (line + rest)[1..] == line[1..] + rest;
    if |line| > 1 {
      ExtentIs(line[1..], rest);
    }
  }

  lemma {:induction false} ExtentShape(run: bytes)
    ensures var k := Extent(run);
            && (k == 0 <==> run == [])
            && (k > 0 ==> OneLine(run[..k]) && (run[k - 1] == LF || k == |run|))
  {
    if run != [] && run[0] != LF {
      ExtentShape(run[1..]);
      var k := Extent(run);
      assert run[..k][1..] == run[1..][..k - 1];
    }
  }

  datatype LineRead = LineRead(result: Result<bytes, Error>, lost: Option<Reason>, rest: Tape)

  function Decoded(line: bytes): (r: Result<bytes, Error>) {
    if Utf8(line) then Ok(line) else Err(InvalidMessage(InvalidUtf8))
  }

  /** One line, newline included, never more than `maxLen + 1` bytes. */
  function ReadLine(maxLen: nat, t: Tape): (r: LineRead)
  {
    var k := Extent(t.run);
    if k > maxLen then
      LineRead(Err(InvalidMessage(LineTooLong(maxLen + 1))), Some(LineTooLong(maxLen + 1)), Drop(t, maxLen + 1))
    else if k > 0 && t.run[k - 1] == LF then
      LineRead(Decoded(t.run[..k]), None, Drop(t, k))
    else
      match t.stop
      case Fault(kind, after) => LineRead(Err(Io(kind)), None, after)
      case Eof =>
        if k == 0 then LineRead(Err(ConnectionClosed), None, t)
        else LineRead(Decoded(t.run[..k]), None, Drop(t, k))
  }

  lemma ReadLineShrinks(maxLen: nat, t: Tape)
    ensures var r := ReadLine(maxLen, t);
            Size(r.rest) <= Size(t) && (r.result.Ok? ==> Size(r.rest) < Size(t))
  {
    ExtentShape(t.run);
  }

  /** A line within the cap that its newline or the end of the stream ends is consumed exactly. */
  lemma LineEnds(maxLen: nat, line: bytes, rest: Tape)
    requires OneLine(line) && |line| <= maxLen
    requires line[|line| - 1] == LF || rest == END
    ensures ReadLine(maxLen, Then(line, rest)) == LineRead(Decoded(line), None, rest)
  {
    var t := Then(line, rest);
    ExtentIs(line, rest.run);
    assert t.run[..|line|] == line && t.run[|line|..] == rest.run;
  }

  /** A failure before any newline takes the bytes read so far with it. */
  lemma LineFails(maxLen: nat, part: bytes, kind: IoKind, after: Tape)
    requires |part| <= maxLen && (part == [] || (OneLine(part) && part[|part| - 1] != LF))
    ensures ReadLine(maxLen, Tape(part, Fault(kind, after))) == LineRead(Err(Io(kind)), None, after)
  {
    if part != [] {
      assert part + [] == part;
      ExtentIs(part, []);
    }
  }

  /** A line past the cap costs exactly `maxLen + 1` bytes and loses framing. */
  lemma LineOverflows(maxLen: nat, part: bytes, rest: Tape)
    requires |part| == maxLen + 1 && OneLine(part)
    ensures ReadLine(maxLen, Then(part, rest))
         == LineRead(Err(InvalidMessage(LineTooLong(maxLen + 1))), Some(LineTooLong(maxLen + 1)), rest)
  {
    ExtentIs(part, rest.run);
    assert Then(part, rest).run[maxLen + 1..] == rest.run;
  }

  /** A line of a `Content-Length` frame: every failure but a clean end of stream loses framing. */
  function ReadFrameLine(maxLen: nat, t: Tape): (r: LineRead)
  {
    var r := ReadLine(maxLen, t);
    if r.result.Ok? || r.result.error == ConnectionClosed then r
    else r.(lost := Some(FirstReason(r.lost, Abandoned(r.result.error))))
  }

  // ----- Content-Length frames -----

  datatype HeaderRead = BodyAt(rest: Tape) | HeadersFailed(error: Error, lost: Option<Reason>, rest: Tape)

  /** The header lines after the first `lines`, up to the blank one. */
  function ReadHeaders(maxLen: nat, lines: nat, t: Tape): (r: HeaderRead)
    decreases Size(t)
  {
    ReadLineShrinks(maxLen, t);
    var line := ReadFrameLine(maxLen, t);
    match line.result
    case Err(e) => HeadersFailed(e, line.lost, line.rest)
    case Ok(text) =>
      if TrimCrlf(text) == [] then BodyAt(line.rest)
      else if lines + 1 > MAX_HEADER_LINES then
        HeadersFailed(InvalidMessage(TooManyHeaders), Some(TooManyHeaders), line.rest)
      else
        ReadHeaders(maxLen, lines + 1, line.rest)
  }

  /** Outcome of one read: message or error, the transport's new state, and the tape that remains. */
  datatype Read = Read(result: Result<bytes, Error>, mode: Mode, rest: Tape)

  function Refused(reason: Reason, rest: Tape): Read {
    Read(Err(InvalidMessage(reason)), Mode(ContentLength, Some(reason)), rest)
  }

  /** A body of exactly `declared` bytes. */
  function ReadBody(declared: nat, t: Tape): (r: Read)
  {
    var n := |t.run|;
    if n >= declared then
      Read(Decoded(t.run[..declared]), Mode(ContentLength, None), Drop(t, declared))
    else
      match t.stop
      case Eof => Refused(BodyShort(n, declared), END)
      case Fault(kind, after) => Read(Err(Io(kind)), Mode(ContentLength, Some(BodyFailed(n, declared, kind))), after)
  }

  lemma BodyArrives(body: bytes, rest: Tape)
    ensures ReadBody(|body|, Then(body, rest)) == Read(Decoded(body), Mode(ContentLength, None), rest)
  {
    var t := Then(body, rest);
    assert t.run[..|body|] == body && t.run[|body|..] == rest.run;
  }

  /** The rest of a frame whose opening line was `first`. */
  function ReadFrame(maxLen: nat, first: bytes, t: Tape): (r: Read)
  {
    match ContentLengthValue(first)
    case None => Refused(NotAHeader(first), t)
    case Some(value) =>
      match DeclaredLength(maxLen, value)
      case Err(reason) => Refused(reason, t)
      case Ok(declared) =>
        match ReadHeaders(maxLen, 1, t)
        case HeadersFailed(e, lost, rest) => Read(Err(e), Mode(ContentLength, lost), rest)
        case BodyAt(rest) => ReadBody(declared, rest)
  }

  // ----- Messages -----

  function ReadAuto(maxLen: nat, t: Tape): (r: Read)
    decreases Size(t)
  {
    ReadLineShrinks(maxLen, t);
    var line := ReadLine(maxLen, t);
    match line.result
    case Err(e) => Read(Err(e), Mode(Auto, line.lost), line.rest)
    case Ok(text) =>
      var trimmed := TrimCrlf(text);
      if Blank(trimmed) then
        ReadAuto(maxLen, line.rest)
      else if ContentLengthValue(trimmed).Some? then
        ReadFrame(maxLen, trimmed, line.rest)
      else
        Read(Ok(trimmed), Mode(Newline, None), line.rest)
  }

  function ReadNewline(maxLen: nat, t: Tape): (r: Read)
  {
    var line := ReadLine(maxLen, t);
    match line.result
    case Err(e) => Read(Err(e), Mode(Newline, line.lost), line.rest)
    case Ok(text) => Read(Ok(TrimCrlf(text)), Mode(Newline, None), line.rest)
  }

  function ReadContentLength(maxLen: nat, t: Tape): (r: Read)
  {
    var line := ReadFrameLine(maxLen, t);
    match line.result
    case Err(e) => Read(Err(e), Mode(ContentLength, line.lost), line.rest)
    case Ok(first) =>
      ReadFrame(maxLen, first, line.rest)
  }

  /** One message. Every read after framing is lost fails and consumes nothing. */
  function ReadMessage(maxLen: nat, mode: Mode, t: Tape): (r: Read)
  {
    if mode.desync.Some? then Read(Err(InvalidMessage(Desynchronised(mode.desync.value))), mode, t)
    else
      match mode.framing
      case Auto => ReadAuto(maxLen, t)
      case Newline => ReadNewline(maxLen, t)
      case ContentLength => ReadContentLength(maxLen, t)
  }

  // ----- Progress -----

  lemma {:induction false} ReadHeadersShrinks(maxLen: nat, lines: nat, t: Tape)
    ensures var r := ReadHeaders(maxLen, lines, t);
            Size(r.rest) <= Size(t) && (r.BodyAt? ==> Size(r.rest) < Size(t))
    decreases Size(t)
  {
    hide Utf8, TrimCrlf, ReadLine, ContentLengthValue;
    ReadLineShrinks(maxLen, t);
    var line := ReadFrameLine(maxLen, t);
    if line.result.Ok? && TrimCrlf(line.result.value) != [] && lines < MAX_HEADER_LINES {
      ReadHeadersShrinks(maxLen, lines + 1, line.rest);
    }
  }

  lemma ReadFrameShrinks(maxLen: nat, first: bytes, t: Tape)
    ensures Size(ReadFrame(maxLen, first, t).rest) <= Size(t)
  {
    hide Utf8, TrimCrlf, ReadLine, ContentLengthValue;
    ReadHeadersShrinks(maxLen, 1, t);
  }

  lemma {:induction false} ReadAutoShrinks(maxLen: nat, t: Tape)
    ensures var r := ReadAuto(maxLen, t);
            Size(r.rest) <= Size(t) && (r.result.Ok? ==> Size(r.rest) < Size(t))
    decreases Size(t)
  {
    hide Utf8, TrimCrlf, ReadLine, ContentLengthValue;
    ReadLineShrinks(maxLen, t);
    var line := ReadLine(maxLen, t);
    if line.result.Ok? {
      var trimmed := TrimCrlf(line.result.value);
      if Blank(trimmed) {
        ReadAutoShrinks(maxLen, line.rest);
      } else if ContentLengthValue(trimmed).Some? {
        ReadFrameShrinks(maxLen, trimmed, line.rest);
      }
    }
  }

  /** No read moves backwards, and every message costs at least one byte. */
  lemma ReadMessageShrinks(maxLen: nat, mode: Mode, t: Tape)
    ensures var r := ReadMessage(maxLen, mode, t);
            Size(r.rest) <= Size(t) && (r.result.Ok? ==> Size(r.rest) < Size(t))
  {
    hide Utf8, TrimCrlf, ReadLine, ContentLengthValue;
    ReadLineShrinks(maxLen, t);
    ReadAutoShrinks(maxLen, t);
    var line := ReadFrameLine(maxLen, t);
    if line.result.Ok? {
      ReadFrameShrinks(maxLen, line.result.value, line.rest);
    }
  }

  // ----- Writing -----

  function Header(len: nat): bytes {
    Ascii("Content-Length: ") + Print(len) + Ascii("\r\n\r\n")
  }

  /** Bytes of one message in a given framing. */
  function EncodeOne(framing: Framing, message: bytes): bytes {
    if framing == ContentLength then Header(|message|) + message else message + [LF]
  }

  function Encode(framing: Framing, messages: seq<bytes>): bytes {
    if messages == [] then []
    else EncodeOne(framing, messages[0]) + Encode(framing, messages[1..])
  }
}
