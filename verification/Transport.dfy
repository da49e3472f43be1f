/**
 `FramedTransport`: the incremental frame reader and writer.

 Every method is specified by the function of the same name in `FrameSpec`, applied to the
 tape the reader still holds. The tape does not record where chunks begin and end, so these
 contracts say that chunking is unobservable.
 */
module Transport {
  import opened Wrappers
  import opened Text
  import opened Decimal
  import opened Reader
  import opened FrameSpec

  /** A size cap. `max_len + 1` has to fit in a `usize`, so the largest `usize` is not a cap. */
  type Cap = n: nat | n < USIZE_MAX witness 0

  function SaturatingSub(a: nat, b: nat): nat {
    if a > b then a - b else 0
  }

  /** Moving `n` bytes of the front chunk into the buffer loses and reorders nothing. */
  lemma ShiftBytes(buf: bytes, chunk: bytes, rest: Tape, n: nat)
    requires chunk <= rest.run && n <= |chunk|
    ensures Then(buf, rest) == Then(buf + chunk[..n], Drop(rest, n))
  {
    assert rest.run == chunk[..n] + rest.run[n..];
    assert buf + (chunk[..n] + rest.run[n..]) == buf + chunk[..n] + rest.run[n..];
  }

  /** How much of the first `take` bytes belongs to the current line, and whether a newline ends it there. */
  function LinePart(chunk: bytes, take: nat): (r: (nat, bool))
    requires 0 < take <= |chunk|
    ensures 0 < r.0 <= take && LF !in chunk[..r.0 - 1]
    ensures r.1 <==> chunk[r.0 - 1] == LF
    ensures !r.1 ==> r.0 == take
  {
    FindShape(chunk[..take], LF);
    match Find(chunk[..take], LF)
    case Some(i) =>
      assert chunk[..i] == chunk[..take][..i];
      (i + 1, true)
    case None =>
      assert forall i :: 0 <= i < take ==> chunk[i] == chunk[..take][i];
      (take, false)
  }

  /** Part of a line is buffered: no newline yet, within the cap, nothing lost. */
  ghost predicate MidLine(maxLen: nat, t: Tape, buf: bytes, rest: Tape) {
    |buf| <= maxLen && LF !in buf && t == Then(buf, rest)
  }

  /** One chunk takes a line to its end, past the cap, or further into the middle. */
  lemma ChunkStep(maxLen: nat, t: Tape, buf: bytes, chunk: bytes, rest: Tape, take: nat)
    requires MidLine(maxLen, t, buf, rest)
    requires chunk <= rest.run && 0 < take <= |chunk| && take <= maxLen - |buf| + 1
    requires take < |chunk| ==> take == maxLen - |buf| + 1
    ensures var (used, ended) := LinePart(chunk, take);
            var buf', rest' := buf + chunk[..used], Drop(rest, used);
            if |buf'| > maxLen then
              ReadLine(maxLen, t) == LineRead(Err(InvalidMessage(LineTooLong(|buf'|))), Some(LineTooLong(|buf'|)), rest')
            else if ended then
              ReadLine(maxLen, t) == LineRead(Decoded(buf'), None, rest')
            else
              MidLine(maxLen, t, buf', rest')
  {
    var (used, ended) := LinePart(chunk, take);
    var buf', rest' := buf + chunk[..used], Drop(rest, used);
    ShiftBytes(buf, chunk, rest, used);
    assert buf'[..|buf'| - 1] == buf + chunk[..used - 1];
    assert buf' == buf'[..|buf'| - 1] + [chunk[used - 1]];
    OneLineIs(buf');
    if |buf'| > maxLen {
      LineOverflows(maxLen, buf', rest');
    } else if ended {
      LineEnds(maxLen, buf', rest');
    }
  }

  /** A failure ends the read and the part of the line it had. */
  lemma StreamFails(maxLen: nat, t: Tape, buf: bytes, kind: IoKind, after: Tape)
    requires MidLine(maxLen, t, buf, Tape([], Fault(kind, after)))
    ensures ReadLine(maxLen, t) == LineRead(Err(Io(kind)), None, after)
  {
    assert buf + [] == buf;
    OneLineIs(buf);
    assert buf != [] ==> buf[|buf| - 1] in buf;
    LineFails(maxLen, buf, kind, after);
  }

  /** The end of the stream ends a line, unless there is none. */
  lemma StreamEnds(maxLen: nat, t: Tape, buf: bytes)
    requires MidLine(maxLen, t, buf, END)
    ensures ReadLine(maxLen, t) == LineRead(if buf == [] then Err(ConnectionClosed) else Decoded(buf), None, END)
  {
    if buf != [] {
      assert buf[..|buf| - 1] + [buf[|buf| - 1]] == buf;
      OneLineIs(buf);
      LineEnds(maxLen, buf, END);
    }
  }

  class FramedTransport {
    const reader: ScriptedReader
    const writer: ByteWriter
    const maxLen: Cap
    var framing: Framing
    /** Why framing was lost, once it has been. Never cleared. */
    var desync: Option<Reason>

    constructor (reader: ScriptedReader, writer: ByteWriter, maxLen: Cap)
      ensures this.reader == reader && this.writer == writer && this.maxLen == maxLen
      ensures State() == Mode(Auto, None)
    {
      this.reader, this.writer, this.maxLen := reader, writer, maxLen;
      framing, desync := Auto, None;
    }

    ghost function State(): Mode
      reads this
    {
      Mode(framing, desync)
    }

    method DesyncError(reason: Reason) returns (e: Error)
      modifies this`desync
      ensures desync == if old(desync) == None then Some(reason) else old(desync)
      ensures desync.Some? && e == InvalidMessage(desync.value)
    {
      desync := Some(FirstReason(desync, reason));
      e := InvalidMessage(desync.value);
    }

    method Poison(reason: Reason)
      modifies this`desync
      ensures desync == if old(desync) == None then Some(reason) else old(desync)
    {
      desync := Some(FirstReason(desync, reason));
    }

    /** The refusal of a line of `len` bytes, if it is past the cap. */
    method CheckLen(len: nat) returns (refusal: Option<Error>)
      modifies this`desync
      ensures len <= maxLen ==> refusal == None && desync == old(desync)
      ensures len > maxLen ==>
                && desync == (if old(desync) == None then Some(LineTooLong(len)) else old(desync))
                && refusal == Some(InvalidMessage(desync.value))
    {
      refusal := None;
      if len > maxLen {
        var e := DesyncError(LineTooLong(len));
        refusal := Some(e);
      }
    }

    /**
     Read one line, newline included, enforcing the cap while reading. Every byte that is
     buffered is consumed, so the last clause also bounds the buffer.
     */
    method ReadLine() returns (r: Result<bytes, Error>)
      requires desync.None?
      modifies this`desync, reader
      ensures LineRead(r, desync, reader.Remaining()) == FrameSpec.ReadLine(maxLen, old(reader.Remaining()))
    {
      ghost var t0 := reader.Remaining();
      var buf: bytes := [];
      while true
        invariant desync.None? && MidLine(maxLen, t0, buf, reader.Remaining())
        decreases Size(reader.Remaining())
      {
        var filled := reader.FillBuf();
        if filled.Err? {
          StreamFails(maxLen, t0, buf, filled.error, reader.Remaining());
          return Err(Io(filled.error));
        }
        var available := filled.value;
        if available == [] {
          StreamEnds(maxLen, t0, buf);
          if buf == [] {
            return Err(ConnectionClosed);
          }
          break;
        }
        var budget := SaturatingSub(maxLen, |buf|) + 1;
        assert budget <= USIZE_MAX;
        var take := if |available| < budget then |available| else budget;
        var (used, ended) := LinePart(available, take);
        ChunkStep(maxLen, t0, buf, available, reader.Remaining(), take);
        buf := buf + available[..used];
        assert |buf| <= maxLen + 1;
        reader.Consume(used);
        if ended {
          break;
        }
        var refusal := CheckLen(|buf|);
        if refusal.Some? {
          return Err(refusal.value);
        }
      }
      var refusal := CheckLen(|buf|);
      if refusal.Some? {
        return Err(refusal.value);
      }
      r := Decoded(buf);
    }

    method ReadFrameLine() returns (r: Result<bytes, Error>)
      requires desync.None?
      modifies this`desync, reader
      ensures LineRead(r, desync, reader.Remaining()) == FrameSpec.ReadFrameLine(maxLen, old(reader.Remaining()))
    {
      r := ReadLine();
      if r.Err? && r.error != ConnectionClosed {
        Poison(Abandoned(r.error));
      }
    }

    method ReadNewline() returns (r: Result<bytes, Error>)
      requires State() == Mode(Newline, None)
      modifies this`desync, reader
      ensures Read(r, State(), reader.Remaining()) == FrameSpec.ReadNewline(maxLen, old(reader.Remaining()))
    {
      r := ReadLine();
      if r.Ok? {
        r := Ok(TrimCrlf(r.value));
      }
    }

    method ReadAuto() returns (r: Result<bytes, Error>)
      requires State() == Mode(Auto, None)
      modifies this, reader
      ensures Read(r, State(), reader.Remaining()) == FrameSpec.ReadAuto(maxLen, old(reader.Remaining()))
    {
      while true
        invariant State() == Mode(Auto, None)
        invariant FrameSpec.ReadAuto(maxLen, reader.Remaining()) == FrameSpec.ReadAuto(maxLen, old(reader.Remaining()))
        decreases Size(reader.Remaining())
      {
        ReadLineShrinks(maxLen, reader.Remaining());
        var line := ReadLine();
        if line.Err? {
          return line;
        }
        var trimmed := TrimCrlf(line.value);
        if !Blank(trimmed) {
          if ContentLengthValue(trimmed).Some? {
            framing := ContentLength;
            r := ReadContentLength(trimmed);
            return;
          }
          framing := Newline;
          return Ok(trimmed);
        }
      }
    }

    /** `take(declared).read_to_end`: the declared body, or as much of it as arrives. */
    method ReadToEnd(declared: nat) returns (buf: bytes, failure: Option<IoKind>)
      modifies reader
      ensures |buf| <= declared && (failure.Some? ==> |buf| < declared)
      ensures |buf| < declared && failure.None? ==> reader.Remaining() == END
      ensures ReadBody(declared, old(reader.Remaining())) ==
              if failure.Some? then
                var kind := failure.value;
                Read(Err(Io(kind)), Mode(ContentLength, Some(BodyFailed(|buf|, declared, kind))), reader.Remaining())
              else if |buf| < declared then
                Refused(BodyShort(|buf|, declared), reader.Remaining())
              else
                Read(Decoded(buf), Mode(ContentLength, None), reader.Remaining())
    {
      ghost var t0 := reader.Remaining();
      buf, failure := [], None;
      while |buf| < declared
        invariant |buf| <= declared
        invariant t0 == Then(buf, reader.Remaining())
        decreases Size(reader.Remaining())
      {
        var filled := reader.FillBuf();
        if filled.Err? {
          assert t0.run == buf;
          failure := Some(filled.error);
          return;
        }
        var available := filled.value;
        if available == [] {
          assert t0.run == buf;
          return;
        }
        var take := if |available| < declared - |buf| then |available| else declared - |buf|;
        ShiftBytes(buf, available, reader.Remaining(), take);
        buf := buf + available[..take];
        reader.Consume(take);
      }
      BodyArrives(buf, reader.Remaining());
    }

    /** The rest of the frame that `first` opens: its remaining headers, then its body. */
    method ReadContentLength(first: bytes) returns (r: Result<bytes, Error>)
      requires State() == Mode(ContentLength, None)
      modifies this`desync, reader
      ensures Read(r, State(), reader.Remaining()) == ReadFrame(maxLen, first, old(reader.Remaining()))
    {
      var value := ContentLengthValue(first);
      if value.None? {
        var e := DesyncError(NotAHeader(first));
        return Err(e);
      }
      var parsed := DeclaredLength(maxLen, value.value);
      if parsed.Err? {
        var e := DesyncError(parsed.error);
        return Err(e);
      }
      var declared := parsed.value;

      var lines := 1;
      while true
        invariant desync.None? && 1 <= lines <= MAX_HEADER_LINES
        invariant ReadHeaders(maxLen, lines, reader.Remaining()) == ReadHeaders(maxLen, 1, old(reader.Remaining()))
        decreases Size(reader.Remaining())
      {
        ReadLineShrinks(maxLen, reader.Remaining());
        var line := ReadFrameLine();
        if line.Err? {
          return line;
        }
        if TrimCrlf(line.value) == [] {
          break;
        }
        lines := lines + 1;
        if lines > MAX_HEADER_LINES {
          var e := DesyncError(TooManyHeaders);
          return Err(e);
        }
      }

      var buf, failure := ReadToEnd(declared);
      if failure.Some? {
        Poison(BodyFailed(|buf|, declared, failure.value));
        return Err(Io(failure.value));
      }
      if |buf| != declared {
        var e := DesyncError(BodyShort(|buf|, declared));
        return Err(e);
      }
      r := Decoded(buf);
    }

    /** Read one message: under every chunking, exactly the outcome the frame specification gives. */
    method ReadMessage() returns (r: Result<bytes, Error>)
      modifies this, reader
      ensures Read(r, State(), reader.Remaining())
           == FrameSpec.ReadMessage(maxLen, old(State()), old(reader.Remaining()))
    {
      if desync.Some? {
        return Err(InvalidMessage(Desynchronised(desync.value)));
      }
      match framing
      case Auto =>
        r := ReadAuto();
      case Newline =>
        r := ReadNewline();
      case ContentLength =>
        var first := ReadFrameLine();
        if first.Err? {
          return first;
        }
        r := ReadContentLength(first.value);
    }

    /** Write one message in the detected framing. */
    method WriteMessage(message: bytes)
      modifies writer
      ensures writer.written == old(writer.written) + EncodeOne(framing, message)
    {
      match framing
      case ContentLength =>
        writer.WriteAll(Header(|message|));
        writer.WriteAll(message);
      case _ =>
        writer.WriteAll(message);
        writer.WriteAll([LF]);
    }
  }
}
