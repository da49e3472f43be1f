/** `pump`: one transport, one session, until the stream ends or cannot go on. */
module Runner {
  import opened Wrappers
  import opened Text
  import opened Reader
  import opened Json
  import opened FrameSpec
  import opened FrameRuns
  import opened PumpSpec
  import Protocol
  import SessionRuns
  import Transport
  import Session
  import Service

  /** The bytes a list of values makes on the wire. */
  function WireBytes(codec: Codec, framing: Framing, values: seq<Json>): bytes {
    Encode(framing, Printed(codec, values))
  }

  lemma WireBytesConcat(codec: Codec, framing: Framing, a: seq<Json>, b: seq<Json>)
    ensures WireBytes(codec, framing, a + b) == WireBytes(codec, framing, a) + WireBytes(codec, framing, b)
  {
    hide Encode, Printed;
    PrintedConcat(codec, a, b);
    EncodeConcat(framing, Printed(codec, a), Printed(codec, b));
  }

  lemma WireBytesOne(codec: Codec, framing: Framing, value: Json)
    ensures WireBytes(codec, framing, [value]) == EncodeOne(framing, codec.render(value))
  {
    hide EncodeOne;
    var text := codec.render(value);
    assert Printed(codec, [value]) == [text] + Printed(codec, []);
    assert Encode(framing, [text]) == EncodeOne(framing, text) + Encode(framing, []);
  }

  lemma Assoc(a: bytes, b: bytes, c: bytes)
    ensures a + b + c == a + (b + c)
  {}

  /** Write one value as a frame. */
  method Send(codec: Codec, transport: Transport.FramedTransport, value: Json)
    modifies transport.writer
    ensures transport.writer.written == old(transport.writer.written) + WireBytes(codec, transport.framing, [value])
  {
    WireBytesOne(codec, transport.framing, value);
    transport.WriteMessage(codec.render(value));
  }

  /** The end of the stream, reported by an error frame when it is a framing violation. */
  method Finish(codec: Codec, transport: Transport.FramedTransport, stop: Error) returns (result: Result<(), Error>)
    modifies transport.writer
    ensures result == PumpResult(stop)
    ensures transport.writer.written
         == old(transport.writer.written) + WireBytes(codec, transport.framing, Farewell(codec, stop))
  {
    match stop
    case ConnectionClosed =>
      result := Ok(());
    case InvalidMessage(reason) =>
      var text := "framing error: " + codec.framingComplaint(reason);
      Send(codec, transport, Protocol.ErrorResponse(None, Protocol.PARSE_ERROR, text));
      result := Err(stop);
    case Io(_) =>
      result := Err(stop);
  }

  /** Answer one message: a response first, then the notifications the call gave rise to. */
  method Respond(codec: Codec, transport: Transport.FramedTransport, session: Session.Session, raw: bytes)
    modifies transport.writer, session, session.core
    ensures var (sent, next) := Answer(codec, session.core.config, session.core.service, old(session.State()), raw);
            && session.State() == next
            && transport.writer.written == old(transport.writer.written) + WireBytes(codec, transport.framing, sent)
  {
    hide Protocol.Route, Encode, Printed, Blank, WireBytes;
    NothingSent(codec, transport.framing);
    ghost var written := transport.writer.written;
    if Blank(raw) {
      return;
    }
    var parsed := codec.parse(raw);
    if parsed.None? {
      Send(codec, transport,
           Protocol.ErrorResponse(None, Protocol.PARSE_ERROR, "parse error: " + codec.parseComplaint(raw)));
      return;
    }
    var d := session.Route(parsed.value);
    ghost var sent: seq<Json> := [];
    if d.response.Some? {
      Send(codec, transport, d.response.value);
      sent := [d.response.value];
    }
    ghost var answered, next := sent, session.State();
    for i := 0 to |d.notifications|
      invariant session.State() == next
      invariant sent == answered + d.notifications[..i]
      invariant transport.writer.written == written + WireBytes(codec, transport.framing, sent)
    {
      var note := d.notifications[i];
      WireBytesConcat(codec, transport.framing, sent, [note]);
      Assoc(written, WireBytes(codec, transport.framing, sent), WireBytes(codec, transport.framing, [note]));
      Send(codec, transport, note);
      sent := sent + [note];
    }
    assert sent == SessionRuns.Sent(d);
  }

  /** Drive one transport with one session to its end: for every input and every chunking, what `Connect` says. */
  method Pump(codec: Codec, transport: Transport.FramedTransport, session: Session.Session) returns (result: Result<(), Error>)
    modifies transport, transport.reader, transport.writer, session, session.core
    ensures var c := Connect(codec, session.core.config, session.core.service, transport.maxLen,
                             old(transport.State()), old(transport.reader.Remaining()), old(session.State()));
            && result == c.result
            && transport.State() == c.mode && transport.reader.Remaining() == c.rest && session.State() == c.session
            && transport.writer.written == old(transport.writer.written) + WireBytes(codec, c.mode.framing, c.sent)
  {
    hide FrameSpec.ReadMessage, Answer, Encode, Printed, Blank, Farewell, WireBytes, Drain, Converse, Size;
    assert Converse(codec, session.core.config, session.core.service, session.State(), []) == ([], session.State()) by {
      ConverseNothing(codec, session.core.config, session.core.service, session.State());
    }
    ghost var whole := Drain(transport.maxLen, transport.State(), transport.reader.Remaining());
    ghost var s0 := session.State();
    ghost var done: seq<bytes>, sent: seq<Json> := [], [];
    ghost var written := transport.writer.written;
    NothingSent(codec, transport.framing);
    while true
      invariant var left := Drain(transport.maxLen, transport.State(), transport.reader.Remaining());
                whole == left.(messages := done + left.messages)
      invariant Converse(codec, session.core.config, session.core.service, s0, done) == (sent, session.State())
      invariant transport.writer.written == written + WireBytes(codec, transport.framing, sent)
      invariant done == [] || transport.framing != Auto
      decreases Size(transport.reader.Remaining())
    {
      ReadMessageShrinks(transport.maxLen, transport.State(), transport.reader.Remaining());
      ReadKeepsFraming(transport.maxLen, transport.State(), transport.reader.Remaining());
      ghost var before := transport.State();
      DrainStep(transport.maxLen, transport.State(), transport.reader.Remaining());
      var read := transport.ReadMessage();
      if done == [] {
        NothingSent(codec, before.framing);
        NothingSent(codec, transport.framing);
      }
      if read.Err? {
        assert whole == Drained(done, read.error, transport.State(), transport.reader.Remaining());
        ghost var farewell := Farewell(codec, read.error);
        WireBytesConcat(codec, transport.framing, sent, farewell);
        Assoc(written, WireBytes(codec, transport.framing, sent), WireBytes(codec, transport.framing, farewell));
        result := Finish(codec, transport, read.error);
        return;
      }
      ConverseSnoc(codec, session.core.config, session.core.service, s0, done, read.value);
      ghost var (more, _) := Answer(codec, session.core.config, session.core.service, session.State(), read.value);
      WireBytesConcat(codec, transport.framing, sent, more);
      Assoc(written, WireBytes(codec, transport.framing, sent), WireBytes(codec, transport.framing, more));
      Respond(codec, transport, session, read.value);
      done, sent := done + [read.value], sent + more;
    }
  }

  lemma NothingSent(codec: Codec, framing: Framing)
    ensures WireBytes(codec, framing, []) == []
  {}

  lemma ConverseNothing(codec: Codec, config: Service.Config, service: Service.Service, s: Protocol.State)
    ensures Converse(codec, config, service, s, []) == ([], s)
  {}
}
