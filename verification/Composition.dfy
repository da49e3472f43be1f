/**
 The layers together: bytes in, bytes out.

 What a connection does depends on the bytes it is sent and not on how they are chunked; it
 ends cleanly exactly when those bytes are whole frames; it answers in order; and a client
 that writes requests with the same transport reads back the pure dispatch of its requests.
 */
module Composition {
  import opened Wrappers
  import opened Text
  import opened Decimal
  import opened Reader
  import opened Json
  import opened Service
  import opened FrameSpec
  import opened FrameGrammar
  import opened FrameRuns
  import opened RoundTrip
  import opened PumpSpec
  import opened Runner
  import opened Messages
  import opened SessionRuns
  import Protocol

  // ----- Chunks -----

  function Joined(chunks: seq<Chunk>): bytes {
    if chunks == [] then [] else chunks[0] + Joined(chunks[1..])
  }

  function Delivered(chunks: seq<Chunk>): seq<Step> {
    if chunks == [] then [] else [Data(chunks[0])] + Delivered(chunks[1..])
  }

  /** However a byte string is split into chunks, the tape is that byte string. */
  lemma {:induction false} SplitsAgree(chunks: seq<Chunk>)
    ensures Flatten(Delivered(chunks)) == Tape(Joined(chunks), Eof)
  {
    if chunks != [] {
      SplitsAgree(chunks[1..]);
      assert Delivered(chunks)[1..] == Delivered(chunks[1..]);
    }
  }

  // ----- Draining is reading until the first error -----

  lemma {:induction false} DrainIsReads(maxLen: nat, mode: Mode, t: Tape)
    ensures var d := Drain(maxLen, mode, t);
            Reads(maxLen, mode, t, |d.messages| + 1) == Run(AllOk(d.messages) + [Err(d.stop)], d.mode, d.rest)
    decreases Size(t)
  {
    hide ReadMessage;
    ReadMessageShrinks(maxLen, mode, t);
    var r := ReadMessage(maxLen, mode, t);
    match r.result
    case Err(e) =>
      assert Reads(maxLen, r.mode, r.rest, 0) == Run([], r.mode, r.rest);
      assert [r.result] + [] == [] + [Err(e)];
    case Ok(m) =>
      DrainIsReads(maxLen, r.mode, r.rest);
      var more := Drain(maxLen, r.mode, r.rest).messages;
      assert ([m] + more)[1..] == more;
      assert [r.result] + (AllOk(more) + [Err(Drain(maxLen, r.mode, r.rest).stop)])
          == AllOk([m] + more) + [Err(Drain(maxLen, r.mode, r.rest).stop)];
  }

  lemma {:induction false} ReadsIsDrain(maxLen: nat, mode: Mode, t: Tape, messages: seq<bytes>, stop: Error, end: Run)
    requires end == Reads(maxLen, mode, t, |messages| + 1)
    requires end.outcomes == AllOk(messages) + [Err(stop)]
    ensures Drain(maxLen, mode, t) == Drained(messages, stop, end.mode, end.rest)
    decreases |messages|
  {
    hide ReadMessage;
    var r := ReadMessage(maxLen, mode, t);
    var more := Reads(maxLen, r.mode, r.rest, |messages|);
    assert end.outcomes[0] == r.result && end.outcomes[1..] == more.outcomes;
    if messages == [] {
      assert Reads(maxLen, r.mode, r.rest, 0) == Run([], r.mode, r.rest);
    } else {
      assert end.outcomes[1..] == AllOk(messages[1..]) + [Err(stop)];
      ReadsIsDrain(maxLen, r.mode, r.rest, messages[1..], stop, more);
      assert [messages[0]] + messages[1..] == messages;
    }
  }

  // ----- A connection ends cleanly exactly on whole frames -----

  lemma {:induction false} ClosedInSync(maxLen: nat, mode: Mode, t: Tape)
    requires ReadMessage(maxLen, mode, t).result == Err(ConnectionClosed)
    ensures ReadMessage(maxLen, mode, t).mode.desync == None
    decreases Size(t)
  {
    hide Utf8, TrimCrlf, ContentLengthValue, ReadLine;
    LineClosed(maxLen, t);
    ReadLineShrinks(maxLen, t);
    if mode.framing == Auto && StartsBlank(maxLen, Auto, t) {
      ClosedInSync(maxLen, mode, ReadLine(maxLen, t).rest);
    } else {
      var line := ReadLine(maxLen, t);
      HeadersClosed(maxLen, 1, line.rest);
    }
  }

  lemma LineClosed(maxLen: nat, t: Tape)
    ensures ReadLine(maxLen, t).result == Err(ConnectionClosed) ==> ReadLine(maxLen, t).lost == None
  {}

  lemma {:induction false} HeadersClosed(maxLen: nat, lines: nat, t: Tape)
    ensures var h := ReadHeaders(maxLen, lines, t);
            h.HeadersFailed? && h.error == ConnectionClosed ==> h.lost == None
    decreases Size(t)
  {
    hide Utf8, TrimCrlf, ReadLine;
    LineClosed(maxLen, t);
    ReadLineShrinks(maxLen, t);
    var line := ReadFrameLine(maxLen, t);
    if line.result.Ok? {
      HeadersClosed(maxLen, lines + 1, line.rest);
    }
  }

  /** The stream is `units`, which hold `messages` and then the end. */
  ghost predicate IsStreamOf(maxLen: nat, t: Tape, units: seq<Unit>, messages: seq<bytes>, rest: Tape) {
    && |units| == |messages| + 1
    && StreamOk(maxLen, Auto, units, rest) && t == StreamThen(units, rest)
    && Outcomes(units) == AllOk(messages) + [Err(ConnectionClosed)]
  }

  /**
   Serving a fresh connection ends without an error exactly when its input, up to where it ends,
   is a stream of whole decodable units; and then the messages it served are theirs. No failure
   of the source, wherever it strikes, is ever taken for a clean end.
   */
  lemma CleanExit(codec: Codec, config: Config, service: Service, maxLen: nat, t: Tape, s: Protocol.State, messages: seq<bytes>)
    requires maxLen <= USIZE_MAX
    ensures (&& Connect(codec, config, service, maxLen, Mode(Auto, None), t, s).result == Ok(())
             && Drain(maxLen, Mode(Auto, None), t).messages == messages)
       <==> (exists units, rest :: IsStreamOf(maxLen, t, units, messages, rest))
  {
    hide Reads, Drain, StreamOk, StreamThen, Outcomes, AllOk, Converse, Farewell, NeverTorn;
    var mode := Mode(Auto, None);
    var d := Drain(maxLen, mode, t);
    var n := |messages| + 1;
    if d.stop == ConnectionClosed && d.messages == messages {
      DrainIsReads(maxLen, mode, t);
      DrainClosedInSync(maxLen, mode, t);
      DrainClosedUntorn(maxLen, mode, t);
      var units := RunSound(maxLen, Auto, t, n);
      assert IsStreamOf(maxLen, t, units, messages, d.rest);
    }
    forall units, rest | IsStreamOf(maxLen, t, units, messages, rest)
      ensures d.stop == ConnectionClosed && d.messages == messages
    {
      RunComplete(maxLen, Auto, units, rest);
      ReadsIsDrain(maxLen, mode, t, messages, ConnectionClosed, Reads(maxLen, mode, t, n));
    }
  }

  lemma {:induction false} DrainClosedInSync(maxLen: nat, mode: Mode, t: Tape)
    requires Drain(maxLen, mode, t).stop == ConnectionClosed
    ensures Drain(maxLen, mode, t).mode.desync == None
    decreases Size(t)
  {
    hide ReadMessage;
    ReadMessageShrinks(maxLen, mode, t);
    var r := ReadMessage(maxLen, mode, t);
    if r.result.Ok? {
      DrainClosedInSync(maxLen, r.mode, r.rest);
    } else {
      ClosedInSync(maxLen, mode, t);
    }
  }

  lemma {:induction false} DrainClosedUntorn(maxLen: nat, mode: Mode, t: Tape)
    requires Drain(maxLen, mode, t).stop == ConnectionClosed
    ensures NeverTorn(maxLen, mode, t, |Drain(maxLen, mode, t).messages| + 1)
    decreases Size(t)
  {
    hide ReadMessage, TornLine;
    ReadMessageShrinks(maxLen, mode, t);
    var r := ReadMessage(maxLen, mode, t);
    if mode.desync == None && TornLine(maxLen, mode.framing, t) {
      TornIsReported(maxLen, mode.framing, t);
    }
    if r.result.Ok? {
      DrainClosedUntorn(maxLen, r.mode, r.rest);
    }
  }

  // ----- Answers in order, down to the wire -----

  /** The ids due for a list of raw messages: none for a blank one, null for one that is not JSON. */
  function DueRawIds(codec: Codec, messages: seq<bytes>): seq<Json> {
    if messages == [] then []
    else
      var raw := messages[0];
      (if Blank(raw) then []
       else match codec.parse(raw)
         case None => [Null]
         case Some(m) => if Answerable(m) then [Id(m)] else [])
      + DueRawIds(codec, messages[1..])
  }

  lemma AnswerIds(codec: Codec, config: Config, service: Service, s: Protocol.State, raw: bytes)
    ensures WireIds(Answer(codec, config, service, s, raw).0) == DueRawIds(codec, [raw])
  {
    hide Protocol.Route, Answerable, Blank, IsResponse;
    var single: seq<bytes> := [raw];
    assert single[1..] == [];
    if !Blank(raw) && codec.parse(raw).Some? {
      var m := codec.parse(raw).value;
      AnswersItsOwn(config, service, s, m);
      var d := Protocol.Route(config, service, s, m).0;
      SentIds(d, Answerable(m), Id(m));
    }
  }

  lemma SentIds(d: Protocol.Dispatch, answered: bool, id: Json)
    requires d.response.Some? <==> answered
    requires answered ==> IsResponse(d.response.value, id)
    requires forall i :: 0 <= i < |d.notifications| ==> d.notifications[i] == ListChangedMessage()
    ensures WireIds(Sent(d)) == if answered then [id] else []
  {
    NotificationsHaveNoIds(d.notifications);
    if answered {
      ResponseIsNoNotification(d.response.value, id);
    }
    WireIdsConcat(if d.response.Some? then [d.response.value] else [], d.notifications);
  }

  lemma {:induction false} ConverseIds(codec: Codec, config: Config, service: Service, s: Protocol.State, messages: seq<bytes>)
    ensures WireIds(Converse(codec, config, service, s, messages).0) == DueRawIds(codec, messages)
    decreases |messages|
  {
    hide Answer, Blank, Answerable;
    if messages != [] {
      var (first, next) := Answer(codec, config, service, s, messages[0]);
      AnswerIds(codec, config, service, s, messages[0]);
      var single: seq<bytes> := [messages[0]];
      assert single[1..] == [] && DueRawIds(codec, []) == [];
      ConverseIds(codec, config, service, next, messages[1..]);
      WireIdsConcat(first, Converse(codec, config, service, next, messages[1..]).0);
    }
  }

  /** A whole connection answers what is due, in order, and adds one null-id error only for a framing violation. */
  lemma ConnectionIds(codec: Codec, config: Config, service: Service, maxLen: nat, mode: Mode, t: Tape, s: Protocol.State)
    ensures WireIds(Connect(codec, config, service, maxLen, mode, t, s).sent)
         == DueRawIds(codec, Drain(maxLen, mode, t).messages)
          + (if Drain(maxLen, mode, t).stop.InvalidMessage? then [Null] else [])
  {
    hide Drain, Converse, DueRawIds;
    var d := Drain(maxLen, mode, t);
    ConverseIds(codec, config, service, s, d.messages);
    WireIdsConcat(Converse(codec, config, service, s, d.messages).0, Farewell(codec, d.stop));
    FarewellIds(codec, d.stop);
  }

  lemma FarewellIds(codec: Codec, stop: Error)
    ensures WireIds(Farewell(codec, stop)) == if stop.InvalidMessage? then [Null] else []
  {}

  // ----- Client to server and back -----

  const BRACE: byte := 0x7B

  /** What this model asks of JSON text: printing gives one line of UTF-8 that starts with a brace, and parsing undoes it. */
  ghost predicate Portable(codec: Codec, value: Json) {
    var text := codec.render(value);
    && codec.parse(text) == Some(value)
    && Utf8(text) && LF !in text
    && text != [] && text[0] == BRACE && text[|text| - 1] != CR
  }

  /** Whether a text of that length passes a given cap. */
  predicate Short(maxLen: nat, framing: Framing, text: bytes) {
    if framing == ContentLength then |text| <= maxLen && 18 + |Print(|text|)| <= maxLen else |text| + 1 <= maxLen
  }

  ghost predicate Travels(codec: Codec, maxLen: nat, framing: Framing, values: seq<Json>) {
    forall i :: 0 <= i < |values| ==> Portable(codec, values[i]) && Short(maxLen, framing, codec.render(values[i]))
  }

  lemma {:induction false} TrimEndKeepsFirst(s: bytes)
    requires s != [] && Visible(s[0])
    ensures TrimEnd(s) != [] && TrimEnd(s)[0] == s[0]
    decreases |s|
  {
    if SpaceBefore(s) > 0 {
      TrimEndKeepsFirst(s[..|s| - SpaceBefore(s)]);
    }
  }

  lemma TrimKeepsFirst(s: bytes)
    requires s != [] && Visible(s[0])
    ensures Trim(s) != [] && Trim(s)[0] == s[0]
  {
    TrimEndKeepsFirst(s);
  }

  /** Text that starts with a brace is never blank and never mistaken for a header. */
  lemma BraceAnnounces(framing: Framing, text: bytes)
    requires text != [] && text[0] == BRACE
    ensures !Blank(text) && ContentLengthValue(text) == None && Announces(framing, text)
  {
    TrimKeepsFirst(text);
    TrimCrlfShape(text);
    var line := TrimCrlf(text);
    assert line != [] && line[0] == BRACE;
    TrimKeepsFirst(line);
    var inner := Trim(line);
    FindShape(inner, COLON);
    match Find(inner, COLON)
    case None =>
    case Some(i) => TrimKeepsFirst(inner[..i]);
  }

  lemma {:induction false} TravelsFits(codec: Codec, maxLen: nat, framing: Framing, values: seq<Json>)
    requires Travels(codec, maxLen, framing, values)
    ensures AllFit(maxLen, framing, Printed(codec, values))
    ensures values != [] ==> Announces(framing, Printed(codec, values)[0])
  {
    hide Utf8, Announces, ContentLengthValue, Trim;
    var texts := Printed(codec, values);
    if values == [] {
      assert texts == [];
    } else {
      var text := codec.render(values[0]);
      assert Portable(codec, values[0]);
      assert Travels(codec, maxLen, framing, values[1..]) by {
        forall i | 0 <= i < |values[1..]|
          ensures Portable(codec, values[1..][i]) && Short(maxLen, framing, codec.render(values[1..][i]))
        {
          assert values[1..][i] == values[i + 1];
        }
      }
      BraceAnnounces(framing, text);
      TravelsFits(codec, maxLen, framing, values[1..]);
      assert Fits(maxLen, framing, text);
      AllFitCons(maxLen, framing, text, Printed(codec, values[1..]));
    }
  }

  /** On texts that travel, answering the texts is dispatching the values. */
  lemma {:induction false} ConverseIsServe(codec: Codec, config: Config, service: Service, maxLen: nat, framing: Framing,
                                           s: Protocol.State, requests: seq<Json>)
    requires Travels(codec, maxLen, framing, requests)
    ensures var (dispatches, end) := Serve(config, service, s, requests);
            Converse(codec, config, service, s, Printed(codec, requests)) == (Wire(dispatches), end)
    decreases |requests|
  {
    hide Protocol.Route, Blank;
    if requests != [] {
      var text := codec.render(requests[0]);
      assert Portable(codec, requests[0]);
      BraceAnnounces(framing, text);
      var (d, next) := Protocol.Route(config, service, s, requests[0]);
      assert Answer(codec, config, service, s, text) == (Sent(d), next);
      assert Travels(codec, maxLen, framing, requests[1..]) by {
        forall i | 0 <= i < |requests[1..]|
          ensures Portable(codec, requests[1..][i]) && Short(maxLen, framing, codec.render(requests[1..][i]))
        {
          assert requests[1..][i] == requests[i + 1];
        }
      }
      ConverseIsServe(codec, config, service, maxLen, framing, next, requests[1..]);
      assert Printed(codec, requests)[1..] == Printed(codec, requests[1..]);
      var more := Serve(config, service, next, requests[1..]).0;
      assert ([d] + more)[1..] == more;
    }
  }

  /** What a fresh transport drains from values written in one framing. */
  lemma DrainReadsBack(codec: Codec, maxLen: nat, framing: Framing, values: seq<Json>)
    requires maxLen <= USIZE_MAX && framing != Auto && Travels(codec, maxLen, framing, values)
    ensures Drain(maxLen, Mode(Auto, None), Tape(WireBytes(codec, framing, values), Eof))
         == Drained(Printed(codec, values), ConnectionClosed, Mode(if values == [] then Auto else framing, None), END)
  {
    hide Reads, Drain, Encode, AllFit, Announces, AllOk, Travels, Printed;
    var texts := Printed(codec, values);
    TravelsFits(codec, maxLen, framing, values);
    FreshReadsBack(maxLen, framing, texts);
    var t := Tape(WireBytes(codec, framing, values), Eof);
    ReadsIsDrain(maxLen, Mode(Auto, None), t, texts, ConnectionClosed, Reads(maxLen, Mode(Auto, None), t, |texts| + 1));
  }

  function Parsed(codec: Codec, texts: seq<bytes>): seq<Option<Json>> {
    if texts == [] then [] else [codec.parse(texts[0])] + Parsed(codec, texts[1..])
  }

  function Somes(values: seq<Json>): seq<Option<Json>> {
    if values == [] then [] else [Some(values[0])] + Somes(values[1..])
  }

  lemma {:induction false} ParsedPrinted(codec: Codec, maxLen: nat, framing: Framing, values: seq<Json>)
    requires Travels(codec, maxLen, framing, values)
    ensures Parsed(codec, Printed(codec, values)) == Somes(values)
  {
    if values != [] {
      assert Portable(codec, values[0]);
      assert Travels(codec, maxLen, framing, values[1..]) by {
        forall i | 0 <= i < |values[1..]|
          ensures Portable(codec, values[1..][i]) && Short(maxLen, framing, codec.render(values[1..][i]))
        {
          assert values[1..][i] == values[i + 1];
        }
      }
      ParsedPrinted(codec, maxLen, framing, values[1..]);
      assert Printed(codec, values)[1..] == Printed(codec, values[1..]);
    }
  }

  /**
   End to end: requests written in either framing, served from any chunking of those bytes, and
   the answers read back by a fresh transport, give exactly the dispatch of the requests, in
   order; the server ends cleanly and so does the client.
   */
  lemma ClientServer(codec: Codec, config: Config, service: Service, framing: Framing, serverMax: nat, clientMax: nat,
                     s: Protocol.State, requests: seq<Json>, chunks: seq<Chunk>)
    requires framing != Auto && serverMax <= USIZE_MAX && clientMax <= USIZE_MAX
    requires Joined(chunks) == WireBytes(codec, framing, requests)
    requires Travels(codec, serverMax, framing, requests)
    requires Travels(codec, clientMax, framing, Wire(Serve(config, service, s, requests).0))
    ensures var (dispatches, end) := Serve(config, service, s, requests);
            var c := Connect(codec, config, service, serverMax, Mode(Auto, None), Flatten(Delivered(chunks)), s);
            var answered := Drain(clientMax, Mode(Auto, None), Tape(WireBytes(codec, c.mode.framing, c.sent), Eof));
            && c.result == Ok(()) && c.session == end && c.rest == END
            && answered.stop == ConnectionClosed
            && Parsed(codec, answered.messages) == Somes(Wire(dispatches))
  {
    hide Drain, Converse, Serve, Travels, Encode, Wire, Parsed, Somes;
    var (dispatches, end) := Serve(config, service, s, requests);
    var wire := Wire(dispatches);
    SplitsAgree(chunks);
    DrainReadsBack(codec, serverMax, framing, requests);
    ConverseIsServe(codec, config, service, serverMax, framing, s, requests);
    assert wire + [] == wire;
    if requests == [] {
      NothingServed(config, service, s);
      NothingSent(codec, Auto);
      NothingSent(codec, framing);
    }
    DrainReadsBack(codec, clientMax, framing, wire);
    ParsedPrinted(codec, clientMax, framing, wire);
  }

  lemma NothingServed(config: Config, service: Service, s: Protocol.State)
    ensures Wire(Serve(config, service, s, []).0) == []
  {}
}
