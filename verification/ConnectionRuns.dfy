/**
 Whole connections, in the words of a peer: what each message makes the server send, what
 stands where in the stream of answers, and how the connection ends.
 */
module ConnectionRuns {
  import opened Wrappers
  import opened Text
  import opened Unicode
  import opened Reader
  import opened Json
  import opened Service
  import opened FrameSpec
  import opened FrameRuns
  import opened RoundTrip
  import opened PumpSpec
  import opened Messages
  import opened SessionRuns
  import opened OnTheWire
  import Composition
  import P = Protocol

  // ----- One message -----

  lemma ConverseOne(codec: Codec, config: Config, service: Service, s: P.State, raw: bytes)
    ensures Converse(codec, config, service, s, [raw]) == Answer(codec, config, service, s, raw)
  {
    hide Answer;
    var one: seq<bytes> := [raw];
    var (sent, next) := Answer(codec, config, service, s, raw);
    assert one[0] == raw && one[1..] == [];
    assert Converse(codec, config, service, next, []) == ([], next);
    assert sent + [] == sent;
  }

  /**
   One message of a connection: white space is ignored; anything else that is not JSON is refused
   with a null id and does nothing; JSON is served.
   */
  lemma MessageOnTheWire(codec: Codec, config: Config, service: Service, s: P.State, message: text)
    ensures var raw := EncodeText(message);
            Converse(codec, config, service, s, [raw]) ==
              if AllWhite(message) then ([], s)
              else match codec.parse(raw)
                case None => ([ErrorMessage(Null, -32700, "parse error: " + codec.parseComplaint(raw))], s)
                case Some(value) => Exchange(config, service, s, value)
  {
    hide Converse, Exchange, EncodeText, AllWhite, Blank, P.Route, Sent;
    var raw := EncodeText(message);
    ConverseOne(codec, config, service, s, raw);
    BlankExactly(message);
    if !AllWhite(message) && codec.parse(raw).Some? {
      ExchangeIs(config, service, s, codec.parse(raw).value);
    }
  }

  lemma {:induction false} ConverseConcat(codec: Codec, config: Config, service: Service, s: P.State, a: seq<bytes>, b: seq<bytes>)
    ensures var (first, mid) := Converse(codec, config, service, s, a);
            var (second, end) := Converse(codec, config, service, mid, b);
            Converse(codec, config, service, s, a + b) == (first + second, end)
    decreases |a|
  {
    hide Answer;
    if a == [] {
      assert a + b == b;
      assert [] + Converse(codec, config, service, s, b).0 == Converse(codec, config, service, s, b).0;
    } else {
      assert (a + b)[1..] == a[1..] + b;
      var (sent, next) := Answer(codec, config, service, s, a[0]);
      ConverseConcat(codec, config, service, next, a[1..], b);
      var (first, mid) := Converse(codec, config, service, next, a[1..]);
      var second := Converse(codec, config, service, mid, b).0;
      assert sent + (first + second) == (sent + first) + second;
    }
  }

  /** What a message of a connection sends stands between what the messages before and after it send. */
  lemma MessageInContext(codec: Codec, config: Config, service: Service, s: P.State, before: seq<bytes>, raw: bytes, after: seq<bytes>)
    ensures var (first, mid) := Converse(codec, config, service, s, before);
            var (sent, next) := Converse(codec, config, service, mid, [raw]);
            var (last, end) := Converse(codec, config, service, next, after);
            Converse(codec, config, service, s, before + [raw] + after) == (first + sent + last, end)
  {
    hide Converse;
    var mid := Converse(codec, config, service, s, before).1;
    ConverseConcat(codec, config, service, s, before + [raw], after);
    ConverseConcat(codec, config, service, s, before, [raw]);
  }

  // ----- Notifications -----

  lemma AnswerNotifies(codec: Codec, config: Config, service: Service, s: P.State, raw: bytes)
    ensures var (sent, next) := Answer(codec, config, service, s, raw);
            ListChangedCount(sent) + FlaggedCalls(service, s.history) == FlaggedCalls(service, next.history)
  {
    hide P.Route, Blank, FlaggedCalls, Sent, P.ErrorResponse, ErrorMessage;
    if !Blank(raw) {
      match codec.parse(raw)
      case None =>
        var text := "parse error: " + codec.parseComplaint(raw);
        ErrorIsResponse(None, P.PARSE_ERROR, text);
        NoNotification(P.ErrorResponse(None, P.PARSE_ERROR, text), Null);
      case Some(message) =>
        SentNotifies(config, service, s, message);
    }
  }

  lemma NoNotification(r: Json, id: Json)
    requires IsResponse(r, id)
    ensures ListChangedCount([r]) == 0
  {
    ResponseIsNoNotification(r, id);
    var one := [r];
    assert one[1..] == [] && ListChangedCount(one[1..]) == 0;
  }

  lemma {:induction false} ConverseNotifies(codec: Codec, config: Config, service: Service, s: P.State, messages: seq<bytes>)
    ensures var (sent, end) := Converse(codec, config, service, s, messages);
            ListChangedCount(sent) + FlaggedCalls(service, s.history) == FlaggedCalls(service, end.history)
    decreases |messages|
  {
    hide Answer, FlaggedCalls;
    if messages != [] {
      var (first, next) := Answer(codec, config, service, s, messages[0]);
      AnswerNotifies(codec, config, service, s, messages[0]);
      ConverseNotifies(codec, config, service, next, messages[1..]);
      ListChangedConcat(first, Converse(codec, config, service, next, messages[1..]).0);
    }
  }

  /** Over a whole connection, one list_changed message is sent per call that reported a change, however it ends. */
  lemma ConnectionNotifies(codec: Codec, config: Config, service: Service, maxLen: nat, mode: Mode, t: Tape, s: P.State)
    ensures var c := Connect(codec, config, service, maxLen, mode, t, s);
            ListChangedCount(c.sent) + FlaggedCalls(service, s.history) == FlaggedCalls(service, c.session.history)
  {
    hide Drain, Converse, FlaggedCalls, Farewell;
    var d := Drain(maxLen, mode, t);
    var (sent, end) := Converse(codec, config, service, s, d.messages);
    ConverseNotifies(codec, config, service, s, d.messages);
    ListChangedConcat(sent, Farewell(codec, d.stop));
    FarewellIsLiteral(codec, d.stop);
    if d.stop.InvalidMessage? {
      var text := "framing error: " + codec.framingComplaint(d.stop.reason);
      ErrorIsResponse(None, P.PARSE_ERROR, text);
      NoNotification(ErrorMessage(Null, -32700, text), Null);
    }
  }

  lemma FarewellIsLiteral(codec: Codec, stop: Error)
    ensures Farewell(codec, stop) ==
              match stop
              case InvalidMessage(reason) => [ErrorMessage(Null, -32700, "framing error: " + codec.framingComplaint(reason))]
              case _ => []
  {}

  /** On the connection too, an answered call that changed the tools puts its answer immediately before the announcement. */
  lemma AnnouncementOnTheConnection(codec: Codec, config: Config, service: Service, s: P.State,
                                    before: seq<bytes>, raw: text, after: seq<bytes>, message: Json)
    requires !AllWhite(raw) && codec.parse(EncodeText(raw)) == Some(message)
    requires CallsTool(message) && IsRequest(message)
    requires var mid := Converse(codec, config, service, s, before).1;
             && mid.initialized
             && var called := service.callTool(mid.history, ToolName(message), ToolArguments(message));
             called.Ok? && called.value.toolsListChanged
    ensures exists result, later ::
              Converse(codec, config, service, s, before + [EncodeText(raw)] + after).0 ==
                Converse(codec, config, service, s, before).0 + [ResultMessage(Id(message), result), ListChangedMessage()] + later
  {
    hide Converse, Exchange, EncodeText, AllWhite, Reports, ResultMessage, ListChangedMessage;
    var mid := Converse(codec, config, service, s, before).1;
    MessageInContext(codec, config, service, s, before, EncodeText(raw), after);
    MessageOnTheWire(codec, config, service, mid, raw);
    CallOnTheWire(config, service, mid, message);
    var reply := service.callTool(mid.history, ToolName(message), ToolArguments(message)).value;
    var sent := Exchange(config, service, mid, message).0;
    var result :| Reports(result, reply.content, reply.isError, reply.structured)
               && sent == IfRequest(message, ResultMessage(Id(message), result)) + [ListChangedMessage()];
    assert sent == [ResultMessage(Id(message), result), ListChangedMessage()];
    var next := Converse(codec, config, service, mid, [EncodeText(raw)]).1;
    var later := Converse(codec, config, service, next, after).0;
    assert Converse(codec, config, service, s, before + [EncodeText(raw)] + after).0
        == Converse(codec, config, service, s, before).0 + [ResultMessage(Id(message), result), ListChangedMessage()] + later;
  }

  // ----- How a connection ends -----

  /**
   If a transport reads some messages and then an error, then the connection answers the messages
   and ends with that error: a clean close is success, anything else is returned as it is, and
   a framing violation, and only that, is first told to the peer.
   */
  lemma ConnectionEnds(codec: Codec, config: Config, service: Service, maxLen: nat, mode: Mode, t: Tape, s: P.State,
                       messages: seq<bytes>, stop: Error)
    requires Reads(maxLen, mode, t, |messages| + 1).outcomes == AllOk(messages) + [Err(stop)]
    ensures var c := Connect(codec, config, service, maxLen, mode, t, s);
            var end := Reads(maxLen, mode, t, |messages| + 1);
            var (answers, session) := Converse(codec, config, service, s, messages);
            && c.result == (if stop == ConnectionClosed then Ok(()) else Err(stop))
            && c.mode == end.mode && c.rest == end.rest && c.session == session
            && c.sent == answers +
                 (match stop
                  case InvalidMessage(reason) =>
                    [ErrorMessage(Null, -32700, "framing error: " + codec.framingComplaint(reason))]
                  case _ => [])
  {
    hide Reads, Drain, Converse, Farewell, AllOk;
    Composition.ReadsIsDrain(maxLen, mode, t, messages, stop, Reads(maxLen, mode, t, |messages| + 1));
    FarewellIsLiteral(codec, stop);
  }

  /** Every connection does end so: some messages, then an error, and the first error is final. */
  lemma ConnectionReads(maxLen: nat, mode: Mode, t: Tape)
    ensures exists messages, stop :: Reads(maxLen, mode, t, |messages| + 1).outcomes == AllOk(messages) + [Err(stop)]
  {
    hide Reads, Drain, AllOk;
    var d := Drain(maxLen, mode, t);
    Composition.DrainIsReads(maxLen, mode, t);
    assert Reads(maxLen, mode, t, |d.messages| + 1).outcomes == AllOk(d.messages) + [Err(d.stop)];
  }
}
