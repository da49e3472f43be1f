/**
 What serving one connection computes, as a function of the tape: split it into messages,
 answer each, and encode all the answers in one framing.
 */
module PumpSpec {
  import opened Wrappers
  import opened Text
  import opened Reader
  import opened Json
  import opened Service
  import opened FrameSpec
  import Protocol
  import SessionRuns

  /** JSON text and error texts, which are not part of this model. */
  datatype Codec = Codec(
    parse: bytes -> Option<Json>,
    render: Json -> bytes,
    parseComplaint: bytes -> string,
    framingComplaint: Reason -> string
  )

  /** The messages up to the first error, that error, and where the transport then stands. */
  datatype Drained = Drained(messages: seq<bytes>, stop: Error, mode: Mode, rest: Tape)

  function Drain(maxLen: nat, mode: Mode, t: Tape): Drained
    decreases Size(t)
  {
    ReadMessageShrinks(maxLen, mode, t);
    var r := ReadMessage(maxLen, mode, t);
    match r.result
    case Err(e) => Drained([], e, r.mode, r.rest)
    case Ok(m) =>
      var more := Drain(maxLen, r.mode, r.rest);
      more.(messages := [m] + more.messages)
  }

  /** What one message is answered with: nothing if blank, a null-id error if it is not JSON, else its dispatch. */
  function Answer(codec: Codec, config: Config, service: Service, s: Protocol.State, raw: bytes): (seq<Json>, Protocol.State) {
    if Blank(raw) then ([], s)
    else
      match codec.parse(raw)
      case None => ([Protocol.ErrorResponse(None, Protocol.PARSE_ERROR, "parse error: " + codec.parseComplaint(raw))], s)
      case Some(message) =>
        var (d, next) := Protocol.Route(config, service, s, message);
        (SessionRuns.Sent(d), next)
  }

  function Converse(codec: Codec, config: Config, service: Service, s: Protocol.State, messages: seq<bytes>): (seq<Json>, Protocol.State)
    decreases |messages|
  {
    if messages == [] then ([], s)
    else
      var (first, next) := Answer(codec, config, service, s, messages[0]);
      var (more, end) := Converse(codec, config, service, next, messages[1..]);
      (first + more, end)
  }

  /** The frame that tells the peer why its connection ends, for a framing violation only. */
  function Farewell(codec: Codec, stop: Error): seq<Json> {
    match stop
    case InvalidMessage(reason) =>
      [Protocol.ErrorResponse(None, Protocol.PARSE_ERROR, "framing error: " + codec.framingComplaint(reason))]
    case _ => []
  }

  function Printed(codec: Codec, values: seq<Json>): (r: seq<bytes>)
    ensures |r| == |values|
  {
    if values == [] then [] else [codec.render(values[0])] + Printed(codec, values[1..])
  }

  function PumpResult(stop: Error): Result<(), Error> {
    if stop == ConnectionClosed then Ok(()) else Err(stop)
  }

  /** A whole connection: the values sent, how it ends, and every state it leaves behind. */
  datatype Connection = Connection(sent: seq<Json>, result: Result<(), Error>, mode: Mode, rest: Tape, session: Protocol.State)

  function Connect(codec: Codec, config: Config, service: Service, maxLen: nat, mode: Mode, t: Tape, s: Protocol.State): Connection {
    var drained := Drain(maxLen, mode, t);
    var (answers, end) := Converse(codec, config, service, s, drained.messages);
    Connection(answers + Farewell(codec, drained.stop), PumpResult(drained.stop), drained.mode, drained.rest, end)
  }

  // ----- How the function unfolds along a run -----

  lemma DrainStep(maxLen: nat, mode: Mode, t: Tape)
    ensures var r := ReadMessage(maxLen, mode, t);
            Drain(maxLen, mode, t) ==
              match r.result
              case Err(e) => Drained([], e, r.mode, r.rest)
              case Ok(m) => var more := Drain(maxLen, r.mode, r.rest); more.(messages := [m] + more.messages)
  {
    hide ReadMessage;
  }

  lemma {:induction false} EncodeConcat(framing: Framing, a: seq<bytes>, b: seq<bytes>)
    ensures Encode(framing, a + b) == Encode(framing, a) + Encode(framing, b)
    decreases |a|
  {
    hide EncodeOne;
    if a == [] {
      assert a + b == b;
    } else {
      assert (a + b)[1..] == a[1..] + b;
      EncodeConcat(framing, a[1..], b);
      assert EncodeOne(framing, a[0]) + (Encode(framing, a[1..]) + Encode(framing, b))
          == EncodeOne(framing, a[0]) + Encode(framing, a[1..]) + Encode(framing, b);
    }
  }

  lemma {:induction false} PrintedConcat(codec: Codec, a: seq<Json>, b: seq<Json>)
    ensures Printed(codec, a + b) == Printed(codec, a) + Printed(codec, b)
    decreases |a|
  {
    if a == [] {
      assert a + b == b;
    } else {
      assert (a + b)[1..] == a[1..] + b;
      PrintedConcat(codec, a[1..], b);
    }
  }

  lemma {:induction false} ConverseSnoc(codec: Codec, config: Config, service: Service, s: Protocol.State, messages: seq<bytes>, last: bytes)
    ensures var (sent, mid) := Converse(codec, config, service, s, messages);
            var (more, end) := Answer(codec, config, service, mid, last);
            Converse(codec, config, service, s, messages + [last]) == (sent + more, end)
    decreases |messages|
  {
    hide Answer;
    var all := messages + [last];
    if messages == [] {
      var (more, end) := Answer(codec, config, service, s, last);
      assert all[1..] == [] && all[0] == last;
      assert Converse(codec, config, service, end, []) == ([], end);
      assert more + [] == more && [] + more == more;
    } else {
      assert all[1..] == messages[1..] + [last];
      var (first, next) := Answer(codec, config, service, s, messages[0]);
      ConverseSnoc(codec, config, service, next, messages[1..], last);
      var (sent, mid) := Converse(codec, config, service, next, messages[1..]);
      var (more, end) := Answer(codec, config, service, mid, last);
      assert first + (sent + more) == (first + sent) + more;
    }
  }
}
