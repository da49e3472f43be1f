/**
 Failures of the source: each is reported once, as itself, by the read that meets it.

 Stated on the tape: what a read did with the failures ahead of it is what its result says.
 */
module Failures {
  import opened Wrappers
  import opened Text
  import opened Reader
  import opened Decimal
  import opened FrameSpec
  import opened FrameRuns
  import FrameGrammar
  import opened PumpSpec
  import opened Service
  import Protocol

  /** The failures still ahead, in order. */
  function Ahead(t: Tape): seq<IoKind> {
    match t.stop
    case Eof => []
    case Fault(kind, after) => [kind] + Ahead(after)
  }

  /** The failures a run of outcomes reports, in order. */
  function Reported(outcomes: seq<Result<bytes, Error>>): seq<IoKind> {
    if outcomes == [] then []
    else (match outcomes[0] case Err(Io(kind)) => [kind] case _ => []) + Reported(outcomes[1..])
  }

  /** The next failure was met and is `e`, and the rest is what follows it; or none was met and `e` is no failure. */
  predicate Accounts(t: Tape, e: Option<Error>, rest: Tape) {
    if e.Some? && e.value.Io? then t.stop == Fault(e.value.kind, rest) else rest.stop == t.stop
  }

  function ErrorOf<T>(r: Result<T, Error>): Option<Error> {
    if r.Err? then Some(r.error) else None
  }

  lemma LineAccounts(maxLen: nat, t: Tape)
    ensures var r := ReadLine(maxLen, t); Accounts(t, ErrorOf(r.result), r.rest)
  {
    hide Utf8;
  }

  lemma {:induction false} HeadersAccount(maxLen: nat, lines: nat, t: Tape)
    ensures match ReadHeaders(maxLen, lines, t)
            case HeadersFailed(e, _, rest) => Accounts(t, Some(e), rest)
            case BodyAt(rest) => Accounts(t, None, rest)
    decreases Size(t)
  {
    hide Utf8, TrimCrlf, ReadLine;
    LineAccounts(maxLen, t);
    ReadLineShrinks(maxLen, t);
    var line := ReadFrameLine(maxLen, t);
    if line.result.Ok? {
      HeadersAccount(maxLen, lines + 1, line.rest);
    }
  }

  lemma FrameAccounts(maxLen: nat, first: bytes, t: Tape)
    ensures var r := ReadFrame(maxLen, first, t); Accounts(t, ErrorOf(r.result), r.rest)
  {
    hide Utf8, TrimCrlf, ContentLengthValue;
    HeadersAccount(maxLen, 1, t);
  }

  lemma {:induction false} ReadAccounts(maxLen: nat, mode: Mode, t: Tape)
    ensures var r := ReadMessage(maxLen, mode, t); Accounts(t, ErrorOf(r.result), r.rest)
    decreases Size(t)
  {
    hide Utf8, TrimCrlf, ContentLengthValue, ReadLine, ReadFrame;
    LineAccounts(maxLen, t);
    ReadLineShrinks(maxLen, t);
    var line := ReadLine(maxLen, t);
    if line.result.Ok? {
      FrameAccounts(maxLen, line.result.value, line.rest);
      FrameAccounts(maxLen, TrimCrlf(line.result.value), line.rest);
      if mode.desync == None && FrameGrammar.StartsBlank(maxLen, mode.framing, t) {
        ReadAccounts(maxLen, mode, line.rest);
      }
    }
  }

  /**
   A read consumes a failure of the source if and only if it returns that very failure, and then
   it stands right behind it; it never consumes two, and never reports one as anything else.
   */
  lemma FailureIsReportedAsItself(maxLen: nat, mode: Mode, t: Tape)
    ensures var r := ReadMessage(maxLen, mode, t);
            && (|Ahead(r.rest)| != |Ahead(t)| <==> r.result.Err? && r.result.error.Io?)
            && (r.result.Err? && r.result.error.Io? ==> t.stop == Fault(r.result.error.kind, r.rest))
            && Ahead(t) == Reported([r.result]) + Ahead(r.rest)
  {
    hide ReadMessage;
    ReadAccounts(maxLen, mode, t);
    var r := ReadMessage(maxLen, mode, t);
    var one := [r.result];
    assert one[1..] == [] && Reported(one[1..]) == [];
  }

  /** A failure loses framing exactly in `Content-Length` framing, detected or just chosen. */
  lemma {:induction false} FailurePoisons(maxLen: nat, framing: Framing, t: Tape)
    requires var r := ReadMessage(maxLen, Mode(framing, None), t); r.result.Err? && r.result.error.Io?
    ensures var r := ReadMessage(maxLen, Mode(framing, None), t);
            r.mode.desync.Some? <==> r.mode.framing == ContentLength
    decreases Size(t)
  {
    hide Utf8, TrimCrlf, ContentLengthValue, ReadLine;
    LineLossIsExplained(maxLen, t);
    ReadLineShrinks(maxLen, t);
    var line := ReadLine(maxLen, t);
    HeadersPoison(maxLen, 1, line.rest);
    if FrameGrammar.StartsBlank(maxLen, framing, t) {
      FailurePoisons(maxLen, framing, line.rest);
    }
  }

  lemma {:induction false} HeadersPoison(maxLen: nat, lines: nat, t: Tape)
    ensures var h := ReadHeaders(maxLen, lines, t);
            h.HeadersFailed? && h.error.Io? ==> h.lost.Some?
    decreases Size(t)
  {
    hide Utf8, TrimCrlf, ReadLine;
    ReadLineShrinks(maxLen, t);
    var line := ReadFrameLine(maxLen, t);
    if line.result.Ok? {
      HeadersPoison(maxLen, lines + 1, line.rest);
    }
  }

  /** Over any run, the failures reported are the failures passed, each once and in order. */
  lemma {:induction false} RunReportsFailures(maxLen: nat, mode: Mode, t: Tape, n: nat)
    ensures var r := Reads(maxLen, mode, t, n); Ahead(t) == Reported(r.outcomes) + Ahead(r.rest)
    decreases n
  {
    hide ReadMessage, Ahead;
    var all := Reads(maxLen, mode, t, n).outcomes;
    if n == 0 {
      assert [] + Ahead(t) == Ahead(t);
    } else {
      var r := ReadMessage(maxLen, mode, t);
      FailureIsReportedAsItself(maxLen, mode, t);
      RunReportsFailures(maxLen, r.mode, r.rest, n - 1);
      var one := [r.result];
      assert one[1..] == [] && Reported(one[1..]) == [];
      assert all[0] == r.result && all[1..] == Reads(maxLen, r.mode, r.rest, n - 1).outcomes;
    }
  }

  lemma {:induction false} DrainReportsFailures(maxLen: nat, mode: Mode, t: Tape)
    ensures var d := Drain(maxLen, mode, t); Accounts(t, Some(d.stop), d.rest)
    decreases Size(t)
  {
    hide ReadMessage;
    ReadMessageShrinks(maxLen, mode, t);
    ReadAccounts(maxLen, mode, t);
    var r := ReadMessage(maxLen, mode, t);
    if r.result.Ok? {
      DrainReportsFailures(maxLen, r.mode, r.rest);
    }
  }

  /**
   A connection returns an I/O error if and only if it met a failure of the source; it is the
   first one there was, and the connection read nothing past it.
   */
  lemma ConnectionReportsFailure(codec: Codec, config: Config, service: Service, maxLen: nat, mode: Mode, t: Tape, s: Protocol.State)
    ensures var c := Connect(codec, config, service, maxLen, mode, t, s);
            && (|Ahead(c.rest)| != |Ahead(t)| <==> c.result.Err? && c.result.error.Io?)
            && (c.result.Err? && c.result.error.Io? ==> t.stop == Fault(c.result.error.kind, c.rest))
  {
    hide Drain, Converse, Farewell;
    DrainReportsFailures(maxLen, mode, t);
  }
}
