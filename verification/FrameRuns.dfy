/**
 Runs: any number of successive reads on one transport.

 The grammar results are lifted from one read to whole runs, and the properties that only
 make sense over runs are proved: framing never comes back once lost, is chosen at most
 once, and messages never outnumber the bytes that were consumed for them.
 */
module FrameRuns {
  import opened Wrappers
  import opened Text
  import opened Reader
  import opened Decimal
  import opened FrameSpec
  import opened FrameGrammar

  datatype Run = Run(outcomes: seq<Result<bytes, Error>>, mode: Mode, rest: Tape)

  /** `n` successive calls of `read_message`, whatever each of them returns. */
  function Reads(maxLen: nat, mode: Mode, t: Tape, n: nat): (r: Run)
    ensures |r.outcomes| == n
    decreases n
  {
    if n == 0 then Run([], mode, t)
    else
      var r := ReadMessage(maxLen, mode, t);
      var more := Reads(maxLen, r.mode, r.rest, n - 1);
      Run([r.result] + more.outcomes, more.mode, more.rest)
  }

  // ----- Streams of units -----

  function StreamThen(units: seq<Unit>, rest: Tape): Tape {
    if units == [] then rest else UnitThen(units[0], StreamThen(units[1..], rest))
  }

  ghost predicate StreamOk(maxLen: nat, framing: Framing, units: seq<Unit>, rest: Tape)
    decreases |units|
  {
    units != [] ==>
      && UnitOk(maxLen, framing, units[0], StreamThen(units[1..], rest))
      && StreamOk(maxLen, FramingAfter(framing, units[0].core), units[1..], rest)
  }

  function Outcomes(units: seq<Unit>): (r: seq<Result<bytes, Error>>)
    ensures |r| == |units|
  {
    if units == [] then [] else [Outcome(units[0].core)] + Outcomes(units[1..])
  }

  function FramingEnd(framing: Framing, units: seq<Unit>): Framing
    decreases |units|
  {
    if units == [] then framing else FramingEnd(FramingAfter(framing, units[0].core), units[1..])
  }

  /** No failure strikes inside a line in any of the next `n` reads outside `Content-Length` framing. */
  predicate NeverTorn(maxLen: nat, mode: Mode, t: Tape, n: nat)
    decreases n
  {
    n > 0 ==>
      && (mode.desync == None ==> !TornLine(maxLen, mode.framing, t))
      && var r := ReadMessage(maxLen, mode, t);
         NeverTorn(maxLen, r.mode, r.rest, n - 1)
  }

  // ----- Once framing is lost -----

  /** A desynchronised transport stays so: it keeps its first reason, consumes nothing and returns no message. */
  lemma {:induction false} DesyncIsFinal(maxLen: nat, mode: Mode, t: Tape, n: nat)
    requires mode.desync.Some?
    ensures Reads(maxLen, mode, t, n).mode == mode && Reads(maxLen, mode, t, n).rest == t
    ensures forall i :: 0 <= i < n ==>
              Reads(maxLen, mode, t, n).outcomes[i] == Err(InvalidMessage(Desynchronised(mode.desync.value)))
  {
    if n > 0 {
      DesyncIsFinal(maxLen, mode, t, n - 1);
    }
  }

  // ----- Runs are streams -----

  lemma {:induction false} RunComplete(maxLen: nat, framing: Framing, units: seq<Unit>, rest: Tape)
    requires maxLen <= USIZE_MAX
    requires StreamOk(maxLen, framing, units, rest)
    ensures Reads(maxLen, Mode(framing, None), StreamThen(units, rest), |units|)
         == Run(Outcomes(units), Mode(FramingEnd(framing, units), None), rest)
    ensures NeverTorn(maxLen, Mode(framing, None), StreamThen(units, rest), |units|)
    decreases |units|
  {
    hide UnitOk, UnitThen, ReadMessage, TornLine;
    if units != [] {
      UnitComplete(maxLen, framing, units[0], StreamThen(units[1..], rest));
      UnitNotTorn(maxLen, framing, units[0], StreamThen(units[1..], rest));
      RunComplete(maxLen, FramingAfter(framing, units[0].core), units[1..], rest);
    }
  }

  lemma {:induction false} RunSound(maxLen: nat, framing: Framing, t: Tape, n: nat) returns (units: seq<Unit>)
    requires maxLen <= USIZE_MAX
    requires Reads(maxLen, Mode(framing, None), t, n).mode.desync == None
    requires NeverTorn(maxLen, Mode(framing, None), t, n)
    ensures var r := Reads(maxLen, Mode(framing, None), t, n);
            && |units| == n && StreamOk(maxLen, framing, units, r.rest) && t == StreamThen(units, r.rest)
            && r == Run(Outcomes(units), Mode(FramingEnd(framing, units), None), r.rest)
    decreases n
  {
    hide UnitOk, UnitThen, ReadMessage, TornLine;
    if n == 0 {
      units := [];
    } else {
      var r := ReadMessage(maxLen, Mode(framing, None), t);
      if r.mode.desync.Some? {
        DesyncIsFinal(maxLen, r.mode, r.rest, n - 1);
      }
      var u := UnitSound(maxLen, framing, t, r);
      var more := RunSound(maxLen, r.mode.framing, r.rest, n - 1);
      units := [u] + more;
      assert units[1..] == more;
    }
  }

  /**
   Frame boundaries over whole runs: after any number of reads the transport is in sync, with
   no line torn by a failure, exactly when what it consumed is that many whole units, and then
   what it returned is what they hold.
   */
  lemma RunIsStream(maxLen: nat, framing: Framing, t: Tape, n: nat, r: Run)
    requires maxLen <= USIZE_MAX
    ensures (r == Reads(maxLen, Mode(framing, None), t, n) && r.mode.desync == None
              && NeverTorn(maxLen, Mode(framing, None), t, n))
       <==> (exists units :: |units| == n && StreamOk(maxLen, framing, units, r.rest) && t == StreamThen(units, r.rest)
              && r == Run(Outcomes(units), Mode(FramingEnd(framing, units), None), r.rest))
  {
    hide Reads, NeverTorn, StreamOk, StreamThen;
    if r == Reads(maxLen, Mode(framing, None), t, n) && r.mode.desync == None
       && NeverTorn(maxLen, Mode(framing, None), t, n) {
      var units := RunSound(maxLen, framing, t, n);
    }
    forall units | |units| == n && StreamOk(maxLen, framing, units, r.rest) && t == StreamThen(units, r.rest)
      ensures NeverTorn(maxLen, Mode(framing, None), t, n)
      ensures Reads(maxLen, Mode(framing, None), t, n)
           == Run(Outcomes(units), Mode(FramingEnd(framing, units), None), r.rest)
    {
      RunComplete(maxLen, framing, units, r.rest);
    }
  }

  /** Outcomes of a run up to the loss of framing hold whole units; after it there are only errors. */
  ghost predicate WholeThenErrors(maxLen: nat, framing: Framing, t: Tape, outcomes: seq<Result<bytes, Error>>, units: seq<Unit>, mid: Tape) {
    && |units| <= |outcomes|
    && StreamOk(maxLen, framing, units, mid) && t == StreamThen(units, mid)
    && outcomes[..|units|] == Outcomes(units)
    && forall i :: |units| <= i < |outcomes| ==> outcomes[i].Err?
  }

  /**
   Nothing of an abandoned frame is ever returned: in sync or not, every message of a run is
   the content of a whole unit, and those units stand one after the other from the start.
   */
  lemma {:induction false} NothingSmuggled(maxLen: nat, framing: Framing, t: Tape, n: nat)
    requires maxLen <= USIZE_MAX
    requires NeverTorn(maxLen, Mode(framing, None), t, n)
    ensures exists units, mid ::
              WholeThenErrors(maxLen, framing, t, Reads(maxLen, Mode(framing, None), t, n).outcomes, units, mid)
    decreases n
  {
    hide UnitOk, UnitThen, ReadMessage, TornLine;
    var all := Reads(maxLen, Mode(framing, None), t, n);
    var r := ReadMessage(maxLen, Mode(framing, None), t);
    if n == 0 {
      assert WholeThenErrors(maxLen, framing, t, all.outcomes, [], t);
    } else if r.mode.desync.Some? {
      LossIsExplained(maxLen, framing, t);
      DesyncIsFinal(maxLen, r.mode, r.rest, n - 1);
      assert WholeThenErrors(maxLen, framing, t, all.outcomes, [], t);
    } else {
      var u := UnitSound(maxLen, framing, t, r);
      NothingSmuggled(maxLen, r.mode.framing, r.rest, n - 1);
      var more := Reads(maxLen, r.mode, r.rest, n - 1).outcomes;
      assert all.outcomes == [r.result] + more;
      var units, mid :| WholeThenErrors(maxLen, r.mode.framing, r.rest, more, units, mid);
      var longer := [u] + units;
      assert longer[1..] == units;
      assert all.outcomes[..|longer|] == [r.result] + more[..|units|];
      assert forall i :: |longer| <= i < n ==> all.outcomes[i] == more[i - 1];
      assert WholeThenErrors(maxLen, framing, t, all.outcomes, longer, mid);
    }
  }

  /**
   How an error accounts for a loss of framing. A frame abandoned for an undecodable line or for
   a failure of the source is reported as just that; everything else is a refusal, and the
   recorded reason is the one reported.
   */
  predicate Explains(reason: Reason, e: Error) {
    match reason
    case Abandoned(cause) => e == cause && (cause == InvalidMessage(InvalidUtf8) || cause.Io?)
    case BodyFailed(_, _, kind) => e == Io(kind)
    case Desynchronised(_) => false
    case InvalidUtf8 => false
    case _ => e == InvalidMessage(reason)
  }

  /** The read that loses framing returns no message but the cause it records. */
  lemma {:induction false} LossIsExplained(maxLen: nat, framing: Framing, t: Tape)
    requires ReadMessage(maxLen, Mode(framing, None), t).mode.desync.Some?
    ensures var r := ReadMessage(maxLen, Mode(framing, None), t);
            r.result.Err? && Explains(r.mode.desync.value, r.result.error)
    decreases Size(t)
  {
    hide Utf8, TrimCrlf, ContentLengthValue, ReadLine;
    LineLossIsExplained(maxLen, t);
    ReadLineShrinks(maxLen, t);
    var line := ReadLine(maxLen, t);
    HeaderLossIsExplained(maxLen, 1, line.rest);
    if StartsBlank(maxLen, framing, t) {
      LossIsExplained(maxLen, framing, line.rest);
    }
  }

  lemma LineLossIsExplained(maxLen: nat, t: Tape)
    ensures var r := ReadLine(maxLen, t);
            && (r.lost.Some? ==> r.lost == Some(LineTooLong(maxLen + 1)) && r.result == Err(InvalidMessage(r.lost.value)))
            && (r.lost.None? && r.result.Err? ==> r.result.error != ConnectionClosed ==>
                  r.result.error.Io? || r.result.error == InvalidMessage(InvalidUtf8))
  {
    hide Utf8;
  }

  lemma {:induction false} HeaderLossIsExplained(maxLen: nat, lines: nat, t: Tape)
    ensures var h := ReadHeaders(maxLen, lines, t);
            h.HeadersFailed? && h.lost.Some? ==> Explains(h.lost.value, h.error)
    decreases Size(t)
  {
    hide Utf8, TrimCrlf, ReadLine;
    LineLossIsExplained(maxLen, t);
    ReadLineShrinks(maxLen, t);
    var line := ReadFrameLine(maxLen, t);
    if line.result.Ok? {
      HeaderLossIsExplained(maxLen, lines + 1, line.rest);
    }
  }

  // ----- When a line can be torn -----

  /** Failures strike only at the start of a line: something the owner of the stream can check. */
  predicate CleanFailures(t: Tape) {
    match t.stop
    case Eof => true
    case Fault(_, after) => (t.run == [] || t.run[|t.run| - 1] == LF) && CleanFailures(after)
  }

  lemma {:induction false} CleanIsNotTorn(maxLen: nat, framing: Framing, t: Tape)
    requires CleanFailures(t)
    ensures !TornLine(maxLen, framing, t)
    decreases Size(t)
  {
    hide TrimCrlf, Utf8;
    if StartsBlank(maxLen, framing, t) {
      ReadLineShrinks(maxLen, t);
      LineKeepsClean(maxLen, t);
      CleanIsNotTorn(maxLen, framing, ReadLine(maxLen, t).rest);
    }
  }

  lemma LineKeepsClean(maxLen: nat, t: Tape)
    requires CleanFailures(t)
    ensures CleanFailures(ReadLine(maxLen, t).rest)
  {
    ExtentShape(t.run);
    var k := Extent(t.run);
    if k < |t.run| {
      assert t.run[k..][|t.run| - k - 1] == t.run[|t.run| - 1];
    }
  }

  lemma {:induction false} ReadKeepsClean(maxLen: nat, framing: Framing, t: Tape)
    requires CleanFailures(t) && framing != ContentLength
    ensures var r := ReadMessage(maxLen, Mode(framing, None), t);
            r.mode.framing == ContentLength || CleanFailures(r.rest)
    decreases Size(t)
  {
    hide TrimCrlf, Utf8, ReadLine, ContentLengthValue;
    ReadLineShrinks(maxLen, t);
    LineKeepsClean(maxLen, t);
    if StartsBlank(maxLen, framing, t) {
      ReadKeepsClean(maxLen, framing, ReadLine(maxLen, t).rest);
    }
  }

  /**
   Two ways to be safe from torn lines: `Content-Length` framing, whatever fails and wherever;
   and, in any framing, failures that only strike between lines.
   */
  lemma {:induction false} SafeFromTornLines(maxLen: nat, mode: Mode, t: Tape, n: nat)
    requires mode.framing == ContentLength || CleanFailures(t)
    ensures NeverTorn(maxLen, mode, t, n)
    decreases n
  {
    hide ReadMessage, TornLine;
    if n > 0 {
      var r := ReadMessage(maxLen, mode, t);
      ReadKeepsFraming(maxLen, mode, t);
      if mode.framing == ContentLength {
        ContentLengthNeverTorn(maxLen, t);
      } else {
        CleanIsNotTorn(maxLen, mode.framing, t);
        if mode.desync == None {
          ReadKeepsClean(maxLen, mode.framing, t);
        } else {
          DesyncIsFinal(maxLen, mode, t, 1);
        }
      }
      SafeFromTornLines(maxLen, r.mode, r.rest, n - 1);
    }
  }

  /** A torn line is reported: the read that meets it returns the failure. */
  lemma {:induction false} TornIsReported(maxLen: nat, framing: Framing, t: Tape)
    requires TornLine(maxLen, framing, t)
    ensures var r := ReadMessage(maxLen, Mode(framing, None), t);
            r.result.Err? && r.result.error.Io? && r.mode == Mode(framing, None)
    decreases Size(t)
  {
    hide TrimCrlf, Utf8, ContentLengthValue, ReadLine;
    ReadLineShrinks(maxLen, t);
    if StartsBlank(maxLen, framing, t) {
      TornIsReported(maxLen, framing, ReadLine(maxLen, t).rest);
    } else {
      OneLineIs(t.run);
      assert t.run[|t.run| - 1] in t.run;
      LineFails(maxLen, t.run, t.stop.kind, t.stop.after);
    }
  }

  lemma ContentLengthNeverTorn(maxLen: nat, t: Tape)
    ensures !TornLine(maxLen, ContentLength, t)
  {}

  /**
   Outside `Content-Length` framing a failure inside a line is not survivable, although the
   transport does not refuse further reads: whatever the partial line and whatever follows,
   the next read returns the tail of the broken line as a message of its own.
   */
  lemma TornLineReturnsItsTail(maxLen: nat, part: bytes, kind: IoKind, tail: bytes, rest: Tape)
    requires OneLine(part) && part[|part| - 1] != LF && |part| <= maxLen
    requires OneLine(tail) && tail[|tail| - 1] == LF && |tail| <= maxLen && Utf8(tail)
    ensures var t := Tape(part, Fault(kind, Then(tail, rest)));
            && Reads(maxLen, Mode(Newline, None), t, 2)
            == Run([Err(Io(kind)), Ok(TrimCrlf(tail))], Mode(Newline, None), rest)
            && TornLine(maxLen, Newline, t)
  {
    hide ReadMessage, TrimCrlf, Utf8, OneLine;
    var mode, after := Mode(Newline, None), Then(tail, rest);
    NewlineFails(maxLen, part, kind, after);
    NewlineReads(maxLen, tail, rest);
    assert Reads(maxLen, mode, rest, 0) == Run([], mode, rest);
    assert Reads(maxLen, mode, after, 1) == Run([Ok(TrimCrlf(tail))], mode, rest);
    assert LF !in part by {
      OneLineIs(part);
      assert part == part[..|part| - 1] + [part[|part| - 1]];
    }
    NotEmpty(part);
  }

  lemma NotEmpty(line: bytes)
    requires OneLine(line)
    ensures line != []
  {}

  lemma NewlineFails(maxLen: nat, part: bytes, kind: IoKind, after: Tape)
    requires OneLine(part) && part[|part| - 1] != LF && |part| <= maxLen
    ensures ReadMessage(maxLen, Mode(Newline, None), Tape(part, Fault(kind, after)))
         == Read(Err(Io(kind)), Mode(Newline, None), after)
  {
    hide Utf8, TrimCrlf, ReadLine;
    LineFails(maxLen, part, kind, after);
  }

  lemma NewlineReads(maxLen: nat, line: bytes, rest: Tape)
    requires OneLine(line) && line[|line| - 1] == LF && |line| <= maxLen && Utf8(line)
    ensures ReadMessage(maxLen, Mode(Newline, None), Then(line, rest)) == Read(Ok(TrimCrlf(line)), Mode(Newline, None), rest)
  {
    hide Utf8, TrimCrlf, ReadLine;
    LineEnds(maxLen, line, rest);
  }

  /** Every message a transport returns is a string, and no read mistakes a torn line for one. */
  lemma MessagesAreStrings(maxLen: nat, mode: Mode, t: Tape)
    requires maxLen <= USIZE_MAX && ReadMessage(maxLen, mode, t).result.Ok?
    ensures Utf8(ReadMessage(maxLen, mode, t).result.value)
    ensures mode.desync == None && !TornLine(maxLen, mode.framing, t)
  {
    hide Utf8, TrimCrlf, TornLine, UnitOk, UnitThen;
    var r := ReadMessage(maxLen, mode, t);
    assert mode == Mode(mode.framing, None);
    if TornLine(maxLen, mode.framing, t) {
      TornIsReported(maxLen, mode.framing, t);
    }
    if r.mode.desync.Some? {
      LossIsExplained(maxLen, mode.framing, t);
    }
    var u := UnitSound(maxLen, mode.framing, t, r);
    if u.core.TextLine? {
      TrimCrlfUtf8(u.core.line);
    }
  }

  // ----- Framing is decided once -----

  lemma {:induction false} ReadKeepsFraming(maxLen: nat, mode: Mode, t: Tape)
    ensures mode.framing != Auto ==> ReadMessage(maxLen, mode, t).mode.framing == mode.framing
    ensures ReadMessage(maxLen, mode, t).result.Ok? ==> ReadMessage(maxLen, mode, t).mode.framing != Auto
    decreases Size(t)
  {
    hide TrimCrlf, Utf8, ReadLine, ContentLengthValue;
    if mode.desync == None {
      ReadLineShrinks(maxLen, t);
      if StartsBlank(maxLen, mode.framing, t) {
        ReadKeepsFraming(maxLen, mode, ReadLine(maxLen, t).rest);
      }
    }
  }

  /** Over any run the framing moves at most once, out of detection, and never back. */
  lemma {:induction false} FramingDecidedOnce(maxLen: nat, mode: Mode, t: Tape, m: nat, n: nat)
    requires m <= n
    ensures var early, late := Reads(maxLen, mode, t, m).mode.framing, Reads(maxLen, mode, t, n).mode.framing;
            early != Auto ==> late == early
    decreases n
  {
    hide ReadMessage;
    if m == 0 {
      if n > 0 {
        var r := ReadMessage(maxLen, mode, t);
        ReadKeepsFraming(maxLen, mode, t);
        FramingDecidedOnce(maxLen, r.mode, r.rest, 0, n - 1);
      }
    } else {
      var r := ReadMessage(maxLen, mode, t);
      FramingDecidedOnce(maxLen, r.mode, r.rest, m - 1, n - 1);
    }
  }

  /** A first line recognised as a header commits to that framing even when its value is unusable, and is never a message. */
  lemma HeaderIsNeverAMessage(maxLen: nat, t: Tape, line: bytes, rest: Tape)
    requires maxLen <= USIZE_MAX
    requires IsLine(maxLen, line, rest == END) && Utf8(line) && t == Then(line, rest)
    requires ContentLengthValue(line).Some?
    ensures var r := ReadMessage(maxLen, Mode(Auto, None), t);
            && r.mode.framing == ContentLength
            && (r.result.Ok? ==> exists u :: UnitOk(maxLen, Auto, u, r.rest) && t == UnitThen(u, r.rest)
                                   && u.lead == [] && u.core.Frame? && u.core.body == r.result.value)
            && var value := ContentLengthValue(line).value;
               !(value != [] && AllDigits(value) && Value(value) <= maxLen) ==> r.result.Err? && r.mode.desync.Some?
  {
    hide TrimCrlf, Utf8, ReadLine, ContentLengthValue;
    var r := ReadMessage(maxLen, Mode(Auto, None), t);
    LineEnds(maxLen, line, rest);
    TrimCrlfTwice(line);
    OpeningNotBlank(line);
    DeclaredLengthExact(maxLen, ContentLengthValue(line).value);
    if r.result.Ok? {
      var c := FrameSound(maxLen, Auto, line, TrimCrlf(line), rest, r);
      assert UnitOk(maxLen, Auto, Unit([], c), r.rest);
    }
  }

  // ----- Cost and progress -----

  function MessageCount(outcomes: seq<Result<bytes, Error>>): nat {
    if outcomes == [] then 0 else (if outcomes[0].Ok? then 1 else 0) + MessageCount(outcomes[1..])
  }

  /** The messages of a run never outnumber what was consumed to read them. */
  lemma {:induction false} MessagesArePaidFor(maxLen: nat, mode: Mode, t: Tape, n: nat)
    ensures var r := Reads(maxLen, mode, t, n);
            MessageCount(r.outcomes) + Size(r.rest) <= Size(t)
    decreases n
  {
    hide ReadMessage;
    if n > 0 {
      var r := ReadMessage(maxLen, mode, t);
      ReadMessageShrinks(maxLen, mode, t);
      MessagesArePaidFor(maxLen, r.mode, r.rest, n - 1);
      assert Reads(maxLen, mode, t, n).outcomes[1..] == Reads(maxLen, r.mode, r.rest, n - 1).outcomes;
    }
  }

  lemma LineCost(maxLen: nat, t: Tape)
    ensures var r := ReadLine(maxLen, t);
            Size(t) - Size(r.rest) <= (if r.result.Ok? then maxLen else maxLen + 1)
  {
    hide Utf8;
    ExtentShape(t.run);
  }

  /** The cost of `n` lines. */
  function LinesCost(n: nat, maxLen: nat): nat {
    if n == 0 then 0 else LinesCost(n - 1, maxLen) + maxLen
  }

  lemma {:induction false} LinesCostIs(n: nat, maxLen: nat)
    ensures LinesCost(n, maxLen) == n * maxLen
  {
    if n > 0 {
      LinesCostIs(n - 1, maxLen);
      assert n * maxLen == (n - 1) * maxLen + maxLen;
    }
  }

  lemma {:induction false} HeadersCost(maxLen: nat, lines: nat, t: Tape)
    requires lines <= MAX_HEADER_LINES
    ensures var r := ReadHeaders(maxLen, lines, t);
            Size(t) - Size(r.rest) <= LinesCost(MAX_HEADER_LINES + 1 - lines, maxLen) + (if r.BodyAt? then 0 else 1)
    decreases Size(t)
  {
    hide TrimCrlf, Utf8, ReadLine;
    ReadLineShrinks(maxLen, t);
    LineCost(maxLen, t);
    var line := ReadFrameLine(maxLen, t);
    if line.result.Ok? && TrimCrlf(line.result.value) != [] && lines < MAX_HEADER_LINES {
      HeadersCost(maxLen, lines + 1, line.rest);
    }
  }

  lemma FrameCost(maxLen: nat, first: bytes, t: Tape)
    requires maxLen <= USIZE_MAX
    ensures Size(t) - Size(ReadFrame(maxLen, first, t).rest) <= (MAX_HEADER_LINES + 1) * maxLen + 1
  {
    hide TrimCrlf, Utf8, ReadLine, ContentLengthValue;
    HeadersCost(maxLen, 1, t);
    LinesCostIs(MAX_HEADER_LINES, maxLen);
    assert (MAX_HEADER_LINES + 1) * maxLen == MAX_HEADER_LINES * maxLen + maxLen;
    if ContentLengthValue(first).Some? {
      DeclaredLengthExact(maxLen, ContentLengthValue(first).value);
    }
  }

  /** One read is bounded: past the blank lines it skips, it costs at most 66 times the cap, plus one. */
  lemma {:induction false} BoundedCost(maxLen: nat, mode: Mode, t: Tape)
    requires maxLen <= USIZE_MAX
    ensures Size(SkipBlanks(maxLen, mode.framing, t)) - Size(ReadMessage(maxLen, mode, t).rest)
         <= 66 * maxLen + 1
    decreases Size(t)
  {
    hide TrimCrlf, Utf8, ReadLine, ContentLengthValue;
    ReadLineShrinks(maxLen, t);
    LineCost(maxLen, t);
    var line := ReadFrameLine(maxLen, t);
    if StartsBlank(maxLen, mode.framing, t) {
      BoundedCost(maxLen, mode, line.rest);
    } else if line.result.Ok? {
      FrameCost(maxLen, line.result.value, line.rest);
      FrameCost(maxLen, TrimCrlf(line.result.value), line.rest);
    }
  }
}
