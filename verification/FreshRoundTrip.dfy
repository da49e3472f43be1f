/**
 Exactly which lists of messages a fresh transport reads back.

 A fresh transport detects the framing, so a first message can be skipped as blank or taken
 for a header; what is then read could coincide with a message of the list. A count of bytes
 shows that it cannot coincide with all of them.
 */
module FreshRoundTrip {
  import opened Wrappers
  import opened Text
  import opened Decimal
  import opened Reader
  import opened FrameSpec
  import opened FrameGrammar
  import opened FrameRuns
  import opened RoundTrip

  /** The stream has no failures and its last line is terminated. */
  predicate Terminated(t: Tape) {
    t.stop == Eof && (t.run == [] || t.run[|t.run| - 1] == LF)
  }

  lemma SuffixTerminated(data: bytes, t: Tape)
    requires Terminated(Then(data, t))
    ensures Terminated(t)
  {}

  lemma {:induction false} LinesTerminated(lines: seq<bytes>, t: Tape)
    requires Terminated(LinesThen(lines, t))
    ensures Terminated(t) && |LinesThen(lines, t).run| >= |t.run|
  {
    if lines != [] {
      SuffixTerminated(lines[0], LinesThen(lines[1..], t));
      LinesTerminated(lines[1..], t);
    }
  }

  lemma TextCost(maxLen: nat, framing: Framing, line: bytes, rest: Tape)
    requires CoreOk(maxLen, framing, TextLine(line), rest) && Utf8(line) && Terminated(Then(line, rest))
    ensures var m := TrimCrlf(line);
            && Terminated(rest) && |line| >= |m| + 1
            && (|line| == |m| + 1 ==> line == m + [LF] && Fits(maxLen, Newline, m))
  {
    hide Utf8, TrimCrlf, ContentLengthValue, Trim;
    SuffixTerminated(line, rest);
    NotEmpty(line);
    assert line[|line| - 1] == LF by {
      if rest == END {
        assert Then(line, rest).run == line;
      }
    }
    TrimmedHasNoNewline(line);
    TrimCrlfShape(line);
    TrimCrlfUtf8(line);
    if |line| == |TrimCrlf(line)| + 1 {
      assert line == TrimCrlf(line) + [LF];
    }
  }

  /** A message costs its own length and at least one byte more, and exactly that only as a plain line. */
  lemma {:induction false} UnitCost(maxLen: nat, framing: Framing, u: Unit, rest: Tape, m: bytes)
    requires UnitOk(maxLen, framing, u, rest) && Outcome(u.core) == Ok(m) && Terminated(UnitThen(u, rest))
    ensures Terminated(rest)
    ensures |UnitThen(u, rest).run| >= |m| + 1 + |rest.run|
    ensures |UnitThen(u, rest).run| == |m| + 1 + |rest.run| ==> u == MessageUnit(Newline, m) && Fits(maxLen, Newline, m)
    decreases |u.lead|
  {
    hide Utf8, TrimCrlf, ContentLengthValue, Trim, Fits;
    if u.lead != [] {
      var tail := u.(lead := u.lead[1..]);
      SuffixTerminated(u.lead[0], UnitThen(tail, rest));
      NotEmpty(u.lead[0]);
      UnitCost(maxLen, framing, tail, rest, m);
    } else {
      match u.core
      case TextLine(line) =>
        TextCost(maxLen, framing, line, rest);
      case Frame(open, headers, blank, body) =>
        FrameUnitCost(open, headers, blank, body, rest);
    }
  }

  lemma FrameUnitCost(open: bytes, headers: seq<bytes>, blank: bytes, body: bytes, rest: Tape)
    requires OneLine(open) && OneLine(blank)
    requires Terminated(CoreThen(Frame(open, headers, blank, body), rest))
    ensures Terminated(rest)
    ensures |CoreThen(Frame(open, headers, blank, body), rest).run| > |body| + 1 + |rest.run|
  {
    var after := Then(blank, Then(body, rest));
    SuffixTerminated(open, LinesThen(headers, after));
    LinesTerminated(headers, after);
    SuffixTerminated(blank, Then(body, rest));
    SuffixTerminated(body, rest);
    NotEmpty(open);
    NotEmpty(blank);
  }

  /** If a list of messages is read from no more bytes than its encoding has, then each came as a plain line. */
  lemma {:induction false} StreamCost(maxLen: nat, framing: Framing, units: seq<Unit>, rest: Tape, messages: seq<bytes>)
    requires StreamOk(maxLen, framing, units, rest) && Outcomes(units) == AllOk(messages)
    requires Terminated(StreamThen(units, rest))
    ensures |StreamThen(units, rest).run| >= |Encode(Newline, messages)| + |rest.run|
    ensures |StreamThen(units, rest).run| == |Encode(Newline, messages)| + |rest.run| ==>
              AllFit(maxLen, Newline, messages) && units == MessageUnits(Newline, messages)
    decreases |units|
  {
    hide UnitOk, UnitThen, Fits, AllFit, Outcome, MessageUnit;
    if units == [] {
      assert messages == [];
      AllFitNil(maxLen, Newline);
    } else {
      var u, m, after := units[0], messages[0], StreamThen(units[1..], rest);
      assert Outcomes(units)[0] == Outcome(u.core) && AllOk(messages)[0] == Ok(m);
      assert Outcomes(units)[1..] == Outcomes(units[1..]) && AllOk(messages)[1..] == AllOk(messages[1..]);
      UnitCost(maxLen, framing, u, after, m);
      StreamCost(maxLen, FramingAfter(framing, u.core), units[1..], rest, messages[1..]);
      assert messages == [m] + messages[1..];
      AllFitCons(maxLen, Newline, m, messages[1..]);
      assert units == [u] + units[1..];
    }
  }

  lemma {:induction false} AllOkInSync(maxLen: nat, framing: Framing, t: Tape, messages: seq<bytes>)
    requires Reads(maxLen, Mode(framing, None), t, |messages|).outcomes == AllOk(messages)
    ensures Reads(maxLen, Mode(framing, None), t, |messages|).mode.desync == None
    decreases |messages|
  {
    hide ReadMessage;
    if messages != [] {
      var r := ReadMessage(maxLen, Mode(framing, None), t);
      var all := Reads(maxLen, Mode(framing, None), t, |messages|).outcomes;
      assert all[0] == r.result && AllOk(messages)[0] == Ok(messages[0]);
      if r.mode.desync.Some? {
        LossIsExplained(maxLen, framing, t);
      }
      assert all[1..] == AllOk(messages[1..]);
      AllOkInSync(maxLen, r.mode.framing, r.rest, messages[1..]);
    }
  }

  lemma {:induction false} EncodedIsTerminated(messages: seq<bytes>)
    ensures Terminated(Tape(Encode(Newline, messages), Eof))
  {
    if messages != [] {
      EncodedIsTerminated(messages[1..]);
      assert EncodeOne(Newline, messages[0]) == messages[0] + [LF];
    }
  }

  lemma FreshNewlineNeeds(maxLen: nat, messages: seq<bytes>)
    requires maxLen <= USIZE_MAX
    requires Reads(maxLen, Mode(Auto, None), Tape(Encode(Newline, messages), Eof), |messages|).outcomes == AllOk(messages)
    ensures AllFit(maxLen, Newline, messages)
    ensures messages != [] ==> Announces(Newline, messages[0])
  {
    hide Reads, Encode, AllOk, Outcomes, AllFit, NeverTorn, Trim, ContentLengthValue, Utf8, TrimCrlf;
    var t := Tape(Encode(Newline, messages), Eof);
    SafeFromTornLines(maxLen, Mode(Auto, None), t, |messages|);
    AllOkInSync(maxLen, Auto, t, messages);
    var units := RunSound(maxLen, Auto, t, |messages|);
    var rest := Reads(maxLen, Mode(Auto, None), t, |messages|).rest;
    EncodedIsTerminated(messages);
    StreamCost(maxLen, Auto, units, rest, messages);
    if messages != [] {
      FirstAnnounces(maxLen, messages, units, rest);
    }
  }

  lemma FirstAnnounces(maxLen: nat, messages: seq<bytes>, units: seq<Unit>, rest: Tape)
    requires messages != [] && units == MessageUnits(Newline, messages)
    requires StreamOk(maxLen, Auto, units, rest) && AllFit(maxLen, Newline, messages)
    ensures Announces(Newline, messages[0])
  {
    hide Utf8, TrimCrlf, ContentLengthValue, Trim;
    var m := messages[0];
    assert Fits(maxLen, Newline, m);
    assert units[0] == MessageUnit(Newline, m);
    NewlineEndsLine(m);
    TrimCrlfTwice(m + [LF]);
  }

  lemma FreshContentLengthNeeds(maxLen: nat, messages: seq<bytes>)
    requires maxLen <= USIZE_MAX && messages != []
    requires Reads(maxLen, Mode(Auto, None), Tape(Encode(ContentLength, messages), Eof), |messages|).outcomes == AllOk(messages)
    ensures AllFit(maxLen, ContentLength, messages)
  {
    hide ReadMessage, Fits, EncodeOne, AllFit;
    var m, tail := messages[0], messages[1..];
    assert messages == [m] + tail;
    var after := Then(Encode(ContentLength, tail), END);
    ThenThen(EncodeOne(ContentLength, m), Encode(ContentLength, tail), END);
    assert Tape(Encode(ContentLength, messages), Eof) == Then(EncodeOne(ContentLength, m), after);
    var r := ReadMessage(maxLen, Mode(Auto, None), Then(EncodeOne(ContentLength, m), after));
    var more := Reads(maxLen, r.mode, r.rest, |tail|).outcomes;
    AllOkCons(m, tail, r.result, more);
    if !Fits(maxLen, ContentLength, m) {
      UnfitContentLength(maxLen, Auto, m, after);
    }
    EncodeOneIsUnit(ContentLength, m, after);
    MessageUnitOk(maxLen, ContentLength, Auto, m, after);
    UnitComplete(maxLen, Auto, MessageUnit(ContentLength, m), after);
    ReadsBackExactly(maxLen, ContentLength, tail, END);
    AllFitCons(maxLen, ContentLength, m, tail);
  }

  /**
   The round trip through a fresh transport, exactly: a list of messages is read back as it was
   written when, and only when, every message fits its framing and the first one announces it.
   */
  lemma FreshReadsBackExactly(maxLen: nat, framing: Framing, messages: seq<bytes>)
    requires maxLen <= USIZE_MAX && framing != Auto
    ensures Reads(maxLen, Mode(Auto, None), Tape(Encode(framing, messages), Eof), |messages|).outcomes == AllOk(messages)
       <==> AllFit(maxLen, framing, messages) && (messages != [] ==> Announces(framing, messages[0]))
  {
    hide Reads, Encode, AllFit, Announces, AllOk;
    var t := Tape(Encode(framing, messages), Eof);
    if AllFit(maxLen, framing, messages) && (messages != [] ==> Announces(framing, messages[0])) {
      assert t == Then(Encode(framing, messages), END);
      ReadsBack(maxLen, framing, Auto, messages, END);
    }
    if Reads(maxLen, Mode(Auto, None), t, |messages|).outcomes == AllOk(messages) {
      if framing == Newline {
        FreshNewlineNeeds(maxLen, messages);
      } else if messages == [] {
        AllFitNil(maxLen, framing);
      } else {
        FreshContentLengthNeeds(maxLen, messages);
        HeaderAnnounces(messages[0]);
      }
    }
  }

  lemma HeaderAnnounces(m: bytes)
    ensures Announces(ContentLength, m)
  {}
}
