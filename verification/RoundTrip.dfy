/** What `write_message` writes, a fresh transport reads back: in both framings, and exactly when. */
module RoundTrip {
  import opened Wrappers
  import opened Text
  import opened Decimal
  import opened Reader
  import opened FrameSpec
  import opened FrameGrammar
  import opened FrameRuns

  const CRLF: bytes := [CR, LF]
  const HEADER_NAME: bytes := Ascii("Content-Length: ")

  function HeaderLine(len: nat): bytes {
    HEADER_NAME + Print(len) + CRLF
  }

  /** What a message must satisfy to survive its framing. The header line is capped like any other. */
  predicate Fits(maxLen: nat, framing: Framing, m: bytes) {
    && Utf8(m)
    && if framing == ContentLength then
         |m| <= maxLen && 18 + |Print(|m|)| <= maxLen
       else
         LF !in m && (m == [] || m[|m| - 1] != CR) && |m| + 1 <= maxLen
  }

  /** What the first message must satisfy for detection to choose the framing it was written in. */
  predicate Announces(framing: Framing, m: bytes) {
    framing != ContentLength ==> !Blank(m) && ContentLengthValue(m).None?
  }

  predicate AllFit(maxLen: nat, framing: Framing, messages: seq<bytes>) {
    forall i :: 0 <= i < |messages| ==> Fits(maxLen, framing, messages[i])
  }

  function AllOk(messages: seq<bytes>): (r: seq<Result<bytes, Error>>)
    ensures |r| == |messages|
  {
    if messages == [] then [] else [Ok(messages[0])] + AllOk(messages[1..])
  }

  function MessageUnit(framing: Framing, m: bytes): Unit {
    Unit([], if framing == ContentLength then Frame(HeaderLine(|m|), [], CRLF, m) else TextLine(m + [LF]))
  }

  function MessageUnits(framing: Framing, messages: seq<bytes>): (r: seq<Unit>)
    ensures |r| == |messages|
  {
    if messages == [] then [] else [MessageUnit(framing, messages[0])] + MessageUnits(framing, messages[1..])
  }

  // ----- The header a transport writes is the header it recognises -----

  lemma HeaderLineShape(len: nat)
    ensures var line := HeaderLine(len);
            OneLine(line) && IsAscii(line) && line[|line| - 1] == LF && |line| == 18 + |Print(len)|
    ensures TrimCrlf(HeaderLine(len)) == HEADER_NAME + Print(len)
  {
    var line := HeaderLine(len);
    var digits := Print(len);
    assert forall i :: 0 <= i < |line| - 1 ==> line[i] != LF;
    OneLineIs(line);
    assert line == (HEADER_NAME + digits) + CRLF;
    TrimCrlfIs(HEADER_NAME + digits, CRLF);
  }

  lemma TrimLeadingSpace(digits: bytes)
    requires digits != [] && AllDigits(digits)
    ensures Trim([0x20] + digits) == digits
  {
    var s := [0x20] + digits;
    assert SpaceAt(s, 0) == 1 && s[1..] == digits;
    TrimVisible(digits);
  }

  lemma HeaderColon(text: bytes)
    requires HEADER_NAME <= text
    ensures Find(text, COLON) == Some(14)
  {
    assert text[14] == HEADER_NAME[14];
    assert forall i :: 0 <= i < 14 ==> text[..14][i] == HEADER_NAME[i];
    FindIs(text, COLON, 14);
  }

  lemma HeaderName(text: bytes)
    requires HEADER_NAME <= text
    ensures EqIgnoreAsciiCase(Trim(text[..14]), CONTENT_LENGTH)
  {
    var name := text[..14];
    assert forall i :: 0 <= i < 14 ==> name[i] == HEADER_NAME[i];
    TrimVisible(name);
  }

  lemma HeaderIsRecognised(len: nat)
    ensures ContentLengthValue(HeaderLine(len)) == Some(Print(len))
  {
    hide Trim, TrimCrlf, Find, EqIgnoreAsciiCase, HeaderLine, Print;
    var digits := Print(len);
    var text := HEADER_NAME + digits;
    HeaderLineShape(len);
    assert Visible(text[|text| - 1]) && Visible(text[0]);
    TrimVisible(text);
    HeaderColon(text);
    HeaderName(text);
    assert text[15..] == [0x20] + digits;
    TrimLeadingSpace(digits);
  }

  lemma HeaderLineIsOpening(maxLen: nat, len: nat)
    requires len <= maxLen && 18 + |Print(len)| <= maxLen
    ensures IsOpening(maxLen, HeaderLine(len), false, len)
  {
    HeaderLineShape(len);
    AsciiIsUtf8(HeaderLine(len));
    HeaderIsRecognised(len);
    PrintValue(len);
  }

  /** The bytes of one message: its length in decimal without leading zeros after the name, or a newline behind it. */
  lemma WireFormat(framing: Framing, m: bytes)
    ensures framing == ContentLength ==>
              exists digits :: EncodeOne(framing, m) == Ascii("Content-Length: ") + digits + [13, 10, 13, 10] + m
                && digits != [] && AllDigits(digits) && Value(digits) == |m| && (|digits| > 1 ==> digits[0] != 48)
    ensures framing != ContentLength ==> EncodeOne(framing, m) == m + [10]
  {
    hide Print, Value;
    var digits := Print(|m|);
    PrintValue(|m|);
    NoLeadingZero(|m|);
    assert Header(|m|) == Ascii("Content-Length: ") + digits + [13, 10, 13, 10];
  }

  lemma {:induction false} NoLeadingZero(n: nat)
    ensures n >= 1 ==> Print(n)[0] != 48
    ensures n < 10 ==> |Print(n)| == 1
  {
    if n >= 10 {
      NoLeadingZero(n / 10);
    }
  }

  // ----- Encoded messages are a stream of units -----

  lemma EncodeOneIsUnit(framing: Framing, m: bytes, rest: Tape)
    ensures Then(EncodeOne(framing, m), rest) == UnitThen(MessageUnit(framing, m), rest)
  {
    if framing == ContentLength {
      assert Header(|m|) == HeaderLine(|m|) + CRLF;
      ThenThen(CRLF, m, rest);
      ThenThen(HeaderLine(|m|), CRLF + m, rest);
      assert HeaderLine(|m|) + (CRLF + m) == EncodeOne(framing, m);
    }
  }

  lemma {:induction false} EncodeIsStream(framing: Framing, messages: seq<bytes>, rest: Tape)
    ensures Then(Encode(framing, messages), rest) == StreamThen(MessageUnits(framing, messages), rest)
  {
    hide EncodeOne, MessageUnit;
    if messages == [] {
      assert [] + rest.run == rest.run;
    } else {
      var after := Encode(framing, messages[1..]);
      EncodeIsStream(framing, messages[1..], rest);
      ThenThen(EncodeOne(framing, messages[0]), after, rest);
      EncodeOneIsUnit(framing, messages[0], Then(after, rest));
    }
  }

  lemma NewlineEndsLine(m: bytes)
    requires Utf8(m) && LF !in m && (m == [] || m[|m| - 1] != CR)
    ensures OneLine(m + [LF]) && Utf8(m + [LF]) && TrimCrlf(m + [LF]) == m
  {
    assert (m + [LF])[..|m|] == m;
    OneLineIs(m + [LF]);
    AsciiIsUtf8([LF]);
    Utf8Concat(m, [LF]);
    assert m != [] ==> m[|m| - 1] in m;
    TrimCrlfIs(m, [LF]);
  }

  lemma CrlfIsBlankLine()
    ensures OneLine(CRLF) && TrimCrlf(CRLF) == [] && Utf8(CRLF)
  {
    OneLineIs(CRLF);
    TrimCrlfIs([], CRLF);
    assert [] + CRLF == CRLF;
    AsciiIsUtf8(CRLF);
  }

  lemma FrameUnitOk(maxLen: nat, inForce: Framing, m: bytes, rest: Tape)
    requires inForce != Newline && Fits(maxLen, ContentLength, m)
    ensures CoreOk(maxLen, inForce, Frame(HeaderLine(|m|), [], CRLF, m), rest)
  {
    hide IsOpening, HeaderLine, Utf8, TrimCrlf;
    HeaderLineIsOpening(maxLen, |m|);
    CrlfIsBlankLine();
  }

  lemma TextUnitOk(maxLen: nat, inForce: Framing, m: bytes, rest: Tape)
    requires inForce != ContentLength && Fits(maxLen, Newline, m)
    requires inForce == Auto ==> Announces(Newline, m)
    ensures CoreOk(maxLen, inForce, TextLine(m + [LF]), rest)
    ensures Utf8(m + [LF]) && TrimCrlf(m + [LF]) == m
  {
    hide Utf8, TrimCrlf, ContentLengthValue, Trim;
    NewlineEndsLine(m);
    TrimCrlfTwice(m + [LF]);
  }

  /** A message that fits is a unit holding it, in its own framing or, if it announces it, before detection. */
  lemma MessageUnitOk(maxLen: nat, framing: Framing, inForce: Framing, m: bytes, rest: Tape)
    requires framing != Auto && Fits(maxLen, framing, m)
    requires inForce == framing || (inForce == Auto && Announces(framing, m))
    ensures UnitOk(maxLen, inForce, MessageUnit(framing, m), rest)
    ensures Outcome(MessageUnit(framing, m).core) == Ok(m)
    ensures FramingAfter(inForce, MessageUnit(framing, m).core) == framing
  {
    hide CoreOk, Utf8, TrimCrlf, HeaderLine;
    if framing == ContentLength {
      FrameUnitOk(maxLen, inForce, m, rest);
    } else {
      TextUnitOk(maxLen, inForce, m, rest);
    }
  }

  lemma {:induction false} EncodedStreamOk(maxLen: nat, framing: Framing, inForce: Framing, messages: seq<bytes>, rest: Tape)
    requires framing != Auto && AllFit(maxLen, framing, messages)
    requires inForce == framing || (inForce == Auto && (messages != [] ==> Announces(framing, messages[0])))
    ensures var units := MessageUnits(framing, messages);
            && StreamOk(maxLen, inForce, units, rest)
            && Outcomes(units) == AllOk(messages)
            && FramingEnd(inForce, units) == (if messages == [] then inForce else framing)
    decreases |messages|
  {
    hide UnitOk, MessageUnit, Fits, UnitThen;
    if messages != [] {
      MessageUnitOk(maxLen, framing, inForce, messages[0], StreamThen(MessageUnits(framing, messages[1..]), rest));
      EncodedStreamOk(maxLen, framing, framing, messages[1..], rest);
    }
  }

  /**
   The round trip: any list of messages written in one framing, followed by anything, is read
   back exactly, by a transport that is in that framing or a fresh one that the first message
   tells which framing it is; and the reader then stands at what follows.
   */
  lemma ReadsBack(maxLen: nat, framing: Framing, inForce: Framing, messages: seq<bytes>, rest: Tape)
    requires maxLen <= USIZE_MAX
    requires framing != Auto && AllFit(maxLen, framing, messages)
    requires inForce == framing || (inForce == Auto && (messages != [] ==> Announces(framing, messages[0])))
    ensures Reads(maxLen, Mode(inForce, None), Then(Encode(framing, messages), rest), |messages|)
         == Run(AllOk(messages), Mode(if messages == [] then inForce else framing, None), rest)
  {
    hide Reads, StreamOk, Outcomes, Encode, Fits, AllFit;
    EncodeIsStream(framing, messages, rest);
    EncodedStreamOk(maxLen, framing, inForce, messages, rest);
    RunComplete(maxLen, inForce, MessageUnits(framing, messages), rest);
  }

  /** The round trip on a stream of its own: the messages, then a clean close. */
  lemma FreshReadsBack(maxLen: nat, framing: Framing, messages: seq<bytes>)
    requires maxLen <= USIZE_MAX
    requires framing != Auto && AllFit(maxLen, framing, messages)
    requires messages != [] ==> Announces(framing, messages[0])
    ensures Reads(maxLen, Mode(Auto, None), Tape(Encode(framing, messages), Eof), |messages| + 1)
         == Run(AllOk(messages) + [Err(ConnectionClosed)], Mode(if messages == [] then Auto else framing, None), END)
  {
    hide Fits, AllFit, Encode;
    var t := Tape(Encode(framing, messages), Eof);
    assert t == Then(Encode(framing, messages), END);
    ReadsBack(maxLen, framing, Auto, messages, END);
    ReadsSplit(maxLen, Mode(Auto, None), t, |messages|, 1);
    var mode := Mode(if messages == [] then Auto else framing, None);
    CoreComplete(maxLen, mode.framing, End, END);
    assert Reads(maxLen, mode, END, 0) == Run([], mode, END);
    assert Reads(maxLen, mode, END, 1) == Run([Err(ConnectionClosed)], mode, END);
  }

  /** A run of `m + n` reads is a run of `m` followed by a run of `n`. */
  lemma {:induction false} ReadsSplit(maxLen: nat, mode: Mode, t: Tape, m: nat, n: nat)
    ensures var first := Reads(maxLen, mode, t, m);
            var second := Reads(maxLen, first.mode, first.rest, n);
            Reads(maxLen, mode, t, m + n) == Run(first.outcomes + second.outcomes, second.mode, second.rest)
    decreases m
  {
    hide ReadMessage;
    var first := Reads(maxLen, mode, t, m);
    if m == 0 {
      assert [] + Reads(maxLen, mode, t, n).outcomes == Reads(maxLen, mode, t, n).outcomes;
    } else {
      var r := ReadMessage(maxLen, mode, t);
      ReadsSplit(maxLen, r.mode, r.rest, m - 1, n);
      var more := Reads(maxLen, r.mode, r.rest, m - 1).outcomes;
      var second := Reads(maxLen, first.mode, first.rest, n).outcomes;
      assert ([r.result] + more) + second == [r.result] + (more + second);
    }
  }

  // ----- Fitting is necessary as well -----

  /** A message that does not fit is never what comes back. */
  lemma UnfitDoesNotReadBack(maxLen: nat, framing: Framing, m: bytes, rest: Tape)
    requires maxLen <= USIZE_MAX && framing != Auto && !Fits(maxLen, framing, m)
    ensures ReadMessage(maxLen, Mode(framing, None), Then(EncodeOne(framing, m), rest)).result != Ok(m)
  {
    if framing == ContentLength {
      UnfitContentLength(maxLen, framing, m, rest);
    } else {
      UnfitNewline(maxLen, m, rest);
    }
  }

  lemma SplitAt(s: bytes, k: nat)
    requires k <= |s|
    ensures s == s[..k] + s[k..]
  {}

  /** The first line of an encoded message, and what is left of the message after it. */
  lemma FirstLine(m: bytes) returns (line: bytes, left: bytes)
    ensures m + [LF] == line + left
    ensures OneLine(line) && line[|line| - 1] == LF
    ensures LF !in m ==> line == m + [LF]
  {
    var all := m + [LF];
    FindShape(all, LF);
    assert all[|m|] == LF;
    var k := Find(all, LF).value;
    line, left := all[..k + 1], all[k + 1..];
    assert line[..k] == all[..k] && line == all[..k] + [LF];
    OneLineIs(line);
    SplitAt(all, k + 1);
  }

  lemma UnfitNewline(maxLen: nat, m: bytes, rest: Tape)
    requires !Fits(maxLen, Newline, m)
    ensures ReadMessage(maxLen, Mode(Newline, None), Then(m + [LF], rest)).result != Ok(m)
  {
    hide Utf8, TrimCrlf;
    var line, left := FirstLine(m);
    ThenThen(line, left, rest);
    TrimCrlfShape(line);
    if |line| <= maxLen {
      LineEnds(maxLen, line, Then(left, rest));
      if LF in m {
        TrimmedHasNoNewline(line);
      } else if Utf8(line) {
        AsciiIsUtf8([LF]);
        Utf8DropAsciiSuffix(m, [LF]);
      }
    } else {
      ExtentIs(line, left + rest.run);
    }
  }

  lemma TrimmedHasNoNewline(line: bytes)
    requires OneLine(line) && line[|line| - 1] == LF
    ensures LF !in TrimCrlf(line) && |TrimCrlf(line)| < |line|
  {
    TrimCrlfShape(line);
    OneLineIs(line);
    var r := TrimCrlf(line);
    assert r == line[..|r|];
    assert forall i :: 0 <= i < |r| ==> r[i] == line[..|line| - 1][i];
  }

  lemma UnfitContentLength(maxLen: nat, inForce: Framing, m: bytes, rest: Tape)
    requires maxLen <= USIZE_MAX && inForce != Newline && !Fits(maxLen, ContentLength, m)
    ensures ReadMessage(maxLen, Mode(inForce, None), Then(EncodeOne(ContentLength, m), rest)).result != Ok(m)
  {
    hide Utf8, TrimCrlf, ContentLengthValue, HeaderLine, Trim;
    var line := HeaderLine(|m|);
    HeaderLineShape(|m|);
    EncodeOneIsUnit(ContentLength, m, rest);
    var after := Then(CRLF, Then(m, rest));
    assert Then(EncodeOne(ContentLength, m), rest) == Then(line, after);
    if |line| > maxLen {
      ExtentIs(line, after.run);
    } else {
      LineEnds(maxLen, line, after);
      AsciiIsUtf8(line);
      HeaderIsRecognised(|m|);
      TrimCrlfTwice(line);
      OpeningNotBlank(line);
      UnfitFrame(maxLen, line, m, rest);
      UnfitFrame(maxLen, TrimCrlf(line), m, rest);
    }
  }

  lemma UnfitFrame(maxLen: nat, first: bytes, m: bytes, rest: Tape)
    requires maxLen <= USIZE_MAX && 18 <= maxLen
    requires ContentLengthValue(first) == Some(Print(|m|))
    requires |m| > maxLen || !Utf8(m)
    ensures ReadFrame(maxLen, first, Then(CRLF, Then(m, rest))).result != Ok(m)
  {
    hide Utf8, TrimCrlf, ContentLengthValue, HeaderLine, Trim;
    PrintValue(|m|);
    DeclaredLengthExact(maxLen, Print(|m|));
    CrlfIsBlankLine();
    LineEnds(maxLen, CRLF, Then(m, rest));
    BodyArrives(m, rest);
  }

  lemma OneReadsBackExactly(maxLen: nat, framing: Framing, m: bytes, rest: Tape)
    requires maxLen <= USIZE_MAX && framing != Auto
    ensures var r := ReadMessage(maxLen, Mode(framing, None), Then(EncodeOne(framing, m), rest));
            && (r.result == Ok(m) <==> Fits(maxLen, framing, m))
            && (Fits(maxLen, framing, m) ==> r.mode == Mode(framing, None) && r.rest == rest)
  {
    hide ReadMessage, Fits, EncodeOne;
    if Fits(maxLen, framing, m) {
      EncodeOneIsUnit(framing, m, rest);
      MessageUnitOk(maxLen, framing, framing, m, rest);
      UnitComplete(maxLen, framing, MessageUnit(framing, m), rest);
    } else {
      UnfitDoesNotReadBack(maxLen, framing, m, rest);
    }
  }

  lemma AllOkCons(m: bytes, tail: seq<bytes>, first: Result<bytes, Error>, more: seq<Result<bytes, Error>>)
    ensures [first] + more == AllOk([m] + tail) <==> first == Ok(m) && more == AllOk(tail)
  {
    assert ([m] + tail)[1..] == tail;
    assert ([first] + more)[0] == first && ([first] + more)[1..] == more;
    assert ([Ok(m)] + AllOk(tail))[0] == Ok(m) && ([Ok(m)] + AllOk(tail))[1..] == AllOk(tail);
  }

  lemma AllFitCons(maxLen: nat, framing: Framing, m: bytes, tail: seq<bytes>)
    ensures AllFit(maxLen, framing, [m] + tail) <==> Fits(maxLen, framing, m) && AllFit(maxLen, framing, tail)
  {
    hide Fits;
    var all := [m] + tail;
    assert all[0] == m && all[1..] == tail;
    assert forall i :: 0 < i < |all| ==> all[i] == tail[i - 1];
    assert forall i :: 0 <= i < |tail| ==> tail[i] == all[i + 1];
  }

  /** Once framing is decided, a list of messages survives the wire exactly when each of them fits. */
  lemma {:induction false} ReadsBackExactly(maxLen: nat, framing: Framing, messages: seq<bytes>, rest: Tape)
    requires maxLen <= USIZE_MAX && framing != Auto
    ensures Reads(maxLen, Mode(framing, None), Then(Encode(framing, messages), rest), |messages|).outcomes == AllOk(messages)
       <==> AllFit(maxLen, framing, messages)
    decreases |messages|
  {
    hide ReadMessage, Fits, EncodeOne, AllFit, AllOk;
    if messages == [] {
      assert AllOk(messages) == [] by { AllOkNil(); }
      assert AllFit(maxLen, framing, messages) by { AllFitNil(maxLen, framing); }
    } else {
      var m, tail := messages[0], messages[1..];
      assert messages == [m] + tail;
      var after := Then(Encode(framing, tail), rest);
      ThenThen(EncodeOne(framing, m), Encode(framing, tail), rest);
      var r := ReadMessage(maxLen, Mode(framing, None), Then(EncodeOne(framing, m), after));
      OneReadsBackExactly(maxLen, framing, m, after);
      ReadsBackExactly(maxLen, framing, tail, rest);
      AllOkCons(m, tail, r.result, Reads(maxLen, r.mode, r.rest, |tail|).outcomes);
      AllFitCons(maxLen, framing, m, tail);
    }
  }

  lemma AllOkNil()
    ensures AllOk([]) == []
  {}

  lemma AllFitNil(maxLen: nat, framing: Framing)
    ensures AllFit(maxLen, framing, [])
  {}
}
