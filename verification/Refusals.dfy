/**
 Which frames are refused, and with what.

 One lemma for each way a `Content-Length` frame can go wrong, on the bytes of the frame: the
 error the caller sees, the reason that is kept, and how much was consumed.
 */
module Refusals {
  import opened Wrappers
  import opened Text
  import opened Decimal
  import opened Reader
  import opened Unicode
  import opened FrameSpec
  import opened FrameGrammar
  import opened RoundTrip
  import opened Detection

  /** The framing violation is both what the caller sees and what is kept. */
  predicate IsRefused(r: Read, reason: Reason, rest: Tape) {
    r == Read(Err(InvalidMessage(reason)), Mode(ContentLength, Some(reason)), rest)
  }

  /** In `Content-Length` framing a line that is no header cannot open a frame. */
  lemma NoHeaderIsRefused(maxLen: nat, line: text, rest: Tape)
    requires IsTextLine(maxLen, line) && !(exists value :: IsHeaderOf(line, value))
    ensures IsRefused(ReadMessage(maxLen, Mode(ContentLength, None), Then(EncodeText(line), rest)),
                      NotAHeader(EncodeText(line)), rest)
  {
    hide EncodeText, IsHeaderOf, ReadLine, ContentLengthValue, Utf8;
    EncodedIsUtf8(line);
    LineEnds(maxLen, EncodeText(line), rest);
    RecognisedExactly(line);
  }

  /** A header whose value is not a plain decimal within the cap is refused by what is wrong with the value. */
  lemma BadValueIsRefused(maxLen: nat, framing: Framing, line: text, value: text, rest: Tape)
    requires maxLen <= USIZE_MAX && framing != Newline && IsTextLine(maxLen, line) && IsHeaderOf(line, value)
    ensures var r, v := ReadMessage(maxLen, Mode(framing, None), Then(EncodeText(line), rest)), EncodeText(value);
            && (value == [] ==> IsRefused(r, EmptyLength, rest))
            && (value != [] && !AllDigits(v) ==> IsRefused(r, NotAByteCount(v), rest))
            && (value != [] && AllDigits(v) && Value(v) > maxLen ==> IsRefused(r, LengthTooLarge(v), rest))
  {
    hide EncodeText, IsHeaderOf, IsTextLine, ReadMessage, ContentLengthValue, ReadHeaders, Value;
    HeaderExactly(line, value);
    EncodedNotEmpty(value);
    DeclaredLengthExact(maxLen, EncodeText(value));
    var first := HeaderStartsFrame(maxLen, framing, line, value, rest);
  }

  lemma {:induction false} HeadersSkip(maxLen: nat, lines: nat, headers: seq<bytes>, t: Tape)
    requires AreHeaders(maxLen, headers, false) && lines + |headers| <= 64
    ensures ReadHeaders(maxLen, lines, LinesThen(headers, t)) == ReadHeaders(maxLen, lines + |headers|, t)
    decreases |headers|
  {
    hide Utf8, TrimCrlf, ReadLine;
    if headers != [] {
      LineEnds(maxLen, headers[0], LinesThen(headers[1..], t));
      HeadersSkip(maxLen, lines + 1, headers[1..], t);
    }
  }

  /** A header that declares `declared` bytes, with up to 63 more headers. */
  ghost predicate IsHead(maxLen: nat, framing: Framing, line: text, declared: nat, headers: seq<bytes>) {
    && maxLen <= USIZE_MAX && framing != Newline && IsTextLine(maxLen, line) && declared <= maxLen
    && (exists value :: IsHeaderOf(line, value) && Declares(value, declared))
    && |headers| <= 63 && AreHeaders(maxLen, headers, false)
  }

  /** Once the head of a frame is read, what comes next decides. */
  lemma HeadIsRead(maxLen: nat, framing: Framing, line: text, declared: nat, headers: seq<bytes>, t: Tape)
    requires IsHead(maxLen, framing, line, declared, headers)
    ensures ReadMessage(maxLen, Mode(framing, None), Then(EncodeText(line), LinesThen(headers, t))) ==
              match ReadHeaders(maxLen, 1 + |headers|, t)
              case HeadersFailed(e, lost, rest) => Read(Err(e), Mode(ContentLength, lost), rest)
              case BodyAt(rest) => ReadBody(declared, rest)
  {
    hide EncodeText, IsHeaderOf, IsTextLine, ReadMessage, ContentLengthValue, ReadHeaders, Value, AllDigits;
    var value :| IsHeaderOf(line, value) && Declares(value, declared);
    EncodedNotEmpty(value);
    DeclaredLengthExact(maxLen, EncodeText(value));
    var first := HeaderStartsFrame(maxLen, framing, line, value, LinesThen(headers, t));
    HeadersSkip(maxLen, 1, headers, t);
  }

  /** The 65th header line is one too many, whatever it says. */
  lemma TooManyHeadersIsRefused(maxLen: nat, framing: Framing, line: text, declared: nat, headers: seq<bytes>, last: bytes, rest: Tape)
    requires IsHead(maxLen, framing, line, declared, headers) && |headers| == 63
    requires IsHeader(maxLen, last, false)
    ensures IsRefused(ReadMessage(maxLen, Mode(framing, None), Then(EncodeText(line), LinesThen(headers, Then(last, rest)))),
                      TooManyHeaders, rest)
  {
    hide EncodeText, IsHead, ReadMessage, Utf8, TrimCrlf, ReadLine;
    HeadIsRead(maxLen, framing, line, declared, headers, Then(last, rest));
    LineEnds(maxLen, last, rest);
  }

  /** A header past the cap is refused after `maxLen + 1` of its bytes. */
  lemma LongHeaderIsRefused(maxLen: nat, framing: Framing, line: text, declared: nat, headers: seq<bytes>, part: bytes, rest: Tape)
    requires IsHead(maxLen, framing, line, declared, headers)
    requires |part| == maxLen + 1 && OneLine(part)
    ensures IsRefused(ReadMessage(maxLen, Mode(framing, None), Then(EncodeText(line), LinesThen(headers, Then(part, rest)))),
                      LineTooLong(maxLen + 1), rest)
  {
    hide EncodeText, IsHead, ReadMessage, ReadLine;
    HeadIsRead(maxLen, framing, line, declared, headers, Then(part, rest));
    LineOverflows(maxLen, part, rest);
  }

  /** A header that is not UTF-8 abandons the frame, so that nothing placed behind it is read. */
  lemma BadHeaderAbandons(maxLen: nat, framing: Framing, line: text, declared: nat, headers: seq<bytes>, bad: bytes, rest: Tape)
    requires IsHead(maxLen, framing, line, declared, headers)
    requires IsLine(maxLen, bad, false) && !(exists t: text :: bad == EncodeText(t))
    ensures ReadMessage(maxLen, Mode(framing, None), Then(EncodeText(line), LinesThen(headers, Then(bad, rest))))
         == Read(Err(InvalidMessage(InvalidUtf8)), Mode(ContentLength, Some(Abandoned(InvalidMessage(InvalidUtf8)))), rest)
  {
    hide EncodeText, IsHead, ReadMessage, ReadLine, Utf8;
    HeadIsRead(maxLen, framing, line, declared, headers, Then(bad, rest));
    Utf8Exactly(bad);
    LineEnds(maxLen, bad, rest);
  }

  /** A failure among the headers abandons the frame and is returned as itself. */
  lemma FailingHeaderAbandons(maxLen: nat, framing: Framing, line: text, declared: nat, headers: seq<bytes>,
                              part: bytes, kind: IoKind, after: Tape)
    requires IsHead(maxLen, framing, line, declared, headers)
    requires |part| <= maxLen && (part == [] || (OneLine(part) && part[|part| - 1] != LF))
    ensures ReadMessage(maxLen, Mode(framing, None), Then(EncodeText(line), LinesThen(headers, Tape(part, Fault(kind, after)))))
         == Read(Err(Io(kind)), Mode(ContentLength, Some(Abandoned(Io(kind)))), after)
  {
    hide EncodeText, IsHead, ReadMessage, ReadLine;
    HeadIsRead(maxLen, framing, line, declared, headers, Tape(part, Fault(kind, after)));
    LineFails(maxLen, part, kind, after);
  }

  /** What a frame's body does, past its head and blank line. */
  lemma BodyIsNext(maxLen: nat, framing: Framing, line: text, declared: nat, headers: seq<bytes>, t: Tape)
    requires IsHead(maxLen, framing, line, declared, headers) && 2 <= maxLen
    ensures ReadMessage(maxLen, Mode(framing, None), Then(EncodeText(line), LinesThen(headers, Then([CR, LF], t))))
         == ReadBody(declared, t)
  {
    hide EncodeText, IsHead, ReadMessage, ReadLine, ReadBody, TrimCrlf, Utf8;
    HeadIsRead(maxLen, framing, line, declared, headers, Then([CR, LF], t));
    CrlfIsBlankLine();
    LineEnds(maxLen, [CR, LF], t);
  }

  /** A body the end of the stream cuts short is the peer's violation; one a failure cuts short is not. */
  lemma ShortBody(maxLen: nat, framing: Framing, line: text, declared: nat, headers: seq<bytes>, part: bytes, kind: IoKind, after: Tape)
    requires IsHead(maxLen, framing, line, declared, headers) && 2 <= maxLen
    requires |part| < declared
    ensures IsRefused(ReadMessage(maxLen, Mode(framing, None),
                                  Then(EncodeText(line), LinesThen(headers, Then([CR, LF], Tape(part, Eof))))),
                      BodyShort(|part|, declared), END)
    ensures ReadMessage(maxLen, Mode(framing, None),
                        Then(EncodeText(line), LinesThen(headers, Then([CR, LF], Tape(part, Fault(kind, after))))))
         == Read(Err(Io(kind)), Mode(ContentLength, Some(BodyFailed(|part|, declared, kind))), after)
  {
    hide EncodeText, IsHead, ReadMessage;
    BodyIsNext(maxLen, framing, line, declared, headers, Tape(part, Eof));
    BodyIsNext(maxLen, framing, line, declared, headers, Tape(part, Fault(kind, after)));
  }
}
