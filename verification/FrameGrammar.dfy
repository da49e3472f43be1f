/**
 A declarative grammar of the wire, and its equivalence with the frame reader.

 A stream is a sequence of units. A unit is something a reader that keeps its place consumes
 whole: a newline-terminated line, a complete `Content-Length` frame, a header block the end
 of the stream cuts off, a failure between lines, or the end itself. The main results say
 that the reader leaves framing intact exactly when it has consumed whole units, and that it
 then returned exactly what those units hold.
 */
module FrameGrammar {
  import opened Wrappers
  import opened Text
  import opened Reader
  import opened Decimal
  import opened FrameSpec

  datatype Core =
    | TextLine(line: bytes)
    | Frame(open: bytes, headers: seq<bytes>, blank: bytes, body: bytes)
    | Cut(declared: nat, open: bytes, headers: seq<bytes>)
    | Hiccup(kind: IoKind)
    | End

  /** `lead` holds the blank lines skipped before framing is decided. */
  datatype Unit = Unit(lead: seq<bytes>, core: Core)

  // Tapes are built around what follows, so that peeling a line off the front is one unfolding.

  function LinesThen(lines: seq<bytes>, rest: Tape): Tape {
    if lines == [] then rest else Then(lines[0], LinesThen(lines[1..], rest))
  }

  function CoreThen(c: Core, rest: Tape): Tape {
    match c
    case TextLine(line) => Then(line, rest)
    case Frame(open, headers, blank, body) => Then(open, LinesThen(headers, Then(blank, Then(body, rest))))
    case Cut(_, open, headers) => Then(open, LinesThen(headers, rest))
    case Hiccup(kind) => Tape([], Fault(kind, rest))
    case End => rest
  }

  function UnitThen(u: Unit, rest: Tape): Tape {
    LinesThen(u.lead, CoreThen(u.core, rest))
  }

  // ----- Well-formedness -----

  /** A line within the cap, ended by its only newline or, when it is the last thing there is, by the stream. */
  ghost predicate IsLine(maxLen: nat, line: bytes, last: bool) {
    && |line| <= maxLen && OneLine(line)
    && (last || line[|line| - 1] == LF)
  }

  ghost predicate IsBlankLine(maxLen: nat, line: bytes, last: bool) {
    IsLine(maxLen, line, last) && Utf8(line) && Blank(TrimCrlf(line))
  }

  /** A header line of a frame, which is not the blank line that ends the header block. */
  ghost predicate IsHeader(maxLen: nat, line: bytes, last: bool) {
    IsLine(maxLen, line, last) && Utf8(line) && TrimCrlf(line) != []
  }

  ghost predicate AreHeaders(maxLen: nat, lines: seq<bytes>, last: bool) {
    lines != [] ==>
      && IsHeader(maxLen, lines[0], last && |lines| == 1)
      && AreHeaders(maxLen, lines[1..], last)
  }

  /** A line that opens a frame of `declared` body bytes: its value is a plain decimal within the cap. */
  ghost predicate IsOpening(maxLen: nat, line: bytes, last: bool, declared: nat) {
    && IsLine(maxLen, line, last) && Utf8(line)
    && var value := ContentLengthValue(line);
    && value.Some?
    && value.value != [] && AllDigits(value.value)
    && Value(value.value) == declared <= maxLen
  }

  ghost predicate CoreOk(maxLen: nat, framing: Framing, c: Core, rest: Tape) {
    match c
    case TextLine(line) =>
      && framing != ContentLength
      && IsLine(maxLen, line, rest == END)
      && (framing == Auto && Utf8(line) ==> !Blank(TrimCrlf(line)) && ContentLengthValue(line).None?)
    case Frame(open, headers, blank, body) =>
      && framing != Newline
      && IsOpening(maxLen, open, false, |body|)
      && |headers| <= 63 && AreHeaders(maxLen, headers, false)
      && IsLine(maxLen, blank, body == [] && rest == END) && TrimCrlf(blank) == []
    case Cut(declared, open, headers) =>
      && framing != Newline && rest == END
      && IsOpening(maxLen, open, headers == [], declared)
      && |headers| <= 63 && AreHeaders(maxLen, headers, true)
    case Hiccup(kind) => framing != ContentLength
    case End => rest == END
  }

  ghost predicate UnitOk(maxLen: nat, framing: Framing, u: Unit, rest: Tape)
    decreases |u.lead|
  {
    if u.lead == [] then CoreOk(maxLen, framing, u.core, rest)
    else
      var tail := u.(lead := u.lead[1..]);
      && framing == Auto
      && IsBlankLine(maxLen, u.lead[0], UnitThen(tail, rest) == END)
      && UnitOk(maxLen, framing, tail, rest)
  }

  // ----- Meaning -----

  /** What a unit yields. */
  function Outcome(c: Core): Result<bytes, Error> {
    match c
    case TextLine(line) => if Utf8(line) then Ok(TrimCrlf(line)) else Err(InvalidMessage(InvalidUtf8))
    case Frame(_, _, _, body) => Decoded(body)
    case Cut(_, _, _) => Err(ConnectionClosed)
    case Hiccup(kind) => Err(Io(kind))
    case End => Err(ConnectionClosed)
  }

  /** The framing in force after a unit. */
  function FramingAfter(framing: Framing, c: Core): Framing {
    match c
    case TextLine(line) => if Utf8(line) then Newline else framing
    case Frame(_, _, _, _) => ContentLength
    case Cut(_, _, _) => ContentLength
    case _ => framing
  }

  predicate StartsBlank(maxLen: nat, framing: Framing, t: Tape) {
    var line := ReadLine(maxLen, t);
    framing == Auto && line.result.Ok? && Blank(TrimCrlf(line.result.value))
  }

  /** Where the reader stands once blank lines it would skip are skipped. */
  function SkipBlanks(maxLen: nat, framing: Framing, t: Tape): (r: Tape)
    decreases Size(t)
  {
    ReadLineShrinks(maxLen, t);
    if StartsBlank(maxLen, framing, t) then SkipBlanks(maxLen, framing, ReadLine(maxLen, t).rest) else t
  }

  /** A failure strikes outside `Content-Length` framing when part of a line has been consumed. */
  predicate TornLine(maxLen: nat, framing: Framing, t: Tape) {
    var u := SkipBlanks(maxLen, framing, t);
    && framing != ContentLength
    && u.stop.Fault? && 0 < |u.run| <= maxLen && LF !in u.run
  }

  // ----- From units to reads -----

  lemma TrimCrlfTwice(line: bytes)
    ensures TrimCrlf(TrimCrlf(line)) == TrimCrlf(line)
    ensures ContentLengthValue(TrimCrlf(line)) == ContentLengthValue(line)
  {
    TrimCrlfShape(line);
  }

  lemma LineTrimsToNothing(line: bytes)
    requires TrimCrlf(line) == []
    ensures Utf8(line)
  {
    TrimCrlfShape(line);
    assert IsAscii(line);
    AsciiIsUtf8(line);
  }

  lemma LineAtEnd(maxLen: nat)
    ensures ReadLine(maxLen, END) == LineRead(Err(ConnectionClosed), None, END)
  {}

  lemma {:induction false} HeadersComplete(maxLen: nat, lines: nat, headers: seq<bytes>, t: Tape, blank: bytes, rest: Tape)
    requires AreHeaders(maxLen, headers, false) && lines + |headers| <= MAX_HEADER_LINES
    requires ReadLine(maxLen, t) == LineRead(Ok(blank), None, rest) && TrimCrlf(blank) == []
    ensures ReadHeaders(maxLen, lines, LinesThen(headers, t)) == BodyAt(rest)
    decreases |headers|
  {
    hide Utf8, TrimCrlf, ReadLine;
    if headers != [] {
      LineEnds(maxLen, headers[0], LinesThen(headers[1..], t));
      HeadersComplete(maxLen, lines + 1, headers[1..], t, blank, rest);
    }
  }

  lemma {:induction false} HeadersCut(maxLen: nat, lines: nat, headers: seq<bytes>)
    requires AreHeaders(maxLen, headers, true) && lines + |headers| <= MAX_HEADER_LINES
    ensures ReadHeaders(maxLen, lines, LinesThen(headers, END)) == HeadersFailed(ConnectionClosed, None, END)
    decreases |headers|
  {
    hide Utf8, TrimCrlf, ReadLine;
    LineAtEnd(maxLen);
    if headers != [] {
      LineEnds(maxLen, headers[0], LinesThen(headers[1..], END));
      HeadersCut(maxLen, lines + 1, headers[1..]);
    }
  }

  /** An opening line is recognised with or without its line ending, and never as blank. */
  lemma OpeningIsRead(maxLen: nat, open: bytes, last: bool, declared: nat)
    requires maxLen <= USIZE_MAX
    requires IsOpening(maxLen, open, last, declared)
    ensures ContentLengthValue(TrimCrlf(open)) == ContentLengthValue(open)
    ensures DeclaredLength(maxLen, ContentLengthValue(open).value) == Ok(declared)
    ensures !Blank(TrimCrlf(open))
  {
    TrimCrlfTwice(open);
    DeclaredLengthExact(maxLen, ContentLengthValue(open).value);
  }

  /** A line that opens a frame makes the reader read that frame, in either framing that admits one. */
  lemma OpeningComplete(maxLen: nat, framing: Framing, open: bytes, declared: nat, rest: Tape)
    requires maxLen <= USIZE_MAX
    requires framing != Newline && IsOpening(maxLen, open, rest == END, declared)
    ensures exists first :: ContentLengthValue(first) == ContentLengthValue(open)
              && ReadMessage(maxLen, Mode(framing, None), Then(open, rest)) == ReadFrame(maxLen, first, rest)
  {
    hide Utf8, TrimCrlf, ReadLine, ContentLengthValue;
    OpeningIsRead(maxLen, open, rest == END, declared);
    LineEnds(maxLen, open, rest);
    var first := if framing == Auto then TrimCrlf(open) else open;
    assert ReadMessage(maxLen, Mode(framing, None), Then(open, rest)) == ReadFrame(maxLen, first, rest);
  }

  lemma FrameComplete(maxLen: nat, framing: Framing, c: Core, rest: Tape)
    requires maxLen <= USIZE_MAX
    requires c.Frame? && CoreOk(maxLen, framing, c, rest)
    ensures ReadMessage(maxLen, Mode(framing, None), CoreThen(c, rest))
         == Read(Decoded(c.body), Mode(ContentLength, None), rest)
  {
    hide Utf8, TrimCrlf, ReadLine, ContentLengthValue;
    var body := Then(c.body, rest);
    var t := LinesThen(c.headers, Then(c.blank, body));
    OpeningComplete(maxLen, framing, c.open, |c.body|, t);
    OpeningIsRead(maxLen, c.open, false, |c.body|);
    LineTrimsToNothing(c.blank);
    LineEnds(maxLen, c.blank, body);
    HeadersComplete(maxLen, 1, c.headers, Then(c.blank, body), c.blank, body);
    BodyArrives(c.body, rest);
  }

  lemma CutComplete(maxLen: nat, framing: Framing, c: Core)
    requires maxLen <= USIZE_MAX
    requires c.Cut? && CoreOk(maxLen, framing, c, END)
    ensures ReadMessage(maxLen, Mode(framing, None), CoreThen(c, END))
         == Read(Err(ConnectionClosed), Mode(ContentLength, None), END)
  {
    hide Utf8, TrimCrlf, ReadLine, ContentLengthValue;
    var t := LinesThen(c.headers, END);
    OpeningComplete(maxLen, framing, c.open, c.declared, t);
    OpeningIsRead(maxLen, c.open, c.headers == [], c.declared);
    HeadersCut(maxLen, 1, c.headers);
  }

  /** The reader consumes exactly the core of a unit and yields what it holds. */
  lemma CoreComplete(maxLen: nat, framing: Framing, c: Core, rest: Tape)
    requires maxLen <= USIZE_MAX
    requires CoreOk(maxLen, framing, c, rest)
    ensures ReadMessage(maxLen, Mode(framing, None), CoreThen(c, rest))
         == Read(Outcome(c), Mode(FramingAfter(framing, c), None), rest)
  {
    match c
    case TextLine(line) =>
      LineEnds(maxLen, line, rest);
      TrimCrlfTwice(line);
    case Frame(_, _, _, _) => FrameComplete(maxLen, framing, c, rest);
    case Cut(_, _, _) => CutComplete(maxLen, framing, c);
    case Hiccup(kind) => LineFails(maxLen, [], kind, rest);
    case End =>
  }

  /** Skipping blank lines does not change what the next read does. */
  lemma {:induction false} UnitComplete(maxLen: nat, framing: Framing, u: Unit, rest: Tape)
    requires maxLen <= USIZE_MAX
    requires UnitOk(maxLen, framing, u, rest)
    ensures ReadMessage(maxLen, Mode(framing, None), UnitThen(u, rest))
         == Read(Outcome(u.core), Mode(FramingAfter(framing, u.core), None), rest)
    decreases |u.lead|
  {
    if u.lead == [] {
      CoreComplete(maxLen, framing, u.core, rest);
    } else {
      var tail := u.(lead := u.lead[1..]);
      UnitComplete(maxLen, framing, tail, rest);
      LineEnds(maxLen, u.lead[0], UnitThen(tail, rest));
    }
  }

  lemma {:induction false} LinesKeepStop(lines: seq<bytes>, rest: Tape)
    ensures LinesThen(lines, rest).stop == rest.stop
  {
    if lines != [] {
      LinesKeepStop(lines[1..], rest);
    }
  }

  /** A line that is really there is not torn. */
  lemma CoreNotTorn(maxLen: nat, framing: Framing, c: Core, rest: Tape)
    requires CoreOk(maxLen, framing, c, rest)
    ensures !TornLine(maxLen, framing, CoreThen(c, rest))
  {
    hide Utf8, TrimCrlf, ReadLine, ContentLengthValue, Trim;
    if framing != ContentLength {
      match c
      case TextLine(line) =>
        TrimCrlfTwice(line);
        LineEnds(maxLen, line, rest);
        WholeLineNotTorn(maxLen, framing, line, rest);
      case Frame(open, headers, blank, body) =>
        var after := LinesThen(headers, Then(blank, Then(body, rest)));
        LineEnds(maxLen, open, after);
        OpeningNotBlank(open);
        WholeLineNotTorn(maxLen, framing, open, after);
      case Cut(_, open, headers) =>
        LineEnds(maxLen, open, LinesThen(headers, rest));
        OpeningNotBlank(open);
        LinesKeepStop(headers, rest);
        WholeLineNotTorn(maxLen, framing, open, LinesThen(headers, rest));
      case Hiccup(kind) =>
        LineFails(maxLen, [], kind, rest);
      case End =>
        LineAtEnd(maxLen);
    }
  }

  lemma WholeLineNotTorn(maxLen: nat, framing: Framing, line: bytes, rest: Tape)
    requires line != [] && (line[|line| - 1] == LF || rest.stop == Eof)
    requires !StartsBlank(maxLen, framing, Then(line, rest))
    ensures !TornLine(maxLen, framing, Then(line, rest))
  {
    hide StartsBlank;
    assert line[|line| - 1] in Then(line, rest).run;
  }

  lemma OpeningNotBlank(open: bytes)
    requires ContentLengthValue(open).Some?
    ensures !Blank(TrimCrlf(open))
  {
    TrimCrlfTwice(open);
  }

  lemma {:induction false} UnitNotTorn(maxLen: nat, framing: Framing, u: Unit, rest: Tape)
    requires UnitOk(maxLen, framing, u, rest)
    ensures !TornLine(maxLen, framing, UnitThen(u, rest))
    decreases |u.lead|
  {
    if u.lead == [] {
      CoreNotTorn(maxLen, framing, u.core, rest);
    } else {
      var tail := u.(lead := u.lead[1..]);
      UnitNotTorn(maxLen, framing, tail, rest);
      LineEnds(maxLen, u.lead[0], UnitThen(tail, rest));
    }
  }

  // ----- From reads to units -----

  /** A line that was read whole is a line of the grammar. */
  lemma LineSound(maxLen: nat, t: Tape) returns (line: bytes)
    requires ReadLine(maxLen, t).result.Ok? || ReadLine(maxLen, t).result == Err(InvalidMessage(InvalidUtf8))
    ensures var r := ReadLine(maxLen, t);
            && t == Then(line, r.rest) && IsLine(maxLen, line, r.rest == END)
            && r.result == Decoded(line) && r.lost == None
  {
    ExtentShape(t.run);
    var k := Extent(t.run);
    line := t.run[..k];
    assert t.run == line + t.run[k..];
  }

  /** A failure is reported when only part of a line precedes it. */
  lemma FailureSound(maxLen: nat, t: Tape)
    requires ReadLine(maxLen, t).result.Err? && ReadLine(maxLen, t).result.error.Io?
    ensures LF !in t.run && |t.run| <= maxLen
    ensures t.stop == Fault(ReadLine(maxLen, t).result.error.kind, ReadLine(maxLen, t).rest)
  {
    ExtentShape(t.run);
    var k := Extent(t.run);
    assert t.run[..k] == t.run;
    OneLineIs(t.run);
    if k > 0 {
      assert t.run == t.run[..k - 1] + [t.run[k - 1]];
    }
  }

  lemma {:induction false} HeadersSound(maxLen: nat, lines: nat, t: Tape, rest: Tape)
    returns (headers: seq<bytes>, blank: bytes)
    requires lines <= MAX_HEADER_LINES && ReadHeaders(maxLen, lines, t) == BodyAt(rest)
    ensures AreHeaders(maxLen, headers, false) && lines + |headers| <= MAX_HEADER_LINES
    ensures IsLine(maxLen, blank, rest == END) && TrimCrlf(blank) == []
    ensures t == LinesThen(headers, Then(blank, rest))
    decreases Size(t)
  {
    hide Utf8, TrimCrlf;
    ReadLineShrinks(maxLen, t);
    var line := LineSound(maxLen, t);
    if TrimCrlf(line) == [] {
      headers, blank := [], line;
    } else {
      headers, blank := HeadersSound(maxLen, lines + 1, ReadLine(maxLen, t).rest, rest);
      headers := [line] + headers;
    }
  }

  lemma {:induction false} HeadersCutSound(maxLen: nat, lines: nat, t: Tape) returns (headers: seq<bytes>)
    requires lines <= MAX_HEADER_LINES
    requires ReadHeaders(maxLen, lines, t).HeadersFailed? && ReadHeaders(maxLen, lines, t).lost == None
    ensures ReadHeaders(maxLen, lines, t) == HeadersFailed(ConnectionClosed, None, END)
    ensures AreHeaders(maxLen, headers, true) && lines + |headers| <= MAX_HEADER_LINES
    ensures t == LinesThen(headers, END)
    ensures headers == [] <==> t == END
    decreases Size(t)
  {
    hide Utf8, TrimCrlf;
    ReadLineShrinks(maxLen, t);
    if ReadLine(maxLen, t).result.Ok? {
      var line := LineSound(maxLen, t);
      headers := HeadersCutSound(maxLen, lines + 1, ReadLine(maxLen, t).rest);
      headers := [line] + headers;
    } else {
      headers := [];
    }
  }

  /** A frame the reader finishes, or that only the end of the stream stops, is a unit. */
  lemma FrameSound(maxLen: nat, framing: Framing, open: bytes, first: bytes, t: Tape, r: Read) returns (c: Core)
    requires maxLen <= USIZE_MAX && framing != Newline
    requires IsLine(maxLen, open, t == END) && Utf8(open)
    requires ContentLengthValue(first) == ContentLengthValue(open)
    requires r == ReadFrame(maxLen, first, t) && r.mode.desync == None
    ensures CoreOk(maxLen, framing, c, r.rest) && Then(open, t) == CoreThen(c, r.rest)
    ensures r.result == Outcome(c) && r.mode.framing == FramingAfter(framing, c)
  {
    var value := ContentLengthValue(open).value;
    DeclaredLengthExact(maxLen, value);
    var declared := DeclaredLength(maxLen, value).value;
    match ReadHeaders(maxLen, 1, t)
    case HeadersFailed(_, _, _) =>
      var headers := HeadersCutSound(maxLen, 1, t);
      c := Cut(declared, open, headers);
    case BodyAt(after) =>
      var headers, blank := HeadersSound(maxLen, 1, t, after);
      var body := BodySound(declared, after);
      c := Frame(open, headers, blank, body);
  }

  lemma BodySound(declared: nat, t: Tape) returns (body: bytes)
    requires ReadBody(declared, t).mode.desync == None
    ensures var rest := ReadBody(declared, t).rest;
            && |body| == declared && t == Then(body, rest)
            && ReadBody(declared, t) == Read(Decoded(body), Mode(ContentLength, None), rest)
  {
    body := t.run[..declared];
    assert t.run == body + t.run[declared..];
  }

  /** The same, past any blank lines. */
  lemma CoreSound(maxLen: nat, framing: Framing, t: Tape, r: Read) returns (c: Core)
    requires maxLen <= USIZE_MAX
    requires r == ReadMessage(maxLen, Mode(framing, None), t)
    requires r.mode.desync == None && !TornLine(maxLen, framing, t) && !StartsBlank(maxLen, framing, t)
    ensures CoreOk(maxLen, framing, c, r.rest) && t == CoreThen(c, r.rest)
    ensures r.result == Outcome(c) && r.mode.framing == FramingAfter(framing, c)
  {
    var lr := ReadLine(maxLen, t);
    if lr.result == Err(ConnectionClosed) {
      c := End;
    } else if lr.result.Err? && lr.result.error.Io? {
      FailureSound(maxLen, t);
      c := Hiccup(lr.result.error.kind);
    } else {
      var line := LineSound(maxLen, t);
      TrimCrlfTwice(line);
      if lr.result.Ok? && framing != Newline && (framing == ContentLength || ContentLengthValue(line).Some?) {
        var first := if framing == Auto then TrimCrlf(line) else line;
        c := FrameSound(maxLen, framing, line, first, lr.rest, r);
      } else {
        c := TextLine(line);
      }
    }
  }

  /** A read that keeps its place consumed one whole unit and returned what it holds. */
  lemma {:induction false} UnitSound(maxLen: nat, framing: Framing, t: Tape, r: Read) returns (u: Unit)
    requires maxLen <= USIZE_MAX
    requires r == ReadMessage(maxLen, Mode(framing, None), t)
    requires r.mode.desync == None && !TornLine(maxLen, framing, t)
    ensures UnitOk(maxLen, framing, u, r.rest) && t == UnitThen(u, r.rest)
    ensures r.result == Outcome(u.core) && r.mode.framing == FramingAfter(framing, u.core)
    decreases Size(t)
  {
    ReadLineShrinks(maxLen, t);
    if StartsBlank(maxLen, framing, t) {
      var line := LineSound(maxLen, t);
      var tail := UnitSound(maxLen, framing, ReadLine(maxLen, t).rest, r);
      u := Unit([line] + tail.lead, tail.core);
      assert u.lead[1..] == tail.lead;
    } else {
      var c := CoreSound(maxLen, framing, t, r);
      u := Unit([], c);
    }
  }

  /**
   Reader and grammar agree: a read leaves framing intact, without tearing a line, exactly
   when it consumed one whole unit; and then the message or error, the framing and the
   position are those of that unit.
   */
  lemma ReadIsUnit(maxLen: nat, framing: Framing, t: Tape, r: Read)
    requires maxLen <= USIZE_MAX
    ensures (r == ReadMessage(maxLen, Mode(framing, None), t) && r.mode.desync == None && !TornLine(maxLen, framing, t))
       <==> (exists u :: UnitOk(maxLen, framing, u, r.rest) && t == UnitThen(u, r.rest)
              && r == Read(Outcome(u.core), Mode(FramingAfter(framing, u.core), None), r.rest))
  {
    if r == ReadMessage(maxLen, Mode(framing, None), t) && r.mode.desync == None && !TornLine(maxLen, framing, t) {
      var u := UnitSound(maxLen, framing, t, r);
    }
    forall u | UnitOk(maxLen, framing, u, r.rest) && t == UnitThen(u, r.rest)
      ensures !TornLine(maxLen, framing, t)
      ensures ReadMessage(maxLen, Mode(framing, None), t)
           == Read(Outcome(u.core), Mode(FramingAfter(framing, u.core), None), r.rest)
    {
      UnitComplete(maxLen, framing, u, r.rest);
      UnitNotTorn(maxLen, framing, u, r.rest);
    }
  }

  /** A unit starts here: somewhere ahead the stream has a frame boundary. */
  ghost predicate UnitAhead(maxLen: nat, framing: Framing, t: Tape) {
    exists u, rest :: UnitOk(maxLen, framing, u, rest) && t == UnitThen(u, rest)
  }

  /** The transport gives framing up exactly when what lies ahead is not a unit of the grammar. */
  lemma LostExactlyOffGrammar(maxLen: nat, framing: Framing, t: Tape)
    requires maxLen <= USIZE_MAX && !TornLine(maxLen, framing, t)
    ensures ReadMessage(maxLen, Mode(framing, None), t).mode.desync.Some? <==> !UnitAhead(maxLen, framing, t)
  {
    hide UnitOk, UnitThen, ReadMessage, TornLine;
    var r := ReadMessage(maxLen, Mode(framing, None), t);
    ReadIsUnit(maxLen, framing, t, r);
    if UnitAhead(maxLen, framing, t) {
      var u, rest :| UnitOk(maxLen, framing, u, rest) && t == UnitThen(u, rest);
      UnitComplete(maxLen, framing, u, rest);
    }
  }

  /** Framing is unambiguous: no stream starts with two different units. */
  lemma UnitsDoNotOverlap(maxLen: nat, framing: Framing, u1: Unit, rest1: Tape, u2: Unit, rest2: Tape)
    requires maxLen <= USIZE_MAX
    requires UnitOk(maxLen, framing, u1, rest1) && UnitOk(maxLen, framing, u2, rest2)
    requires UnitThen(u1, rest1) == UnitThen(u2, rest2)
    ensures rest1 == rest2 && Outcome(u1.core) == Outcome(u2.core)
    ensures FramingAfter(framing, u1.core) == FramingAfter(framing, u2.core)
  {
    UnitComplete(maxLen, framing, u1, rest1);
    UnitComplete(maxLen, framing, u2, rest2);
  }
}
