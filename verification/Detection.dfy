/**
 Which lines are `Content-Length` headers, as text, and what the transport makes of each line.

 A header is described by the characters it may consist of. The recogniser, and the detection
 of the framing that rests on it, are proved to accept exactly that.
 */
module Detection {
  import opened Wrappers
  import opened Text
  import opened Decimal
  import opened Reader
  import opened Unicode
  import opened FrameSpec
  import opened FrameGrammar
  import opened FrameRuns
  import opened RoundTrip

  const SMALL_NAME: string := "content-length"
  const LARGE_NAME: string := "CONTENT-LENGTH"

  /** The header name: each of its 14 characters in either case. */
  predicate IsName(name: text) {
    |name| == 14 && forall i :: 0 <= i < 14 ==> name[i] == SMALL_NAME[i] as int || name[i] == LARGE_NAME[i] as int
  }

  /** White space, the name, white space: what may stand before the colon. */
  ghost predicate NamesLength(before: text) {
    exists a, name, b :: before == a + name + b && AllWhite(a) && IsName(name) && AllWhite(b)
  }

  /** White space, the value, white space: what stands after the colon. */
  ghost predicate Holds(after: text, value: text) {
    exists a, b :: after == a + value + b && AllWhite(a) && AllWhite(b) && Clean(value)
  }

  predicate SplitsAt(line: text, before: text, after: text) {
    line == before + [COLON] + after
  }

  /** The name, a colon and the value, with any white space around either. */
  ghost predicate IsHeaderOf(line: text, value: text) {
    exists before, after :: SplitsAt(line, before, after) && NamesLength(before) && Holds(after, value)
  }

  // ----- The recogniser -----

  lemma NameIsClean(name: text)
    requires IsName(name)
    ensures name != [] && Clean(name) && COLON !in name
  {
    assert SMALL_NAME[0] == 'c' && LARGE_NAME[0] == 'C' && SMALL_NAME[13] == 'h' && LARGE_NAME[13] == 'H';
    assert forall i :: 0 <= i < 14 ==> SMALL_NAME[i] as int != COLON && LARGE_NAME[i] as int != COLON;
  }

  /** Comparing bytes without case is comparing with the two spellings, letter by letter. */
  lemma NameExactly(name: text)
    ensures EqIgnoreAsciiCase(EncodeText(name), CONTENT_LENGTH) <==> IsName(name)
  {
    var b := EncodeText(name);
    if IsName(name) {
      AsciiText(name);
      forall i | 0 <= i < 14 ensures Lower(b[i]) == Lower(CONTENT_LENGTH[i]) {
        LowerExactly(b[i], i);
      }
    }
    if EqIgnoreAsciiCase(b, CONTENT_LENGTH) {
      forall i | 0 <= i < 14 ensures b[i] == SMALL_NAME[i] as int || b[i] == LARGE_NAME[i] as int {
        LowerExactly(b[i], i);
      }
      AsciiBytesAreText(name);
      AsciiText(name);
    }
  }

  lemma LowerExactly(c: byte, i: nat)
    requires i < 14
    ensures Lower(c) == Lower(CONTENT_LENGTH[i]) <==> c == SMALL_NAME[i] as int || c == LARGE_NAME[i] as int
  {}

  lemma {:induction false} AsciiBytesAreText(t: text)
    requires IsAscii(EncodeText(t))
    ensures forall i :: 0 <= i < |t| ==> t[i] < 0x80
  {
    hide EncodeScalar;
    if t != [] {
      var first, rest := EncodeScalar(t[0]), EncodeText(t[1..]);
      var s := first + rest;
      assert s[0] == first[0] && forall i :: 0 <= i < |rest| ==> rest[i] == s[|first| + i];
      AsciiScalar(t[0]);
      AsciiBytesAreText(t[1..]);
    }
  }

  lemma AsciiScalar(c: scalar)
    ensures EncodeScalar(c)[0] < 0x80 ==> c < 0x80
  {}

  lemma NamesExactly(before: text)
    ensures EqIgnoreAsciiCase(Trim(EncodeText(before)), CONTENT_LENGTH) <==> NamesLength(before)
  {
    hide Trim, EncodeText, IsName, EqIgnoreAsciiCase, AllWhite, Clean;
    var a, m, b := Strip(before);
    TrimDrops(a, m, b);
    NameExactly(m);
    forall x, name, y | before == x + name + y && AllWhite(x) && IsName(name) && AllWhite(y)
      ensures EqIgnoreAsciiCase(Trim(EncodeText(before)), CONTENT_LENGTH)
    {
      NameIsClean(name);
      TrimDrops(x, name, y);
      NameExactly(name);
    }
  }

  lemma HoldsExactly(after: text, value: text)
    ensures Trim(EncodeText(after)) == EncodeText(value) <==> Holds(after, value)
  {
    hide Trim, EncodeText, AllWhite, Clean;
    var a, m, b := Strip(after);
    TrimDrops(a, m, b);
    if EncodeText(m) == EncodeText(value) {
      EncodeInjective(m, value);
    }
    forall x, y | after == x + value + y && AllWhite(x) && AllWhite(y) && Clean(value)
      ensures Trim(EncodeText(after)) == EncodeText(value)
    {
      TrimDrops(x, value, y);
    }
  }

  lemma WhiteHasNoColon(a: text)
    requires AllWhite(a)
    ensures COLON !in a
  {}

  lemma NamesHasNoColon(before: text)
    requires NamesLength(before)
    ensures COLON !in before
  {
    var a, name, b :| before == a + name + b && AllWhite(a) && IsName(name) && AllWhite(b);
    NameIsClean(name);
  }

  /** White space around a text makes no difference to its trim. */
  lemma TrimPadded(a: text, x: text, b: text)
    requires AllWhite(a) && AllWhite(b)
    ensures Trim(EncodeText(a + x + b)) == Trim(EncodeText(x))
  {
    hide Trim, EncodeText, Clean;
    var p, m, q := Strip(x);
    TrimDrops(p, m, q);
    assert a + x + b == (a + p) + m + (q + b);
    TrimDrops(a + p, m, q + b);
  }

  /** A line is a header when what precedes its first colon is the name, and of what then follows. */
  lemma FirstColonDecides(before: text, after: text, value: text)
    requires COLON !in before
    ensures IsHeaderOf(before + [COLON] + after, value) <==> NamesLength(before) && Holds(after, value)
  {
    hide NamesLength, Holds;
    var line := before + [COLON] + after;
    if IsHeaderOf(line, value) {
      var x, y :| SplitsAt(line, x, y) && NamesLength(x) && Holds(y, value);
      NamesHasNoColon(x);
      FirstColonIsUnique(before, after, x, y);
    }
    if NamesLength(before) && Holds(after, value) {
      assert SplitsAt(line, before, after);
    }
  }

  lemma FirstColonIsUnique(a: text, b: text, x: text, y: text)
    requires COLON !in a && COLON !in x && a + [COLON] + b == x + [COLON] + y
    ensures a == x && b == y
  {
    var line := a + [COLON] + b;
    assert line[|a|] == COLON && line[|x|] == COLON;
    assert forall i :: 0 <= i < |x| ==> line[i] == x[i] != COLON;
    assert forall i :: 0 <= i < |a| ==> line[i] == a[i] != COLON;
    assert a == line[..|a|] && x == line[..|x|];
    assert b == line[|a| + 1..] && y == line[|x| + 1..];
  }

  /** Any text without a colon, or everything around its first one. */
  lemma {:induction false} SplitColon(t: text) returns (x: text, y: text)
    ensures COLON !in x
    ensures t == if COLON in t then x + [COLON] + y else x
  {
    if t == [] || t[0] == COLON {
      x, y := [], if t == [] then [] else t[1..];
    } else {
      x, y := SplitColon(t[1..]);
      x := [t[0]] + x;
      assert t == [t[0]] + t[1..];
    }
  }

  /** What is left of a line once it is trimmed, as `content_length_value` trims it. */
  lemma Trimmed(t: text) returns (a: text, m: text, b: text)
    ensures t == a + m + b && AllWhite(a) && AllWhite(b)
    ensures Trim(TrimCrlf(EncodeText(t))) == EncodeText(m)
  {
    hide Trim, TrimCrlf, EncodeText;
    var u, ending := TrimLineEnd(t);
    a, m, b := Strip(u);
    TrimDrops(a, m, b);
    b := b + ending;
  }

  /** Header recognition, exactly: a line has the header value `value` if and only if it is a header of it. */
  lemma HeaderExactly(line: text, value: text)
    ensures ContentLengthValue(EncodeText(line)) == Some(EncodeText(value)) <==> IsHeaderOf(line, value)
  {
    hide Trim, TrimCrlf, EncodeText, EqIgnoreAsciiCase, NamesLength, Holds, Find;
    var a, m, b := Trimmed(line);
    WhiteHasNoColon(a);
    WhiteHasNoColon(b);
    var inner := EncodeText(m);
    if COLON in m {
      var x, y := SplitColon(m);
      FindCharacter(x, COLON, y);
      assert line == (a + x) + [COLON] + (y + b);
      FirstColonDecides(a + x, y + b, value);
      PaddedParts(a, x, y, b);
      NamesExactly(a + x);
      HoldsExactly(y + b, value);
    } else {
      AsciiBytes(m, COLON);
      FindShape(inner, COLON);
      HeaderHasColon(line, value);
    }
  }

  lemma PaddedParts(a: text, x: text, y: text, b: text)
    requires AllWhite(a) && AllWhite(b)
    ensures Trim(EncodeText(a + x)) == Trim(EncodeText(x)) && Trim(EncodeText(y + b)) == Trim(EncodeText(y))
  {
    hide Trim, EncodeText;
    NoPadding(a + x);
    NoPadding(y);
    var none: text := [];
    TrimPadded(a, x, none);
    TrimPadded(none, y, b);
  }

  lemma NoPadding(x: text)
    ensures AllWhite([]) && x + [] == x && [] + x == x
  {}

  lemma HeaderHasColon(line: text, value: text)
    ensures IsHeaderOf(line, value) ==> COLON in line
  {}

  /** A line is recognised if and only if it is a header of something. */
  lemma RecognisedExactly(line: text)
    ensures ContentLengthValue(EncodeText(line)).Some? <==> exists value :: IsHeaderOf(line, value)
  {
    hide EncodeText, IsHeaderOf;
    if ContentLengthValue(EncodeText(line)).Some? {
      var value := ValueIsText(line);
      HeaderExactly(line, value);
    }
    forall value | IsHeaderOf(line, value) ensures ContentLengthValue(EncodeText(line)).Some? {
      HeaderExactly(line, value);
    }
  }

  lemma ValueIsText(line: text) returns (value: text)
    requires ContentLengthValue(EncodeText(line)).Some?
    ensures ContentLengthValue(EncodeText(line)) == Some(EncodeText(value))
  {
    hide Trim, TrimCrlf, EncodeText, EqIgnoreAsciiCase, Find;
    var a, m, b := Trimmed(line);
    AsciiBytes(m, COLON);
    FindShape(EncodeText(m), COLON);
    var x, y := SplitColon(m);
    FindCharacter(x, COLON, y);
    var p, inner, q := Strip(y);
    TrimDrops(p, inner, q);
    value := inner;
  }

  /** What is not recognised: no colon, or something other than the name before the first one. */
  lemma UnrecognisedExactly(line: text)
    ensures ContentLengthValue(EncodeText(line)).None? <==>
              forall before, after :: SplitsAt(line, before, after) && COLON !in before ==> !NamesLength(before)
  {
    hide EncodeText, IsHeaderOf, Holds, NamesLength;
    RecognisedExactly(line);
    forall before, after | SplitsAt(line, before, after) && COLON !in before && NamesLength(before)
      ensures exists value :: IsHeaderOf(line, value)
    {
      var a, value, b := Strip(after);
      assert Holds(after, value) by { StripHolds(a, value, b); }
      FirstColonDecides(before, after, value);
    }
    if value :| IsHeaderOf(line, value) {
      HeaderHasColon(line, value);
      var before, after := SplitColon(line);
      FirstColonDecides(before, after, value);
      assert SplitsAt(line, before, after) && COLON !in before;
    }
  }

  lemma StripHolds(a: text, value: text, b: text)
    requires AllWhite(a) && AllWhite(b) && Clean(value)
    ensures Holds(a + value + b, value)
  {}

  // ----- Detection -----

  /** A frame of the grammar opens with a header of a plain decimal within the cap, and only with that. */
  lemma OpeningExactly(maxLen: nat, line: text, last: bool, declared: nat)
    ensures IsOpening(maxLen, EncodeText(line), last, declared) <==>
              && IsLine(maxLen, EncodeText(line), last)
              && exists value :: IsHeaderOf(line, value) && Declares(value, declared) && declared <= maxLen
  {
    hide EncodeText, IsHeaderOf, IsLine, ContentLengthValue, Utf8, Value, AllDigits;
    EncodedIsUtf8(line);
    if ContentLengthValue(EncodeText(line)).Some? {
      var value := ValueIsText(line);
      HeaderExactly(line, value);
      EncodedNotEmpty(value);
      if IsOpening(maxLen, EncodeText(line), last, declared) {
        assert IsHeaderOf(line, value) && Declares(value, declared);
      }
    }
    forall value | IsHeaderOf(line, value) && Declares(value, declared)
      ensures ContentLengthValue(EncodeText(line)) == Some(EncodeText(value))
    {
      HeaderExactly(line, value);
    }
    forall value | Declares(value, declared) ensures EncodeText(value) != [] {
      EncodedNotEmpty(value);
    }
  }

  /** A plain decimal numeral. */
  predicate Declares(value: text, n: nat) {
    value != [] && AllDigits(EncodeText(value)) && Value(EncodeText(value)) == n
  }

  lemma EncodedNotEmpty(t: text)
    ensures EncodeText(t) == [] <==> t == []
  {}

  /**
   A frame is read whatever the case of its header name and whatever white space surrounds name
   and value, by a fresh transport and by one in `Content-Length` framing alike.
   */
  lemma AnyHeaderOpensAFrame(maxLen: nat, framing: Framing, line: text, value: text, headers: seq<bytes>, body: bytes, rest: Tape)
    requires maxLen <= USIZE_MAX && framing != Newline
    requires IsHeaderOf(line, value) && Declares(value, |body|) && |body| <= maxLen
    requires IsLine(maxLen, EncodeText(line), false) && 2 <= maxLen
    requires |headers| <= 63 && AreHeaders(maxLen, headers, false)
    ensures ReadMessage(maxLen, Mode(framing, None),
                        Then(EncodeText(line), LinesThen(headers, Then([CR, LF], Then(body, rest)))))
         == Read(Decoded(body), Mode(ContentLength, None), rest)
  {
    hide EncodeText, IsHeaderOf, IsOpening, ReadMessage, Declares, TrimCrlf, Utf8;
    OpeningExactly(maxLen, line, false, |body|);
    CrlfIsBlankLine();
    FrameComplete(maxLen, framing, Frame(EncodeText(line), headers, [CR, LF], body), rest);
  }

  /** A terminated line within the cap, given as text. */
  ghost predicate IsTextLine(maxLen: nat, line: text) {
    IsLine(maxLen, EncodeText(line), false)
  }

  /** A header makes the reader read a frame, in either framing that admits one. */
  lemma HeaderStartsFrame(maxLen: nat, framing: Framing, line: text, value: text, rest: Tape) returns (first: bytes)
    requires framing != Newline && IsTextLine(maxLen, line) && IsHeaderOf(line, value)
    ensures ContentLengthValue(first) == Some(EncodeText(value))
    ensures ReadMessage(maxLen, Mode(framing, None), Then(EncodeText(line), rest)) == ReadFrame(maxLen, first, rest)
  {
    hide EncodeText, IsHeaderOf, ReadLine, ContentLengthValue, Utf8, TrimCrlf, ReadFrame, Trim;
    var s := EncodeText(line);
    EncodedIsUtf8(line);
    HeaderExactly(line, value);
    TrimCrlfTwice(s);
    OpeningNotBlank(s);
    LineEnds(maxLen, s, rest);
    first := if framing == Auto then TrimCrlf(s) else s;
  }

  /**
   A header on the first line is never a message, nor part of one. What is returned in its stead is
   a body of the declared length, past at most 63 more headers and a blank line; and a value that
   is no plain decimal within the cap loses framing.
   */
  lemma HeaderIsNoMessage(maxLen: nat, framing: Framing, line: text, value: text, rest: Tape)
    requires maxLen <= USIZE_MAX && framing != Newline && IsTextLine(maxLen, line) && IsHeaderOf(line, value)
    ensures var r := ReadMessage(maxLen, Mode(framing, None), Then(EncodeText(line), rest));
            && r.mode.framing == ContentLength
            && (r.result.Ok? ==>
                  exists headers, blank :: rest == LinesThen(headers, Then(blank, Then(r.result.value, r.rest)))
                    && |headers| <= 63 && AreHeaders(maxLen, headers, false) && TrimCrlf(blank) == []
                    && Declares(value, |r.result.value|) && |r.result.value| <= maxLen)
            && ((forall n: nat :: Declares(value, n) ==> n > maxLen) ==> r.result.Err? && r.mode.desync.Some?)
  {
    hide EncodeText, IsHeaderOf, IsTextLine, ReadMessage, ContentLengthValue, Utf8, TrimCrlf, ReadLine;
    var v := EncodeText(value);
    EncodedNotEmpty(value);
    DeclaredLengthExact(maxLen, v);
    if AllDigits(v) && value != [] {
      assert Declares(value, Value(v));
    }
    var first := HeaderStartsFrame(maxLen, framing, line, value, rest);
    var r := ReadFrame(maxLen, first, rest);
    if r.result.Ok? {
      var after := ReadHeaders(maxLen, 1, rest).rest;
      var headers, blank := HeadersSound(maxLen, 1, rest, after);
      var body := BodySound(DeclaredLength(maxLen, v).value, after);
      assert body == r.result.value;
    }
  }

  /**
   Detection, exactly. A fresh transport skips a line of white space; takes a line for a header,
   and never for a message, if and only if it is one; and returns any other line, without its
   line ending, as a message, and is then in newline framing.
   */
  lemma DetectionExactly(maxLen: nat, line: text, rest: Tape)
    requires maxLen <= USIZE_MAX && IsLine(maxLen, EncodeText(line), rest == END)
    ensures var r := ReadMessage(maxLen, Mode(Auto, None), Then(EncodeText(line), rest));
            && (AllWhite(line) ==> r == ReadMessage(maxLen, Mode(Auto, None), rest))
            && ((exists value :: IsHeaderOf(line, value)) ==> r.mode.framing == ContentLength)
            && (!AllWhite(line) && !(exists value :: IsHeaderOf(line, value)) ==>
                  exists body, ending :: line == body + ending && IsLineEnding(ending)
                    && (body == [] || body[|body| - 1] !in {CR, LF})
                    && r == Read(Ok(EncodeText(body)), Mode(Newline, None), rest))
  {
    hide EncodeText, IsHeaderOf, TrimCrlf, Utf8, ContentLengthValue, ReadLine, ReadFrame, Trim, ReadMessage;
    var s := EncodeText(line);
    LineEnds(maxLen, s, rest);
    EncodedIsUtf8(line);
    RecognisedExactly(line);
    var body, ending := TrimLineEnd(line);
    BlankExactly(body);
    EndingIsWhite(body, ending);
    if AllWhite(line) {
      WhiteIsNoHeader(line);
    }
    if ContentLengthValue(s).Some? {
      HeaderIsNeverAMessage(maxLen, Then(s, rest), s, rest);
    } else {
      TrimCrlfTwice(s);
      PlainLine(maxLen, s, rest);
    }
  }

  lemma WhiteIsNoHeader(line: text)
    requires AllWhite(line)
    ensures forall value :: !IsHeaderOf(line, value)
  {
    hide AllWhite;
    WhiteHasNoColon(line);
  }

  predicate IsLineEnding(ending: text) {
    forall i :: 0 <= i < |ending| ==> ending[i] in {CR, LF}
  }

  lemma EndingIsWhite(body: text, ending: text)
    requires IsLineEnding(ending)
    ensures AllWhite(body + ending) <==> AllWhite(body)
  {
    assert forall i :: 0 <= i < |body| ==> (body + ending)[i] == body[i];
  }

  lemma PlainLine(maxLen: nat, line: bytes, rest: Tape)
    requires ReadLine(maxLen, Then(line, rest)) == LineRead(Ok(line), None, rest)
    requires ContentLengthValue(TrimCrlf(line)).None?
    ensures ReadMessage(maxLen, Mode(Auto, None), Then(line, rest)) ==
              if Blank(TrimCrlf(line)) then ReadMessage(maxLen, Mode(Auto, None), rest)
              else Read(Ok(TrimCrlf(line)), Mode(Newline, None), rest)
  {
    hide Utf8, TrimCrlf, ReadLine, ContentLengthValue, Trim;
  }

  /** In newline framing every line is a message, header or not: what precedes its line ending. */
  lemma NewlineExactly(maxLen: nat, body: text, ending: text, rest: Tape)
    requires IsLine(maxLen, EncodeText(body + ending), rest == END)
    requires IsLineEnding(ending) && (body == [] || body[|body| - 1] !in {CR, LF})
    ensures ReadMessage(maxLen, Mode(Newline, None), Then(EncodeText(body + ending), rest))
         == Read(Ok(EncodeText(body)), Mode(Newline, None), rest)
  {
    hide EncodeText, TrimCrlf, Utf8, ReadLine;
    EncodedIsUtf8(body + ending);
    LineEndDrops(body, ending);
    LineEnds(maxLen, EncodeText(body + ending), rest);
  }

  /** What the first message must be for newline framing to be detected: neither blank nor a header. */
  lemma AnnouncesExactly(m: text)
    ensures Announces(Newline, EncodeText(m)) <==> !AllWhite(m) && !(exists value :: IsHeaderOf(m, value))
  {
    hide EncodeText, IsHeaderOf, ContentLengthValue, Trim;
    BlankExactly(m);
    RecognisedExactly(m);
  }
}
