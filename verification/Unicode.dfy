/**
 Text as characters: what the operations on bytes mean for the text the bytes encode.

 UTF-8 is given here by its encoder (RFC 3629, section 3), and trimming by dropping
 characters. The byte-level validity test and trims of `Text` are proved to agree with both.
 */
module Unicode {
  import opened Wrappers
  import opened Text

  /** A Unicode scalar value: any code point but a surrogate. */
  type scalar = c: int | 0 <= c < 0xD800 || 0xE000 <= c < 0x110000

  type text = seq<scalar>

  function EncodeScalar(c: scalar): (b: bytes)
    ensures 1 <= |b| <= 4
  {
    if c < 0x80 then [c]
    else if c < 0x800 then [0xC0 + c / 0x40, 0x80 + c % 0x40]
    else if c < 0x10000 then [0xE0 + c / 0x1000, 0x80 + c / 0x40 % 0x40, 0x80 + c % 0x40]
    else [0xF0 + c / 0x40000, 0x80 + c / 0x1000 % 0x40, 0x80 + c / 0x40 % 0x40, 0x80 + c % 0x40]
  }

  function EncodeText(t: text): bytes {
    if t == [] then [] else EncodeScalar(t[0]) + EncodeText(t[1..])
  }

  lemma {:induction false} EncodeConcat(a: text, b: text)
    ensures EncodeText(a + b) == EncodeText(a) + EncodeText(b)
    decreases |a|
  {
    hide EncodeScalar;
    if a == [] {
      assert a + b == b;
    } else {
      assert (a + b)[1..] == a[1..] + b;
      EncodeConcat(a[1..], b);
    }
  }

  lemma EncodeOneScalar(c: scalar)
    ensures EncodeText([c]) == EncodeScalar(c)
  {
    hide EncodeScalar;
    var one: text := [c];
    assert one[0] == c && one[1..] == [];
    assert EncodeText([]) == [];
    assert EncodeScalar(c) + [] == EncodeScalar(c);
  }

  // ----- Validity -----

  lemma EncodedCharLen(c: scalar, rest: bytes)
    ensures CharLen(EncodeScalar(c) + rest) == |EncodeScalar(c)|
  {}

  /** Every well-formed sequence starts with the encoding of a character. */
  lemma FirstScalar(s: bytes) returns (c: scalar)
    requires CharLen(s) > 0
    ensures EncodeScalar(c) == s[..CharLen(s)]
  {
    var n := CharLen(s);
    var lead: int := s[0];
    if n == 1 {
      c := lead;
    } else if n == 2 {
      c := TwoBytes(lead - 0xC0, s[1] as int - 0x80);
    } else if n == 3 {
      c := ThreeBytes(lead - 0xE0, s[1] as int - 0x80, s[2] as int - 0x80);
    } else {
      c := FourBytes(lead - 0xF0, s[1] as int - 0x80, s[2] as int - 0x80, s[3] as int - 0x80);
    }
  }

  lemma TwoBytes(a: int, b: int) returns (c: scalar)
    requires 2 <= a < 0x20 && 0 <= b < 0x40
    ensures EncodeScalar(c) == [0xC0 + a, 0x80 + b]
  {
    c := a * 0x40 + b;
  }

  lemma ThreeBytes(a: int, b: int, d: int) returns (c: scalar)
    requires 0 <= a < 0x10 && 0 <= b < 0x40 && 0 <= d < 0x40
    requires (a == 0 ==> 0x20 <= b) && (a == 0xD ==> b < 0x20)
    ensures EncodeScalar(c) == [0xE0 + a, 0x80 + b, 0x80 + d]
  {
    var code := a * 0x1000 + b * 0x40 + d;
    assert code / 0x40 == a * 0x40 + b;
    assert code / 0x1000 == a;
    c := code;
  }

  lemma FourBytes(a: int, b: int, d: int, e: int) returns (c: scalar)
    requires 0 <= a < 5 && 0 <= b < 0x40 && 0 <= d < 0x40 && 0 <= e < 0x40
    requires (a == 0 ==> 0x10 <= b) && (a == 4 ==> b < 0x10)
    ensures EncodeScalar(c) == [0xF0 + a, 0x80 + b, 0x80 + d, 0x80 + e]
  {
    var code := a * 0x40000 + b * 0x1000 + d * 0x40 + e;
    assert code / 0x40 == a * 0x1000 + b * 0x40 + d;
    assert code / 0x1000 == a * 0x40 + b;
    assert code / 0x40000 == a;
    c := code;
  }

  lemma {:induction false} EncodedIsUtf8(t: text)
    ensures Utf8(EncodeText(t))
    decreases |t|
  {
    hide EncodeScalar, CharLen;
    if t != [] {
      var first, rest := EncodeScalar(t[0]), EncodeText(t[1..]);
      EncodedCharLen(t[0], rest);
      assert (first + rest)[|first|..] == rest;
      EncodedIsUtf8(t[1..]);
    }
  }

  lemma {:induction false} Decode(s: bytes) returns (t: text)
    requires Utf8(s)
    ensures s == EncodeText(t)
    decreases |s|
  {
    hide EncodeScalar, CharLen;
    if s == [] {
      t := [];
    } else {
      var n := CharLen(s);
      var rest := Decode(s[n..]);
      var c := FirstScalar(s);
      t := [c] + rest;
      assert t[0] == c && t[1..] == rest;
      assert s == s[..n] + s[n..];
    }
  }

  /** Validity, exactly: a byte sequence is accepted if and only if it encodes a text. */
  lemma Utf8Exactly(s: bytes)
    ensures Utf8(s) <==> exists t: text :: s == EncodeText(t)
  {
    hide EncodeText;
    if Utf8(s) {
      var t := Decode(s);
    }
    forall t: text | s == EncodeText(t) ensures Utf8(s) {
      EncodedIsUtf8(t);
    }
  }

  // ----- White space -----

  /** The characters with the Unicode property White_Space. */
  const WHITE_SPACE: set<int> :=
    {0x09, 0x0A, 0x0B, 0x0C, 0x0D, 0x20, 0x85, 0xA0, 0x1680,
     0x2000, 0x2001, 0x2002, 0x2003, 0x2004, 0x2005, 0x2006, 0x2007, 0x2008, 0x2009, 0x200A,
     0x2028, 0x2029, 0x202F, 0x205F, 0x3000}

  predicate AllWhite(t: text) {
    forall i :: 0 <= i < |t| ==> t[i] in WHITE_SPACE
  }

  lemma SpaceAtStart(c: scalar, rest: bytes)
    ensures SpaceAt(EncodeScalar(c) + rest, 0) == if c in WHITE_SPACE then |EncodeScalar(c)| else 0
  {}

  lemma SpaceAtEnd(before: bytes, c: scalar)
    ensures SpaceBefore(before + EncodeScalar(c)) == if c in WHITE_SPACE then |EncodeScalar(c)| else 0
  {}

  /** Neither the first nor the last character is white space. */
  predicate Clean(t: text) {
    t == [] || (t[0] !in WHITE_SPACE && t[|t| - 1] !in WHITE_SPACE)
  }

  lemma {:induction false} TrimStartDrops(a: text, m: text)
    requires AllWhite(a) && (m == [] || m[0] !in WHITE_SPACE)
    ensures TrimStart(EncodeText(a + m)) == EncodeText(m)
    decreases |a|
  {
    hide EncodeScalar, SpaceAt;
    if a != [] {
      var first, rest := EncodeScalar(a[0]), EncodeText(a[1..] + m);
      assert (a + m)[1..] == a[1..] + m;
      SpaceAtStart(a[0], rest);
      assert (first + rest)[|first|..] == rest;
      TrimStartDrops(a[1..], m);
    } else {
      assert a + m == m;
      if m == [] {
        NoSpaceInNothing();
      } else {
        SpaceAtStart(m[0], EncodeText(m[1..]));
      }
    }
  }

  lemma NoSpaceInNothing()
    ensures SpaceAt([], 0) == 0 && SpaceBefore([]) == 0
  {}

  lemma EncodeSnoc(t: text, c: scalar)
    ensures EncodeText(t + [c]) == EncodeText(t) + EncodeScalar(c)
  {
    hide EncodeText, EncodeScalar;
    EncodeConcat(t, [c]);
    EncodeOneScalar(c);
  }

  lemma {:induction false} TrimEndDrops(m: text, b: text)
    requires AllWhite(b) && (m == [] || m[|m| - 1] !in WHITE_SPACE)
    ensures TrimEnd(EncodeText(m + b)) == EncodeText(m)
    decreases |b|
  {
    hide EncodeScalar, SpaceBefore;
    if b != [] {
      var k := |b| - 1;
      var before := EncodeText(m + b[..k]);
      assert m + b == (m + b[..k]) + [b[k]];
      EncodeSnoc(m + b[..k], b[k]);
      SpaceAtEnd(before, b[k]);
      assert (before + EncodeScalar(b[k]))[..|before|] == before;
      TrimEndDrops(m, b[..k]);
    } else {
      assert m + b == m;
      if m == [] {
        NoSpaceInNothing();
      } else {
        var k := |m| - 1;
        assert m == m[..k] + [m[k]];
        EncodeSnoc(m[..k], m[k]);
        SpaceAtEnd(EncodeText(m[..k]), m[k]);
      }
    }
  }

  /** Trimming the bytes of a text drops the white space around it, and nothing else. */
  lemma TrimDrops(a: text, m: text, b: text)
    requires AllWhite(a) && AllWhite(b) && Clean(m)
    ensures Trim(EncodeText(a + m + b)) == EncodeText(m)
  {
    hide EncodeText, TrimStart, TrimEnd;
    if m == [] {
      assert a + m + b == (a + b) + [];
      TrimStartDrops(a + b, []);
      var none: text := [];
      assert none + none == none;
      TrimEndDrops(none, none);
    } else {
      assert a + m + b == a + (m + b);
      TrimStartDrops(a, m + b);
      TrimEndDrops(m, b);
    }
  }

  /** Every text is a clean text with white space around it. */
  lemma {:induction false} Strip(t: text) returns (a: text, m: text, b: text)
    ensures t == a + m + b && AllWhite(a) && AllWhite(b) && Clean(m)
    decreases |t|
  {
    a, m, b := [], t, [];
    if t != [] && t[0] in WHITE_SPACE {
      a, m, b := Strip(t[1..]);
      a := [t[0]] + a;
    } else if t != [] && t[|t| - 1] in WHITE_SPACE {
      a, m, b := Strip(t[..|t| - 1]);
      b := b + [t[|t| - 1]];
    }
  }

  /** A line is blank exactly when all its characters are white space. */
  lemma BlankExactly(t: text)
    ensures Blank(EncodeText(t)) <==> AllWhite(t)
  {
    hide Trim, EncodeScalar;
    var a, m, b := Strip(t);
    TrimDrops(a, m, b);
    if m != [] {
      assert t[|a|] == m[0];
    }
  }

  // ----- Characters and their bytes -----

  lemma {:induction false} EncodeInjective(a: text, b: text)
    requires EncodeText(a) == EncodeText(b)
    ensures a == b
    decreases |a|
  {
    hide EncodeScalar, CharLen;
    if a != [] && b != [] {
      var x, y := EncodeText(a[1..]), EncodeText(b[1..]);
      EncodedCharLen(a[0], x);
      EncodedCharLen(b[0], y);
      var n := |EncodeScalar(a[0])|;
      assert (EncodeScalar(a[0]) + x)[..n] == EncodeScalar(a[0]) && (EncodeScalar(a[0]) + x)[n..] == x;
      assert (EncodeScalar(b[0]) + y)[..n] == EncodeScalar(b[0]) && (EncodeScalar(b[0]) + y)[n..] == y;
      ScalarInjective(a[0], b[0]);
      EncodeInjective(a[1..], b[1..]);
      assert a == [a[0]] + a[1..] && b == [b[0]] + b[1..];
    }
  }

  /** The code point that well-formed bytes stand for. */
  function CodePoint(b: bytes): int
    requires |b| > 0
  {
    var lead: int := b[0];
    if |b| == 1 then lead
    else if |b| == 2 then (lead - 0xC0) * 0x40 + (b[1] as int - 0x80)
    else if |b| == 3 then (lead - 0xE0) * 0x1000 + (b[1] as int - 0x80) * 0x40 + (b[2] as int - 0x80)
    else if |b| == 4 then
      (lead - 0xF0) * 0x40000 + (b[1] as int - 0x80) * 0x1000 + (b[2] as int - 0x80) * 0x40 + (b[3] as int - 0x80)
    else 0
  }

  lemma CodePointOfScalar(c: scalar)
    ensures CodePoint(EncodeScalar(c)) == c
  {
    assert c / 0x40 / 0x40 == c / 0x1000 && c / 0x1000 / 0x40 == c / 0x40000;
  }

  lemma ScalarInjective(c: scalar, d: scalar)
    requires EncodeScalar(c) == EncodeScalar(d)
    ensures c == d
  {
    hide EncodeScalar, CodePoint;
    CodePointOfScalar(c);
    CodePointOfScalar(d);
  }

  /** ASCII characters are their own bytes, and no other character has an ASCII byte. */
  lemma {:induction false} AsciiBytes(t: text, c: byte)
    requires c < 0x80
    ensures c in EncodeText(t) <==> c in t
  {
    hide EncodeScalar;
    if t != [] {
      ScalarAscii(t[0], c);
      AsciiBytes(t[1..], c);
      assert t == [t[0]] + t[1..];
    }
  }

  lemma ScalarAscii(d: scalar, c: byte)
    requires c < 0x80
    ensures c in EncodeScalar(d) <==> c == d
    ensures c == d ==> EncodeScalar(d) == [c]
    ensures EncodeScalar(d)[|EncodeScalar(d)| - 1] == c <==> c == d
  {}

  /** The first ASCII character `c` of a text is where its bytes first hold `c`. */
  lemma FindCharacter(x: text, c: byte, y: text)
    requires c < 0x80 && c !in x
    ensures var s := EncodeText(x + [c] + y);
            && Find(s, c) == Some(|EncodeText(x)|)
            && s[..|EncodeText(x)|] == EncodeText(x) && s[|EncodeText(x)| + 1..] == EncodeText(y)
  {
    hide EncodeText, EncodeScalar, Find;
    var left, right, one: text := EncodeText(x), EncodeText(y), [c];
    EncodeConcat(x, one + y);
    EncodeConcat(one, y);
    EncodeOneScalar(c);
    ScalarAscii(c, c);
    assert x + one + y == x + (one + y);
    var s := left + ([c] + right);
    AsciiBytes(x, c);
    assert s[..|left|] == left && s[|left|] == c && s[|left| + 1..] == right;
    FindIs(s, c, |left|);
  }

  /** Every text is what precedes its line ending, and the line ending. */
  lemma TrimLineEnd(t: text) returns (u: text, ending: text)
    ensures t == u + ending && (u == [] || u[|u| - 1] !in {CR, LF})
    ensures forall i :: 0 <= i < |ending| ==> ending[i] in {CR, LF}
    ensures TrimCrlf(EncodeText(t)) == EncodeText(u)
  {
    u, ending := SplitLineEnd(t);
    LineEndDrops(u, ending);
  }

  lemma {:induction false} SplitLineEnd(t: text) returns (u: text, ending: text)
    ensures t == u + ending && (u == [] || u[|u| - 1] !in {CR, LF})
    ensures forall i :: 0 <= i < |ending| ==> ending[i] in {CR, LF}
    decreases |t|
  {
    u, ending := t, [];
    if t != [] && t[|t| - 1] in {CR, LF} {
      u, ending := SplitLineEnd(t[..|t| - 1]);
      ending := ending + [t[|t| - 1]];
    }
  }

  /** Trimming the line ending off the bytes of a text drops its last CR and LF characters. */
  lemma LineEndDrops(u: text, ending: text)
    requires u == [] || u[|u| - 1] !in {CR, LF}
    requires forall i :: 0 <= i < |ending| ==> ending[i] in {CR, LF}
    ensures TrimCrlf(EncodeText(u + ending)) == EncodeText(u)
  {
    hide TrimCrlf, EncodeScalar;
    EncodeConcat(u, ending);
    AsciiText(ending);
    if u != [] {
      var k := |u| - 1;
      assert u == u[..k] + [u[k]];
      EncodeSnoc(u[..k], u[k]);
      ScalarAscii(u[k], CR);
      ScalarAscii(u[k], LF);
    }
    TrimCrlfIs(EncodeText(u), EncodeText(ending));
  }

  lemma {:induction false} AsciiText(t: text)
    requires forall i :: 0 <= i < |t| ==> t[i] < 0x80
    ensures |EncodeText(t)| == |t| && forall i :: 0 <= i < |t| ==> EncodeText(t)[i] == t[i]
  {
    hide EncodeScalar;
    if t != [] {
      ScalarAscii(t[0], t[0]);
      AsciiText(t[1..]);
    }
  }
}
