/**
 Bytes and text.

 A Rust `String` or `&str` is modelled by its UTF-8 bytes, so "is a string" is the
 predicate `Utf8` on `bytes`. The string operations the transport uses (`trim`,
 `trim_end_matches`, `split_once`, `eq_ignore_ascii_case`) are defined on those bytes.
 */
module Text {
  import opened Wrappers

  type byte = b: int | 0 <= b < 256
  type bytes = seq<byte>

  const LF: byte := 10
  const CR: byte := 13
  const COLON: byte := 58

  /** The bytes of an ASCII literal. */
  function Ascii(s: string): (b: bytes)
    requires forall i :: 0 <= i < |s| ==> s[i] < 128 as char
    ensures |b| == |s| && forall i :: 0 <= i < |s| ==> b[i] == s[i] as int
  {
    seq(|s|, i requires 0 <= i < |s| => s[i] as int as byte)
  }

  predicate IsAscii(s: bytes) {
    forall i :: 0 <= i < |s| ==> s[i] < 128
  }

  // ----- UTF-8 validity: the grammar of RFC 3629, section 4 -----

  predicate Tail(s: bytes, i: nat) {
    i < |s| && 0x80 <= s[i] <= 0xBF
  }

  predicate ByteIn(s: bytes, i: nat, lo: int, hi: int) {
    i < |s| && lo <= s[i] <= hi
  }

  /** Length of the well-formed character `s` starts with, or 0 if there is none. */
  function CharLen(s: bytes): (n: nat)
    ensures n <= |s|
  {
    if s == [] then 0
    else if s[0] <= 0x7F then 1
    else if 0xC2 <= s[0] <= 0xDF then (if Tail(s, 1) then 2 else 0)
    else if 0xE0 <= s[0] <= 0xEF then
      var lo := if s[0] == 0xE0 then 0xA0 else 0x80;
      var hi := if s[0] == 0xED then 0x9F else 0xBF;
      if ByteIn(s, 1, lo, hi) && Tail(s, 2) then 3 else 0
    else if 0xF0 <= s[0] <= 0xF4 then
      var lo := if s[0] == 0xF0 then 0x90 else 0x80;
      var hi := if s[0] == 0xF4 then 0x8F else 0xBF;
      if ByteIn(s, 1, lo, hi) && Tail(s, 2) && Tail(s, 3) then 4 else 0
    else 0
  }

  predicate Utf8(s: bytes)
    decreases |s|
  {
    s == [] || (CharLen(s) > 0 && Utf8(s[CharLen(s)..]))
  }

  lemma {:induction false} AsciiIsUtf8(s: bytes)
    requires IsAscii(s)
    ensures Utf8(s)
    decreases |s|
  {
    if s != [] {
      AsciiIsUtf8(s[1..]);
    }
  }

  /** A character is recognised whatever follows it. */
  lemma CharLenExtends(a: bytes, b: bytes)
    requires CharLen(a) > 0
    ensures CharLen(a + b) == CharLen(a)
  {}

  /** Strings concatenate to strings. */
  lemma {:induction false} Utf8Concat(a: bytes, b: bytes)
    requires Utf8(a) && Utf8(b)
    ensures Utf8(a + b)
    decreases |a|
  {
    if a == [] {
      assert a + b == b;
    } else {
      CharLenExtends(a, b);
      var n := CharLen(a);
      assert (a + b)[n..] == a[n..] + b;
      Utf8Concat(a[n..], b);
    }
  }

  /** Cutting a string where a character begins leaves a string. */
  lemma {:induction false} Utf8CutBefore(a: bytes, b: bytes)
    requires Utf8(a + b) && !Tail(b, 0)
    ensures Utf8(a)
    decreases |a|
  {
    if a != [] && b != [] {
      var n := CharLen(a + b);
      assert a == (a + b)[..|a|] && (a + b)[|a|] == b[0];
      assert n <= |a|;
      assert CharLen(a) == n;
      assert (a + b)[n..] == a[n..] + b;
      Utf8CutBefore(a[n..], b);
    } else {
      assert a + b == if a == [] then b else a;
    }
  }

  /** Cutting an ASCII suffix off a string leaves a string. */
  lemma Utf8DropAsciiSuffix(a: bytes, b: bytes)
    requires Utf8(a + b) && IsAscii(b)
    ensures Utf8(a)
  {
    Utf8CutBefore(a, b);
  }

  // ----- Trimming -----

  /** `trim_end_matches(['\r', '\n'])`. */
  function TrimCrlf(s: bytes): (r: bytes)
    ensures |r| <= |s|
    decreases |s|
  {
    if s != [] && (s[|s| - 1] == CR || s[|s| - 1] == LF) then TrimCrlf(s[..|s| - 1]) else s
  }

  lemma TrimCrlfShape(s: bytes)
    ensures var r := TrimCrlf(s);
            && r <= s
            && (r == [] || (r[|r| - 1] != CR && r[|r| - 1] != LF))
            && (forall i :: |r| <= i < |s| ==> s[i] == CR || s[i] == LF)
    decreases |s|
  {
    if s != [] && (s[|s| - 1] == CR || s[|s| - 1] == LF) {
      TrimCrlfShape(s[..|s| - 1]);
    }
  }

  /** Trimming a line ending off a string leaves a string. */
  lemma TrimCrlfUtf8(s: bytes)
    requires Utf8(s)
    ensures Utf8(TrimCrlf(s))
  {
    var r := TrimCrlf(s);
    TrimCrlfShape(s);
    assert s == r + s[|r|..];
    Utf8DropAsciiSuffix(r, s[|r|..]);
  }

  /** `TrimCrlf` is the only split into a body that does not end in CR or LF and a CR/LF tail. */
  lemma {:induction false} TrimCrlfIs(body: bytes, ending: bytes)
    requires body == [] || (body[|body| - 1] != CR && body[|body| - 1] != LF)
    requires forall i :: 0 <= i < |ending| ==> ending[i] == CR || ending[i] == LF
    ensures TrimCrlf(body + ending) == body
    decreases |ending|
  {
    if ending == [] {
      assert body + ending == body;
    } else {
      var s := body + ending;
      assert s[..|s| - 1] == body + ending[..|ending| - 1];
      TrimCrlfIs(body, ending[..|ending| - 1]);
    }
  }

  predicate Pair(s: bytes, i: int, a: int, b: int) {
    0 <= i && i + 1 < |s| && s[i] == a && s[i + 1] == b
  }

  /** Whether `s` holds the encoding of a Unicode White_Space character at `i`, and its length. */
  function SpaceAt(s: bytes, i: int): (n: nat)
    requires 0 <= i <= |s|
    ensures i + n <= |s|
  {
    if i == |s| then 0
    else if 0x09 <= s[i] <= 0x0D || s[i] == 0x20 then 1
    else if Pair(s, i, 0xC2, 0x85) || Pair(s, i, 0xC2, 0xA0) then 2                  // U+0085, U+00A0
    else if i + 2 >= |s| then 0
    else if Pair(s, i, 0xE1, 0x9A) && s[i + 2] == 0x80 then 3                        // U+1680
    else if Pair(s, i, 0xE2, 0x80) && (0x80 <= s[i + 2] <= 0x8A
         || s[i + 2] == 0xA8 || s[i + 2] == 0xA9 || s[i + 2] == 0xAF) then 3         // U+2000-200A, 2028, 2029, 202F
    else if Pair(s, i, 0xE2, 0x81) && s[i + 2] == 0x9F then 3                        // U+205F
    else if Pair(s, i, 0xE3, 0x80) && s[i + 2] == 0x80 then 3                        // U+3000
    else 0
  }

  /** Length of the White_Space character `s` ends with, or 0. */
  function SpaceBefore(s: bytes): (n: nat)
    ensures n <= |s|
  {
    if |s| >= 1 && SpaceAt(s, |s| - 1) == 1 then 1
    else if |s| >= 2 && SpaceAt(s, |s| - 2) == 2 then 2
    else if |s| >= 3 && SpaceAt(s, |s| - 3) == 3 then 3
    else 0
  }

  function TrimStart(s: bytes): (r: bytes)
    ensures |r| <= |s|
    decreases |s|
  {
    if SpaceAt(s, 0) > 0 then TrimStart(s[SpaceAt(s, 0)..]) else s
  }

  function TrimEnd(s: bytes): (r: bytes)
    ensures r <= s
    decreases |s|
  {
    if SpaceBefore(s) > 0 then TrimEnd(s[..|s| - SpaceBefore(s)]) else s
  }

  /** `str::trim`. */
  function Trim(s: bytes): (r: bytes)
    ensures |r| <= |s|
  {
    TrimEnd(TrimStart(s))
  }

  predicate Blank(s: bytes) {
    Trim(s) == []
  }

  lemma {:induction false} TrimStartUtf8(s: bytes)
    requires Utf8(s)
    ensures Utf8(TrimStart(s)) && SpaceAt(TrimStart(s), 0) == 0
    decreases |s|
  {
    var n := SpaceAt(s, 0);
    if n > 0 {
      assert CharLen(s) == n;
      TrimStartUtf8(s[n..]);
    }
  }

  lemma {:induction false} TrimEndUtf8(s: bytes)
    requires Utf8(s)
    ensures Utf8(TrimEnd(s)) && SpaceBefore(TrimEnd(s)) == 0
    decreases |s|
  {
    var n := SpaceBefore(s);
    if n > 0 {
      var cut := |s| - n;
      assert SpaceAt(s, cut) == n;
      assert s == s[..cut] + s[cut..];
      Utf8CutBefore(s[..cut], s[cut..]);
      TrimEndUtf8(s[..cut]);
    }
  }

  /** Trimming the encoding cuts between characters: a string stays a string, with no white space at either end. */
  lemma TrimUtf8(s: bytes)
    requires Utf8(s)
    ensures Utf8(Trim(s)) && SpaceBefore(Trim(s)) == 0 && SpaceAt(Trim(s), 0) == 0
  {
    var t := TrimStart(s);
    TrimStartUtf8(s);
    TrimEndUtf8(t);
    TrimEndIsPrefix(t);
    var r := TrimEnd(t);
    assert r == t[..|r|];
  }

  lemma TrimEndIsPrefix(s: bytes)
    ensures TrimEnd(s) <= s
  {}

  predicate Visible(b: byte) {
    0x21 <= b <= 0x7E
  }

  /** Text whose first and last bytes are visible ASCII is its own trim. */
  lemma TrimVisible(s: bytes)
    requires s != [] && Visible(s[0]) && Visible(s[|s| - 1])
    ensures Trim(s) == s
  {}

  // ----- Splitting and comparing -----

  /** Index of the first `c` in `s`, if any. */
  function Find(s: bytes, c: byte): (r: Option<nat>)
    ensures r.Some? ==> r.value < |s|
  {
    if s == [] then None
    else if s[0] == c then Some(0)
    else
      match Find(s[1..], c)
      case None => None
      case Some(i) => Some(i + 1)
  }

  lemma {:induction false} FindShape(s: bytes, c: byte)
    ensures match Find(s, c)
            case Some(i) => s[i] == c && c !in s[..i]
            case None => c !in s
  {
    if s != [] && s[0] != c {
      FindShape(s[1..], c);
      var r := Find(s[1..], c);
      if r.Some? {
        assert s[..r.value + 1] == [s[0]] + s[1..][..r.value];
      }
    }
  }

  lemma {:induction false} FindIs(s: bytes, c: byte, k: nat)
    requires k < |s| && s[k] == c && c !in s[..k]
    ensures Find(s, c) == Some(k)
  {
    if k > 0 {
      assert s[0] in s[..k];
      assert s[1..][..k - 1] == s[..k][1..];
      FindIs(s[1..], c, k - 1);
    }
  }

  function Lower(b: byte): byte {
    if 65 <= b <= 90 then b + 32 else b
  }

  predicate EqIgnoreAsciiCase(a: bytes, b: bytes) {
    |a| == |b| && forall i :: 0 <= i < |a| ==> Lower(a[i]) == Lower(b[i])
  }
}
