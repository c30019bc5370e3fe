/**
 Well-formed UTF-8 and the white-space trimming of Rust's `str`, both stated
 on bytes.
 */
module Utf8 {
  import opened Bytes

  predicate Continuation(b: byte) {
    0x80 <= b <= 0xBF
  }

  /** Length of the well-formed character `s` starts with; 0 when there is none. */
  function CharLen(s: seq<byte>): (n: nat)
    ensures n <= |s|
  {
    if s == [] then 0
    else if s[0] < 0x80 then 1
    else if |s| >= 2 && 0xC2 <= s[0] <= 0xDF && Continuation(s[1]) then 2
    else if |s| >= 3 && Continuation(s[2]) && SecondOfThree(s[0], s[1]) then 3
    else if |s| >= 4 && Continuation(s[2]) && Continuation(s[3]) && SecondOfFour(s[0], s[1]) then 4
    else 0
  }

  predicate SecondOfThree(first: byte, second: byte) {
    if first == 0xE0 then 0xA0 <= second <= 0xBF
    else if first == 0xED then 0x80 <= second <= 0x9F
    else 0xE1 <= first <= 0xEF && Continuation(second)
  }

  predicate SecondOfFour(first: byte, second: byte) {
    if first == 0xF0 then 0x90 <= second <= 0xBF
    else if first == 0xF4 then 0x80 <= second <= 0x8F
    else 0xF1 <= first <= 0xF3 && Continuation(second)
  }

  predicate Valid(s: seq<byte>) {
    s == [] || (CharLen(s) > 0 && Valid(s[CharLen(s)..]))
  }

  predicate Ascii(s: seq<byte>) {
    forall i :: 0 <= i < |s| ==> s[i] < 0x80
  }

  lemma {:induction false} AsciiValid(s: seq<byte>)
    requires Ascii(s)
    ensures Valid(s)
  {
    if s != [] {
      AsciiValid(s[1..]);
    }
  }

  lemma {:induction false} ValidConcat(a: seq<byte>, b: seq<byte>)
    requires Valid(a) && Valid(b)
    ensures Valid(a + b)
  {
    if a == [] {
      assert a + b == b;
    } else {
      var n := CharLen(a);
      assert CharLen(a + b) == n;
      assert (a + b)[n..] == a[n..] + b;
      ValidConcat(a[n..], b);
    }
  }

  /** The encoding of one character with the Unicode White_Space property. */
  predicate IsSpaceChar(c: seq<byte>) {
    || (|c| == 1 && (9 <= c[0] <= 13 || c[0] == 32))
    || (|c| == 2 && c[0] == 0xC2 && (c[1] == 0x85 || c[1] == 0xA0))
    || (|c| == 3 && c[0] == 0xE1 && c[1] == 0x9A && c[2] == 0x80)
    || (|c| == 3 && c[0] == 0xE2 && c[1] == 0x80 && (0x80 <= c[2] <= 0x8A || c[2] in {0xA8, 0xA9, 0xAF}))
    || (|c| == 3 && c[0] == 0xE2 && c[1] == 0x81 && c[2] == 0x9F)
    || (|c| == 3 && c[0] == 0xE3 && c[1] == 0x80 && c[2] == 0x80)
  }

  function SpaceAtStart(s: seq<byte>): (n: nat)
    ensures n <= |s|
  {
    if |s| >= 1 && IsSpaceChar(s[..1]) then 1
    else if |s| >= 2 && IsSpaceChar(s[..2]) then 2
    else if |s| >= 3 && IsSpaceChar(s[..3]) then 3
    else 0
  }

  function SpaceAtEnd(s: seq<byte>): (n: nat)
    ensures n <= |s|
  {
    if |s| >= 1 && IsSpaceChar(s[|s| - 1..]) then 1
    else if |s| >= 2 && IsSpaceChar(s[|s| - 2..]) then 2
    else if |s| >= 3 && IsSpaceChar(s[|s| - 3..]) then 3
    else 0
  }

  function TrimStart(s: seq<byte>): (t: seq<byte>)
    ensures EndsWith(s, t)
  {
    var n := SpaceAtStart(s);
    if n == 0 then s else TrimStart(s[n..])
  }

  function TrimEnd(s: seq<byte>): (t: seq<byte>)
    ensures t <= s
    ensures SpaceAtEnd(t) == 0
  {
    var n := SpaceAtEnd(s);
    if n == 0 then s else TrimEnd(s[..|s| - n])
  }

  function Trim(s: seq<byte>): seq<byte> {
    TrimEnd(TrimStart(s))
  }

  // ----- Which characters are white space -----

  /** The ASCII white space: tab, LF, vertical tab, form feed, CR and blank. */
  predicate AsciiSpace(b: byte) {
    b in {9, 10, 11, 12, 13, 32}
  }

  lemma AsciiSpaceAtEnd(s: seq<byte>, b: byte)
    requires b < 0x80
    ensures SpaceAtEnd(s + [b]) == (if b in {9, 10, 11, 12, 13, 32} then 1 else 0)
  {
    hide IsSpaceChar;
    var t := s + [b];
    assert t[|t| - 1..] == [b];
    AsciiSpaceOnly(b);
    WideSpace(t[if |t| >= 2 then |t| - 2 else 0..]);
    WideSpace(t[if |t| >= 3 then |t| - 3 else 0..]);
  }

  lemma AsciiSpaceOnly(b: byte)
    requires b < 0x80
    ensures IsSpaceChar([b]) <==> b in {9, 10, 11, 12, 13, 32}
  {
  }

  /** A longer white-space character starts and ends with bytes beyond ASCII. */
  lemma WideSpace(c: seq<byte>)
    ensures |c| >= 2 && IsSpaceChar(c) ==> c[0] >= 0x80 && c[1] >= 0x80 && c[|c| - 1] >= 0x80
  {
  }

  lemma AsciiSpaceAtStart(b: byte, s: seq<byte>)
    requires b < 0x80
    ensures SpaceAtStart([b] + s) == (if b in {9, 10, 11, 12, 13, 32} then 1 else 0)
  {
    hide IsSpaceChar;
    var t := [b] + s;
    assert t[..1] == [b];
    AsciiSpaceOnly(b);
    WideSpace(t[..if |t| >= 2 then 2 else 1]);
    WideSpace(t[..if |t| >= 3 then 3 else 1]);
  }

  /** The encoding of a code point (RFC 3629, section 3). */
  function EncodeChar(c: nat): (s: seq<byte>)
    requires c < 0x11_0000
  {
    if c < 0x80 then [c]
    else if c < 0x800 then [0xC0 + c / 0x40, 0x80 + c % 0x40]
    else if c < 0x1_0000 then [0xE0 + c / 0x1000, 0x80 + c / 0x40 % 0x40, 0x80 + c % 0x40]
    else [0xF0 + c / 0x4_0000, 0x80 + c / 0x1000 % 0x40, 0x80 + c / 0x40 % 0x40, 0x80 + c % 0x40]
  }

  predicate Scalar(c: nat) {
    c < 0xD800 || 0xE000 <= c < 0x11_0000
  }

  /** A well-formed character is the encoding of a Unicode scalar value, and every such encoding is one. */
  lemma CharOf(s: seq<byte>) returns (c: nat)
    requires CharLen(s) > 0
    ensures Scalar(c) && s[..CharLen(s)] == EncodeChar(c)
  {
    var n := CharLen(s);
    if n == 1 {
      c := s[0];
    } else if n == 2 {
      c := Six(s[0] as int - 0xC0, s[1] as int - 0x80);
    } else if n == 3 {
      c := ThreeByteCode(s);
    } else {
      c := FourByteCode(s);
    }
  }

  /** Six more bits. */
  lemma Six(high: nat, low: nat) returns (c: nat)
    requires low < 0x40
    ensures c == high * 0x40 + low && c / 0x40 == high && c % 0x40 == low
    ensures c / 0x1000 == high / 0x40 && c / 0x4_0000 == high / 0x1000
  {
    c := high * 0x40 + low;
  }

  lemma ThreeByteCode(s: seq<byte>) returns (c: nat)
    requires CharLen(s) == 3
    ensures Scalar(c) && 0x800 <= c < 0x1_0000 && s[..3] == EncodeChar(c)
  {
    var high := Six(s[0] as int - 0xE0, s[1] as int - 0x80);
    c := Six(high, s[2] as int - 0x80);
  }

  lemma FourByteCode(s: seq<byte>) returns (c: nat)
    requires CharLen(s) == 4
    ensures Scalar(c) && 0x1_0000 <= c && s[..4] == EncodeChar(c)
  {
    var high := Six(s[0] as int - 0xF0, s[1] as int - 0x80);
    high := Six(high, s[2] as int - 0x80);
    c := Six(high, s[3] as int - 0x80);
  }

  lemma EncodedChar(c: nat, rest: seq<byte>)
    requires Scalar(c)
    ensures CharLen(EncodeChar(c) + rest) == |EncodeChar(c)|
  {
    LeadByte(c);
    hide EncodeChar;
    var s, e := EncodeChar(c) + rest, EncodeChar(c);
    assert forall i :: 0 <= i < |e| ==> s[i] == e[i];
  }

  /** The bytes of an encoded scalar value are in the ranges of well-formed UTF-8. */
  lemma LeadByte(c: nat)
    requires Scalar(c)
    ensures var e := EncodeChar(c);
            && 1 <= |e| <= 4 && (|e| == 1 ==> e[0] < 0x80)
            && (|e| == 2 ==> 0xC2 <= e[0] <= 0xDF && Continuation(e[1]))
            && (|e| == 3 ==> SecondOfThree(e[0], e[1]) && Continuation(e[2]))
            && (|e| == 4 ==> SecondOfFour(e[0], e[1]) && Continuation(e[2]) && Continuation(e[3]))
  {
    if 0x800 <= c < 0x1_0000 {
      LeadOfThree(c);
    } else if 0x1_0000 <= c {
      LeadOfFour(c);
    }
  }

  lemma LeadOfThree(c: nat)
    requires Scalar(c) && 0x800 <= c < 0x1_0000
    ensures SecondOfThree(0xE0 + c / 0x1000, 0x80 + c / 0x40 % 0x40)
  {
    var high, mid := c / 0x1000, c / 0x40 % 0x40;
    assert c / 0x40 == high * 0x40 + mid;
  }

  lemma LeadOfFour(c: nat)
    requires Scalar(c) && 0x1_0000 <= c
    ensures SecondOfFour(0xF0 + c / 0x4_0000, 0x80 + c / 0x1000 % 0x40)
  {
    var high, mid := c / 0x4_0000, c / 0x1000 % 0x40;
    assert c / 0x1000 == high * 0x40 + mid;
  }

  /** Trimmed are exactly the code points with the Unicode property White_Space. */
  lemma WhiteSpaceExactly(c: nat)
    requires c < 0x11_0000
    ensures IsSpaceChar(EncodeChar(c)) <==>
              || c in {9, 10, 11, 12, 13, 32, 0x85, 0xA0, 0x1680, 0x2028, 0x2029, 0x202F, 0x205F, 0x3000}
              || 0x2000 <= c <= 0x200A
  {
    var s := EncodeChar(c);
    if 0x800 <= c < 0x1_0000 {
      assert c == c / 0x1000 * 0x1000 + c / 0x40 % 0x40 * 0x40 + c % 0x40;
    }
  }

  /** White space around a text that neither starts nor ends with some goes; nothing else does. */
  lemma TrimExactly(lead: seq<byte>, text: seq<byte>, tail: seq<byte>)
    requires text != [] && SpaceAtStart(text + tail) == 0 && SpaceAtEnd(text) == 0
    requires forall b :: b in lead || b in tail ==> AsciiSpace(b)
    ensures Trim(lead + text + tail) == text
  {
    hide IsSpaceChar, SpaceAtStart, SpaceAtEnd;
    assert lead + text + tail == lead + (text + tail);
    LeadGoes(lead, text + tail);
    TailGoes(text, tail);
  }

  lemma {:induction false} LeadGoes(lead: seq<byte>, text: seq<byte>)
    requires SpaceAtStart(text) == 0 && forall b :: b in lead ==> AsciiSpace(b)
    ensures TrimStart(lead + text) == text
  {
    if lead == [] {
      assert lead + text == text;
    } else {
      assert lead[0] in lead && forall b :: b in lead[1..] ==> b in lead;
      AsciiSpaceAtStart(lead[0], lead[1..] + text);
      assert lead + text == [lead[0]] + (lead[1..] + text);
      hide SpaceAtStart;
      LeadGoes(lead[1..], text);
    }
  }

  lemma {:induction false} TailGoes(text: seq<byte>, tail: seq<byte>)
    requires SpaceAtEnd(text) == 0 && forall b :: b in tail ==> AsciiSpace(b)
    ensures TrimEnd(text + tail) == text
  {
    if tail == [] {
      assert text + tail == text;
    } else {
      var n := |tail| - 1;
      assert tail[n] in tail && forall b :: b in tail[..n] ==> b in tail;
      AsciiSpaceAtEnd(text + tail[..n], tail[n]);
      assert text + tail == text + tail[..n] + [tail[n]];
      hide SpaceAtEnd;
      TailGoes(text, tail[..n]);
    }
  }

  /** For a text whose first and last bytes are ASCII. */
  lemma TrimAscii(lead: seq<byte>, text: seq<byte>, tail: seq<byte>)
    requires text != [] && text[0] < 0x80 && text[|text| - 1] < 0x80
    requires text[0] !in {9, 10, 11, 12, 13, 32} && text[|text| - 1] !in {9, 10, 11, 12, 13, 32}
    requires forall b :: b in lead || b in tail ==> b in {9, 10, 11, 12, 13, 32}
    ensures Trim(lead + text + tail) == text
  {
    var n := |text| - 1;
    AsciiSpaceAtStart(text[0], text[1..] + tail);
    assert text + tail == [text[0]] + (text[1..] + tail);
    AsciiSpaceAtEnd(text[..n], text[n]);
    assert text == text[..n] + [text[n]];
    hide Trim, SpaceAtStart, SpaceAtEnd;
    TrimExactly(lead, text, tail);
  }

  /** Cutting in front of a byte that starts a character keeps what is before it well formed. */
  lemma {:induction false} ValidPrefix(a: seq<byte>, c: seq<byte>)
    requires Valid(a + c) && c != [] && !Continuation(c[0])
    ensures Valid(a)
  {
    if a != [] {
      var n := CharLen(a + c);
      CharEndsBefore(a, c);
      assert (a + c)[n..] == a[n..] + c;
      ValidPrefix(a[n..], c);
    }
  }

  lemma CharEndsBefore(a: seq<byte>, c: seq<byte>)
    requires a != [] && c != [] && !Continuation(c[0]) && CharLen(a + c) > 0
    ensures CharLen(a) == CharLen(a + c)
  {
    var s := a + c;
    assert forall i :: 0 <= i < |a| ==> s[i] == a[i];
    assert s[|a|] == c[0];
  }

  /** A white-space character at the start is the first character. */
  lemma SpaceIsChar(s: seq<byte>)
    requires SpaceAtStart(s) > 0
    ensures CharLen(s) == SpaceAtStart(s)
  {
    if |s| >= 1 && IsSpaceChar(s[..1]) {
      OneByteChar(s);
    } else if |s| >= 2 && IsSpaceChar(s[..2]) {
      TwoByteChar(s);
    } else {
      ThreeByteChar(s);
    }
  }

  lemma OneByteChar(s: seq<byte>)
    requires |s| >= 1 && IsSpaceChar(s[..1])
    ensures CharLen(s) == 1
  {
    assert s[..1][0] == s[0];
  }

  lemma TwoByteChar(s: seq<byte>)
    requires |s| >= 2 && IsSpaceChar(s[..2])
    ensures CharLen(s) == 2
  {
    assert s[..2][0] == s[0] && s[..2][1] == s[1];
  }

  lemma ThreeByteChar(s: seq<byte>)
    requires |s| >= 3 && IsSpaceChar(s[..3])
    ensures CharLen(s) == 3
  {
    assert s[..3][0] == s[0] && s[..3][1] == s[1] && s[..3][2] == s[2];
  }

  lemma {:induction false} TrimStartValid(s: seq<byte>)
    requires Valid(s)
    ensures Valid(TrimStart(s))
  {
    hide IsSpaceChar, CharLen, SpaceAtStart;
    var n := SpaceAtStart(s);
    if n > 0 {
      SpaceIsChar(s);
      TrimStartValid(s[n..]);
    }
  }

  lemma SpaceEndsString(s: seq<byte>)
    requires SpaceAtEnd(s) > 0
    ensures !Continuation(s[|s| - SpaceAtEnd(s)])
  {
    var c := s[|s| - SpaceAtEnd(s)..];
    assert IsSpaceChar(c) && c[0] == s[|s| - SpaceAtEnd(s)];
  }

  lemma {:induction false} TrimEndValid(s: seq<byte>)
    requires Valid(s)
    ensures Valid(TrimEnd(s))
  {
    hide IsSpaceChar, CharLen, SpaceAtEnd, Valid;
    var n := SpaceAtEnd(s);
    if n > 0 {
      SpaceEndsString(s);
      var a, c := s[..|s| - n], s[|s| - n..];
      assert s == a + c;
      ValidPrefix(a, c);
      TrimEndValid(a);
    }
  }

  lemma TrimValid(s: seq<byte>)
    requires Valid(s)
    ensures Valid(Trim(s))
  {
    TrimStartValid(s);
    TrimEndValid(TrimStart(s));
  }
}
