/**
 Base64 (RFC 4648, section 4) with the URL-safe alphabet of section 5 beside
 it. Decoding is canonical: padding is required where it belongs and unused
 trailing bits must be zero.
 */
module Base64 {
  import opened Bytes
  import opened Wrappers

  datatype Alphabet = Standard | UrlSafe

  type sextet = v: int | 0 <= v < 64

  const PAD: byte := 61

  function Char(alphabet: Alphabet, v: sextet): byte {
    if v < 26 then 65 + v
    else if v < 52 then 71 + v
    else if v < 62 then v - 4
    else if v == 62 then (if alphabet.Standard? then 43 else 45)
    else (if alphabet.Standard? then 47 else 95)
  }

  predicate InAlphabet(alphabet: Alphabet, c: byte) {
    || 65 <= c <= 90 || 97 <= c <= 122 || 48 <= c <= 57
    || c == Char(alphabet, 62) || c == Char(alphabet, 63)
  }

  function Sextet(alphabet: Alphabet, c: byte): (v: sextet)
    requires InAlphabet(alphabet, c)
  {
    if 65 <= c <= 90 then c - 65
    else if 97 <= c <= 122 then c - 71
    else if 48 <= c <= 57 then c + 4
    else if c == Char(alphabet, 62) then 62
    else 63
  }

  /** The 6-bit groups of a byte string; the last one is filled up with zero bits. */
  function ToSextets(x: seq<byte>): (v: seq<sextet>)
    ensures |v| == |x| + (|x| + 2) / 3
  {
    if |x| == 0 then []
    else if |x| == 1 then [x[0] / 4, x[0] % 4 * 16]
    else if |x| == 2 then [x[0] / 4, x[0] % 4 * 16 + x[1] / 16, x[1] % 16 * 4]
    else [x[0] / 4, x[0] % 4 * 16 + x[1] / 16, x[1] % 16 * 4 + x[2] / 64, x[2] % 64] + ToSextets(x[3..])
  }

  // The three bytes that four sextets spell.
  function Byte0(v0: nat, v1: nat): byte
    requires v0 < 64 && v1 < 64
  {
    v0 * 4 + v1 / 16
  }

  function Byte1(v1: nat, v2: nat): byte
    requires v1 < 64 && v2 < 64
  {
    v1 % 16 * 16 + v2 / 4
  }

  function Byte2(v2: nat, v3: nat): byte
    requires v2 < 64 && v3 < 64
  {
    v2 % 4 * 64 + v3
  }

  function FromSextets(v: seq<sextet>): Option<seq<byte>> {
    if |v| == 0 then Some([])
    else if |v| == 1 then None
    else if |v| == 2 then
      if v[1] % 16 == 0 then Some([Byte0(v[0], v[1])]) else None
    else if |v| == 3 then
      if v[2] % 4 == 0 then Some([Byte0(v[0], v[1]), Byte1(v[1], v[2])]) else None
    else
      var rest := FromSextets(v[4..]);
      if rest.None? then None
      else Some([Byte0(v[0], v[1]), Byte1(v[1], v[2]), Byte2(v[2], v[3])] + rest.value)
  }

  function Chars(alphabet: Alphabet, v: seq<sextet>): (s: seq<byte>)
    ensures |s| == |v|
    ensures forall i :: 0 <= i < |s| ==> s[i] == Char(alphabet, v[i])
  {
    seq(|v|, i requires 0 <= i < |v| => Char(alphabet, v[i]))
  }

  predicate AllInAlphabet(alphabet: Alphabet, s: seq<byte>) {
    forall i :: 0 <= i < |s| ==> InAlphabet(alphabet, s[i])
  }

  function Sextets(alphabet: Alphabet, s: seq<byte>): (v: seq<sextet>)
    requires AllInAlphabet(alphabet, s)
    ensures |v| == |s|
    ensures forall i :: 0 <= i < |s| ==> v[i] == Sextet(alphabet, s[i])
  {
    seq(|s|, i requires 0 <= i < |s| => Sextet(alphabet, s[i]))
  }

  function Padding(n: nat): seq<byte> {
    if n % 3 == 0 then [] else if n % 3 == 1 then [PAD, PAD] else [PAD]
  }

  function Encode(alphabet: Alphabet, x: seq<byte>): seq<byte> {
    Chars(alphabet, ToSextets(x)) + Padding(|x|)
  }

  /** How many of the closing characters are padding. */
  function PadCount(s: seq<byte>): (n: nat)
    ensures n <= |s|
  {
    if EndsWith(s, [PAD, PAD]) then 2 else if EndsWith(s, [PAD]) then 1 else 0
  }

  function Decode(alphabet: Alphabet, s: seq<byte>): Option<seq<byte>> {
    var body := s[..|s| - PadCount(s)];
    if |s| % 4 != 0 || !AllInAlphabet(alphabet, body) then None
    else FromSextets(Sextets(alphabet, body))
  }

  lemma GroupRoundTrip(b0: byte, b1: byte, b2: byte)
    ensures Byte0(b0 / 4, b0 % 4 * 16 + b1 / 16) == b0
    ensures Byte1(b0 % 4 * 16 + b1 / 16, b1 % 16 * 4 + b2 / 64) == b1
    ensures Byte2(b1 % 16 * 4 + b2 / 64, b2 % 64) == b2
  {
  }

  lemma GroupCanonical(v0: sextet, v1: sextet, v2: sextet, v3: sextet)
    ensures Byte0(v0, v1) / 4 == v0
    ensures Byte0(v0, v1) % 4 * 16 + Byte1(v1, v2) / 16 == v1
    ensures Byte1(v1, v2) % 16 * 4 + Byte2(v2, v3) / 64 == v2
    ensures Byte2(v2, v3) % 64 == v3
  {
  }

  lemma OneByteRoundTrip(b0: byte)
    ensures FromSextets([b0 / 4, b0 % 4 * 16]) == Some([b0])
  {
    GroupRoundTrip(b0, 0, 0);
  }

  lemma TwoByteRoundTrip(b0: byte, b1: byte)
    ensures FromSextets([b0 / 4, b0 % 4 * 16 + b1 / 16, b1 % 16 * 4]) == Some([b0, b1])
  {
    GroupRoundTrip(b0, b1, 0);
  }

  lemma GroupThenRest(v0: sextet, v1: sextet, v2: sextet, v3: sextet, v: seq<sextet>)
    requires FromSextets(v).Some?
    ensures FromSextets([v0, v1, v2, v3] + v) ==
            Some([Byte0(v0, v1), Byte1(v1, v2), Byte2(v2, v3)] + FromSextets(v).value)
  {
    assert ([v0, v1, v2, v3] + v)[4..] == v;
  }

  lemma {:induction false} SextetsRoundTrip(x: seq<byte>)
    ensures FromSextets(ToSextets(x)) == Some(x)
  {
    if |x| >= 3 {
      var v0, v1, v2, v3 := x[0] / 4, x[0] % 4 * 16 + x[1] / 16, x[1] % 16 * 4 + x[2] / 64, x[2] % 64;
      SextetsRoundTrip(x[3..]);
      GroupThenRest(v0, v1, v2, v3, ToSextets(x[3..]));
      GroupRoundTrip(x[0], x[1], x[2]);
      assert x == [x[0], x[1], x[2]] + x[3..];
    } else if |x| == 2 {
      TwoByteRoundTrip(x[0], x[1]);
      assert x == [x[0], x[1]];
    } else if |x| == 1 {
      OneByteRoundTrip(x[0]);
      assert x == [x[0]];
    }
  }

  lemma {:induction false} SextetsCanonical(v: seq<sextet>)
    requires FromSextets(v).Some?
    ensures ToSextets(FromSextets(v).value) == v
  {
    if |v| >= 4 {
      var x := FromSextets(v).value;
      GroupCanonical(v[0], v[1], v[2], v[3]);
      SextetsCanonical(v[4..]);
      assert x[3..] == FromSextets(v[4..]).value;
      assert v == [v[0], v[1], v[2], v[3]] + v[4..];
    } else if |v| == 3 {
      GroupCanonical(v[0], v[1], v[2], 0);
    } else if |v| == 2 {
      GroupCanonical(v[0], v[1], 0, 0);
    }
  }

  lemma CharSextet(alphabet: Alphabet, v: sextet)
    ensures InAlphabet(alphabet, Char(alphabet, v)) && Sextet(alphabet, Char(alphabet, v)) == v
  {
  }

  lemma SextetChar(alphabet: Alphabet, c: byte)
    requires InAlphabet(alphabet, c)
    ensures Char(alphabet, Sextet(alphabet, c)) == c
  {
  }

  lemma PadOutsideAlphabet(alphabet: Alphabet)
    ensures !InAlphabet(alphabet, PAD)
  {
  }

  lemma CharsInAlphabet(alphabet: Alphabet, v: seq<sextet>)
    ensures AllInAlphabet(alphabet, Chars(alphabet, v))
    ensures Sextets(alphabet, Chars(alphabet, v)) == v
    ensures PAD !in Chars(alphabet, v)
  {
    var s := Chars(alphabet, v);
    forall i | 0 <= i < |v|
      ensures InAlphabet(alphabet, s[i]) && Sextet(alphabet, s[i]) == v[i]
    {
      CharSextet(alphabet, v[i]);
    }
    PadOutsideAlphabet(alphabet);
  }

  lemma PadCountOf(body: seq<byte>, n: nat)
    requires body != [] ==> body[|body| - 1] != PAD
    ensures PadCount(body + Padding(n)) == |Padding(n)|
  {
    var s := body + Padding(n);
    assert n % 3 == 1 ==> s[|s| - 2..] == [PAD, PAD];
    assert n % 3 == 2 ==> s[|s| - 1..] == [PAD] && (body == [] || s[|s| - 2..][0] == body[|body| - 1]);
    if n % 3 == 0 {
      assert s == body;
      assert body != [] ==> body[|body| - 1..][0] == body[|body| - 1];
    }
  }

  /** The padding is the one that fills the last group of four. */
  lemma PaddingFills(n: nat, pads: nat)
    requires pads <= 2
    ensures (n + (n + 2) / 3 + pads) % 4 == 0 <==> pads == |Padding(n)|
  {
    assert n == n / 3 * 3 + n % 3;
    assert n + (n + 2) / 3 == n / 3 * 4 + (if n % 3 == 0 then 0 else n % 3 + 1);
  }

  lemma DecodeChars(alphabet: Alphabet, v: seq<sextet>, n: nat)
    requires (|v| + |Padding(n)|) % 4 == 0
    ensures Decode(alphabet, Chars(alphabet, v) + Padding(n)) == FromSextets(v)
  {
    var body := Chars(alphabet, v);
    var s := body + Padding(n);
    CharsInAlphabet(alphabet, v);
    PadCountOf(body, n);
    assert s[..|s| - PadCount(s)] == body;
  }

  /** Encoding loses nothing. */
  lemma DecodeEncode(alphabet: Alphabet, x: seq<byte>)
    ensures Decode(alphabet, Encode(alphabet, x)) == Some(x)
  {
    SextetsRoundTrip(x);
    PaddingFills(|x|, |Padding(|x|)|);
    DecodeChars(alphabet, ToSextets(x), |x|);
  }

  lemma PaddingIs(s: seq<byte>, n: nat)
    requires PadCount(s) == |Padding(n)|
    ensures s == s[..|s| - PadCount(s)] + Padding(n)
  {
  }

  /** Decoding accepts canonical text only: whatever it accepts is what encoding prints. */
  lemma EncodeDecode(alphabet: Alphabet, s: seq<byte>)
    requires Decode(alphabet, s).Some?
    ensures Encode(alphabet, Decode(alphabet, s).value) == s
  {
    var x := Decode(alphabet, s).value;
    var body := s[..|s| - PadCount(s)];
    var v := Sextets(alphabet, body);
    SextetsCanonical(v);
    forall i | 0 <= i < |body|
      ensures Char(alphabet, v[i]) == body[i]
    {
      SextetChar(alphabet, body[i]);
    }
    assert Chars(alphabet, v) == body;
    PaddingFills(|x|, PadCount(s));
    PaddingIs(s, |x|);
  }

  // ----- The tables of RFC 4648 -----

  /** The two alphabets, in the order of their values. */
  lemma AlphabetExactly(alphabet: Alphabet, v: sextet)
    ensures v < 26 ==> Char(alphabet, v) == Text("ABCDEFGHIJKLMNOPQRSTUVWXYZ")[v]
    ensures 26 <= v < 52 ==> Char(alphabet, v) == Text("abcdefghijklmnopqrstuvwxyz")[v - 26]
    ensures 52 <= v < 62 ==> Char(alphabet, v) == Text("0123456789")[v - 52]
    ensures v >= 62 ==> Char(alphabet, v) == (if alphabet.Standard? then Text("+/") else Text("-_"))[v - 62]
  {
    if v < 26 {
      CapitalAt(v);
    } else if v < 52 {
      SmallAt(v - 26);
    }
  }

  lemma CapitalAt(i: nat)
    requires i < 26
    ensures Text("ABCDEFGHIJKLMNOPQRSTUVWXYZ")[i] == 65 + i
  {
  }

  lemma SmallAt(i: nat)
    requires i < 26
    ensures Text("abcdefghijklmnopqrstuvwxyz")[i] == 97 + i
  {
  }

  /** The byte at `i`, or zero bits behind the end. */
  function Number(x: seq<byte>, i: nat): nat {
    if i < |x| then x[i] else 0
  }

  /** And the sextet. */
  function Group(v: seq<sextet>, i: nat): nat {
    if i < |v| then v[i] else 0
  }

  /** Three bytes and the four characters for them are the same 24-bit number, most significant bits first. */
  lemma {:induction false} SameBits(x: seq<byte>, k: nat)
    requires 3 * k < |x|
    ensures var v := ToSextets(x);
            Number(x, 3 * k) * 0x1_0000 + Number(x, 3 * k + 1) * 0x100 + Number(x, 3 * k + 2) ==
            Group(v, 4 * k) * 0x4_0000 + Group(v, 4 * k + 1) * 0x1000 + Group(v, 4 * k + 2) * 0x40 + Group(v, 4 * k + 3)
  {
    if k > 0 {
      SameBits(x[3..], k - 1);
    }
  }

  /** Test vectors of section 10. */
  lemma VectorOne()
    ensures Encode(Standard, Text("f")) == Text("Zg==")
  {
    assert Text("f") == [102] && Text("Zg==") == [90, 103, 61, 61];
    hide Text;
    assert ToSextets([102]) == [25, 32];
  }

  lemma VectorTwo()
    ensures Encode(Standard, Text("fo")) == Text("Zm8=")
  {
    assert Text("fo") == [102, 111] && Text("Zm8=") == [90, 109, 56, 61];
    hide Text;
    assert ToSextets([102, 111]) == [25, 38, 60];
  }

  lemma VectorThree()
    ensures Encode(Standard, Text("foo")) == Text("Zm9v")
  {
    assert Text("foo") == [102, 111, 111] && Text("Zm9v") == [90, 109, 57, 118];
    hide Text;
    var rest: seq<byte> := [102, 111, 111][3..];
    assert rest == [] && ToSextets([102, 111, 111]) == [25, 38, 61, 47];
  }
}
