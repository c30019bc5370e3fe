/**
 The text frame that carries a response over the link,
 `RESP<digit> <base64 length> <etag> <max age>`, an end of line, the base64
 payload and a closing end of line, with its two decoders.
 */
module ResponseCodec {
  import opened Bytes
  import opened Wrappers
  import Base64
  import Decimal
  import Utf8

  datatype Status = StatusOk | StatusErr | StatusBlocked | StatusNotModified

  datatype Response = Response(status: Status, etag: seq<byte>, maxAge: int, payload: seq<byte>)

  /** `decode_header`: an incomplete header, an error, or the header's fields with the payload's start. */
  datatype HeaderVerdict =
    | NeedMore
    | Invalid
    | Header(status: Status, payloadLen: nat, etag: seq<byte>, maxAge: int, end: nat)

  // The bytes of `RESP`.
  const MAGIC: seq<byte> := [82, 69, 83, 80]

  function StatusDigit(s: Status): byte {
    match s
    case StatusOk => 48
    case StatusErr => 49
    case StatusBlocked => 50
    case StatusNotModified => 51
  }

  function StatusOfDigit(b: byte): Option<Status> {
    if b == 48 then Some(StatusOk)
    else if b == 49 then Some(StatusErr)
    else if b == 50 then Some(StatusBlocked)
    else if b == 51 then Some(StatusNotModified)
    else None
  }

  function Body(r: Response): seq<byte> {
    Base64.Encode(Base64.Standard, r.payload)
  }

  function Fields(r: Response): seq<byte> {
    Decimal.Print(|Body(r)|) + [SPACE] + r.etag + [SPACE] + Decimal.Print(r.maxAge)
  }

  function Head(r: Response): seq<byte> {
    MAGIC + [StatusDigit(r.status), SPACE] + Fields(r)
  }

  function Encode(r: Response): seq<byte> {
    Head(r) + [LF] + Body(r) + [LF]
  }

  predicate EtagChar(b: byte) {
    65 <= b <= 90 || 97 <= b <= 122 || 48 <= b <= 57 || b == 45 || b == 95
  }

  /** The placeholder `-`, or sixteen characters of the URL-safe alphabet. */
  predicate ValidEtag(etag: seq<byte>) {
    etag == [45] || (|etag| == 16 && forall i :: 0 <= i < 16 ==> EtagChar(etag[i]))
  }

  function ParseFields(status: Status, line: seq<byte>, end: nat): (v: HeaderVerdict)
    ensures v.Header? ==> FieldsInRange(v.payloadLen, v.etag, v.maxAge)
  {
    var parts := Split(line, SPACE);
    if !Utf8.Valid(line) || |parts| < 2 || !ValidEtag(parts[1]) || |parts| != 3 then Invalid
    else
      var len, age := Decimal.ParseU32(parts[0]), Decimal.ParseI32(parts[2]);
      if len.None? || age.None? then Invalid
      else Header(status, len.value, parts[1], age.value, end)
  }

  predicate FieldsInRange(payloadLen: nat, etag: seq<byte>, maxAge: int) {
    ValidEtag(etag) && payloadLen < Decimal.U32_LIMIT && Decimal.I32_MIN <= maxAge <= Decimal.I32_MAX
  }

  /** The line at `start`, once its LF or CR has arrived. */
  function LineAt(data: seq<byte>, start: nat): Option<seq<byte>>
    requires start <= |data|
  {
    var nl := IndexOfEol(data[start..]);
    if start + nl == |data| then None else Some(data[start..start + nl])
  }

  function DecodeHeader(data: seq<byte>): (v: HeaderVerdict)
    ensures v.Header? ==> FieldsInRange(v.payloadLen, v.etag, v.maxAge)
  {
    var magic := Find(data, MAGIC);
    if magic.None? || |data| < magic.value + |MAGIC| + 2 then NeedMore
    else
      var after := magic.value + |MAGIC|;
      var status := StatusOfDigit(data[after]);
      if status.None? || data[after + 1] != SPACE then Invalid
      else
        var line := LineAt(data, after + 2);
        if line.None? then NeedMore
        else ParseFields(status.value, line.value, after + 2 + |line.value| + 1)
  }

  function DecodePayload(base64: seq<byte>): Option<seq<byte>> {
    Base64.Decode(Base64.Standard, base64)
  }

  /** A 12-byte hash prefix printed in the URL-safe alphabet; twelve bytes need no padding. */
  function EtagOfDigest(digest: seq<byte>): seq<byte>
    requires |digest| == 12
  {
    Base64.Encode(Base64.UrlSafe, digest)
  }

  /** The frame on the wire, field by field. */
  lemma WireWords(r: Response)
    ensures Encode(r) ==
            Text("RESP")
            + Text(match r.status
                   case StatusOk => "0" case StatusErr => "1" case StatusBlocked => "2" case StatusNotModified => "3")
            + Text(" ") + Decimal.Print(|Base64.Encode(Base64.Standard, r.payload)|) + Text(" ") + r.etag + Text(" ")
            + Decimal.Print(r.maxAge) + Text("\n") + Base64.Encode(Base64.Standard, r.payload) + Text("\n")
  {
    hide Decimal.Print, Base64.Encode;
    assert MAGIC == Text("RESP") && Text(" ") == [32] && Text("\n") == [10];
    assert Text("0") == [48] && Text("1") == [49] && Text("2") == [50] && Text("3") == [51];
  }

  // ----- The channel -----

  /** The telnet driver's effect on a line of bytes: any LF or CR may come out as the other. */
  ghost predicate Rewrites(sent: seq<byte>, got: seq<byte>) {
    && |sent| == |got|
    && forall i :: 0 <= i < |sent| ==> sent[i] == got[i] || (IsEol(sent[i]) && IsEol(got[i]))
  }

  /** What the two decoders together read out of `buffer` is exactly `r`. */
  ghost predicate Carries(buffer: seq<byte>, r: Response) {
    var v := DecodeHeader(buffer);
    && v.Header?
    && v == Header(r.status, |Body(r)|, r.etag, r.maxAge, v.end)
    && v.end + v.payloadLen <= |buffer|
    && DecodePayload(buffer[v.end..v.end + v.payloadLen]) == Some(r.payload)
  }

  /** The frame can name the payload's length, and its etag and age are of the header's types. */
  predicate Framable(r: Response) {
    FieldsInRange(|Body(r)|, r.etag, r.maxAge)
  }

  // ----- Alphabets -----

  lemma PrintIsPlain(n: int, i: nat)
    requires i < |Decimal.Print(n)|
    ensures Decimal.Print(n)[i] == 45 || 48 <= Decimal.Print(n)[i] <= 57
  {
    Decimal.PrintAlphabet(n, Decimal.Print(n)[i]);
  }

  /** Every header byte is printable ASCII, so the header line holds no end of line. */
  lemma FieldsPrintable(r: Response)
    requires ValidEtag(r.etag)
    ensures forall i :: 0 <= i < |Fields(r)| ==> 0x20 <= Fields(r)[i] <= 0x7E
  {
    var len, age := Decimal.Print(|Body(r)|), Decimal.Print(r.maxAge);
    forall i | 0 <= i < |len|
      ensures 0x20 <= len[i] <= 0x7E
    {
      PrintIsPlain(|Body(r)|, i);
    }
    forall i | 0 <= i < |age|
      ensures 0x20 <= age[i] <= 0x7E
    {
      PrintIsPlain(r.maxAge, i);
    }
  }

  lemma HeadPrintable(r: Response)
    requires ValidEtag(r.etag)
    ensures forall i :: 0 <= i < |Head(r)| ==> 0x20 <= Head(r)[i] <= 0x7E
  {
    FieldsPrintable(r);
    hide Fields, ValidEtag;
  }

  lemma BodyPrintable(r: Response)
    ensures forall i :: 0 <= i < |Body(r)| ==> 0x20 < Body(r)[i] <= 0x7E && Body(r)[i] != 42
  {
    var v := Base64.ToSextets(r.payload);
    forall i | 0 <= i < |v|
      ensures 0x20 < Base64.Char(Base64.Standard, v[i]) <= 0x7E && Base64.Char(Base64.Standard, v[i]) != 42
    {
    }
  }

  /** Every byte of a frame is LF or printable ASCII. */
  lemma EncodeTelnetSafe(r: Response, i: nat)
    requires ValidEtag(r.etag) && i < |Encode(r)|
    ensures Encode(r)[i] == LF || 0x20 <= Encode(r)[i] <= 0x7E
  {
    HeadPrintable(r);
    BodyPrintable(r);
    hide Head, Body, ValidEtag;
  }

  // ----- Decoding what was encoded -----

  /** `RESP` does not overlap itself, so it cannot start inside text that lacks it. */
  lemma MagicAfter(noise: seq<byte>, rest: seq<byte>)
    requires Find(noise, MAGIC).None?
    ensures Find(noise + MAGIC + rest, MAGIC) == Some(|noise|)
  {
    var s := noise + MAGIC + rest;
    assert s[|noise|..|noise| + |MAGIC|] == MAGIC;
    forall q: nat | q < |noise|
      ensures !At(s, MAGIC, q)
    {
      if q + |MAGIC| <= |noise| {
        assert s == noise + (MAGIC + rest);
        AtExtend(noise, MAGIC + rest, MAGIC, q);
      } else {
        var j := |noise| - q;
        assert s[q..q + |MAGIC|][j] == MAGIC[0];
      }
    }
    FindIs(s, MAGIC, |noise|);
  }

  lemma FieldsParse(r: Response, end: nat)
    requires Framable(r)
    ensures ParseFields(r.status, Fields(r), end) == Header(r.status, |Body(r)|, r.etag, r.maxAge, end)
  {
    var len, age := Decimal.Print(|Body(r)|), Decimal.Print(r.maxAge);
    FieldsPrintable(r);
    Utf8.AsciiValid(Fields(r));
    if SPACE in len {
      Decimal.PrintAlphabet(|Body(r)|, SPACE);
    }
    if SPACE in age {
      Decimal.PrintAlphabet(r.maxAge, SPACE);
    }
    assert Fields(r) == len + [SPACE] + (r.etag + [SPACE] + age);
    SplitThree(len, r.etag, age, SPACE);
    Decimal.U32RoundTrip(|Body(r)|);
    Decimal.I32RoundTrip(r.maxAge);
  }

  predicate NoEol(line: seq<byte>) {
    forall i :: 0 <= i < |line| ==> !IsEol(line[i])
  }

  lemma LineRead(before: seq<byte>, line: seq<byte>, eol: byte, rest: seq<byte>)
    requires NoEol(line) && IsEol(eol)
    ensures LineAt(before + (line + [eol] + rest), |before|) == Some(line)
  {
    var data := before + (line + [eol] + rest);
    assert data[|before|..] == line + [eol] + rest;
    IndexOfEolIs(line + [eol] + rest, |line|);
    assert data[|before|..|before| + |line|] == line;
  }

  /** Behind magic-free noise the header's own line is read, up to its first end of line. */
  lemma HeaderRead(noise: seq<byte>, status: Status, line: seq<byte>, eol: byte, rest: seq<byte>)
    requires Find(noise, MAGIC).None? && NoEol(line) && IsEol(eol)
    ensures DecodeHeader(noise + MAGIC + ([StatusDigit(status), SPACE] + (line + [eol] + rest))) ==
            ParseFields(status, line, |noise| + 6 + |line| + 1)
  {
    hide ParseFields, LineAt;
    var tail := line + [eol] + rest;
    var two := [StatusDigit(status), SPACE];
    var data := noise + MAGIC + (two + tail);
    MagicAfter(noise, two + tail);
    assert data == (noise + MAGIC + two) + tail;
    assert data[|noise| + 4] == two[0] && data[|noise| + 5] == two[1];
    LineRead(noise + MAGIC + two, line, eol, rest);
  }

  /** The header is read exactly behind any magic-free noise, whichever end of line closes it. */
  lemma HeaderRoundTrip(noise: seq<byte>, r: Response, eol: byte, rest: seq<byte>)
    requires Find(noise, MAGIC).None? && Framable(r) && IsEol(eol)
    ensures DecodeHeader(noise + Head(r) + [eol] + rest) ==
            Header(r.status, |Body(r)|, r.etag, r.maxAge, |noise| + |Head(r)| + 1)
  {
    hide DecodeHeader, ParseFields, Fields;
    var line := Fields(r);
    assert noise + Head(r) + [eol] + rest ==
           noise + MAGIC + ([StatusDigit(r.status), SPACE] + (line + [eol] + rest));
    FieldsPrintable(r);
    HeaderRead(noise, r.status, line, eol, rest);
    FieldsParse(r, |noise| + 6 + |line| + 1);
  }

  /** Only the two ends of line of a frame are open to the channel. */
  lemma WireShape(r: Response, wire: seq<byte>)
    requires ValidEtag(r.etag) && Rewrites(Encode(r), wire)
    ensures |wire| == |Head(r)| + |Body(r)| + 2
    ensures IsEol(wire[|Head(r)|]) && IsEol(wire[|wire| - 1])
    ensures wire == Head(r) + [wire[|Head(r)|]] + Body(r) + [wire[|wire| - 1]]
  {
    HeadPrintable(r);
    BodyPrintable(r);
    hide Head, Body, ValidEtag;
    var e, h := Encode(r), |Head(r)|;
    forall i | 0 <= i < |wire| && i != h && i != |wire| - 1
      ensures wire[i] == e[i]
    {
      assert i < h ==> e[i] == Head(r)[i];
      assert h < i < |wire| - 1 ==> e[i] == Body(r)[i - h - 1];
    }
  }

  /** A frame in place: its header is the one read, and its base64 text lies behind the header. */
  ghost predicate FrameAt(buffer: seq<byte>, r: Response, start: nat) {
    && DecodeHeader(buffer) == Header(r.status, |Body(r)|, r.etag, r.maxAge, start)
    && start + |Body(r)| <= |buffer|
    && buffer[start..start + |Body(r)|] == Body(r)
  }

  lemma PayloadOf(r: Response)
    ensures DecodePayload(Body(r)) == Some(r.payload)
  {
    Base64.DecodeEncode(Base64.Standard, r.payload);
  }

  lemma FrameCarries(buffer: seq<byte>, r: Response, start: nat)
    requires FrameAt(buffer, r, start)
    ensures Carries(buffer, r)
  {
    hide DecodeHeader, DecodePayload, Body;
    PayloadOf(r);
  }

  lemma Regroup(noise: seq<byte>, head: seq<byte>, eol: byte, body: seq<byte>, last: byte, tail: seq<byte>)
    ensures noise + (head + [eol] + body + [last]) + tail == (noise + head + [eol]) + body + ([last] + tail)
    ensures (noise + head + [eol]) + body + ([last] + tail) == noise + head + [eol] + (body + ([last] + tail))
  {
  }

  lemma WireStartsWithMagic(r: Response, wire: seq<byte>)
    requires Rewrites(Encode(r), wire)
    ensures |wire| >= 4 && wire[..4] == MAGIC
  {
    assert Encode(r)[..4] == MAGIC;
    assert forall i :: 0 <= i < 4 ==> wire[i] == Encode(r)[i];
  }

  lemma FrameOnWire(noise: seq<byte>, r: Response, wire: seq<byte>, tail: seq<byte>)
    requires Find(noise, MAGIC).None? && Framable(r) && Rewrites(Encode(r), wire)
    ensures FrameAt(noise + wire + tail, r, |noise| + |Head(r)| + 1)
  {
    hide DecodeHeader, Head, Body;
    WireShape(r, wire);
    var eol, last := wire[|Head(r)|], wire[|wire| - 1];
    Regroup(noise, Head(r), eol, Body(r), last, tail);
    HeaderRoundTrip(noise, r, eol, Body(r) + ([last] + tail));
    MiddleOf(noise + Head(r) + [eol], Body(r), [last] + tail);
  }

  /**
   Frame round trip through the telnet channel. Behind any magic-free noise,
   under any rewriting of its line ends and before any following bytes, a
   frame decodes to the response it was made from if and only if the response
   is framable.
   */
  lemma FrameRoundTrip(noise: seq<byte>, r: Response, wire: seq<byte>, tail: seq<byte>)
    requires Find(noise, MAGIC).None? && Rewrites(Encode(r), wire)
    ensures Carries(noise + wire + tail, r) <==> Framable(r)
  {
    hide DecodeHeader, DecodePayload, Body, Head, Encode, Rewrites;
    if Framable(r) {
      FrameOnWire(noise, r, wire, tail);
      FrameCarries(noise + wire + tail, r, |noise| + |Head(r)| + 1);
    }
  }

  // ----- Deciding early -----

  /**
   `decode_header` is stable under extension: a verdict other than "need more"
   reached on a prefix of the stream is the verdict on every longer prefix.
   */
  lemma DecodeHeaderStable(data: seq<byte>, more: seq<byte>)
    requires DecodeHeader(data) != NeedMore
    ensures DecodeHeader(data + more) == DecodeHeader(data)
  {
    hide ParseFields;
    FindExtend(data, more, MAGIC);
    var after := Find(data, MAGIC).value + |MAGIC|;
    if LineAt(data, after + 2).Some? {
      LineStable(data, more, after + 2);
    }
  }

  lemma LineStable(data: seq<byte>, more: seq<byte>, start: nat)
    requires start <= |data| && LineAt(data, start).Some?
    ensures LineAt(data + more, start) == LineAt(data, start)
  {
    var nl := IndexOfEol(data[start..]);
    assert (data + more)[start..] == data[start..] + more;
    IndexOfEolIs(data[start..] + more, nl);
    assert (data + more)[start..start + nl] == data[start..start + nl];
  }

  // ----- Etags -----

  /** The server's etags are always valid on the wire, and collide only when the hash prefixes do. */
  lemma EtagOfDigestValid(d1: seq<byte>, d2: seq<byte>)
    requires |d1| == 12 && |d2| == 12
    ensures ValidEtag(EtagOfDigest(d1))
    ensures EtagOfDigest(d1) == EtagOfDigest(d2) <==> d1 == d2
  {
    var v := Base64.ToSextets(d1);
    forall i | 0 <= i < 16
      ensures EtagChar(EtagOfDigest(d1)[i])
    {
      assert EtagOfDigest(d1)[i] == Base64.Char(Base64.UrlSafe, v[i]);
    }
    Base64.DecodeEncode(Base64.UrlSafe, d1);
    Base64.DecodeEncode(Base64.UrlSafe, d2);
  }
}
