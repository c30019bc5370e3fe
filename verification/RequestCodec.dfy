/**
 The request line protocol: `GET url`, `GET url IF-NONE-MATCH etag` and
 `POST url` with a length-prefixed body, printed and parsed on whole buffers.
 */
module RequestCodec {
  import opened Bytes
  import opened Wrappers
  import Utf8

  /** URLs and etags are Rust strings: UTF-8 bytes. */
  datatype Request =
    | Get(url: seq<byte>, ifNoneMatch: Option<seq<byte>>)
    | Post(url: seq<byte>, body: seq<byte>)

  // `GET `, `POST ` and ` IF-NONE-MATCH `.
  const GET: seq<byte> := [71, 69, 84, 32]
  const POST: seq<byte> := [80, 79, 83, 84, 32]
  const SENTINEL: seq<byte> := [32, 73, 70, 45, 78, 79, 78, 69, 45, 77, 65, 84, 67, 72, 32]

  const U32: nat := 0x1_0000_0000

  lemma Words()
    ensures GET == Text("GET ") && POST == Text("POST ") && SENTINEL == Text(" IF-NONE-MATCH ")
  {
  }

  /** `(len as u32).to_be_bytes()`: longer bodies wrap around. */
  function BigEndian(n: nat): (b: seq<byte>)
    ensures |b| == 4
  {
    var m := n % U32;
    [m / 0x100_0000, m / 0x1_0000 % 0x100, m / 0x100 % 0x100, m % 0x100]
  }

  function FromBigEndian(b: seq<byte>): (n: nat)
    requires |b| == 4
    ensures n < U32
  {
    ((b[0] as int * 0x100 + b[1]) * 0x100 + b[2]) * 0x100 + b[3]
  }

  /** What follows the verb on a request's first line. */
  function Target(r: Request): seq<byte> {
    match r
    case Get(url, None) => url
    case Get(url, Some(etag)) => url + SENTINEL + etag
    case Post(url, _) => url
  }

  /** A request's first line without its LF. */
  function Line(r: Request): seq<byte> {
    (if r.Get? then GET else POST) + Target(r)
  }

  function Encode(r: Request): seq<byte> {
    match r
    case Get(_, _) => Line(r) + [LF]
    case Post(_, body) => Line(r) + [LF] + BigEndian(|body|) + body
  }

  /** Rust's `split_once` at the sentinel. */
  function ParseTarget(rest: seq<byte>): (r: Request)
    ensures r.Get?
  {
    match Find(rest, SENTINEL)
    case Some(p) => Get(rest[..p], Some(rest[p + |SENTINEL|..]))
    case None => Get(rest, None)
  }

  function DecodePost(url: seq<byte>, data: seq<byte>): Result<Request, ()> {
    if |data| < 4 then Err(())
    else
      var n := FromBigEndian(data[..4]);
      if |data| < 4 + n then Err(()) else Ok(Post(url, data[4..4 + n]))
  }

  /** The text before the first LF, when there is one and it is UTF-8. */
  function FirstLine(data: seq<byte>): Option<seq<byte>> {
    var nl := IndexOf(data, LF);
    if nl == |data| || !Utf8.Valid(data[..nl]) then None else Some(data[..nl])
  }

  function Decode(data: seq<byte>): Result<Request, ()> {
    if StartsWith(data, GET) then
      var target := FirstLine(data[|GET|..]);
      if target.None? then Err(()) else Ok(ParseTarget(target.value))
    else if StartsWith(data, POST) then
      var url := FirstLine(data[|POST|..]);
      if url.None? then Err(()) else DecodePost(url.value, data[|POST| + |url.value| + 1..])
    else Err(())
  }

  ghost predicate ValidText(r: Request) {
    Utf8.Valid(r.url) && (r.Get? && r.ifNoneMatch.Some? ==> Utf8.Valid(r.ifNoneMatch.value))
  }

  /** Exactly the requests that the line protocol can carry. */
  ghost predicate Transportable(r: Request) {
    && LF !in r.url
    && match r
       case Get(url, None) => !Contains(url, SENTINEL)
       case Get(url, Some(etag)) =>
         LF !in etag && !Contains(url, SENTINEL) && !EndsWith(url, SENTINEL[..|SENTINEL| - 1])
       case Post(_, body) => |body| < U32
  }

  // ----- Pieces -----

  lemma BigEndianRoundTrip(n: nat)
    ensures FromBigEndian(BigEndian(n)) == n % U32
  {
    var m := n % U32;
    assert m == m / 0x100 * 0x100 + m % 0x100;
    assert m / 0x100 == m / 0x1_0000 * 0x100 + m / 0x100 % 0x100;
    assert m / 0x1_0000 == m / 0x100_0000 * 0x100 + m / 0x1_0000 % 0x100;
  }

  lemma FirstLineOf(text: seq<byte>, rest: seq<byte>)
    requires Utf8.Valid(text)
    ensures LF !in text ==> FirstLine(text + [LF] + rest) == Some(text)
    ensures LF in text && FirstLine(text + [LF] + rest).Some? ==>
              |FirstLine(text + [LF] + rest).value| < |text|
  {
    var data := text + [LF] + rest;
    assert data[..|text|] == text;
    if LF !in text {
      IndexOfIs(data, LF, |text|);
    } else {
      var i :| 0 <= i < |text| && text[i] == LF;
      assert data[i] == LF;
    }
  }

  /** The sentinel meets itself only in its blank ends, so it can start before the URL's end only there. */
  lemma SentinelPosition(url: seq<byte>, etag: seq<byte>)
    ensures Find(url + SENTINEL + etag, SENTINEL) == Some(|url|) <==>
            !Contains(url, SENTINEL) && !EndsWith(url, SENTINEL[..14])
  {
    var s := url + SENTINEL + etag;
    assert s == url + (SENTINEL + etag);
    assert s[|url|..|url| + 15] == SENTINEL;
    forall q: nat | q < |url|
      ensures At(s, SENTINEL, q) <==> At(url, SENTINEL, q) || (q + 14 == |url| && EndsWith(url, SENTINEL[..14]))
    {
      if q + 15 <= |url| {
        AtExtend(url, SENTINEL + etag, SENTINEL, q);
      } else {
        SentinelOverlap(url, etag, q);
      }
    }
    assert At(s, SENTINEL, |url|);
    assert EndsWith(url, SENTINEL[..14]) ==> At(s, SENTINEL, |url| - 14);
  }

  lemma SentinelOverlap(url: seq<byte>, etag: seq<byte>, q: nat)
    requires q < |url| < q + 15
    ensures At(url + SENTINEL + etag, SENTINEL, q) <==> q + 14 == |url| && EndsWith(url, SENTINEL[..14])
  {
    var s, j := url + SENTINEL + etag, |url| - q;
    var w := s[q..q + 15];
    assert w[j] == SENTINEL[0];
    if j == 14 {
      assert w == url[q..] + [SENTINEL[0]];
      assert SENTINEL == SENTINEL[..14] + [SENTINEL[14]];
      assert w[..14] == url[q..];
    } else {
      assert SENTINEL[j] != SENTINEL[0];
    }
  }

  // ----- Round trips -----

  lemma TargetOfParse(text: seq<byte>)
    ensures Target(ParseTarget(text)) == text
  {
    var p := Find(text, SENTINEL);
    if p.Some? {
      assert text == text[..p.value] + text[p.value..p.value + 15] + text[p.value + 15..];
    }
  }

  lemma ParseOfTarget(r: Request)
    requires r.Get?
    ensures ParseTarget(Target(r)) == r <==>
            !Contains(r.url, SENTINEL) && (r.ifNoneMatch.Some? ==> !EndsWith(r.url, SENTINEL[..14]))
  {
    match r
    case Get(url, None) =>
    case Get(url, Some(etag)) =>
      var text := url + SENTINEL + etag;
      SentinelPosition(url, etag);
      assert text[..|url|] == url && text[|url| + 15..] == etag;
  }

  lemma GetDecodes(text: seq<byte>, rest: seq<byte>)
    requires Utf8.Valid(text)
    ensures LF !in text ==> Decode(GET + text + [LF] + rest) == Ok(ParseTarget(text))
    ensures LF in text && Decode(GET + text + [LF] + rest).Ok? ==>
              Target(Decode(GET + text + [LF] + rest).value) != text
  {
    var data := GET + text + [LF] + rest;
    assert data[4..] == text + [LF] + rest && StartsWith(data, GET);
    FirstLineOf(text, rest);
    var target := FirstLine(text + [LF] + rest);
    if target.Some? {
      TargetOfParse(target.value);
    }
  }

  lemma GetRoundTrip(r: Request, rest: seq<byte>)
    requires r.Get? && ValidText(r)
    ensures Decode(Encode(r) + rest) == Ok(r) <==> Transportable(r)
  {
    var text := Target(r);
    TextValid(r);
    GetDecodes(text, rest);
    ParseOfTarget(r);
    assert LF !in SENTINEL;
    assert LF in text <==> LF in r.url || (r.ifNoneMatch.Some? && LF in r.ifNoneMatch.value);
  }

  lemma TextValid(r: Request)
    requires ValidText(r)
    ensures Utf8.Valid(Target(r))
  {
    match r
    case Get(url, None) =>
    case Get(url, Some(etag)) =>
      Utf8.AsciiValid(SENTINEL);
      Utf8.ValidConcat(url, SENTINEL);
      Utf8.ValidConcat(url + SENTINEL, etag);
    case Post(_, _) =>
  }

  lemma PostDecodes(url: seq<byte>, tail: seq<byte>)
    requires Utf8.Valid(url)
    ensures LF !in url ==> Decode(POST + (url + [LF] + tail)) == DecodePost(url, tail)
    ensures LF in url && Decode(POST + (url + [LF] + tail)).Ok? ==>
              Decode(POST + (url + [LF] + tail)).value.url != url
  {
    hide DecodePost;
    var data := POST + (url + [LF] + tail);
    assert data[5..] == url + [LF] + tail && StartsWith(data, POST) && data[0] != GET[0];
    FirstLineOf(url, tail);
    if LF !in url {
      assert data[5 + |url| + 1..] == tail;
    } else if Decode(data).Ok? {
      DecodedPostUrl(data);
    }
  }

  lemma DecodedPostUrl(data: seq<byte>)
    requires StartsWith(data, POST) && data[0] != GET[0] && Decode(data).Ok?
    ensures FirstLine(data[5..]) == Some(Decode(data).value.url)
  {
  }

  lemma PostRoundTrip(r: Request, rest: seq<byte>)
    requires r.Post? && ValidText(r)
    ensures Decode(Encode(r) + rest) == Ok(r) <==> Transportable(r)
  {
    hide Decode, DecodePost;
    var tail := BigEndian(|r.body|) + r.body + rest;
    assert Encode(r) + rest == POST + (r.url + [LF] + tail);
    PostDecodes(r.url, tail);
    BodyRoundTrip(r.url, r.body, rest);
  }

  lemma BodyRoundTrip(url: seq<byte>, body: seq<byte>, rest: seq<byte>)
    ensures DecodePost(url, BigEndian(|body|) + body + rest) == Ok(Post(url, body)) <==> |body| < U32
  {
    var data := BigEndian(|body|) + body + rest;
    BigEndianRoundTrip(|body|);
    assert data[..4] == BigEndian(|body|);
    if |body| < U32 {
      assert data[4..4 + |body|] == body;
    }
  }

  /**
   Request round trip, exact: a request survives printing and parsing, with
   any bytes behind it, if and only if it is transportable.
   */
  lemma RoundTrip(r: Request, rest: seq<byte>)
    requires ValidText(r)
    ensures Decode(Encode(r) + rest) == Ok(r) <==> Transportable(r)
  {
    if r.Get? {
      GetRoundTrip(r, rest);
    } else {
      PostRoundTrip(r, rest);
    }
  }
}
