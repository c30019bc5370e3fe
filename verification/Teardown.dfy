/**
 The two control texts by which a node announces that a session is over, and
 why no response frame can be mistaken for one.
 */
module Teardown {
  import opened Bytes
  import opened ResponseCodec
  import Decimal

  // `*** DISCONNECTED` and `Returned to Node`.
  const DISCONNECTED: seq<byte> := [42, 42, 42, 32, 68, 73, 83, 67, 79, 78, 78, 69, 67, 84, 69, 68]
  const RETURNED: seq<byte> := [82, 101, 116, 117, 114, 110, 101, 100, 32, 116, 111, 32, 78, 111, 100, 101]

  predicate IsSessionDead(data: seq<byte>) {
    Find(data, DISCONNECTED).Some? || Find(data, RETURNED).Some?
  }

  lemma DeadAt(data: seq<byte>)
    ensures IsSessionDead(data) <==> exists q: nat :: At(data, DISCONNECTED, q) || At(data, RETURNED, q)
  {
  }

  /** The node's words for it, anywhere in the text. */
  ghost predicate NamesTheEnd(data: seq<byte>) {
    Contains(data, Text("*** DISCONNECTED")) || Contains(data, Text("Returned to Node"))
  }

  lemma DeadExactly(data: seq<byte>)
    ensures IsSessionDead(data) <==> NamesTheEnd(data)
  {
    assert DISCONNECTED == Text("*** DISCONNECTED") && RETURNED == Text("Returned to Node");
    DeadAt(data);
  }

  lemma FrameHasNoStar(r: Response, wire: seq<byte>, i: nat)
    requires ValidEtag(r.etag) && Rewrites(Encode(r), wire) && i < |wire|
    ensures wire[i] != 42
  {
    BodyPrintable(r);
    FieldsHaveNoStar(r);
  }

  lemma FieldsHaveNoStar(r: Response)
    requires ValidEtag(r.etag)
    ensures forall i :: 0 <= i < |Fields(r)| ==> Fields(r)[i] != 42
  {
    var len, age := Decimal.Print(|Body(r)|), Decimal.Print(r.maxAge);
    forall i | 0 <= i < |len|
      ensures len[i] != 42
    {
      PrintIsPlain(|Body(r)|, i);
    }
    forall i | 0 <= i < |age|
      ensures age[i] != 42
    {
      PrintIsPlain(r.maxAge, i);
    }
  }

  /** The blanks of a frame: after the status digit, after the length, and after the etag. */
  lemma Blanks(r: Response, wire: seq<byte>, i: nat)
    requires ValidEtag(r.etag) && Rewrites(Encode(r), wire) && i < |wire|
    ensures var second := 6 + |Decimal.Print(|Body(r)|)|;
            wire[i] == SPACE <==> i == 5 || i == second || i == second + 1 + |r.etag|
  {
    hide Body, Decimal.Print;
    BodyPrintable(r);
    var len, age := Decimal.Print(|Body(r)|), Decimal.Print(r.maxAge);
    var e := Encode(r);
    assert wire[i] == SPACE <==> e[i] == SPACE;
    if 6 <= i < 6 + |len| {
      assert e[i] == len[i - 6];
      PrintIsPlain(|Body(r)|, i - 6);
    } else if 6 + |len| < i < 7 + |len| + |r.etag| {
      assert e[i] == r.etag[i - 7 - |len|];
    } else if 7 + |len| + |r.etag| < i < |Head(r)| {
      assert e[i] == age[i - |len| - 8 - |r.etag|];
      PrintIsPlain(r.maxAge, i - |len| - 8 - |r.etag|);
    } else if |Head(r)| < i < |e| - 1 {
      assert e[i] == Body(r)[i - |Head(r)| - 1];
    }
  }

  /** The first two blanks follow a digit. */
  lemma DigitBeforeBlank(r: Response, wire: seq<byte>)
    requires ValidEtag(r.etag) && Rewrites(Encode(r), wire)
    ensures wire[4] < 60 && wire[5 + |Decimal.Print(|Body(r)|)|] < 60
  {
    var len := Decimal.Print(|Body(r)|);
    assert Encode(r)[4] == StatusDigit(r.status);
    assert Encode(r)[5 + |len|] == len[|len| - 1];
    PrintIsPlain(|Body(r)|, |len| - 1);
  }

  lemma StarInMarker(s: seq<byte>, p: nat)
    requires At(s, DISCONNECTED, p)
    ensures s[p] == 42
  {
    assert s[p..p + 16][0] == 42;
  }

  lemma BlanksInMarker(s: seq<byte>, p: nat)
    requires At(s, RETURNED, p)
    ensures s[p + 7] == 100 && s[p + 8] == SPACE && s[p + 11] == SPACE
  {
    var w := s[p..p + 16];
    assert w[7] == s[p + 7] && w[8] == s[p + 8] && w[11] == s[p + 11];
  }

  lemma FrameHasNoMarker(r: Response, wire: seq<byte>, p: nat)
    requires ValidEtag(r.etag) && Rewrites(Encode(r), wire)
    ensures !At(wire, DISCONNECTED, p) && !At(wire, RETURNED, p)
  {
    hide Encode, Rewrites, ValidEtag, Decimal.Print, Body;
    if At(wire, DISCONNECTED, p) {
      StarInMarker(wire, p);
      FrameHasNoStar(r, wire, p);
    }
    if At(wire, RETURNED, p) {
      BlanksInMarker(wire, p);
      Blanks(r, wire, p + 8);
      Blanks(r, wire, p + 11);
      DigitBeforeBlank(r, wire);
    }
  }

  /** A marker cannot straddle the start of a frame: neither has an `R` past its first byte. */
  lemma MarkerNotAcross(noise: seq<byte>, wire: seq<byte>, q: nat)
    requires |wire| > 0 && wire[0] == MAGIC[0] && q < |noise| < q + 16
    ensures !At(noise + wire, DISCONNECTED, q) && !At(noise + wire, RETURNED, q)
  {
    var s, j := noise + wire, |noise| - q;
    if q + 16 <= |s| {
      assert s[q..q + 16][j] == wire[0];
      assert DISCONNECTED[j] != MAGIC[0] && RETURNED[j] != MAGIC[0];
    }
  }

  lemma MarkerFreeStream(noise: seq<byte>, r: Response, wire: seq<byte>)
    requires !IsSessionDead(noise) && ValidEtag(r.etag) && Rewrites(Encode(r), wire)
    ensures !IsSessionDead(noise + wire)
  {
    WireStartsWithMagic(r, wire);
    assert wire[0] == wire[..4][0];
    hide Encode, Rewrites, ValidEtag, IsSessionDead;
    var s := noise + wire;
    DeadAt(noise);
    forall q: nat
      ensures !At(s, DISCONNECTED, q) && !At(s, RETURNED, q)
    {
      if q + 16 <= |noise| {
        AtExtend(noise, wire, DISCONNECTED, q);
        AtExtend(noise, wire, RETURNED, q);
      } else if q < |noise| {
        MarkerNotAcross(noise, wire, q);
      } else {
        FrameHasNoMarker(r, wire, q - |noise|);
        InSecondPart(noise, wire, DISCONNECTED, q);
        InSecondPart(noise, wire, RETURNED, q);
      }
    }
    DeadAt(s);
  }

  lemma InSecondPart(a: seq<byte>, b: seq<byte>, marker: seq<byte>, q: nat)
    requires q >= |a|
    ensures At(a + b, marker, q) <==> At(b, marker, q - |a|)
  {
    var p := q - |a|;
    assert q + |marker| <= |a + b| ==> (a + b)[q..q + |marker|] == b[p..p + |marker|];
  }

  lemma PartOfPart(s: seq<byte>, lo: nat, hi: nat, q: nat)
    requires lo <= hi <= |s| && q + 16 <= hi - lo
    ensures s[lo..hi][q..q + 16] == s[lo + q..lo + q + 16]
  {
    var a, b := s[lo..hi][q..q + 16], s[lo + q..lo + q + 16];
    assert |a| == |b| && forall i :: 0 <= i < 16 ==> a[i] == b[i];
  }

  lemma MarkerFreePart(s: seq<byte>, lo: nat, hi: nat)
    requires lo <= hi <= |s| && !IsSessionDead(s)
    ensures !IsSessionDead(s[lo..hi])
  {
    var part := s[lo..hi];
    forall q: nat
      ensures !At(part, DISCONNECTED, q) && !At(part, RETURNED, q)
    {
      if q + 16 <= |part| {
        PartOfPart(s, lo, hi, q);
        assert !At(s, DISCONNECTED, lo + q) && !At(s, RETURNED, lo + q);
      }
    }
    DeadAt(part);
  }

  /**
   No false session death: after marker-free text, no prefix of the stream,
   wherever it is cut and whatever the payload, contains a teardown marker.
   */
  lemma NoFalseSessionDeath(noise: seq<byte>, r: Response, wire: seq<byte>, cut: nat)
    requires !IsSessionDead(noise) && ValidEtag(r.etag) && Rewrites(Encode(r), wire)
    requires cut <= |noise + wire|
    ensures !IsSessionDead((noise + wire)[..cut])
  {
    MarkerFreeStream(noise, r, wire);
    MarkerFreePart(noise + wire, 0, cut);
    assert (noise + wire)[0..cut] == (noise + wire)[..cut];
  }
}
