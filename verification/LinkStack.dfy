/** From TCP bytes to a decoded response: the AGWPE receive path under the reassembly of responses. */
module LinkStack {
  import opened Bytes
  import opened AgwpeFrame
  import opened AgwpeTransport
  import ResponseCodec
  import Teardown
  import Reassembly

  lemma {:induction false} PieceInFlatten(pieces: seq<seq<byte>>, i: nat) returns (lo: nat, hi: nat)
    requires i < |pieces|
    ensures lo <= hi <= |Flatten(pieces)| && pieces[i] == Flatten(pieces)[lo..hi]
  {
    if i == 0 {
      lo, hi := 0, |pieces[0]|;
    } else {
      var a, b := PieceInFlatten(pieces[1..], i - 1);
      lo, hi := |pieces[0]| + a, |pieces[0]| + b;
    }
  }

  lemma NoPieceDead(pieces: seq<seq<byte>>, i: nat)
    requires !Teardown.IsSessionDead(Flatten(pieces)) && i < |pieces|
    ensures !Teardown.IsSessionDead(pieces[i])
  {
    hide *;
    var lo, hi := PieceInFlatten(pieces, i);
    Teardown.MarkerFreePart(Flatten(pieces), lo, hi);
  }

  lemma WholeMarkerFree(pending: seq<byte>, r: ResponseCodec.Response, wire: seq<byte>)
    requires Reassembly.Harmless(pending) && Reassembly.OnWire(r, wire)
    ensures !Teardown.IsSessionDead(pending + wire)
  {
    Teardown.MarkerFreeStream(pending, r, wire);
  }

  lemma PieceSurfaces(link: Link, piece: seq<byte>)
    requires !Teardown.IsSessionDead(piece)
    ensures EventOf(DataFrame(link, piece)) == Data(piece)
  {
  }

  /**
   End to end through both layers: a response frame that a node forwards in
   data frames of its choosing, behind harmless leftovers, is served intact
   whatever the TCP stream is cut into and wherever waits are cancelled.
   */
  lemma ResponseThroughLink(link: Link, incoming: seq<StreamEvent>, pending: seq<byte>,
                            r: ResponseCodec.Response, wire: seq<byte>, pieces: seq<seq<byte>>)
    requires Reassembly.Harmless(pending) && Reassembly.OnWire(r, wire)
    requires |pending| + 3 <= Reassembly.MAX_NOISE && |pending + wire| <= Reassembly.MAX_RESPONSE_SIZE
    requires Flatten(pieces) == pending + wire
    requires Sendable(DataFrame(link, [])) && forall i :: 0 <= i < |pieces| ==> |pieces[i]| <= MAX_FRAME_DATA_SIZE
    requires Clean(incoming) && Stream(incoming) == EncodeAll(DataFrames(link, pieces))
    ensures var frames := ReadAll([], incoming).frames;
            && |frames| == |pieces|
            && (forall i :: 0 <= i < |frames| ==> EventOf(frames[i]) == Data(pieces[i]))
            && Reassembly.Served(pieces, r)
  {
    hide *;
    PiecesArrive(link, pieces, incoming);
    Reassembly.CallServed(pending, r, wire, pieces);
    WholeMarkerFree(pending, r, wire);
    forall i | 0 <= i < |pieces|
      ensures EventOf(DataFrame(link, pieces[i])) == Data(pieces[i])
    {
      NoPieceDead(pieces, i);
      PieceSurfaces(link, pieces[i]);
    }
  }
}
