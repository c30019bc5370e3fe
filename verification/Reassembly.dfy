/**
 How `handle_send_request` rebuilds one response from the Data events that
 follow a request, and why the k-th call of a session returns the k-th
 response however the stream is cut.
 */
module Reassembly {
  import opened Bytes
  import opened Wrappers
  import opened ResponseCodec
  import opened Teardown

  const MAX_RESPONSE_SIZE: nat := 10 * 1024 * 1024
  const MAX_NOISE: nat := 32 * 1024

  /** The payload announced by the header and where it starts. */
  datatype Frame = Frame(len: nat, start: nat)

  datatype Progress =
    | Waiting(buf: seq<byte>, frame: Option<Frame>)
    | Complete(buf: seq<byte>)
    | Died
    | Oversize
    | Aborted

  /** The header as far as `buf` shows it: a frame, nothing yet, or a reason to give up. */
  function Announced(buf: seq<byte>): Result<Option<Frame>, ()> {
    match DecodeHeader(buf)
    case Header(_, len, _, _, end) => Ok(Some(Frame(len, end)))
    case NeedMore =>
      if Find(buf, MAGIC).None? && |buf| > MAX_NOISE then Err(()) else Ok(None)
    case Invalid => Err(())
  }

  /** The effect of one Data event; `aborted` is the flag read after it was appended. */
  function Feed(buf: seq<byte>, frame: Option<Frame>, bytes: seq<byte>, aborted: bool): Progress {
    if |buf| + |bytes| > MAX_RESPONSE_SIZE then Oversize
    else
      var all := buf + bytes;
      if IsSessionDead(all) then Died
      else if aborted then Aborted
      else
        var known := if frame.Some? then Ok(frame) else Announced(all);
        if known.Err? then Died
        else if known.value.Some? && |all| >= known.value.value.start + known.value.value.len then Complete(all)
        else Waiting(all, known.value)
  }

  /** The loop over a run of Data events during which the operator does not abort. */
  function Receive(pieces: seq<seq<byte>>): Progress {
    if pieces == [] then Waiting([], None)
    else
      var n := |pieces| - 1;
      var before := Receive(pieces[..n]);
      if before.Waiting? then Feed(before.buf, before.frame, pieces[n], false) else before
  }

  /** How many pieces the call takes before it stops waiting. */
  function Taken(pieces: seq<seq<byte>>): (n: nat)
    ensures n <= |pieces|
    ensures forall m :: 0 <= m < n ==> Receive(pieces[..m]).Waiting?
    ensures n < |pieces| ==> !Receive(pieces[..n]).Waiting?
  {
    TakenFrom(pieces, 0)
  }

  function TakenFrom(pieces: seq<seq<byte>>, m: nat): (n: nat)
    requires m <= |pieces| && forall k :: 0 <= k < m ==> Receive(pieces[..k]).Waiting?
    ensures m <= n <= |pieces|
    ensures forall k :: 0 <= k < n ==> Receive(pieces[..k]).Waiting?
    ensures n < |pieces| ==> !Receive(pieces[..n]).Waiting?
    decreases |pieces| - m
  {
    if m == |pieces| || !Receive(pieces[..m]).Waiting? then m else TakenFrom(pieces, m + 1)
  }

  /** What the call returns, and what it leaves unread in the transport. */
  function Reply(pieces: seq<seq<byte>>): Progress {
    Receive(pieces[..Taken(pieces)])
  }

  function Unread(pieces: seq<seq<byte>>): seq<byte> {
    Flatten(pieces[Taken(pieces)..])
  }

  /** Text that may stand before a frame without being read as part of one. */
  ghost predicate Harmless(text: seq<byte>) {
    Find(text, MAGIC).None? && !IsSessionDead(text)
  }

  ghost predicate OnWire(r: Response, wire: seq<byte>) {
    Framable(r) && Rewrites(Encode(r), wire)
  }

  // ----- What ends the wait -----

  lemma {:induction false} WaitingBuffer(pieces: seq<seq<byte>>)
    requires Receive(pieces).Waiting?
    ensures Receive(pieces).buf == Flatten(pieces)
  {
    if pieces != [] {
      var n := |pieces| - 1;
      assert pieces == pieces[..n] + [pieces[n]];
      FlattenConcat(pieces[..n], [pieces[n]]);
      assert Flatten([pieces[n]]) == pieces[n];
      WaitingBuffer(pieces[..n]);
      hide IsSessionDead, Announced, Flatten;
    }
  }

  /**
   One more piece for a call that waits, judged by all that has come: too much,
   the node's last words, a header that cannot be one, or 32 KiB without `RESP`
   end it without a response.
   */
  lemma OneMorePiece(pieces: seq<seq<byte>>, bytes: seq<byte>)
    requires Receive(pieces).Waiting?
    ensures var all, p := Flatten(pieces) + bytes, Receive(pieces + [bytes]);
            if |all| > 10_485_760 then p == Oversize
            else if Contains(all, Text("*** DISCONNECTED")) || Contains(all, Text("Returned to Node")) then p == Died
            else if Receive(pieces).frame.None? && DecodeHeader(all).Invalid? then p == Died
            else if Receive(pieces).frame.None? && !Contains(all, Text("RESP")) then
              p == if |all| > 32_768 then Died else Waiting(all, None)
            else p.Waiting? || p == Complete(all)
  {
    var all := Flatten(pieces) + bytes;
    WaitingBuffer(pieces);
    DeadExactly(all);
    NoMagicNeedsMore(all);
    assert (pieces + [bytes])[..|pieces|] == pieces;
    hide IsSessionDead, DecodeHeader, Flatten, Text, Contains;
  }

  lemma NoMagicNeedsMore(all: seq<byte>)
    ensures Find(all, MAGIC).None? <==> !Contains(all, Text("RESP"))
    ensures Find(all, MAGIC).None? ==> DecodeHeader(all).NeedMore?
  {
    assert MAGIC == Text("RESP");
  }

  // ----- What a prefix of the stream shows -----

  function FrameOf(pending: seq<byte>, r: Response): Frame {
    Frame(|Body(r)|, |pending| + |Head(r)| + 1)
  }

  lemma WireParts(pending: seq<byte>, r: Response, wire: seq<byte>) returns (eol: byte, after: seq<byte>)
    requires OnWire(r, wire)
    ensures IsEol(eol) && pending + wire == pending + Head(r) + [eol] + after
    ensures |after| == |Body(r)| + 1 && IsEol(after[|Body(r)|])
  {
    WireShape(r, wire);
    eol := wire[|Head(r)|];
    var last := wire[|wire| - 1];
    after := Body(r) + ([last] + []);
    Regroup(pending, Head(r), eol, Body(r), last, []);
    assert pending + wire + [] == pending + wire;
  }

  /** Once the header's end has arrived it is decoded; before that nothing is, and nothing is refused. */
  lemma PrefixHeader(pending: seq<byte>, r: Response, wire: seq<byte>, cut: nat)
    requires Find(pending, MAGIC).None? && OnWire(r, wire) && cut <= |pending + wire|
    ensures var v := DecodeHeader((pending + wire)[..cut]);
            var start := FrameOf(pending, r).start;
            && (v == NeedMore || v == Header(r.status, |Body(r)|, r.etag, r.maxAge, start))
            && (cut >= start ==> v != NeedMore)
  {
    hide DecodeHeader, Head, Body, Encode, Rewrites;
    var s := pending + wire;
    var eol, after := WireParts(pending, r, wire);
    var head := pending + Head(r) + [eol];
    HeaderRoundTrip(pending, r, eol, after);
    if cut >= |head| {
      PrefixOfConcat(head, after, cut);
      HeaderRoundTrip(pending, r, eol, after[..cut - |head|]);
    } else if DecodeHeader(s[..cut]) != NeedMore {
      assert s == s[..cut] + s[cut..];
      DecodeHeaderStable(s[..cut], s[cut..]);
    }
  }

  lemma PrefixMagic(pending: seq<byte>, r: Response, wire: seq<byte>, cut: nat)
    requires OnWire(r, wire) && |pending| + 4 <= cut <= |pending + wire|
    ensures Find((pending + wire)[..cut], MAGIC).Some?
  {
    var whole, lo, hi := pending + wire, |pending|, |pending| + 4;
    WireStartsWithMagic(r, wire);
    hide OnWire;
    assert whole[lo..hi] == wire[..4];
    SliceOfPrefix(whole, cut, lo, hi);
    assert At(whole[..cut], MAGIC, lo);
  }

  lemma PrefixAnnounced(pending: seq<byte>, r: Response, wire: seq<byte>, cut: nat)
    requires Harmless(pending) && OnWire(r, wire) && |pending| + 3 <= MAX_NOISE
    requires cut <= |pending + wire|
    ensures var known := Announced((pending + wire)[..cut]);
            && (known == Ok(None) || known == Ok(Some(FrameOf(pending, r))))
            && (cut >= FrameOf(pending, r).start ==> known == Ok(Some(FrameOf(pending, r))))
  {
    PrefixHeader(pending, r, wire, cut);
    if cut > MAX_NOISE {
      PrefixMagic(pending, r, wire, cut);
    }
  }

  lemma PrefixFrame(pending: seq<byte>, r: Response, wire: seq<byte>, cut: nat)
    requires Find(pending, MAGIC).None? && OnWire(r, wire)
    requires FrameOf(pending, r).start + |Body(r)| <= cut <= |pending + wire|
    ensures FrameAt((pending + wire)[..cut], r, FrameOf(pending, r).start)
  {
    hide DecodeHeader, Head, Body, Encode, Rewrites;
    var s, start := pending + wire, FrameOf(pending, r).start;
    FrameOnWire(pending, r, wire, []);
    assert s + [] == s;
    PrefixHeader(pending, r, wire, cut);
    SliceOfPrefix(s, cut, start, start + |Body(r)|);
  }

  /** All that the loop needs to know of a stream that holds one frame, at each of its cut points. */
  ghost predicate OneFrame(s: seq<byte>, f: Frame, r: Response) {
    && |s| == f.start + f.len + 1 <= MAX_RESPONSE_SIZE
    && IsEol(s[|s| - 1])
    && forall cut: nat :: cut <= |s| ==> CutShows(s[..cut], f, r)
  }

  ghost predicate CutShows(prefix: seq<byte>, f: Frame, r: Response) {
    && !IsSessionDead(prefix)
    && (Announced(prefix) == Ok(None) || Announced(prefix) == Ok(Some(f)))
    && (|prefix| >= f.start ==> Announced(prefix) == Ok(Some(f)))
    && (|prefix| >= f.start + f.len ==> FrameAt(prefix, r, f.start))
  }

  lemma StreamIsOneFrame(pending: seq<byte>, r: Response, wire: seq<byte>)
    requires Harmless(pending) && OnWire(r, wire)
    requires |pending| + 3 <= MAX_NOISE && |pending + wire| <= MAX_RESPONSE_SIZE
    ensures OneFrame(pending + wire, FrameOf(pending, r), r)
  {
    var s, f := pending + wire, FrameOf(pending, r);
    forall cut: nat | cut <= |s|
      ensures CutShows(s[..cut], f, r)
    {
      NoFalseSessionDeath(pending, r, wire, cut);
      PrefixAnnounced(pending, r, wire, cut);
      if cut >= f.start + f.len {
        PrefixFrame(pending, r, wire, cut);
      }
    }
    var eol, after := WireParts(pending, r, wire);
    assert s[|s| - 1] == after[|Body(r)|];
  }

  // ----- One call -----

  /** The state of the loop after any prefix of the stream. */
  ghost predicate OnTrack(p: Progress, prefix: seq<byte>, f: Frame) {
    if |prefix| >= f.start + f.len then p == Complete(prefix)
    else p.Waiting? && p.buf == prefix && (p.frame == None || p.frame == Some(f))
  }

  lemma FeedOnTrack(s: seq<byte>, f: Frame, r: Response, p: Progress, cut: nat, bytes: seq<byte>)
    requires OneFrame(s, f, r)
    requires cut + |bytes| <= |s| && s[..cut] + bytes == s[..cut + |bytes|]
    requires p.Waiting? && OnTrack(p, s[..cut], f)
    ensures OnTrack(Feed(p.buf, p.frame, bytes, false), s[..cut + |bytes|], f)
  {
    assert CutShows(s[..cut + |bytes|], f, r);
  }

  lemma {:induction false} ReceiveOnTrack(s: seq<byte>, f: Frame, r: Response, pieces: seq<seq<byte>>)
    requires OneFrame(s, f, r) && Flatten(pieces) <= s
    requires forall m :: 0 <= m < |pieces| ==> Receive(pieces[..m]).Waiting?
    ensures OnTrack(Receive(pieces), Flatten(pieces), f)
  {
    if pieces == [] {
      assert CutShows(s[..0], f, r);
    } else {
      var n := |pieces| - 1;
      var before, last := pieces[..n], pieces[n];
      assert pieces == before + [last];
      FlattenSnoc(before, last);
      assert forall m :: 0 <= m < n ==> before[..m] == pieces[..m];
      ReceiveOnTrack(s, f, r, before);
      var cut := |Flatten(before)|;
      assert s[..cut] == Flatten(before);
      assert s[..cut + |last|] == Flatten(pieces);
      FeedOnTrack(s, f, r, Receive(before), cut, last);
    }
  }

  /** The call returned a buffer that decodes to `r` and left at most the frame's closing byte unread. */
  ghost predicate Served(pieces: seq<seq<byte>>, r: Response) {
    && Reply(pieces).Complete?
    && Carries(Reply(pieces).buf, r)
    && |Unread(pieces)| <= 1
    && (Unread(pieces) != [] ==> IsEol(Unread(pieces)[0]))
  }

  lemma OneFrameServed(s: seq<byte>, f: Frame, r: Response, pieces: seq<seq<byte>>)
    requires OneFrame(s, f, r) && Flatten(pieces) == s
    ensures Served(pieces, r)
  {
    hide FrameAt, Carries, Announced, IsSessionDead, Feed;
    var n := Taken(pieces);
    var taken, left := pieces[..n], pieces[n..];
    assert pieces == taken + left;
    FlattenConcat(taken, left);
    assert forall m :: 0 <= m < n ==> taken[..m] == pieces[..m];
    ReceiveOnTrack(s, f, r, taken);
    var cut := |Flatten(taken)|;
    assert s[..cut] == Flatten(taken);
    assert CutShows(s[..cut], f, r);
    assert n == |pieces| ==> taken == pieces;
    FrameCarries(s[..cut], r, f.start);
    assert Flatten(left) == s[cut..];
  }

  lemma CallServed(pending: seq<byte>, r: Response, wire: seq<byte>, pieces: seq<seq<byte>>)
    requires Harmless(pending) && OnWire(r, wire)
    requires |pending| + 3 <= MAX_NOISE && |pending + wire| <= MAX_RESPONSE_SIZE
    requires Flatten(pieces) == pending + wire
    ensures Served(pieces, r)
  {
    StreamIsOneFrame(pending, r, wire);
    OneFrameServed(pending + wire, FrameOf(pending, r), r, pieces);
  }

  lemma FirstPieceFatal(first: seq<byte>, rest: seq<byte>) returns (pieces: seq<seq<byte>>)
    requires Find(first, MAGIC).None? && |first| > MAX_NOISE
    ensures Flatten(pieces) == first + rest && !Reply(pieces).Complete?
  {
    pieces := [first, rest];
    assert pieces[1..] == [rest] && [rest][1..] == [];
    assert Flatten([rest]) == rest + Flatten([]);
    assert [] + first == first;
    assert pieces[..0] == [] && pieces[..1] == [first];
    assert pieces[..1][..0] == pieces[..0];
    assert Receive(pieces[..1]) == Feed([], None, first, false);
    assert Taken(pieces) == 1;
  }

  /** A cut that makes the call fail when the text before the frame is too long. */
  lemma LongNoiseFails(pending: seq<byte>, r: Response, wire: seq<byte>)
    requires Harmless(pending) && OnWire(r, wire) && |pending| + 3 > MAX_NOISE
    ensures exists pieces :: Flatten(pieces) == pending + wire && !Served(pieces, r)
  {
    hide *;
    NoMagicYet(pending, r, wire);
    var s, cut := pending + wire, |pending| + 3;
    var pieces := FirstPieceFatal(s[..cut], s[cut..]);
    assert s[..cut] + s[cut..] == s;
    NotServed(pieces, r);
  }

  lemma NotServed(pieces: seq<seq<byte>>, r: Response)
    requires !Reply(pieces).Complete?
    ensures !Served(pieces, r)
  {
  }

  lemma NoMagicYet(pending: seq<byte>, r: Response, wire: seq<byte>)
    requires Harmless(pending) && OnWire(r, wire)
    ensures |wire| >= 4 && Find((pending + wire)[..|pending| + 3], MAGIC).None?
  {
    var b := (pending + wire)[..|pending| + 3];
    var whole := pending + MAGIC + [];
    MagicAfter(pending, []);
    WireStartsWithMagic(r, wire);
    hide OnWire;
    assert forall i :: 0 <= i < 3 ==> wire[i] == wire[..4][i];
    assert whole == b + [MAGIC[3]];
    forall q: nat
      ensures !At(b, MAGIC, q)
    {
      if q + 4 <= |b| {
        AtExtend(b, [MAGIC[3]], MAGIC, q);
      }
    }
  }

  lemma LongStreamFails(pending: seq<byte>, r: Response, wire: seq<byte>)
    requires |pending + wire| > MAX_RESPONSE_SIZE
    ensures exists pieces :: Flatten(pieces) == pending + wire && !Served(pieces, r)
  {
    var s := pending + wire;
    var pieces := [s];
    assert Flatten(pieces) == s + Flatten([]);
    assert pieces[..0] == [] && pieces[..1] == pieces;
    assert Receive(pieces) == Oversize;
    assert Reply(pieces) == Oversize;
  }

  /**
   Exactly when a call is safe under every cutting: the text still pending
   before the frame leaves room for three bytes of magic in the 32 KiB limit,
   and pending text and frame together stay within the response limit.
   */
  lemma EveryCutServed(pending: seq<byte>, r: Response, wire: seq<byte>)
    requires Harmless(pending) && OnWire(r, wire)
    ensures (forall pieces :: Flatten(pieces) == pending + wire ==> Served(pieces, r))
       <==> |pending| + 3 <= MAX_NOISE && |pending + wire| <= MAX_RESPONSE_SIZE
  {
    if |pending| + 3 > MAX_NOISE {
      LongNoiseFails(pending, r, wire);
    } else if |pending + wire| > MAX_RESPONSE_SIZE {
      LongStreamFails(pending, r, wire);
    } else {
      forall pieces | Flatten(pieces) == pending + wire
        ensures Served(pieces, r)
      {
        CallServed(pending, r, wire, pieces);
      }
    }
  }

  // ----- A whole session -----

  /** One request's turn: the server's answer, its bytes after the channel, and the events they arrive in. */
  datatype Exchange = Exchange(response: Response, wire: seq<byte>, pieces: seq<seq<byte>>)

  /**
   A run without timeouts, aborts or deaths: the server answers request k once
   and only after it was sent, so call k sees what call k - 1 left unread
   followed by answer k, in any pieces.
   */
  ghost predicate Conversation(pending: seq<byte>, run: seq<Exchange>)
    decreases |run|
  {
    run != [] ==>
      && OnWire(run[0].response, run[0].wire)
      && |pending + run[0].wire| <= MAX_RESPONSE_SIZE
      && Flatten(run[0].pieces) == pending + run[0].wire
      && Conversation(Unread(run[0].pieces), run[1..])
  }

  lemma EolHarmless(text: seq<byte>)
    requires |text| <= 1
    ensures Harmless(text)
  {
  }

  lemma ConversationStep(pending: seq<byte>, run: seq<Exchange>)
    requires Harmless(pending) && |pending| + 3 <= MAX_NOISE
    requires Conversation(pending, run) && run != []
    ensures Served(run[0].pieces, run[0].response)
    ensures Harmless(Unread(run[0].pieces)) && |Unread(run[0].pieces)| + 3 <= MAX_NOISE
  {
    CallServed(pending, run[0].response, run[0].wire, run[0].pieces);
    EolHarmless(Unread(run[0].pieces));
  }

  /** Alignment: the k-th call's buffer decodes to exactly the k-th response. */
  lemma {:induction false} Alignment(pending: seq<byte>, run: seq<Exchange>, k: nat)
    requires Harmless(pending) && |pending| + 3 <= MAX_NOISE
    requires Conversation(pending, run) && k < |run|
    ensures Served(run[k].pieces, run[k].response)
    decreases k
  {
    hide Served, OnWire, Harmless, Unread;
    ConversationStep(pending, run);
    if k > 0 {
      Alignment(Unread(run[0].pieces), run[1..], k - 1);
    }
  }
}
