/**
 The AGWPE transport: a receive buffer that turns an arbitrarily cut TCP
 stream back into frames, and the two operations that carry session data over
 those frames.
 */
module AgwpeTransport {
  import opened Bytes
  import opened Wrappers
  import opened AgwpeFrame
  import Teardown
  import Utf8

  /** The outcome of one `read` on the socket. No bytes means the peer closed; `Deadline` cancels the wait. */
  datatype StreamEvent = Bytes(bytes: seq<byte>) | Deadline | Fault

  datatype TransportError = TimedOut | NotConnected | Closed | Io | InvalidFrame

  datatype TransportEvent = Data(bytes: seq<byte>) | Disconnected

  const CHUNK: nat := 256

  datatype ReadOutcome = ReadOutcome(result: Result<Frame, TransportError>, buf: seq<byte>, incoming: seq<StreamEvent>)

  /** One `read_frame_from_stream` call. A stream with no further event makes the caller's deadline expire. */
  function ReadFrame(connected: bool, buf: seq<byte>, incoming: seq<StreamEvent>): (o: ReadOutcome)
    ensures |o.incoming| <= |incoming|
    ensures o.result.Ok? && |o.incoming| == |incoming| ==> |o.buf| < |buf|
    decreases |incoming|
  {
    match ScanBuffer(buf)
    case Ready(f, size) => ReadOutcome(Ok(f), buf[size..], incoming)
    case Refused => ReadOutcome(Err(InvalidFrame), buf, incoming)
    case NeedBytes =>
      if !connected then ReadOutcome(Err(NotConnected), buf, incoming)
      else if incoming == [] then ReadOutcome(Err(TimedOut), buf, incoming)
      else
        match incoming[0]
        case Deadline => ReadOutcome(Err(TimedOut), buf, incoming[1..])
        case Fault => ReadOutcome(Err(Io), buf, incoming[1..])
        case Bytes(b) =>
          if b == [] then ReadOutcome(Err(Closed), buf, incoming[1..])
          else ReadFrame(connected, buf + b, incoming[1..])
  }

  /** A read on a buffer without a complete frame ends as the socket does, or goes on with the bytes that came. */
  lemma ReadExactly(buf: seq<byte>, incoming: seq<StreamEvent>)
    requires ScanBuffer(buf) == NeedBytes
    ensures ReadFrame(false, buf, incoming) == ReadOutcome(Err(NotConnected), buf, incoming)
    ensures incoming == [] ==> ReadFrame(true, buf, incoming) == ReadOutcome(Err(TimedOut), buf, incoming)
    ensures incoming != [] ==>
              var o, later := ReadFrame(true, buf, incoming), incoming[1..];
              && (incoming[0] == Deadline ==> o == ReadOutcome(Err(TimedOut), buf, later))
              && (incoming[0] == Fault ==> o == ReadOutcome(Err(Io), buf, later))
              && (incoming[0] == Bytes([]) ==> o == ReadOutcome(Err(Closed), buf, later))
              && (incoming[0].Bytes? && incoming[0].bytes != [] ==>
                    o == ReadFrame(true, buf + incoming[0].bytes, later))
  {
    hide ScanBuffer;
  }

  function EventOf(f: Frame): TransportEvent {
    match f.frameType
    case Disconnect => Disconnected
    case SendData => if Teardown.IsSessionDead(f.data) then Disconnected else Data(f.data)
    case Connected => Data([])
    case Connect => Data(f.data)
    case ConnectionRejected => Disconnected
    case _ => Data([])
  }

  /** The session is over: the modem or the node says so, by the frame's kind or by the words in its data. */
  ghost predicate LinkDown(kind: byte, data: seq<byte>) {
    || kind == 'd' as int || kind == 'R' as int
    || (kind == 'D' as int
        && (Contains(data, Text("*** DISCONNECTED")) || Contains(data, Text("Returned to Node"))))
  }

  /** What the session should see of a frame, by the kind and data on the wire. */
  ghost predicate Reports(e: TransportEvent, kind: byte, data: seq<byte>) {
    if LinkDown(kind, data) then e == Disconnected
    else e == Data(if kind == 'D' as int || kind == 'C' as int then data else [])
  }

  lemma EventExactly(f: Frame)
    ensures Reports(EventOf(f), Encode(f)[4], f.data)
  {
    FrameBytes(f);
    Teardown.DeadExactly(f.data);
    hide Encode, Text, Teardown.IsSessionDead;
  }

  /** Rust's `chunks`: full pieces of `CHUNK` bytes and a non-empty rest. */
  function Chunks(data: seq<byte>): (pieces: seq<seq<byte>>)
    ensures Flatten(pieces) == data
    ensures forall p :: p in pieces ==> 1 <= |p| <= CHUNK
  {
    if data == [] then []
    else if |data| <= CHUNK then [data] + Chunks(data[|data|..])
    else [data[..CHUNK]] + Chunks(data[CHUNK..])
  }

  /** The stations and the modem port a data frame is addressed with. */
  datatype Link = Link(port: byte, local: seq<byte>, remote: seq<byte>)

  function DataFrame(link: Link, piece: seq<byte>): Frame {
    New(link.port, SendData, link.local, link.remote, piece)
  }

  function DataFrames(link: Link, pieces: seq<seq<byte>>): (frames: seq<Frame>)
    ensures |frames| == |pieces|
    ensures forall i :: 0 <= i < |pieces| ==> frames[i] == DataFrame(link, pieces[i])
  {
    seq(|pieces|, i requires 0 <= i < |pieces| => DataFrame(link, pieces[i]))
  }

  function EncodeAll(frames: seq<Frame>): seq<byte>
  {
    if frames == [] then [] else Encode(frames[0]) + EncodeAll(frames[1..])
  }

  /** What `send` puts on the socket for `data`. */
  function Coded(link: Link, data: seq<byte>): seq<byte> {
    EncodeAll(DataFrames(link, Chunks(data)))
  }

  ghost function Put(before: seq<byte>, link: Link, data: seq<byte>): seq<byte> {
    before + Coded(link, data)
  }

  class Transport {
    var connected: bool
    var readBuf: seq<byte>
    var link: Link
    /** What the socket will still deliver, and everything written to it so far. */
    var incoming: seq<StreamEvent>
    var outgoing: seq<byte>
    /** After how many bytes in all writing fails, if it ever does; and whether flushing works. */
    const limit: Option<nat>
    const flushes: bool

    constructor (link: Link, incoming: seq<StreamEvent>, limit: Option<nat>, flushes: bool)
      ensures connected && readBuf == [] && this.link == link && this.incoming == incoming && outgoing == []
      ensures this.limit == limit && this.flushes == flushes && !Past(limit, outgoing)
    {
      connected, readBuf, outgoing := true, [], [];
      this.link, this.incoming := link, incoming;
      this.limit, this.flushes := limit, flushes;
    }

    method ReadFrameFromStream() returns (r: Result<Frame, TransportError>)
      modifies this`readBuf, this`incoming
      ensures ReadOutcome(r, readBuf, incoming) == ReadFrame(connected, old(readBuf), old(incoming))
    {
      hide Decode, DataLen;
      while true
        invariant ReadFrame(connected, readBuf, incoming) == ReadFrame(connected, old(readBuf), old(incoming))
        decreases |incoming|
      {
        if |readBuf| >= HEADER_SIZE {
          var dataLen := DataLen(readBuf);
          if dataLen > MAX_FRAME_DATA_SIZE {
            return Err(InvalidFrame);
          }
          var total := HEADER_SIZE + dataLen;
          if |readBuf| >= total {
            var frame := Decode(readBuf[..total]);
            if frame.Err? {
              return Err(InvalidFrame);
            }
            readBuf := readBuf[total..];
            return Ok(frame.value);
          }
        }
        if !connected {
          return Err(NotConnected);
        }
        if incoming == [] {
          return Err(TimedOut);
        }
        var event := incoming[0];
        incoming := incoming[1..];
        match event {
          case Deadline => return Err(TimedOut);
          case Fault => return Err(Io);
          case Bytes(b) =>
            if b == [] {
              return Err(Closed);
            }
            readBuf := readBuf + b;
        }
      }
    }

    /** `expired`: the deadline lies in the past when the call starts, so the stream is not touched. */
    method Recv(expired: bool) returns (r: Result<TransportEvent, TransportError>)
      modifies this`readBuf, this`incoming
      ensures expired ==> r == Err(TimedOut) && unchanged(this)
      ensures !expired ==>
                var o := ReadFrame(connected, old(readBuf), old(incoming));
                && readBuf == o.buf && incoming == o.incoming
                && r == (if o.result.Ok? then Ok(EventOf(o.result.value)) else Err(o.result.error))
      ensures forall f, more :: !expired && connected && Ahead(f, more, old(readBuf), old(incoming)) ==>
                if r == Err(TimedOut) then !Unbroken(old(incoming)) && Ahead(f, more, readBuf, incoming)
                else r.Ok? && Reports(r.value, Encode(f)[4], f.data) && readBuf + Stream(incoming) == more
    {
      forall f, more | !expired && connected && Ahead(f, more, readBuf, incoming) {
        AheadRead(f, more, readBuf, incoming);
      }
      hide ReadFrame, Ahead, Reports, EventOf, Encode, Unbroken;
      if expired {
        return Err(TimedOut);
      }
      var frame := ReadFrameFromStream();
      if frame.Err? {
        return Err(frame.error);
      }
      r := Ok(EventOf(frame.value));
    }

    /** `write_all`: what the socket takes before it fails is gone out. */
    method WriteAll(bytes: seq<byte>) returns (ok: bool)
      requires !Past(limit, outgoing)
      modifies this`outgoing
      ensures outgoing == Upto(limit, old(outgoing) + bytes) && ok == !Past(limit, old(outgoing) + bytes)
    {
      ok := limit.None? || |outgoing| + |bytes| <= limit.value;
      outgoing := outgoing + if ok then bytes else bytes[..limit.value - |outgoing|];
    }

    method Send(data: seq<byte>) returns (r: Result<(), TransportError>)
      requires !Past(limit, outgoing)
      modifies this`outgoing
      ensures !Past(limit, outgoing)
      ensures !connected ==> r == Err(NotConnected) && outgoing == old(outgoing)
      ensures connected ==> outgoing == Upto(limit, Put(old(outgoing), link, data))
      ensures connected ==> r == if Past(limit, Put(old(outgoing), link, data)) || !flushes then Err(Io) else Ok(())
    {
      if !connected {
        return Err(NotConnected);
      }
      var rest := data;
      hide *;
      while rest != []
        invariant Put(outgoing, link, rest) == Put(old(outgoing), link, data) && !Past(limit, outgoing)
        decreases |rest|
      {
        var n := if |rest| < CHUNK then |rest| else CHUNK;
        FirstChunk(link, rest, outgoing);
        var code := Encode(DataFrame(link, rest[..n]));
        rest := rest[n..];
        WriteDecides(limit, outgoing + code, link, rest);
        var ok := WriteAll(code);
        if !ok {
          return Err(Io);
        }
      }
      NothingCoded(limit, link, outgoing);
      r := if flushes then Ok(()) else Err(Io);
    }
  }

  /** So many bytes are more than the socket takes. */
  predicate Past(limit: Option<nat>, bytes: seq<byte>) {
    limit.Some? && |bytes| > limit.value
  }

  function Upto(limit: Option<nat>, bytes: seq<byte>): seq<byte> {
    if Past(limit, bytes) then bytes[..limit.value] else bytes
  }

  lemma WriteDecides(limit: Option<nat>, before: seq<byte>, link: Link, data: seq<byte>)
    ensures Past(limit, before) ==>
              Past(limit, Put(before, link, data)) && Upto(limit, before) == Upto(limit, Put(before, link, data))
    ensures !Past(limit, before) ==> Upto(limit, before) == before
  {
    hide Coded;
  }

  lemma NothingCoded(limit: Option<nat>, link: Link, before: seq<byte>)
    ensures Put(before, link, []) == before
    ensures !Past(limit, before) ==> Upto(limit, before) == before
  {
  }

  lemma FirstChunk(link: Link, data: seq<byte>, before: seq<byte>)
    requires data != []
    ensures var n := if |data| < CHUNK then |data| else CHUNK;
            Put(before, link, data) == Put(before + Encode(DataFrame(link, data[..n])), link, data[n..])
  {
    hide Encode, EncodeAll, DataFrames, DataFrame;
    var n := if |data| < CHUNK then |data| else CHUNK;
    ChunksStep(data);
    hide Chunks;
    FramesStep(link, data[..n], Chunks(data[n..]));
    var a, b := Encode(DataFrame(link, data[..n])), Coded(link, data[n..]);
    assert before + (a + b) == before + a + b;
  }

  lemma ChunksStep(data: seq<byte>)
    requires data != []
    ensures var n := if |data| < CHUNK then |data| else CHUNK;
            Chunks(data) == [data[..n]] + Chunks(data[n..])
  {
    assert data[..|data|] == data;
  }

  lemma FramesStep(link: Link, piece: seq<byte>, pieces: seq<seq<byte>>)
    ensures EncodeAll(DataFrames(link, [piece] + pieces)) ==
            Encode(DataFrame(link, piece)) + EncodeAll(DataFrames(link, pieces))
  {
    hide Encode, DataFrame;
    var all: seq<seq<byte>> := [piece] + pieces;
    assert DataFrames(link, all)[1..] == DataFrames(link, pieces);
  }

  function PieceEnd(size: nat, i: nat): nat {
    if 256 * i + 256 < size then 256 * i + 256 else size
  }

  /** The pieces sent: 256 bytes each, in order, the last one what is left. */
  lemma {:induction false} ChunksExactly(data: seq<byte>, i: nat)
    requires i < |Chunks(data)|
    ensures 256 * i < PieceEnd(|data|, i) && Chunks(data)[i] == data[256 * i..PieceEnd(|data|, i)]
    ensures i == |Chunks(data)| - 1 <==> PieceEnd(|data|, i) == |data|
  {
    ChunksStep(data);
    var n := if |data| < CHUNK then |data| else CHUNK;
    NothingToCut(data[n..]);
    hide Chunks;
    if i > 0 {
      ChunksExactly(data[n..], i - 1);
      NextPiece(data, i);
    }
  }

  lemma NothingToCut(data: seq<byte>)
    ensures Chunks(data) == [] <==> data == []
  {
  }

  lemma NextPiece(data: seq<byte>, i: nat)
    requires i > 0 && |data| > 256 && 256 * (i - 1) < PieceEnd(|data| - 256, i - 1)
    ensures PieceEnd(|data|, i) == 256 + PieceEnd(|data| - 256, i - 1)
    ensures data[256..][256 * (i - 1)..PieceEnd(|data| - 256, i - 1)] == data[256 * i..PieceEnd(|data|, i)]
  {
    SliceOfTail(data, 256, 256 * (i - 1), PieceEnd(|data| - 256, i - 1));
  }

  /** Every piece goes out as a data frame from the local to the remote station, on the link's port. */
  lemma PieceBytes(link: Link, piece: seq<byte>)
    requires |piece| <= CHUNK
    ensures var e := Encode(DataFrame(link, piece));
            && |e| == 36 + |piece| && e[36..] == piece && e[0] == link.port && e[4] == 'D' as int
            && CallAt(e, 8, link.local) && CallAt(e, 18, link.remote)
            && e[28] as int + 0x100 * e[29] as int + 0x1_0000 * e[30] as int + 0x100_0000 * e[31] as int == |piece|
  {
    hide Encode, CallAt;
    assert |piece| % U32 == |piece|;
    FrameBytes(DataFrame(link, piece));
  }

  // ----- Any cutting of the stream -----

  /** The bytes that a run of socket events delivers. */
  function Stream(incoming: seq<StreamEvent>): seq<byte> {
    if incoming == [] then []
    else (if incoming[0].Bytes? then incoming[0].bytes else []) + Stream(incoming[1..])
  }

  /** Deadlines may cancel a wait between any two reads; the connection stays up. */
  predicate Clean(incoming: seq<StreamEvent>) {
    forall e :: e in incoming ==> e.Deadline? || (e.Bytes? && e.bytes != [])
  }

  /** The next bytes, in the buffer or on their way, are a frame and then `more`. */
  ghost predicate Ahead(f: Frame, more: seq<byte>, buf: seq<byte>, incoming: seq<StreamEvent>) {
    Sendable(f) && Clean(incoming) && buf + Stream(incoming) == Encode(f) + more
  }

  /** No deadline cancels a wait. */
  predicate Unbroken(incoming: seq<StreamEvent>) {
    forall e :: e in incoming ==> e.Bytes? && e.bytes != []
  }

  /** The frames read, and the bytes that did not become a frame. */
  datatype Parsed = Parsed(frames: seq<Frame>, rest: seq<byte>)

  /** Reading the whole stream at once. */
  function ParseAll(s: seq<byte>): Parsed {
    match ScanBuffer(s)
    case Ready(f, size) =>
      var later := ParseAll(s[size..]);
      Parsed([f] + later.frames, later.rest)
    case _ => Parsed([], s)
  }

  /** Calling `read_frame_from_stream` again and again, also after each deadline, while the stream lasts. */
  function ReadAll(buf: seq<byte>, incoming: seq<StreamEvent>): Parsed
    decreases |incoming|, |buf|
  {
    var o := ReadFrame(true, buf, incoming);
    match o.result
    case Ok(f) =>
      var later := ReadAll(o.buf, o.incoming);
      Parsed([f] + later.frames, later.rest)
    case Err(e) =>
      if e == TimedOut && |o.incoming| < |incoming| then ReadAll(o.buf, o.incoming)
      else Parsed([], o.buf + Stream(o.incoming))
  }

  /** More bytes never change a verdict that was reached without them. */
  lemma ScanStable(buf: seq<byte>, more: seq<byte>)
    requires ScanBuffer(buf) != NeedBytes
    ensures ScanBuffer(buf + more) == ScanBuffer(buf)
  {
    hide Decode, FromLittleEndian;
    assert (buf + more)[28..32] == buf[28..32];
    var total := HEADER_SIZE + DataLen(buf);
    if total <= |buf| {
      assert (buf + more)[..total] == buf[..total];
    }
  }

  /** One call, on any cutting: it delivers the first frame of the whole stream, or loses nothing by waiting. */
  lemma {:induction false} ReadRefinesScan(buf: seq<byte>, incoming: seq<StreamEvent>)
    requires Clean(incoming)
    ensures var o, s := ReadFrame(true, buf, incoming), buf + Stream(incoming);
            && Clean(o.incoming)
            && (o.result == Err(TimedOut) ==> o.buf + Stream(o.incoming) == s)
            && (o.result == Err(TimedOut) && |o.incoming| == |incoming| ==> ScanBuffer(s) == NeedBytes)
            && match ScanBuffer(s)
               case Ready(f, size) =>
                 o.result == Err(TimedOut) || (o.result == Ok(f) && o.buf + Stream(o.incoming) == s[size..])
               case Refused =>
                 o.result == Err(TimedOut) || (o.result == Err(InvalidFrame) && o.buf + Stream(o.incoming) == s)
               case NeedBytes => o.result == Err(TimedOut)
    decreases |incoming|
  {
    hide ScanBuffer;
    var s := buf + Stream(incoming);
    if ScanBuffer(buf) != NeedBytes {
      ScanStable(buf, Stream(incoming));
    } else if incoming == [] {
      assert s == buf;
    } else {
      ReadMore(buf, incoming);
      if incoming[0].Bytes? {
        hide ReadFrame, Stream, Clean;
        ReadRefinesScan(buf + incoming[0].bytes, incoming[1..]);
      }
    }
  }

  /** A buffer without a verdict takes the next event in. */
  lemma ReadMore(buf: seq<byte>, incoming: seq<StreamEvent>)
    requires Clean(incoming) && incoming != [] && ScanBuffer(buf) == NeedBytes
    ensures Clean(incoming[1..]) && !incoming[0].Fault?
    ensures incoming[0].Bytes? ==>
              var more := buf + incoming[0].bytes;
              && ReadFrame(true, buf, incoming) == ReadFrame(true, more, incoming[1..])
              && buf + Stream(incoming) == more + Stream(incoming[1..])
  {
    hide ScanBuffer;
    assert incoming[0] in incoming && forall e :: e in incoming[1..] ==> e in incoming;
    hide Clean;
    if incoming[0].Bytes? {
      assert buf + (incoming[0].bytes + Stream(incoming[1..])) == buf + incoming[0].bytes + Stream(incoming[1..]);
    }
  }

  /** Without a deadline a read times out only when it has seen everything. */
  lemma {:induction false} UnbrokenRead(buf: seq<byte>, incoming: seq<StreamEvent>)
    requires Unbroken(incoming)
    ensures var o := ReadFrame(true, buf, incoming);
            o.result == Err(TimedOut) ==> ScanBuffer(buf + Stream(incoming)) == NeedBytes
    decreases |incoming|
  {
    hide ScanBuffer;
    if ScanBuffer(buf) == NeedBytes {
      if incoming == [] {
        assert buf + Stream(incoming) == buf;
      } else {
        assert incoming[0] in incoming && forall e :: e in incoming[1..] ==> e in incoming;
        UnbrokenRead(buf + incoming[0].bytes, incoming[1..]);
        assert buf + Stream(incoming) == buf + incoming[0].bytes + Stream(incoming[1..]);
      }
    }
  }

  /** Reading what is ahead, on any cutting: the frame's report, or nothing lost when a deadline came first. */
  lemma AheadRead(f: Frame, more: seq<byte>, buf: seq<byte>, incoming: seq<StreamEvent>)
    requires Ahead(f, more, buf, incoming)
    ensures var o := ReadFrame(true, buf, incoming);
            if o.result == Err(TimedOut) then !Unbroken(incoming) && Ahead(f, more, o.buf, o.incoming)
            else
              && o.result == Ok(f) && o.buf + Stream(o.incoming) == more
              && Reports(EventOf(f), Encode(f)[4], f.data)
  {
    EventExactly(f);
    ReadRefinesScan(buf, incoming);
    ScanComplete(f, more);
    if Unbroken(incoming) {
      UnbrokenRead(buf, incoming);
    }
    hide ScanBuffer, Encode, EventOf, Reports, ReadFrame, Stream, Unbroken, Clean, Sendable;
    assert (Encode(f) + more)[|Encode(f)|..] == more;
  }

  /** Chunk independence: whatever the cuts and the cancelled waits, the frames are those of the whole stream. */
  lemma {:induction false} AnyCutting(buf: seq<byte>, incoming: seq<StreamEvent>)
    requires Clean(incoming)
    ensures ReadAll(buf, incoming) == ParseAll(buf + Stream(incoming))
    decreases |incoming|, |buf|
  {
    hide ScanBuffer, Clean, ReadFrame;
    var o := ReadFrame(true, buf, incoming);
    ReadRefinesScan(buf, incoming);
    if o.result.Ok? || (o.result == Err(TimedOut) && |o.incoming| < |incoming|) {
      AnyCutting(o.buf, o.incoming);
    }
  }

  lemma ParseStep(f: Frame, s: seq<byte>)
    requires Sendable(f)
    ensures ParseAll(Encode(f) + s) == Parsed([f] + ParseAll(s).frames, ParseAll(s).rest)
  {
    ScanComplete(f, s);
    hide ScanBuffer, Sendable, Encode;
    assert (Encode(f) + s)[|Encode(f)|..] == s;
  }

  lemma {:induction false} ParseEncoded(frames: seq<Frame>)
    requires forall f :: f in frames ==> Sendable(f)
    ensures ParseAll(EncodeAll(frames)) == Parsed(frames, [])
  {
    if frames != [] {
      hide ScanBuffer, Sendable, Encode;
      ParseEncoded(frames[1..]);
      ParseStep(frames[0], EncodeAll(frames[1..]));
      hide ParseAll;
    }
  }

  /**
   Stream reassembly: any cutting of the encodings of sendable frames, with
   cancelled waits anywhere between the reads, yields exactly those frames in
   order and leaves nothing over.
   */
  lemma StreamReassembly(frames: seq<Frame>, incoming: seq<StreamEvent>)
    requires forall f :: f in frames ==> Sendable(f)
    requires Clean(incoming) && Stream(incoming) == EncodeAll(frames)
    ensures ReadAll([], incoming) == Parsed(frames, [])
  {
    AnyCutting([], incoming);
    assert [] + Stream(incoming) == Stream(incoming);
    ParseEncoded(frames);
  }

  // ----- The data path -----

  lemma PieceOf(data: seq<byte>, i: nat) returns (lo: nat, hi: nat)
    requires i < |Chunks(data)|
    ensures lo <= hi <= |data| && Chunks(data)[i] == data[lo..hi]
  {
    hide Chunks;
    var n := if |data| < CHUNK then |data| else CHUNK;
    ChunksStep(data);
    if i == 0 {
      lo, hi := 0, n;
    } else {
      var a, b := PieceOf(data[n..], i - 1);
      SliceOfTail(data, n, a, b);
      lo, hi := n + a, n + b;
    }
  }

  lemma SliceOfTail(data: seq<byte>, n: nat, a: nat, b: nat)
    requires n <= |data| && a <= b <= |data| - n
    ensures data[n..][a..b] == data[n + a..n + b]
  {
  }

  lemma PiecesMarkerFree(data: seq<byte>)
    requires !Teardown.IsSessionDead(data)
    ensures forall i :: 0 <= i < |Chunks(data)| ==> !Teardown.IsSessionDead(Chunks(data)[i])
  {
    hide Teardown.IsSessionDead, Chunks;
    forall i | 0 <= i < |Chunks(data)|
      ensures !Teardown.IsSessionDead(Chunks(data)[i])
    {
      var lo, hi := PieceOf(data, i);
      Teardown.MarkerFreePart(data, lo, hi);
    }
  }

  /**
   Byte transparency: marker-free bytes given to `send` come out of the
   receiving side, for any cutting of the TCP stream, as Data events of 1 to
   256 bytes whose concatenation is the original.
   */
  lemma ByteTransparency(link: Link, data: seq<byte>, incoming: seq<StreamEvent>)
    requires !Teardown.IsSessionDead(data)
    requires Sendable(DataFrame(link, []))
    requires Clean(incoming) && Stream(incoming) == Coded(link, data)
    ensures ReadAll([], incoming) == Parsed(DataFrames(link, Chunks(data)), [])
    ensures Flatten(Chunks(data)) == data
    ensures forall i :: 0 <= i < |Chunks(data)| ==> DataEvent(link, Chunks(data)[i])
  {
    CodedIs(link, data);
    hide *;
    var pieces := Chunks(data);
    PiecesMarkerFree(data);
    forall i | 0 <= i < |pieces|
      ensures |pieces[i]| <= MAX_FRAME_DATA_SIZE && DataEvent(link, pieces[i])
    {
      assert pieces[i] in pieces;
      PieceEvent(link, pieces[i]);
    }
    PiecesArrive(link, pieces, incoming);
  }

  lemma CodedIs(link: Link, data: seq<byte>)
    ensures Coded(link, data) == EncodeAll(DataFrames(link, Chunks(data)))
  {
  }

  lemma PieceEvent(link: Link, piece: seq<byte>)
    requires 1 <= |piece| <= CHUNK && !Teardown.IsSessionDead(piece)
    ensures DataEvent(link, piece) && |piece| <= MAX_FRAME_DATA_SIZE
  {
    hide Teardown.IsSessionDead;
  }

  /** The frame made of a piece surfaces as Data with exactly the piece's bytes, at most `CHUNK` of them. */
  ghost predicate DataEvent(link: Link, piece: seq<byte>) {
    1 <= |piece| <= CHUNK && EventOf(DataFrame(link, piece)) == Data(piece)
  }

  lemma FramesSendable(link: Link, pieces: seq<seq<byte>>)
    requires Sendable(DataFrame(link, [])) && forall i :: 0 <= i < |pieces| ==> |pieces[i]| <= MAX_FRAME_DATA_SIZE
    ensures forall f :: f in DataFrames(link, pieces) ==> Sendable(f)
  {
    hide FitsField, Utf8.Valid;
  }

  lemma PiecesArrive(link: Link, pieces: seq<seq<byte>>, incoming: seq<StreamEvent>)
    requires Sendable(DataFrame(link, [])) && forall i :: 0 <= i < |pieces| ==> |pieces[i]| <= MAX_FRAME_DATA_SIZE
    requires Clean(incoming) && Stream(incoming) == EncodeAll(DataFrames(link, pieces))
    ensures ReadAll([], incoming) == Parsed(DataFrames(link, pieces), [])
  {
    hide *;
    FramesSendable(link, pieces);
    StreamReassembly(DataFrames(link, pieces), incoming);
  }
}
