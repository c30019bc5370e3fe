/**
 The server's incremental request reader: bounded lines and exact bodies read
 from a socket whose waits are cut into short polls, under a wall-clock
 deadline.
 */
module ServerReader {
  import opened Bytes
  import opened Wrappers
  import opened RequestCodec
  import Utf8

  const MAX_LINE_LENGTH: nat := 1024
  const LINE_CAP: nat := MAX_LINE_LENGTH + 1
  const MAX_BODY_SIZE: nat := 1024 * 1024

  datatype ReadError =
    | TimedOut | Fault
    | TooLong | MidLineEof | BadUtf8 | ShortBody | EmptyUrl | BadFormat | BodyTooLarge

  datatype Reading<T> = Got(value: T) | EndOfInput | Failed(error: ReadError)

  /** A reading of a byte stream and how many bytes of it were used up. */
  datatype Parse<T> = Parse(reading: Reading<T>, used: nat)

  // ----- What the readers compute, as functions of the whole stream -----

  /** The first line of a stream that will not grow any more, its LF included. */
  function LineOf(a: seq<byte>): (p: Parse<seq<byte>>)
    ensures p.used <= |a|
  {
    var nl := IndexOf(a, LF);
    if nl < |a| && nl < LINE_CAP then
      Parse(if Utf8.Valid(a[..nl + 1]) then Got(a[..nl + 1]) else Failed(BadUtf8), nl + 1)
    else if |a| >= LINE_CAP then Parse(Failed(TooLong), LINE_CAP)
    else if a == [] then Parse(EndOfInput, 0)
    else Parse(Failed(MidLineEof), |a|)
  }

  function ExactOf(a: seq<byte>, n: nat): (p: Parse<seq<byte>>)
    ensures p.used <= |a|
  {
    if n <= |a| then Parse(Got(a[..n]), n) else Parse(Failed(ShortBody), |a|)
  }

  function BodyOf(url: seq<byte>, a: seq<byte>): (p: Parse<Request>)
    ensures p.used <= |a|
  {
    var len := ExactOf(a, 4);
    if !len.reading.Got? then Parse(Failed(len.reading.error), len.used)
    else
      var n := FromBigEndian(len.reading.value);
      if n > MAX_BODY_SIZE then Parse(Failed(BodyTooLarge), 4)
      else
        var body := ExactOf(a[4..], n);
        if body.reading.Got? then Parse(Got(Post(url, body.reading.value)), 4 + body.used)
        else Parse(Failed(ShortBody), 4 + body.used)
  }

  /** The request that a trimmed first line begins, given the bytes after that line. */
  function RequestAfter(trimmed: seq<byte>, later: seq<byte>): (p: Parse<Request>)
    ensures p.used <= |later|
  {
    if StartsWith(trimmed, GET) then
      var rest := trimmed[|GET|..];
      Parse(if rest == [] then Failed(EmptyUrl) else Got(ParseTarget(rest)), 0)
    else if StartsWith(trimmed, POST) then
      var url := trimmed[|POST|..];
      if url == [] then Parse(Failed(EmptyUrl), 0) else BodyOf(url, later)
    else Parse(Failed(BadFormat), 0)
  }

  function RequestOf(a: seq<byte>): (p: Parse<Request>)
    ensures p.used <= |a|
    ensures p.reading.Got? ==> 0 < p.used
  {
    var line := LineOf(a);
    match line.reading
    case EndOfInput => Parse(EndOfInput, line.used)
    case Failed(e) => Parse(Failed(e), line.used)
    case Got(text) =>
      var r := RequestAfter(Utf8.Trim(text), a[line.used..]);
      Parse(r.reading, line.used + r.used)
  }

  /** All requests of a stream, in order, up to its end or the first fault in it. */
  function RequestsOf(a: seq<byte>): seq<Request>
    decreases |a|
  {
    var p := RequestOf(a);
    if p.reading.Got? then [p.reading.value] + RequestsOf(a[p.used..]) else []
  }

  // ----- The socket -----

  type Chunk = b: seq<byte> | b != [] witness [0]

  /** What one read on the socket brings, after `wait` units of time. */
  datatype Event = Arrive(bytes: Chunk, wait: nat) | Poll(wait: nat) | Broken(wait: nat)

  function Arriving(script: seq<Event>): seq<byte> {
    if script == [] then []
    else (if script[0].Arrive? then script[0].bytes else []) + Arriving(script[1..])
  }

  function Waiting(script: seq<Event>): nat {
    if script == [] then 0 else script[0].wait + Waiting(script[1..])
  }

  predicate Sound(script: seq<Event>) {
    forall e :: e in script ==> !e.Broken?
  }

  datatype Fill = Filled | Eof | Again | Bad

  /** Why `read_until` came back: it found what it wanted or the end, a poll ran out, or the socket failed. */
  datatype Stop = Done | Blocked | Bust

  class Socket {
    /** Bytes in the buffered reader, what the peer still does, and the clock. After the script the peer has closed. */
    var buffered: seq<byte>
    var script: seq<Event>
    var now: nat

    constructor (script: seq<Event>, now: nat)
      ensures buffered == [] && this.script == script && this.now == now
    {
      buffered := [];
      this.script, this.now := script, now;
    }

    /** Every byte the reader has yet to hand out. */
    function Avail(): seq<byte>
      reads this
    {
      buffered + Arriving(script)
    }

    /** Nothing is pending, and the peer sends nothing any more. */
    predicate Silent()
      reads this
    {
      buffered == [] && forall e :: e in script ==> e.Poll?
    }

    /** When the last event will have happened. */
    function Horizon(): (h: nat)
      reads this
      ensures h >= now
    {
      now + Waiting(script)
    }

    method FillBuf() returns (f: Fill)
      modifies this
      ensures Avail() == old(Avail()) && Horizon() == old(Horizon()) && now >= old(now)
      ensures old(Sound(script)) ==> Sound(script) && f != Bad
      ensures old(Silent()) ==> Silent() && f == (if old(script) == [] then Eof else Again)
      ensures old(Silent()) && old(script) != [] ==> |script| < |old(script)|
      ensures f == Filled ==> buffered != [] && (script == old(script) || |script| < |old(script)|)
      ensures f == Eof ==> buffered == [] && script == []
      ensures f == Again || f == Bad ==> |script| < |old(script)|
    {
      if buffered != [] {
        return Filled;
      }
      if script == [] {
        return Eof;
      }
      var e := script[0];
      assert e in script && forall x :: x in script[1..] ==> x in script;
      script, now := script[1..], now + e.wait;
      match e {
        case Arrive(bytes, _) =>
          buffered := bytes;
          f := Filled;
        case Poll(_) => f := Again;
        case Broken(_) => f := Bad;
      }
    }

    /** `take(limit).read_until(b'\n', ..)`: `got` is what it appends. */
    method ReadUntil(limit: nat) returns (stop: Stop, got: seq<byte>)
      modifies this
      ensures old(Avail()) == got + Avail()
      ensures Horizon() == old(Horizon()) && now >= old(now) && |script| <= |old(script)|
      ensures old(Sound(script)) ==> Sound(script) && stop != Bust
      ensures old(Silent()) && limit > 0 ==>
                Silent() && got == [] && stop == (if old(script) == [] then Done else Blocked)
      ensures |got| <= limit && NoLfBeforeLast(got)
      ensures stop == Done ==> EndsLf(got) || |got| == limit || Avail() == []
      ensures stop == Blocked ==> |script| < |old(script)|
    {
      hide *;
      got := [];
      AppendNothing(Avail());
      while |got| < limit
        invariant old(Avail()) == got + Avail()
        invariant Horizon() == old(Horizon()) && now >= old(now) && |script| <= |old(script)|
        invariant old(Sound(script)) ==> Sound(script)
        invariant |got| <= limit && LF !in got
        invariant old(Silent()) ==> got == [] && Silent() && script == old(script)
        decreases |script|, limit - |got|
      {
        var f := FillBuf();
        match f {
          case Eof =>
            NothingLeft();
            NoLfYet(got);
            return Done, got;
          case Again =>
            NoLfYet(got);
            return Blocked, got;
          case Bad =>
            NoLfYet(got);
            return Bust, got;
          case Filled =>
        }
        var n := if |buffered| < limit - |got| then |buffered| else limit - |got|;
        var nl := IndexOf(buffered[..n], LF);
        PartTaken(got, buffered, n);
        var bytes := Take(if nl < n then nl + 1 else n);
        Append(got, bytes, Avail());
        got := got + bytes;
        if nl < n {
          return Done, got;
        }
      }
      NoLfYet(got);
      stop := Done;
    }

    /** `consume`: hands out the front of the buffer. */
    method Take(n: nat) returns (bytes: seq<byte>)
      requires n <= |buffered|
      modifies this`buffered
      ensures bytes == old(buffered)[..n] && old(Avail()) == bytes + Avail()
      ensures Horizon() == old(Horizon())
    {
      bytes := buffered[..n];
      TakeFront(buffered, n, Arriving(script));
      buffered := buffered[n..];
    }

    lemma NothingLeft()
      requires buffered == [] && script == []
      ensures Avail() == []
    {
    }

    lemma ScriptOver()
      ensures script == [] ==> Horizon() == now
    {
    }

    /** One line of at most `LINE_CAP` bytes, its LF included. */
    method ReadBoundedLineUntil(deadline: nat) returns (r: Reading<seq<byte>>)
      modifies this
      ensures Horizon() == old(Horizon()) && now >= old(now) && |script| <= |old(script)|
      ensures old(Sound(script)) ==> Sound(script) && r != Failed(Fault)
      ensures r == Failed(TimedOut) ==> now >= deadline
      ensures old(now) >= deadline ==> r == Failed(TimedOut) && Avail() == old(Avail())
      ensures old(Silent()) && deadline <= old(Horizon()) ==> r == Failed(TimedOut)
      ensures r != Failed(TimedOut) && r != Failed(Fault) ==>
                var p := LineOf(old(Avail()));
                r == p.reading && Avail() == old(Avail())[p.used..]
    {
      hide *;
      var buf: seq<byte> := [];
      AppendNothing(Avail());
      while true
        invariant Horizon() == old(Horizon()) && now >= old(now) && |script| <= |old(script)|
        invariant old(Sound(script)) ==> Sound(script)
        invariant old(Avail()) == buf + Avail()
        invariant LF !in buf && |buf| <= LINE_CAP
        invariant old(now) >= deadline ==> buf == []
        invariant old(Silent()) ==> Silent() && buf == []
        decreases |script|, LINE_CAP - |buf|
      {
        if now >= deadline {
          return Failed(TimedOut);
        }
        NoLfYet([]);
        AppendNothing(Avail());
        ScriptOver();
        RoomForOne();
        var remaining := LINE_CAP - |buf|;
        if remaining == 0 {
          LineSoFar(buf, [], Avail());
          return Failed(TooLong);
        }
        var stop, got := ReadUntil(remaining);
        if stop == Bust {
          return Failed(Fault);
        }
        LineSoFar(buf, got, Avail());
        if stop == Done && got == [] {
          return if buf == [] then EndOfInput else Failed(MidLineEof);
        }
        Append(buf, got, Avail());
        buf := buf + got;
        if EndsLf(buf) {
          return if Utf8.Valid(buf) then Got(buf) else Failed(BadUtf8);
        }
        if stop == Done && |buf| >= LINE_CAP {
          return Failed(TooLong);
        }
      }
    }

    /** Fills the whole of `buf`. */
    method ReadExactUntil(buf: array<byte>, deadline: nat) returns (r: Option<ReadError>)
      modifies this, buf
      ensures Horizon() == old(Horizon()) && now >= old(now) && |script| <= |old(script)|
      ensures old(Sound(script)) ==> Sound(script) && r != Some(Fault)
      ensures r == Some(TimedOut) ==> now >= deadline
      ensures old(Silent()) && deadline <= old(Horizon()) && buf.Length > 0 ==> r == Some(TimedOut)
      ensures r != Some(TimedOut) && r != Some(Fault) ==>
                var p := ExactOf(old(Avail()), buf.Length);
                && Avail() == old(Avail())[p.used..]
                && p.reading == (if r.None? then Got(buf[..]) else Failed(r.value))
    {
      hide *;
      var filled := 0;
      AppendNothing(Avail());
      assert buf[..0] == [];
      while filled < buf.Length
        invariant 0 <= filled <= buf.Length
        invariant old(Silent()) ==> Silent() && filled == 0
        invariant Horizon() == old(Horizon()) && now >= old(now) && |script| <= |old(script)|
        invariant old(Sound(script)) ==> Sound(script)
        invariant old(Avail()) == buf[..filled] + Avail()
        decreases |script|, buf.Length - filled
      {
        if now >= deadline {
          return Some(TimedOut);
        }
        ScriptOver();
        var f := FillBuf();
        match f {
          case Eof =>
            NothingLeft();
            AllShort(buf[..filled], buf.Length);
            return Some(ShortBody);
          case Again => continue;
          case Bad => return Some(Fault);
          case Filled =>
        }
        var bytes := Take(if |buffered| < buf.Length - filled then |buffered| else buf.Length - filled);
        Append(buf[..filled], bytes, Avail());
        Store(buf, filled, bytes);
        filled := filled + |bytes|;
      }
      assert buf[..filled] == buf[..];
      AllFilled(buf[..], Avail());
      return None;
    }

    method ReadRequest(deadline: nat) returns (r: Reading<Request>)
      modifies this
      ensures Horizon() == old(Horizon()) && now >= old(now) && |script| <= |old(script)|
      ensures old(Sound(script)) ==> Sound(script) && r != Failed(Fault)
      ensures r == Failed(TimedOut) ==> now >= deadline
      ensures old(now) >= deadline ==> r == Failed(TimedOut) && Avail() == old(Avail())
      ensures old(Silent()) && deadline <= old(Horizon()) ==> r == Failed(TimedOut)
      ensures r != Failed(TimedOut) && r != Failed(Fault) ==>
                var p := RequestOf(old(Avail()));
                r == p.reading && Avail() == old(Avail())[p.used..]
      ensures old(Sound(script)) && old(Horizon()) < deadline ==> r == RequestOf(old(Avail())).reading
    {
      hide *;
      RequestByLine(Avail());
      var line := ReadBoundedLineUntil(deadline);
      match line {
        case EndOfInput => return EndOfInput;
        case Failed(e) => return Failed(e);
        case Got(_) =>
      }
      r := ReadAfterLine(Utf8.Trim(line.value), deadline);
    }

    method ReadAfterLine(trimmed: seq<byte>, deadline: nat) returns (r: Reading<Request>)
      modifies this
      ensures Horizon() == old(Horizon()) && now >= old(now) && |script| <= |old(script)|
      ensures old(Sound(script)) ==> Sound(script) && r != Failed(Fault)
      ensures r == Failed(TimedOut) ==> now >= deadline
      ensures r != Failed(TimedOut) && r != Failed(Fault) ==>
                var p := RequestAfter(trimmed, old(Avail()));
                r == p.reading && Avail() == old(Avail())[p.used..]
    {
      if StartsWith(trimmed, GET) {
        var rest := trimmed[|GET|..];
        return if rest == [] then Failed(EmptyUrl) else Got(ParseTarget(rest));
      }
      if !StartsWith(trimmed, POST) {
        return Failed(BadFormat);
      }
      var url := trimmed[|POST|..];
      if url == [] {
        return Failed(EmptyUrl);
      }
      r := ReadBody(url, deadline);
    }

    /** The length prefix and the body of a POST. */
    method ReadBody(url: seq<byte>, deadline: nat) returns (r: Reading<Request>)
      modifies this
      ensures Horizon() == old(Horizon()) && now >= old(now) && |script| <= |old(script)|
      ensures old(Sound(script)) ==> Sound(script) && r != Failed(Fault)
      ensures r == Failed(TimedOut) ==> now >= deadline
      ensures r != Failed(TimedOut) && r != Failed(Fault) ==>
                var p := BodyOf(url, old(Avail()));
                r == p.reading && Avail() == old(Avail())[p.used..]
    {
      var lenBuf := new byte[4];
      var e := ReadExactUntil(lenBuf, deadline);
      if e.Some? {
        return Failed(e.value);
      }
      var bodyLen := FromBigEndian(lenBuf[..]);
      if bodyLen > MAX_BODY_SIZE {
        return Failed(BodyTooLarge);
      }
      var body := new byte[bodyLen];
      e := ReadExactUntil(body, deadline);
      if e.Some? {
        return Failed(e.value);
      }
      r := Got(Post(url, body[..]));
    }

    /**
     The request loop of a session: read, handle, read again, each time with
     `idle` units of patience since the last activity. However long handling
     takes and whether or not an answer can be written, the requests handled
     are the stream's own, in order; a loop that ends for a reason in the
     stream has handled all of them.
     */
    method ServeRequests(idle: nat) returns (handled: seq<Request>, end: LoopEnd)
      modifies this
      ensures handled <= RequestsOf(old(Avail())) && now >= old(now)
      ensures old(Silent()) && old(now) + idle <= old(Horizon()) ==> handled == [] && end == ReadFailed(TimedOut)
      ensures EndedByStream(end) ==> handled == RequestsOf(old(Avail()))
    {
      handled := [];
      var lastActivity: nat := now;
      hide RequestOf, RequestsOf, Arriving, Sound, Waiting, ParseTarget;
      while true
        invariant RequestsOf(old(Avail())) == handled + RequestsOf(Avail()) && now >= old(now)
        invariant old(Silent()) && old(now) + idle <= old(Horizon()) ==>
                    handled == [] && Silent() && Horizon() == old(Horizon()) && lastActivity == old(now)
        decreases |Avail()|
      {
        RequestsStep(Avail(), handled);
        var r := ReadRequest(lastActivity + idle);
        match r {
          case EndOfInput => return handled, PeerClosed;
          case Failed(e) => return handled, ReadFailed(e);
          case Got(_) =>
        }
        handled := handled + [r.value];
        lastActivity := now;
        var handling: nat, written: bool := *, *;
        label Handled:
        now := now + handling;
        StillAvailable@Handled();
        if r.value.Post? && !written {
          return handled, WriteFailed;
        }
        lastActivity := now;
      }
    }

    /** Time alone leaves the pending bytes as they are. */
    twostate lemma StillAvailable()
      requires old(buffered) == buffered && old(script) == script
      ensures old(Avail()) == Avail()
    {
    }
  }

  lemma RoomForOne()
    ensures LINE_CAP > 0
  {
  }

  /** A request is read in two steps, the line and then what it calls for. */
  lemma RequestByLine(a: seq<byte>)
    ensures var line := LineOf(a);
            match line.reading
            case EndOfInput => RequestOf(a) == Parse(EndOfInput, line.used)
            case Failed(e) => RequestOf(a) == Parse(Failed(e), line.used)
            case Got(text) =>
              var later := a[line.used..];
              var q := RequestAfter(Utf8.Trim(text), later);
              && RequestOf(a) == Parse(q.reading, line.used + q.used)
              && later[q.used..] == a[line.used + q.used..]
  {
    hide LineOf, RequestAfter, Utf8.Trim;
  }

  lemma RequestsStep(a: seq<byte>, handled: seq<Request>)
    ensures var p := RequestOf(a);
            if p.reading.Got? then
              handled + RequestsOf(a) == (handled + [p.reading.value]) + RequestsOf(a[p.used..])
            else handled + RequestsOf(a) == handled
  {
    hide RequestOf;
  }

  /** The stream itself ended the loop, not the clock, the socket or a failed answer. */
  predicate EndedByStream(end: LoopEnd) {
    end.PeerClosed? || (end.ReadFailed? && end.error != TimedOut && end.error != Fault)
  }

  datatype LoopEnd = PeerClosed | ReadFailed(error: ReadError) | WriteFailed

  method Store(buf: array<byte>, at: nat, bytes: seq<byte>)
    requires at + |bytes| <= buf.Length
    modifies buf
    ensures buf[..at + |bytes|] == old(buf[..at]) + bytes
  {
    forall i | 0 <= i < |bytes| {
      buf[at + i] := bytes[i];
    }
  }

  lemma AllFilled(got: seq<byte>, rest: seq<byte>)
    ensures ExactOf(got + rest, |got|) == Parse(Got(got), |got|) && (got + rest)[|got|..] == rest
  {
  }

  lemma AllShort(got: seq<byte>, n: nat)
    requires |got| < n
    ensures ExactOf(got + [], n) == Parse(Failed(ShortBody), |got|) && (got + [])[|got|..] == []
  {
  }

  predicate EndsLf(s: seq<byte>) {
    s != [] && s[|s| - 1] == LF
  }

  predicate NoLfBeforeLast(s: seq<byte>) {
    s != [] ==> LF !in s[..|s| - 1]
  }

  lemma TakeFront(buffered: seq<byte>, n: nat, later: seq<byte>)
    requires n <= |buffered|
    ensures buffered + later == buffered[..n] + (buffered[n..] + later)
  {
  }

  lemma Append(a: seq<byte>, b: seq<byte>, c: seq<byte>)
    ensures a + (b + c) == (a + b) + c
  {
  }

  lemma AppendNothing(a: seq<byte>)
    ensures a == [] + a
  {
  }

  lemma NoLfYet(s: seq<byte>)
    requires LF !in s
    ensures NoLfBeforeLast(s) && !EndsLf(s)
  {
  }

  /** Cutting at the first LF of the first `n` bytes, or taking them all. */
  lemma PartTaken(got: seq<byte>, buffered: seq<byte>, n: nat)
    requires LF !in got && n <= |buffered|
    ensures var nl := IndexOf(buffered[..n], LF);
            if nl < n then EndsLf(got + buffered[..nl + 1]) && NoLfBeforeLast(got + buffered[..nl + 1])
            else LF !in got + buffered[..n]
  {
    var nl := IndexOf(buffered[..n], LF);
    if nl < n {
      var s := got + buffered[..nl + 1];
      assert s[..|s| - 1] == got + buffered[..n][..nl];
    }
  }

  /** What `got`, read after `buf` and before `rest`, says about the line. */
  lemma LineSoFar(buf: seq<byte>, got: seq<byte>, rest: seq<byte>)
    requires LF !in buf && |buf| + |got| <= LINE_CAP && NoLfBeforeLast(got)
    ensures var all := buf + got;
            var p := LineOf(buf + (got + rest));
            && EndsLf(all) == EndsLf(got) && (buf + (got + rest))[|all|..] == rest
            && (EndsLf(got) ==> p == Parse(if Utf8.Valid(all) then Got(all) else Failed(BadUtf8), |all|))
            && (!EndsLf(got) ==> LF !in all)
            && (!EndsLf(got) && |all| == LINE_CAP ==> p == Parse(Failed(TooLong), |all|))
            && (got == [] && rest == [] && |all| < LINE_CAP ==>
                  p == Parse(if buf == [] then EndOfInput else Failed(MidLineEof), |all|))
  {
    hide Utf8.Valid;
    var all := buf + got;
    var a := buf + (got + rest);
    assert a == all + rest && a[..|all|] == all;
    if EndsLf(got) {
      var n := |all| - 1;
      assert a[..n] == buf + got[..|got| - 1];
      IndexOfIs(a, LF, n);
    } else {
      assert got != [] ==> got == got[..|got| - 1] + [got[|got| - 1]];
      assert forall k :: 0 <= k < |all| ==> a[k] == all[k];
    }
  }

  // ----- What is read from any stream -----

  /** The stream has a first line, of at most 1025 bytes with its LF, that is UTF-8. */
  ghost predicate HasLine(a: seq<byte>, line: seq<byte>) {
    && line != [] && line <= a && |line| <= 1025 && line[|line| - 1] == 10 && 10 !in line[..|line| - 1]
    && Utf8.Valid(line)
  }

  lemma LineExactly(a: seq<byte>, line: seq<byte>)
    ensures LineOf(a).reading == Got(line) <==> HasLine(a, line)
    ensures LineOf(a).reading == EndOfInput <==> a == []
    ensures LineOf(a).reading == Failed(TooLong) <==> |a| >= 1025 && 10 !in a[..1025]
    ensures LineOf(a).reading == Failed(MidLineEof) <==> 0 < |a| < 1025 && 10 !in a
  {
    hide Utf8.Valid;
    var nl := IndexOf(a, LF);
    if HasLine(a, line) {
      var n := |line| - 1;
      assert a[..n] == line[..n] && a[n] == line[n] && a[..n + 1] == line;
      IndexOfIs(a, LF, n);
    }
    assert nl < |a| ==> a[nl] in a && (nl < 1025 && |a| >= 1025 ==> a[..1025][nl] == 10);
    assert nl < |a| ==> a[..nl + 1][..nl] == a[..nl];
  }

  /** What a POST's length and body amount to. */
  lemma BodyExactly(url: seq<byte>, later: seq<byte>)
    ensures var p := BodyOf(url, later).reading;
            if |later| < 4 then p == Failed(ShortBody)
            else
              var n := 0x100_0000 * later[0] as int + 0x1_0000 * later[1] as int + 0x100 * later[2] as int + later[3];
              if n > 1_048_576 then p == Failed(BodyTooLarge)
              else if |later| < 4 + n then p == Failed(ShortBody)
              else p == Got(Post(url, later[4..4 + n])) && BodyOf(url, later).used == 4 + n
  {
    if |later| >= 4 {
      var n := FromBigEndian(later[..4]);
      assert later[..4] == [later[0], later[1], later[2], later[3]];
      assert |later| >= 4 + n ==> later[4..][..n] == later[4..4 + n];
    }
  }

  /** What a line, trimmed, begins: anything but a GET or a POST with a URL is refused. */
  lemma VerbExactly(a: seq<byte>, line: seq<byte>)
    requires HasLine(a, line)
    ensures var text, p := Utf8.Trim(line), RequestOf(a).reading;
            if StartsWith(text, Text("GET ")) then p == Got(ParseTarget(text[4..]))
            else if StartsWith(text, Text("POST ")) then p == BodyOf(text[5..], a[|line|..]).reading
            else p == Failed(BadFormat)
  {
    hide RequestOf, LineOf, Utf8.Trim, HasLine, BodyOf, ParseTarget, Text, RequestAfter;
    LineExactly(a, line);
    RequestByLine(a);
    LineUsed(a);
    TrimmedNoVerb(line);
    VerbDecides(Utf8.Trim(line), a[|line|..]);
  }

  lemma VerbDecides(text: seq<byte>, later: seq<byte>)
    requires text != GET && text != POST
    ensures var p := RequestAfter(text, later).reading;
            if StartsWith(text, Text("GET ")) then p == Got(ParseTarget(text[4..]))
            else if StartsWith(text, Text("POST ")) then p == BodyOf(text[5..], later).reading
            else p == Failed(BadFormat)
  {
    Words();
    hide BodyOf, ParseTarget, Text;
    assert StartsWith(text, GET) ==> text == GET + text[4..];
    assert StartsWith(text, POST) ==> text == POST + text[5..];
  }

  lemma LineUsed(a: seq<byte>)
    requires LineOf(a).reading.Got?
    ensures LineOf(a).used == |LineOf(a).reading.value|
  {
  }

  /** A trimmed line is never a verb and its blank alone. */
  lemma TrimmedNoVerb(line: seq<byte>)
    ensures Utf8.Trim(line) != GET && Utf8.Trim(line) != POST
  {
    VerbKeepsArgument(GET);
    VerbKeepsArgument(POST);
    hide Utf8.SpaceAtEnd;
  }

  // ----- Agreement with the whole-buffer decoder -----

  /** The text of the first line, for streams that have one. */
  function HeadLine(a: seq<byte>): seq<byte> {
    a[..IndexOf(a, LF)]
  }

  lemma TrimmedLine(line: seq<byte>)
    requires |line| > 0 && 65 <= line[0] <= 90
    ensures Utf8.Trim(line + [LF]) == Utf8.TrimEnd(line)
  {
    hide Utf8.TrimEnd, Utf8.SpaceAtStart;
    NoSpaceAtStart(line + [LF]);
    TrimEndLf(line);
  }

  lemma NoSpaceAtStart(text: seq<byte>)
    requires |text| > 0 && 65 <= text[0] <= 90
    ensures Utf8.SpaceAtStart(text) == 0
  {
  }

  lemma TrimEndLf(line: seq<byte>)
    ensures Utf8.TrimEnd(line + [LF]) == Utf8.TrimEnd(line)
  {
    var text := line + [LF];
    assert text[|text| - 1..] == [LF] && text[..|text| - 1] == line;
    assert Utf8.SpaceAtEnd(text) == 1;
  }

  /** After a verb and a blank, the first LF of the stream ends the verb's argument. */
  lemma HeadLineIs(verb: seq<byte>, a: seq<byte>)
    requires LF !in verb && StartsWith(a, verb) && FirstLine(a[|verb|..]).Some?
    ensures var line := verb + FirstLine(a[|verb|..]).value;
            IndexOf(a, LF) == |line| < |a| && a[..|line|] == line && a[..|line| + 1] == line + [LF]
  {
    hide Utf8.Valid;
    var tail := a[|verb|..];
    var nl := IndexOf(tail, LF);
    assert a == verb + tail;
    assert a[..|verb| + nl] == verb + tail[..nl];
    IndexOfIs(a, LF, |verb| + nl);
  }

  lemma LineValid(verb: seq<byte>, text: seq<byte>)
    requires Utf8.Valid(verb) && Utf8.Valid(text)
    ensures Utf8.Valid(verb + text + [LF])
  {
    Utf8.ValidConcat(verb, text);
    Utf8.AsciiValid([LF]);
    Utf8.ValidConcat(verb + text, [LF]);
  }

  lemma TrimEndShrinks(s: seq<byte>)
    ensures Utf8.SpaceAtEnd(s) == 0 ==> Utf8.TrimEnd(s) == s
    ensures Utf8.SpaceAtEnd(s) != 0 ==> |Utf8.TrimEnd(s)| < |s|
  {
  }

  /** A request printed as a line again is the line it was read from. */
  lemma ReadLineIs(a: seq<byte>)
    requires RequestOf(a).reading.Got?
    ensures LineOf(a).reading.Got? && Line(RequestOf(a).reading.value) == Utf8.Trim(LineOf(a).reading.value)
  {
    hide LineOf, Utf8.Trim;
    var trimmed := Utf8.Trim(LineOf(a).reading.value);
    if StartsWith(trimmed, GET) {
      TargetOfParse(trimmed[|GET|..]);
    }
  }

  lemma DecodedLineIs(a: seq<byte>, d: Request)
    requires Decode(a) == Ok(d)
    ensures IndexOf(a, LF) < |a| && HeadLine(a) == Line(d)
    ensures Utf8.Valid(a[..|Line(d)| + 1]) && a[..|Line(d)| + 1] == Line(d) + [LF]
  {
    hide *;
    DecodedArgument(a, d);
    if d.Get? {
      VerbLine(GET, a, Target(d));
    } else {
      VerbLine(POST, a, Target(d));
    }
    LineParts(d);
  }

  lemma LineParts(d: Request)
    ensures Line(d) == (if d.Get? then GET else POST) + Target(d)
  {
  }

  lemma VerbLine(verb: seq<byte>, a: seq<byte>, text: seq<byte>)
    requires verb == GET || verb == POST
    requires StartsWith(a, verb) && FirstLine(a[|verb|..]) == Some(text)
    ensures var line := verb + text;
            && IndexOf(a, LF) == |line| < |a| && HeadLine(a) == line
            && Utf8.Valid(a[..|line| + 1]) && a[..|line| + 1] == line + [LF]
  {
    VerbFacts(verb);
    hide Utf8.Valid, IndexOf, FirstLine, GET, POST;
    HeadLineIs(verb, a);
    FirstLineValid(a[|verb|..]);
    LineValid(verb, text);
  }

  lemma VerbFacts(verb: seq<byte>)
    requires verb == GET || verb == POST
    ensures Utf8.Valid(verb) && LF !in verb
  {
    Utf8.AsciiValid(verb);
  }

  lemma FirstLineValid(data: seq<byte>)
    requires FirstLine(data).Some?
    ensures Utf8.Valid(FirstLine(data).value)
  {
  }

  lemma DecodedArgument(a: seq<byte>, d: Request)
    requires Decode(a) == Ok(d)
    ensures StartsWith(a, GET) <==> d.Get?
    ensures d.Get? ==> FirstLine(a[|GET|..]) == Some(Target(d)) && ParseTarget(Target(d)) == d
    ensures d.Post? ==> StartsWith(a, POST) && FirstLine(a[|POST|..]) == Some(Target(d))
    ensures d.Post? ==> DecodePost(d.url, a[|Line(d)| + 1..]) == Ok(d)
  {
    hide FirstLine, ParseTarget;
    if StartsWith(a, GET) {
      assert d == ParseTarget(FirstLine(a[|GET|..]).value);
      TargetOfParse(FirstLine(a[|GET|..]).value);
    }
  }

  lemma LineOfHead(a: seq<byte>)
    requires IndexOf(a, LF) < |a| && Utf8.Valid(a[..|HeadLine(a)| + 1]) && |HeadLine(a)| < LINE_CAP
    ensures LineOf(a) == Parse(Got(a[..|HeadLine(a)| + 1]), |HeadLine(a)| + 1)
  {
  }

  lemma VerbKeepsArgument(verb: seq<byte>)
    requires |verb| > 0 && verb[|verb| - 1] == SPACE
    ensures Utf8.SpaceAtEnd(verb) != 0
  {
    assert verb[|verb| - 1..] == [SPACE];
  }

  lemma ArgumentOf(verb: seq<byte>, text: seq<byte>)
    requires |verb| > 0 && verb[|verb| - 1] == SPACE && Utf8.SpaceAtEnd(verb + text) == 0
    ensures text != [] && (verb + text)[|verb|..] == text && StartsWith(verb + text, verb)
  {
    VerbKeepsArgument(verb);
    assert text == [] ==> verb + text == verb;
  }

  lemma UntrimmedReads(a: seq<byte>, d: Request)
    requires Decode(a) == Ok(d) && (d.Post? ==> |d.body| <= MAX_BODY_SIZE)
    requires LineOf(a).reading.Got? && Utf8.Trim(LineOf(a).reading.value) == Line(d)
    requires LineOf(a).used == |Line(d)| + 1 <= |a| && Utf8.SpaceAtEnd(Line(d)) == 0
    ensures RequestOf(a) == Parse(Got(d), |Line(d)| + 1 + (if d.Post? then 4 + |d.body| else 0))
  {
    ArgumentOf(if d.Get? then GET else POST, Target(d));
    DecodedArgument(a, d);
    hide Utf8.Trim, Utf8.SpaceAtEnd, LineOf, Decode, DecodePost, Target, BodyOf, FirstLine, ParseTarget;
    if d.Post? {
      BodyAgrees(d.url, a[|Line(d)| + 1..], d);
    }
  }

  lemma BodyAgrees(url: seq<byte>, a: seq<byte>, d: Request)
    requires DecodePost(url, a) == Ok(d) && |d.body| <= MAX_BODY_SIZE
    ensures BodyOf(url, a) == Parse(Got(d), 4 + |d.body|)
  {
    var n := FromBigEndian(a[..4]);
    assert a[4..][..n] == a[4..4 + n];
  }

  /**
   The incremental reader refines the whole-buffer decoder: on every stream
   that `decode` accepts, within the line and body limits, it returns the same
   request if and only if the first line does not end in white space.
   */
  lemma ReaderAgrees(a: seq<byte>, d: Request)
    requires Decode(a) == Ok(d)
    requires |HeadLine(a)| < LINE_CAP && (d.Post? ==> |d.body| <= MAX_BODY_SIZE)
    ensures RequestOf(a).reading == Got(d) <==> Utf8.SpaceAtEnd(HeadLine(a)) == 0
    ensures RequestOf(a).reading == Got(d) ==>
              RequestOf(a).used == |Line(d)| + 1 + (if d.Post? then 4 + |d.body| else 0)
  {
    hide RequestOf, Utf8.SpaceAtEnd, Utf8.Trim, Utf8.TrimEnd, Decode, LineOf, HeadLine, Utf8.Valid;
    DecodedLineIs(a, d);
    LineOfHead(a);
    TrimmedLine(Line(d));
    TrimEndShrinks(Line(d));
    if Utf8.SpaceAtEnd(Line(d)) == 0 {
      UntrimmedReads(a, d);
    } else if RequestOf(a).reading.Got? {
      ReadLineIs(a);
    }
  }

  /** What a client may send for the reader to get it: transportable, within the limits, not ending in white space. */
  ghost predicate Readable(r: Request) {
    && ValidText(r) && Transportable(r)
    && |Line(r)| < LINE_CAP && (r.Post? ==> |r.body| <= MAX_BODY_SIZE)
    && Utf8.SpaceAtEnd(Line(r)) == 0
  }

  lemma EncodedHeadLine(r: Request, rest: seq<byte>)
    requires LF !in Line(r)
    ensures HeadLine(Encode(r) + rest) == Line(r)
  {
    var a := Encode(r) + rest;
    assert a[..|Line(r)|] == Line(r) && a[|Line(r)|] == LF;
    IndexOfIs(a, LF, |Line(r)|);
  }

  lemma LineHasNoLf(r: Request)
    requires Transportable(r)
    ensures LF !in Line(r)
  {
    assert LF !in GET && LF !in POST && LF !in SENTINEL;
  }

  lemma EncodedLength(r: Request)
    ensures |Encode(r)| == |Line(r)| + 1 + (if r.Post? then 4 + |r.body| else 0)
  {
  }

  /** Printed by the client and read by the server: the request itself and exactly its bytes, whatever follows. */
  lemma EncodedRequestRead(r: Request, rest: seq<byte>)
    requires Readable(r)
    ensures RequestOf(Encode(r) + rest) == Parse(Got(r), |Encode(r)|)
  {
    hide *;
    ReadableParts(r);
    RoundTrip(r, rest);
    LineHasNoLf(r);
    EncodedHeadLine(r, rest);
    ReaderAgrees(Encode(r) + rest, r);
    EncodedLength(r);
  }

  lemma ReadableParts(r: Request)
    requires Readable(r)
    ensures ValidText(r) && Transportable(r)
    ensures |Line(r)| < LINE_CAP && (r.Post? ==> |r.body| <= MAX_BODY_SIZE)
    ensures Utf8.SpaceAtEnd(Line(r)) == 0
  {
  }

  // ----- The request on the wire, word by word -----

  /** A request as a node delivers it: its line closed by `tail` and LF, then the length and the body of a POST. */
  ghost function Wire(r: Request, tail: seq<byte>): seq<byte> {
    match r
    case Get(url, None) => Text("GET ") + url + tail + [10]
    case Get(url, Some(etag)) => Text("GET ") + url + Text(" IF-NONE-MATCH ") + etag + tail + [10]
    case Post(url, body) =>
      var n := |body| % 0x1_0000_0000;
      Text("POST ") + url + tail + [10]
      + [n / 0x100_0000, n / 0x1_0000 % 0x100, n / 0x100 % 0x100, n % 0x100] + body
  }

  /** What follows the line. */
  function AfterLine(r: Request): seq<byte> {
    if r.Post? then BigEndian(|r.body|) + r.body else []
  }

  lemma WireParts(r: Request, tail: seq<byte>)
    ensures Wire(r, tail) == Line(r) + tail + [LF] + AfterLine(r)
  {
    Words();
    hide Text, GET, POST, SENTINEL, BigEndian;
    match r {
      case Get(_, None) => NothingBehind(Line(r) + tail + [LF]);
      case Get(url, Some(etag)) =>
        Regrouped(GET, url, SENTINEL, etag);
        assert GET + url + SENTINEL + etag == GET + (url + SENTINEL + etag);
        NothingBehind(Line(r) + tail + [LF]);
      case Post(url, body) =>
        LengthBytes(|body|);
        Regrouped(Line(r) + tail, [LF], BigEndian(|body|), body);
    }
  }

  lemma NothingBehind(a: seq<byte>)
    ensures a + [] == a
  {
  }

  lemma LengthBytes(size: nat)
    ensures var n := size % 0x1_0000_0000;
            BigEndian(size) == [n / 0x100_0000, n / 0x1_0000 % 0x100, n / 0x100 % 0x100, n % 0x100]
  {
  }

  /** What the client prints is that, closed by LF alone. */
  lemma WireIsEncode(r: Request)
    ensures Wire(r, []) == Encode(r)
  {
    WireParts(r, []);
    NothingBehind(Line(r));
    hide Wire, Line;
    if r.Post? {
      Regrouped(Line(r), [LF], BigEndian(|r.body|), r.body);
    }
  }

  lemma LineIsValid(r: Request)
    requires Readable(r)
    ensures Utf8.Valid(Line(r))
  {
    hide *;
    ReadableParts(r);
    RoundTrip(r, []);
    DecodedLineIs(Encode(r) + [], r);
    Shorter(r);
  }

  lemma Shorter(r: Request)
    requires Utf8.Valid(Line(r) + [LF])
    ensures Utf8.Valid(Line(r))
  {
    Utf8.ValidPrefix(Line(r), [LF]);
  }

  lemma VerbFirst(r: Request)
    ensures Line(r) != [] && 65 <= Line(r)[0] <= 90
  {
  }

  /** A line closed by white space is the line. */
  lemma ClosedLine(line: seq<byte>, tail: seq<byte>, rest: seq<byte>)
    requires line != [] && 65 <= line[0] <= 90 && Utf8.SpaceAtEnd(line) == 0
    requires Utf8.Valid(line) && LF !in line && LF !in tail && |line| + |tail| < LINE_CAP
    requires forall b :: b in tail ==> b in {9, 10, 11, 12, 13, 32}
    ensures var text := line + tail + [LF];
            && LineOf(text + rest) == Parse(Got(text), |text|) && Utf8.Trim(text) == line
            && (text + rest)[|text|..] == rest
  {
    hide LineOf, Utf8.Trim, Utf8.SpaceAtStart, Utf8.SpaceAtEnd, Utf8.Valid;
    ClosingValid(line, tail);
    ClosingTrimmed(line, tail);
    LineFound(line + tail, rest);
  }

  lemma ClosingValid(line: seq<byte>, tail: seq<byte>)
    requires Utf8.Valid(line) && forall b :: b in tail ==> b in {9, 10, 11, 12, 13, 32}
    ensures Utf8.Valid(line + tail + [LF])
  {
    assert forall i :: 0 <= i < |tail| ==> tail[i] in tail;
    Utf8.AsciiValid(tail);
    Utf8.AsciiValid([LF]);
    hide Utf8.Valid;
    Utf8.ValidConcat(line, tail);
    Utf8.ValidConcat(line + tail, [LF]);
  }

  lemma ClosingTrimmed(line: seq<byte>, tail: seq<byte>)
    requires line != [] && 65 <= line[0] <= 90 && Utf8.SpaceAtEnd(line) == 0
    requires forall b :: b in tail ==> b in {9, 10, 11, 12, 13, 32}
    ensures Utf8.Trim(line + tail + [LF]) == line
  {
    hide Utf8.Trim, Utf8.SpaceAtStart, Utf8.SpaceAtEnd;
    NoSpaceAtStart(line + (tail + [LF]));
    Utf8.TrimExactly([], line, tail + [LF]);
    assert [] + line + (tail + [LF]) == line + tail + [LF];
  }

  lemma LineFound(text: seq<byte>, rest: seq<byte>)
    requires LF !in text && |text| < LINE_CAP && Utf8.Valid(text + [LF])
    ensures var line := text + [LF];
            LineOf(line + rest) == Parse(Got(line), |line|) && (line + rest)[|line|..] == rest
  {
    hide Utf8.Valid;
    var a := text + [LF] + rest;
    assert a[..|text| + 1] == text + [LF] && a[..|text|] == text && a[|text|] == LF;
    IndexOfIs(a, LF, |text|);
  }

  /**
   However a node closes the lines: a readable request is read from its words
   on the wire, its line closed by CR LF or any other white space.
   */
  lemma ClosedByWhiteSpace(r: Request, tail: seq<byte>, rest: seq<byte>)
    requires Readable(r) && |Line(r)| + |tail| < LINE_CAP && LF !in tail
    requires forall b :: b in tail ==> b in {9, 10, 11, 12, 13, 32}
    ensures RequestOf(Wire(r, tail) + rest) == Parse(Got(r), |Wire(r, tail)|)
  {
    hide *;
    WireParts(r, tail);
    WireParts(r, []);
    WireIsEncode(r);
    ReadableParts(r);
    LineIsValid(r);
    LineHasNoLf(r);
    VerbFirst(r);
    EncodedRequestRead(r, rest);
    var later := AfterLine(r) + rest;
    ClosedLine(Line(r), [], later);
    ClosedLine(Line(r), tail, later);
    Regrouped(Line(r) + [], [LF], AfterLine(r), rest);
    Regrouped(Line(r) + tail, [LF], AfterLine(r), rest);
    assert Line(r) + [] == Line(r);
    RequestByLine(Line(r) + [] + [LF] + later);
    RequestByLine(Line(r) + tail + [LF] + later);
  }

  /** The end of a verb's argument is the end of its line. */
  lemma SpaceAfterVerb(verb: seq<byte>, text: seq<byte>)
    requires text != [] && |verb| > 3 && verb[|verb| - 1] < 0x80 && Utf8.SpaceAtEnd(text) == 0
    ensures Utf8.SpaceAtEnd(verb + text) == 0
  {
    hide Utf8.IsSpaceChar;
    LastBytes(verb, text, 1);
    LastBytes(verb, text, 2);
    LastBytes(verb, text, 3);
    var s := verb + text;
    assert !Utf8.IsSpaceChar(s[|s| - 1..]) && !Utf8.IsSpaceChar(s[|s| - 2..]) && !Utf8.IsSpaceChar(s[|s| - 3..]);
  }

  /** The last `k` bytes of a line are white space only if they are its argument's. */
  lemma LastBytes(verb: seq<byte>, text: seq<byte>, k: nat)
    requires text != [] && 1 <= k <= 3 < |verb| && verb[|verb| - 1] < 0x80
    ensures var s := verb + text;
            Utf8.IsSpaceChar(s[|s| - k..]) ==> k <= |text| && Utf8.IsSpaceChar(text[|text| - k..])
  {
    var s := verb + text;
    var c := s[|s| - k..];
    Utf8.WideSpace(c);
    hide Utf8.IsSpaceChar;
    if k > |text| {
      assert c[k - |text| - 1] == verb[|verb| - 1];
    } else {
      assert c == text[|text| - k..];
    }
  }

  /** A GET line as a telnet-style node delivers it: the CR is not part of the URL. */
  lemma CrLfGet(url: seq<byte>, rest: seq<byte>)
    requires Utf8.Valid(url) && url != [] && Utf8.SpaceAtEnd(url) == 0
    requires 10 !in url && !Contains(url, Text(" IF-NONE-MATCH ")) && |url| + 6 <= 1025
    ensures RequestOf(Text("GET ") + url + [13, 10] + rest) == Parse(Got(Get(url, None)), |url| + 6)
  {
    hide RequestOf, Readable, Wire, Line, Utf8.Valid, Utf8.SpaceAtEnd, Text, Contains;
    GetReadable(url);
    GetWire(url);
    ClosedByWhiteSpace(Get(url, None), [13], rest);
  }

  lemma GetReadable(url: seq<byte>)
    requires Utf8.Valid(url) && url != [] && Utf8.SpaceAtEnd(url) == 0
    requires LF !in url && !Contains(url, Text(" IF-NONE-MATCH ")) && |url| + 6 <= 1025
    ensures Readable(Get(url, None)) && |Line(Get(url, None))| + 1 < LINE_CAP
  {
    hide Utf8.Valid, Utf8.SpaceAtEnd, Text, Contains;
    Words();
    SpaceAfterVerb(GET, url);
  }

  lemma GetWire(url: seq<byte>)
    ensures Wire(Get(url, None), [13]) == Text("GET ") + url + [13, 10]
    ensures |Wire(Get(url, None), [13])| == |url| + 6
  {
    hide Text;
  }

  lemma Regrouped(a: seq<byte>, b: seq<byte>, c: seq<byte>, d: seq<byte>)
    ensures a + b + c + d == a + b + (c + d)
  {
  }

  function EncodeAll(requests: seq<Request>): seq<byte> {
    if requests == [] then [] else Encode(requests[0]) + EncodeAll(requests[1..])
  }

  lemma FirstRequestRead(r: Request, rest: seq<byte>)
    requires Readable(r)
    ensures RequestsOf(Encode(r) + rest) == [r] + RequestsOf(rest)
  {
    hide RequestOf, Readable, Encode;
    EncodedRequestRead(r, rest);
    assert (Encode(r) + rest)[|Encode(r)|..] == rest;
  }

  /** Back-to-back requests come out complete and in order. */
  lemma {:induction false} BackToBack(requests: seq<Request>)
    requires forall r :: r in requests ==> Readable(r)
    ensures RequestsOf(EncodeAll(requests)) == requests
  {
    hide RequestOf, Readable, Encode;
    if requests == [] {
      EmptyStream();
    } else {
      BackToBack(requests[1..]);
      FirstRequestRead(requests[0], EncodeAll(requests[1..]));
      hide RequestsOf;
    }
  }

  lemma EmptyStream()
    ensures RequestsOf([]) == []
  {
    assert LineOf([]) == Parse(EndOfInput, 0);
  }
}
