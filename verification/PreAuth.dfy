/**
 The server's conversation before the request loop: a callsign line, then the
 wait for AGREE past the noise that a node puts in front of it.
 */
module PreAuth {
  import opened Bytes
  import opened Wrappers
  import opened ServerReader
  import RequestCodec
  import Utf8

  const HYPHEN: byte := 45
  // `***` and `AGREE`.
  const STARS: seq<byte> := [42, 42, 42]
  const AGREE: seq<byte> := [65, 71, 82, 69, 69]
  const PRE_AUTH_TIMEOUT: nat := 300

  // ----- Upper case -----

  /** The Unicode mapping of non-ASCII characters: some become ASCII, but then only capital letters; none vanishes. */
  ghost predicate CaseTable(table: seq<byte> -> seq<byte>) {
    forall c :: Utf8.CharLen(c) == |c| >= 2 ==>
      table(c) != [] && forall i :: 0 <= i < |table(c)| && table(c)[i] < 0x80 ==> 65 <= table(c)[i] <= 90
  }

  predicate IsLower(b: byte) {
    97 <= b <= 122
  }

  function AsciiUpper(b: byte): byte {
    if IsLower(b) then b - 32 else b
  }

  /** `to_uppercase`, character by character. */
  function Upper(table: seq<byte> -> seq<byte>, s: seq<byte>): seq<byte> {
    var n := Utf8.CharLen(s);
    if n == 0 then []
    else (if n == 1 then [AsciiUpper(s[0])] else table(s[..n])) + Upper(table, s[n..])
  }

  // ----- Callsigns -----

  predicate IsDigit(b: byte) {
    48 <= b <= 57
  }

  predicate IsLetter(b: byte) {
    65 <= b <= 90 || 97 <= b <= 122
  }

  /** One to three letters or digits, a digit, up to three letters or digits, a letter. */
  predicate ItuShape(s: seq<byte>) {
    && (forall k :: 0 <= k < |s| ==> IsDigit(s[k]) || IsLetter(s[k]))
    && s != [] && IsLetter(s[|s| - 1])
    && exists i :: 1 <= i <= 3 && i + 2 <= |s| <= i + 5 && IsDigit(s[i])
  }

  predicate SameIgnoringCase(a: seq<byte>, b: seq<byte>) {
    |a| == |b| && forall i :: 0 <= i < |a| ==> AsciiUpper(a[i]) == AsciiUpper(b[i])
  }

  function Base(entered: seq<byte>): seq<byte> {
    entered[..IndexOf(entered, HYPHEN)]
  }

  /** The callsign under which an entered text is admitted: its base, in upper case. */
  function ValidateCallsign(table: seq<byte> -> seq<byte>, allowed: seq<seq<byte>>,
                            entered: seq<byte>): Option<seq<byte>> {
    if ItuShape(Base(entered)) || (exists i :: 0 <= i < |allowed| && SameIgnoringCase(allowed[i], Base(entered))) then
      Some(Upper(table, Base(entered)))
    else None
  }

  // ----- Lines before AGREE -----

  datatype PreAuthLine = DuplicateCallsign | LinbpqStatus | Candidate

  function Classify(table: seq<byte> -> seq<byte>, line: seq<byte>, callsign: seq<byte>): PreAuthLine {
    var text := Upper(table, Utf8.Trim(line));
    if text == callsign then DuplicateCallsign
    else if StartsWith(text, STARS) then LinbpqStatus
    else Candidate
  }

  predicate SaysAgree(table: seq<byte> -> seq<byte>, line: seq<byte>) {
    Upper(table, Utf8.Trim(line)) == AGREE
  }

  /** Whether the stream's first line that is not noise says AGREE, and where that line ends. */
  function AgreeOf(table: seq<byte> -> seq<byte>, callsign: seq<byte>, a: seq<byte>): (p: Parse<bool>)
    ensures p.used <= |a|
    decreases |a|
  {
    var line := LineOf(a);
    match line.reading
    case EndOfInput => Parse(EndOfInput, line.used)
    case Failed(e) => Parse(Failed(e), line.used)
    case Got(text) =>
      if Classify(table, text, callsign) == Candidate then Parse(Got(SaysAgree(table, text)), line.used)
      else
        var later := AgreeOf(table, callsign, a[line.used..]);
        Parse(later.reading, line.used + later.used)
  }

  /** The station a stream authenticates, if it does. */
  function AuthOf(table: seq<byte> -> seq<byte>, allowed: seq<seq<byte>>, a: seq<byte>): (p: Parse<Option<seq<byte>>>)
    ensures p.used <= |a|
  {
    var first := LineOf(a);
    match first.reading
    case EndOfInput => Parse(EndOfInput, first.used)
    case Failed(e) => Parse(Failed(e), first.used)
    case Got(text) =>
      var callsign := ValidateCallsign(table, allowed, Utf8.Trim(text));
      if callsign.None? then Parse(Got(None), first.used)
      else
        var agree := AgreeOf(table, callsign.value, a[first.used..]);
        match agree.reading
        case EndOfInput => Parse(EndOfInput, first.used + agree.used)
        case Failed(e) => Parse(Failed(e), first.used + agree.used)
        case Got(yes) => Parse(Got(if yes then callsign else None), first.used + agree.used)
  }

  /** A reading that ended early is passed on as it is. */
  function Ended<S, T>(p: Parse<S>): Parse<T>
    requires !p.reading.Got?
  {
    Parse(if p.reading.EndOfInput? then EndOfInput else Failed(p.reading.error), p.used)
  }

  lemma AgreeByLine(table: seq<byte> -> seq<byte>, callsign: seq<byte>, a: seq<byte>)
    ensures var line, p := LineOf(a), AgreeOf(table, callsign, a);
            if !line.reading.Got? then p == Ended(line)
            else if Classify(table, line.reading.value, callsign) == Candidate then
              p == Parse(Got(SaysAgree(table, line.reading.value)), line.used)
            else
              && line.used > 0
              && var q := AgreeOf(table, callsign, a[line.used..]);
                 p == Parse(q.reading, line.used + q.used)
  {
    hide Classify, SaysAgree, Utf8.Valid;
  }

  lemma AuthByLine(table: seq<byte> -> seq<byte>, allowed: seq<seq<byte>>, a: seq<byte>)
    ensures var first, p := LineOf(a), AuthOf(table, allowed, a);
            if !first.reading.Got? then p == Ended(first)
            else
              var callsign := ValidateCallsign(table, allowed, Utf8.Trim(first.reading.value));
              if callsign.None? then p == Parse(Got(None), first.used)
              else
                var agree := AgreeOf(table, callsign.value, a[first.used..]);
                && p.used == first.used + agree.used
                && p.reading == (if agree.reading.Got? then Got(if agree.reading.value then callsign else None)
                                 else Ended(agree).reading)
  {
    hide LineOf, ValidateCallsign, AgreeOf, Utf8.Trim;
  }

  method AwaitAgree(table: seq<byte> -> seq<byte>, socket: Socket, callsign: seq<byte>, deadline: nat)
    returns (r: Reading<bool>)
    modifies socket
    ensures socket.now >= old(socket.now) && socket.Horizon() == old(socket.Horizon())
    ensures old(Sound(socket.script)) ==> Sound(socket.script) && r != Failed(Fault)
    ensures r == Failed(TimedOut) ==> socket.now >= deadline
    ensures old(socket.Silent()) && deadline <= old(socket.Horizon()) ==> r == Failed(TimedOut)
    ensures r != Failed(TimedOut) && r != Failed(Fault) ==>
              var p := AgreeOf(table, callsign, old(socket.Avail()));
              r == p.reading && socket.Avail() == old(socket.Avail())[p.used..]
  {
    hide AgreeOf, LineOf, Classify, SaysAgree, Arriving, Sound, Waiting;
    ghost var skipped: nat := 0;
    ghost var a := socket.Avail();
    assert a[0..] == a;
    while true
      invariant socket.now >= old(socket.now) && socket.Horizon() == old(socket.Horizon())
      invariant old(Sound(socket.script)) ==> Sound(socket.script)
      invariant old(socket.Silent()) && deadline <= old(socket.Horizon()) ==> socket.Silent()
      invariant skipped <= |a| && socket.Avail() == a[skipped..]
      invariant AgreeOf(table, callsign, a) ==
                (var q := AgreeOf(table, callsign, a[skipped..]); Parse(q.reading, skipped + q.used))
      decreases |socket.Avail()|
    {
      ghost var rest := socket.Avail();
      AgreeByLine(table, callsign, rest);
      var line := socket.ReadBoundedLineUntil(deadline);
      if line != Failed(TimedOut) && line != Failed(Fault) {
        TailOfTail(a, skipped, LineOf(rest).used);
        TailOfTail(a, skipped, AgreeOf(table, callsign, rest).used);
      }
      if !line.Got? {
        return if line.EndOfInput? then EndOfInput else Failed(line.error);
      }
      match Classify(table, line.value, callsign) {
        case DuplicateCallsign =>
        case LinbpqStatus =>
        case Candidate => return Got(SaysAgree(table, line.value));
      }
      skipped := skipped + LineOf(rest).used;
    }
  }

  lemma TailOfTail(a: seq<byte>, m: nat, n: nat)
    requires m <= |a| && n <= |a| - m
    ensures a[m..][n..] == a[m + n..]
  {
  }

  /** The callsign exchange; a station is returned only if it agreed. */
  method Authenticate(table: seq<byte> -> seq<byte>, allowed: seq<seq<byte>>, socket: Socket)
    returns (r: Reading<Option<seq<byte>>>)
    modifies socket
    ensures socket.now >= old(socket.now) && socket.Horizon() == old(socket.Horizon())
    ensures old(Sound(socket.script)) ==> Sound(socket.script) && r != Failed(Fault)
    ensures r == Failed(TimedOut) ==> socket.now >= old(socket.now) + PRE_AUTH_TIMEOUT
    ensures old(socket.Silent()) && old(socket.now) + 300 <= old(socket.Horizon()) ==> r == Failed(TimedOut)
    ensures r != Failed(TimedOut) && r != Failed(Fault) ==>
              var p := AuthOf(table, allowed, old(socket.Avail()));
              r == p.reading && socket.Avail() == old(socket.Avail())[p.used..]
  {
    hide AuthOf, LineOf, AgreeOf, ValidateCallsign, Utf8.Trim, Arriving, Sound, Waiting;
    ghost var a := socket.Avail();
    AuthByLine(table, allowed, a);
    var deadline := socket.now + PRE_AUTH_TIMEOUT;
    var first := socket.ReadBoundedLineUntil(deadline);
    if !first.Got? {
      return if first.EndOfInput? then EndOfInput else Failed(first.error);
    }
    var callsign := ValidateCallsign(table, allowed, Utf8.Trim(first.value));
    if callsign.None? {
      return Got(None);
    }
    ghost var used := LineOf(a).used;
    TailOfTail(a, used, AgreeOf(table, callsign.value, a[used..]).used);
    var agree := AwaitAgree(table, socket, callsign.value, deadline);
    if !agree.Got? {
      return if agree.EndOfInput? then EndOfInput else Failed(agree.error);
    }
    r := Got(if agree.value then callsign else None);
  }

  /**
   A whole connection. Barring the deadline and socket faults, the station is
   the one that the stream authenticates; requests are handled only for a
   station, and they are those that follow the authenticating lines, all of
   them unless a timeout, a fault or a failed answer ends the loop.
   */
  method HandleConnection(table: seq<byte> -> seq<byte>, allowed: seq<seq<byte>>, socket: Socket, idle: nat)
    returns (auth: Reading<Option<seq<byte>>>, handled: seq<RequestCodec.Request>, end: Option<LoopEnd>)
    modifies socket
    ensures auth == Failed(TimedOut) ==> socket.now >= old(socket.now) + PRE_AUTH_TIMEOUT
    ensures old(socket.Silent()) && old(socket.now) + 300 <= old(socket.Horizon()) ==> auth == Failed(TimedOut)
    ensures old(Sound(socket.script)) ==> auth != Failed(Fault)
    ensures auth != Failed(TimedOut) && auth != Failed(Fault) ==>
              auth == AuthOf(table, allowed, old(socket.Avail())).reading
    ensures !(auth.Got? && auth.value.Some?) ==> handled == [] && end == None
    ensures auth.Got? && auth.value.Some? ==>
              var later := old(socket.Avail())[AuthOf(table, allowed, old(socket.Avail())).used..];
              && handled <= RequestsOf(later) && end.Some?
              && (EndedByStream(end.value) ==> handled == RequestsOf(later))
  {
    hide AuthOf, RequestsOf, Sound, Waiting, Arriving;
    auth := Authenticate(table, allowed, socket);
    if !auth.Got? || auth.value.None? {
      return auth, [], None;
    }
    var loopEnd;
    handled, loopEnd := socket.ServeRequests(idle);
    end := Some(loopEnd);
  }

  // ----- What upper case keeps -----

  lemma WideChar(s: seq<byte>, i: nat)
    requires 2 <= Utf8.CharLen(s) && i < Utf8.CharLen(s)
    ensures s[i] >= 0x80 && Utf8.CharLen(s[..Utf8.CharLen(s)]) == Utf8.CharLen(s)
  {
  }

  predicate Caseless(b: byte) {
    b < 0x80 && !IsLetter(b)
  }

  lemma WideCharHasNone(s: seq<byte>, b: byte)
    requires Utf8.CharLen(s) > 1 && b < 0x80
    ensures b !in s[..Utf8.CharLen(s)]
  {
    forall i | 0 <= i < Utf8.CharLen(s)
      ensures s[..Utf8.CharLen(s)][i] != b
    {
      WideChar(s, i);
    }
  }

  lemma TableHasNone(table: seq<byte> -> seq<byte>, s: seq<byte>, b: byte)
    requires CaseTable(table) && Utf8.CharLen(s) > 1 && Caseless(b)
    ensures b !in table(s[..Utf8.CharLen(s)])
  {
    WideChar(s, 0);
    hide Utf8.CharLen;
    var c := s[..Utf8.CharLen(s)];
    assert Utf8.CharLen(c) == |c|;
  }

  lemma InParts(a: seq<byte>, c: seq<byte>, b: byte)
    ensures b in a + c <==> b in a || b in c
  {
  }

  /** Characters without case are kept and never produced. */
  lemma {:induction false} UpperKeeps(table: seq<byte> -> seq<byte>, s: seq<byte>, b: byte)
    requires CaseTable(table) && Caseless(b)
    ensures b in Upper(table, s) ==> b in s
    ensures Utf8.Valid(s) && b in s ==> b in Upper(table, s)
  {
    hide Utf8.CharLen, CaseTable;
    var n := Utf8.CharLen(s);
    if n > 0 {
      UpperKeeps(table, s[n..], b);
      assert s == s[..n] + s[n..];
      InParts(s[..n], s[n..], b);
      InParts(if n == 1 then [AsciiUpper(s[0])] else table(s[..n]), Upper(table, s[n..]), b);
      if n > 1 {
        WideCharHasNone(s, b);
        TableHasNone(table, s, b);
      } else {
        assert s[..1] == [s[0]];
      }
    }
  }

  lemma UpperHead(table: seq<byte> -> seq<byte>, s: seq<byte>, b: byte)
    requires CaseTable(table) && Caseless(b) && Utf8.Valid(s)
    ensures StartsWith(Upper(table, s), [b]) <==> StartsWith(s, [b])
    ensures StartsWith(s, [b]) ==> Utf8.Valid(s[1..]) && Upper(table, s) == [b] + Upper(table, s[1..])
  {
    if s != [] {
      var n := Utf8.CharLen(s);
      if n > 1 {
        WideChar(s, 0);
      }
    }
  }

  lemma StarsByHead(s: seq<byte>)
    ensures StartsWith(s, STARS) <==>
            StartsWith(s, [42]) && StartsWith(s[1..], [42]) && StartsWith(s[1..][1..], [42])
  {
  }

  lemma UpperStars(table: seq<byte> -> seq<byte>, s: seq<byte>)
    requires CaseTable(table) && Utf8.Valid(s)
    ensures StartsWith(Upper(table, s), STARS) <==> StartsWith(s, STARS)
  {
    hide Upper, CaseTable, Utf8.Valid;
    StarsByHead(s);
    StarsByHead(Upper(table, s));
    UpperHead(table, s, 42);
    if StartsWith(s, [42]) {
      UpperHead(table, s[1..], 42);
      if StartsWith(s[1..], [42]) {
        UpperHead(table, s[1..][1..], 42);
      }
    }
  }

  // ----- Noise -----

  /** A complete line that the reader accepts. */
  predicate WholeLine(line: seq<byte>) {
    LineOf(line) == Parse(Got(line), |line|)
  }

  ghost predicate NoiseLine(table: seq<byte> -> seq<byte>, callsign: seq<byte>, line: seq<byte>) {
    WholeLine(line) && Classify(table, line, callsign) != Candidate
  }

  lemma WholeLineThen(line: seq<byte>, rest: seq<byte>)
    requires WholeLine(line)
    ensures line != [] && LineOf(line + rest) == Parse(Got(line), |line|) && (line + rest)[|line|..] == rest
  {
    hide Utf8.Valid;
    var n := IndexOf(line, LF);
    assert (line + rest)[..n + 1] == line;
    IndexOfIs(line + rest, LF, n);
  }

  lemma OneNoiseLine(table: seq<byte> -> seq<byte>, callsign: seq<byte>, line: seq<byte>, a: seq<byte>)
    requires NoiseLine(table, callsign, line)
    ensures var p, q := AgreeOf(table, callsign, line + a), AgreeOf(table, callsign, a);
            p.reading == q.reading && p.used == |line| + q.used
  {
    hide AgreeOf, LineOf, Classify;
    WholeLineThen(line, a);
    AgreeByLine(table, callsign, line + a);
  }

  /** Noise before anything changes nothing but the position. */
  lemma {:induction false} NoiseInsertion(table: seq<byte> -> seq<byte>, callsign: seq<byte>, noise: seq<seq<byte>>,
                                          a: seq<byte>)
    requires forall line :: line in noise ==> NoiseLine(table, callsign, line)
    ensures var p, q := AgreeOf(table, callsign, Flatten(noise) + a), AgreeOf(table, callsign, a);
            p.reading == q.reading && p.used == |Flatten(noise)| + q.used
  {
    hide AgreeOf, NoiseLine;
    if noise == [] {
      assert Flatten(noise) + a == a;
    } else {
      var line, later := noise[0], noise[1..];
      NoiseInsertion(table, callsign, later, a);
      OneNoiseLine(table, callsign, line, Flatten(later) + a);
      assert Flatten(noise) + a == line + (Flatten(later) + a);
    }
  }

  lemma CandidateDecides(table: seq<byte> -> seq<byte>, callsign: seq<byte>, line: seq<byte>, rest: seq<byte>)
    requires WholeLine(line) && Classify(table, line, callsign) == Candidate
    ensures AgreeOf(table, callsign, line + rest) == Parse(Got(SaysAgree(table, line)), |line|)
  {
    hide AgreeOf, LineOf, Classify;
    WholeLineThen(line, rest);
    AgreeByLine(table, callsign, line + rest);
  }

  /** The stream is noise lines, then a candidate line, then anything. */
  ghost predicate NoiseThen(table: seq<byte> -> seq<byte>, callsign: seq<byte>, a: seq<byte>,
                            noise: seq<seq<byte>>, line: seq<byte>, rest: seq<byte>) {
    && a == Flatten(noise) + (line + rest)
    && (forall n :: n in noise ==> NoiseLine(table, callsign, n))
    && WholeLine(line) && Classify(table, line, callsign) == Candidate
  }

  lemma FirstLineWhole(a: seq<byte>)
    requires LineOf(a).reading.Got?
    ensures var line := LineOf(a).reading.value;
            WholeLine(line) && line != [] && |line| == LineOf(a).used && a == line + a[LineOf(a).used..]
  {
    hide Utf8.Valid;
    var n := IndexOf(a, LF);
    var line := a[..n + 1];
    assert line[..n + 1] == line;
    IndexOfIs(line, LF, n);
  }

  lemma {:induction false} DecidedByCandidate(table: seq<byte> -> seq<byte>, callsign: seq<byte>, a: seq<byte>)
    returns (noise: seq<seq<byte>>, line: seq<byte>, rest: seq<byte>)
    requires AgreeOf(table, callsign, a).reading.Got?
    ensures NoiseThen(table, callsign, a, noise, line, rest)
    decreases |a|
  {
    hide AgreeOf, LineOf, Classify, SaysAgree, WholeLine;
    AgreeByLine(table, callsign, a);
    FirstLineWhole(a);
    var text, later := LineOf(a).reading.value, a[LineOf(a).used..];
    if Classify(table, text, callsign) == Candidate {
      noise, line, rest := [], text, later;
    } else {
      noise, line, rest := DecidedByCandidate(table, callsign, later);
      assert Flatten([text] + noise) == text + Flatten(noise);
      noise := [text] + noise;
    }
  }

  /**
   The verdict on a stream, exactly: it is whether the first line that is not
   noise trims and upper-cases to AGREE.
   */
  lemma AgreeExact(table: seq<byte> -> seq<byte>, callsign: seq<byte>, a: seq<byte>, yes: bool)
    ensures AgreeOf(table, callsign, a).reading == Got(yes) <==>
            exists noise, line, rest ::
              NoiseThen(table, callsign, a, noise, line, rest) && SaysAgree(table, line) == yes
  {
    hide AgreeOf, LineOf, Classify, SaysAgree, WholeLine;
    forall noise, line, rest | NoiseThen(table, callsign, a, noise, line, rest)
      ensures AgreeOf(table, callsign, a).reading == Got(SaysAgree(table, line))
    {
      NoiseInsertion(table, callsign, noise, line + rest);
      CandidateDecides(table, callsign, line, rest);
    }
    if AgreeOf(table, callsign, a).reading == Got(yes) {
      var noise, line, rest := DecidedByCandidate(table, callsign, a);
    }
  }

  // ----- Duplicates of the callsign line -----

  /**
   A node's second copy of the callsign line is skipped exactly when the
   station entered no SSID (or its text itself looks like a status line): the
   admitted callsign is the part before the hyphen, the duplicate is compared
   whole.
   */
  lemma DuplicateSkippedExactly(table: seq<byte> -> seq<byte>, allowed: seq<seq<byte>>, line: seq<byte>,
                                entered: seq<byte>)
    requires CaseTable(table) && Utf8.Valid(entered) && Utf8.Trim(line) == entered
    requires ValidateCallsign(table, allowed, entered).Some?
    ensures Classify(table, line, ValidateCallsign(table, allowed, entered).value) != Candidate <==>
            HYPHEN !in entered || StartsWith(entered, STARS)
  {
    hide Upper, CaseTable, Utf8.Valid, Utf8.Trim;
    UpperStars(table, entered);
    var base := Base(entered);
    if HYPHEN !in entered {
      assert base == entered;
    } else {
      UpperKeeps(table, entered, HYPHEN);
      UpperKeeps(table, base, HYPHEN);
      assert HYPHEN !in base;
    }
  }

  lemma WholeLineValid(line: seq<byte>)
    requires WholeLine(line)
    ensures Utf8.Valid(Utf8.Trim(line))
  {
    hide Utf8.Trim, Utf8.Valid;
    Utf8.TrimValid(line);
  }

  /**
   Noise tolerance: for a station admitted without SSID, any number of copies
   of its callsign line and of status lines before the rest of the stream
   leave the verdict as it was.
   */
  lemma NoiseTolerance(table: seq<byte> -> seq<byte>, allowed: seq<seq<byte>>, entered: seq<byte>,
                       noise: seq<seq<byte>>, a: seq<byte>)
    requires CaseTable(table) && Utf8.Valid(entered) && HYPHEN !in entered
    requires ValidateCallsign(table, allowed, entered).Some?
    requires forall n :: n in noise ==> WholeLine(n)
    requires forall n :: n in noise ==> Utf8.Trim(n) == entered || StartsWith(Utf8.Trim(n), STARS)
    ensures var callsign := ValidateCallsign(table, allowed, entered).value;
            AgreeOf(table, callsign, Flatten(noise) + a).reading == AgreeOf(table, callsign, a).reading
  {
    hide AgreeOf, CaseTable, Utf8.Valid, Utf8.Trim, WholeLine, ValidateCallsign, Upper;
    var callsign := ValidateCallsign(table, allowed, entered).value;
    forall n | n in noise
      ensures NoiseLine(table, callsign, n)
    {
      WholeLineValid(n);
      if Utf8.Trim(n) == entered {
        DuplicateSkippedExactly(table, allowed, n, entered);
      } else {
        UpperStars(table, Utf8.Trim(n));
      }
    }
    NoiseInsertion(table, callsign, noise, a);
  }

  /** A station admitted as AGREE (only an allowlist can do that) never gets past its own duplicates. */
  lemma {:induction false} AgreeStationShutOut(table: seq<byte> -> seq<byte>, a: seq<byte>)
    ensures AgreeOf(table, AGREE, a).reading != Got(true)
    decreases |a|
  {
    hide AgreeOf, LineOf, Upper, Utf8.Trim;
    AgreeByLine(table, AGREE, a);
    if LineOf(a).reading.Got? && Classify(table, LineOf(a).reading.value, AGREE) != Candidate {
      AgreeStationShutOut(table, a[LineOf(a).used..]);
    }
  }

  // ----- Which callsigns and which words -----

  ghost predicate AllAlphanumeric(s: seq<byte>) {
    forall b :: b in s ==> 48 <= b <= 57 || 65 <= b <= 90 || 97 <= b <= 122
  }

  /** The callsign pattern: one to three letters or digits, a digit, up to three letters or digits, and a letter. */
  ghost predicate Pattern(prefix: seq<byte>, digit: byte, suffix: seq<byte>, last: byte) {
    && 1 <= |prefix| <= 3 && AllAlphanumeric(prefix) && 48 <= digit <= 57
    && |suffix| <= 3 && AllAlphanumeric(suffix) && (65 <= last <= 90 || 97 <= last <= 122)
  }

  lemma PatternFits(prefix: seq<byte>, digit: byte, suffix: seq<byte>, last: byte)
    requires Pattern(prefix, digit, suffix, last)
    ensures ItuShape(prefix + [digit] + suffix + [last])
  {
    var s := prefix + [digit] + suffix + [last];
    assert s[|prefix|] == digit && s[|s| - 1] == last;
    forall k | 0 <= k < |s|
      ensures IsDigit(s[k]) || IsLetter(s[k])
    {
      assert k < |prefix| ==> s[k] == prefix[k] && prefix[k] in prefix;
      assert |prefix| < k < |s| - 1 ==> s[k] == suffix[k - |prefix| - 1] && s[k] in suffix;
    }
  }

  lemma PatternOf(s: seq<byte>) returns (prefix: seq<byte>, digit: byte, suffix: seq<byte>, last: byte)
    requires ItuShape(s)
    ensures Pattern(prefix, digit, suffix, last) && s == prefix + [digit] + suffix + [last]
  {
    var i :| 1 <= i <= 3 && i + 2 <= |s| <= i + 5 && IsDigit(s[i]);
    var n := |s| - 1;
    prefix, digit, suffix, last := s[..i], s[i], s[i + 1..n], s[n];
  }

  /** Admitted without an allowlist are exactly the texts of that pattern. */
  lemma ItuExactly(s: seq<byte>)
    ensures ItuShape(s) <==>
            exists prefix: seq<byte>, digit: byte, suffix: seq<byte>, last: byte ::
              Pattern(prefix, digit, suffix, last) && s == prefix + [digit] + suffix + [last]
  {
    if ItuShape(s) {
      var prefix, digit, suffix, last := PatternOf(s);
    }
    hide ItuShape, Pattern;
    forall prefix: seq<byte>, digit: byte, suffix: seq<byte>, last: byte |
      Pattern(prefix, digit, suffix, last) && s == prefix + [digit] + suffix + [last]
      ensures ItuShape(s)
    {
      PatternFits(prefix, digit, suffix, last);
    }
  }

  /** The same letters, whatever their case. */
  ghost predicate SameLetters(a: seq<byte>, b: seq<byte>) {
    |a| == |b| && forall i :: 0 <= i < |a| ==>
      || a[i] == b[i] || (65 <= a[i] <= 90 && b[i] == a[i] + 32) || (65 <= b[i] <= 90 && a[i] == b[i] + 32)
  }

  /** Admitted is a callsign by its part before the first hyphen: by the pattern, or by the allowlist in any case. */
  lemma AdmittedExactly(table: seq<byte> -> seq<byte>, allowed: seq<seq<byte>>, base: seq<byte>, ssid: seq<byte>)
    requires 45 !in base
    ensures var admitted := ValidateCallsign(table, allowed, base);
            && admitted == ValidateCallsign(table, allowed, base + [45] + ssid)
            && (admitted.Some? <==> ItuShape(base) || exists i :: 0 <= i < |allowed| && SameLetters(allowed[i], base))
            && (admitted.Some? ==> admitted.value == Upper(table, base))
  {
    assert Base(base) == base;
    var whole := base + [45] + ssid;
    assert whole[..|base|] == base && whole[|base|] == 45;
    IndexOfIs(whole, HYPHEN, |base|);
    hide ItuShape, Upper;
    forall i | 0 <= i < |allowed|
      ensures SameIgnoringCase(allowed[i], base) <==> SameLetters(allowed[i], base)
    {
    }
  }

  /** Upper case of ASCII text, byte by byte. */
  lemma {:induction false} UpperAscii(table: seq<byte> -> seq<byte>, s: seq<byte>)
    requires Utf8.Ascii(s)
    ensures |Upper(table, s)| == |s|
    ensures forall i :: 0 <= i < |s| ==> Upper(table, s)[i] == if 97 <= s[i] <= 122 then s[i] - 32 else s[i]
  {
    if s != [] {
      UpperAscii(table, s[1..]);
      assert Upper(table, s) == [AsciiUpper(s[0])] + Upper(table, s[1..]);
    }
  }

  /** The word in any mixture of cases. */
  predicate IsAgree(word: seq<byte>) {
    && |word| == 5 && word[0] in {65, 97} && word[1] in {71, 103} && word[2] in {82, 114}
    && word[3] in {69, 101} && word[4] in {69, 101}
  }

  /** Of ASCII words exactly these upper-case to AGREE. */
  lemma AgreeInAnyCase(table: seq<byte> -> seq<byte>, word: seq<byte>)
    requires Utf8.Ascii(word)
    ensures Upper(table, word) == Text("AGREE") <==> IsAgree(word)
  {
    UpperAscii(table, word);
    hide Upper;
    var agree := Text("AGREE");
    assert agree == [65, 71, 82, 69, 69];
    if IsAgree(word) {
      assert forall i :: 0 <= i < 5 ==> Upper(table, word)[i] == agree[i];
    }
  }

  lemma Words()
    ensures AGREE == Text("AGREE") && STARS == Text("***")
  {
  }

  /** An ASCII line with white space around its word. */
  ghost predicate PlainLine(lead: seq<byte>, word: seq<byte>, tail: seq<byte>) {
    && word != [] && Utf8.Ascii(word)
    && word[0] !in {9, 10, 11, 12, 13, 32} && word[|word| - 1] !in {9, 10, 11, 12, 13, 32}
    && 10 !in lead && 10 !in word && 10 !in tail && |lead| + |word| + |tail| < LINE_CAP
    && (forall b :: b in lead || b in tail ==> b in {9, 10, 11, 12, 13, 32})
  }

  lemma PlainLineRead(lead: seq<byte>, word: seq<byte>, tail: seq<byte>, rest: seq<byte>)
    requires PlainLine(lead, word, tail)
    ensures var line := lead + word + tail + [10];
            && LineOf(line + rest) == Parse(Got(line), |line|) && (line + rest)[|line|..] == rest
            && Utf8.Trim(line) == word
  {
    PlainLineTrims(lead, word, tail);
    PlainLineValid(lead, word, tail);
    hide LineOf, Utf8.Trim, Utf8.Valid, Utf8.Ascii;
    assert LF !in lead + word + tail;
    LineFound(lead + word + tail, rest);
  }

  lemma PlainLineTrims(lead: seq<byte>, word: seq<byte>, tail: seq<byte>)
    requires PlainLine(lead, word, tail)
    ensures Utf8.Trim(lead + word + tail + [10]) == word
  {
    hide Utf8.Trim;
    Utf8.TrimAscii(lead, word, tail + [10]);
    assert lead + word + (tail + [10]) == lead + word + tail + [10];
  }

  lemma PlainLineValid(lead: seq<byte>, word: seq<byte>, tail: seq<byte>)
    requires PlainLine(lead, word, tail)
    ensures Utf8.Valid(lead + word + tail + [10])
  {
    var line := lead + word + tail + [10];
    forall i | 0 <= i < |line|
      ensures line[i] < 0x80
    {
      assert line[i] in lead || line[i] in word || line[i] in tail || line[i] == 10;
    }
    Utf8.AsciiValid(line);
  }

  /**
   AGREE in any mixture of cases, with white space around it and closed by LF
   or CR LF, is a yes for every callsign but AGREE itself; another ASCII word
   that is neither the callsign nor a status line is a no.
   */
  lemma AgreeLine(table: seq<byte> -> seq<byte>, callsign: seq<byte>,
                  lead: seq<byte>, word: seq<byte>, tail: seq<byte>, rest: seq<byte>)
    requires PlainLine(lead, word, tail) && callsign != Text("AGREE")
    ensures var p := AgreeOf(table, callsign, lead + word + tail + [10] + rest);
            && (IsAgree(word) ==> p == Parse(Got(true), |lead| + |word| + |tail| + 1))
            && (!IsAgree(word) && Upper(table, word) != callsign && !StartsWith(word, [42, 42, 42]) ==>
                  p == Parse(Got(false), |lead| + |word| + |tail| + 1))
  {
    Words();
    PlainLineRead(lead, word, tail, rest);
    AgreeInAnyCase(table, word);
    WordClassified(table, callsign, word);
    AgreeByLine(table, callsign, lead + word + tail + [10] + rest);
    hide AgreeOf, LineOf, Utf8.Trim, Upper, Text, IsAgree, Utf8.Ascii;
  }

  lemma WordClassified(table: seq<byte> -> seq<byte>, callsign: seq<byte>, word: seq<byte>)
    requires Utf8.Ascii(word)
    ensures StartsWith(Upper(table, word), STARS) <==> StartsWith(word, [42, 42, 42])
  {
    UpperAscii(table, word);
    hide Upper;
    if |word| >= 3 {
      var up := Upper(table, word);
      assert up[..3] == STARS <==> word[..3] == [42, 42, 42] by {
        assert up[..3] == [up[0], up[1], up[2]] && word[..3] == [word[0], word[1], word[2]];
      }
    }
  }

  /**
   The client's half of the handshake meets the server's: a callsign of the
   pattern on one line and AGREE on the next authenticate the station under its
   callsign in upper case, and exactly these two lines are used up.
   */
  lemma ClientAdmitted(table: seq<byte> -> seq<byte>, allowed: seq<seq<byte>>, callsign: seq<byte>, rest: seq<byte>)
    requires ItuShape(callsign)
    ensures AuthOf(table, allowed, callsign + [10] + Text("AGREE") + [10] + rest) ==
            Parse(Got(Some(Upper(table, callsign))), |callsign| + 7)
  {
    AgreeIsPlain();
    ItuIsPlain(callsign);
    ItuAdmitted(table, allowed, callsign);
    hide *;
    var agree := Text("AGREE");
    var later := agree + [10] + rest;
    BareLineRead(callsign, later);
    BareAgree(table, Upper(table, callsign), agree, rest);
    Admitted(table, allowed, callsign + [10] + later, callsign, Upper(table, callsign));
    LaterLine(callsign + [10], agree, [10], rest);
  }

  lemma LaterLine(a: seq<byte>, b: seq<byte>, c: seq<byte>, d: seq<byte>)
    ensures a + (b + c + d) == a + b + c + d
  {
  }

  lemma Admitted(table: seq<byte> -> seq<byte>, allowed: seq<seq<byte>>, a: seq<byte>, entered: seq<byte>,
                 callsign: seq<byte>)
    requires LineOf(a).reading.Got? && Utf8.Trim(LineOf(a).reading.value) == entered
    requires ValidateCallsign(table, allowed, entered) == Some(callsign)
    requires AgreeOf(table, callsign, a[LineOf(a).used..]) == Parse(Got(true), 6)
    ensures AuthOf(table, allowed, a) == Parse(Got(Some(callsign)), LineOf(a).used + 6)
  {
    hide LineOf, AgreeOf, ValidateCallsign, Utf8.Trim;
    AuthByLine(table, allowed, a);
  }

  lemma BareLineRead(word: seq<byte>, rest: seq<byte>)
    requires PlainLine([], word, [])
    ensures var line := word + [10];
            && LineOf(line + rest) == Parse(Got(line), |line|) && (line + rest)[|line|..] == rest
            && Utf8.Trim(line) == word
  {
    hide LineOf, Utf8.Trim, PlainLine;
    PlainLineRead([], word, [], rest);
    assert [] + word + [] + [10] == word + [10];
  }

  lemma BareAgree(table: seq<byte> -> seq<byte>, callsign: seq<byte>, word: seq<byte>, rest: seq<byte>)
    requires PlainLine([], word, []) && IsAgree(word) && callsign != Text("AGREE")
    ensures AgreeOf(table, callsign, word + [10] + rest) == Parse(Got(true), 6)
  {
    hide AgreeOf, PlainLine, Text;
    AgreeLine(table, callsign, [], word, [], rest);
    assert [] + word + [] + [10] == word + [10];
  }

  lemma AgreeIsPlain()
    ensures PlainLine([], Text("AGREE"), []) && IsAgree(Text("AGREE")) && |Text("AGREE")| == 5
  {
    assert Text("AGREE") == [65, 71, 82, 69, 69];
  }

  lemma ItuIsPlain(callsign: seq<byte>)
    requires ItuShape(callsign)
    ensures PlainLine([], callsign, [])
  {
  }

  lemma ItuAdmitted(table: seq<byte> -> seq<byte>, allowed: seq<seq<byte>>, callsign: seq<byte>)
    requires ItuShape(callsign)
    ensures ValidateCallsign(table, allowed, callsign) == Some(Upper(table, callsign))
    ensures Upper(table, callsign) != Text("AGREE")
  {
    hide Upper;
    assert Base(callsign) == callsign;
    UpperNotAgree(table, callsign);
  }

  /** A callsign of the pattern has a digit, and keeps it. */
  lemma UpperNotAgree(table: seq<byte> -> seq<byte>, callsign: seq<byte>)
    requires ItuShape(callsign)
    ensures Upper(table, callsign) != Text("AGREE")
  {
    var prefix, digit, suffix, last := PatternOf(callsign);
    assert callsign[|prefix|] == digit;
    forall i | 0 <= i < |callsign|
      ensures callsign[i] < 0x80
    {
    }
    UpperAscii(table, callsign);
    hide Upper, ItuShape, Pattern;
    assert Text("AGREE") == [65, 71, 82, 69, 69];
    assert Upper(table, callsign)[|prefix|] == digit;
  }
}
