/** The AGWPE frame: a 36-byte header with two callsign fields and a data length, then the data. */
module AgwpeFrame {
  import opened Bytes
  import opened Wrappers
  import Utf8

  const HEADER_SIZE: nat := 36
  const MAX_FRAME_DATA_SIZE: nat := 64 * 1024
  const CALL_FIELD: nat := 10
  const U32: nat := 0x1_0000_0000

  type u32 = n: int | 0 <= n < U32

  datatype FrameType =
    | RegisterCallsign
    | RegistrationResponse
    | Connect
    | Connected
    | Disconnect
    | SendData
    | ConnectionRejected
    | QueryPorts
    | PortInfo

  datatype Frame = Frame(
    port: byte, frameType: FrameType, pid: byte, callFrom: seq<byte>, callTo: seq<byte>,
    dataLen: u32, userData: u32, data: seq<byte>)

  function Code(t: FrameType): byte {
    match t
    case RegisterCallsign => 0x58
    case RegistrationResponse => 0x78
    case Connect => 0x43
    case Connected => 0x63
    case Disconnect => 0x64
    case SendData => 0x44
    case ConnectionRejected => 0x52
    case QueryPorts => 0x47
    case PortInfo => 0x67
  }

  function TypeOfCode(b: byte): Option<FrameType> {
    match b
    case 0x58 => Some(RegisterCallsign)
    case 0x78 => Some(RegistrationResponse)
    case 0x43 => Some(Connect)
    case 0x63 => Some(Connected)
    case 0x64 => Some(Disconnect)
    case 0x44 => Some(SendData)
    case 0x52 => Some(ConnectionRejected)
    case 0x47 => Some(QueryPorts)
    case 0x67 => Some(PortInfo)
    case _ => None
  }

  /** `AgwpeFrame::new`: the length field is the data length cast to 32 bits. */
  function New(port: byte, frameType: FrameType, callFrom: seq<byte>, callTo: seq<byte>, data: seq<byte>): Frame {
    Frame(port, frameType, 0, callFrom, callTo, |data| % U32, 0, data)
  }

  function LittleEndian(n: u32): (b: seq<byte>)
    ensures |b| == 4
  {
    [n % 0x100, n / 0x100 % 0x100, n / 0x1_0000 % 0x100, n / 0x100_0000]
  }

  function FromLittleEndian(b: seq<byte>): u32
    requires |b| == 4
  {
    b[0] as int + (b[1] as int + (b[2] as int + b[3] as int * 0x100) * 0x100) * 0x100
  }

  function Zeros(n: nat): (z: seq<byte>)
    ensures |z| == n && forall i :: 0 <= i < n ==> z[i] == NUL
  {
    seq(n, _ => 0)
  }

  /** At most nine bytes of callsign, filled up with NULs. */
  function CallField(call: seq<byte>): (b: seq<byte>)
    ensures |b| == CALL_FIELD
  {
    var n := if |call| < 9 then |call| else 9;
    call[..n] + Zeros(CALL_FIELD - n)
  }

  function Header(f: Frame): (h: seq<byte>)
    ensures |h| == HEADER_SIZE
  {
    [f.port, 0, 0, 0, Code(f.frameType), 0, 0, 0]
    + CallField(f.callFrom) + CallField(f.callTo) + LittleEndian(f.dataLen) + LittleEndian(f.userData)
  }

  function Encode(f: Frame): seq<byte>
  {
    Header(f) + f.data
  }

  function ExtractCallsign(field: seq<byte>): Option<seq<byte>> {
    var call := field[..IndexOf(field, NUL)];
    if Utf8.Valid(call) then Some(call) else None
  }

  function DataLen(header: seq<byte>): u32
    requires |header| >= HEADER_SIZE
  {
    FromLittleEndian(header[28..32])
  }

  function Decode(data: seq<byte>): Result<Frame, ()> {
    if |data| < HEADER_SIZE then Err(())
    else
      var frameType := TypeOfCode(data[4]);
      var callFrom, callTo := ExtractCallsign(data[8..18]), ExtractCallsign(data[18..28]);
      var dataLen, userData := DataLen(data), FromLittleEndian(data[32..36]);
      if frameType.None? || callFrom.None? || callTo.None? then Err(())
      else if dataLen > MAX_FRAME_DATA_SIZE || |data| < HEADER_SIZE + dataLen then Err(())
      else Ok(Frame(data[0], frameType.value, 0, callFrom.value, callTo.value, dataLen, userData,
                    data[HEADER_SIZE..HEADER_SIZE + dataLen]))
  }

  /** What the frame at the front of a receive buffer amounts to. */
  datatype Scan = NeedBytes | Refused | Ready(frame: Frame, size: nat)

  function ScanBuffer(buf: seq<byte>): (s: Scan)
    ensures s.Ready? ==> HEADER_SIZE <= s.size <= |buf|
  {
    if |buf| < HEADER_SIZE then NeedBytes
    else
      var dataLen := DataLen(buf);
      if dataLen > MAX_FRAME_DATA_SIZE then Refused
      else if |buf| < HEADER_SIZE + dataLen then NeedBytes
      else
        match Decode(buf[..HEADER_SIZE + dataLen])
        case Ok(f) => Ready(f, HEADER_SIZE + dataLen)
        case Err(_) => Refused
  }

  /** A callsign the fixed field can hold: at most nine bytes, none of them NUL. */
  predicate FitsField(call: seq<byte>) {
    |call| <= 9 && NUL !in call
  }

  /** A frame whose every field the header can carry, with the right length in it. */
  ghost predicate Sendable(f: Frame) {
    && f.pid == 0
    && f.dataLen == |f.data| <= MAX_FRAME_DATA_SIZE
    && Utf8.Valid(f.callFrom) && Utf8.Valid(f.callTo)
    && FitsField(f.callFrom) && FitsField(f.callTo)
  }

  // ----- Fields -----

  lemma TypeRoundTrip(t: FrameType)
    ensures TypeOfCode(Code(t)) == Some(t)
  {
  }

  lemma LittleEndianRoundTrip(n: u32)
    ensures FromLittleEndian(LittleEndian(n)) == n
  {
    var n1, n2, n3 := n / 0x100, n / 0x1_0000, n / 0x100_0000;
    assert n == n1 * 0x100 + n % 0x100;
    assert n1 == n2 * 0x100 + n1 % 0x100;
    assert n2 == n3 * 0x100 + n2 % 0x100;
  }

  lemma CallRoundTrip(call: seq<byte>)
    requires Utf8.Valid(call)
    ensures ExtractCallsign(CallField(call)) == Some(call) <==> FitsField(call)
  {
    var field := CallField(call);
    if FitsField(call) {
      assert field[..|call|] == call;
      IndexOfIs(field, NUL, |call|);
    } else if |call| <= 9 {
      var i :| 0 <= i < |call| && call[i] == NUL;
      assert field[i] == NUL;
    } else {
      assert field[9] == NUL;
    }
  }

  /** Where each field of the header sits in an encoded frame. */
  lemma Layout(f: Frame, rest: seq<byte>)
    ensures var e := Encode(f) + rest;
            && |e| == HEADER_SIZE + |f.data| + |rest|
            && e[0] == f.port && e[4] == Code(f.frameType)
            && e[8..18] == CallField(f.callFrom) && e[18..28] == CallField(f.callTo)
            && e[28..32] == LittleEndian(f.dataLen) && e[32..36] == LittleEndian(f.userData)
            && e[36..] == f.data + rest
  {
    hide CallField, LittleEndian, Code;
    var e, h := Encode(f) + rest, Header(f);
    assert h[8..18] == CallField(f.callFrom) && h[18..28] == CallField(f.callTo);
    assert h[28..32] == LittleEndian(f.dataLen) && h[32..36] == LittleEndian(f.userData);
    assert e == h + (f.data + rest);
    assert e[8..18] == h[8..18] && e[18..28] == h[18..28] && e[28..32] == h[28..32] && e[32..36] == h[32..36];
  }

  /** The letter of a frame type in the modem's protocol. */
  function Letter(t: FrameType): char {
    match t
    case RegisterCallsign => 'X'
    case RegistrationResponse => 'x'
    case Connect => 'C'
    case Connected => 'c'
    case Disconnect => 'd'
    case SendData => 'D'
    case ConnectionRejected => 'R'
    case QueryPorts => 'G'
    case PortInfo => 'g'
  }

  /** Ten bytes from `at` on are a call: at most nine of its bytes, and NUL. */
  ghost predicate CallAt(e: seq<byte>, at: nat, call: seq<byte>) {
    at + 10 <= |e| && forall i :: 0 <= i < 10 ==> e[at + i] == if i < 9 && i < |call| then call[i] else 0
  }

  /** The encoded frame byte by byte: port, kind, the two calls, the length with its low byte first, the data. */
  lemma FrameBytes(f: Frame)
    ensures var e := Encode(f);
            && |e| == 36 + |f.data| && e[36..] == f.data && e[0] == f.port && e[4] == Letter(f.frameType) as int
            && (forall i :: 1 <= i < 8 && i != 4 ==> e[i] == 0)
            && CallAt(e, 8, f.callFrom) && CallAt(e, 18, f.callTo)
            && e[28] as int + 0x100 * e[29] as int + 0x1_0000 * e[30] as int + 0x100_0000 * e[31] as int == f.dataLen
            && e[32] as int + 0x100 * e[33] as int + 0x1_0000 * e[34] as int + 0x100_0000 * e[35] as int == f.userData
  {
    Layout(f, []);
    var e := Encode(f);
    assert e + [] == e && f.data + [] == f.data;
    LittleEndianRoundTrip(f.dataLen);
    LittleEndianRoundTrip(f.userData);
    FieldBytes(f.callFrom);
    FieldBytes(f.callTo);
    FourBytes(e[28..32], f.dataLen);
    FourBytes(e[32..36], f.userData);
    var from, to, len, user := e[8..18], e[18..28], e[28..32], e[32..36];
    hide CallField, LittleEndian, FromLittleEndian;
    assert forall i :: 0 <= i < 10 ==> from[i] == e[8 + i] && to[i] == e[18 + i];
    assert forall i :: 0 <= i < 4 ==> len[i] == e[28 + i] && user[i] == e[32 + i];
  }

  lemma FieldBytes(call: seq<byte>)
    ensures forall i :: 0 <= i < 10 ==> CallField(call)[i] == if i < 9 && i < |call| then call[i] else 0
  {
  }

  lemma FourBytes(b: seq<byte>, n: u32)
    requires |b| == 4 && b == LittleEndian(n)
    ensures b[0] as int + 0x100 * b[1] as int + 0x1_0000 * b[2] as int + 0x100_0000 * b[3] as int == n
  {
    LittleEndianRoundTrip(n);
    hide LittleEndian;
  }

  lemma FieldsRead(f: Frame, rest: seq<byte>)
    requires Utf8.Valid(f.callFrom) && Utf8.Valid(f.callTo)
    ensures var e := Encode(f) + rest;
            && |e| == HEADER_SIZE + |f.data| + |rest| && e[36..] == f.data + rest
            && e[0] == f.port && TypeOfCode(e[4]) == Some(f.frameType)
            && (ExtractCallsign(e[8..18]) == Some(f.callFrom) <==> FitsField(f.callFrom))
            && (ExtractCallsign(e[18..28]) == Some(f.callTo) <==> FitsField(f.callTo))
            && DataLen(e) == f.dataLen && FromLittleEndian(e[32..36]) == f.userData
  {
    Layout(f, rest);
    hide *;
    TypeRoundTrip(f.frameType);
    CallRoundTrip(f.callFrom);
    CallRoundTrip(f.callTo);
    LittleEndianRoundTrip(f.dataLen);
    LittleEndianRoundTrip(f.userData);
    DataLenAt(Encode(f) + rest, f.dataLen);
  }

  lemma DataLenAt(e: seq<byte>, n: u32)
    requires |e| >= HEADER_SIZE && e[28..32] == LittleEndian(n)
    ensures DataLen(e) == n
  {
    LittleEndianRoundTrip(n);
  }

  /** What the decoder takes as the data is the frame's data exactly when the length field is right. */
  lemma DataTaken(e: seq<byte>, data: seq<byte>, n: nat)
    requires |e| == HEADER_SIZE + |data| && e[HEADER_SIZE..] == data && n <= |data|
    ensures e[HEADER_SIZE..HEADER_SIZE + n] == data <==> n == |data|
  {
    assert n == |data| ==> e[HEADER_SIZE..HEADER_SIZE + n] == e[HEADER_SIZE..];
  }

  /** Decoding a buffer whose fields are known. */
  lemma DecodeIs(f: Frame, e: seq<byte>)
    requires f.pid == 0 && |e| == HEADER_SIZE + |f.data| && e[36..] == f.data
    requires e[0] == f.port && TypeOfCode(e[4]) == Some(f.frameType)
    requires DataLen(e) == f.dataLen && FromLittleEndian(e[32..36]) == f.userData
    ensures Decode(e) == Ok(f) <==>
            && f.dataLen == |f.data| <= MAX_FRAME_DATA_SIZE
            && ExtractCallsign(e[8..18]) == Some(f.callFrom) && ExtractCallsign(e[18..28]) == Some(f.callTo)
  {
    hide ExtractCallsign, DataLen, FromLittleEndian, TypeOfCode;
    if f.dataLen <= |f.data| {
      DataTaken(e, f.data, f.dataLen);
    }
  }

  /**
   Frame round trip, exact: what `new` builds survives encoding and decoding if
   and only if its data is at most 64 KiB and both callsigns fit their fields.
   */
  lemma FrameRoundTrip(port: byte, frameType: FrameType, callFrom: seq<byte>, callTo: seq<byte>, data: seq<byte>)
    requires Utf8.Valid(callFrom) && Utf8.Valid(callTo)
    ensures var f := New(port, frameType, callFrom, callTo, data);
            Decode(Encode(f)) == Ok(f) <==>
            |data| <= MAX_FRAME_DATA_SIZE && FitsField(callFrom) && FitsField(callTo)
  {
    hide Encode, Decode, DataLen, FromLittleEndian, TypeOfCode, ExtractCallsign, FitsField, Utf8.Valid;
    var f := New(port, frameType, callFrom, callTo, data);
    FieldsRead(f, []);
    assert Encode(f) + [] == Encode(f) && f.data + [] == f.data;
    DecodeIs(f, Encode(f));
  }

  // ----- The receive buffer -----

  /** A complete frame at the front of the buffer is found, whatever follows it. */
  lemma ScanComplete(f: Frame, rest: seq<byte>)
    requires Sendable(f)
    ensures ScanBuffer(Encode(f) + rest) == Ready(f, |Encode(f)|)
  {
    FieldsRead(f, rest);
    FieldsRead(f, []);
    assert Encode(f) + [] == Encode(f) && f.data + [] == f.data;
    DecodeIs(f, Encode(f));
    assert (Encode(f) + rest)[..|Encode(f)|] == Encode(f);
    hide Encode, Decode, DataLen;
  }

  /** A frame of which bytes are missing is waited for. */
  lemma ScanPartial(f: Frame, buf: seq<byte>)
    requires Sendable(f) && buf < Encode(f)
    ensures ScanBuffer(buf) == NeedBytes
  {
    if |buf| >= HEADER_SIZE {
      Layout(f, []);
      assert Encode(f) + [] == Encode(f);
      assert buf[28..32] == Encode(f)[28..32];
      DataLenAt(buf, f.dataLen);
    }
  }

  lemma KindExactly(b: byte, t: FrameType)
    ensures TypeOfCode(b) == Some(t) <==> b == Letter(t) as int
  {
  }

  /** The call in a field: its bytes up to the first NUL, if they are UTF-8. */
  ghost predicate CallIn(field: seq<byte>, call: seq<byte>) {
    && call <= field && Utf8.Valid(call) && 0 !in call
    && (|call| == |field| || field[|call|] == 0)
  }

  lemma CallExactly(field: seq<byte>, call: seq<byte>)
    ensures ExtractCallsign(field) == Some(call) <==> CallIn(field, call)
  {
    hide Utf8.Valid;
    var n := IndexOf(field, NUL);
    assert forall k :: 0 <= k < n ==> field[..n][k] == field[k];
    if CallIn(field, call) {
      CallEnds(field, call);
    }
  }

  lemma CallEnds(field: seq<byte>, call: seq<byte>)
    requires CallIn(field, call)
    ensures IndexOf(field, NUL) == |call| && field[..|call|] == call
  {
    hide Utf8.Valid;
    var n := IndexOf(field, NUL);
    assert field[..|call|] == call;
    assert forall k :: 0 <= k < |call| ==> field[k] == call[k] && call[k] in call;
    assert n == |call|;
  }

  /** What a buffer amounts to, byte by byte: its length field decides first, then its kind and its two calls. */
  lemma ScanExactly(buf: seq<byte>)
    requires |buf| >= 36
    ensures var n := buf[28] as int + 0x100 * buf[29] as int + 0x1_0000 * buf[30] as int + 0x100_0000 * buf[31] as int;
            if n > 65_536 then ScanBuffer(buf) == Refused
            else if |buf| < 36 + n then ScanBuffer(buf) == NeedBytes
            else if TypeOfCode(buf[4]).None? || ExtractCallsign(buf[8..18]).None? || ExtractCallsign(buf[18..28]).None?
            then ScanBuffer(buf) == Refused
            else
              && ScanBuffer(buf).Ready? && ScanBuffer(buf).size == 36 + n
              && var f := ScanBuffer(buf).frame;
                 && f.port == buf[0] && f.frameType == TypeOfCode(buf[4]).value && f.dataLen == n
                 && f.callFrom == ExtractCallsign(buf[8..18]).value && f.callTo == ExtractCallsign(buf[18..28]).value
                 && f.data == buf[36..36 + n]
  {
    hide ExtractCallsign, TypeOfCode;
    var n: nat := DataLen(buf);
    assert buf[28..32] == [buf[28], buf[29], buf[30], buf[31]];
    if |buf| >= 36 + n {
      var e := buf[..36 + n];
      assert e[28..32] == buf[28..32] && e[8..18] == buf[8..18] && e[18..28] == buf[18..28];
      assert e[36..36 + n] == buf[36..36 + n] && e[0] == buf[0] && e[4] == buf[4];
    }
  }
}
