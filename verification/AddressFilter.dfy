/**
 The address filter in front of every fetch: CIDR ranges compared by masking,
 IPv4 addresses embedded in IPv6, and the check that pins one resolved address.
 */
module AddressFilter {
  import opened Bytes
  import opened Wrappers

  const U32: nat := 0x1_0000_0000

  type u32 = n: int | 0 <= n < U32
  type Octets = o: seq<byte> | |o| == 16 witness [0, 0, 0, 0, 0, 0, 0, 0, 0, 0, 0, 0, 0, 0, 0, 0]

  datatype Ip = V4(bits: u32) | V6(octets: Octets)

  /** A configured range after parsing; text that is no IPv4 CIDR never matches. */
  datatype Range = Cidr(network: u32, prefix: byte) | Unparsable

  // ----- Bits -----

  /** `k` zero bits appended, and the last `k` bits dropped. */
  function Shl(x: nat, k: nat): nat {
    if k == 0 then x else 2 * Shl(x, k - 1)
  }

  function Shr(x: nat, k: nat): nat {
    if k == 0 then x else Shr(x / 2, k - 1)
  }

  function Pow2(k: nat): nat {
    Shl(1, k)
  }

  /** Bitwise and. */
  function And(x: nat, y: nat): nat {
    if x == 0 || y == 0 then 0
    else 2 * And(x / 2, y / 2) + (if x % 2 == 1 && y % 2 == 1 then 1 else 0)
  }

  /** `<<` on 32 bits: what leaves at the top is lost. */
  function ShiftLeft(x: u32, k: nat): u32 {
    Shl(x, k) % U32
  }

  // ----- CIDR -----

  function Mask(prefix: byte): u32
    requires prefix <= 32
  {
    if prefix == 0 then 0 else ShiftLeft(0xFFFF_FFFF, 32 - prefix)
  }

  predicate IsIpv4InCidr(ip: u32, network: u32, prefix: byte)
    requires prefix <= 32
  {
    And(ip, Mask(prefix)) == And(network, Mask(prefix))
  }

  predicate Matches(range: Range, ip: u32) {
    range.Cidr? && range.prefix <= 32 && IsIpv4InCidr(ip, range.network, range.prefix)
  }

  predicate Ipv4IsBlocked(ip: u32, ranges: seq<Range>) {
    exists i :: 0 <= i < |ranges| && Matches(ranges[i], ip)
  }

  /** `2^(32 - prefix)` consecutive addresses from the network's masked address on. */
  ghost predicate InBlock(ip: u32, network: u32, prefix: byte)
    requires prefix <= 32
  {
    var first := And(network, Mask(prefix));
    first <= ip < first + Pow2(32 - prefix)
  }

  // ----- IPv6 -----

  function FromOctets(a: byte, b: byte, c: byte, d: byte): u32 {
    ((a * 0x100 + b) * 0x100 + c) * 0x100 + d
  }

  /** `octets()` of an IPv4 address, most significant first. */
  function OctetsOf(ip: u32): seq<byte> {
    [ip / 0x100_0000, ip / 0x1_0000 % 0x100, ip / 0x100 % 0x100, ip % 0x100]
  }

  predicate AllZero(o: seq<byte>) {
    forall i :: 0 <= i < |o| ==> o[i] == 0
  }

  /** Loopback, unspecified, multicast, unique local, link local and the discard prefix. */
  predicate IsReserved(o: Octets) {
    || (AllZero(o[..15]) && o[15] <= 1)
    || o[0] == 0xFF
    || And(o[0], 0xFE) == 0xFC
    || (o[0] == 0xFE && And(o[1], 0xC0) == 0x80)
    || (o[0] == 1 && AllZero(o[1..8]))
  }

  function ToIpv4Mapped(o: Octets): Option<u32> {
    if AllZero(o[..10]) && o[10] == 0xFF && o[11] == 0xFF then Some(FromOctets(o[12], o[13], o[14], o[15])) else None
  }

  function From6to4(o: Octets): Option<u32> {
    if o[0] == 0x20 && o[1] == 0x02 then Some(FromOctets(o[2], o[3], o[4], o[5])) else None
  }

  predicate Ipv6IsBlocked(o: Octets, ranges: seq<Range>) {
    if IsReserved(o) then true
    else if ToIpv4Mapped(o).Some? then Ipv4IsBlocked(ToIpv4Mapped(o).value, ranges)
    else if From6to4(o).Some? then Ipv4IsBlocked(From6to4(o).value, ranges)
    else false
  }

  predicate IpIsBlocked(ip: Ip, ranges: seq<Range>) {
    match ip
    case V4(bits) => Ipv4IsBlocked(bits, ranges)
    case V6(octets) => Ipv6IsBlocked(octets, ranges)
  }

  function Mapped(ip: u32): Octets {
    [0, 0, 0, 0, 0, 0, 0, 0, 0, 0, 0xFF, 0xFF] + OctetsOf(ip)
  }

  function SixToFour(ip: u32, rest: seq<byte>): Octets
    requires |rest| == 10
  {
    [0x20, 0x02] + OctetsOf(ip) + rest
  }

  // ----- Hosts -----

  datatype UrlError = BlockedProtocol | BlockedHost | UnresolvableHost | InvalidUrl

  /** What the resolver answers for a name; `None` is a failed lookup. */
  type Answer = Option<seq<Ip>>

  /** The names refused whatever they resolve to: the fixed ones and the downloaded list, in lower case. */
  datatype Names = Names(hostnames: set<seq<byte>>, blocklist: set<seq<byte>>)

  /** A host text in lower case and the address it denotes if it is a literal, plain or in brackets. */
  datatype HostText = HostText(lower: seq<byte>, literal: Option<Ip>, bracketed: Option<Ip>)

  predicate NameIsBlocked(names: Names, lower: seq<byte>) {
    lower in names.hostnames || lower in names.blocklist
  }

  function CheckLiteral(ip: Ip, ranges: seq<Range>): Result<Ip, UrlError> {
    if IpIsBlocked(ip, ranges) then Err(BlockedHost) else Ok(ip)
  }

  function ResolveAndPin(names: Names, host: HostText, answer: Answer, ranges: seq<Range>): Result<Ip, UrlError> {
    if NameIsBlocked(names, host.lower) then Err(BlockedHost)
    else if host.literal.Some? then CheckLiteral(host.literal.value, ranges)
    else if host.bracketed.Some? then CheckLiteral(host.bracketed.value, ranges)
    else if answer.None? || answer.value == [] then Err(UnresolvableHost)
    else CheckLiteral(answer.value[0], ranges)
  }

  /** The host of a parsed URL. */
  datatype Host = Domain(lower: seq<byte>) | Literal(ip: Ip)

  datatype Url = NotAUrl | Url(web: bool, host: Option<Host>)

  function ValidateUrl(names: Names, url: Url, answer: Answer, ranges: seq<Range>): Result<(), UrlError> {
    if url.NotAUrl? then Err(InvalidUrl)
    else if !url.web then Err(BlockedProtocol)
    else
      match url.host
      case None => Err(InvalidUrl)
      case Some(Literal(ip)) => if IpIsBlocked(ip, ranges) then Err(BlockedHost) else Ok(())
      case Some(Domain(lower)) =>
        if NameIsBlocked(names, lower) then Err(BlockedHost)
        else if answer.None? then Err(UnresolvableHost)
        else if exists i :: 0 <= i < |answer.value| && IpIsBlocked(answer.value[i], ranges) then Err(BlockedHost)
        else Ok(())
  }

  /** A URL's host and the text handed to the proxy denote the same thing; a literal's text may be in brackets. */
  predicate SameHost(host: Host, text: HostText) {
    match host
    case Domain(lower) => text.lower == lower && text.literal.None? && text.bracketed.None?
    case Literal(ip) => text.literal == Some(ip) || (text.literal.None? && text.bracketed == Some(ip))
  }

  // ----- Masking is interval membership -----

  lemma AndEven(x: nat, y: nat)
    ensures And(x, 2 * y) == 2 * And(x / 2, y)
  {
    if x != 0 && y != 0 {
      assert 2 * y / 2 == y && 2 * y % 2 == 0;
      assert And(x, 2 * y) == 2 * And(x / 2, 2 * y / 2);
    }
  }

  lemma {:induction false} AndShifted(x: nat, m: nat, k: nat)
    ensures And(x, Shl(m, k)) == Shl(And(Shr(x, k), m), k)
  {
    if k > 0 {
      AndEven(x, Shl(m, k - 1));
      AndShifted(x / 2, m, k - 1);
    }
  }

  lemma {:induction false} AndOnes(x: nat, n: nat)
    requires x < Pow2(n)
    ensures And(x, Pow2(n) - 1) == x
  {
    if n > 0 && x > 0 {
      AndOnes(x / 2, n - 1);
      assert (Pow2(n) - 1) / 2 == Pow2(n - 1) - 1;
    }
  }

  lemma {:induction false} ShlSum(a: nat, b: nat, k: nat)
    ensures Shl(a + b, k) == Shl(a, k) + Shl(b, k)
  {
    if k > 0 {
      ShlSum(a, b, k - 1);
    }
  }

  lemma {:induction false} ShlTwice(x: nat, j: nat, k: nat)
    ensures Shl(Shl(x, j), k) == Shl(x, j + k)
  {
    if k > 0 {
      ShlTwice(x, j, k - 1);
    }
  }

  lemma {:induction false} ShrSmall(x: nat, n: nat, k: nat)
    requires x < Pow2(n + k)
    ensures Shr(x, k) < Pow2(n)
  {
    if k > 0 {
      ShrSmall(x / 2, n, k - 1);
    }
  }

  lemma {:induction false} PowPositive(k: nat)
    ensures Pow2(k) > 0
  {
    if k > 0 {
      PowPositive(k - 1);
    }
  }

  /** Dropping and restoring the last `k` bits finds the start of the block of `2^k` numbers around `x`. */
  lemma {:induction false} BlockOf(x: nat, y: nat, k: nat)
    ensures Shl(Shr(x, k), k) == Shl(Shr(y, k), k) <==> Shl(Shr(y, k), k) <= x < Shl(Shr(y, k), k) + Pow2(k)
  {
    if k > 0 {
      BlockOf(x / 2, y / 2, k - 1);
    }
  }

  lemma Shl8(x: nat)
    ensures Shl(x, 8) == 0x100 * x
  {
    assert Shl(x, 1) == 2 * x;
    assert Shl(x, 2) == 4 * x;
    assert Shl(x, 4) == 4 * Shl(x, 2);
    assert Shl(x, 6) == 4 * Shl(x, 4);
  }

  lemma Shl32(x: nat)
    ensures Shl(x, 32) == x * U32
  {
    ShlTwice(x, 8, 8);
    ShlTwice(x, 16, 8);
    ShlTwice(x, 24, 8);
    Shl8(x);
    Shl8(0x100 * x);
    Shl8(0x1_0000 * x);
    Shl8(0x100_0000 * x);
  }

  lemma ModOf(n: nat, q: nat, r: nat)
    requires n == q * U32 + r && r < U32
    ensures n % U32 == r
  {
  }

  /** Of 32 ones shifted by `k`, the first `k` are lost. */
  lemma ShiftedOnes(ones: nat, lost: nat, k: nat)
    requires k <= 32 && ones + 1 == Pow2(32 - k) && lost + 1 == Pow2(k)
    ensures Shl(0xFFFF_FFFF, k) == lost * U32 + Shl(ones, k) && Shl(ones, k) < U32
  {
    hide Shl;
    var prefix := 32 - k;
    Shl32(1);
    Shl32(lost);
    ShlTwice(1, k, prefix);
    ShlTwice(1, prefix, k);
    ShlSum(lost, 1, prefix);
    ShlSum(ones, 1, k);
    PowPositive(k);
    ShlTwice(lost, prefix, k);
    ShlSum(Shl(lost, prefix), ones, k);
  }

  /** The mask is `prefix` ones in front of `32 - prefix` zeros. */
  lemma MaskShape(prefix: byte)
    requires prefix <= 32
    ensures Pow2(prefix) > 0 && Mask(prefix) == Shl(Pow2(prefix) - 1, 32 - prefix)
  {
    var k := 32 - prefix;
    PowPositive(prefix);
    PowPositive(k);
    ShlZero(k);
    var ones, lost := Pow2(prefix) - 1, Pow2(k) - 1;
    ShiftedOnes(ones, lost, k);
    ModOf(Shl(0xFFFF_FFFF, k), lost, Shl(ones, k));
    hide Shl;
    assert prefix == 0 ==> ones == 0 by {
      PowZero();
    }
  }

  lemma PowZero()
    ensures Pow2(0) == 1
  {
  }

  lemma {:induction false} ShlZero(k: nat)
    ensures Shl(0, k) == 0
  {
    if k > 0 {
      ShlZero(k - 1);
    }
  }

  /** Masking clears the last `32 - prefix` bits. */
  lemma Masked(ip: u32, prefix: byte)
    requires prefix <= 32
    ensures And(ip, Mask(prefix)) == Shl(Shr(ip, 32 - prefix), 32 - prefix)
  {
    hide *;
    MaskShape(prefix);
    AndShifted(ip, Pow2(prefix) - 1, 32 - prefix);
    InWord(ip);
    ShrSmall(ip, prefix, 32 - prefix);
    AndOnes(Shr(ip, 32 - prefix), prefix);
  }

  lemma InWord(ip: u32)
    ensures ip < Pow2(32)
  {
    Shl32(1);
  }

  /**
   The masked comparison is membership in the block of 2^(32 - prefix)
   addresses that starts at the network's masked address, for every prefix
   from 0 to 32, and that block contains the network.
   */
  lemma CidrIsInterval(ip: u32, network: u32, prefix: byte)
    requires prefix <= 32
    ensures IsIpv4InCidr(ip, network, prefix) <==> InBlock(ip, network, prefix)
    ensures InBlock(network, network, prefix)
  {
    hide And, Mask, Shl, Shr, Pow2;
    Masked(ip, prefix);
    Masked(network, prefix);
    BlockOf(ip, network, 32 - prefix);
    BlockOf(network, network, 32 - prefix);
  }

  ghost predicate InRange(ip: u32, range: Range) {
    range.Cidr? && range.prefix <= 32 && InBlock(ip, range.network, range.prefix)
  }

  lemma MatchesInterval(range: Range, ip: u32)
    ensures Matches(range, ip) <==> InRange(ip, range)
  {
    hide InBlock, IsIpv4InCidr;
    if range.Cidr? && range.prefix <= 32 {
      CidrIsInterval(ip, range.network, range.prefix);
    }
  }

  /** An address is blocked exactly when it lies in some configured block. */
  lemma BlockedExactly(ip: u32, ranges: seq<Range>)
    ensures Ipv4IsBlocked(ip, ranges) <==> exists i :: 0 <= i < |ranges| && InRange(ip, ranges[i])
  {
    hide Matches, InRange;
    forall i | 0 <= i < |ranges|
      ensures Matches(ranges[i], ip) <==> InRange(ip, ranges[i])
    {
      MatchesInterval(ranges[i], ip);
    }
  }

  // ----- Embedded addresses -----

  lemma OctetsRoundTrip(ip: u32)
    ensures var o := OctetsOf(ip); FromOctets(o[0], o[1], o[2], o[3]) == ip
  {
    assert ip == ip / 0x100 * 0x100 + ip % 0x100;
    assert ip / 0x100 == ip / 0x1_0000 * 0x100 + ip / 0x100 % 0x100;
    assert ip / 0x1_0000 == ip / 0x100_0000 * 0x100 + ip / 0x1_0000 % 0x100;
  }

  /** IPv4-mapped addresses and all 6to4 addresses are blocked exactly when their embedded IPv4 address is. */
  lemma EmbeddedExactly(ip: u32, rest: seq<byte>, ranges: seq<Range>)
    requires |rest| == 10
    ensures Ipv6IsBlocked(Mapped(ip), ranges) <==> Ipv4IsBlocked(ip, ranges)
    ensures Ipv6IsBlocked(SixToFour(ip, rest), ranges) <==> Ipv4IsBlocked(ip, ranges)
  {
    OctetsRoundTrip(ip);
    MappedParts(ip);
    SixToFourParts(ip, rest);
    hide Ipv4IsBlocked, OctetsOf, FromOctets, IsReserved, ToIpv4Mapped, From6to4, Mapped, SixToFour;
  }

  lemma MappedParts(ip: u32)
    ensures !IsReserved(Mapped(ip)) && ToIpv4Mapped(Mapped(ip)) == Some(ip)
  {
    OctetsRoundTrip(ip);
    hide OctetsOf, FromOctets;
    var o := Mapped(ip);
    assert o[..15][10] == 0xFF;
    assert And(o[0], 0xFE) == 0;
    assert AllZero(o[..10]);
  }

  lemma SixToFourParts(ip: u32, rest: seq<byte>)
    requires |rest| == 10
    ensures var o := SixToFour(ip, rest); !IsReserved(o) && ToIpv4Mapped(o).None? && From6to4(o) == Some(ip)
  {
    OctetsRoundTrip(ip);
    UniqueLocal(0x20);
    hide OctetsOf, FromOctets, And;
    var o := SixToFour(ip, rest);
    assert o[..15][0] == 0x20 && o[..10][0] == 0x20;
  }

  /** The masked test for fc00::/7 is the interval FC to FD of first octets. */
  lemma UniqueLocal(octet: byte)
    ensures And(octet, 0xFE) == 0xFC <==> 0xFC <= octet <= 0xFD
  {
    AndShifted(octet, 0x7F, 1);
    assert Shr(octet, 1) == octet / 2 && Shl(0x7F, 1) == 0xFE;
    AndOnes7(octet / 2);
  }

  lemma AndOnes7(x: nat)
    requires x < 128
    ensures And(x, 0x7F) == x
  {
    assert Pow2(7) == 128 by {
      Shl8(1);
    }
    AndOnes(x, 7);
  }

  // ----- Which IPv6 addresses are blocked -----

  /** :: and ::1, ff00::/8, fc00::/7, fe80::/10 and 100::/64 (RFC 4291, sections 2.5 to 2.7; RFC 4193; RFC 6666). */
  ghost predicate Special(o: Octets) {
    || (o[..15] == [0, 0, 0, 0, 0, 0, 0, 0, 0, 0, 0, 0, 0, 0, 0] && o[15] <= 1)
    || o[0] == 255
    || 252 <= o[0] <= 253
    || (o[0] == 254 && 128 <= o[1] <= 191)
    || o[..8] == [1, 0, 0, 0, 0, 0, 0, 0]
  }

  /** The masked test for fe80::/10 is an interval of second octets. */
  lemma LinkLocal(octet: byte)
    ensures And(octet, 0xC0) == 0x80 <==> 128 <= octet <= 191
  {
    AndShifted(octet, 3, 6);
    SixBits(octet);
  }

  lemma ShrByFour(x: nat, k: nat)
    ensures Shr(x, k + 2) == Shr(x / 4, k)
  {
    assert Shr(x, k + 2) == Shr(x / 2, k + 1);
  }

  lemma SixBits(octet: byte)
    ensures Shr(octet, 6) == octet / 64 && Shl(3, 6) == 0xC0
    ensures Shl(And(octet / 64, 3), 6) == 64 * (octet / 64)
  {
    ShrByFour(octet, 4);
    ShrByFour(octet / 4, 2);
    ShrByFour(octet / 16, 0);
    assert Pow2(2) == 4;
    AndOnes(octet / 64, 2);
    var x := octet / 64;
    assert Shl(x, 2) == 4 * x && Shl(x, 4) == 4 * Shl(x, 2) && Shl(x, 6) == 4 * Shl(x, 4);
  }

  lemma ReservedExactly(o: Octets)
    ensures IsReserved(o) <==> Special(o)
  {
    UniqueLocal(o[0]);
    LinkLocal(o[1]);
    hide And;
    assert AllZero(o[..15]) <==> o[..15] == [0, 0, 0, 0, 0, 0, 0, 0, 0, 0, 0, 0, 0, 0, 0];
    assert o[..8] == [o[0]] + o[1..8];
    assert AllZero(o[1..8]) <==> o[1..8] == [0, 0, 0, 0, 0, 0, 0];
  }

  ghost predicate InSomeRange(ip: u32, ranges: seq<Range>) {
    exists i :: 0 <= i < |ranges| && InRange(ip, ranges[i])
  }

  /**
   An IPv6 address is blocked exactly if it is one of the special ones, or the
   IPv4 address in its last four octets (::ffff:0:0/96) or behind its first two
   (2002::/16) lies in a configured block.
   */
  lemma Ipv6Exactly(o: Octets, ranges: seq<Range>)
    ensures Ipv6IsBlocked(o, ranges) <==>
              || Special(o)
              || (o[..12] == [0, 0, 0, 0, 0, 0, 0, 0, 0, 0, 255, 255]
                  && InSomeRange(0x100_0000 * o[12] as int + 0x1_0000 * o[13] as int + 0x100 * o[14] as int + o[15],
                                 ranges))
              || (o[..2] == [32, 2]
                  && InSomeRange(0x100_0000 * o[2] as int + 0x1_0000 * o[3] as int + 0x100 * o[4] as int + o[5],
                                 ranges))
  {
    ReservedExactly(o);
    forall ip: u32
      ensures Ipv4IsBlocked(ip, ranges) <==> InSomeRange(ip, ranges)
    {
      BlockedExactly(ip, ranges);
    }
    hide IsReserved, Special, Ipv4IsBlocked, InSomeRange;
    assert o[..12] == o[..10] + [o[10], o[11]];
    assert AllZero(o[..10]) <==> o[..10] == [0, 0, 0, 0, 0, 0, 0, 0, 0, 0];
    assert o[..2] == [o[0], o[1]];
  }

  // ----- More ranges, fewer addresses -----

  lemma RangesOnlyAdd(ip: Ip, ranges: seq<Range>, more: seq<Range>)
    requires forall r :: r in ranges ==> r in more
    requires IpIsBlocked(ip, ranges)
    ensures IpIsBlocked(ip, more)
  {
    hide Matches, IsReserved, FromOctets;
    forall v4 | Ipv4IsBlocked(v4, ranges)
      ensures Ipv4IsBlocked(v4, more)
    {
      var i :| 0 <= i < |ranges| && Matches(ranges[i], v4);
      assert ranges[i] in more;
    }
  }

  // ----- Pinning -----

  /** The pinned address is unblocked, and it is the literal's own or the resolver's first answer. */
  lemma PinnedIsAllowed(names: Names, host: HostText, answer: Answer, ranges: seq<Range>)
    requires ResolveAndPin(names, host, answer, ranges).Ok?
    ensures var ip := ResolveAndPin(names, host, answer, ranges).value;
            && !IpIsBlocked(ip, ranges) && !NameIsBlocked(names, host.lower)
            && (host.literal == Some(ip) || host.bracketed == Some(ip)
                || (answer.Some? && answer.value != [] && answer.value[0] == ip))
  {
    hide IpIsBlocked;
  }

  /** And an address is pinned exactly then: what the text itself denotes comes before the resolver's answer. */
  lemma PinnedExactly(names: Names, host: HostText, answer: Answer, ranges: seq<Range>, ip: Ip)
    ensures ResolveAndPin(names, host, answer, ranges) == Ok(ip) <==>
              && host.lower !in names.hostnames && host.lower !in names.blocklist && !IpIsBlocked(ip, ranges)
              && (|| host.literal == Some(ip)
                  || (host.literal.None? && host.bracketed == Some(ip))
                  || (&& host.literal.None? && host.bracketed.None?
                      && answer.Some? && answer.value != [] && answer.value[0] == ip))
  {
    hide IpIsBlocked;
  }

  /**
   A URL passes exactly if it is a web URL for an unblocked literal, or for an
   unlisted name all of whose addresses are unblocked.
   */
  lemma ValidatedExactly(names: Names, url: Url, answer: Answer, ranges: seq<Range>)
    ensures ValidateUrl(names, url, answer, ranges).Ok? <==>
              && url.Url? && url.web && url.host.Some?
              && match url.host.value
                 case Literal(ip) => !IpIsBlocked(ip, ranges)
                 case Domain(lower) =>
                   && lower !in names.hostnames && lower !in names.blocklist && answer.Some?
                   && forall ip :: ip in answer.value ==> !IpIsBlocked(ip, ranges)
  {
    hide IpIsBlocked;
  }

  /**
   A validated URL's host can be pinned from the same resolver answer exactly
   when, for a domain, that answer is not empty and, for an address literal,
   its text is not on the name lists, which URL validation does not consult
   for literals.
   */
  lemma ValidatedCanBePinned(names: Names, url: Url, text: HostText, answer: Answer, ranges: seq<Range>)
    requires ValidateUrl(names, url, answer, ranges).Ok? && SameHost(url.host.value, text)
    ensures ResolveAndPin(names, text, answer, ranges).Ok? <==>
            if url.host.value.Domain? then answer.value != [] else !NameIsBlocked(names, text.lower)
  {
    hide IpIsBlocked;
  }

  /** Every address that validation let through is unblocked, not only the first. */
  lemma ValidatedAnswerAllowed(names: Names, url: Url, answer: Answer, ranges: seq<Range>, i: nat)
    requires ValidateUrl(names, url, answer, ranges).Ok?
    requires url.host.value.Domain? && answer.Some? && i < |answer.value|
    ensures !IpIsBlocked(answer.value[i], ranges)
  {
    hide IpIsBlocked;
  }
}
