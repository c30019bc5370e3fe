/**
 Decimal printing (`to_string`) and Rust's integer `parse`, for the u32 and
 i32 fields of the response header.
 */
module Decimal {
  import opened Bytes
  import opened Wrappers

  const PLUS: byte := 43
  const MINUS: byte := 45
  const ZERO: byte := 48
  const U32_LIMIT: nat := 0x1_0000_0000
  const I32_MIN: int := -0x8000_0000
  const I32_MAX: int := 0x7FFF_FFFF

  predicate IsDigit(b: byte) {
    48 <= b <= 57
  }

  predicate AllDigits(s: seq<byte>) {
    forall i :: 0 <= i < |s| ==> IsDigit(s[i])
  }

  function Digits(n: nat): (s: seq<byte>)
    ensures s != [] && AllDigits(s)
  {
    if n < 10 then [ZERO + n] else Digits(n / 10) + [ZERO + n % 10]
  }

  function Print(n: int): seq<byte> {
    if n < 0 then [MINUS] + Digits(-n) else Digits(n)
  }

  function Value(s: seq<byte>): nat
    requires AllDigits(s)
  {
    if s == [] then 0 else 10 * Value(s[..|s| - 1]) + (s[|s| - 1] - ZERO)
  }

  /** A non-empty run of digits no larger than `limit`. */
  function ParseDigits(s: seq<byte>, limit: nat): Option<nat> {
    if s != [] && AllDigits(s) && Value(s) <= limit then Some(Value(s)) else None
  }

  function DropPlus(s: seq<byte>): seq<byte> {
    if s != [] && s[0] == PLUS then s[1..] else s
  }

  /** `str::parse::<u32>`: a leading `+` is accepted, a `-` is not. */
  function ParseU32(s: seq<byte>): Option<nat> {
    ParseDigits(DropPlus(s), U32_LIMIT - 1)
  }

  /** `str::parse::<i32>`: one sign is accepted; the minimum has no positive twin. */
  function ParseI32(s: seq<byte>): Option<int> {
    if s != [] && s[0] == MINUS then
      var magnitude := ParseDigits(s[1..], -I32_MIN);
      if magnitude.Some? then Some(-(magnitude.value as int)) else None
    else
      ParseDigits(DropPlus(s), I32_MAX)
  }

  lemma {:induction false} ValueOfDigits(n: nat)
    ensures Value(Digits(n)) == n
  {
    if n < 10 {
      assert Digits(n)[..0] == [];
    } else {
      ValueOfDigits(n / 10);
      var s := Digits(n);
      assert s[..|s| - 1] == Digits(n / 10);
    }
  }

  lemma U32RoundTrip(n: nat)
    requires n < U32_LIMIT
    ensures ParseU32(Print(n)) == Some(n)
  {
    ValueOfDigits(n);
    assert IsDigit(Digits(n)[0]);
  }

  lemma I32RoundTrip(n: int)
    requires I32_MIN <= n <= I32_MAX
    ensures ParseI32(Print(n)) == Some(n)
  {
    if n < 0 {
      ValueOfDigits(-n);
      assert Print(n)[1..] == Digits(-n);
    } else {
      ValueOfDigits(n);
      assert IsDigit(Digits(n)[0]);
    }
  }

  /** Printed numbers hold digits and at most a leading minus sign. */
  lemma PrintAlphabet(n: int, b: byte)
    requires b in Print(n)
    ensures b == MINUS || IsDigit(b)
  {
  }
}
