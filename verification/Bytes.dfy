/**
 Byte strings and the searches the protocol code runs over them: first
 occurrence of a slice, splitting at a separator, cutting and gluing.
 A Rust `String` is a byte string that satisfies `Utf8.Valid`.
 */
module Bytes {
  import opened Wrappers

  type byte = b: int | 0 <= b < 256

  const NUL: byte := 0
  const LF: byte := 10
  const CR: byte := 13
  const SPACE: byte := 32

  /** The bytes of an ASCII text. */
  function Text(s: string): (b: seq<byte>)
    ensures |b| == |s|
  {
    seq(|s|, i requires 0 <= i < |s| => s[i] as int % 256)
  }

  predicate IsEol(b: byte) {
    b == LF || b == CR
  }

  /** `needle` occurs in `hay` at position `p`. */
  predicate At(hay: seq<byte>, needle: seq<byte>, p: nat) {
    p + |needle| <= |hay| && hay[p..p + |needle|] == needle
  }

  ghost predicate Contains(hay: seq<byte>, needle: seq<byte>) {
    exists p: nat :: At(hay, needle, p)
  }

  predicate StartsWith(s: seq<byte>, prefix: seq<byte>) {
    prefix <= s
  }

  predicate EndsWith(s: seq<byte>, suffix: seq<byte>) {
    |suffix| <= |s| && s[|s| - |suffix|..] == suffix
  }

  /** The first occurrence of `needle` at or after `from`. */
  function FindFrom(hay: seq<byte>, needle: seq<byte>, from: nat): (r: Option<nat>)
    ensures r.Some? ==> from <= r.value && At(hay, needle, r.value)
    ensures forall q: nat :: from <= q && (r.None? || q < r.value) ==> !At(hay, needle, q)
    decreases |hay| - from
  {
    if from + |needle| > |hay| then None
    else if hay[from..from + |needle|] == needle then Some(from)
    else FindFrom(hay, needle, from + 1)
  }

  function Find(hay: seq<byte>, needle: seq<byte>): (r: Option<nat>)
    ensures r.Some? ==> At(hay, needle, r.value)
    ensures forall q: nat :: (r.None? || q < r.value) ==> !At(hay, needle, q)
  {
    FindFrom(hay, needle, 0)
  }

  /** The first position holding `b`, or `|s|` when there is none. */
  function IndexOf(s: seq<byte>, b: byte): (r: nat)
    ensures r <= |s|
    ensures r < |s| ==> s[r] == b
    ensures forall k :: 0 <= k < r ==> s[k] != b
  {
    if s == [] || s[0] == b then 0 else 1 + IndexOf(s[1..], b)
  }

  /** The first position holding LF or CR, or `|s|` when there is none. */
  function IndexOfEol(s: seq<byte>): (r: nat)
    ensures r <= |s|
    ensures r < |s| ==> IsEol(s[r])
    ensures forall k :: 0 <= k < r ==> !IsEol(s[k])
  {
    if s == [] || IsEol(s[0]) then 0 else 1 + IndexOfEol(s[1..])
  }

  /** Rust's `split` at a one-byte separator: at least one part, possibly empty ones. */
  function Split(s: seq<byte>, sep: byte): (parts: seq<seq<byte>>)
    ensures |parts| >= 1
  {
    var i := IndexOf(s, sep);
    if i == |s| then [s] else [s[..i]] + Split(s[i + 1..], sep)
  }

  function Flatten(pieces: seq<seq<byte>>): seq<byte> {
    if pieces == [] then [] else pieces[0] + Flatten(pieces[1..])
  }

  lemma IndexOfIs(s: seq<byte>, b: byte, i: nat)
    requires i <= |s| && b !in s[..i] && (i < |s| ==> s[i] == b)
    ensures IndexOf(s, b) == i
  {
    assert forall k :: 0 <= k < i ==> s[..i][k] == s[k];
  }

  lemma SplitOff(a: seq<byte>, rest: seq<byte>, sep: byte)
    requires sep !in a
    ensures Split(a + [sep] + rest, sep) == [a] + Split(rest, sep)
  {
    var s := a + [sep] + rest;
    assert s[..|a|] == a && s[|a| + 1..] == rest;
    IndexOfIs(s, sep, |a|);
  }

  lemma SplitLast(a: seq<byte>, sep: byte)
    requires sep !in a
    ensures Split(a, sep) == [a]
  {
    assert a[..|a|] == a;
    IndexOfIs(a, sep, |a|);
  }

  lemma SplitThree(a: seq<byte>, b: seq<byte>, c: seq<byte>, sep: byte)
    requires sep !in a && sep !in b && sep !in c
    ensures Split(a + [sep] + (b + [sep] + c), sep) == [a, b, c]
  {
    SplitOff(a, b + [sep] + c, sep);
    SplitOff(b, c, sep);
    SplitLast(c, sep);
  }

  lemma {:induction false} FlattenConcat(a: seq<seq<byte>>, b: seq<seq<byte>>)
    ensures Flatten(a + b) == Flatten(a) + Flatten(b)
  {
    if a == [] {
      assert a + b == b;
    } else {
      assert (a + b)[1..] == a[1..] + b;
      FlattenConcat(a[1..], b);
    }
  }

  lemma FlattenSnoc(a: seq<seq<byte>>, p: seq<byte>)
    ensures Flatten(a + [p]) == Flatten(a) + p
  {
    FlattenConcat(a, [p]);
  }

  lemma PrefixOfConcat(a: seq<byte>, b: seq<byte>, cut: nat)
    requires |a| <= cut <= |a| + |b|
    ensures (a + b)[..cut] == a + b[..cut - |a|]
  {
  }

  lemma SliceOfPrefix(s: seq<byte>, cut: nat, lo: nat, hi: nat)
    requires lo <= hi <= cut <= |s|
    ensures s[..cut][lo..hi] == s[lo..hi]
  {
    var a, b := s[..cut][lo..hi], s[lo..hi];
    assert |a| == |b| && forall i :: 0 <= i < |a| ==> a[i] == b[i];
  }

  lemma MiddleOf(a: seq<byte>, b: seq<byte>, c: seq<byte>)
    ensures (a + b + c)[|a|..|a| + |b|] == b
  {
  }

  /** Occurrences in a string survive, and are not invented by, appending bytes after them. */
  lemma AtExtend(hay: seq<byte>, more: seq<byte>, needle: seq<byte>, p: nat)
    requires p + |needle| <= |hay|
    ensures At(hay, needle, p) <==> At(hay + more, needle, p)
  {
    assert (hay + more)[p..p + |needle|] == hay[p..p + |needle|];
  }

  lemma FindExtend(hay: seq<byte>, more: seq<byte>, needle: seq<byte>)
    requires Find(hay, needle).Some?
    ensures Find(hay + more, needle) == Find(hay, needle)
  {
    var p := Find(hay, needle).value;
    AtExtend(hay, more, needle, p);
    forall q: nat | q < p
      ensures !At(hay + more, needle, q)
    {
      AtExtend(hay, more, needle, q);
    }
  }

  lemma FindIs(hay: seq<byte>, needle: seq<byte>, p: nat)
    requires At(hay, needle, p) && forall q: nat :: q < p ==> !At(hay, needle, q)
    ensures Find(hay, needle) == Some(p)
  {
  }

  lemma IndexOfEolIs(s: seq<byte>, i: nat)
    requires i < |s| && IsEol(s[i]) && forall k :: 0 <= k < i ==> !IsEol(s[k])
    ensures IndexOfEol(s) == i
  {
  }
}
