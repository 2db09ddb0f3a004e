/** Bytes, line breaks and newline counting, shared by the stream models. */
module Bytes {

  type byte = b: int | 0 <= b < 256

  const LF: byte := 10
  const CR: byte := 13
  const CRLF: seq<byte> := [CR, LF]

  function Min(a: int, b: int): int {
    if a <= b then a else b
  }

  function Max(a: int, b: int): int {
    if a <= b then b else a
  }

  /** The number of line feeds in `s` from index `i` on. */
  function NewlinesFrom(s: seq<byte>, i: nat): nat
    decreases |s| - i
  {
    if i >= |s| then 0 else (if s[i] == LF then 1 else 0) + NewlinesFrom(s, i + 1)
  }

  /** The number of line feeds in `s`. */
  function Newlines(s: seq<byte>): nat {
    NewlinesFrom(s, 0)
  }

  lemma {:induction false} NewlinesShift(a: seq<byte>, b: seq<byte>, i: nat)
    requires i <= |b|
    ensures NewlinesFrom(a + b, |a| + i) == NewlinesFrom(b, i)
    decreases |b| - i
  {
    if i < |b| {
      NewlinesShift(a, b, i + 1);
    }
  }

  lemma {:induction false} NewlinesFromConcat(a: seq<byte>, b: seq<byte>, i: nat)
    requires i <= |a|
    ensures NewlinesFrom(a + b, i) == NewlinesFrom(a, i) + Newlines(b)
    decreases |a| - i
  {
    if i < |a| {
      NewlinesFromConcat(a, b, i + 1);
    } else {
      NewlinesShift(a, b, 0);
    }
  }

  lemma NewlinesConcat(a: seq<byte>, b: seq<byte>)
    ensures Newlines(a + b) == Newlines(a) + Newlines(b)
  {
    NewlinesFromConcat(a, b, 0);
  }

  lemma NewlinesOne(c: byte)
    ensures Newlines([c]) == if c == LF then 1 else 0
  {
    assert NewlinesFrom([c], 1) == 0;
  }

  /** The first byte counts by itself. */
  lemma NewlinesFirst(s: seq<byte>)
    requires s != []
    ensures Newlines(s) == (if s[0] == LF then 1 else 0) + Newlines(s[1..])
  {
    assert s == [s[0]] + s[1..];
    NewlinesOne(s[0]);
    NewlinesConcat([s[0]], s[1..]);
  }

  /** A suffix holds the newlines of the part before `j` plus those from `j` on. */
  lemma NewlinesSplit(s: seq<byte>, i: nat, j: nat)
    requires i <= j <= |s|
    ensures Newlines(s[i..]) == Newlines(s[i..j]) + Newlines(s[j..])
  {
    assert s[i..] == s[i..j] + s[j..];
    NewlinesConcat(s[i..j], s[j..]);
  }

  lemma {:induction false} NewlinesFromPositive(s: seq<byte>, i: nat)
    requires i <= |s|
    ensures NewlinesFrom(s, i) > 0 <==> exists k :: i <= k < |s| && s[k] == LF
    decreases |s| - i
  {
    if i < |s| {
      NewlinesFromPositive(s, i + 1);
    }
  }

  lemma NewlinesPositive(s: seq<byte>)
    ensures Newlines(s) > 0 <==> LF in s
  {
    NewlinesFromPositive(s, 0);
  }

  /** The concatenation of all parts, first part first. */
  function Flatten(parts: seq<seq<byte>>): seq<byte> {
    if parts == [] then [] else parts[0] + Flatten(parts[1..])
  }

  /** The first index of `c` in `s`, or -1. */
  function IndexByte(s: seq<byte>, c: byte): (r: int)
    ensures -1 <= r < |s|
    ensures r == -1 <==> c !in s
    ensures r >= 0 ==> s[r] == c && c !in s[..r]
  {
    if s == [] then -1
    else if s[0] == c then 0
    else
      var r := IndexByte(s[1..], c);
      assert s == [s[0]] + s[1..];
      if r == -1 then -1 else assert s[..r + 1] == [s[0]] + s[1..][..r]; r + 1
  }

  /** The last index of `c` in `s` before `n`, or -1. */
  function LastBefore(s: seq<byte>, c: byte, n: nat): (r: int)
    requires n <= |s|
    ensures -1 <= r < n && (r >= 0 ==> s[r] == c)
    ensures forall k :: r < k < n ==> s[k] != c
  {
    if n == 0 then -1 else if s[n - 1] == c then n - 1 else LastBefore(s, c, n - 1)
  }

  /** The last index of `c` in `s`, or -1. */
  function LastIndexByte(s: seq<byte>, c: byte): (r: int)
    ensures -1 <= r < |s|
    ensures r == -1 <==> c !in s
    ensures r >= 0 ==> s[r] == c && c !in s[r + 1..]
    ensures forall k :: r < k < |s| ==> s[k] != c
  {
    LastBefore(s, c, |s|)
  }
}
