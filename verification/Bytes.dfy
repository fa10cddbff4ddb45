// Bytes, and sequences of them read and written in part.
module Bytes {
  newtype byte = x: int | 0 <= x < 256

  // The bytes of a 64-bit word
  const WORD_SIZE := 8

  // The words at these addresses have no byte in common.
  predicate WordsApart(a: int, b: int) {
    a + WORD_SIZE <= b || b + WORD_SIZE <= a
  }

  // A write of no bytes changes nothing, wherever it is aimed.
  predicate Fit(loc: nat, count: nat, size: nat) {
    count == 0 || loc + count <= size
  }

  function Splice(d: seq<byte>, loc: nat, data: seq<byte>): (r: seq<byte>)
    requires Fit(loc, |data|, |d|)
    ensures |r| == |d|
  {
    if data == [] then d else d[..loc] + data + d[loc + |data|..]
  }

  // n bytes of v from loc on; loc may lie outside when there is nothing to take.
  function Slice(v: seq<byte>, loc: nat, n: nat): (r: seq<byte>)
    requires Fit(loc, n, |v|)
    ensures |r| == n
  {
    if n == 0 then [] else v[loc..loc + n]
  }

  function Repeat<T>(x: T, n: nat): (s: seq<T>)
    ensures |s| == n && forall i :: 0 <= i < n ==> s[i] == x
  {
    seq(n, _ => x)
  }
}
