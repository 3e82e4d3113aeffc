/** Bytes and the three sequence shapes the stream and the file are built from. */
module Bytes {

  newtype byte = b: int | 0 <= b < 256

  function Min(a: int, b: int): int {
    if a <= b then a else b
  }

  function Max(a: int, b: int): int {
    if a >= b then a else b
  }

  /** `n` zero bytes: a freshly allocated mapping, or the padding of a zero-extension. */
  function Zeros(n: nat): (z: seq<byte>)
    ensures |z| == n
    ensures forall i :: 0 <= i < n ==> z[i] == 0
  {
    seq(n, _ => 0)
  }

  /** LINQ's `s.Skip(skip).Take(take)`: both bounds clamp to the end of `s`
      instead of failing. */
  function SkipTake(s: seq<byte>, skip: nat, take: nat): (r: seq<byte>)
    ensures |r| <= take
    ensures skip + take <= |s| ==> r == s[skip..skip + take]
    ensures skip + take > |s| ==> r == s[Min(skip, |s|)..]
  {
    var from := Min(skip, |s|);
    s[from..Min(from + take, |s|)]
  }

  /** `data` with `src` copied over it starting at index `at`. Bytes of `src`
      that would land at or beyond the end of `data` are dropped, so the
      length never changes. */
  function Overlay(data: seq<byte>, at: nat, src: seq<byte>): (r: seq<byte>)
    ensures |r| == |data|
    ensures at + |src| <= |data| ==>
      r[..at] == data[..at] && r[at..at + |src|] == src && r[at + |src|..] == data[at + |src|..]
  {
    if at >= |data| then data
    else
      var k := Min(|src|, |data| - at);
      data[..at] + src[..k] + data[at + k..]
  }
}
