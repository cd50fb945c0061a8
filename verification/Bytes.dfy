/** Bytes, byte strings and the sequence surgery that memcpy and memset perform. */
module Bytes {

  type Byte = b: int | 0 <= b < 0x100

  /** `s` with `piece` written over it from index `at`. */
  function Splice(s: seq<Byte>, at: nat, piece: seq<Byte>): (r: seq<Byte>)
    requires at + |piece| <= |s|
    ensures |r| == |s|
  {
    s[..at] + piece + s[at + |piece|..]
  }

  function Zeros(n: nat): (r: seq<Byte>)
    ensures |r| == n
  {
    seq(n, _ => 0)
  }

  /** memcpy(dst + at, src + from, n) between different buffers. */
  method MemCopy(dst: array<Byte>, at: nat, src: seq<Byte>, from: nat, n: nat)
    requires at + n <= dst.Length && from + n <= |src|
    modifies dst
    ensures dst[..] == Splice(old(dst[..]), at, src[from..from + n])
  {
    for i := 0 to n
      invariant forall k :: 0 <= k < dst.Length ==>
        dst[k] == if at <= k < at + i then src[from + k - at] else old(dst[k])
    {
      dst[at + i] := src[from + i];
    }
  }

  /** memset(dst + at, 0, n). */
  method MemClear(dst: array<Byte>, at: nat, n: nat)
    requires at + n <= dst.Length
    modifies dst
    ensures dst[..] == Splice(old(dst[..]), at, Zeros(n))
  {
    for i := 0 to n
      invariant forall k :: 0 <= k < dst.Length ==>
        dst[k] == if at <= k < at + i then 0 else old(dst[k])
    {
      dst[at + i] := 0;
    }
  }
}
