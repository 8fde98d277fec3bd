/** Byte strings: words in little-endian order, and copies into buffers. */
module Bytes {
  type Octets = seq<bv8>

  function LeBytes(v: bv32): (d: Octets)
    ensures |d| == 4
  {
    [(v & 0xff) as bv8, ((v >> 8) & 0xff) as bv8, ((v >> 16) & 0xff) as bv8, (v >> 24) as bv8]
  }

  function ReadLe(d: Octets, at: nat): bv32
    requires at + 4 <= |d|
  {
    (d[at] as bv32) | ((d[at + 1] as bv32) << 8) | ((d[at + 2] as bv32) << 16) | ((d[at + 3] as bv32) << 24)
  }

  lemma LeRoundTrip(v: bv32)
    ensures ReadLe(LeBytes(v), 0) == v
  {
  }

  method Memcpy<T>(dst: array<T>, at: nat, src: seq<T>)
    requires at + |src| <= dst.Length
    modifies dst
    ensures dst[..] == old(dst[..at]) + src + old(dst[at + |src|..])
  {
    forall k | 0 <= k < |src| {
      dst[at + k] := src[k];
    }
  }
}
