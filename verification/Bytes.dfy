/** Bytes, little-endian words and small sequence facts shared by the other modules. */
module Bytes {

  type byte = b: int | 0 <= b < 256

  const TWO16 := 0x1_0000
  const TWO32 := 0x1_0000_0000

  /** The value a 32-bit unsigned register holds after computing `x`. */
  function U32(x: int): (r: int)
    ensures 0 <= r < TWO32
  {
    x % 0x1_0000_0000
  }

  /** A run of `n` copies of `b`. */
  function Fill(n: nat, b: byte): (r: seq<byte>)
    ensures |r| == n && forall i :: 0 <= i < n ==> r[i] == b
  {
    seq(n, i => b)
  }

  /** `s` with `w` written over it at offset `o` (memcpy into a buffer). */
  function Splice(s: seq<byte>, o: nat, w: seq<byte>): (r: seq<byte>)
    requires o + |w| <= |s|
    ensures |r| == |s|
    ensures forall i :: 0 <= i < |s| ==> r[i] == if o <= i < o + |w| then w[i - o] else s[i]
  {
    s[..o] + w + s[o + |w|..]
  }

  function Le16(s: seq<byte>, o: nat): (v: nat)
    requires o + 2 <= |s|
    ensures v < TWO16
  {
    s[o] as int + 256 * s[o + 1] as int
  }

  function Enc16(v: nat): (r: seq<byte>)
    requires v < TWO16
    ensures |r| == 2 && Le16(r, 0) == v
  {
    [v % 256, v / 256]
  }

  function Le32(s: seq<byte>, o: nat): (v: nat)
    requires o + 4 <= |s|
    ensures v < TWO32
  {
    Le16(s, o) + 0x1_0000 * Le16(s, o + 2)
  }

  function Enc32(v: nat): (r: seq<byte>)
    requires v < TWO32
    ensures |r| == 4 && Le32(r, 0) == v
  {
    var r := Enc16(v % 0x1_0000) + Enc16(v / 0x1_0000);
    assert Le16(r, 0) == v % 0x1_0000 && Le16(r, 2) == v / 0x1_0000;
    r
  }
}
