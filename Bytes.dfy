/** Octets as they sit in a QByteArray, and the two QByteArray slicing
    operations the serial ADU uses. */
module Bytes {

  /** One byte of a QByteArray, read as unsigned (quint8). */
  type Byte = b: int | 0 <= b < 256

  /** QByteArray::mid(pos, len) for a non-negative `pos`: a negative or
      too large `len` means "up to the end", a `pos` past the end gives the
      empty array. */
  function Mid(s: seq<Byte>, pos: nat, len: int): seq<Byte>
  {
    if pos > |s| then []
    else if len < 0 || len > |s| - pos then s[pos..]
    else s[pos..pos + len]
  }

  /** QByteArray::left(n): the first `n` bytes, all of them when `n` is
      too large, none when `n` is negative. */
  function Left(s: seq<Byte>, n: int): seq<Byte>
  {
    if n >= |s| then s
    else if n < 0 then []
    else s[..n]
  }

  /** The byte with bit `k` (0 is the least significant) inverted. */
  function FlipBit(b: Byte, k: bv8): (r: Byte)
    requires k < 8
    ensures r != b
  {
    ((b as bv8) ^ ((1 as bv8) << k)) as int
  }

  /** A sequence with its byte at `p` replaced, written as the part before,
      the new byte and the part after. */
  lemma UpdateSplits(s: seq<Byte>, p: nat, d: Byte)
    requires p < |s|
    ensures s[p := d] == s[..p] + [d] + s[p + 1..]
    ensures s == s[..p] + [s[p]] + s[p + 1..]
  {
    assert |s[p := d]| == |s[..p] + [d] + s[p + 1..]|;
  }
}
