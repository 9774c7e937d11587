/** Fixed-width machine integers and the little-endian layout of a `u32`
    inside a raw byte block (the host byte order is fixed as little-endian). */
module Bytes {

  type uint8 = x: int | 0 <= x < 0x100
  type uint16 = x: int | 0 <= x < 0x1_0000
  type uint32 = x: int | 0 <= x < 0x1_0000_0000
  type int32 = x: int | -0x8000_0000 <= x < 0x8000_0000

  const U32_SIZE: nat := 4

  /** The four bytes of `v`, least significant first. */
  function U32ToBytes(v: uint32): (bs: seq<uint8>)
    ensures |bs| == U32_SIZE
  {
    [v % 0x100, (v / 0x100) % 0x100, (v / 0x1_0000) % 0x100, v / 0x100_0000]
  }

  /** The `u32` whose little-endian bytes are `bs`. */
  function BytesToU32(bs: seq<uint8>): (v: uint32)
    requires |bs| == U32_SIZE
    ensures v % 0x100 == bs[0] && v / 0x100_0000 == bs[3]
  {
    bs[0] as int + 0x100 * bs[1] as int + 0x1_0000 * bs[2] as int + 0x100_0000 * bs[3] as int
  }

  lemma BytesToU32Inverse(v: uint32)
    ensures BytesToU32(U32ToBytes(v)) == v
  {
    var bs := U32ToBytes(v);
    assert v == v % 0x100 + 0x100 * (v / 0x100);
    assert v / 0x100 == (v / 0x100) % 0x100 + 0x100 * (v / 0x1_0000);
    assert v / 0x1_0000 == (v / 0x1_0000) % 0x100 + 0x100 * (v / 0x100_0000);
  }

  /** Splitting off the low byte of `lo + 256 * hi`. */
  lemma LowByte(lo: int, hi: int)
    requires 0 <= lo < 0x100 && 0 <= hi
    ensures (lo + 0x100 * hi) / 0x100 == hi && (lo + 0x100 * hi) % 0x100 == lo
  {
  }

  lemma U32ToBytesInverse(bs: seq<uint8>)
    requires |bs| == U32_SIZE
    ensures U32ToBytes(BytesToU32(bs)) == bs
  {
    var b0, b1, b2, b3 := bs[0] as int, bs[1] as int, bs[2] as int, bs[3] as int;
    var v := BytesToU32(bs);
    var hi2 := b2 + 0x100 * b3;
    var hi1 := b1 + 0x100 * hi2;
    assert v == b0 + 0x100 * hi1;
    LowByte(b0, hi1);
    LowByte(b1, hi2);
    LowByte(b2, b3);
    assert v / 0x1_0000 == hi1 / 0x100;
    assert v / 0x100_0000 == hi2 / 0x100;
  }

  /** `*(uint32_t *)(b + off)`: the `u32` stored at byte offset `off`. */
  function ReadU32(b: seq<uint8>, off: nat): (v: uint32)
    requires off + U32_SIZE <= |b|
    ensures U32ToBytes(v) == b[off..off + U32_SIZE]
  {
    U32ToBytesInverse(b[off..off + U32_SIZE]);
    BytesToU32(b[off..off + U32_SIZE])
  }

  /** `*(uint32_t *)(b + off) = v`: the block after storing `v` at offset `off`. */
  function WriteU32(b: seq<uint8>, off: nat, v: uint32): (r: seq<uint8>)
    requires off + U32_SIZE <= |b|
    ensures |r| == |b|
    ensures r[..off] == b[..off] && r[off + U32_SIZE..] == b[off + U32_SIZE..]
  {
    b[..off] + U32ToBytes(v) + b[off + U32_SIZE..]
  }

  /** A store changes exactly the four bytes of its span and can be read back. */
  lemma WriteThenRead(b: seq<uint8>, off: nat, v: uint32)
    requires off + U32_SIZE <= |b|
    ensures ReadU32(WriteU32(b, off, v), off) == v
    ensures forall p :: 0 <= p < |b| && !(off <= p < off + U32_SIZE) ==> WriteU32(b, off, v)[p] == b[p]
  {
    var r := WriteU32(b, off, v);
    assert r[off..off + U32_SIZE] == U32ToBytes(v);
    BytesToU32Inverse(v);
  }

  /** Storing the value that is already there leaves the block unchanged. */
  lemma WriteOwnValue(b: seq<uint8>, off: nat)
    requires off + U32_SIZE <= |b|
    ensures WriteU32(b, off, ReadU32(b, off)) == b
  {
    U32ToBytesInverse(b[off..off + U32_SIZE]);
    assert b == b[..off] + b[off..off + U32_SIZE] + b[off + U32_SIZE..];
  }

  /** A store leaves every span it does not overlap readable as before. */
  lemma ReadAfterDisjointWrite(b: seq<uint8>, off: nat, v: uint32, other: nat)
    requires off + U32_SIZE <= |b| && other + U32_SIZE <= |b|
    requires other + U32_SIZE <= off || off + U32_SIZE <= other
    ensures ReadU32(WriteU32(b, off, v), other) == ReadU32(b, other)
  {
    WriteThenRead(b, off, v);
    assert WriteU32(b, off, v)[other..other + U32_SIZE] == b[other..other + U32_SIZE];
  }

  /** `(uint32_t)` of a C `long`: conversion to unsigned is modulo 2^32. */
  function LongToU32(v: int): (r: uint32)
    ensures (r - v) % 0x1_0000_0000 == 0
    ensures 0 <= v < 0x1_0000_0000 ==> r == v
  {
    v % 0x1_0000_0000
  }

  /** `*(int *)&u`: the two's-complement reading of a `u32`. */
  function U32ToInt32(u: uint32): (r: int32)
    ensures LongToU32(r) == u
  {
    if u < 0x8000_0000 then u else u - 0x1_0000_0000
  }

  /** A C `int` stored into a `u32` field and read back as `int` is unchanged. */
  lemma Int32RoundTrip(x: int32)
    ensures U32ToInt32(LongToU32(x)) == x
  {
  }
}
