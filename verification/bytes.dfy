/** Fixed-width integers as bytes: the little-endian image that `appendToBuffer`
    copies out of a value with `reinterpret_cast`, and the reads that take it back. */
module Bytes {

  type byte = x: int | 0 <= x < 256

  const TWO_31: nat := 0x8000_0000
  const TWO_32: nat := 0x1_0000_0000

  function Pow2(n: nat): (r: nat)
    ensures r >= 1
  {
    if n == 0 then 1 else 2 * Pow2(n - 1)
  }

  function Pow256(n: nat): (r: nat)
    ensures r >= 1
  {
    if n == 0 then 1 else 256 * Pow256(n - 1)
  }

  /** The value a little-endian byte string denotes. */
  function DecodeLE(s: seq<byte>): (v: nat)
    ensures v < Pow256(|s|)
  {
    if |s| == 0 then 0 else s[0] + 256 * DecodeLE(s[1..])
  }

  /** The `width` bytes of `v`, least significant first. */
  function EncodeLE(v: nat, width: nat): (r: seq<byte>)
    requires v < Pow256(width)
    ensures |r| == width
    ensures DecodeLE(r) == v
  {
    if width == 0 then []
    else
      assert v / 256 < Pow256(width - 1);
      [v % 256] + EncodeLE(v / 256, width - 1)
  }

  /** `appendToBuffer<T>`: the buffer grows by exactly sizeof(T) = `width` bytes,
      its old contents stay in front, and the new bytes read back as the value. */
  function AppendToBuffer(buf: seq<byte>, value: nat, width: nat): (r: seq<byte>)
    requires value < Pow256(width)
    ensures |r| == |buf| + width
    ensures r[..|buf|] == buf
    ensures DecodeLE(r[|buf|..]) == value
    ensures width == 1 ==> r == buf + [value]
  {
    var tail := EncodeLE(value, width);
    assert (buf + tail)[|buf|..] == tail;
    buf + tail
  }

  /** `static_cast<uint32_t>` of a non-negative count: reduction modulo 2^32. */
  function Truncate32(n: nat): (r: nat)
    ensures r < TWO_32
    ensures n < TWO_32 ==> r == n
  {
    n % TWO_32
  }

  predicate IsInt32(v: int) {
    -(TWO_31 as int) <= v < TWO_31
  }

  /** The bit pattern of an `int` as two's complement in 32 bits. */
  function Int32Bits(v: int): (u: nat)
    requires IsInt32(v)
    ensures u < TWO_32
    ensures v >= 0 <==> u < TWO_31
  {
    if v >= 0 then v else v + TWO_32
  }

  /** The `int` a 32-bit pattern stands for. */
  function Int32Value(u: nat): (v: int)
    requires u < TWO_32
    ensures IsInt32(v)
    ensures Int32Bits(v) == u
  {
    if u < TWO_31 then u else u - TWO_32
  }

  /** Appending an `int32` field: four bytes of its two's complement image. */
  function AppendInt32(buf: seq<byte>, v: int): (r: seq<byte>)
    requires IsInt32(v)
    ensures |r| == |buf| + 4
    ensures r[..|buf|] == buf
    ensures ReadInt32(r[|buf|..]) == v
  {
    assert Pow256(4) == TWO_32;
    AppendToBuffer(buf, Int32Bits(v), 4)
  }

  /** Reading a `uint32` field back (the `inputFile.read` into a `uint32_t`). */
  function ReadUint32(s: seq<byte>): (v: nat)
    requires |s| == 4
    ensures v < TWO_32
  {
    assert Pow256(4) == TWO_32;
    DecodeLE(s)
  }

  /** Reading an `int32` field back (the `inputFile.read` into an `int`). */
  function ReadInt32(s: seq<byte>): (v: int)
    requires |s| == 4
    ensures IsInt32(v)
  {
    Int32Value(ReadUint32(s))
  }
}
