/** `encodeData`: replace every input byte by its code, then pack the resulting bit
    string into bytes, returning the bytes and the exact number of bits. */
module Encoder {
  import opened Bytes
  import opened BitPacking
  import opened CodeGenerator

  /** The code `huffmanCodes[byte]` yields: a byte without an entry reads as the empty
      string that `operator[]` default-constructs. */
  function CodeOf(codes: Codes, b: byte): seq<bool> {
    if b in codes then codes[b] else []
  }

  /** The bit string of the whole input: its bytes' codes in input order. */
  function EncodeBits(codes: Codes, data: seq<byte>): seq<bool>
  {
    if |data| == 0 then [] else CodeOf(codes, data[0]) + EncodeBits(codes, data[1..])
  }

  lemma {:induction false} EncodeBitsSnoc(codes: Codes, data: seq<byte>, b: byte)
    ensures EncodeBits(codes, data + [b]) == EncodeBits(codes, data) + CodeOf(codes, b)
    decreases |data|
  {
    if |data| == 0 {
      assert EncodeBits(codes, [b]) == CodeOf(codes, b) + EncodeBits(codes, []);
    } else {
      assert (data + [b])[1..] == data[1..] + [b];
      EncodeBitsSnoc(codes, data[1..], b);
    }
  }

  /** Encoding a concatenation encodes each part in turn. */
  lemma {:induction false} EncodeBitsConcat(codes: Codes, a: seq<byte>, c: seq<byte>)
    ensures EncodeBits(codes, a + c) == EncodeBits(codes, a) + EncodeBits(codes, c)
    decreases |a|
  {
    if |a| == 0 {
      assert a + c == c;
    } else {
      assert (a + c)[1..] == a[1..] + c;
      EncodeBitsConcat(codes, a[1..], c);
    }
  }

  /** With every code at most `m` bits long, the encoding is at most `m` bits per
      input byte. */
  lemma {:induction false} EncodeBitsLength(codes: Codes, data: seq<byte>, m: nat)
    requires forall b :: b in codes ==> |codes[b]| <= m
    ensures |EncodeBits(codes, data)| <= m * |data|
    decreases |data|
  {
    if |data| > 0 {
      EncodeBitsLength(codes, data[1..], m);
      assert m * |data| == m + m * |data[1..]|;
    }
  }

  /** The packing loop's step when a byte fills: the bits so far are whole bytes plus
      the eight just collected. */
  lemma PackFullByte(bits: seq<bool>, start: nat, i: nat)
    requires start % 8 == 0 && start + 8 == i <= |bits|
    ensures Pack(bits[..i]) == Pack(bits[..start]) + [BitsValue(bits[start..i])]
  {
    assert bits[..i] == bits[..start] + bits[start..i];
    PackConcat(bits[..start], bits[start..i]);
    assert Pack(bits[start..i]) == [BitsValue(bits[start..i][..8])] + Pack(bits[start..i][8..]);
    assert bits[start..i][..8] == bits[start..i];
  }

  /** The step after the loop: fewer than eight bits remain and form one more byte,
      zero-filled at the low end. */
  lemma PackLastByte(bits: seq<bool>, start: nat)
    requires start % 8 == 0 && start < |bits| < start + 8
    ensures Pack(bits) == Pack(bits[..start]) + [BitsValue(bits[start..] + Zeros(8 - (|bits| - start)))]
  {
    var tail := bits[start..];
    assert bits == bits[..start] + tail;
    PackConcat(bits[..start], tail);
  }

  /** `currentByte <<= (8 - bitCount)` on an 8-bit variable is the same as appending
      zero bits up to a whole byte. */
  lemma ShiftUpIsPadding(t: seq<bool>, v: nat, k: nat)
    requires 0 < |t| < 8 && v == BitsValue(t) && k == 8 - |t|
    ensures (v * Pow2(k)) % 256 == BitsValue(t + Zeros(k))
  {
    var padded := t + Zeros(k);
    ValueOfPadded(t, k);
    assert Pow2(8) == 256;
    assert |padded| == 8;
    var x := v * Pow2(k);
    assert x == BitsValue(padded) < 256;
    ModSmall(x);
  }

  lemma ModSmall(x: nat)
    requires x < 256
    ensures x % 256 == x
  {
  }

  /** The first loop of `encodeData`: the codes of the input bytes, one after another. */
  method ConcatCodes(codes: Codes, data: seq<byte>) returns (bitString: seq<bool>)
    ensures bitString == EncodeBits(codes, data)
  {
    bitString := [];
    var k := 0;
    while k < |data|
      invariant 0 <= k <= |data|
      invariant bitString == EncodeBits(codes, data[..k])
    {
      EncodeBitsSnoc(codes, data[..k], data[k]);
      assert data[..k + 1] == data[..k] + [data[k]];
      bitString := bitString + CodeOf(codes, data[k]);
      k := k + 1;
    }
    assert data[..k] == data;
  }

  /** The second loop of `encodeData`: each bit is shifted into `currentByte` (an
      8-bit variable, hence the reduction modulo 256), which is pushed once eight bits
      are in. What remains is fewer than eight bits, held in `currentByte`. */
  method PackWholeBytes(bitString: seq<bool>) returns (byteArray: seq<byte>, currentByte: byte, bitCount: nat)
    ensures bitCount < 8 && |bitString| - bitCount == 8 * |byteArray|
    ensures byteArray == Pack(bitString[..|bitString| - bitCount])
    ensures currentByte == BitsValue(bitString[|bitString| - bitCount..])
  {
    byteArray := [];
    currentByte := 0;
    bitCount := 0;
    var i := 0;
    while i < |bitString|
      invariant i <= |bitString| && PackState(bitString, i, byteArray, currentByte, bitCount)
    {
      PackAdvance(bitString, i, byteArray, currentByte, bitCount);
      currentByte := (currentByte * 2 + (if bitString[i] then 1 else 0)) % 256;
      bitCount := bitCount + 1;
      if bitCount == 8 {
        byteArray := byteArray + [currentByte];
        currentByte := 0;
        bitCount := 0;
      }
      i := i + 1;
    }
    assert bitString[i - bitCount..i] == bitString[i - bitCount..];
  }

  /** What the packing loop keeps after reading `i` bits: whole bytes packed, and
      the `bitCount` bits since then held in `currentByte`. */
  predicate PackState(bits: seq<bool>, i: nat, bytes: seq<byte>, current: int, bitCount: nat)
    requires i <= |bits|
  {
    && bitCount < 8 && bitCount <= i
    && i - bitCount == 8 * |bytes|
    && bytes == Pack(bits[..i - bitCount])
    && current == BitsValue(bits[i - bitCount..i])
  }

  /** One pass of the packing loop: shift in bit `i`, and flush on the eighth. */
  lemma PackAdvance(bits: seq<bool>, i: nat, bytes: seq<byte>, current: int, bitCount: nat)
    requires i < |bits| && PackState(bits, i, bytes, current, bitCount)
    ensures var shifted := (current * 2 + (if bits[i] then 1 else 0)) % 256;
      && 0 <= shifted < 256
      && (bitCount + 1 < 8 ==> PackState(bits, i + 1, bytes, shifted, bitCount + 1))
      && (bitCount + 1 == 8 ==> PackState(bits, i + 1, bytes + [shifted], 0, 0))
  {
    var start := i - bitCount;
    var shifted := current * 2 + (if bits[i] then 1 else 0);
    ShiftStep(bits, start, i, current, shifted);
    if bitCount + 1 == 8 {
      MultipleOfEight(|bytes|);
      PackFullByte(bits, start, i + 1);
      assert bits[i + 1..i + 1] == [];
    }
  }

  method PackBits(bitString: seq<bool>) returns (packed: seq<byte>)
    ensures packed == Pack(bitString)
  {
    var byteArray, currentByte, bitCount := PackWholeBytes(bitString);
    MultipleOfEight(|byteArray|);
    FinalByte(bitString, |bitString| - bitCount, currentByte);
    if bitCount > 0 {
      currentByte := (currentByte * Pow2(8 - bitCount)) % 256;
      byteArray := byteArray + [currentByte];
    }
    packed := byteArray;
  }

  /** What is left after the loop: nothing, or fewer than eight bits, which shifted
      up to the high end of a byte are the last packed byte. */
  lemma FinalByte(bits: seq<bool>, start: nat, current: nat)
    requires start % 8 == 0 && start <= |bits| < start + 8
    requires current == BitsValue(bits[start..])
    ensures start == |bits| ==> Pack(bits) == Pack(bits[..start])
    ensures start < |bits| ==> Pack(bits) == Pack(bits[..start]) + [(current * Pow2(8 - (|bits| - start))) % 256]
  {
    if start < |bits| {
      var k := 8 - (|bits| - start);
      ShiftUpIsPadding(bits[start..], current, k);
      PackLastByte(bits, start);
    } else {
      assert bits[..start] == bits;
    }
  }

  lemma MultipleOfEight(n: nat)
    ensures (8 * n) % 8 == 0
  {
  }

  /** `(currentByte << 1) | bit` on the 8-bit `currentByte`, while fewer than eight
      bits are in. */
  lemma ShiftStep(bits: seq<bool>, start: nat, i: nat, current: nat, shifted: nat)
    requires start <= i < |bits| && i - start < 8
    requires current == BitsValue(bits[start..i])
    requires shifted == current * 2 + (if bits[i] then 1 else 0)
    ensures shifted < 256 && shifted % 256 == BitsValue(bits[start..i + 1])
  {
    ShiftInBit(bits, start, i);
    ModSmall(shifted);
  }

  /** Shifting one more bit into a partial byte of fewer than eight bits neither
      overflows eight bits nor loses one. */
  lemma ShiftInBit(bits: seq<bool>, start: nat, i: nat)
    requires start <= i < |bits| && i - start < 8
    ensures BitsValue(bits[start..i + 1]) == 2 * BitsValue(bits[start..i]) + (if bits[i] then 1 else 0)
    ensures 2 * BitsValue(bits[start..i]) + (if bits[i] then 1 else 0) < 256
  {
    assert bits[start..i + 1][..i - start] == bits[start..i];
    PowMonotone(i - start + 1, 8);
    assert Pow2(8) == 256;
  }

  /** `encodeData`: the packed code bits of the input and their exact count. The
      bytes number ceil(totalBits / 8); unpacking them gives the code bits back,
      followed only by zero padding. */
  method EncodeData(codes: Codes, data: seq<byte>) returns (packed: seq<byte>, totalBits: nat)
    ensures totalBits == |EncodeBits(codes, data)|
    ensures packed == Pack(EncodeBits(codes, data))
    ensures |packed| == (totalBits + 7) / 8
    ensures Unpack(packed)[..totalBits] == EncodeBits(codes, data)
    ensures forall i :: totalBits <= i < 8 * |packed| ==> !Unpack(packed)[i]
  {
    var bitString := ConcatCodes(codes, data);
    packed := PackBits(bitString);
    totalBits := |bitString|;
    PackLength(bitString);
    UnpackPack(bitString);
  }

  lemma {:induction false} PowMonotone(a: nat, b: nat)
    requires a <= b
    ensures Pow2(a) <= Pow2(b)
    decreases b
  {
    if a < b {
      PowMonotone(a, b - 1);
    }
  }
}
