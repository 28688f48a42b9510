/** Bit strings packed into bytes most-significant-bit first, with the last byte
    left-aligned and zero-filled, and the bit order the decoder reads them back in. */
module BitPacking {
  import opened Bytes

  /** The number a bit string denotes, most significant bit first: every further bit
      shifts the previous ones one place left. */
  function BitsValue(bits: seq<bool>): (v: nat)
    ensures v < Pow2(|bits|)
  {
    if |bits| == 0 then 0
    else 2 * BitsValue(bits[..|bits| - 1]) + (if bits[|bits| - 1] then 1 else 0)
  }

  /** The low `n` bits of `x`, most significant first. */
  function BitsOf(x: nat, n: nat): (r: seq<bool>)
    ensures |r| == n
  {
    if n == 0 then [] else BitsOf(x / 2, n - 1) + [x % 2 == 1]
  }

  /** Reading a value's bits back gives the bit string it was built from. */
  lemma {:induction false} BitsOfValue(bits: seq<bool>)
    ensures BitsOf(BitsValue(bits), |bits|) == bits
    decreases |bits|
  {
    if |bits| > 0 {
      var init := bits[..|bits| - 1];
      BitsOfValue(init);
      assert bits == init + [bits[|bits| - 1]];
    }
  }

  lemma MulAtLeast(d: int, k: int)
    requires d > 0
    ensures k >= 1 ==> d * k >= d
    ensures k <= -1 ==> d * k <= -d
  {
  }

  lemma DivUnique(x: int, d: int, q: int, r: int)
    requires d > 0 && 0 <= r < d && x == d * q + r
    ensures x / d == q
  {
    var q' := x / d;
    var r' := x % d;
    assert x == d * q' + r';
    assert d * (q - q') == r' - r;
    MulAtLeast(d, q - q');
  }

  lemma HalveThenDivide(x: nat, p: nat)
    requires p >= 1
    ensures (x / 2) / p == x / (2 * p)
  {
    var q := (x / 2) / p;
    var r2 := (x / 2) % p;
    assert x / 2 == p * q + r2;
    assert x == 2 * (x / 2) + x % 2;
    assert x == (2 * p) * q + (2 * r2 + x % 2);
    DivUnique(x, 2 * p, q, 2 * r2 + x % 2);
  }

  /** Bit `i` of `x`, counted from the least significant end, is `(x >> i) & 1`:
      the expression the decompressor evaluates for each position. */
  lemma {:induction false} ShiftBit(x: nat, n: nat, i: nat)
    requires i < n
    ensures BitsOf(x, n)[n - 1 - i] == ((x / Pow2(i)) % 2 == 1)
    decreases n
  {
    if i > 0 {
      ShiftBit(x / 2, n - 1, i - 1);
      HalveThenDivide(x, Pow2(i - 1));
    }
  }

  function Zeros(n: nat): (r: seq<bool>)
    ensures |r| == n
    ensures forall i :: 0 <= i < n ==> !r[i]
  {
    seq(n, _ => false)
  }

  lemma MulTwice(v: int, p: int)
    ensures v * (2 * p) == 2 * (v * p)
  {
  }

  /** Appending `k` zero bits multiplies the value by 2^k. */
  lemma {:induction false} ValueOfPadded(bits: seq<bool>, k: nat)
    ensures BitsValue(bits + Zeros(k)) == BitsValue(bits) * Pow2(k)
    decreases k
  {
    if k == 0 {
      assert bits + Zeros(k) == bits;
    } else {
      ValueOfPadded(bits, k - 1);
      var s := bits + Zeros(k);
      assert s[..|s| - 1] == bits + Zeros(k - 1);
      assert !s[|s| - 1];
      assert BitsValue(s) == 2 * BitsValue(bits + Zeros(k - 1));
      MulTwice(BitsValue(bits), Pow2(k - 1));
    }
  }

  /** The bytes `encodeData` emits for a bit string: full groups of eight first, then
      the remaining bits, if any, in the high end of one more byte. */
  function Pack(bits: seq<bool>): seq<byte>
    decreases |bits|
  {
    assert Pow2(8) == 256;
    if |bits| == 0 then []
    else if |bits| < 8 then [BitsValue(bits + Zeros(8 - |bits|))]
    else [BitsValue(bits[..8])] + Pack(bits[8..])
  }

  /** The packed length is ceil(bits / 8). */
  lemma {:induction false} PackLength(bits: seq<bool>)
    ensures |Pack(bits)| == (|bits| + 7) / 8
    decreases |bits|
  {
    if |bits| >= 8 {
      PackLength(bits[8..]);
    }
  }

  /** The bits of a byte string in the order the decompressor visits them: each byte
      from bit 7 down to bit 0. */
  function Unpack(bytes: seq<byte>): (r: seq<bool>)
    ensures |r| == 8 * |bytes|
  {
    if |bytes| == 0 then [] else BitsOf(bytes[0], 8) + Unpack(bytes[1..])
  }

  /** The number of padding bits in the last packed byte. */
  function PaddingLength(n: nat): nat {
    8 * ((n + 7) / 8) - n
  }

  /** Unpacking packed bits gives the bits back followed by zero padding, fewer than
      eight of them. */
  lemma {:induction false} UnpackPack(bits: seq<bool>)
    ensures PaddingLength(|bits|) < 8
    ensures Unpack(Pack(bits)) == bits + Zeros(PaddingLength(|bits|))
    decreases |bits|
  {
    assert Pow2(8) == 256;
    PackLength(bits);
    if |bits| == 0 {
    } else if |bits| < 8 {
      var padded := bits + Zeros(8 - |bits|);
      BitsOfValue(padded);
      assert Unpack(Pack(bits)) == BitsOf(BitsValue(padded), 8) + Unpack([]);
    } else {
      UnpackPack(bits[8..]);
      BitsOfValue(bits[..8]);
      var p := Pack(bits);
      assert p[1..] == Pack(bits[8..]);
      assert PaddingLength(|bits|) == PaddingLength(|bits| - 8);
      assert bits == bits[..8] + bits[8..];
    }
  }

  /** Packing a whole number of bytes' worth of bits, then more bits, packs each part
      on its own. */
  lemma {:induction false} PackConcat(a: seq<bool>, c: seq<bool>)
    requires |a| % 8 == 0
    ensures Pack(a + c) == Pack(a) + Pack(c)
    decreases |a|
  {
    if |a| == 0 {
      assert a + c == c;
    } else {
      var ac := a + c;
      assert ac[..8] == a[..8];
      assert ac[8..] == a[8..] + c;
      assert Pack(ac) == [BitsValue(ac[..8])] + Pack(ac[8..]);
      assert Pack(a) == [BitsValue(a[..8])] + Pack(a[8..]);
      PackConcat(a[8..], c);
    }
  }

  /** Index `8 * j + k` of the unpacked stream is bit `k` (from the top) of byte `j`. */
  lemma {:induction false} UnpackIndex(bytes: seq<byte>, j: nat, k: nat)
    requires j < |bytes| && k < 8
    ensures Unpack(bytes)[8 * j + k] == BitsOf(bytes[j], 8)[k]
    decreases j
  {
    if j > 0 {
      UnpackIndex(bytes[1..], j - 1, k);
    }
  }
}
