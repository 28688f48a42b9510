/** `decodeCompressedData`: walk the tree from the root, left on 0 and right on 1;
    on reaching a leaf, output its byte and start again at the root. Only the first
    `totalBits` bits of the body are read. */
module Decoder {
  import opened Results
  import opened Bytes
  import opened HuffmanTree
  import opened CodeGenerator
  import opened BitPacking
  import opened Encoder

  /** Put `out` in front of a successful result; a failure stays as it is. */
  function Prepend(out: seq<byte>, r: Result<seq<byte>, Error>): Result<seq<byte>, Error> {
    if r.Success? then Success(out + r.value) else r
  }

  /** The decoder state machine from node `cur`, over the remaining bits. A step
      from a leaf would read a child pointer that is null (the original then
      dereferences it; here that is the NullChild error). Bits that stop partway
      down a path produce nothing. */
  function Walk(root: Tree, cur: Tree, bits: seq<bool>): (r: Result<seq<byte>, Error>)
    ensures r.Success? ==> |r.value| <= |bits|
    ensures r.Success? ==> forall i :: 0 <= i < |r.value| ==> r.value[i] in LeafSyms(root) + LeafSyms(cur)
    ensures root.Node? && cur.Node? ==> r.Success?
    ensures r.Failure? ==> r.error == NullChild
    decreases |bits|
  {
    if |bits| == 0 then Success([])
    else if cur.Leaf? then Failure(NullChild)
    else
      var next := Child(cur, bits[0]);
      if next.Leaf? then
        Prepend([next.sym], Walk(root, root, bits[1..]))
      else
        var r := Walk(root, next, bits[1..]);
        assert r.Success? ==> forall i :: 0 <= i < |r.value| ==> r.value[i] in LeafSyms(root) + LeafSyms(cur) by {
          assert LeafSyms(next) <= LeafSyms(cur);
        }
        r
  }

  function Min(a: nat, b: nat): nat {
    if a <= b then a else b
  }

  /** The bits the decoder reads: the body's bits, most significant first in each
      byte, cut at `totalBits`. */
  function ReadBits(totalBits: nat, body: seq<byte>): (bits: seq<bool>)
    ensures |bits| == Min(totalBits, 8 * |body|)
    ensures bits <= Unpack(body)
  {
    Unpack(body)[..Min(totalBits, 8 * |body|)]
  }

  /** `decodeCompressedData`: a null root is an error; otherwise the walk from the
      root over the bits read. A root with children never fails, and only leaf
      bytes come out. */
  function DecodeCompressedData(root: Option<Tree>, totalBits: nat, body: seq<byte>): (r: Result<seq<byte>, Error>)
    ensures root.None? <==> r == Failure(NullRoot)
    ensures root.Some? && root.value.Node? ==> r.Success?
    ensures root.Some? && r.Success? ==> forall i :: 0 <= i < |r.value| ==> r.value[i] in LeafSyms(root.value)
    ensures r.Success? ==> |r.value| <= totalBits
  {
    if root.None? then Failure(NullRoot)
    else
      var r := Walk(root.value, root.value, ReadBits(totalBits, body));
      assert forall b :: b in LeafSyms(root.value) + LeafSyms(root.value) ==> b in LeafSyms(root.value);
      r
  }

  /** From an inner node, a path to a leaf emits that leaf's byte and restarts the
      walk at the root on what follows. */
  lemma {:induction false} WalkAlongPath(root: Tree, cur: Tree, p: seq<bool>, rest: seq<bool>, b: byte)
    requires |p| > 0 && Reaches(cur, p, b)
    ensures Walk(root, cur, p + rest) == Prepend([b], Walk(root, root, rest))
    decreases |p|
  {
    var bits := p + rest;
    assert bits[0] == p[0];
    assert bits[1..] == p[1..] + rest;
    var next := Child(cur, p[0]);
    if |p| == 1 {
      assert p[1..] == [];
      assert Follow(next, p[1..]) == Some(next);
    } else {
      assert Follow(next, p[1..]).Some?;
      WalkAlongPath(root, next, p[1..], rest, b);
    }
  }

  lemma PrependEmpty(r: Result<seq<byte>, Error>)
    ensures Prepend([], r) == r
  {
    if r.Success? {
      assert [] + r.value == r.value;
    }
  }

  lemma PrependAssoc(a: seq<byte>, b: seq<byte>, r: Result<seq<byte>, Error>)
    ensures Prepend(a, Prepend(b, r)) == Prepend(a + b, r)
  {
    if r.Success? {
      assert a + (b + r.value) == (a + b) + r.value;
    }
  }

  /** The code of a byte on a tree with children is a nonempty path to its leaf. */
  lemma CodeReachesLeaf(root: Tree, b: byte)
    requires root.Node? && b in LeafSyms(root)
    ensures b in CodesOf(root)
    ensures |CodesOf(root)[b]| > 0 && Reaches(root, CodesOf(root)[b], b)
  {
    var codes := CodesOf(root);
    CodesArePaths(root, [], b);
    assert codes[b][0..] == codes[b];
  }

  /** Bits that stop inside a code are dropped without an error. */
  lemma {:induction false} PartialPathDropped(root: Tree, cur: Tree, p: seq<bool>)
    requires root.Node? && cur.Node?
    requires Follow(cur, p).Some? && Follow(cur, p).value.Node?
    ensures Walk(root, cur, p) == Success([])
    decreases |p|
  {
    if |p| > 0 {
      PartialPathDropped(root, Child(cur, p[0]), p[1..]);
    }
  }

  /** Decoding inverts encoding: for a tree with children and no byte on two leaves,
      walking the concatenated codes of any data over the tree's bytes yields the
      data. */
  lemma {:induction false} DecodeEncoded(root: Tree, data: seq<byte>)
    requires root.Node? && UniqueLeaves(root)
    requires forall i :: 0 <= i < |data| ==> data[i] in LeafSyms(root)
    ensures Walk(root, root, EncodeBits(CodesOf(root), data)) == Success(data)
    decreases |data|
  {
    var codes := CodesOf(root);
    if |data| > 0 {
      var b := data[0];
      var rest := EncodeBits(codes, data[1..]);
      CodeReachesLeaf(root, b);
      assert EncodeBits(codes, data) == codes[b] + rest;
      WalkAlongPath(root, root, codes[b], rest, b);
      DecodeEncoded(root, data[1..]);
      assert [b] + data[1..] == data;
    }
  }

  /** Only the first `totalBits` bits of the body are read: two bodies that both
      hold that many bits and agree on them decode alike, whatever their padding
      bits and whatever their lengths. */
  lemma PaddingIgnored(root: Option<Tree>, totalBits: nat, b1: seq<byte>, b2: seq<byte>)
    requires totalBits <= 8 * |b1| && totalBits <= 8 * |b2|
    requires Unpack(b1)[..totalBits] == Unpack(b2)[..totalBits]
    ensures DecodeCompressedData(root, totalBits, b1) == DecodeCompressedData(root, totalBits, b2)
  {
  }

  /** Any body whose first bits are the encoding of the data decodes to the data,
      whatever sits in its padding bits and whatever bytes follow. */
  lemma DecodeAnyPadding(root: Tree, data: seq<byte>, body: seq<byte>)
    requires root.Node? && UniqueLeaves(root)
    requires forall i :: 0 <= i < |data| ==> data[i] in LeafSyms(root)
    requires |EncodeBits(CodesOf(root), data)| <= 8 * |body|
    requires Unpack(body)[..|EncodeBits(CodesOf(root), data)|] == EncodeBits(CodesOf(root), data)
    ensures DecodeCompressedData(Some(root), |EncodeBits(CodesOf(root), data)|, body) == Success(data)
  {
    DecodeEncoded(root, data);
  }

  /** The decoder over the body the encoder packs: its zero padding is not read,
      and the first `totalBits` bits give the data back. */
  lemma DecodePacked(root: Tree, data: seq<byte>)
    requires root.Node? && UniqueLeaves(root)
    requires forall i :: 0 <= i < |data| ==> data[i] in LeafSyms(root)
    ensures var bits := EncodeBits(CodesOf(root), data);
      DecodeCompressedData(Some(root), |bits|, Pack(bits)) == Success(data)
  {
    var bits := EncodeBits(CodesOf(root), data);
    PackLength(bits);
    UnpackPack(bits);
    assert Unpack(Pack(bits))[..|bits|] == bits;
    DecodeAnyPadding(root, data, Pack(bits));
  }

  /** The nested loops of `decodeCompressedData`: each byte from bit 7 down to bit 0,
      stopping as soon as `totalBits` bits have been read. */
  method DecodeLoop(root: Tree, totalBits: nat, compressedData: seq<byte>) returns (r: Result<seq<byte>, Error>)
    ensures r == DecodeCompressedData(Some(root), totalBits, compressedData)
  {
    var all := ReadBits(totalBits, compressedData);
    var decodedData: seq<byte> := [];
    var currentNode := root;
    var bitCount := 0;
    var j := 0;
    assert all[0..] == all;
    PrependEmpty(Walk(root, root, all));
    while j < |compressedData|
      invariant 0 <= j <= |compressedData|
      invariant bitCount == 8 * j && bitCount <= |all|
      invariant Prepend(decodedData, Walk(root, currentNode, all[bitCount..])) == Walk(root, root, all)
    {
      var byte := compressedData[j];
      var i := 7;
      while i >= 0
        invariant -1 <= i <= 7
        invariant bitCount == 8 * j + (7 - i) && bitCount <= |all|
        invariant Prepend(decodedData, Walk(root, currentNode, all[bitCount..])) == Walk(root, root, all)
      {
        if bitCount >= totalBits {
          WalkDone(root, currentNode, decodedData, all, bitCount);
          return Success(decodedData);
        }
        ReadBitAt(compressedData, j, i, totalBits);
        var bit := (byte / Pow2(i)) % 2 == 1;
        if currentNode.Leaf? {
          return Failure(NullChild);
        }
        WalkStep(root, currentNode, decodedData, all, bitCount);
        currentNode := Child(currentNode, bit);
        if currentNode.Leaf? {
          decodedData := decodedData + [currentNode.sym];
          currentNode := root;
        }
        bitCount := bitCount + 1;
        i := i - 1;
      }
      j := j + 1;
    }
    WalkDone(root, currentNode, decodedData, all, bitCount);
    return Success(decodedData);
  }

  /** One step of the loop keeps the relation between the output so far and the
      walk over all the bits. */
  lemma WalkStep(root: Tree, cur: Tree, out: seq<byte>, all: seq<bool>, k: nat)
    requires cur.Node? && k < |all|
    ensures var next := Child(cur, all[k]);
      Prepend(out, Walk(root, cur, all[k..])) ==
        if next.Leaf? then Prepend(out + [next.sym], Walk(root, root, all[k + 1..]))
        else Prepend(out, Walk(root, next, all[k + 1..]))
  {
    assert all[k..][1..] == all[k + 1..];
    var next := Child(cur, all[k]);
    if next.Leaf? {
      PrependAssoc(out, [next.sym], Walk(root, root, all[k + 1..]));
    }
  }

  /** With every bit read, the output so far is the whole result. */
  lemma WalkDone(root: Tree, cur: Tree, out: seq<byte>, all: seq<bool>, k: nat)
    requires k == |all|
    ensures Prepend(out, Walk(root, cur, all[k..])) == Success(out)
  {
    assert all[k..] == [];
    assert out + [] == out;
  }

  /** The bit `(byte >> i) & 1` of the `j`-th body byte is bit 8j + 7 - i of the
      bits read, when that bit is within `totalBits`. */
  lemma ReadBitAt(body: seq<byte>, j: nat, i: nat, totalBits: nat)
    requires j < |body| && i < 8 && 8 * j + (7 - i) < totalBits
    ensures 8 * j + (7 - i) < |ReadBits(totalBits, body)|
    ensures ReadBits(totalBits, body)[8 * j + (7 - i)] == ((body[j] / Pow2(i)) % 2 == 1)
  {
    UnpackIndex(body, j, 7 - i);
    ShiftBit(body[j], 8, i);
  }
}
