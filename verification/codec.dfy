/** The two entry points put together: `compress` (frequency table, tree, codes,
    packed bits, file layout) and `decompress` (parse, rebuild the tree from the
    stored table, decode, refuse an empty result). The file system is left out: the
    compressor's input is the file's bytes and its name, and its output is the
    buffer it would write; the decompressor's input is the compressed file's bytes. */
module Codec {
  import opened Results
  import opened Bytes
  import opened FrequencyTable
  import opened HuffmanTree
  import opened TreeBuilder
  import opened CodeGenerator
  import opened BitPacking
  import opened Encoder
  import opened Container
  import opened Decoder

  /** What `decompress` recovers: the stored file name and the decoded bytes. */
  datatype Restored = Restored(name: seq<byte>, data: seq<byte>)

  /** `compress(path, input)`. `order` is the iteration order of the frequency
      table's `unordered_map`, which decides the order of the table entries in the
      file and nothing else. Counting into an `int` needs fewer than 2^31 bytes.
      Only empty input fails: the tree builder refuses an empty table. */
  function Compress(name: seq<byte>, data: seq<byte>, order: seq<byte>): (r: Result<seq<byte>, Error>)
    requires |data| < TWO_31
    requires EnumeratesKeys(order, BuildFrequencyTable(data))
    ensures r.Failure? <==> |data| == 0
    ensures r.Failure? ==> r.error == EmptyTable
    ensures r.Success? ==> |r.value| >= 17 + |name|
  {
    var table := BuildFrequencyTable(data);
    CountsAreInt32(data);
    assert |data| > 0 ==> data[0] in table;
    var root :- BuildHuffmanTree(table);
    var bits := EncodeBits(CodesOf(root), data);
    Success(WriteCompressedData(name, table, order, Pack(bits), |bits|))
  }

  /** The parsed frame, or Truncated when the buffer is shorter than its fields
      announce. */
  function ReadFrame(buf: seq<byte>): (r: Result<Frame, Error>)
    ensures r.Success? <==> ParseFrame(buf).Some?
    ensures r.Success? ==> r.value == ParseFrame(buf).value
    ensures r.Failure? ==> r.error == Truncated
  {
    var f := ParseFrame(buf);
    if f.None? then Failure(Truncated) else Success(f.value)
  }

  /** `decompress`: parse the header and body, rebuild the tree from the stored
      table (an empty table makes the builder throw), decode, and treat an empty
      result as an error. On success every output byte is a key of the stored
      table and the output has at most one byte per stored bit. */
  function Decompress(buf: seq<byte>): (r: Result<Restored, Error>)
    ensures ParseFrame(buf).None? ==> r == Failure(Truncated)
    ensures ParseFrame(buf).Some? && |ParseFrame(buf).value.table| == 0 ==> r == Failure(EmptyTable)
    ensures r.Success? ==> ParseFrame(buf).Some? && r.value.name == ParseFrame(buf).value.name
    ensures r.Success? ==> 0 < |r.value.data| <= ParseFrame(buf).value.totalBits
    ensures r.Success? ==> forall i :: 0 <= i < |r.value.data| ==> r.value.data[i] in ParseFrame(buf).value.table
    ensures r.Failure? ==> r.error != NullRoot
    ensures ParseFrame(buf).Some? && ParseFrame(buf).value.totalBits >= TWO_32 - 7 ==> r.Failure?
  {
    var frame :- ReadFrame(buf);
    var root :- BuildHuffmanTree(frame.table);
    var decoded :- DecodeCompressedData(Some(root), frame.totalBits, frame.body);
    assert forall i :: 0 <= i < |decoded| ==> decoded[i] in multiset(frame.table.Keys);
    if |decoded| == 0 then Failure(EmptyOutput) else Success(Restored(frame.name, decoded))
  }

  /** A table counted from input with at least two distinct bytes has at least two
      entries. */
  lemma TwoDistinctBytes(data: seq<byte>, i: nat, j: nat)
    requires i < |data| && j < |data| && data[i] != data[j]
    ensures |BuildFrequencyTable(data)| >= 2
  {
    var table := BuildFrequencyTable(data);
    assert {data[i], data[j]} <= table.Keys;
    SubsetSize({data[i], data[j]}, table.Keys);
  }

  /** The encoding of input counted into a table is at most 255 bits per byte. */
  lemma EncodingLength(data: seq<byte>, root: Tree)
    requires BuildHuffmanTree(BuildFrequencyTable(data)) == Success(root)
    ensures |EncodeBits(CodesOf(root), data)| <= 255 * |data|
  {
    var table := BuildFrequencyTable(data);
    TableSizeBound(table);
    assert |LeafSyms(root)| == |multiset(table.Keys)| == |table|;
    forall b | b in CodesOf(root) ensures |CodesOf(root)[b]| <= 255 {
      CodeLengthBound(root, [], b);
    }
    EncodeBitsLength(CodesOf(root), data, 255);
  }

  /** The buffer `compress` produces, field by field. */
  lemma CompressWrites(name: seq<byte>, data: seq<byte>, order: seq<byte>, root: Tree)
    requires |data| < TWO_31
    requires EnumeratesKeys(order, BuildFrequencyTable(data))
    requires BuildHuffmanTree(BuildFrequencyTable(data)) == Success(root)
    ensures CountsFitInt32(BuildFrequencyTable(data))
    ensures var bits := EncodeBits(CodesOf(root), data);
      Compress(name, data, order) == Success(WriteCompressedData(name, BuildFrequencyTable(data), order, Pack(bits), |bits|))
  {
    CountsAreInt32(data);
  }

  /** `decompress` on a buffer whose frame parses and decodes to nonempty output. */
  lemma DecompressFrame(buf: seq<byte>, frame: Frame, root: Tree, decoded: seq<byte>)
    requires ParseFrame(buf) == Some(frame)
    requires BuildHuffmanTree(frame.table) == Success(root)
    requires DecodeCompressedData(Some(root), frame.totalBits, frame.body) == Success(decoded)
    ensures |decoded| == 0 ==> Decompress(buf) == Failure(EmptyOutput)
    ensures |decoded| > 0 ==> Decompress(buf) == Success(Restored(frame.name, decoded))
  {
  }

  /** The code bits `compress` writes for `data`: the concatenated codes over the
      tree built from its table (none when there is no tree). */
  function EncodedBits(data: seq<byte>): seq<bool> {
    var tree := BuildHuffmanTree(BuildFrequencyTable(data));
    if tree.Success? then EncodeBits(CodesOf(tree.value), data) else []
  }

  /** Compressing and then decompressing gives back the name and the data, for
      input with at least two distinct bytes, whatever order the table was written
      in and whatever follows the body. The bounds are those of the fields: counts
      in an `int`, the name length in 32 bits, and a bit count below the last seven
      32-bit values, where the reader's body size wraps around. The decoder's bit
      counter is unbounded here; the original's `int` counter overflows from 2^31
      bits on, so above that the round trip is a property of this model only. */
  lemma RoundTrip(name: seq<byte>, data: seq<byte>, order: seq<byte>, trailing: seq<byte>, i: nat, j: nat)
    requires |data| < TWO_31 && |name| < TWO_32
    requires |EncodedBits(data)| < TWO_32 - 7
    requires EnumeratesKeys(order, BuildFrequencyTable(data))
    requires i < |data| && j < |data| && data[i] != data[j]
    ensures Compress(name, data, order).Success?
    ensures Decompress(Compress(name, data, order).value + trailing) == Success(Restored(name, data))
  {
    var table := BuildFrequencyTable(data);
    var root := BuildHuffmanTree(table).value;
    var bits := EncodeBits(CodesOf(root), data);
    EncodedBodyDecodes(data, i, j);
    CompressWrites(name, data, order, root);
    ParseWritten(name, table, order, Pack(bits), |bits|, trailing);
    DecompressFrame(Compress(name, data, order).value + trailing, Frame(name, table, |bits|, Pack(bits)), root, data);
  }

  /** The round trip for input short enough that even 255-bit codes fit the bit
      count field. That still allows more than 2^31 code bits, where the original's
      `int` bit counter overflows; above that it holds for this model only. */
  lemma RoundTripShortInput(name: seq<byte>, data: seq<byte>, order: seq<byte>, trailing: seq<byte>, i: nat, j: nat)
    requires 255 * |data| < TWO_32 - 7 && |name| < TWO_32
    requires EnumeratesKeys(order, BuildFrequencyTable(data))
    requires i < |data| && j < |data| && data[i] != data[j]
    ensures Compress(name, data, order).Success?
    ensures Decompress(Compress(name, data, order).value + trailing) == Success(Restored(name, data))
  {
    TreeOfData(data, i, j);
    EncodingLength(data, BuildHuffmanTree(BuildFrequencyTable(data)).value);
    RoundTrip(name, data, order, trailing, i, j);
  }

  /** Input whose code bits land in the last seven 32-bit values compresses, but
      the reader's body size wraps to zero, nothing is decoded, and decompressing
      ends in the empty-output error. */
  lemma WrappedBitCountNotRestored(name: seq<byte>, data: seq<byte>, order: seq<byte>, trailing: seq<byte>)
    requires |data| < TWO_31 && |name| < TWO_32
    requires TWO_32 - 7 <= |EncodedBits(data)| < TWO_32
    requires EnumeratesKeys(order, BuildFrequencyTable(data))
    ensures Compress(name, data, order).Success?
    ensures Decompress(Compress(name, data, order).value + trailing) == Failure(EmptyOutput)
  {
    TreeOfEncoding(data);
    var table := BuildFrequencyTable(data);
    var root := BuildHuffmanTree(table).value;
    var bits := EncodeBits(CodesOf(root), data);
    CompressWrites(name, data, order, root);
    ParseWritten(name, table, order, Pack(bits), |bits|, trailing);
    NoBodyNoOutput(Compress(name, data, order).value + trailing, Frame(name, table, |bits|, []), root);
  }

  /** Input with any code bits at all has a tree, and those bits pack into a body
      of the size the bit count announces. */
  lemma TreeOfEncoding(data: seq<byte>)
    requires |EncodedBits(data)| > 0
    ensures BuildHuffmanTree(BuildFrequencyTable(data)).Success?
    ensures var bits := EncodeBits(CodesOf(BuildHuffmanTree(BuildFrequencyTable(data)).value), data);
      bits == EncodedBits(data) && |Pack(bits)| == BodySize(|bits|)
  {
    PackLength(EncodedBits(data));
  }

  /** A frame whose body is empty decodes to nothing over a tree the stored table
      builds, which `decompress` reports as an error. */
  lemma NoBodyNoOutput(buf: seq<byte>, frame: Frame, root: Tree)
    requires ParseFrame(buf) == Some(frame) && frame.body == []
    requires BuildHuffmanTree(frame.table) == Success(root)
    ensures Decompress(buf) == Failure(EmptyOutput)
  {
    assert DecodeCompressedData(Some(root), frame.totalBits, []) == Success([]);
    DecompressFrame(buf, frame, root, []);
  }

  /** The body `compress` writes for input with two distinct bytes decodes, over
      the same tree, to the input. */
  lemma EncodedBodyDecodes(data: seq<byte>, i: nat, j: nat)
    requires i < |data| && j < |data| && data[i] != data[j]
    ensures BuildHuffmanTree(BuildFrequencyTable(data)).Success?
    ensures var root := BuildHuffmanTree(BuildFrequencyTable(data)).value;
      var bits := EncodeBits(CodesOf(root), data);
      && bits == EncodedBits(data)
      && |Pack(bits)| == BodySize(|bits|)
      && DecodeCompressedData(Some(root), |bits|, Pack(bits)) == Success(data)
  {
    TreeOfData(data, i, j);
    var root := BuildHuffmanTree(BuildFrequencyTable(data)).value;
    var bits := EncodeBits(CodesOf(root), data);
    PackLength(bits);
    DecodePacked(root, data);
  }

  /** The tree built for input with two distinct bytes has children, no repeated
      byte, and a leaf for every input byte. */
  lemma TreeOfData(data: seq<byte>, i: nat, j: nat)
    requires i < |data| && j < |data| && data[i] != data[j]
    ensures BuildHuffmanTree(BuildFrequencyTable(data)).Success?
    ensures var root := BuildHuffmanTree(BuildFrequencyTable(data)).value;
      && root.Node? && UniqueLeaves(root)
      && forall k :: 0 <= k < |data| ==> data[k] in LeafSyms(root)
  {
    var table := BuildFrequencyTable(data);
    TwoDistinctBytes(data, i, j);
    var root := BuildHuffmanTree(table).value;
    forall k | 0 <= k < |data| ensures data[k] in LeafSyms(root) {
      assert data[k] in multiset(table.Keys);
    }
  }

  /** Input made of one repeated byte compresses, but does not decompress: the lone
      leaf gets the empty code, no bits are stored, and the decoder's empty output
      is reported as an error. */
  lemma SingleByteInputNotRestored(name: seq<byte>, data: seq<byte>, order: seq<byte>, trailing: seq<byte>)
    requires 0 < |data| < TWO_31 && |name| < TWO_32
    requires forall k :: 0 <= k < |data| ==> data[k] == data[0]
    requires EnumeratesKeys(order, BuildFrequencyTable(data))
    ensures Compress(name, data, order).Success?
    ensures Decompress(Compress(name, data, order).value + trailing) == Failure(EmptyOutput)
  {
    var table := BuildFrequencyTable(data);
    var root := BuildHuffmanTree(table).value;
    SingleByteEncodesToNothing(data);
    var bits := EncodeBits(CodesOf(root), data);
    CompressWrites(name, data, order, root);
    ParseWritten(name, table, order, Pack(bits), 0, trailing);
    DecompressFrame(Compress(name, data, order).value + trailing, Frame(name, table, 0, Pack(bits)), root, []);
  }

  /** One repeated byte gives a single-leaf tree, whose empty code encodes the input
      as no bits at all. */
  lemma SingleByteEncodesToNothing(data: seq<byte>)
    requires 0 < |data|
    requires forall k :: 0 <= k < |data| ==> data[k] == data[0]
    ensures BuildHuffmanTree(BuildFrequencyTable(data)).Success?
    ensures var root := BuildHuffmanTree(BuildFrequencyTable(data)).value;
      && root.Leaf?
      && EncodeBits(CodesOf(root), data) == []
      && Pack([]) == []
      && DecodeCompressedData(Some(root), 0, []) == Success([])
  {
    OneKey(data);
    var root := BuildHuffmanTree(BuildFrequencyTable(data)).value;
    LeafCodesEmpty(root, data);
  }

  lemma OneKey(data: seq<byte>)
    requires 0 < |data|
    requires forall k :: 0 <= k < |data| ==> data[k] == data[0]
    ensures |BuildFrequencyTable(data)| == 1
  {
    assert BuildFrequencyTable(data).Keys == {data[0]};
  }

  lemma LeafCodesEmpty(root: Tree, data: seq<byte>)
    requires root.Leaf?
    ensures EncodeBits(CodesOf(root), data) == []
  {
    assert CodesOf(root) == map[root.sym := []];
    EncodeBitsLength(CodesOf(root), data, 0);
  }
}
