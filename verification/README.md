# Huffman file compressor — a verified model

This project models the core of a byte-level Huffman file compressor written in
C++. It covers both halves:

- The compressor counts how often each byte occurs. It builds a Huffman tree with
  a min-priority queue seeded in ascending byte order, and gives each byte its
  root-to-leaf path as its code (left = 0, right = 1). It concatenates the codes
  of the input, packs the bits most significant first with a zero-padded last
  byte, and lays the file out as: name length, name, table size, (byte, int32
  count) entries, bit count, body. `appendToBuffer` copies each integer field
  out of memory, so the fields are in the host's byte order; the model takes a
  little-endian host, on which every field is little-endian.
- The decompressor reads the same fields back. It reads `(totalBits + 7) / 8`
  body bytes, computed in 32 bits: that is ceil(totalBits / 8) except for the last
  seven 32-bit bit counts, where the sum wraps and no body is read. It rebuilds
  the tree from the stored table with the same builder. It then walks the tree
  bit by bit, emitting a byte at each leaf and returning to the root.

All of it is pure functions over immutable data:

- The tree is a `Tree` datatype (`Leaf(sym, freq)` or `Node(freq, left, right)`).
- Bit strings are `seq<bool>`.
- Buffers are `seq<byte>`, with `byte` the integers 0..255.
- Errors are a `Result` with an `Error` constructor per way the original stops
  (`EmptyTable`, `NullRoot`, `EmptyOutput`), and two more for conditions the
  original does not detect: `Truncated` for input shorter than its fields announce
  (the original reads on regardless) and `NullChild` for a step below a leaf (the
  original dereferences a null pointer, which is undefined behaviour).

The loops of `encodeData` and `decodeCompressedData` are also written as methods.
Each is proved equal to its functional definition.

Modules, one per component (each in its own file):

| module | file | models |
|---|---|---|
| Results | results.dfy | Option/Result wrappers and the error kinds |
| Bytes | bytes.dfy | `appendToBuffer`, little-endian fields, uint32/int32 reads |
| HuffmanTree | huffman_tree.dfy | `HuffmanNode`, `HuffmanCompare`, paths in the tree |
| FrequencyTable | frequency_table.dfy | `buildFrequencyTable` |
| TreeBuilder | tree_builder.dfy | `buildHuffmanTree` |
| CodeGenerator | code_generator.dfy | `generateHuffmanCodes` |
| BitPacking | bit_packing.dfy | MSB-first packing and unpacking of bits |
| Encoder | encoder.dfy | `encodeData` |
| Container | container.dfy | the buffer of `writeCompressedData` and the header/body parse of `decompress` |
| Decoder | decoder.dfy | `decodeCompressedData` |
| Codec | codec.dfy | `compress` and `decompress` end to end |

Main results:

- **Round trip.** Any input with two distinct bytes is restored exactly by
  `decompress(compress(x))`, together with its name. This holds whatever order the
  table entries were written in and whatever bytes follow the body, as long as the
  input is shorter than 2^31 bytes, the name shorter than 2^32 bytes and the bit
  count below 2^32 - 7 (`Codec.RoundTrip`; the "Left out" lines for
  `Codec.Compress` and `Codec.RoundTrip` give the reasons). The original's decoder
  counts bits in a signed `int` (decompressor.cpp:104, 120), which overflows once
  2^31 bits have been read; that is undefined behaviour, so from 2^31 code bits
  on the round trip holds for the model only. From 2^32 - 7 to 2^32 - 1 the
  reader's body size wraps to zero and decompression fails
  (`Codec.WrappedBitCountNotRestored`).
- **Single-byte input.** Input made of one repeated byte compresses, but
  decompressing it ends in the empty-output error
  (`Codec.SingleByteInputNotRestored`).
- **Tree shape.** The tree's leaves are exactly the table, each byte once with its
  count. Every node's frequency is the sum of its children's.
- **Codes.** The codes are exactly the leaf paths and form a prefix code.
- **Packing.** The packed body unpacks to the code bits followed only by zero
  padding.
- **Header.** Parsing the written header gives back every field.

## Modelling decisions

- **Ties in the priority queue.** `HuffmanCompare` orders by frequency alone, and
  `std::priority_queue` does not say which of several equal nodes comes out first.
  The model keeps the queue as a sequence in insertion order, and `top()` takes the
  earliest node of least frequency. Leaves are inserted in ascending byte order and
  merged nodes are appended. So among equal frequencies, leaves come out by
  ascending byte, before merged nodes, and merged nodes in the order they were
  made, since `PopMin` leaves the other nodes in their order. The tree is therefore
  a function of the table alone, which the decoder relies on when it rebuilds the
  tree.
- **The sorted copy of the table.** compressor.cpp:71-72 builds the `std::map`
  from `receivedFrequencyTable.value_or(frequencyTable).begin()` and
  `...value_or(frequencyTable).end()`. `value_or` returns by value, so the two
  iterators belong to two different temporary copies of the table, and the range
  they form is undefined behaviour in C++. It works where an `unordered_map`'s
  end iterator does not depend on the container (as in libstdc++, where it is a
  null node), and it need not work elsewhere. The model reads the range as one
  copy of the table, which is what the line evidently means.
- **Table order in the file.** The file lists the table entries in the iteration
  order of an `unordered_map`. That order is a parameter `order`, required to list
  each key once. The round trip holds for every such order.
- **Untrusted reads.** The original reads the header with unchecked stream reads.
  The model's parse returns `None` (error `Truncated`) when the buffer is shorter
  than the fields it announces. The original would carry on with short reads; the
  model does not claim that the original detects this.
- **A leaf root that receives bits.** Here the original dereferences a null child
  pointer, which is undefined behaviour. The model ends in the `NullChild` error.
  It cannot arise for a tree the builder makes with two or more leaves.
- **Code map collisions.** When two leaves carry the same byte, the right one's
  code is kept, as in the original's depth-first order. This cannot happen for a
  built tree (`UniqueLeaves`).

## Behaviour of the code worth knowing

The model follows the code in each case:

- **Single-leaf code.** A lone leaf gets the empty code (compressor.cpp:20,
  109-110), so input of one repeated byte encodes to zero bits and fails to
  decompress (`Codec.SingleByteInputNotRestored`).
- **No frame validation.** The parse at decompressor.cpp:36-65 checks none of the
  lengths it reads against the file; every size is trusted.
- **Bits that end mid-path.** Bits left over partway down a path at the end of the
  body produce no output and no error (decompressor.cpp:105-123,
  `Decoder.PartialPathDropped`).
- **Table entry order.** The table is written in the iteration order of an
  `unordered_map` (compressor.cpp:203-206), which the code does not fix; the reader
  does not depend on it.

## Model

| member | source | states |
|---|---|---|
| Bytes.EncodeLE | src/include/utils.h:22-25 | the `width` bytes of a value, least significant first, decode back to the value |
| Bytes.AppendToBuffer | src/include/utils.h:22-25 | the buffer grows by exactly the field width, the old contents stay as a prefix, the new bytes read back as the value, and a one-byte field is the byte itself |
| Bytes.Truncate32 | src/compressor/compressor.cpp:209 | `static_cast<uint32_t>` of a count is below 2^32 and leaves any count below 2^32 unchanged |
| Bytes.Int32Value | src/compressor/decompressor.cpp:53 | a 32-bit pattern read into an `int` is the int32 whose two's complement pattern it is |
| Bytes.AppendInt32 | src/compressor/compressor.cpp:205 | an int32 count is written as four bytes that read back as the same count, after an unchanged prefix |
| Bytes.ReadUint32 | src/compressor/decompressor.cpp:38 | a four-byte `uint32_t` read is below 2^32 (the same read fills `tableSize` at line 45 and `totalBits` at line 60); it is the little-endian value Bytes.AppendToBuffer writes |
| Bytes.ReadInt32 | src/compressor/decompressor.cpp:53 | a four-byte `int` read is within the int32 range; Bytes.AppendInt32 states that it reads back a written count |
| HuffmanTree.HuffmanCompare | src/include/compressor.h:31-35 | no contract of its own: the comparator `a->frequency > b->frequency`; HuffmanTree.CompareIsStrictWeakOrder states its ordering properties |
| HuffmanTree.CompareIsStrictWeakOrder | src/include/compressor.h:31-35 | the comparator is irreflexive, asymmetric and transitive, and two nodes are unordered exactly when their frequencies are equal, whatever their bytes |
| FrequencyTable.BuildFrequencyTable | src/compressor/compressor.cpp:48-52 | the keys are exactly the bytes occurring in the input, and each count is that byte's number of occurrences (at least 1) |
| FrequencyTable.CountsSumToLength | src/compressor/compressor.cpp:48-52 | the counts add up to the input length |
| FrequencyTable.CountsAreInt32 | src/compressor/compressor.cpp:50 | for input shorter than 2^31 bytes no `int` count overflows |
| TreeBuilder.SeedFrom | src/compressor/compressor.cpp:71-76 | the leaves pushed for the entries at or above a byte, at most one per remaining byte value; its order and contents are stated by TreeBuilder.SeedFromOrdered, TreeBuilder.SeedFromSyms and TreeBuilder.SeedFromFreq |
| TreeBuilder.SeedFromOrdered | src/compressor/compressor.cpp:71-76 | the initial queue holds leaves from the table, each with its count, strictly ascending by byte |
| TreeBuilder.SeedFromSyms | src/compressor/compressor.cpp:71-76 | the initial queue holds one leaf per table entry and nothing else |
| TreeBuilder.SeedFromFreq | src/compressor/compressor.cpp:71-76 | the initial queue's frequencies add up to the table's total |
| TreeBuilder.Seed | src/compressor/compressor.cpp:70-76 | the seeded queue's leaves are exactly the keys, each carrying its count, and its total frequency is the table's total |
| TreeBuilder.AscendingEnumerationIsSeed | src/compressor/compressor.cpp:70-76 | any ascending enumeration of the table's entries is the seed queue, so the insertion order depends only on the table's contents |
| TreeBuilder.SeedEmptyIff | src/compressor/compressor.cpp:96-98 | the queue starts empty exactly when the table is empty |
| TreeBuilder.MinIndex | src/compressor/compressor.cpp:81 | `top()` is a node of least frequency, and no earlier node has that frequency |
| TreeBuilder.PopMin | src/compressor/compressor.cpp:81-84 | the popped node has no lower-frequency node behind it, and the queue loses exactly that node, its leaves and its frequency, the other nodes keeping their order |
| TreeBuilder.MergeStep | src/compressor/compressor.cpp:79-95 | a merge round shrinks the queue by one and keeps its leaves and total frequency; the one new node has two queued nodes as children and their summed frequency |
| TreeBuilder.MergeTakesTwoLowest | src/compressor/compressor.cpp:81-91 | the merged node's left child has least frequency in the queue, and its right child least frequency among the rest |
| TreeBuilder.BuildFromQueue | src/compressor/compressor.cpp:79-99 | the merge loop fails exactly on an empty queue; otherwise the root has all the queue's leaves and its total frequency, and sums stay correct |
| TreeBuilder.BuildKeepsLeafCounts | src/compressor/compressor.cpp:79-95 | merging never changes a leaf, so leaves keep their table counts |
| TreeBuilder.BuildHuffmanTree | src/compressor/compressor.cpp:58-100 | the build fails (EmptyTable) exactly on an empty table; otherwise the leaves are the table's keys, each once with its count, every node's frequency is its children's sum, the root carries the total, and the root is a leaf exactly for a one-entry table |
| CodeGenerator.GenerateHuffmanCodes | src/compressor/compressor.cpp:105-118 | codes exist exactly for the leaf bytes; each extends the path so far, strictly below an internal node; a lone leaf gets the path so far, the empty code at the root |
| CodeGenerator.CodesArePaths | src/compressor/compressor.cpp:105-118 | every recorded code is the path so far followed by a path to a leaf of that byte |
| CodeGenerator.PathsAreCodes | src/compressor/compressor.cpp:105-118 | with no repeated byte, every root-to-leaf path is the recorded code of its leaf's byte |
| CodeGenerator.PrefixMeansSameLeaf | src/compressor/compressor.cpp:105-118 | if one byte's code is a prefix of another's, the two bytes are the same |
| CodeGenerator.CodesArePrefixFree | src/compressor/compressor.cpp:105-118 | the codes of any tree form a prefix code |
| CodeGenerator.CodeLengthBound | src/compressor/compressor.cpp:105-118 | a code is shorter than the tree's number of leaves |
| BitPacking.Pack | src/compressor/compressor.cpp:133-159 | no contract of its own: the MSB-first packing with a zero-padded last byte; BitPacking.PackLength, BitPacking.UnpackPack and Encoder.PackBits pin it down |
| BitPacking.Unpack | src/compressor/decompressor.cpp:104-110 | the bits of a byte string, eight per byte, each byte from bit 7 down; BitPacking.UnpackIndex and BitPacking.UnpackPack state the rest |
| BitPacking.BitsOfValue | src/compressor/decompressor.cpp:106-110 | extracting the bits of a bit string's value gives the bit string back |
| BitPacking.ShiftBit | src/compressor/decompressor.cpp:110 | `(byte >> i) & 1` is the bit at position 7 - i of the byte's MSB-first bits |
| BitPacking.ValueOfPadded | src/compressor/compressor.cpp:157 | appending k zero bits multiplies the value by 2^k |
| BitPacking.PackLength | src/compressor/compressor.cpp:133-159 | n bits pack into ceil(n / 8) bytes |
| BitPacking.UnpackPack | src/compressor/compressor.cpp:133-159 | unpacking packed bits gives the bits back, followed by fewer than eight zero bits |
| BitPacking.PackConcat | src/compressor/compressor.cpp:139-152 | packing whole bytes' worth of bits and then more bits packs each part on its own |
| BitPacking.UnpackIndex | src/compressor/decompressor.cpp:105-110 | the decoder's k-th bit of byte j is position 8j + k of the unpacked stream |
| Encoder.CodeOf | src/compressor/compressor.cpp:126 | no contract of its own: `huffmanCodes[byte]`, with a missing key read as the empty code `operator[]` inserts; Encoder.ConcatCodes shows the loop uses it |
| Encoder.EncodeBits | src/compressor/compressor.cpp:124-130 | no contract of its own: the input's codes concatenated in order; Encoder.EncodeBitsConcat, Encoder.EncodeBitsLength and Decoder.DecodeEncoded pin it down |
| Encoder.EncodeBitsConcat | src/compressor/compressor.cpp:124-130 | encoding a concatenation encodes each part in turn |
| Encoder.EncodeBitsLength | src/compressor/compressor.cpp:124-130 | with codes of at most m bits, the encoding has at most m bits per input byte |
| Encoder.ConcatCodes | src/compressor/compressor.cpp:124-130 | the first loop builds the input's codes, one after another |
| Encoder.ShiftStep | src/compressor/compressor.cpp:142 | shifting a bit into a byte that holds fewer than eight bits neither overflows nor loses a bit |
| Encoder.PackAdvance | src/compressor/compressor.cpp:139-151 | one pass of the packing loop keeps the invariant: whole bytes packed, the rest held in `currentByte` |
| Encoder.PackWholeBytes | src/compressor/compressor.cpp:135-152 | after the loop, fewer than eight bits remain unpacked, the bytes are the packing of all the others, and `currentByte` holds the remainder |
| Encoder.ShiftUpIsPadding | src/compressor/compressor.cpp:157 | `currentByte <<= (8 - bitCount)` on an 8-bit byte is zero-padding the remaining bits to a whole byte |
| Encoder.FinalByte | src/compressor/compressor.cpp:155-159 | the last step adds nothing when no bits remain, and otherwise adds the remaining bits left-aligned as one byte |
| Encoder.PackBits | src/compressor/compressor.cpp:133-159 | the packing loops produce exactly the MSB-first packing of the bit string |
| Encoder.EncodeData | src/compressor/compressor.cpp:123-163 | `encodeData` returns the total code length and ceil(total / 8) bytes whose bits are the codes followed only by zero padding |
| Container.WriteEntries | src/compressor/compressor.cpp:203-206 | each table entry adds five bytes after the unchanged buffer |
| Container.WriteCompressedData | src/compressor/compressor.cpp:188-213 | the buffer is 12 + name + 5 per entry + body bytes long |
| Container.WriteLayout | src/compressor/compressor.cpp:188-213 | the buffer holds, in order, the uint32 name length, the name, the uint32 table size, the entries, the uint32 bit count and the body |
| Container.BodySize | src/compressor/decompressor.cpp:63 | the body has the least number of bytes that holds totalBits bits |
| Container.BodySizeAsWritten | src/compressor/decompressor.cpp:63 | the 32-bit `(totalBits + 7) / 8` is ceil(totalBits / 8) below 2^32 - 7 and 0 from there on |
| Container.BodySizeOverflow | src/compressor/decompressor.cpp:63 | the 32-bit `(totalBits + 7) / 8` agrees with ceil(totalBits / 8) below 2^32 - 7 and is 0 instead of 2^29 at 2^32 - 1 |
| Container.ParseEntries | src/compressor/decompressor.cpp:48-56 | a successful entry read lies inside the buffer |
| Container.ParseFrame | src/compressor/decompressor.cpp:36-65 | a parsed frame has a name and bit count that fit 32 bits, and the 32-bit `(totalBits + 7) / 8` body bytes: ceil(totalBits / 8) below 2^32 - 7, none from there on |
| Container.ReadBody | src/compressor/decompressor.cpp:59-65 | reading the bit count and the body after it gives a count below 2^32 and exactly the 32-bit `(totalBits + 7) / 8` body bytes, keeping the name and table read before |
| Container.ParseWrittenEntries | src/compressor/decompressor.cpp:48-56 | reading back written entries stores each listed byte's count |
| Container.ParseWritten | src/compressor/decompressor.cpp:36-65 | parsing a written buffer, with anything appended, gives back the name, the table and the bit count, and the body for bit counts below 2^32 - 7; from there on the body read is empty |
| Container.TableSizeBound | src/compressor/compressor.cpp:199 | a table has at most 256 entries |
| Decoder.Walk | src/compressor/decompressor.cpp:102-123 | the walk emits at most one byte per bit, only leaf bytes, never fails from an internal node, and fails only by stepping below a leaf |
| Decoder.ReadBits | src/compressor/decompressor.cpp:105-110 | the decoder reads at most totalBits bits of the body, most significant first |
| Decoder.DecodeCompressedData | src/compressor/decompressor.cpp:97-124 | a null root is exactly the NullRoot error; a root with children always decodes; the output has only leaf bytes and at most one byte per bit |
| Decoder.WalkAlongPath | src/compressor/decompressor.cpp:112-119 | a path to a leaf emits that leaf's byte and restarts the walk at the root |
| Decoder.PartialPathDropped | src/compressor/decompressor.cpp:105-123 | bits that stop partway down a path produce nothing and no error |
| Decoder.DecodeEncoded | src/compressor/decompressor.cpp:97-124 | walking the concatenated codes of any data over a tree with children and no repeated byte gives the data |
| Decoder.PaddingIgnored | src/compressor/decompressor.cpp:104-110 | bodies that both hold at least totalBits bits and agree on the first totalBits of them decode alike, whatever their padding bits and whatever their lengths |
| Decoder.DecodeAnyPadding | src/compressor/decompressor.cpp:97-124 | any body whose first bits are the data's encoding decodes to the data with that bit count, whatever its padding bits and whatever bytes follow |
| Decoder.DecodePacked | src/compressor/decompressor.cpp:104-110 | decoding the packed encoding, with its zero padding, at its exact bit count gives the data |
| Decoder.DecodeLoop | src/compressor/decompressor.cpp:97-124 | the nested byte/bit loops with the early return compute the decoder's result |
| Codec.Compress | src/compressor/compressor.cpp:10-27 | compression fails (EmptyTable) exactly on empty input, and otherwise yields at least the three 4-byte size fields, the name and one 5-byte table entry |
| Codec.Decompress | src/compressor/decompressor.cpp:36-87 | a short buffer is Truncated; an empty stored table is EmptyTable; on success the name is the stored one and the output is nonempty, uses only table bytes and has at most one byte per stored bit; a null root never arises; a stored bit count in the last seven 32-bit values always ends in an error |
| Codec.EncodingLength | src/compressor/compressor.cpp:123-162 | the encoding of counted input is at most 255 bits per byte |
| Codec.RoundTrip | src/compressor/decompressor.cpp:67-87 | decompressing a compressed buffer (with any trailing bytes) restores the name and the data, for input with two distinct bytes, fewer than 2^31 bytes, a name length below 2^32 and code bits below 2^32 - 7 |
| Codec.RoundTripShortInput | src/compressor/decompressor.cpp:67-87 | the round trip holds for every input with two distinct bytes shorter than (2^32 - 7) / 255 bytes, whatever its codes |
| Codec.WrappedBitCountNotRestored | src/compressor/decompressor.cpp:63-87 | input whose code bits fall in the last seven 32-bit values compresses, but decompressing it reads no body and ends in the EmptyOutput error |
| Codec.SingleByteInputNotRestored | src/compressor/decompressor.cpp:82-87 | input of one repeated byte compresses, but decompressing it ends in the EmptyOutput error |

## Left out

- File I/O is not modelled: reading the input file, writing the output and decoded files, and the stream error exits. The compressor's input is a byte sequence and a name, and its output is the buffer it would write.
- The output path built from `std::filesystem` stem and parent path is not modelled. It depends on library path semantics.
- `printHuffmanTree` is left out: it only prints to the console.
- `destroyTree` is left out: immutable trees need no freeing.
- `writeDecodedData` is left out: it is file output.
- The `HuffmanNode` constructor has no member of its own: a fresh node is the `Leaf` constructor, with both children absent by construction.
- The OpenCV image wrapper is not modelled.
- The command-line `main` is not modelled.
- `std::priority_queue`'s own tie-breaking between equal frequencies is not modelled. A fixed rule replaces it (see Modelling decisions).
- TreeBuilder.BuildHuffmanTree: frequencies and their merged sums are unbounded integers. compressor.cpp:89 adds two `int` frequencies, so a table whose counts sum past 2^31 - 1 overflows there, which is undefined behaviour; a table counted from input shorter than 2^31 bytes never does, but one read back from a file can (two stored counts of 2^31 - 1, say). The model computes the exact sum and does not represent this overflow.
- Codec.Compress: requires input shorter than 2^31 bytes, so that the `int` counts cannot overflow. Larger input is not modelled.
- Encoder.EncodeData: returns the bit count as an unbounded number. The original returns the `size_t` length as an `int` (compressor.cpp:162), a narrowing conversion from 2^31 bits on, implementation-defined before C++20 and reduction modulo 2^32 since; with that reduction the `static_cast<uint32_t>` at compressor.cpp:209 turns it back into the same length below 2^32, so the bit count written to the file is unaffected below 2^32. The model does not represent the intermediate `int`.
- Decoder.DecodeLoop: counts bits with an unbounded number. The original's `int bitCount` (decompressor.cpp:104) is incremented at line 120 past INT_MAX once 2^31 bits have been read, which is undefined behaviour; the model's counter keeps counting.
- Codec.RoundTrip: requires a name length below 2^32 and code bits below 2^32 - 7. From 2^32 on, the conversions to `uint32_t` at compressor.cpp:191 and 209 lose information, and what the reader then does is not modelled. From 2^32 - 7 to 2^32 - 1 the round trip fails; Codec.WrappedBitCountNotRestored states this. From 2^31 code bits on, the original's decoder overflows its `int bitCount` (see Decoder.DecodeLoop), so for 2^31 to 2^32 - 8 code bits the round trip is a property of the model only.
- Codec.RoundTripShortInput: its bound allows up to about 2^32 code bits, so the same caveat applies: from 2^31 code bits on the round trip holds for the model only.
- Container.ParseFrame: reports short input as None (Truncated). The original does not detect this; it continues with whatever its stream reads left in the variables.
- Container.WriteCompressedData: its contract states only the length. The field-by-field content is stated by Container.WriteLayout.
- Container.ParseEntries: its contract states only that a successful read stays inside the buffer. What it reads back from written entries is stated by Container.ParseWrittenEntries.
- Container.ParseFrame: its contract states only the field bounds and the body size. That it inverts the writer is stated by Container.ParseWritten.

## Findings

| source | as written | input that shows it | evidently intended | confidence | as-written member | corrected member |
|---|---|---|---|---|---|---|
| src/compressor/decompressor.cpp:63 | `size_t size = (totalBits + 7) / 8;` with `totalBits` a `uint32_t`, so the sum is computed in 32 bits and wraps | a header whose bit count is 2^32 - 1 gives size 0 instead of 2^29, so no body is read; a compressed file whose code bits are in 2^32 - 7 .. 2^32 - 1 does not decompress | ceil(totalBits / 8) bytes, computed without wrap-around | medium, not executed; only input of hundreds of megabytes, or a crafted header, reaches these values | Container.BodySizeAsWritten; Container.BodySizeOverflow; Codec.WrappedBitCountNotRestored | Container.BodySize |

The parse follows the code as written (`Container.ParseFrame` reads
`BodySizeAsWritten` bytes). `Container.BodySize` is the size the packed body
actually has (`BitPacking.PackLength`), and the round trip is proved with it for
every bit count where the two agree.
