/** The compressed file's layout, written by `writeCompressedData` and read back by
    `decompress`:

      nameSize   uint32, little-endian
      name       nameSize bytes
      tableSize  uint32
      entries    tableSize times (uint8 byte, int32 count)
      totalBits  uint32
      body       the packed bits

    Neither side checks anything: the reader trusts every length it finds. */
module Container {
  import opened Results
  import opened Bytes
  import opened FrequencyTable

  datatype Frame = Frame(name: seq<byte>, table: Table, totalBits: nat, body: seq<byte>)

  /** Every count fits the `int` it is stored from and written as. */
  predicate CountsFitInt32(table: Table) {
    forall b :: b in table ==> IsInt32(table[b])
  }

  /** `order` lists each key of the table exactly once: an iteration order of the
      `unordered_map`, which the original does not fix. */
  predicate EnumeratesKeys(order: seq<byte>, table: Table) {
    && multiset(order) == multiset(table.Keys)
    && (forall b :: b in order ==> b in table)
  }

  /** The table entries, in the given order, each as its byte and its count. */
  function WriteEntries(buf: seq<byte>, table: Table, order: seq<byte>): (r: seq<byte>)
    requires forall b :: b in order ==> b in table && IsInt32(table[b])
    ensures |r| == |buf| + 5 * |order|
    ensures r[..|buf|] == buf
    decreases |order|
  {
    if |order| == 0 then buf
    else
      var withByte := AppendToBuffer(buf, order[0], 1);
      var next := AppendInt32(withByte, table[order[0]]);
      var r := WriteEntries(next, table, order[1..]);
      assert r[..|buf|] == r[..|next|][..|buf|];
      r
  }

  /** The number of bytes holding `totalBits` bits: ceil(totalBits / 8). */
  function BodySize(totalBits: nat): (n: nat)
    ensures 8 * n >= totalBits && 8 * n < totalBits + 8
  {
    (totalBits + 7) / 8
  }

  /** The body size exactly as the decompressor computes it: `totalBits + 7` is
      evaluated in 32-bit unsigned arithmetic before the division. It is the
      correct size below 2^32 - 7 and no bytes at all from there on. */
  function BodySizeAsWritten(totalBits: nat): (n: nat)
    requires totalBits < TWO_32
    ensures totalBits < TWO_32 - 7 ==> n == BodySize(totalBits)
    ensures totalBits >= TWO_32 - 7 ==> n == 0
  {
    ((totalBits + 7) % TWO_32) / 8
  }

  /** The two agree except on the last seven 32-bit values, where the sum wraps
      around and the decompressor reads no body at all. */
  lemma BodySizeOverflow()
    ensures BodySizeAsWritten(TWO_32 - 1) == 0
    ensures BodySize(TWO_32 - 1) == 0x2000_0000
    ensures forall n :: 0 <= n < TWO_32 - 7 ==> BodySizeAsWritten(n) == BodySize(n)
  {
  }

  /** `writeCompressedData`: the sizes are `static_cast<uint32_t>` of the name's
      length, the table's size and the bit count, so each is reduced modulo 2^32. */
  function WriteCompressedData(name: seq<byte>, table: Table, order: seq<byte>, encoded: seq<byte>, bitLength: nat): (r: seq<byte>)
    requires EnumeratesKeys(order, table)
    requires CountsFitInt32(table)
    ensures |r| == 12 + |name| + 5 * |table| + |encoded|
  {
    assert Pow256(4) == TWO_32;
    OrderLength(order, table);
    var withNameSize := AppendToBuffer([], Truncate32(|name|), 4);
    var withName := withNameSize + name;
    var withTableSize := AppendToBuffer(withName, Truncate32(|table|), 4);
    var withEntries := WriteEntries(withTableSize, table, order);
    var withBits := AppendToBuffer(withEntries, Truncate32(bitLength), 4);
    withBits + encoded
  }

  /** The written buffer read back field by field: `p` is where the table size
      starts and `q` where the bit count starts. */
  lemma WriteLayout(name: seq<byte>, table: Table, order: seq<byte>, encoded: seq<byte>, bitLength: nat)
    requires EnumeratesKeys(order, table)
    requires CountsFitInt32(table)
    ensures var r := WriteCompressedData(name, table, order, encoded, bitLength);
      var p := 4 + |name|;
      var q := p + 4 + 5 * |table|;
      && |r| == q + 4 + |encoded|
      && ReadUint32(r[..4]) == Truncate32(|name|)
      && r[4..p] == name
      && ReadUint32(r[p..p + 4]) == Truncate32(|table|)
      && r[..q] == WriteEntries(r[..p + 4], table, order)
      && ReadUint32(r[q..q + 4]) == Truncate32(bitLength)
      && r[q + 4..] == encoded
  {
    assert Pow256(4) == TWO_32;
    var withNameSize := AppendToBuffer([], Truncate32(|name|), 4);
    var withName := withNameSize + name;
    var withTableSize := AppendToBuffer(withName, Truncate32(|table|), 4);
    var withEntries := WriteEntries(withTableSize, table, order);
    var withBits := AppendToBuffer(withEntries, Truncate32(bitLength), 4);
    var r := withBits + encoded;
    assert r == WriteCompressedData(name, table, order, encoded, bitLength);
    OrderLength(order, table);
    Layout(withNameSize, withName, withTableSize, withEntries, withBits, r, name, table, order, encoded, bitLength,
           4 + |name|, 8 + |name| + 5 * |table|);
  }

  /** The field layout of a buffer built by four appends and a final concatenation,
      stated on the intermediate buffers alone. */
  lemma Layout(w1: seq<byte>, w2: seq<byte>, w3: seq<byte>, w4: seq<byte>, w5: seq<byte>, r: seq<byte>,
               name: seq<byte>, table: Table, order: seq<byte>, encoded: seq<byte>, bitLength: nat, p: nat, q: nat)
    requires forall b :: b in order ==> b in table && IsInt32(table[b])
    requires |order| == |table|
    requires |w1| == 4 && DecodeLE(w1) == Truncate32(|name|)
    requires w2 == w1 + name
    requires |w3| == |w2| + 4 && w3[..|w2|] == w2 && DecodeLE(w3[|w2|..]) == Truncate32(|table|)
    requires w4 == WriteEntries(w3, table, order)
    requires |w5| == |w4| + 4 && w5[..|w4|] == w4 && DecodeLE(w5[|w4|..]) == Truncate32(bitLength)
    requires r == w5 + encoded
    requires p == 4 + |name| && q == p + 4 + 5 * |table|
    ensures |r| == q + 4 + |encoded|
    ensures ReadUint32(r[..4]) == Truncate32(|name|)
    ensures r[4..p] == name
    ensures ReadUint32(r[p..p + 4]) == Truncate32(|table|)
    ensures r[..q] == WriteEntries(r[..p + 4], table, order)
    ensures ReadUint32(r[q..q + 4]) == Truncate32(bitLength)
    ensures r[q + 4..] == encoded
  {
    assert |w2| == p && |w3| == p + 4 && |w4| == q && |w5| == q + 4;
    assert w4[..|w3|] == w3;
    assert w2[..|w1|] == w1;
    FieldsOfWrite(w1, w2, w3, w4, w5, r);
    assert r[..4] == w1;
    assert ReadUint32(r[..4]) == Truncate32(|name|);
    assert r[4..p] == w2[4..] == name;
    assert r[p..p + 4] == w3[p..];
    assert ReadUint32(r[p..p + 4]) == Truncate32(|table|);
    assert r[..p + 4] == w3;
    assert r[..q] == w4;
    assert r[q..q + 4] == w5[q..];
    assert ReadUint32(r[q..q + 4]) == Truncate32(bitLength);
    assert r[q + 4..] == encoded;
  }

  /** The slicing facts behind WriteCompressedData's contract, for a buffer that
      grows by prefix extension. */
  lemma FieldsOfWrite(w1: seq<byte>, w2: seq<byte>, w3: seq<byte>, w4: seq<byte>, w5: seq<byte>, r: seq<byte>)
    requires |w1| <= |w2| <= |w3| <= |w4| <= |w5| <= |r|
    requires w1 == w2[..|w1|] && w2 == w3[..|w2|] && w3 == w4[..|w3|] && w4 == w5[..|w4|] && w5 == r[..|w5|]
    ensures r[..|w1|] == w1 && r[..|w2|] == w2 && r[..|w3|] == w3 && r[..|w4|] == w4
    ensures r[|w1|..|w2|] == w2[|w1|..] && r[|w2|..|w3|] == w3[|w2|..] && r[|w4|..|w5|] == w5[|w4|..]
  {
    assert r[..|w4|] == r[..|w5|][..|w4|];
    assert r[..|w3|] == r[..|w4|][..|w3|];
    assert r[..|w2|] == r[..|w3|][..|w2|];
    assert r[..|w1|] == r[..|w2|][..|w1|];
    assert r[|w1|..|w2|] == r[..|w2|][|w1|..];
    assert r[|w2|..|w3|] == r[..|w3|][|w2|..];
    assert r[|w4|..|w5|] == r[..|w5|][|w4|..];
  }

  /** The entry loop of `decompress`: `count` times a byte and an int32 count, each
      stored with `frequencyTable[byte] = frequency`, so a repeated byte keeps its
      last count. None when the buffer ends first. */
  function ParseEntries(buf: seq<byte>, pos: nat, count: nat, acc: Table): (r: Option<Table>)
    ensures r.Some? && count > 0 ==> pos + 5 * count <= |buf|
    decreases count
  {
    if count == 0 then Some(acc)
    else if pos + 5 > |buf| then None
    else ParseEntries(buf, pos + 5, count - 1, acc[buf[pos] := ReadInt32(buf[pos + 1..pos + 5])])
  }

  /** The header and body read of `decompress`. The body is BodySizeAsWritten(totalBits)
      bytes, so a bit count in the last seven 32-bit values reads no body at all;
      anything after the body is ignored. None stands for input shorter than the
      fields it announces, which the original does not detect (its stream reads
      silently come up short). */
  function ParseFrame(buf: seq<byte>): (r: Option<Frame>)
    ensures r.Some? ==> r.value.totalBits < TWO_32 && |r.value.body| == BodySizeAsWritten(r.value.totalBits)
    ensures r.Some? && r.value.totalBits < TWO_32 - 7 ==> |r.value.body| == BodySize(r.value.totalBits)
    ensures r.Some? && r.value.totalBits >= TWO_32 - 7 ==> r.value.body == []
    ensures r.Some? ==> |r.value.name| < TWO_32
  {
    if |buf| < 4 then None
    else
      var nameSize := ReadUint32(buf[..4]);
      if |buf| < 4 + nameSize + 4 then None
      else
        var name := buf[4..4 + nameSize];
        var p := 4 + nameSize;
        var tableSize := ReadUint32(buf[p..p + 4]);
        var entries := ParseEntries(buf, p + 4, tableSize, map[]);
        if entries.None? then None
        else
          var q := p + 4 + 5 * tableSize;
          if |buf| < q + 4 then None
          else ReadBody(buf, q, name, entries.value)
  }

  /** The bit count at `q` and the body after it. */
  function ReadBody(buf: seq<byte>, q: nat, name: seq<byte>, table: Table): (r: Option<Frame>)
    requires q + 4 <= |buf|
    ensures r.Some? ==> r.value.totalBits < TWO_32 && |r.value.body| == BodySizeAsWritten(r.value.totalBits)
    ensures r.Some? ==> r.value.name == name && r.value.table == table
  {
    var totalBits := ReadUint32(buf[q..q + 4]);
    var size := BodySizeAsWritten(totalBits);
    if |buf| < q + 4 + size then None
    else Some(Frame(name, table, totalBits, buf[q + 4..q + 4 + size]))
  }

  /** The integers 0 .. n-1. */
  function Range(n: nat): (r: set<int>)
    ensures |r| == n
    ensures forall x :: x in r <==> 0 <= x < n
  {
    if n == 0 then {} else Range(n - 1) + {n - 1}
  }

  /** A table holds at most 256 entries. */
  lemma TableSizeBound(table: Table)
    ensures |table| <= 256
  {
    var all := Range(256);
    assert table.Keys <= all;
    SubsetSize(table.Keys, all);
  }

  lemma SubsetSize<T>(a: set<T>, b: set<T>)
    requires a <= b
    ensures |a| <= |b|
  {
    assert b == a + (b - a);
  }

  /** The entries a table leaves after `order` is stored into `acc` one by one. */
  function Stored(acc: Table, table: Table, order: seq<byte>): Table
    requires forall b :: b in order ==> b in table
  {
    acc + map k | k in order :: table[k]
  }

  /** Reading back written entries stores each listed byte's count. */
  lemma {:induction false} ParseWrittenEntries(pre: seq<byte>, table: Table, order: seq<byte>, rest: seq<byte>, acc: Table)
    requires forall b :: b in order ==> b in table && IsInt32(table[b])
    ensures ParseEntries(WriteEntries(pre, table, order) + rest, |pre|, |order|, acc) == Some(Stored(acc, table, order))
    decreases |order|
  {
    if |order| == 0 {
      assert Stored(acc, table, order) == acc;
    } else {
      var b := order[0];
      var next := AppendInt32(AppendToBuffer(pre, b, 1), table[b]);
      var buf := WriteEntries(pre, table, order) + rest;
      EntryReadBack(pre, b, table[b], next, WriteEntries(next, table, order[1..]), rest);
      ParseWrittenEntries(next, table, order[1..], rest, acc[b := table[b]]);
      StoredStep(acc, table, order);
    }
  }

  /** One written entry, seen from the buffer that contains it. */
  lemma EntryReadBack(pre: seq<byte>, b: byte, v: int, next: seq<byte>, written: seq<byte>, rest: seq<byte>)
    requires IsInt32(v)
    requires next == AppendInt32(AppendToBuffer(pre, b, 1), v)
    requires |next| <= |written| && written[..|next|] == next
    ensures |pre| + 5 <= |written + rest|
    ensures (written + rest)[|pre|] == b
    ensures ReadInt32((written + rest)[|pre| + 1..|pre| + 5]) == v
  {
    var withByte := AppendToBuffer(pre, b, 1);
    assert (written + rest)[|pre|] == written[..|next|][|pre|] == withByte[|pre|];
    assert (written + rest)[|pre| + 1..|pre| + 5] == next[|withByte|..];
  }

  lemma StoredStep(acc: Table, table: Table, order: seq<byte>)
    requires |order| > 0
    requires forall b :: b in order ==> b in table
    ensures Stored(acc[order[0] := table[order[0]]], table, order[1..]) == Stored(acc, table, order)
  {
    assert forall b :: b in order <==> b == order[0] || b in order[1..];
  }

  /** Parsing inverts writing: the reader takes the fields in the order and widths
      the writer puts them down, so it returns the name, the table (whatever order
      its entries were written in), the bit count and the body; bytes after the body
      are ignored. In the last seven 32-bit bit counts the reader's body size wraps
      to zero and the body written is not read back. */
  lemma ParseWritten(name: seq<byte>, table: Table, order: seq<byte>, body: seq<byte>, bits: nat, trailing: seq<byte>)
    requires EnumeratesKeys(order, table)
    requires CountsFitInt32(table)
    requires |name| < TWO_32 && bits < TWO_32
    requires |body| == BodySize(bits)
    ensures bits < TWO_32 - 7 ==>
      ParseFrame(WriteCompressedData(name, table, order, body, bits) + trailing) == Some(Frame(name, table, bits, body))
    ensures bits >= TWO_32 - 7 ==>
      ParseFrame(WriteCompressedData(name, table, order, body, bits) + trailing) == Some(Frame(name, table, bits, []))
  {
    WrittenFields(name, table, order, body, bits, trailing);
    ParseFields(WriteCompressedData(name, table, order, body, bits) + trailing, name, table, bits, body);
    assert body[..|body|] == body;
  }

  /** The fields of a frame sit where the reader looks for them. */
  predicate HasFields(buf: seq<byte>, name: seq<byte>, table: Table, bits: nat, body: seq<byte>) {
    var p := 4 + |name|;
    var q := p + 4 + 5 * |table|;
    && |buf| >= q + 4 + |body|
    && ReadUint32(buf[..4]) == |name|
    && buf[4..p] == name
    && ReadUint32(buf[p..p + 4]) == |table|
    && ParseEntries(buf, p + 4, |table|, map[]) == Some(table)
    && ReadUint32(buf[q..q + 4]) == bits
    && |body| == BodySize(bits)
    && buf[q + 4..q + 4 + |body|] == body
  }

  lemma ParseFields(buf: seq<byte>, name: seq<byte>, table: Table, bits: nat, body: seq<byte>)
    requires HasFields(buf, name, table, bits, body)
    ensures ParseFrame(buf) == Some(Frame(name, table, bits, body[..BodySizeAsWritten(bits)]))
  {
    var p := 4 + |name|;
    var q := p + 4 + 5 * |table|;
    HeaderRead(buf, name, table, p, q);
    BodyRead(buf, q, name, table, bits, body);
  }

  /** The name, the table size and the entries where the writer put them: the
      reader goes on to the bit count at `q`. */
  lemma HeaderRead(buf: seq<byte>, name: seq<byte>, table: Table, p: nat, q: nat)
    requires p == 4 + |name| && q == p + 4 + 5 * |table| && q + 4 <= |buf|
    requires ReadUint32(buf[..4]) == |name| && buf[4..p] == name
    requires ReadUint32(buf[p..p + 4]) == |table|
    requires ParseEntries(buf, p + 4, |table|, map[]) == Some(table)
    ensures ParseFrame(buf) == ReadBody(buf, q, name, table)
  {
  }

  /** The bit count and the body where the writer put them: the reader takes the
      first BodySizeAsWritten(bits) bytes of the body. */
  lemma BodyRead(buf: seq<byte>, q: nat, name: seq<byte>, table: Table, bits: nat, body: seq<byte>)
    requires q + 4 + |body| <= |buf|
    requires ReadUint32(buf[q..q + 4]) == bits && |body| == BodySize(bits)
    requires buf[q + 4..q + 4 + |body|] == body
    ensures ReadBody(buf, q, name, table) == Some(Frame(name, table, bits, body[..BodySizeAsWritten(bits)]))
  {
    var size := BodySizeAsWritten(bits);
    assert size <= |body|;
    assert buf[q + 4..q + 4 + size] == buf[q + 4..q + 4 + |body|][..size];
  }

  lemma WrittenFields(name: seq<byte>, table: Table, order: seq<byte>, body: seq<byte>, bits: nat, trailing: seq<byte>)
    requires EnumeratesKeys(order, table)
    requires CountsFitInt32(table)
    requires |name| < TWO_32 && bits < TWO_32
    requires |body| == BodySize(bits)
    ensures HasFields(WriteCompressedData(name, table, order, body, bits) + trailing, name, table, bits, body)
  {
    TableSizeBound(table);
    OrderLength(order, table);
    StoredAll(table, order);
    WriteLayout(name, table, order, body, bits);
    LaidOutFields(WriteCompressedData(name, table, order, body, bits), trailing, name, table, order, body, bits,
                  4 + |name|, 8 + |name| + 5 * |table|);
  }

  /** HasFields for any buffer laid out as WriteLayout describes, followed by
      arbitrary trailing bytes. */
  lemma LaidOutFields(w: seq<byte>, trailing: seq<byte>, name: seq<byte>, table: Table, order: seq<byte>, body: seq<byte>, bits: nat, p: nat, q: nat)
    requires forall b :: b in order ==> b in table && IsInt32(table[b])
    requires |order| == |table| <= 256 && Stored(map[], table, order) == table
    requires |name| < TWO_32 && bits < TWO_32
    requires |body| == BodySize(bits)
    requires p == 4 + |name| && q == p + 4 + 5 * |table|
    requires |w| == q + 4 + |body|
    requires ReadUint32(w[..4]) == Truncate32(|name|)
    requires w[4..p] == name
    requires ReadUint32(w[p..p + 4]) == Truncate32(|table|)
    requires w[..q] == WriteEntries(w[..p + 4], table, order)
    requires ReadUint32(w[q..q + 4]) == Truncate32(bits)
    requires w[q + 4..] == body
    ensures HasFields(w + trailing, name, table, bits, body)
  {
    var buf := w + trailing;
    FirstField(w, trailing, Truncate32(|name|));
    PrefixSlice(w, trailing, 4, p);
    assert buf[4..p] == name;
    FieldAt(w, trailing, p, Truncate32(|table|));
    FieldAt(w, trailing, q, Truncate32(bits));
    PrefixSlice(w, trailing, q + 4, |w|);
    assert buf[q + 4..q + 4 + |body|] == body;
    EntriesOfWrite(w, trailing, table, order, p + 4);
    assert ParseEntries(buf, p + 4, |table|, map[]) == Some(table);
    FieldsIntro(buf, name, table, bits, body, p, q);
  }

  lemma FieldsIntro(buf: seq<byte>, name: seq<byte>, table: Table, bits: nat, body: seq<byte>, p: nat, q: nat)
    requires p == 4 + |name| && q == p + 4 + 5 * |table|
    requires |buf| >= q + 4 + |body|
    requires ReadUint32(buf[..4]) == |name| && buf[4..p] == name
    requires ReadUint32(buf[p..p + 4]) == |table|
    requires ParseEntries(buf, p + 4, |table|, map[]) == Some(table)
    requires ReadUint32(buf[q..q + 4]) == bits && |body| == BodySize(bits)
    requires buf[q + 4..q + 4 + |body|] == body
    ensures HasFields(buf, name, table, bits, body)
  {
  }

  lemma OrderLength(order: seq<byte>, table: Table)
    requires EnumeratesKeys(order, table)
    ensures |order| == |table|
  {
    assert |order| == |multiset(order)| == |multiset(table.Keys)| == |table|;
  }

  /** Storing every key of the table, in any order, rebuilds the table. */
  lemma StoredAll(table: Table, order: seq<byte>)
    requires EnumeratesKeys(order, table)
    ensures Stored(map[], table, order) == table
  {
    forall k ensures k in table <==> k in order {
      assert k in table <==> k in multiset(table.Keys);
    }
  }

  /** A 32-bit field of a buffer reads the same with bytes appended. */
  lemma FieldAt(w: seq<byte>, trailing: seq<byte>, i: nat, v: nat)
    requires i + 4 <= |w| && ReadUint32(w[i..i + 4]) == v
    ensures ReadUint32((w + trailing)[i..i + 4]) == v
  {
    assert (w + trailing)[i..i + 4] == w[i..i + 4];
  }

  lemma FirstField(w: seq<byte>, trailing: seq<byte>, v: nat)
    requires 4 <= |w| && ReadUint32(w[..4]) == v
    ensures ReadUint32((w + trailing)[..4]) == v
  {
    assert (w + trailing)[..4] == w[..4];
  }

  lemma PrefixSlice(w: seq<byte>, trailing: seq<byte>, i: nat, j: nat)
    requires i <= j <= |w|
    ensures (w + trailing)[i..j] == w[i..j]
  {
  }

  /** The entries of a written buffer, read back from inside a longer one. */
  lemma EntriesOfWrite(w: seq<byte>, trailing: seq<byte>, table: Table, order: seq<byte>, start: nat)
    requires forall b :: b in order ==> b in table && IsInt32(table[b])
    requires start + 5 * |order| <= |w|
    requires w[..start + 5 * |order|] == WriteEntries(w[..start], table, order)
    ensures ParseEntries(w + trailing, start, |order|, map[]) == Some(Stored(map[], table, order))
  {
    var rest := w[start + 5 * |order|..] + trailing;
    assert w + trailing == WriteEntries(w[..start], table, order) + rest;
    ParseWrittenEntries(w[..start], table, order, rest, map[]);
  }
}
