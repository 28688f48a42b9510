/** `buildFrequencyTable`: how often each byte value occurs in the input. */
module FrequencyTable {
  import opened Bytes

  /** The frequency table: byte value to count (`int` in the original). */
  type Table = map<byte, int>

  /** One pass over the input, incrementing the entry of each byte in turn
      (`frequencyTable[byte]++`, where a missing entry starts at 0). */
  function BuildFrequencyTable(data: seq<byte>): (m: Table)
    ensures forall b :: b in m <==> b in data
    ensures forall b :: b in m ==> m[b] == multiset(data)[b] && m[b] >= 1
    decreases |data|
  {
    if |data| == 0 then map[]
    else
      var init := data[..|data| - 1];
      var last := data[|data| - 1];
      assert data == init + [last];
      var m := BuildFrequencyTable(init);
      m[last := (if last in m then m[last] else 0) + 1]
  }

  /** The count a table gives a byte, 0 when it has no entry. */
  function CountOf(m: Table, b: byte): int {
    if b in m then m[b] else 0
  }

  /** The sum of the counts of all entries whose byte is at least `from`. */
  function SumFrom(m: Table, from: int): int
    requires 0 <= from <= 256
    decreases 256 - from
  {
    if from == 256 then 0 else CountOf(m, from) + SumFrom(m, from + 1)
  }

  /** The sum of all the counts in a table. */
  function TableTotal(m: Table): int {
    SumFrom(m, 0)
  }

  /** Changing one entry changes the sum by the difference. */
  lemma {:induction false} SumFromUpdate(m: Table, k: byte, v: int, from: int)
    requires 0 <= from <= 256
    ensures SumFrom(m[k := v], from) == SumFrom(m, from) + (if from <= k then v - CountOf(m, k) else 0)
    decreases 256 - from
  {
    if from < 256 {
      SumFromUpdate(m, k, v, from + 1);
    }
  }

  lemma {:induction false} SumFromEmpty(from: int)
    requires 0 <= from <= 256
    ensures SumFrom(map[], from) == 0
    decreases 256 - from
  {
    if from < 256 {
      SumFromEmpty(from + 1);
    }
  }

  /** The counts sum to the input length. */
  lemma {:induction false} CountsSumToLength(data: seq<byte>)
    ensures TableTotal(BuildFrequencyTable(data)) == |data|
    decreases |data|
  {
    if |data| > 0 {
      var init := data[..|data| - 1];
      var last := data[|data| - 1];
      var m := BuildFrequencyTable(init);
      var c := CountOf(m, last);
      assert BuildFrequencyTable(data) == m[last := c + 1];
      CountsSumToLength(init);
      SumFromUpdate(m, last, c + 1, 0);
    } else {
      SumFromEmpty(0);
    }
  }

  /** No count of a table built from fewer than 2^31 bytes overflows an `int`. */
  lemma CountsAreInt32(data: seq<byte>)
    requires |data| < TWO_31
    ensures forall b :: b in BuildFrequencyTable(data) ==> IsInt32(BuildFrequencyTable(data)[b])
  {
    var m := BuildFrequencyTable(data);
    forall b | b in m ensures IsInt32(m[b]) {
      assert multiset(data)[b] <= |multiset(data)|;
    }
  }
}
