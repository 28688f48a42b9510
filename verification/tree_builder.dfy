/** `buildHuffmanTree`: seed a min-priority queue with one leaf per table entry in
    ascending byte order, then repeatedly merge the two lowest-frequency nodes.

    The original's `std::priority_queue` does not say which of several nodes of equal
    frequency comes out first. This model fixes one rule: the queue is a sequence in
    insertion order and extraction takes the EARLIEST node of least frequency, so among
    equal frequencies leaves leave in ascending byte order, before any merged node,
    and merged nodes leave in the order they were made. Since the seeding order is a
    function of the table alone, so is the tree. */
module TreeBuilder {
  import opened Results
  import opened Bytes
  import opened HuffmanTree
  import opened FrequencyTable

  /** The byte values of all leaves of a queue of trees. */
  function ForestSyms(q: seq<Tree>): multiset<byte>
  {
    if |q| == 0 then multiset{} else LeafSyms(q[0]) + ForestSyms(q[1..])
  }

  /** The total frequency of a queue of trees. */
  function ForestFreq(q: seq<Tree>): int
  {
    if |q| == 0 then 0 else q[0].freq + ForestFreq(q[1..])
  }

  lemma {:induction false} ForestConcat(a: seq<Tree>, c: seq<Tree>)
    ensures ForestSyms(a + c) == ForestSyms(a) + ForestSyms(c)
    ensures ForestFreq(a + c) == ForestFreq(a) + ForestFreq(c)
    decreases |a|
  {
    if |a| == 0 {
      assert a + c == c;
    } else {
      assert (a + c)[1..] == a[1..] + c;
      ForestConcat(a[1..], c);
    }
  }

  lemma ForestCons(t: Tree, q: seq<Tree>)
    ensures ForestSyms([t] + q) == LeafSyms(t) + ForestSyms(q)
    ensures ForestFreq([t] + q) == t.freq + ForestFreq(q)
  {
    assert ([t] + q)[1..] == q;
  }

  /** The entries of the table whose byte is at least `from`. */
  function KeysFrom(m: Table, from: int): (r: set<byte>)
    requires 0 <= from <= 256
    ensures forall k :: k in r <==> k in m && from <= k
    decreases 256 - from
  {
    if from == 256 then {}
    else if from in m then {from as byte} + KeysFrom(m, from + 1)
    else KeysFrom(m, from + 1)
  }

  /** Leaves for the entries whose byte is at least `from`, in ascending byte order:
      the traversal of the sorted `std::map` copy of the table. */
  function SeedFrom(m: Table, from: int): (q: seq<Tree>)
    requires 0 <= from <= 256
    ensures |q| <= 256 - from
    decreases 256 - from
  {
    if from == 256 then []
    else if from in m then [Leaf(from, m[from])] + SeedFrom(m, from + 1)
    else SeedFrom(m, from + 1)
  }

  /** Leaves of the table at or above `from`, each with its count, strictly
      ascending by byte. */
  predicate SortedLeaves(m: Table, from: int, q: seq<Tree>)
  {
    && (forall i :: 0 <= i < |q| ==> q[i].Leaf? && from <= q[i].sym && q[i].sym in m && m[q[i].sym] == q[i].freq)
    && (forall i, j :: 0 <= i < j < |q| ==> q[i].Leaf? && q[j].Leaf? && q[i].sym < q[j].sym)
  }

  /** The seed from `from` holds one leaf per entry at or above `from`, carrying
      its count, strictly ascending by byte. */
  lemma {:induction false} SeedFromOrdered(m: Table, from: int)
    requires 0 <= from <= 256
    ensures SortedLeaves(m, from, SeedFrom(m, from))
    decreases 256 - from
  {
    if from < 256 {
      var rest := SeedFrom(m, from + 1);
      SeedFromOrdered(m, from + 1);
      if from in m {
        var q := [Leaf(from, m[from])] + rest;
        assert SeedFrom(m, from) == q;
        forall i | 0 <= i < |q|
          ensures q[i].Leaf? && from <= q[i].sym && q[i].sym in m && m[q[i].sym] == q[i].freq
        {
          if i > 0 {
            assert q[i] == rest[i - 1];
          }
        }
        forall i, j | 0 <= i < j < |q| ensures q[i].Leaf? && q[j].Leaf? && q[i].sym < q[j].sym {
          assert q[j] == rest[j - 1];
          if i > 0 {
            assert q[i] == rest[i - 1];
          }
        }
      } else {
        assert SeedFrom(m, from) == rest;
      }
    }
  }

  /** The seed from `from` holds exactly the bytes at or above `from`. */
  lemma {:induction false} SeedFromSyms(m: Table, from: int)
    requires 0 <= from <= 256
    ensures ForestSyms(SeedFrom(m, from)) == multiset(KeysFrom(m, from))
    decreases 256 - from
  {
    if from < 256 {
      var rest := SeedFrom(m, from + 1);
      SeedFromSyms(m, from + 1);
      if from in m {
        assert SeedFrom(m, from) == [Leaf(from, m[from])] + rest;
        ForestCons(Leaf(from, m[from]), rest);
        KeysFromStep(m, from);
      } else {
        assert SeedFrom(m, from) == rest;
        assert KeysFrom(m, from) == KeysFrom(m, from + 1);
      }
    }
  }

  lemma KeysFromStep(m: Table, from: int)
    requires 0 <= from < 256 && from in m
    ensures multiset(KeysFrom(m, from)) == multiset{from as byte} + multiset(KeysFrom(m, from + 1))
  {
    var k: byte := from;
    var rest := KeysFrom(m, from + 1);
    assert KeysFrom(m, from) == {k} + rest;
    assert k !in rest;
    forall x ensures multiset({k} + rest)[x] == (multiset{k} + multiset(rest))[x] {
      if x == k {
        assert x !in rest;
      }
    }
  }

  /** The seed's frequencies add up to the counts of the bytes at or above `from`. */
  lemma {:induction false} SeedFromFreq(m: Table, from: int)
    requires 0 <= from <= 256
    ensures ForestFreq(SeedFrom(m, from)) == SumFrom(m, from)
    decreases 256 - from
  {
    if from < 256 {
      var rest := SeedFrom(m, from + 1);
      SeedFromFreq(m, from + 1);
      if from in m {
        ForestCons(Leaf(from, m[from]), rest);
      }
    }
  }

  /** The initial queue: every table entry as a leaf, ascending by byte. */
  function Seed(m: Table): (q: seq<Tree>)
    ensures ForestSyms(q) == multiset(m.Keys)
    ensures ForestFreq(q) == TableTotal(m)
    ensures |q| <= 256
    ensures forall t :: t in q ==> t.Leaf? && t.sym in m && m[t.sym] == t.freq
  {
    assert KeysFrom(m, 0) == m.Keys;
    SeedFromOrdered(m, 0);
    SeedFromSyms(m, 0);
    SeedFromFreq(m, 0);
    SeedFrom(m, 0)
  }

  /** A queue of leaves drawn from the table, at or above `from`, strictly ascending
      by byte and covering every such entry. */
  predicate AscendingEnumeration(m: Table, from: int, q: seq<Tree>)
  {
    && SortedLeaves(m, from, q)
    && (forall k :: k in m && from <= k ==> Leaf(k, m[k]) in q)
  }

  /** When `from` is not a key, an enumeration from `from` is one from `from + 1`. */
  lemma EnumerationSkip(m: Table, from: int, q: seq<Tree>)
    requires 0 <= from < 256 && from !in m
    requires AscendingEnumeration(m, from, q)
    ensures AscendingEnumeration(m, from + 1, q)
  {
    forall i | 0 <= i < |q| ensures from + 1 <= q[i].sym {
      assert q[i].sym != from;
    }
  }

  /** An enumeration from `from` that contains `from` starts with it. */
  lemma EnumerationHead(m: Table, from: int, q: seq<Tree>)
    requires 0 <= from < 256 && from in m
    requires AscendingEnumeration(m, from, q)
    ensures |q| > 0 && q[0] == Leaf(from, m[from])
  {
    var i :| 0 <= i < |q| && q[i] == Leaf(from, m[from]);
    assert forall j :: 0 <= j < |q| ==> q[0].sym <= q[j].sym;
    assert q[0].sym <= q[i].sym;
  }

  /** Dropping the entry for `from` itself leaves an enumeration from `from + 1`. */
  lemma EnumerationRest(m: Table, from: int, q: seq<Tree>)
    requires 0 <= from < 256 && from in m
    requires AscendingEnumeration(m, from, q)
    requires |q| > 0 && q[0] == Leaf(from, m[from])
    ensures AscendingEnumeration(m, from + 1, q[1..])
  {
    forall k | k in m && from + 1 <= k ensures Leaf(k, m[k]) in q[1..] {
      var j :| 0 <= j < |q| && q[j] == Leaf(k, m[k]);
      assert q[1..][j - 1] == q[j];
    }
    forall i | 0 <= i < |q[1..]| ensures from + 1 <= q[1..][i].sym {
      assert q[0].sym < q[i + 1].sym;
    }
  }

  /** Any ascending enumeration of the table's entries is the seed queue: the order
      leaves enter the queue is fixed by the table's contents, whatever order its
      entries were produced in. */
  lemma {:induction false} AscendingEnumerationIsSeed(m: Table, from: int, q: seq<Tree>)
    requires 0 <= from <= 256
    requires AscendingEnumeration(m, from, q)
    ensures q == SeedFrom(m, from)
    decreases 256 - from
  {
    if from == 256 {
      EnumerationAtEnd(m, q);
    } else {
      SeedFromStep(m, from);
      if from in m {
        EnumerationHead(m, from, q);
        EnumerationRest(m, from, q);
        AscendingEnumerationIsSeed(m, from + 1, q[1..]);
        HeadTail(q);
      } else {
        EnumerationSkip(m, from, q);
        AscendingEnumerationIsSeed(m, from + 1, q);
      }
    }
  }

  lemma HeadTail(q: seq<Tree>)
    requires |q| > 0
    ensures q == [q[0]] + q[1..]
  {
  }

  /** A strictly ascending run of leaves with bytes at or above `from` has at most
      256 - from elements. */
  lemma {:induction false} AscendingLength(q: seq<Tree>, from: int)
    requires 0 <= from <= 256
    requires forall i :: 0 <= i < |q| ==> q[i].Leaf? && from <= q[i].sym
    requires forall i, j :: 0 <= i < j < |q| ==> q[i].Leaf? && q[j].Leaf? && q[i].sym < q[j].sym
    ensures |q| <= 256 - from
    decreases |q|
  {
    if |q| > 0 {
      var next := q[0].sym + 1;
      forall i | 0 <= i < |q[1..]| ensures next <= q[1..][i].sym {
        assert q[0].sym < q[i + 1].sym;
      }
      AscendingLength(q[1..], next);
    }
  }

  lemma EnumerationAtEnd(m: Table, q: seq<Tree>)
    requires AscendingEnumeration(m, 256, q)
    ensures q == SeedFrom(m, 256)
  {
    AscendingLength(q, 256);
  }

  lemma SeedFromStep(m: Table, from: int)
    requires 0 <= from < 256
    ensures from in m ==> SeedFrom(m, from) == [Leaf(from, m[from])] + SeedFrom(m, from + 1)
    ensures from !in m ==> SeedFrom(m, from) == SeedFrom(m, from + 1)
  {
  }

  /** The position of the node `top()` returns: one of least frequency, and among
      those the earliest inserted. */
  function MinIndex(q: seq<Tree>): (i: nat)
    requires |q| > 0
    ensures i < |q|
    ensures forall j :: 0 <= j < |q| ==> q[i].freq <= q[j].freq
    ensures forall j :: 0 <= j < i ==> q[j].freq > q[i].freq
  {
    if |q| == 1 then 0
    else
      var k := MinIndex(q[..|q| - 1]);
      if q[|q| - 1].freq < q[k].freq then |q| - 1 else k
  }

  /** `top()` then `pop()`: the highest-priority node and the queue without it.
      The nodes left keep their insertion order, which decides later ties. */
  function PopMin(q: seq<Tree>): (r: (Tree, seq<Tree>))
    requires |q| > 0
    ensures r.0 == q[MinIndex(q)] && r.1 == q[..MinIndex(q)] + q[MinIndex(q) + 1..]
    ensures r.0 in q && |r.1| == |q| - 1
    ensures forall t :: t in r.1 ==> t in q
    ensures forall t :: t in q ==> !HuffmanCompare(r.0, t)
    ensures multiset(q) == multiset(r.1) + multiset{r.0}
    ensures ForestSyms(q) == LeafSyms(r.0) + ForestSyms(r.1)
    ensures ForestFreq(q) == r.0.freq + ForestFreq(r.1)
  {
    var i := MinIndex(q);
    RemoveAt(q, i);
    (q[i], q[..i] + q[i + 1..])
  }

  /** Taking one element out of a queue keeps everything else. */
  lemma RemoveAt(q: seq<Tree>, i: nat)
    requires i < |q|
    ensures var rest := q[..i] + q[i + 1..];
      && |rest| == |q| - 1
      && (forall t :: t in rest ==> t in q)
      && multiset(q) == multiset(rest) + multiset{q[i]}
      && ForestSyms(q) == LeafSyms(q[i]) + ForestSyms(rest)
      && ForestFreq(q) == q[i].freq + ForestFreq(rest)
  {
    assert q == q[..i] + [q[i]] + q[i + 1..];
    ForestConcat(q[..i] + [q[i]], q[i + 1..]);
    ForestConcat(q[..i], [q[i]]);
    ForestConcat(q[..i], q[i + 1..]);
    assert ForestSyms([q[i]]) == LeafSyms(q[i]);
    assert ForestFreq([q[i]]) == q[i].freq;
  }

  /** One round of the merge loop: pop two nodes, the first becomes the left child
      and the second the right child of a node with the summed frequency, which is
      pushed back. */
  function MergeStep(q: seq<Tree>): (r: seq<Tree>)
    requires |q| >= 2
    ensures |r| == |q| - 1
    ensures ForestSyms(r) == ForestSyms(q)
    ensures ForestFreq(r) == ForestFreq(q)
    ensures forall t :: t in r ==> t in q || (t.Node? && t.left in q && t.right in q && t.freq == t.left.freq + t.right.freq)
  {
    var p1 := PopMin(q);
    var a := p1.0;
    var q1 := p1.1;
    var p2 := PopMin(q1);
    var b := p2.0;
    var q2 := p2.1;
    var n := Node(a.freq + b.freq, a, b);
    assert ForestSyms(q) == LeafSyms(n) + ForestSyms(q2);
    assert ForestFreq(q) == n.freq + ForestFreq(q2);
    assert a in q && b in q && forall t :: t in q2 ==> t in q;
    AppendTree(q2, n);
    q2 + [n]
  }

  lemma AppendTree(q: seq<Tree>, n: Tree)
    ensures ForestSyms(q + [n]) == ForestSyms(q) + LeafSyms(n)
    ensures ForestFreq(q + [n]) == ForestFreq(q) + n.freq
    ensures forall t :: t in q + [n] ==> t in q || t == n
  {
    ForestConcat(q, [n]);
    assert ForestSyms([n]) == LeafSyms(n);
    assert ForestFreq([n]) == n.freq;
  }

  /** The node a merge round pushes combines the two highest-priority nodes: the
      first popped (left) has least frequency in the queue, the second (right) least
      frequency among the rest. */
  lemma MergeTakesTwoLowest(q: seq<Tree>)
    requires |q| >= 2
    ensures var n := MergeStep(q)[|q| - 2];
      && n.Node?
      && (forall t :: t in q ==> !HuffmanCompare(n.left, t))
      && (forall t :: t in q && t != n.left ==> !HuffmanCompare(n.right, t))
  {
    var (a, q1) := PopMin(q);
    var (b, q2) := PopMin(q1);
    assert MergeStep(q)[|q| - 2] == Node(a.freq + b.freq, a, b);
    forall t | t in q && t != a ensures t in q1 {
      assert multiset(q)[t] == multiset(q1)[t] + multiset{a}[t];
    }
  }

  /** The merge loop (`while (min_heap.size() > 1)`) followed by the empty check. */
  function BuildFromQueue(q: seq<Tree>): (r: Result<Tree, Error>)
    ensures r.Failure? <==> |q| == 0
    ensures r.Failure? ==> r.error == EmptyTable
    ensures r.Success? ==> LeafSyms(r.value) == ForestSyms(q) && r.value.freq == ForestFreq(q)
    ensures r.Success? && (forall t :: t in q ==> WellFormed(t)) ==> WellFormed(r.value)
    decreases |q|
  {
    if |q| > 1 then
      var q' := MergeStep(q);
      assert (forall t :: t in q ==> WellFormed(t)) ==> (forall t :: t in q' ==> WellFormed(t));
      BuildFromQueue(q')
    else if |q| == 0 then
      Failure(EmptyTable)
    else
      assert ForestSyms(q) == LeafSyms(q[0]);
      Success(q[0])
  }

  /** Merging never changes a leaf: if every queued leaf agrees with the table, so does
      every leaf of the built tree. */
  lemma {:induction false} BuildKeepsLeafCounts(q: seq<Tree>, table: Table)
    requires forall t :: t in q ==> LeavesAgree(t, table)
    ensures BuildFromQueue(q).Success? ==> LeavesAgree(BuildFromQueue(q).value, table)
    decreases |q|
  {
    if |q| > 1 {
      BuildKeepsLeafCounts(MergeStep(q), table);
    }
  }

  lemma SeedEmptyIff(m: Table)
    ensures |Seed(m)| == 0 <==> |m| == 0
  {
    var q := Seed(m);
    if |q| > 0 {
      LeafSymsNonEmpty(q[0]);
      ForestConcat([q[0]], q[1..]);
      assert q == [q[0]] + q[1..];
    } else {
      assert multiset(m.Keys) == multiset{};
      assert forall k :: k !in m.Keys by {
        forall k ensures k !in m.Keys {
          assert multiset(m.Keys)[k] == 0;
        }
      }
      assert m.Keys == {};
    }
  }

  /** `buildHuffmanTree(table)`: fails exactly on the empty table; otherwise the
      leaves are the table's entries, each byte once with its count, each internal
      node's frequency is the sum of its children's, and the root carries the total. */
  function BuildHuffmanTree(table: Table): (r: Result<Tree, Error>)
    ensures r.Failure? <==> |table| == 0
    ensures r.Failure? ==> r.error == EmptyTable
    ensures r.Success? ==> WellFormed(r.value) && LeavesAgree(r.value, table)
    ensures r.Success? ==> LeafSyms(r.value) == multiset(table.Keys) && UniqueLeaves(r.value)
    ensures r.Success? ==> r.value.freq == TableTotal(table)
    ensures r.Success? ==> (r.value.Leaf? <==> |table| == 1)
  {
    var q := Seed(table);
    BuildKeepsLeafCounts(q, table);
    SeedEmptyIff(table);
    var r := BuildFromQueue(q);
    if r.Success? then
      LeafSymsNonEmpty(r.value);
      assert |multiset(table.Keys)| == |table|;
      r
    else
      r
  }
}
