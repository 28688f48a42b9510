/** The `HuffmanNode` of the compressor header as an immutable tree, and the
    `HuffmanCompare` ordering the priority queue uses. A leaf carries a byte and its
    frequency and has no children; an internal node carries a frequency and exactly
    two children (the original leaves its byte field 0, which nothing reads). */
module HuffmanTree {
  import opened Results
  import opened Bytes

  datatype Tree = Leaf(sym: byte, freq: int) | Node(freq: int, left: Tree, right: Tree)

  /** `HuffmanCompare(a, b)`: `a` is extracted after `b`, i.e. a's frequency is larger.
      The byte value plays no part. */
  predicate HuffmanCompare(a: Tree, b: Tree) {
    a.freq > b.freq
  }

  /** The comparator is a strict weak ordering that ignores the byte: irreflexive,
      transitive, and incomparability (equal frequency) is an equivalence. */
  lemma CompareIsStrictWeakOrder(a: Tree, b: Tree, c: Tree)
    ensures !HuffmanCompare(a, a)
    ensures HuffmanCompare(a, b) && HuffmanCompare(b, c) ==> HuffmanCompare(a, c)
    ensures HuffmanCompare(a, b) ==> !HuffmanCompare(b, a)
    ensures !HuffmanCompare(a, b) && !HuffmanCompare(b, a) <==> a.freq == b.freq
    ensures a.freq == b.freq && !HuffmanCompare(b, c) && !HuffmanCompare(c, b) ==> !HuffmanCompare(a, c) && !HuffmanCompare(c, a)
  {
  }

  /** The byte values at the leaves, with multiplicity. */
  function LeafSyms(t: Tree): multiset<byte>
  {
    match t
    case Leaf(b, _) => multiset{b}
    case Node(_, l, r) => LeafSyms(l) + LeafSyms(r)
  }

  /** Every internal node's frequency is the sum of its children's. */
  predicate WellFormed(t: Tree)
  {
    match t
    case Leaf(_, _) => true
    case Node(f, l, r) => f == l.freq + r.freq && WellFormed(l) && WellFormed(r)
  }

  /** Every leaf's frequency is the table's count for its byte. */
  predicate LeavesAgree(t: Tree, table: map<byte, int>)
  {
    match t
    case Leaf(b, f) => b in table && table[b] == f
    case Node(_, l, r) => LeavesAgree(l, table) && LeavesAgree(r, table)
  }

  /** No byte labels two leaves. */
  predicate UniqueLeaves(t: Tree)
  {
    forall b | b in LeafSyms(t) :: LeafSyms(t)[b] == 1
  }

  /** One decoder step from an internal node: `false` (0) goes left, `true` (1) right. */
  function Child(t: Tree, bit: bool): (c: Tree)
    requires t.Node?
    ensures c < t
  {
    if bit then t.right else t.left
  }

  /** The node a bit path leads to from `t`, or None when the path runs past a leaf. */
  function Follow(t: Tree, path: seq<bool>): Option<Tree>
    decreases |path|
  {
    if |path| == 0 then Some(t)
    else if t.Leaf? then None
    else Follow(Child(t, path[0]), path[1..])
  }

  /** The path `p` leads from `t` to a leaf labelled `b`. */
  predicate Reaches(t: Tree, p: seq<bool>, b: byte)
  {
    var n := Follow(t, p);
    n.Some? && n.value.Leaf? && n.value.sym == b
  }

  /** Every tree has a leaf, and a tree with children has at least two. */
  lemma {:induction false} LeafSymsNonEmpty(t: Tree)
    ensures |LeafSyms(t)| >= 1
    ensures t.Node? ==> |LeafSyms(t)| >= 2
  {
    match t
    case Leaf(_, _) =>
    case Node(_, l, r) => LeafSymsNonEmpty(l); LeafSymsNonEmpty(r);
  }

  lemma UniqueLeavesChildren(t: Tree)
    requires t.Node? && UniqueLeaves(t)
    ensures UniqueLeaves(t.left) && UniqueLeaves(t.right)
    ensures forall b :: b in LeafSyms(t.left) ==> b !in LeafSyms(t.right)
  {
    forall b ensures LeafSyms(t.left)[b] <= 1 && LeafSyms(t.right)[b] <= 1 {
      assert LeafSyms(t)[b] == LeafSyms(t.left)[b] + LeafSyms(t.right)[b];
    }
    forall b | b in LeafSyms(t.left) ensures b !in LeafSyms(t.right) {
      assert LeafSyms(t)[b] == LeafSyms(t.left)[b] + LeafSyms(t.right)[b];
    }
  }

  /** Following `a` and then `c` is following `a + c`. */
  lemma {:induction false} FollowAppend(t: Tree, a: seq<bool>, c: seq<bool>)
    requires Follow(t, a).Some?
    ensures Follow(t, a + c) == Follow(Follow(t, a).value, c)
    decreases |a|
  {
    if |a| == 0 {
      assert a + c == c;
    } else {
      assert (a + c)[1..] == a[1..] + c;
      FollowAppend(Child(t, a[0]), a[1..], c);
    }
  }

  /** A leaf reached by a path belongs to the tree's leaves. */
  lemma {:induction false} ReachedLeafInTree(t: Tree, p: seq<bool>, b: byte)
    requires Reaches(t, p, b)
    ensures b in LeafSyms(t)
    decreases |p|
  {
    if |p| > 0 {
      ReachedLeafInTree(Child(t, p[0]), p[1..], b);
    }
  }
}
