/** `generateHuffmanCodes`: a depth-first walk that records, at each leaf, the path
    taken from the root, 0 (`false`) for a left step and 1 (`true`) for a right step. */
module CodeGenerator {
  import opened Results
  import opened Bytes
  import opened HuffmanTree

  /** The code map: byte value to its bit string. */
  type Codes = map<byte, seq<bool>>

  /** The walk from `t` with the bits `code` already on the path. A leaf stores the
      path so far; the left subtree is walked before the right, so when two leaves
      carry the same byte the right one's path is the one kept. */
  function GenerateHuffmanCodes(t: Tree, code: seq<bool>): (c: Codes)
    ensures forall b :: b in c <==> b in LeafSyms(t)
    ensures forall b :: b in c ==> code <= c[b]
    ensures t.Node? ==> forall b :: b in c ==> |c[b]| > |code|
    ensures t.Leaf? ==> c[t.sym] == code
  {
    match t
    case Leaf(b, _) => map[b := code]
    case Node(_, lt, rt) =>
      var cl := GenerateHuffmanCodes(lt, code + [false]);
      var cr := GenerateHuffmanCodes(rt, code + [true]);
      ExtendedPrefix(cl, code, false);
      ExtendedPrefix(cr, code, true);
      cl + cr
  }

  /** Codes that extend `code + [bit]` extend `code`. */
  lemma ExtendedPrefix(c: Codes, code: seq<bool>, bit: bool)
    requires forall b :: b in c ==> code + [bit] <= c[b]
    ensures forall b :: b in c ==> code <= c[b]
  {
    forall b | b in c ensures code <= c[b] {
      assert c[b][..|code|] == (code + [bit])[..|code|];
    }
  }

  /** The codes of the whole tree, as `compress` requests them (empty starting path). */
  function CodesOf(t: Tree): Codes {
    GenerateHuffmanCodes(t, [])
  }

  /** Each recorded code is the prefix followed by a root-to-leaf path for its byte. */
  lemma {:induction false} CodesArePaths(t: Tree, code: seq<bool>, b: byte)
    requires b in GenerateHuffmanCodes(t, code)
    ensures Reaches(t, GenerateHuffmanCodes(t, code)[b][|code|..], b)
  {
    var c := GenerateHuffmanCodes(t, code);
    match t
    case Leaf(_, _) =>
      assert c[b][|code|..] == [];
    case Node(_, lt, rt) =>
      var bit := b in GenerateHuffmanCodes(rt, code + [true]);
      KeptCode(t, code, b);
      CodesArePaths(Child(t, bit), code + [bit], b);
      StepInto(t, code, bit, c[b]);
  }

  /** The code map of a node is the union of its children's, the right one winning
      on a byte both contain. */
  lemma KeptCode(t: Tree, code: seq<bool>, b: byte)
    requires t.Node? && b in GenerateHuffmanCodes(t, code)
    ensures var bit := b in GenerateHuffmanCodes(t.right, code + [true]);
      && b in GenerateHuffmanCodes(Child(t, bit), code + [bit])
      && GenerateHuffmanCodes(t, code)[b] == GenerateHuffmanCodes(Child(t, bit), code + [bit])[b]
  {
  }

  /** Following a string that extends `code + [bit]`, past `code`, is taking the
      `bit` step and following the rest. */
  lemma StepInto(t: Tree, code: seq<bool>, bit: bool, s: seq<bool>)
    requires t.Node? && code + [bit] <= s
    ensures Follow(t, s[|code|..]) == Follow(Child(t, bit), s[|code| + 1..])
  {
    assert s[|code|] == (code + [bit])[|code|] == bit;
    assert s[|code|..][1..] == s[|code| + 1..];
  }

  /** Conversely, when no byte labels two leaves, every root-to-leaf path is the
      recorded code of its leaf's byte. */
  lemma {:induction false} PathsAreCodes(t: Tree, code: seq<bool>, p: seq<bool>, b: byte)
    requires UniqueLeaves(t)
    requires Reaches(t, p, b)
    ensures b in GenerateHuffmanCodes(t, code)
    ensures GenerateHuffmanCodes(t, code)[b] == code + p
    decreases |p|
  {
    ReachedLeafInTree(t, p, b);
    if |p| == 0 {
      assert p + [] == p;
    } else {
      var child := Child(t, p[0]);
      ReachedLeafInTree(child, p[1..], b);
      CodeFromSide(t, code, p[0], b);
      UniqueLeavesChildren(t);
      PathsAreCodes(child, code + [p[0]], p[1..], b);
      ExtendByHead(code, p);
    }
  }

  lemma ExtendByHead(code: seq<bool>, p: seq<bool>)
    requires |p| > 0
    ensures code + [p[0]] + p[1..] == code + p
  {
    assert p == [p[0]] + p[1..];
  }

  /** In a tree with no repeated byte, a byte's code is the one its side of the
      tree records. */
  lemma CodeFromSide(t: Tree, code: seq<bool>, bit: bool, b: byte)
    requires t.Node? && UniqueLeaves(t)
    requires b in LeafSyms(Child(t, bit))
    ensures b in GenerateHuffmanCodes(t, code)
    ensures GenerateHuffmanCodes(t, code)[b] == GenerateHuffmanCodes(Child(t, bit), code + [bit])[b]
  {
    UniqueLeavesChildren(t);
    var cl := GenerateHuffmanCodes(t.left, code + [false]);
    var cr := GenerateHuffmanCodes(t.right, code + [true]);
    assert GenerateHuffmanCodes(t, code) == cl + cr;
    if !bit {
      assert b !in cr;
    }
  }

  /** Two bytes whose codes are prefix-related are the same byte. */
  lemma PrefixMeansSameLeaf(t: Tree, b1: byte, b2: byte)
    requires b1 in CodesOf(t) && b2 in CodesOf(t)
    requires CodesOf(t)[b1] <= CodesOf(t)[b2]
    ensures b1 == b2
  {
    var c := CodesOf(t);
    CodesArePaths(t, [], b1);
    CodesArePaths(t, [], b2);
    assert c[b1][0..] == c[b1] && c[b2][0..] == c[b2];
    var s := c[b2][|c[b1]|..];
    assert c[b2] == c[b1] + s;
    FollowAppend(t, c[b1], s);
  }

  /** No code is a prefix of another byte's code. */
  predicate PrefixFree(c: Codes)
  {
    forall b1, b2 :: b1 in c && b2 in c && b1 != b2 ==> !(c[b1] <= c[b2])
  }

  /** The codes of any tree form a prefix code. */
  lemma CodesArePrefixFree(t: Tree)
    ensures PrefixFree(CodesOf(t))
  {
    var c := CodesOf(t);
    forall b1, b2 | b1 in c && b2 in c ensures c[b1] <= c[b2] ==> b1 == b2 {
      if c[b1] <= c[b2] {
        PrefixMeansSameLeaf(t, b1, b2);
      }
    }
  }

  /** A code is shorter than the number of leaves: each step down a path leaves at
      least one leaf behind on the other side. */
  lemma {:induction false} CodeLengthBound(t: Tree, code: seq<bool>, b: byte)
    requires b in GenerateHuffmanCodes(t, code)
    ensures |GenerateHuffmanCodes(t, code)[b]| < |code| + |LeafSyms(t)|
  {
    match t
    case Leaf(_, _) =>
    case Node(_, lt, rt) =>
      LeafSymsNonEmpty(lt);
      LeafSymsNonEmpty(rt);
      if b in GenerateHuffmanCodes(rt, code + [true]) {
        CodeLengthBound(rt, code + [true], b);
      } else {
        CodeLengthBound(lt, code + [false], b);
      }
  }
}
