/** compute_merkle_root (ahp/core/signing.py) against the Merkle Tree Hash of section 2.1 of
    RFC 6962. */
module Merkle {
  import opened Bytes

  function Leaf(h: bytes): Digest {
    Sha256([0 as byte] + h)
  }

  function Pair(a: Digest, b: Digest): Digest {
    Sha256([1 as byte] + a + b)
  }

  // ----------------------------------------------------------- the level-by-level form

  /** One level up: neighbours are joined, and an odd node at the end is joined with itself. */
  function Level<T>(nodes: seq<T>, join: (T, T) -> T): (up: seq<T>)
    ensures |up| == (|nodes| + 1) / 2
  {
    if nodes == [] then []
    else if |nodes| == 1 then [join(nodes[0], nodes[0])]
    else [join(nodes[0], nodes[1])] + Level(nodes[2..], join)
  }

  /** Levels are built until one node is left. */
  function Root<T>(nodes: seq<T>, join: (T, T) -> T): T
    requires nodes != []
    decreases |nodes|
  {
    if |nodes| == 1 then nodes[0] else Root(Level(nodes, join), join)
  }

  function Leaves(hashes: seq<bytes>): seq<Digest> {
    seq(|hashes|, i requires 0 <= i < |hashes| => Leaf(hashes[i]))
  }

  function MerkleRoot(hashes: seq<bytes>): Digest {
    if hashes == [] then ZERO_HASH_32 else Root(Leaves(hashes), Pair)
  }

  lemma LevelStep<T>(nodes: seq<T>, i: nat, join: (T, T) -> T)
    requires i < |nodes|
    ensures Level(nodes[i..], join)
         == [join(nodes[i], if i + 1 < |nodes| then nodes[i + 1] else nodes[i])]
            + Level(nodes[if i + 1 < |nodes| then i + 2 else i + 1..], join)
  {
    if i + 1 < |nodes| {
      assert nodes[i..][2..] == nodes[i + 2..];
    }
  }

  /** One round of the outer loop: the next level. */
  method LevelUp(nodes: seq<Digest>) returns (newNodes: seq<Digest>)
    ensures newNodes == Level(nodes, Pair)
  {
    hide Level, Pair;
    newNodes := [];
    var i := 0;
    assert nodes[0..] == nodes;
    while i < |nodes|
      invariant i <= |nodes| + 1
      invariant newNodes + Level(nodes[if i <= |nodes| then i else |nodes|..], Pair) == Level(nodes, Pair)
      decreases |nodes| + 1 - i
    {
      LevelStep(nodes, i, Pair);
      if i + 1 < |nodes| {
        newNodes := newNodes + [Pair(nodes[i], nodes[i + 1])];
      } else {
        newNodes := newNodes + [Pair(nodes[i], nodes[i])];
      }
      i := i + 2;
    }
    NoLevel(nodes);
    assert newNodes + [] == newNodes;
  }

  lemma NoLevel(nodes: seq<Digest>)
    ensures Level(nodes[|nodes|..], Pair) == []
  {
  }

  /** compute_merkle_root */
  method ComputeMerkleRoot(recordHashes: seq<bytes>) returns (root: Digest)
    ensures root == MerkleRoot(recordHashes)
  {
    hide Level, Leaf, Pair;
    if recordHashes == [] {
      return ZERO_HASH_32;
    }
    var nodes: seq<Digest> := [];
    for i := 0 to |recordHashes|
      invariant nodes == Leaves(recordHashes)[..i]
    {
      nodes := nodes + [Leaf(recordHashes[i])];
    }
    assert nodes == Leaves(recordHashes);
    if |nodes| == 1 {
      return nodes[0];
    }
    while |nodes| > 1
      invariant nodes != [] && Root(nodes, Pair) == Root(Leaves(recordHashes), Pair)
      decreases |nodes|
    {
      nodes := LevelUp(nodes);
    }
    return nodes[0];
  }

  // --------------------------------------------------------------- the RFC 6962 form

  predicate PowerOfTwo(n: nat) {
    n == 1 || (n > 1 && n % 2 == 0 && PowerOfTwo(n / 2))
  }

  /** The largest power of two smaller than n. */
  function SplitPoint(n: nat): (k: nat)
    requires n > 1
    ensures PowerOfTwo(k) && k < n <= 2 * k
  {
    if n == 2 then 1 else 2 * SplitPoint((n + 1) / 2)
  }

  /** MTH of section 2.1 of RFC 6962, with its own prefixes and order of operands. */
  function TreeHash(d: seq<bytes>): Digest
    decreases |d|
  {
    if d == [] then Sha256([])
    else if |d| == 1 then Sha256([0x00] + d[0])
    else
      var k := SplitPoint(|d|);
      Sha256([0x01] + TreeHash(d[..k]) + TreeHash(d[k..]))
  }

  /** The code's leaves and nodes are those of the standard. */
  lemma TreeHashes(d: seq<bytes>)
    ensures |d| == 1 ==> TreeHash(d) == Leaf(d[0])
    ensures |d| > 1 ==> var k := SplitPoint(|d|); TreeHash(d) == Pair(TreeHash(d[..k]), TreeHash(d[k..]))
  {
    hide SplitPoint;
  }

  lemma {:induction false} PowersApart(a: nat, b: nat)
    requires PowerOfTwo(a) && PowerOfTwo(b) && a < b
    ensures 2 * a <= b
    decreases b
  {
    if a > 1 {
      PowersApart(a / 2, b / 2);
    }
  }

  lemma PowerPositive(n: nat)
    requires PowerOfTwo(n)
    ensures n >= 1 && PowerOfTwo(2 * n)
  {
    assert 2 * n / 2 == n;
  }

  lemma JoinHalves(a: seq<bytes>, b: seq<bytes>)
    requires PowerOfTwo(|a|) && |a| == |b|
    ensures TreeHash(a + b) == Pair(TreeHash(a), TreeHash(b))
  {
    var n, k := |a|, SplitPoint(|a + b|);
    PowerPositive(n);
    if n < k {
      PowersApart(n, k);
    }
    assert (a + b)[..n] == a && (a + b)[n..] == b;
  }

  // ------------------------------------------------------------------ how they relate

  function Concat(a: seq<bytes>, b: seq<bytes>): seq<bytes> {
    a + b
  }

  function Singles(hashes: seq<bytes>): seq<seq<bytes>> {
    seq(|hashes|, i requires 0 <= i < |hashes| => [hashes[i]])
  }

  /** The list whose tree the level-by-level form really hashes: at each level an odd block at the
      end is repeated. */
  function Padded(hashes: seq<bytes>): seq<bytes>
    requires hashes != []
  {
    Root(Singles(hashes), Concat)
  }

  function Hashes(blocks: seq<seq<bytes>>): seq<Digest> {
    seq(|blocks|, i requires 0 <= i < |blocks| => TreeHash(blocks[i]))
  }

  /** Every block has n entries. */
  predicate Uniform(blocks: seq<seq<bytes>>, n: nat) {
    PowerOfTwo(n) && forall i :: 0 <= i < |blocks| ==> |blocks[i]| == n
  }

  function Flat(blocks: seq<seq<bytes>>): seq<bytes> {
    if blocks == [] then [] else blocks[0] + Flat(blocks[1..])
  }

  lemma {:induction false} LevelHashes(blocks: seq<seq<bytes>>, n: nat)
    requires Uniform(blocks, n)
    ensures Uniform(Level(blocks, Concat), 2 * n)
    ensures Level(Hashes(blocks), Pair) == Hashes(Level(blocks, Concat))
    decreases |blocks|
  {
    hide TreeHash, Pair;
    PowerPositive(n);
    if |blocks| == 1 {
      JoinHalves(blocks[0], blocks[0]);
    } else if |blocks| > 1 {
      JoinHalves(blocks[0], blocks[1]);
      LevelHashes(blocks[2..], n);
      assert Hashes(blocks)[2..] == Hashes(blocks[2..]);
      var rest := Level(blocks[2..], Concat);
      assert Level(blocks, Concat) == [Concat(blocks[0], blocks[1])] + rest;
      assert Hashes([Concat(blocks[0], blocks[1])] + rest) == [TreeHash(Concat(blocks[0], blocks[1]))] + Hashes(rest);
    }
  }

  /** Hashing level by level is the tree hash of the blocks joined level by level. */
  lemma {:induction false} RootHashes(blocks: seq<seq<bytes>>, n: nat)
    requires blocks != [] && Uniform(blocks, n)
    ensures Root(Hashes(blocks), Pair) == TreeHash(Root(blocks, Concat)) && PowerOfTwo(|Root(blocks, Concat)|)
    decreases |blocks|
  {
    hide TreeHash, Pair;
    if |blocks| > 1 {
      LevelHashes(blocks, n);
      RootHashes(Level(blocks, Concat), 2 * n);
    }
  }

  /** The root is the RFC 6962 hash of the padded list, whose length is a power of two; for the empty list,
      where the standard hashes nothing, it is 32 zeros. */
  lemma RootIsPaddedTree(hashes: seq<bytes>)
    ensures hashes == [] ==> MerkleRoot(hashes) == Zeros(32)
    ensures hashes != [] ==> MerkleRoot(hashes) == TreeHash(Padded(hashes)) && PowerOfTwo(|Padded(hashes)|)
  {
    hide Root;
    if hashes == [] {
      return;
    }
    assert Hashes(Singles(hashes)) == Leaves(hashes);
    RootHashes(Singles(hashes), 1);
  }

  lemma {:induction false} LevelFlat(blocks: seq<seq<bytes>>)
    ensures Flat(blocks) <= Flat(Level(blocks, Concat))
    ensures |blocks| % 2 == 0 ==> Flat(blocks) == Flat(Level(blocks, Concat))
    decreases |blocks|
  {
    if |blocks| == 1 {
      assert blocks[1..] == [];
      assert Flat(blocks) == blocks[0];
      assert Flat([Concat(blocks[0], blocks[0])]) == Concat(blocks[0], blocks[0]) + [];
    } else if |blocks| > 1 {
      LevelFlat(blocks[2..]);
      assert blocks[1..][1..] == blocks[2..];
      assert Flat(blocks) == Concat(blocks[0], blocks[1]) + Flat(blocks[2..]);
      assert Level(blocks, Concat)[1..] == Level(blocks[2..], Concat);
    }
  }

  /** Joining level by level keeps the list in front, and adds nothing to a power of two. */
  lemma {:induction false} RootFlat(blocks: seq<seq<bytes>>)
    requires blocks != []
    ensures Flat(blocks) <= Root(blocks, Concat)
    ensures PowerOfTwo(|blocks|) ==> Flat(blocks) == Root(blocks, Concat)
    decreases |blocks|
  {
    if |blocks| > 1 {
      LevelFlat(blocks);
      RootFlat(Level(blocks, Concat));
    } else {
      assert Flat(blocks) == blocks[0] + [];
    }
  }

  lemma {:induction false} SinglesFlat(hashes: seq<bytes>)
    ensures Flat(Singles(hashes)) == hashes
  {
    if hashes != [] {
      SinglesFlat(hashes[1..]);
      assert Singles(hashes)[1..] == Singles(hashes[1..]);
    }
  }

  lemma PaddedExtends(hashes: seq<bytes>)
    requires hashes != []
    ensures hashes <= Padded(hashes)
    ensures PowerOfTwo(|hashes|) <==> Padded(hashes) == hashes
  {
    hide Root;
    SinglesFlat(hashes);
    RootFlat(Singles(hashes));
    RootIsPaddedTree(hashes);
  }

  // ------------------------------------------------------------------------- binding

  lemma LeafBinding(h: bytes, g: bytes) returns (p: bytes, q: bytes)
    requires Leaf(h) == Leaf(g)
    ensures h == g || Collision(p, q)
  {
    p, q := [0] + h, [0] + g;
    assert h == p[1..] && g == q[1..];
  }

  lemma PairBinding(a: Digest, b: Digest, c: Digest, d: Digest) returns (p: bytes, q: bytes)
    requires Pair(a, b) == Pair(c, d)
    ensures (a == c && b == d) || Collision(p, q)
  {
    p, q := [1] + a + b, [1] + c + d;
    assert a == p[1..33] && c == q[1..33] && b == p[33..] && d == q[33..];
  }

  lemma LeafIsNoPair(h: bytes, a: Digest, b: Digest) returns (p: bytes, q: bytes)
    requires Leaf(h) == Pair(a, b)
    ensures Collision(p, q)
  {
    p, q := [0] + h, [1] + a + b;
    assert p[0] != q[0];
  }

  /** Two lists with one tree hash are equal, or a collision of SHA-256 is at hand. */
  lemma {:induction false} TreeBinding(x: seq<bytes>, y: seq<bytes>) returns (p: bytes, q: bytes)
    requires x != [] && y != [] && TreeHash(x) == TreeHash(y)
    ensures x == y || Collision(p, q)
    decreases |x|
  {
    hide Leaf, Pair, SplitPoint, PowerOfTwo, TreeHash;
    TreeHashes(x);
    TreeHashes(y);
    if |x| == 1 && |y| == 1 {
      p, q := LeafBinding(x[0], y[0]);
    } else if |x| == 1 {
      var k := SplitPoint(|y|);
      p, q := LeafIsNoPair(x[0], TreeHash(y[..k]), TreeHash(y[k..]));
    } else if |y| == 1 {
      var k := SplitPoint(|x|);
      p, q := LeafIsNoPair(y[0], TreeHash(x[..k]), TreeHash(x[k..]));
    } else {
      var j, k := SplitPoint(|x|), SplitPoint(|y|);
      p, q := PairBinding(TreeHash(x[..j]), TreeHash(x[j..]), TreeHash(y[..k]), TreeHash(y[k..]));
      if !Collision(p, q) {
        p, q := TreeBinding(x[..j], y[..k]);
        if !Collision(p, q) {
          p, q := TreeBinding(x[j..], y[k..]);
          assert x == x[..j] + x[j..] && y == y[..k] + y[k..];
        }
      }
    }
  }

  /** compute_merkle_root is the RFC 6962 hash exactly for lists whose length is a power of two:
      for these the two agree, and agreement on any other list exhibits a collision. */
  lemma AgreesWithRfc(hashes: seq<bytes>) returns (p: bytes, q: bytes)
    requires hashes != []
    ensures PowerOfTwo(|hashes|) ==> MerkleRoot(hashes) == TreeHash(hashes)
    ensures !PowerOfTwo(|hashes|) && MerkleRoot(hashes) == TreeHash(hashes) ==> Collision(p, q)
  {
    hide TreeHash, MerkleRoot, Padded;
    p, q := [], [];
    RootIsPaddedTree(hashes);
    PaddedExtends(hashes);
    if MerkleRoot(hashes) == TreeHash(hashes) {
      p, q := TreeBinding(Padded(hashes), hashes);
    }
  }

  /** Which lists share a root: those with one padded form, or else a collision is at hand. */
  lemma RootBinding(a: seq<bytes>, b: seq<bytes>) returns (p: bytes, q: bytes)
    requires a != [] && b != []
    ensures Padded(a) == Padded(b) ==> MerkleRoot(a) == MerkleRoot(b)
    ensures MerkleRoot(a) == MerkleRoot(b) ==> Padded(a) == Padded(b) || Collision(p, q)
  {
    hide TreeHash, MerkleRoot, Padded;
    p, q := [], [];
    RootIsPaddedTree(a);
    RootIsPaddedTree(b);
    if MerkleRoot(a) == MerkleRoot(b) {
      p, q := TreeBinding(Padded(a), Padded(b));
    }
  }

  /** Lists of one length with one root are equal, or a collision is at hand. */
  lemma EqualLengthBinding(a: seq<bytes>, b: seq<bytes>) returns (p: bytes, q: bytes)
    requires |a| == |b| && MerkleRoot(a) == MerkleRoot(b)
    ensures a == b || Collision(p, q)
  {
    hide MerkleRoot, Padded;
    p, q := [], [];
    if a != [] {
      p, q := RootBinding(a, b);
      PaddedExtends(a);
      PaddedExtends(b);
    }
  }

  lemma {:induction false} LevelRepeatsLast<T>(nodes: seq<T>, join: (T, T) -> T)
    requires |nodes| % 2 == 1
    ensures Level(nodes + [nodes[|nodes| - 1]], join) == Level(nodes, join)
    decreases |nodes|
  {
    var more := nodes + [nodes[|nodes| - 1]];
    if |nodes| > 1 {
      LevelRepeatsLast(nodes[2..], join);
      assert more[2..] == nodes[2..] + [nodes[2..][|nodes[2..]| - 1]];
    } else {
      assert more == [nodes[0], nodes[0]] && more[2..] == [];
    }
  }

  /** For every list of odd length above one, repeating its last entry leaves the root unchanged:
      the root does not bind the length. */
  lemma OddLengthAmbiguous(hashes: seq<bytes>)
    requires |hashes| > 1 && |hashes| % 2 == 1
    ensures MerkleRoot(hashes + [hashes[|hashes| - 1]]) == MerkleRoot(hashes)
  {
    var more := hashes + [hashes[|hashes| - 1]];
    assert Leaves(more) == Leaves(hashes) + [Leaves(hashes)[|hashes| - 1]];
    LevelRepeatsLast(Leaves(hashes), Pair);
  }
}
