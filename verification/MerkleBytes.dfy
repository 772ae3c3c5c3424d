/** What exactly a Merkle tree hashes: the bytes behind every node of the flat vector, and when a proof is
    accepted. */
module MerkleBytes {
  import opened ByteStrings
  import opened Merkle

  // ----- positions -----

  lemma {:induction false} NodeIsOnLevel(n: nat, k: nat, i: nat)
    requires k <= Height(n) && FirstLeaf(k, i) < n
    ensures i < LevelSize(n, k)
    decreases k
  {
    if k > 0 {
      FirstLeafDoubles(k - 1, i);
      NodeIsOnLevel((n + 1) / 2, k - 1, i);
    }
  }

  lemma {:induction false} LowerLevelsAreEven(n: nat, k: nat)
    requires k < Height(n)
    ensures LevelSize(n, k) % 2 == 0
    decreases k
  {
    if k > 0 {
      LowerLevelsAreEven((n + 1) / 2, k - 1);
    }
  }

  lemma SiblingIsOnLevel(n: nat, k: nat, i: nat, j: nat)
    requires k < Height(n) && FirstLeaf(k, j) < n && j == 2 * i
    ensures j + 1 < LevelSize(n, k)
  {
    NodeIsOnLevel(n, k, j);
    LowerLevelsAreEven(n, k);
  }

  // ----- bytes -----

  /** The flat vector of the tree over `leaves`. */
  function Vector(h: Hash, leaves: seq<bytes>): seq<Node> {
    TreeOf(h, leaves).nodes
  }

  lemma VectorEntry(h: Hash, leaves: seq<bytes>, k: nat, i: nat)
    requires k <= Height(|leaves|) && i < LevelSize(|leaves|, k)
    ensures LevelOffset(|leaves|, k) + i < |Vector(h, leaves)|
    ensures Vector(h, leaves)[LevelOffset(|leaves|, k) + i] == NodeAt(h, LeafHashes(h, leaves), k, i)
  {
    FlatLayout(h, LeafHashes(h, leaves), k, i);
  }

  /** Leaf `i` is stored at index `i`, hashed behind a zero byte. */
  lemma LeafBytes(h: Hash, leaves: seq<bytes>, i: nat)
    requires i < |leaves|
    ensures i < |Vector(h, leaves)| && Vector(h, leaves)[i] == Digested(h([0] + leaves[i]))
  {
    NodeIsOnLevel(|leaves|, 0, i);
    VectorEntry(h, leaves, 0, i);
  }

  lemma InnerNode(h: Hash, leaves: seq<Node>, k: nat, i: nat, j: nat)
    requires FirstLeaf(k + 1, i) < |leaves| && j == 2 * i
    ensures NodeAt(h, leaves, k + 1, i)
            == Digested(h([1] + NodeAt(h, leaves, k, j).Bytes() + NodeAt(h, leaves, k, j + 1).Bytes()))
  {
  }

  lemma FindStored(h: Hash, leaves: seq<bytes>, v: seq<Node>, k: nat, i: nat) returns (p: nat, node: Node)
    requires v == Vector(h, leaves) && k <= Height(|leaves|) && i < LevelSize(|leaves|, k)
    ensures p == LevelOffset(|leaves|, k) + i && p < |v| && v[p] == node
    ensures node == NodeAt(h, LeafHashes(h, leaves), k, i)
  {
    VectorEntry(h, leaves, k, i);
    p := LevelOffset(|leaves|, k) + i;
    node := v[p];
  }

  lemma FindNode(h: Hash, leaves: seq<bytes>, v: seq<Node>, k: nat, i: nat) returns (p: nat, node: Node)
    requires v == Vector(h, leaves) && k <= Height(|leaves|) && FirstLeaf(k, i) < |leaves|
    ensures p == LevelOffset(|leaves|, k) + i && p < |v| && v[p] == node
    ensures node == NodeAt(h, LeafHashes(h, leaves), k, i)
  {
    NodeIsOnLevel(|leaves|, k, i);
    p, node := FindStored(h, leaves, v, k, i);
  }

  lemma FindPair(h: Hash, leaves: seq<bytes>, v: seq<Node>, k: nat, j: nat)
    returns (l: nat, left: Node, right: Node)
    requires v == Vector(h, leaves) && k <= Height(|leaves|) && j + 1 < LevelSize(|leaves|, k)
    ensures l == LevelOffset(|leaves|, k) + j && l + 1 < |v| && v[l] == left && v[l + 1] == right
    ensures left == NodeAt(h, LeafHashes(h, leaves), k, j)
    ensures right == NodeAt(h, LeafHashes(h, leaves), k, j + 1)
  {
    var r: nat;
    l, left := FindStored(h, leaves, v, k, j);
    r, right := FindStored(h, leaves, v, k, j + 1);
  }

  lemma FindChildren(h: Hash, leaves: seq<bytes>, v: seq<Node>, k: nat, i: nat, j: nat)
    returns (l: nat, left: Node, right: Node)
    requires v == Vector(h, leaves) && k < Height(|leaves|) && FirstLeaf(k, j) < |leaves| && j == 2 * i
    ensures l == LevelOffset(|leaves|, k) + j && l + 1 < |v| && v[l] == left && v[l + 1] == right
    ensures left == NodeAt(h, LeafHashes(h, leaves), k, j)
    ensures right == NodeAt(h, LeafHashes(h, leaves), k, j + 1)
  {
    SiblingIsOnLevel(|leaves|, k, i, j);
    l, left, right := FindPair(h, leaves, v, k, j);
  }

  lemma FindFamily(h: Hash, leaves: seq<bytes>, v: seq<Node>, k: nat, i: nat, j: nat)
    returns (p: nat, l: nat, node: Node, left: Node, right: Node)
    requires v == Vector(h, leaves) && k < Height(|leaves|) && j == 2 * i
    requires FirstLeaf(k + 1, i) < |leaves| && FirstLeaf(k, j) < |leaves|
    ensures p == LevelOffset(|leaves|, k + 1) + i && p < |v| && v[p] == node
    ensures l == LevelOffset(|leaves|, k) + j && l + 1 < |v| && v[l] == left && v[l + 1] == right
    ensures node == Digested(h([1] + left.Bytes() + right.Bytes()))
  {
    InnerNode(h, LeafHashes(h, leaves), k, i, j);
    p, node := FindNode(h, leaves, v, k + 1, i);
    l, left, right := FindChildren(h, leaves, v, k, i, j);
  }

  /** Every node above the leaves is the hash of a one byte, the left child and the right child, which are
      stored next to each other on the level `k` below. */
  lemma InnerBytes(h: Hash, leaves: seq<bytes>, v: seq<Node>, k: nat, i: nat)
    requires v == Vector(h, leaves) && k < Height(|leaves|) && FirstLeaf(k + 1, i) < |leaves|
    ensures var node, left := LevelOffset(|leaves|, k + 1) + i, LevelOffset(|leaves|, k) + 2 * i;
            && node < |v| && left + 1 < |v|
            && v[node] == Digested(h([1] + v[left].Bytes() + v[left + 1].Bytes()))
  {
    var p, l, node, left, right := FindFamily(h, leaves, v, k, i, 2 * i);
  }

  /** A stored node without a leaf below it is `Empty`, which stands for 32 zero bytes. */
  lemma PaddingBytes(h: Hash, leaves: seq<bytes>, k: nat, i: nat)
    requires k <= Height(|leaves|) && i < LevelSize(|leaves|, k) && FirstLeaf(k, i) >= |leaves|
    ensures LevelOffset(|leaves|, k) + i < |Vector(h, leaves)|
    ensures Vector(h, leaves)[LevelOffset(|leaves|, k) + i] == Empty
    ensures |Empty.Bytes()| == 32 && forall j | 0 <= j < 32 :: Empty.Bytes()[j] == 0
  {
    VectorEntry(h, leaves, k, i);
  }

  /** The root of one and of two leaves, written out. */
  lemma SmallRoots(h: Hash, a: bytes, b: bytes)
    ensures TreeOf(h, []).Root() == Empty
    ensures TreeOf(h, [a]).Root() == Digested(h([0] + a))
    ensures TreeOf(h, [a, b]).Root() == Digested(h([1] + h([0] + a) + h([0] + b)))
  {
    LeafBytes(h, [a], 0);
    LeafBytes(h, [a, b], 0);
    LeafBytes(h, [a, b], 1);
    InnerBytes(h, [a, b], Vector(h, [a, b]), 0, 0);
    FlatLength(h, LeafHashes(h, [a]));
    FlatLength(h, LeafHashes(h, [a, b]));
  }

  // ----- verdicts -----

  /** Which proofs are accepted, and which error the others get. */
  lemma VerdictExactly(h: Hash, path: seq<Node>, root: Node, leafCount: nat, leaf: bytes, index: nat)
    ensures var r := Verification(h, path, root, leafCount, leaf, index);
            && (r == Err(PathLengthTooLarge) <==> |path| > PathLength(leafCount))
            && (r == Err(LeafIndexOutOfBounds(index)) <==>
                  |path| <= PathLength(leafCount) && index >= Pow2(|path| % 64))
            && (r == Ok(()) <==>
                  && |path| <= PathLength(leafCount) && index < Pow2(|path| % 64)
                  && Fold(h, Digested(h([0] + leaf)), path, index) == root)
            && (r == Ok(()) || r == Err(PathLengthTooLarge) || r == Err(LeafIndexOutOfBounds(index))
                || r == Err(RootMismatch))
  {
    ShiftRightIsZero(index, |path| % 64);
  }

  /** One step of folding a path: the sibling goes to the right of an even index and to the left of an odd
      one. */
  lemma FoldBytes(h: Hash, current: Node, path: seq<Node>, index: nat)
    requires path != []
    ensures Fold(h, current, path, index)
            == Fold(h, Digested(h([1] + if index % 2 == 0 then current.Bytes() + path[0].Bytes()
                                        else path[0].Bytes() + current.Bytes())), path[1..], index / 2)
  {
    assert [1] + (current.Bytes() + path[0].Bytes()) == [1] + current.Bytes() + path[0].Bytes();
    assert [1] + (path[0].Bytes() + current.Bytes()) == [1] + path[0].Bytes() + current.Bytes();
  }
}
