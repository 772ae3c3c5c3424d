/** The Merkle tree of walrus-core: one flat vector filled level by level, proofs read back out of
    that vector, and proofs folded back to a root.

    The hash function is a parameter `h`; nothing is assumed about it. */
module Merkle {
  import opened ByteStrings

  const DIGEST_LEN := 32
  const LEAF_PREFIX: bytes := [0]
  const INNER_PREFIX: bytes := [1]
  const EMPTY_NODE: Digest := Zeros(DIGEST_LEN)
  const USIZE_BITS := 64

  type Digest = d: bytes | |d| == DIGEST_LEN witness Zeros(DIGEST_LEN)
  type Hash = bytes -> Digest

  function Zeros(n: nat): (s: bytes)
    ensures |s| == n && forall i | 0 <= i < n :: s[i] == 0
  {
    if n == 0 then [] else [0] + Zeros(n - 1)
  }

  datatype MerkleProofError =
    | PathLengthTooLarge
    | LeafIndexOutOfBounds(index: nat)
    | RootMismatch

  datatype Node = Empty | Digested(digest: Digest) {
    function Bytes(): Digest {
      match this
      case Empty => EMPTY_NODE
      case Digested(d) => d
    }
  }

  /** The nodes of all levels, leaf hashes first, and the number of leaves. */
  datatype MerkleTree = MerkleTree(nodes: seq<Node>, nLeaves: nat) {
    function Root(): Node {
      if nodes == [] then Empty else nodes[|nodes| - 1]
    }
  }

  function InnerInput(left: Node, right: Node): bytes {
    INNER_PREFIX + left.Bytes() + right.Bytes()
  }

  function LeafHash(h: Hash, leaf: bytes): Node {
    Digested(h(LEAF_PREFIX + leaf))
  }

  function InnerHash(h: Hash, left: Node, right: Node): Node {
    Digested(h(InnerInput(left, right)))
  }

  function LeafHashes(h: Hash, leaves: seq<bytes>): seq<Node> {
    seq(|leaves|, i requires 0 <= i < |leaves| => LeafHash(h, leaves[i]))
  }

  // ----- the reference tree -----

  function Pow2(k: nat): (p: nat)
    ensures p > 0
  {
    if k == 0 then 1 else 2 * Pow2(k - 1)
  }

  /** The leftmost leaf below node `i` of level `k`, that is `i * 2^k`. */
  function FirstLeaf(k: nat, i: nat): nat {
    if k == 0 then i else FirstLeaf(k - 1, 2 * i)
  }

  lemma {:induction false} FirstLeafDoubles(k: nat, i: nat)
    ensures FirstLeaf(k + 1, i) == 2 * FirstLeaf(k, i)
  {
    if k > 0 {
      FirstLeafDoubles(k - 1, 2 * i);
    }
  }

  /** Node `i` of level `k` of the perfect binary tree over `leaves`, in which every subtree
      without a leaf is `Empty`. */
  function NodeAt(h: Hash, leaves: seq<Node>, k: nat, i: nat): Node
    decreases k
  {
    if FirstLeaf(k, i) >= |leaves| then Empty
    else if k == 0 then leaves[i]
    else InnerHash(h, NodeAt(h, leaves, k - 1, 2 * i), NodeAt(h, leaves, k - 1, 2 * i + 1))
  }

  /** Number of levels above the leaves: how often `n` is rounded up to even and halved. */
  function Height(n: nat): nat {
    if n <= 1 then 0 else 1 + Height((n + 1) / 2)
  }

  // ----- the level-by-level form -----

  function RoundUpToEven(n: nat): nat {
    n + n % 2
  }

  /** A level as stored: an `Empty` sibling completes an odd level. */
  function Pad(level: seq<Node>): (r: seq<Node>)
    ensures |r| == RoundUpToEven(|level|)
  {
    if |level| % 2 == 1 then level + [Empty] else level
  }

  /** The hashes of consecutive pairs. */
  function Parents(h: Hash, pairs: seq<Node>): (r: seq<Node>)
    requires |pairs| % 2 == 0
    ensures 2 * |r| == |pairs|
    decreases |pairs|
  {
    if pairs == [] then []
    else Parents(h, pairs[..|pairs| - 2]) + [InnerHash(h, pairs[|pairs| - 2], pairs[|pairs| - 1])]
  }

  lemma {:induction false} ParentsAt(h: Hash, pairs: seq<Node>, j: nat)
    requires |pairs| % 2 == 0 && 2 * j + 1 < |pairs|
    ensures Parents(h, pairs)[j] == InnerHash(h, pairs[2 * j], pairs[2 * j + 1])
    decreases |pairs|
  {
    if 2 * j + 2 < |pairs| {
      ParentsAt(h, pairs[..|pairs| - 2], j);
    }
  }

  function Up(h: Hash, level: seq<Node>): (r: seq<Node>)
    ensures |r| == (|level| + 1) / 2
  {
    Parents(h, Pad(level))
  }

  /** All levels, one after the other. */
  function Flat(h: Hash, level: seq<Node>): (r: seq<Node>)
    ensures |level| >= 1 ==> |r| >= 1
    decreases |level|
  {
    if |level| <= 1 then level else Pad(level) + Flat(h, Up(h, level))
  }

  lemma FlatStep(h: Hash, below: seq<Node>, level: seq<Node>) returns (below': seq<Node>, up: seq<Node>)
    requires |level| > 1
    ensures below' == below + Pad(level) && up == Up(h, level)
    ensures below' + Flat(h, up) == below + Flat(h, level)
  {
    below', up := below + Pad(level), Up(h, level);
    ConcatAssociative(below, Pad(level), Flat(h, up));
  }

  /** The root, computed without the flat vector. */
  function RootOf(h: Hash, level: seq<Node>): Node
    decreases |level|
  {
    if level == [] then Empty else if |level| == 1 then level[0] else RootOf(h, Up(h, level))
  }

  lemma {:induction false} FlatRoot(h: Hash, level: seq<Node>)
    ensures MerkleTree(Flat(h, level), |level|).Root() == RootOf(h, level)
    decreases |level|
  {
    if |level| > 1 {
      var up := Up(h, level);
      FlatRoot(h, up);
      var rest := Flat(h, up);
      assert Flat(h, level) == Pad(level) + rest;
      assert (Pad(level) + rest)[|Pad(level)| + |rest| - 1] == rest[|rest| - 1];
    }
  }

  lemma LevelZeroIsPad(h: Hash, level: seq<Node>, i: nat)
    requires i < |Pad(level)|
    ensures NodeAt(h, level, 0, i) == Pad(level)[i]
  {
  }

  lemma LevelOneIsUp(h: Hash, level: seq<Node>, i: nat)
    ensures NodeAt(h, level, 1, i) == NodeAt(h, Up(h, level), 0, i)
  {
    assert FirstLeaf(1, i) == 2 * i;
    if 2 * i < |level| {
      LevelZeroIsPad(h, level, 2 * i);
      LevelZeroIsPad(h, level, 2 * i + 1);
      ParentsAt(h, Pad(level), i);
    }
  }

  /** One step up of the reference tree is one level of the layered form. */
  lemma {:induction false} NodeAtUp(h: Hash, level: seq<Node>, k: nat, i: nat)
    ensures NodeAt(h, level, k + 1, i) == NodeAt(h, Up(h, level), k, i)
    decreases k
  {
    if k == 0 {
      LevelOneIsUp(h, level, i);
    } else {
      FirstLeafDoubles(k, i);
      NodeAtUp(h, level, k - 1, 2 * i);
      NodeAtUp(h, level, k - 1, 2 * i + 1);
    }
  }

  /** The last entry of the flat vector is the root of the reference tree. */
  lemma {:induction false} RootIsReference(h: Hash, leaves: seq<Node>)
    requires leaves != []
    ensures RootOf(h, leaves) == NodeAt(h, leaves, Height(|leaves|), 0)
    decreases |leaves|
  {
    if |leaves| > 1 {
      var up := Up(h, leaves);
      RootIsReference(h, up);
      NodeAtUp(h, leaves, Height(|up|), 0);
    }
  }

  // ----- layout: sizes and offsets -----

  /** Number of stored nodes of level `k` in a tree with `n` leaves. */
  function LevelSize(n: nat, k: nat): nat
    requires k <= Height(n)
  {
    if k > 0 then LevelSize((n + 1) / 2, k - 1)
    else if n <= 1 then n else RoundUpToEven(n)
  }

  /** Where level `k` starts: the running sum `get_proof` keeps in `level_base_index`. */
  function LevelOffset(n: nat, k: nat): nat
    requires k <= Height(n)
  {
    if k == 0 then 0 else RoundUpToEven(n) + LevelOffset((n + 1) / 2, k - 1)
  }

  function NodeCount(n: nat): nat {
    if n <= 1 then n else RoundUpToEven(n) + NodeCount((n + 1) / 2)
  }

  lemma {:induction false} FlatLength(h: Hash, leaves: seq<Node>)
    ensures |Flat(h, leaves)| == NodeCount(|leaves|)
    decreases |leaves|
  {
    if |leaves| > 1 {
      FlatLength(h, Up(h, leaves));
    }
  }

  /** The levels follow each other without a gap, and the last one ends the vector. */
  lemma {:induction false} LevelsFillVector(n: nat, k: nat)
    requires k <= Height(n)
    ensures k < Height(n) ==> LevelOffset(n, k) + LevelSize(n, k) == LevelOffset(n, k + 1) < NodeCount(n)
    ensures k == Height(n) ==> LevelOffset(n, k) + LevelSize(n, k) == NodeCount(n)
    decreases k
  {
    if k > 0 {
      LevelsFillVector((n + 1) / 2, k - 1);
    } else if n > 1 {
      NodeCountPositive((n + 1) / 2);
    }
  }

  lemma NodeCountPositive(n: nat)
    requires n > 0
    ensures NodeCount(n) > 0
  {
  }

  lemma FlatRest(h: Hash, level: seq<Node>, j: nat)
    requires |level| > 1 && j < |Flat(h, Up(h, level))|
    ensures RoundUpToEven(|level|) + j < |Flat(h, level)|
    ensures Flat(h, level)[RoundUpToEven(|level|) + j] == Flat(h, Up(h, level))[j]
  {
    var rest := Flat(h, Up(h, level));
    assert Flat(h, level) == Pad(level) + rest;
  }

  lemma FlatFirst(h: Hash, level: seq<Node>, i: nat)
    requires i < LevelSize(|level|, 0)
    ensures i < |Flat(h, level)| && Flat(h, level)[i] == NodeAt(h, level, 0, i)
  {
    if |level| > 1 {
      LevelZeroIsPad(h, level, i);
      var rest := Flat(h, Up(h, level));
      assert Flat(h, level) == Pad(level) + rest;
    }
  }

  lemma FlatRestIsReference(h: Hash, level: seq<Node>, k: nat, i: nat, j: nat)
    requires |level| > 1 && j < |Flat(h, Up(h, level))| && Flat(h, Up(h, level))[j] == NodeAt(h, Up(h, level), k, i)
    ensures RoundUpToEven(|level|) + j < |Flat(h, level)|
    ensures Flat(h, level)[RoundUpToEven(|level|) + j] == NodeAt(h, level, k + 1, i)
  {
    FlatRest(h, level, j);
    NodeAtUp(h, level, k, i);
  }

  /** Every node of the reference tree, padding included, sits at its level's offset. */
  lemma {:induction false} FlatLayout(h: Hash, leaves: seq<Node>, k: nat, i: nat)
    requires k <= Height(|leaves|) && i < LevelSize(|leaves|, k)
    ensures LevelOffset(|leaves|, k) + i < |Flat(h, leaves)|
    ensures Flat(h, leaves)[LevelOffset(|leaves|, k) + i] == NodeAt(h, leaves, k, i)
    decreases k
  {
    if k == 0 {
      FlatFirst(h, leaves, i);
    } else {
      var up := Up(h, leaves);
      FlatLayout(h, up, k - 1, i);
      var j := LevelOffset(|up|, k - 1) + i;
      assert LevelOffset(|leaves|, k) + i == RoundUpToEven(|leaves|) + j;
      FlatRestIsReference(h, leaves, k - 1, i, j);
    }
  }

  /** `n_nodes`: the capacity reserved up front. */
  method NNodes(nLeaves: nat) returns (total: nat)
    ensures total == NodeCount(nLeaves)
    ensures forall h: Hash, leaves: seq<Node> | |leaves| == nLeaves :: |Flat(h, leaves)| == total
  {
    var levelNodes := nLeaves;
    total := 0;
    while levelNodes > 1
      invariant total + NodeCount(levelNodes) == NodeCount(nLeaves)
    {
      levelNodes := levelNodes + levelNodes % 2;
      total := total + levelNodes;
      levelNodes := levelNodes / 2;
    }
    total := total + levelNodes;
    forall h: Hash, leaves: seq<Node> | |leaves| == nLeaves
      ensures |Flat(h, leaves)| == total
    {
      FlatLength(h, leaves);
    }
  }

  // ----- path length -----

  /** Floor of the binary logarithm. */
  function Ilog2(n: nat): nat
    requires n > 0
  {
    if n == 1 then 0 else 1 + Ilog2(n / 2)
  }

  function PathLength(nLeaves: nat): nat {
    if nLeaves <= 1 then 0 else Ilog2(nLeaves - 1) + 1
  }

  /** The closed form counts the iterations of the round-up-and-halve loop. */
  lemma {:induction false} PathLengthIsHeight(n: nat)
    ensures PathLength(n) == Height(n)
  {
    if n > 2 {
      PathLengthIsHeight((n + 1) / 2);
      assert (n + 1) / 2 - 1 == (n - 1) / 2;
    }
  }

  /** The path length is the least exponent of a power of two that covers all leaves. */
  lemma {:induction false} PathLengthIsLeast(n: nat, k: nat)
    ensures PathLength(n) <= k <==> n <= Pow2(k)
    decreases k
  {
    PathLengthIsHeight(n);
    if n > 1 && k > 0 {
      PathLengthIsHeight((n + 1) / 2);
      PathLengthIsLeast((n + 1) / 2, k - 1);
    }
  }

  // ----- building -----

  lemma ParentsOneMore(h: Hash, pairs: seq<Node>, j: nat)
    requires 2 * j + 2 <= |pairs|
    ensures Parents(h, pairs[..2 * j + 2])
            == Parents(h, pairs[..2 * j]) + [InnerHash(h, pairs[2 * j], pairs[2 * j + 1])]
  {
    assert pairs[..2 * j + 2][..2 * j] == pairs[..2 * j];
  }

  lemma PushParent(h: Hash, nodes: seq<Node>, below: seq<Node>, pairs: seq<Node>, j: nat, r: seq<Node>)
    requires nodes == below + pairs && 2 * j + 2 <= |pairs| && r == nodes + Parents(h, pairs[..2 * j])
    ensures r + [InnerHash(h, r[|below| + 2 * j], r[|below| + 2 * j + 1])] == nodes + Parents(h, pairs[..2 * j + 2])
  {
    ParentsOneMore(h, pairs, j);
    ConcatAssociative(nodes, Parents(h, pairs[..2 * j]), [InnerHash(h, pairs[2 * j], pairs[2 * j + 1])]);
  }

  /** The inner loop of `build_from_leaf_hashes`: hashes the pairs of the level that starts at
      `levelIndex` and pushes the results. */
  method PushParents(h: Hash, nodes: seq<Node>, levelIndex: nat, ghost below: seq<Node>, ghost level: seq<Node>)
    returns (r: seq<Node>)
    requires nodes == below + Pad(level) && levelIndex == |below|
    ensures r == nodes + Up(h, level)
  {
    r := nodes;
    var index := levelIndex;
    ghost var pairs, j := Pad(level), 0;
    while index < |nodes|
      invariant index == levelIndex + 2 * j && index <= |nodes|
      invariant r == nodes + Parents(h, pairs[..2 * j])
    {
      PushParent(h, nodes, below, pairs, j, r);
      r := r + [InnerHash(h, r[index], r[index + 1])];
      index, j := index + 2, j + 1;
    }
    assert pairs[..2 * j] == pairs;
  }

  lemma TreeRoot(h: Hash, leafHashes: seq<Node>)
    ensures var root := MerkleTree(Flat(h, leafHashes), |leafHashes|).Root();
            root == if leafHashes == [] then Empty else NodeAt(h, leafHashes, PathLength(|leafHashes|), 0)
  {
    FlatRoot(h, leafHashes);
    if leafHashes != [] {
      RootIsReference(h, leafHashes);
      PathLengthIsHeight(|leafHashes|);
    }
  }

  /** `build_from_leaf_hashes`. */
  method BuildFromLeafHashes(h: Hash, leafHashes: seq<Node>) returns (t: MerkleTree)
    ensures t == MerkleTree(Flat(h, leafHashes), |leafHashes|)
    ensures leafHashes == [] ==> t.Root() == Empty
    ensures leafHashes != [] ==> t.Root() == NodeAt(h, leafHashes, PathLength(|leafHashes|), 0)
  {
    var nodes := leafHashes;
    var levelNodes := |leafHashes|;
    var prevLevelIndex := 0;
    ghost var below: seq<Node> := [];
    ghost var level := leafHashes;
    while levelNodes > 1
      invariant levelNodes == |level| && prevLevelIndex == |below|
      invariant nodes == below + level
      invariant below + Flat(h, level) == Flat(h, leafHashes)
    {
      if levelNodes % 2 == 1 {
        ConcatAssociative(below, level, [Empty]);
        nodes := nodes + [Empty];
        levelNodes := levelNodes + 1;
      }
      nodes := PushParents(h, nodes, prevLevelIndex, below, level);
      below, level := FlatStep(h, below, level);
      prevLevelIndex := prevLevelIndex + levelNodes;
      levelNodes := levelNodes / 2;
    }
    t := MerkleTree(nodes, |leafHashes|);
    TreeRoot(h, leafHashes);
  }

  // ----- proofs -----

  function SiblingIndex(i: nat): nat {
    if i % 2 == 0 then i + 1 else i - 1
  }

  lemma SiblingInRange(i: nat, n: nat)
    requires i < n
    ensures SiblingIndex(i) < RoundUpToEven(n)
  {
  }

  /** The parent of entry `i` hashes that entry and its sibling, in the order `i` prescribes. */
  lemma UpIsFoldStep(h: Hash, level: seq<Node>, i: nat)
    requires i < |level|
    ensures SiblingIndex(i) < |Pad(level)| && i / 2 < |Up(h, level)|
    ensures Up(h, level)[i / 2] == FoldStep(h, level[i], Pad(level)[SiblingIndex(i)], i % 2 == 1)
  {
    SiblingInRange(i, |level|);
    var j := i / 2;
    ParentsAt(h, Pad(level), j);
    if i % 2 == 0 {
      assert i == 2 * j;
    } else {
      assert i == 2 * j + 1;
    }
  }

  /** `i >> k` on unbounded numbers. */
  function ShiftRight(i: nat, k: nat): nat {
    if k == 0 then i else ShiftRight(i / 2, k - 1)
  }

  /** The sibling of every ancestor of leaf `i`, bottom up. */
  function ProofPath(h: Hash, level: seq<Node>, i: nat): (path: seq<Node>)
    requires i < |level|
    decreases |level|
  {
    if |level| <= 1 then []
    else SiblingInRange(i, |level|); [Pad(level)[SiblingIndex(i)]] + ProofPath(h, Up(h, level), i / 2)
  }

  lemma {:induction false} ProofPathLength(h: Hash, level: seq<Node>, i: nat)
    requires i < |level|
    ensures |ProofPath(h, level, i)| == PathLength(|level|)
    decreases |level|
  {
    PathLengthIsHeight(|level|);
    if |level| > 1 {
      PathLengthIsHeight(|Up(h, level)|);
      ProofPathLength(h, Up(h, level), i / 2);
    }
  }

  lemma ProofPathEntry(h: Hash, level: seq<Node>, i: nat, j: nat)
    requires i < |level| && j < |ProofPath(h, level, i)|
    ensures |level| > 1 && SiblingIndex(i) < |Pad(level)| && i / 2 < |Up(h, level)|
    ensures j == 0 ==> ProofPath(h, level, i)[j] == Pad(level)[SiblingIndex(i)]
    ensures j > 0 ==> j - 1 < |ProofPath(h, Up(h, level), i / 2)|
    ensures j > 0 ==> ProofPath(h, level, i)[j] == ProofPath(h, Up(h, level), i / 2)[j - 1]
  {
    SiblingInRange(i, |level|);
  }

  /** Entry `j` of a proof is the reference tree's sibling of the leaf's ancestor on level `j`. */
  lemma {:induction false} ProofPathIsReference(h: Hash, level: seq<Node>, i: nat, j: nat)
    requires i < |level| && j < |ProofPath(h, level, i)|
    ensures ProofPath(h, level, i)[j] == NodeAt(h, level, j, SiblingIndex(ShiftRight(i, j)))
    decreases j
  {
    ProofPathEntry(h, level, i, j);
    if j == 0 {
      LevelZeroIsPad(h, level, SiblingIndex(i));
    } else {
      var sibling := SiblingIndex(ShiftRight(i / 2, j - 1));
      assert ShiftRight(i, j) == ShiftRight(i / 2, j - 1);
      ProofPathIsReference(h, Up(h, level), i / 2, j - 1);
      NodeAtUp(h, level, j - 1, sibling);
    }
  }

  /** What `get_proof` reads when the rest of the vector starts at the current level. */
  lemma ReadLevel(h: Hash, level: seq<Node>, i: nat, rest: seq<Node>)
    requires i < |level| && |level| > 1 && rest == Flat(h, level)
    ensures SiblingIndex(i) < RoundUpToEven(|level|) <= |rest|
    ensures ProofPath(h, level, i) == [rest[SiblingIndex(i)]] + ProofPath(h, Up(h, level), i / 2)
    ensures rest[RoundUpToEven(|level|)..] == Flat(h, Up(h, level))
  {
    SiblingInRange(i, |level|);
    ConcatSlices(Pad(level), Flat(h, Up(h, level)));
  }

  /** Where `get_proof` stands: `level` starts at `base`, and `path` lacks the part from it on. */
  ghost predicate AtLevel(h: Hash, nodes: seq<Node>, level: seq<Node>, base: nat, i: nat, path: seq<Node>,
                          whole: seq<Node>)
  {
    && i < |level| && base <= |nodes| && nodes[base..] == Flat(h, level)
    && path + ProofPath(h, level, i) == whole
  }

  lemma GetProofStep(h: Hash, nodes: seq<Node>, level: seq<Node>, base: nat, i: nat, path: seq<Node>,
                     whole: seq<Node>)
    requires AtLevel(h, nodes, level, base, i, path, whole) && |level| > 1
    ensures base + SiblingIndex(i) < base + RoundUpToEven(|level|) <= |nodes|
    ensures RoundUpToEven(|level|) / 2 == |Up(h, level)| < |level|
    ensures AtLevel(h, nodes, Up(h, level), base + RoundUpToEven(|level|), i / 2,
                    path + [nodes[base + SiblingIndex(i)]], whole)
  {
    ReadLevel(h, level, i, nodes[base..]);
    ConcatAssociative(path, [nodes[base + SiblingIndex(i)]], ProofPath(h, Up(h, level), i / 2));
    DropDrop(nodes, base, RoundUpToEven(|level|));
  }

  /** One iteration of `get_proof`: reads a sibling and moves on to the next level. */
  method ReadSibling(h: Hash, ghost level: seq<Node>, ghost whole: seq<Node>, nodes: seq<Node>, nLevel: nat,
                     levelIndex: nat, levelBaseIndex: nat, path: seq<Node>)
    returns (nLevel': nat, levelIndex': nat, levelBaseIndex': nat, path': seq<Node>)
    requires AtLevel(h, nodes, level, levelBaseIndex, levelIndex, path, whole) && nLevel == |level| > 1
    ensures AtLevel(h, nodes, Up(h, level), levelBaseIndex', levelIndex', path', whole)
    ensures nLevel' == |Up(h, level)| < nLevel
  {
    GetProofStep(h, nodes, level, levelBaseIndex, levelIndex, path, whole);
    var rounded := RoundUpToEven(nLevel);
    path' := path + [nodes[levelBaseIndex + SiblingIndex(levelIndex)]];
    levelIndex' := levelIndex / 2;
    levelBaseIndex' := levelBaseIndex + rounded;
    nLevel' := rounded / 2;
  }

  lemma AtTop(h: Hash, nodes: seq<Node>, level: seq<Node>, base: nat, i: nat, path: seq<Node>, whole: seq<Node>)
    requires AtLevel(h, nodes, level, base, i, path, whole) && |level| <= 1
    ensures path == whole
  {
  }

  /** `get_proof`, reading the flat vector. */
  method GetProof(h: Hash, ghost leafHashes: seq<Node>, t: MerkleTree, leafIndex: nat)
    returns (r: Result<seq<Node>, MerkleProofError>)
    requires t == MerkleTree(Flat(h, leafHashes), |leafHashes|)
    ensures leafIndex >= |leafHashes| ==> r == Err(LeafIndexOutOfBounds(leafIndex))
    ensures leafIndex < |leafHashes| ==>
              && r == Ok(ProofPath(h, leafHashes, leafIndex))
              && |r.value| == PathLength(|leafHashes|)
  {
    if leafIndex >= t.nLeaves {
      return Err(LeafIndexOutOfBounds(leafIndex));
    }
    var path: seq<Node> := [];
    var levelIndex: nat := leafIndex;
    var nLevel: nat := t.nLeaves;
    var levelBaseIndex: nat := 0;
    ghost var level, whole := leafHashes, ProofPath(h, leafHashes, leafIndex);
    while nLevel > 1
      invariant nLevel == |level|
      invariant AtLevel(h, t.nodes, level, levelBaseIndex, levelIndex, path, whole)
    {
      nLevel, levelIndex, levelBaseIndex, path :=
        ReadSibling(h, level, whole, t.nodes, nLevel, levelIndex, levelBaseIndex, path);
      level := Up(h, level);
    }
    AtTop(h, t.nodes, level, levelBaseIndex, levelIndex, path, whole);
    ProofPathLength(h, leafHashes, leafIndex);
    return Ok(path);
  }

  /** One level of folding: the running hash is a left child on even indices. */
  function FoldStep(h: Hash, current: Node, sibling: Node, isRight: bool): Node {
    if isRight then InnerHash(h, sibling, current) else InnerHash(h, current, sibling)
  }

  function Fold(h: Hash, current: Node, path: seq<Node>, index: nat): Node
    decreases |path|
  {
    if path == [] then current
    else Fold(h, FoldStep(h, current, path[0], index % 2 == 1), path[1..], index / 2)
  }

  /** `index >> len` on a 64-bit word: the shift distance is taken modulo the word size. */
  function WordShiftRight(index: nat, len: nat): nat {
    ShiftRight(index, len % USIZE_BITS)
  }

  function RootFromProof(h: Hash, path: seq<Node>, leaf: bytes, leafIndex: nat): Result<Node, MerkleProofError> {
    if WordShiftRight(leafIndex, |path|) != 0 then Err(LeafIndexOutOfBounds(leafIndex))
    else Ok(Fold(h, LeafHash(h, leaf), path, leafIndex))
  }

  /** `compute_root`. */
  method ComputeRoot(h: Hash, path: seq<Node>, leaf: bytes, leafIndex: nat)
    returns (r: Result<Node, MerkleProofError>)
    ensures r == RootFromProof(h, path, leaf, leafIndex)
  {
    if WordShiftRight(leafIndex, |path|) != 0 {
      return Err(LeafIndexOutOfBounds(leafIndex));
    }
    var currentHash := LeafHash(h, leaf);
    var levelIndex: nat := leafIndex;
    for i := 0 to |path|
      invariant Fold(h, currentHash, path[i..], levelIndex) == Fold(h, LeafHash(h, leaf), path, leafIndex)
    {
      if levelIndex % 2 == 0 {
        currentHash := InnerHash(h, currentHash, path[i]);
      } else {
        currentHash := InnerHash(h, path[i], currentHash);
      }
      levelIndex := levelIndex / 2;
      assert path[i..][1..] == path[i + 1..];
    }
    return Ok(currentHash);
  }

  function Verification(h: Hash, path: seq<Node>, root: Node, leafCount: nat, leaf: bytes, leafIndex: nat)
    : Result<(), MerkleProofError>
  {
    if |path| > PathLength(leafCount) then Err(PathLengthTooLarge)
    else match RootFromProof(h, path, leaf, leafIndex)
      case Err(e) => Err(e)
      case Ok(computed) => if computed == root then Ok(()) else Err(RootMismatch)
  }

  /** `verify_proof`. */
  method VerifyProof(h: Hash, path: seq<Node>, root: Node, leafCount: nat, leaf: bytes, leafIndex: nat)
    returns (r: Result<(), MerkleProofError>)
    ensures r == Verification(h, path, root, leafCount, leaf, leafIndex)
  {
    if |path| > PathLength(leafCount) {
      return Err(PathLengthTooLarge);
    }
    var computed := ComputeRoot(h, path, leaf, leafIndex);
    if computed.Err? {
      return Err(computed.error);
    }
    return if computed.value == root then Ok(()) else Err(RootMismatch);
  }

  // ----- completeness -----

  /** Folding the proof of entry `i` of a level gives the root of the tree above that level. */
  lemma {:induction false} FoldProofPath(h: Hash, level: seq<Node>, i: nat)
    requires i < |level|
    ensures Fold(h, level[i], ProofPath(h, level, i), i) == RootOf(h, level)
    decreases |level|
  {
    if |level| > 1 {
      var up := Up(h, level);
      FoldProofPath(h, up, i / 2);
      UpIsFoldStep(h, level, i);
      assert ProofPath(h, level, i)[1..] == ProofPath(h, up, i / 2);
    }
  }

  lemma {:induction false} ShiftRightIsZero(i: nat, k: nat)
    ensures ShiftRight(i, k) == 0 <==> i < Pow2(k)
  {
    if k > 0 {
      ShiftRightIsZero(i / 2, k - 1);
    }
  }

  function TreeOf(h: Hash, leaves: seq<bytes>): MerkleTree {
    MerkleTree(Flat(h, LeafHashes(h, leaves)), |leaves|)
  }

  /** Whether `verify_proof` accepts the proof `get_proof` returns for leaf `i`. */
  predicate AcceptsOwnProof(h: Hash, leaves: seq<bytes>, i: nat)
    requires i < |leaves|
  {
    var path := ProofPath(h, LeafHashes(h, leaves), i);
    Verification(h, path, TreeOf(h, leaves).Root(), |leaves|, leaves[i], i) == Ok(())
  }

  lemma OwnProofVerdict(h: Hash, leaves: seq<bytes>, i: nat)
    requires i < |leaves|
    ensures AcceptsOwnProof(h, leaves, i) <==> ShiftRight(i, PathLength(|leaves|) % USIZE_BITS) == 0
  {
    FlatRoot(h, LeafHashes(h, leaves));
    FoldProofPath(h, LeafHashes(h, leaves), i);
    ProofPathLength(h, LeafHashes(h, leaves), i);
  }

  /** The bounds check on a word of `bits` bits passes for all indices of a tree unless the path
      is as long as the word and the shift distance wraps to zero. */
  lemma BoundsCheck(n: nat, i: nat, bits: nat, distance: nat)
    requires bits > 0 && i < n <= Pow2(bits)
    requires distance == if PathLength(n) == bits then 0 else PathLength(n)
    ensures PathLength(n) <= bits
    ensures ShiftRight(i, distance) == 0 <==> n <= Pow2(bits - 1) || i == 0
  {
    PathLengthIsLeast(n, bits);
    PathLengthIsLeast(n, bits - 1);
    PathLengthIsLeast(n, PathLength(n));
    ShiftRightIsZero(i, distance);
  }

  lemma WordBoundsCheck(n: nat, i: nat)
    requires i < n <= Pow2(USIZE_BITS)
    ensures ShiftRight(i, PathLength(n) % USIZE_BITS) == 0 <==> n <= Pow2(USIZE_BITS - 1) || i == 0
  {
    var len := PathLength(n);
    BoundsCheck(n, i, USIZE_BITS, if len == USIZE_BITS then 0 else len);
  }

  /** Merkle completeness, with its exact limit: a proof read out of the tree is accepted for its
      own leaf, except that beyond 2^63 leaves the path is as long as a machine word, the bounds
      check shifts by zero, and every index but 0 is refused. */
  lemma Completeness(h: Hash, leaves: seq<bytes>, i: nat)
    requires i < |leaves| <= Pow2(USIZE_BITS)
    ensures AcceptsOwnProof(h, leaves, i) <==> |leaves| <= Pow2(USIZE_BITS - 1) || i == 0
  {
    WordBoundsCheck(|leaves|, i);
    OwnProofVerdict(h, leaves, i);
  }
}
