/** What a Merkle root commits to.

    No property of the hash function is assumed: a proof for a wrong leaf, or two different leaf
    lists with one root, are turned into two byte strings that were hashed and have the same
    digest, or one that was hashed to the 32 zero bytes of an empty subtree. The strings are always
    among the inputs the trees or the verifier actually hashed, so the statements are not met by
    the collisions that exist for every hash function. */
module MerkleBinding {
  import opened ByteStrings
  import opened Merkle

  datatype Extraction =
    | NoBreak
    | Collision(first: bytes, second: bytes)
    | ZeroPreimage(input: bytes)

  // ----- the inputs that get hashed -----

  /** The byte string hashed for the non-empty node `i` of level `k`. */
  function NodeInput(h: Hash, leaves: seq<bytes>, k: nat, i: nat): bytes
    requires FirstLeaf(k, i) < |leaves|
  {
    if k == 0 then LEAF_PREFIX + leaves[i]
    else InnerInput(NodeAt(h, LeafHashes(h, leaves), k - 1, 2 * i),
                    NodeAt(h, LeafHashes(h, leaves), k - 1, 2 * i + 1))
  }

  /** The byte strings hashed while building the tree over `leaves`. */
  ghost predicate HashedByTree(h: Hash, leaves: seq<bytes>, input: bytes) {
    exists k: nat, i: nat ::
      k <= Height(|leaves|) && FirstLeaf(k, i) < |leaves| && input == NodeInput(h, leaves, k, i)
  }

  function FoldedTo(h: Hash, leaf: bytes, path: seq<Node>, index: nat): Node {
    Fold(h, LeafHash(h, leaf), path, index)
  }

  predicate IsRightChild(index: nat, level: nat) {
    ShiftRight(index, level) % 2 == 1
  }

  /** The byte string hashed in the last step of folding `path`. */
  function FoldInput(h: Hash, leaf: bytes, path: seq<Node>, index: nat): bytes {
    if path == [] then LEAF_PREFIX + leaf
    else
      var top := |path| - 1;
      var below := FoldedTo(h, leaf, path[..top], index);
      if IsRightChild(index, top) then InnerInput(path[top], below) else InnerInput(below, path[top])
  }

  /** The byte strings hashed by `compute_root`. */
  ghost predicate HashedByProof(h: Hash, leaf: bytes, path: seq<Node>, index: nat, input: bytes) {
    exists j | 0 <= j <= |path| :: input == FoldInput(h, leaf, path[..j], index)
  }

  lemma {:induction false} FoldLast(h: Hash, current: Node, path: seq<Node>, index: nat)
    requires path != []
    ensures Fold(h, current, path, index)
            == FoldStep(h, Fold(h, current, path[..|path| - 1], index), path[|path| - 1],
                        IsRightChild(index, |path| - 1))
    decreases |path|
  {
    if |path| > 1 {
      FoldLast(h, FoldStep(h, current, path[0], index % 2 == 1), path[1..], index / 2);
      assert path[..|path| - 1][1..] == path[1..][..|path| - 2];
    }
  }

  /** The bottom-up fold, seen from the top. */
  lemma FoldIsHashOfInput(h: Hash, leaf: bytes, path: seq<Node>, index: nat)
    ensures FoldedTo(h, leaf, path, index) == Digested(h(FoldInput(h, leaf, path, index)))
  {
    if path != [] {
      FoldLast(h, LeafHash(h, leaf), path, index);
    }
  }

  lemma NodeIsHashOfInput(h: Hash, leaves: seq<bytes>, k: nat, i: nat)
    requires FirstLeaf(k, i) < |leaves|
    ensures NodeAt(h, LeafHashes(h, leaves), k, i) == Digested(h(NodeInput(h, leaves, k, i)))
  {
  }

  lemma InnerInputInjective(l: Node, r: Node, l': Node, r': Node)
    requires InnerInput(l, r) == InnerInput(l', r')
    ensures l.Bytes() == l'.Bytes() && r.Bytes() == r'.Bytes()
  {
    var s := InnerInput(l, r);
    assert s[1..33] == l.Bytes() && s[33..] == r.Bytes();
    assert s[1..33] == l'.Bytes() && s[33..] == r'.Bytes();
  }

  // ----- soundness of proofs -----

  /** The leaf reached from node `i` of level `k` by following the bits of `index` downwards. */
  function LeafBelow(k: nat, i: nat, index: nat): nat {
    if k == 0 then i
    else LeafBelow(k - 1, ChildOnPath(i, index, k - 1), index)
  }

  lemma {:induction false} ShiftRightOnce(index: nat, k: nat)
    ensures ShiftRight(index, k + 1) == ShiftRight(index, k) / 2
  {
    if k > 0 {
      ShiftRightOnce(index / 2, k - 1);
    }
  }

  lemma {:induction false} LeafBelowIsIndex(k: nat, index: nat)
    ensures LeafBelow(k, ShiftRight(index, k), index) == index
  {
    if k > 0 {
      ShiftRightOnce(index, k - 1);
      LeafBelowIsIndex(k - 1, index);
    }
  }

  lemma {:induction false} ShiftRightStaysZero(index: nat, k: nat, more: nat)
    requires ShiftRight(index, k) == 0
    ensures ShiftRight(index, k + more) == 0
    decreases more
  {
    if more > 0 {
      ShiftRightStaysZero(index, k, more - 1);
      ShiftRightOnce(index, k + more - 1);
    }
  }

  /** Compares what the tree hashes at node `i` of level `k` with what the proof hashes last. */
  function CompareWithProof(h: Hash, leaves: seq<bytes>, k: nat, i: nat, leaf: bytes, path: seq<Node>, index: nat)
    : Extraction
  {
    var hashed := FoldInput(h, leaf, path, index);
    if FirstLeaf(k, i) >= |leaves| then ZeroPreimage(hashed)
    else if NodeInput(h, leaves, k, i) == hashed then NoBreak
    else Collision(NodeInput(h, leaves, k, i), hashed)
  }

  function ChildOnPath(i: nat, index: nat, level: nat): nat {
    2 * i + (if IsRightChild(index, level) then 1 else 0)
  }

  ghost predicate ProofBroken(h: Hash, leaves: seq<bytes>, leaf: bytes, path: seq<Node>, index: nat, e: Extraction)
    requires !e.NoBreak?
  {
    match e
    case Collision(a, b) =>
      a != b && h(a) == h(b) && HashedByTree(h, leaves, a) && HashedByProof(h, leaf, path, index, b)
    case ZeroPreimage(b) => h(b) == EMPTY_NODE && HashedByProof(h, leaf, path, index, b)
  }

  lemma ProofBrokenExtends(h: Hash, leaves: seq<bytes>, leaf: bytes, path: seq<Node>, n: nat, index: nat, e: Extraction)
    requires n <= |path| && !e.NoBreak? && ProofBroken(h, leaves, leaf, path[..n], index, e)
    ensures ProofBroken(h, leaves, leaf, path, index, e)
  {
    var b := if e.Collision? then e.second else e.input;
    var j :| 0 <= j <= n && b == FoldInput(h, leaf, path[..n][..j], index);
    assert path[..n][..j] == path[..j];
  }

  lemma CompareWithProofSound(h: Hash, leaves: seq<bytes>, k: nat, i: nat, leaf: bytes, path: seq<Node>, index: nat)
    requires k <= Height(|leaves|)
    requires FoldedTo(h, leaf, path, index).Bytes() == NodeAt(h, LeafHashes(h, leaves), k, i).Bytes()
    requires !CompareWithProof(h, leaves, k, i, leaf, path, index).NoBreak?
    ensures ProofBroken(h, leaves, leaf, path, index, CompareWithProof(h, leaves, k, i, leaf, path, index))
  {
    FoldIsHashOfInput(h, leaf, path, index);
    assert path[..|path|] == path;
    assert HashedByProof(h, leaf, path, index, FoldInput(h, leaf, path, index));
    if FirstLeaf(k, i) < |leaves| {
      NodeIsHashOfInput(h, leaves, k, i);
      assert HashedByTree(h, leaves, NodeInput(h, leaves, k, i));
    }
  }

  /** Equal inputs on both sides let the walk go one level down. */
  lemma DescendWithProof(h: Hash, leaves: seq<bytes>, k: nat, i: nat, leaf: bytes, path: seq<Node>, index: nat)
    requires k > 0 && path != [] && FirstLeaf(k, i) < |leaves|
    requires NodeInput(h, leaves, k, i) == FoldInput(h, leaf, path, index)
    ensures FoldedTo(h, leaf, path[..|path| - 1], index).Bytes()
            == NodeAt(h, LeafHashes(h, leaves), k - 1, ChildOnPath(i, index, |path| - 1)).Bytes()
  {
    var top := |path| - 1;
    var below := FoldedTo(h, leaf, path[..top], index);
    var left := NodeAt(h, LeafHashes(h, leaves), k - 1, 2 * i);
    var right := NodeAt(h, LeafHashes(h, leaves), k - 1, 2 * i + 1);
    if IsRightChild(index, top) {
      InnerInputInjective(left, right, path[top], below);
    } else {
      InnerInputInjective(left, right, below, path[top]);
    }
  }

  /** What a walk from node `i` of level `k` establishes. */
  ghost predicate ProofWalkResult(h: Hash, leaves: seq<bytes>, k: nat, i: nat, leaf: bytes, path: seq<Node>,
                                  index: nat, e: Extraction)
  {
    if e.NoBreak? then
      && |path| == k
      && LeafBelow(k, i, index) < |leaves| && leaf == leaves[LeafBelow(k, i, index)]
    else ProofBroken(h, leaves, leaf, path, index, e)
  }

  lemma ProofWalkExtends(h: Hash, leaves: seq<bytes>, k: nat, i: nat, leaf: bytes, path: seq<Node>, index: nat,
                         e: Extraction)
    requires k > 0 && path != []
    requires ProofWalkResult(h, leaves, k - 1, ChildOnPath(i, index, |path| - 1), leaf, path[..|path| - 1], index, e)
    ensures ProofWalkResult(h, leaves, k, i, leaf, path, index, e)
  {
    if !e.NoBreak? {
      ProofBrokenExtends(h, leaves, leaf, path, |path| - 1, index, e);
    }
  }

  /** Folding `path` gives the bytes of node `i` of level `k`. */
  ghost predicate FoldsTo(h: Hash, leaves: seq<bytes>, k: nat, i: nat, leaf: bytes, path: seq<Node>, index: nat) {
    FoldedTo(h, leaf, path, index).Bytes() == NodeAt(h, LeafHashes(h, leaves), k, i).Bytes()
  }

  /** One step of the walk: it ends, or goes on with the child on the path. */
  lemma ProofWalkStep(h: Hash, leaves: seq<bytes>, k: nat, i: nat, leaf: bytes, path: seq<Node>, index: nat)
    returns (e: Extraction, goOn: bool)
    requires k <= Height(|leaves|) && FoldsTo(h, leaves, k, i, leaf, path, index)
    ensures !goOn ==> ProofWalkResult(h, leaves, k, i, leaf, path, index, e)
    ensures goOn ==>
              && k > 0 && path != []
              && FoldsTo(h, leaves, k - 1, ChildOnPath(i, index, |path| - 1), leaf, path[..|path| - 1], index)
  {
    e, goOn := CompareWithProof(h, leaves, k, i, leaf, path, index), false;
    if !e.NoBreak? {
      CompareWithProofSound(h, leaves, k, i, leaf, path, index);
    } else {
      SamePrefix(h, leaves, k, i, leaf, path, index);
      if k > 0 {
        DescendWithProof(h, leaves, k, i, leaf, path, index);
        goOn := true;
      }
    }
  }

  /** Walks down tree and proof together. */
  lemma {:induction false} WalkProof(h: Hash, leaves: seq<bytes>, k: nat, i: nat, leaf: bytes,
                                     path: seq<Node>, index: nat)
    returns (e: Extraction)
    requires k <= Height(|leaves|) && FoldsTo(h, leaves, k, i, leaf, path, index)
    ensures ProofWalkResult(h, leaves, k, i, leaf, path, index, e)
    decreases k
  {
    var goOn;
    e, goOn := ProofWalkStep(h, leaves, k, i, leaf, path, index);
    if goOn {
      e := WalkProof(h, leaves, k - 1, ChildOnPath(i, index, |path| - 1), leaf, path[..|path| - 1], index);
      ProofWalkExtends(h, leaves, k, i, leaf, path, index, e);
    }
  }

  /** The prefix bytes keep leaves and inner nodes apart. */
  lemma SamePrefix(h: Hash, leaves: seq<bytes>, k: nat, i: nat, leaf: bytes, path: seq<Node>, index: nat)
    requires FirstLeaf(k, i) < |leaves|
    requires NodeInput(h, leaves, k, i) == FoldInput(h, leaf, path, index)
    ensures k == 0 <==> path == []
    ensures k == 0 ==> leaf == leaves[i]
  {
    assert NodeInput(h, leaves, k, i)[0] == (if k == 0 then 0 else 1);
    assert FoldInput(h, leaf, path, index)[0] == (if path == [] then 0 else 1);
    if k == 0 {
      assert (LEAF_PREFIX + leaves[i])[1..] == leaves[i] && (LEAF_PREFIX + leaf)[1..] == leaf;
    }
  }

  /** Merkle soundness. Whatever path is presented, and whatever leaf count the caller passes, an
      accepted proof against the root of `leaves` is for a leaf of the list at its own index;
      otherwise the proof exhibits a break of the hash function. */
  lemma ProofSoundness(h: Hash, leaves: seq<bytes>, path: seq<Node>, leafCount: nat, leaf: bytes, index: nat)
    returns (e: Extraction)
    requires Verification(h, path, TreeOf(h, leaves).Root(), leafCount, leaf, index) == Ok(())
    ensures if e.NoBreak? then index < |leaves| && leaf == leaves[index]
            else ProofBroken(h, leaves, leaf, path, index, e)
  {
    var k := PathLength(|leaves|);
    PathLengthIsHeight(|leaves|);
    TreeRoot(h, LeafHashes(h, leaves));
    FoldIsHashOfInput(h, leaf, path, index);
    e := WalkProof(h, leaves, k, 0, leaf, path, index);
    if e.NoBreak? {
      IndexBelowRoot(k, index);
    }
  }

  /** An index that passes the word-sized bounds check for a path of length `k` is the leaf its
      bits lead to from the root. */
  lemma IndexBelowRoot(k: nat, index: nat)
    requires WordShiftRight(index, k) == 0
    ensures LeafBelow(k, 0, index) == index
  {
    ShiftRightStaysZero(index, k % USIZE_BITS, k - k % USIZE_BITS);
    LeafBelowIsIndex(k, index);
  }

  // ----- binding of roots -----

  /** Compares what the two trees hash at node `i`; one stands on level `ka`, the other on `kb`. */
  function CompareNodes(h: Hash, a: seq<bytes>, ka: nat, b: seq<bytes>, kb: nat, i: nat): Extraction {
    if FirstLeaf(ka, i) >= |a| && FirstLeaf(kb, i) >= |b| then NoBreak
    else if FirstLeaf(ka, i) >= |a| then ZeroPreimage(NodeInput(h, b, kb, i))
    else if FirstLeaf(kb, i) >= |b| then ZeroPreimage(NodeInput(h, a, ka, i))
    else if NodeInput(h, a, ka, i) == NodeInput(h, b, kb, i) then NoBreak
    else Collision(NodeInput(h, a, ka, i), NodeInput(h, b, kb, i))
  }

  ghost predicate TreesBroken(h: Hash, a: seq<bytes>, b: seq<bytes>, e: Extraction)
    requires !e.NoBreak?
  {
    match e
    case Collision(x, y) => x != y && h(x) == h(y) && HashedByTree(h, a, x) && HashedByTree(h, b, y)
    case ZeroPreimage(x) =>
      |a| != |b| && h(x) == EMPTY_NODE && (HashedByTree(h, a, x) || HashedByTree(h, b, x))
  }

  /** The two lists have the same leaves below node `i` of level `k`. */
  ghost predicate SameBelow(a: seq<bytes>, b: seq<bytes>, k: nat, i: nat) {
    forall j | FirstLeaf(k, i) <= j < FirstLeaf(k, i + 1) :: SameAt(a, b, j)
  }

  predicate SameAt(a: seq<bytes>, b: seq<bytes>, j: nat) {
    (j < |a| <==> j < |b|) && (j < |a| && j < |b| ==> a[j] == b[j])
  }

  lemma SameBelowChildren(a: seq<bytes>, b: seq<bytes>, k: nat, i: nat)
    requires k > 0 && SameBelow(a, b, k - 1, 2 * i) && SameBelow(a, b, k - 1, 2 * i + 1)
    ensures SameBelow(a, b, k, i)
  {
    forall j | FirstLeaf(k, i) <= j < FirstLeaf(k, i + 1)
      ensures SameAt(a, b, j)
    {
      assert j < FirstLeaf(k - 1, 2 * i + 1) || FirstLeaf(k - 1, 2 * i + 1) <= j;
    }
  }

  lemma SameTreePrefix(h: Hash, a: seq<bytes>, ka: nat, b: seq<bytes>, kb: nat, i: nat)
    requires FirstLeaf(ka, i) < |a| && FirstLeaf(kb, i) < |b|
    requires NodeInput(h, a, ka, i) == NodeInput(h, b, kb, i)
    ensures ka == 0 <==> kb == 0
    ensures ka == 0 ==> a[i] == b[i]
  {
    assert NodeInput(h, a, ka, i)[0] == (if ka == 0 then 0 else 1);
    assert NodeInput(h, b, kb, i)[0] == (if kb == 0 then 0 else 1);
    if ka == 0 && kb == 0 {
      assert (LEAF_PREFIX + a[i])[1..] == a[i] && (LEAF_PREFIX + b[i])[1..] == b[i];
    }
  }

  /** Equal inputs of two inner nodes let both walks go one level down. */
  lemma DescendBoth(h: Hash, a: seq<bytes>, ka: nat, b: seq<bytes>, kb: nat, i: nat)
    requires ka > 0 && kb > 0 && FirstLeaf(ka, i) < |a| && FirstLeaf(kb, i) < |b|
    requires NodeInput(h, a, ka, i) == NodeInput(h, b, kb, i)
    ensures NodeAt(h, LeafHashes(h, a), ka - 1, 2 * i).Bytes() == NodeAt(h, LeafHashes(h, b), kb - 1, 2 * i).Bytes()
    ensures NodeAt(h, LeafHashes(h, a), ka - 1, 2 * i + 1).Bytes()
            == NodeAt(h, LeafHashes(h, b), kb - 1, 2 * i + 1).Bytes()
  {
    InnerInputInjective(NodeAt(h, LeafHashes(h, a), ka - 1, 2 * i), NodeAt(h, LeafHashes(h, a), ka - 1, 2 * i + 1),
                        NodeAt(h, LeafHashes(h, b), kb - 1, 2 * i), NodeAt(h, LeafHashes(h, b), kb - 1, 2 * i + 1));
  }

  lemma CompareNodesSound(h: Hash, a: seq<bytes>, ka: nat, b: seq<bytes>, kb: nat, i: nat)
    requires ka <= Height(|a|) && kb <= Height(|b|) && (|a| == |b| ==> ka == kb)
    requires NodeAt(h, LeafHashes(h, a), ka, i).Bytes() == NodeAt(h, LeafHashes(h, b), kb, i).Bytes()
    requires !CompareNodes(h, a, ka, b, kb, i).NoBreak?
    ensures TreesBroken(h, a, b, CompareNodes(h, a, ka, b, kb, i))
  {
    if FirstLeaf(ka, i) < |a| {
      NodeIsHashOfInput(h, a, ka, i);
      assert HashedByTree(h, a, NodeInput(h, a, ka, i));
    }
    if FirstLeaf(kb, i) < |b| {
      NodeIsHashOfInput(h, b, kb, i);
      assert HashedByTree(h, b, NodeInput(h, b, kb, i));
    }
  }

  /** The two trees have the same bytes at node `i`. */
  ghost predicate AgreeAt(h: Hash, a: seq<bytes>, ka: nat, b: seq<bytes>, kb: nat, i: nat) {
    NodeAt(h, LeafHashes(h, a), ka, i).Bytes() == NodeAt(h, LeafHashes(h, b), kb, i).Bytes()
  }

  /** The lists do not differ below node `i`, and only trees of one height have a leaf there. */
  ghost predicate AlikeBelow(a: seq<bytes>, ka: nat, b: seq<bytes>, kb: nat, i: nat) {
    && (FirstLeaf(ka, i) < |a| ==> ka == kb)
    && (ka == kb ==> SameBelow(a, b, ka, i))
  }

  lemma AlikeAtEnd(h: Hash, a: seq<bytes>, ka: nat, b: seq<bytes>, kb: nat, i: nat)
    requires CompareNodes(h, a, ka, b, kb, i).NoBreak?
    requires ka == 0 || kb == 0 || FirstLeaf(ka, i) >= |a|
    ensures AlikeBelow(a, ka, b, kb, i)
  {
    if FirstLeaf(ka, i) < |a| {
      SameTreePrefix(h, a, ka, b, kb, i);
    }
  }

  lemma AlikeBelowChildren(a: seq<bytes>, ka: nat, b: seq<bytes>, kb: nat, i: nat)
    requires ka > 0 && kb > 0 && FirstLeaf(ka, i) < |a|
    requires AlikeBelow(a, ka - 1, b, kb - 1, 2 * i) && AlikeBelow(a, ka - 1, b, kb - 1, 2 * i + 1)
    ensures AlikeBelow(a, ka, b, kb, i)
  {
    if ka == kb {
      SameBelowChildren(a, b, ka, i);
    }
  }

  /** `agree` tells at which nodes the trees agree, `broken` holds the breaks they exhibit. */
  ghost predicate Tracks(h: Hash, a: seq<bytes>, b: seq<bytes>, agree: (nat, nat, nat) -> bool,
                         broken: iset<Extraction>)
  {
    && (forall ka: nat, kb: nat, i: nat {:trigger AgreeAt(h, a, ka, b, kb, i)} ::
         agree(ka, kb, i) <==> AgreeAt(h, a, ka, b, kb, i))
    && (forall e: Extraction {:trigger TreesBroken(h, a, b, e)} | !e.NoBreak? ::
         e in broken <==> TreesBroken(h, a, b, e))
  }

  lemma Tracker(h: Hash, a: seq<bytes>, b: seq<bytes>)
    returns (agree: (nat, nat, nat) -> bool, broken: iset<Extraction>)
    ensures Tracks(h, a, b, agree, broken)
  {
    agree := (ka: nat, kb: nat, i: nat) => AgreeAt(h, a, ka, b, kb, i);
    broken := iset e: Extraction | !e.NoBreak? && TreesBroken(h, a, b, e);
  }

  /** One step of the walk: it ends with a break, ends without one, or goes on with both children. */
  lemma WalkStep(h: Hash, a: seq<bytes>, ka: nat, b: seq<bytes>, kb: nat, i: nat, agree: (nat, nat, nat) -> bool,
                 broken: iset<Extraction>) returns (e: Extraction, goOn: bool)
    requires ka <= Height(|a|) && kb <= Height(|b|) && (|a| == |b| ==> ka == kb)
    requires Tracks(h, a, b, agree, broken) && agree(ka, kb, i)
    ensures !e.NoBreak? ==> e in broken
    ensures e.NoBreak? && !goOn ==> AlikeBelow(a, ka, b, kb, i)
    ensures e.NoBreak? && goOn ==>
              && ka > 0 && kb > 0 && FirstLeaf(ka, i) < |a|
              && agree(ka - 1, kb - 1, 2 * i) && agree(ka - 1, kb - 1, 2 * i + 1)
  {
    e, goOn := CompareNodes(h, a, ka, b, kb, i), false;
    assert AgreeAt(h, a, ka, b, kb, i);
    if !e.NoBreak? {
      CompareNodesSound(h, a, ka, b, kb, i);
    } else if ka == 0 || kb == 0 || FirstLeaf(ka, i) >= |a| {
      AlikeAtEnd(h, a, ka, b, kb, i);
    } else {
      DescendBoth(h, a, ka, b, kb, i);
      assert AgreeAt(h, a, ka - 1, b, kb - 1, 2 * i) && AgreeAt(h, a, ka - 1, b, kb - 1, 2 * i + 1);
      goOn := true;
    }
  }

  /** Walks down two trees together. */
  lemma {:induction false} WalkTrees(h: Hash, a: seq<bytes>, ka: nat, b: seq<bytes>, kb: nat, i: nat,
                                     agree: (nat, nat, nat) -> bool, broken: iset<Extraction>)
    returns (e: Extraction)
    requires ka <= Height(|a|) && kb <= Height(|b|) && (|a| == |b| ==> ka == kb)
    requires Tracks(h, a, b, agree, broken) && agree(ka, kb, i)
    ensures if e.NoBreak? then AlikeBelow(a, ka, b, kb, i) else e in broken
    decreases ka
  {
    var goOn;
    e, goOn := WalkStep(h, a, ka, b, kb, i, agree, broken);
    if e.NoBreak? && goOn {
      e := WalkTrees(h, a, ka - 1, b, kb - 1, 2 * i, agree, broken);
      if e.NoBreak? {
        e := WalkTrees(h, a, ka - 1, b, kb - 1, 2 * i + 1, agree, broken);
      }
      if e.NoBreak? {
        AlikeBelowChildren(a, ka, b, kb, i);
      }
    }
  }

  lemma {:induction false} TreeCoversLeaves(n: nat)
    ensures FirstLeaf(Height(n), 0) == 0 && n <= FirstLeaf(Height(n), 1)
  {
    if n > 1 {
      TreeCoversLeaves((n + 1) / 2);
      FirstLeafDoubles(Height((n + 1) / 2), 0);
      FirstLeafDoubles(Height((n + 1) / 2), 1);
    }
  }

  /** The root commits to the whole list: two non-empty lists whose roots have the same bytes are
      equal, or the two trees exhibit a break, which is a collision if the lists are equally long. */
  lemma RootBinding(h: Hash, a: seq<bytes>, b: seq<bytes>) returns (e: Extraction)
    requires a != [] && b != []
    requires TreeOf(h, a).Root().Bytes() == TreeOf(h, b).Root().Bytes()
    ensures if e.NoBreak? then a == b else TreesBroken(h, a, b, e)
  {
    PathLengthIsHeight(|a|);
    PathLengthIsHeight(|b|);
    TreeRoot(h, LeafHashes(h, a));
    TreeRoot(h, LeafHashes(h, b));
    TreeCoversLeaves(|a|);
    TreeCoversLeaves(|b|);
    var agree, broken := Tracker(h, a, b);
    assert AgreeAt(h, a, Height(|a|), b, Height(|b|), 0);
    e := WalkTrees(h, a, Height(|a|), b, Height(|b|), 0, agree, broken);
    if e.NoBreak? {
      SameEverywhere(a, b, Height(|a|));
    }
  }

  lemma SameEverywhere(a: seq<bytes>, b: seq<bytes>, k: nat)
    requires a != [] && b != [] && SameBelow(a, b, k, 0)
    requires FirstLeaf(k, 0) == 0 && |a| <= FirstLeaf(k, 1) && |b| <= FirstLeaf(k, 1)
    ensures a == b
  {
    assert SameAt(a, b, |a| - 1) && SameAt(a, b, |b| - 1);
    forall j | 0 <= j < |a|
      ensures a[j] == b[j]
    {
      assert SameAt(a, b, j);
    }
  }
}
