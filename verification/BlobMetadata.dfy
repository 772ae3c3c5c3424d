/** Blob metadata, its verification, and what a blob ID commits to. */
module Metadata {
  import opened ByteStrings
  import opened Merkle
  import opened MerkleBinding
  import opened MerkleBytes

  type NonZeroU16 = n: nat | 1 <= n < 0x1_0000 witness 1

  /** The encoding type by its `repr(u8)` code; RS2 has code 1. */
  datatype EncodingType = EncodingType(code: byte)

  datatype SliverPairMetadata = SliverPairMetadata(primaryHash: Node, secondaryHash: Node)

  datatype BlobMetadata = BlobMetadata(
    encodingType: EncodingType,
    unencodedLength: u64,
    hashes: seq<SliverPairMetadata>)

  datatype EncodingConfig = EncodingConfig(nShards: NonZeroU16, maxBlobSize: EncodingType -> u64)

  datatype VerificationError =
    | InvalidHashCount(actual: nat, expected: nat)
    | BlobIdMismatch
    | UnencodedLengthTooLarge

  function PairLeafInput(pair: SliverPairMetadata): bytes {
    pair.primaryHash.Bytes() + pair.secondaryHash.Bytes()
  }

  function LeafInputs(m: BlobMetadata): seq<bytes> {
    seq(|m.hashes|, i requires 0 <= i < |m.hashes| => PairLeafInput(m.hashes[i]))
  }

  function RootHash(h: Hash, m: BlobMetadata): Node {
    TreeOf(h, LeafInputs(m)).Root()
  }

  /** `compute_root_hash`, through the loop that builds the tree. */
  method ComputeRootHash(h: Hash, m: BlobMetadata) returns (root: Node)
    ensures root == RootHash(h, m)
  {
    var tree := BuildFromLeafHashes(h, LeafHashes(h, LeafInputs(m)));
    root := tree.Root();
  }

  /** What a blob ID is the hash of: encoding type, little-endian length and Merkle root. */
  function BlobIdInput(h: Hash, m: BlobMetadata): bytes {
    [m.encodingType.code] + ToLe(m.unencodedLength, 8) + RootHash(h, m).Bytes()
  }

  function BlobIdOf(h: Hash, m: BlobMetadata): Digest {
    h(BlobIdInput(h, m))
  }

  /** `verify`, with its checks in source order. */
  function Verify(h: Hash, config: EncodingConfig, blobId: Digest, m: BlobMetadata)
    : Result<(Digest, BlobMetadata), VerificationError>
  {
    if |m.hashes| != config.nShards then Err(InvalidHashCount(|m.hashes|, config.nShards))
    else if m.unencodedLength > config.maxBlobSize(m.encodingType) then Err(UnencodedLengthTooLarge)
    else if BlobIdOf(h, m) != blobId then Err(BlobIdMismatch)
    else Ok((blobId, m))
  }

  /** When metadata verifies, and which error it gets otherwise: the number of hashes is checked first, then
      the length, then the blob ID. */
  lemma VerifyExactly(h: Hash, config: EncodingConfig, blobId: Digest, m: BlobMetadata)
    ensures var r := Verify(h, config, blobId, m);
            var counted := |m.hashes| == config.nShards;
            var fits := m.unencodedLength <= config.maxBlobSize(m.encodingType);
            var named := BlobIdOf(h, m) == blobId;
            && (r.Ok? <==> counted && fits && named)
            && (r.Ok? ==> r.value == (blobId, m))
            && (r == Err(InvalidHashCount(|m.hashes|, config.nShards)) <==> !counted)
            && (r == Err(UnencodedLengthTooLarge) <==> counted && !fits)
            && (r == Err(BlobIdMismatch) <==> counted && fits && !named)
  {
  }

  /** The leaves of the metadata tree: a zero byte, the primary and the secondary hash of each pair. */
  lemma MetadataLeaf(h: Hash, m: BlobMetadata, i: nat)
    requires i < |m.hashes|
    ensures var v := Vector(h, LeafInputs(m));
            && i < |v|
            && v[i] == Digested(h([0] + (m.hashes[i].primaryHash.Bytes() + m.hashes[i].secondaryHash.Bytes())))
            && RootHash(h, m) == v[|v| - 1] && TreeOf(h, LeafInputs(m)).nLeaves == |m.hashes|
  {
    LeafBytes(h, LeafInputs(m), i);
  }

  /** The 41 bytes a blob ID is the hash of: the encoding type, the length low byte first, the root. */
  lemma BlobIdBytes(h: Hash, m: BlobMetadata) returns (s: bytes)
    ensures BlobIdOf(h, m) == h(s) && |s| == 41
    ensures s[0] == m.encodingType.code
    ensures m.unencodedLength == LowFirst(s[1], s[2], s[3], s[4], s[5], s[6], s[7], s[8])
    ensures s[9..] == RootHash(h, m).Bytes()
  {
    s := BlobIdInput(h, m);
    var length := ToLe(m.unencodedLength, 8);
    assert s[1..9] == length && s[9..] == RootHash(h, m).Bytes();
    assert Pow256(8) == 0x1_0000_0000_0000_0000;
    LeRoundTrip(m.unencodedLength, 8);
    LeValueOfEight(length);
    assert forall i | 0 <= i < 8 :: s[1 + i] == length[i];
  }

  /** The two metadata values say the same about the blob; `Empty` and the all-zero digest have the
      same bytes and are not told apart. */
  ghost predicate SameContent(m: BlobMetadata, m': BlobMetadata) {
    && m.encodingType == m'.encodingType
    && m.unencodedLength == m'.unencodedLength
    && |m.hashes| == |m'.hashes|
    && forall i | 0 <= i < |m.hashes| :: SamePair(m.hashes[i], m'.hashes[i])
  }

  predicate SamePair(p: SliverPairMetadata, p': SliverPairMetadata) {
    p.primaryHash.Bytes() == p'.primaryHash.Bytes() && p.secondaryHash.Bytes() == p'.secondaryHash.Bytes()
  }

  /** The byte strings hashed on the way from `m` to its blob ID. */
  ghost predicate HashedForBlobId(h: Hash, m: BlobMetadata, input: bytes) {
    input == BlobIdInput(h, m) || HashedByTree(h, LeafInputs(m), input)
  }

  lemma PairLeafInputInjective(p: SliverPairMetadata, p': SliverPairMetadata)
    ensures PairLeafInput(p) == PairLeafInput(p') <==> SamePair(p, p')
  {
    var s, s' := PairLeafInput(p), PairLeafInput(p');
    assert s[..32] == p.primaryHash.Bytes() && s[32..] == p.secondaryHash.Bytes();
    assert s'[..32] == p'.primaryHash.Bytes() && s'[32..] == p'.secondaryHash.Bytes();
  }

  lemma BlobIdInputInjective(h: Hash, m: BlobMetadata, m': BlobMetadata)
    requires BlobIdInput(h, m) == BlobIdInput(h, m')
    ensures m.encodingType == m'.encodingType
    ensures m.unencodedLength == m'.unencodedLength
    ensures RootHash(h, m).Bytes() == RootHash(h, m').Bytes()
  {
    var s := BlobIdInput(h, m);
    assert s[0] == m.encodingType.code && s[0] == m'.encodingType.code;
    assert s[1..9] == ToLe(m.unencodedLength, 8) && s[1..9] == ToLe(m'.unencodedLength, 8);
    assert s[9..] == RootHash(h, m).Bytes() && s[9..] == RootHash(h, m').Bytes();
    LengthBytesInjective(m.unencodedLength, m'.unencodedLength);
  }

  lemma LengthBytesInjective(a: u64, b: u64)
    requires ToLe(a, 8) == ToLe(b, 8)
    ensures a == b
  {
    assert Pow256(8) == 0x1_0000_0000_0000_0000;
    LeRoundTrip(a, 8);
    LeRoundTrip(b, 8);
  }

  lemma SameLeafInputs(m: BlobMetadata, m': BlobMetadata)
    requires LeafInputs(m) == LeafInputs(m')
    ensures |m.hashes| == |m'.hashes|
    ensures forall i | 0 <= i < |m.hashes| :: SamePair(m.hashes[i], m'.hashes[i])
  {
    assert |LeafInputs(m)| == |m.hashes| && |LeafInputs(m')| == |m'.hashes|;
    forall i | 0 <= i < |m.hashes|
      ensures SamePair(m.hashes[i], m'.hashes[i])
    {
      assert LeafInputs(m)[i] == PairLeafInput(m.hashes[i]);
      assert LeafInputs(m')[i] == PairLeafInput(m'.hashes[i]);
      PairLeafInputInjective(m.hashes[i], m'.hashes[i]);
    }
  }

  /** Blob ID binding: metadata that verifies under one configuration with one blob ID has the same
      encoding type, length and sliver hash bytes, or exhibits a collision among the inputs that
      were hashed for the two. */
  lemma BlobIdBinding(h: Hash, config: EncodingConfig, blobId: Digest, m: BlobMetadata, m': BlobMetadata)
    returns (e: Extraction)
    requires Verify(h, config, blobId, m).Ok? && Verify(h, config, blobId, m').Ok?
    ensures if e.NoBreak? then SameContent(m, m')
            else
              && e.Collision? && e.first != e.second && h(e.first) == h(e.second)
              && HashedForBlobId(h, m, e.first) && HashedForBlobId(h, m', e.second)
  {
    if BlobIdInput(h, m) != BlobIdInput(h, m') {
      e := Collision(BlobIdInput(h, m), BlobIdInput(h, m'));
    } else {
      BlobIdInputInjective(h, m, m');
      e := RootBinding(h, LeafInputs(m), LeafInputs(m'));
      if e.NoBreak? {
        SameLeafInputs(m, m');
      }
    }
  }

  /** The converse: the blob ID is a function of that content alone. */
  lemma BlobIdIsOfContent(h: Hash, m: BlobMetadata, m': BlobMetadata)
    requires SameContent(m, m')
    ensures BlobIdOf(h, m) == BlobIdOf(h, m')
  {
    forall i | 0 <= i < |m.hashes|
      ensures LeafInputs(m)[i] == LeafInputs(m')[i]
    {
      PairLeafInputInjective(m.hashes[i], m'.hashes[i]);
    }
    assert LeafInputs(m) == LeafInputs(m');
  }

  /** Agreement on the nodes themselves is false: marking a sliver hash `Empty` or giving the all-zero
      digest are different metadata that both verify under one configuration with one blob ID, for every
      hash function. */
  lemma BlobIdConfusesEmptyWithZero(h: Hash, length: u64, other: Node)
    returns (config: EncodingConfig, blobId: Digest, m: BlobMetadata, m': BlobMetadata)
    ensures Verify(h, config, blobId, m).Ok? && Verify(h, config, blobId, m').Ok?
    ensures m != m'
  {
    config := EncodingConfig(1, _ => length);
    m := BlobMetadata(EncodingType(1), length, [SliverPairMetadata(Empty, other)]);
    m' := BlobMetadata(EncodingType(1), length, [SliverPairMetadata(Digested(EMPTY_NODE), other)]);
    blobId := BlobIdOf(h, m);
    assert m.hashes[0] != m'.hashes[0];
    BlobIdIsOfContent(h, m, m');
  }

  // ----- when a blob ID determines the metadata value -----

  /** One of the two hashes has the bytes that `Empty` and the all-zero digest share. */
  predicate IsZeroPair(p: SliverPairMetadata) {
    p.primaryHash.Bytes() == EMPTY_NODE || p.secondaryHash.Bytes() == EMPTY_NODE
  }

  predicate HasZeroPair(m: BlobMetadata) {
    exists i | 0 <= i < |m.hashes| :: IsZeroPair(m.hashes[i])
  }

  function FlipNode(n: Node): Node {
    if n.Bytes() != EMPTY_NODE then n else if n.Empty? then Digested(EMPTY_NODE) else Empty
  }

  function FlipPair(p: SliverPairMetadata): SliverPairMetadata {
    SliverPairMetadata(FlipNode(p.primaryHash), FlipNode(p.secondaryHash))
  }

  /** A pair has another form with the same bytes exactly when it is a zero pair. */
  lemma PairDetermined(p: SliverPairMetadata, p': SliverPairMetadata)
    ensures SamePair(p, FlipPair(p)) && (FlipPair(p) != p <==> IsZeroPair(p))
    ensures SamePair(p, p') && !IsZeroPair(p) ==> p' == p
  {
  }

  lemma FlippedContent(m: BlobMetadata, i: nat)
    requires i < |m.hashes|
    ensures SameContent(m, m.(hashes := m.hashes[i := FlipPair(m.hashes[i])]))
  {
    PairDetermined(m.hashes[i], m.hashes[i]);
  }

  lemma ContentDetermines(m: BlobMetadata, m': BlobMetadata)
    requires SameContent(m, m') && !HasZeroPair(m)
    ensures m' == m
  {
    forall i | 0 <= i < |m.hashes|
      ensures m'.hashes[i] == m.hashes[i]
    {
      PairDetermined(m.hashes[i], m'.hashes[i]);
    }
  }

  lemma SameContentVerifies(h: Hash, config: EncodingConfig, blobId: Digest, m: BlobMetadata, m': BlobMetadata)
    requires Verify(h, config, blobId, m).Ok? && SameContent(m, m')
    ensures Verify(h, config, blobId, m').Ok?
  {
    BlobIdIsOfContent(h, m, m');
  }

  /** Metadata with a zero pair shares its blob ID with another value. */
  lemma ZeroPairIsAmbiguous(h: Hash, config: EncodingConfig, blobId: Digest, m: BlobMetadata) returns (m': BlobMetadata)
    requires Verify(h, config, blobId, m).Ok? && HasZeroPair(m)
    ensures Verify(h, config, blobId, m').Ok? && SameContent(m, m') && m' != m
  {
    var i :| 0 <= i < |m.hashes| && IsZeroPair(m.hashes[i]);
    m' := m.(hashes := m.hashes[i := FlipPair(m.hashes[i])]);
    FlippedContent(m, i);
    SameContentVerifies(h, config, blobId, m, m');
    PairDetermined(m.hashes[i], m.hashes[i]);
    assert m'.hashes[i] != m.hashes[i];
  }

  /** No other metadata of the same content verifies. */
  ghost predicate OnlyValue(h: Hash, config: EncodingConfig, blobId: Digest, m: BlobMetadata) {
    forall m' | Verify(h, config, blobId, m').Ok? && SameContent(m, m') :: m' == m
  }

  /** Content and blob ID determine verified metadata exactly when it has no zero pair. */
  lemma DeterminedUnlessZeroPair(h: Hash, config: EncodingConfig, blobId: Digest, m: BlobMetadata)
    requires Verify(h, config, blobId, m).Ok?
    ensures OnlyValue(h, config, blobId, m) <==> !HasZeroPair(m)
  {
    if HasZeroPair(m) {
      var m' := ZeroPairIsAmbiguous(h, config, blobId, m);
      assert !OnlyValue(h, config, blobId, m);
    } else {
      forall m' | Verify(h, config, blobId, m').Ok? && SameContent(m, m')
        ensures m' == m
      {
        ContentDetermines(m, m');
      }
    }
  }

  /** So a blob ID determines the metadata value if that has no zero pair, or a collision is exhibited. */
  lemma BlobIdDeterminesMetadata(h: Hash, config: EncodingConfig, blobId: Digest, m: BlobMetadata, m': BlobMetadata)
    returns (e: Extraction)
    requires Verify(h, config, blobId, m).Ok? && Verify(h, config, blobId, m').Ok? && !HasZeroPair(m)
    ensures if e.NoBreak? then m == m'
            else
              && e.Collision? && e.first != e.second && h(e.first) == h(e.second)
              && HashedForBlobId(h, m, e.first) && HashedForBlobId(h, m', e.second)
  {
    e := BlobIdBinding(h, config, blobId, m, m');
    if e.NoBreak? {
      ContentDetermines(m, m');
    }
  }
}
