/** The byte keys of the indexer's column families and the bounds used to scan them. */
module KeyCodecs {
  import opened ByteStrings

  const SLASH: byte := 47
  const SEQUENCE_LEN := 8

  type ObjectId = b: bytes | |b| == 32 witness ToBe(0, 32)
  type BlobId = b: bytes | |b| == 32 witness ToBe(0, 32)

  /** Whether bytes are a UTF-8 string; left uninterpreted. */
  type Utf8 = bytes -> bool

  datatype KeyError =
    | KeyTooShort
    | MissingFirstSeparator
    | MissingSecondSeparator
    | InvalidUtf8
    | InvalidLength
    | InvalidSeparator

  // ----- primary index keys: manager '/' identifier '/' sequence -----

  /** `identifier` is the string's UTF-8 encoding. */
  datatype PrimaryIndexKey = PrimaryIndexKey(manager: ObjectId, identifier: bytes, sequence: u64)

  function Serialize(k: PrimaryIndexKey): bytes {
    k.manager + [SLASH] + k.identifier + [SLASH] + ToBe(k.sequence, SEQUENCE_LEN)
  }

  function Deserialize(utf8: Utf8, s: bytes): Result<PrimaryIndexKey, KeyError> {
    if |s| < 42 then Err(KeyTooShort)
    else if s[32] != SLASH then Err(MissingFirstSeparator)
    else if s[|s| - SEQUENCE_LEN - 1] != SLASH then Err(MissingSecondSeparator)
    else if !utf8(s[33..|s| - SEQUENCE_LEN - 1]) then Err(InvalidUtf8)
    else
      SequenceFits(s[|s| - SEQUENCE_LEN..]);
      Ok(PrimaryIndexKey(s[..32], s[33..|s| - SEQUENCE_LEN - 1], BeValue(s[|s| - SEQUENCE_LEN..])))
  }

  lemma SequenceFits(s: bytes)
    requires |s| == SEQUENCE_LEN
    ensures BeValue(s) < 0x1_0000_0000_0000_0000
  {
    BeValueRoundTrip(s);
    assert Pow256(8) == 0x1_0000_0000_0000_0000;
  }

  lemma SequenceRoundTrip(n: u64)
    ensures BeValue(ToBe(n, SEQUENCE_LEN)) == n
  {
    assert Pow256(8) == 0x1_0000_0000_0000_0000;
    BeRoundTrip(n, 8);
  }

  /** The parts of a serialized key, by position: manager, a slash, identifier, a slash, sequence number
      high byte first. */
  lemma SerializedParts(k: PrimaryIndexKey)
    ensures var s := Serialize(k);
            var n := |k.identifier|;
            && |s| == n + 42
            && s[..32] == k.manager && s[32] == 47
            && s[33..33 + n] == k.identifier && s[33 + n] == 47
            && s[34 + n..] == ToBe(k.sequence, SEQUENCE_LEN) && BeValue(s[34 + n..]) == k.sequence
  {
    SequenceRoundTrip(k.sequence);
  }

  /** Which bytes decode, and which error the others get. */
  lemma DeserializeExactly(utf8: Utf8, s: bytes)
    ensures var r := Deserialize(utf8, s);
            if |s| < 42 then r == Err(KeyTooShort)
            else if s[32] != 47 then r == Err(MissingFirstSeparator)
            else if s[|s| - 9] != 47 then r == Err(MissingSecondSeparator)
            else if !utf8(s[33..|s| - 9]) then r == Err(InvalidUtf8)
            else r.Ok? && r.value.manager == s[..32] && r.value.identifier == s[33..|s| - 9]
  {
  }

  /** Decoding gives back every key, also one whose identifier contains slashes. */
  lemma SerializeRoundTrip(utf8: Utf8, k: PrimaryIndexKey)
    ensures Deserialize(utf8, Serialize(k)) == if utf8(k.identifier) then Ok(k) else Err(InvalidUtf8)
  {
    SerializedParts(k);
    SequenceRoundTrip(k.sequence);
  }

  /** Every accepted byte string is the encoding of the key it decodes to. */
  lemma DeserializeRoundTrip(utf8: Utf8, s: bytes)
    requires Deserialize(utf8, s).Ok?
    ensures Serialize(Deserialize(utf8, s).value) == s
  {
    var n := |s| - 42;
    BeValueRoundTrip(s[34 + n..]);
    assert s == s[..32] + [s[32]] + s[33..33 + n] + [s[33 + n]] + s[34 + n..];
  }

  lemma SerializeInjective(k: PrimaryIndexKey, k': PrimaryIndexKey)
    requires Serialize(k) == Serialize(k')
    ensures k == k'
  {
    SerializedParts(k);
    SerializedParts(k');
    SequenceRoundTrip(k.sequence);
    SequenceRoundTrip(k'.sequence);
  }

  /** `manager '/' identifier`, the common start of all keys of an identifier. */
  function KeyStart(manager: ObjectId, identifier: bytes): bytes {
    manager + [SLASH] + identifier
  }

  /** For one manager and identifier, byte order is sequence order. */
  lemma KeyOrderIsSequenceOrder(manager: ObjectId, identifier: bytes, m: u64, n: u64)
    ensures var a := PrimaryIndexKey(manager, identifier, m);
            var b := PrimaryIndexKey(manager, identifier, n);
            LexLess(Serialize(a), Serialize(b)) <==> m < n
  {
    var start := KeyStart(manager, identifier) + [SLASH];
    LexCommonPrefix(start, ToBe(m, SEQUENCE_LEN), ToBe(n, SEQUENCE_LEN));
    LexIsNumeric(ToBe(m, SEQUENCE_LEN), ToBe(n, SEQUENCE_LEN));
    SequenceRoundTrip(m);
    SequenceRoundTrip(n);
  }

  // ----- scan bounds -----

  function PrimaryIndexBounds(manager: ObjectId, identifier: bytes): (bytes, bytes) {
    (KeyStart(manager, identifier) + [SLASH], KeyStart(manager, identifier) + [SLASH + 1])
  }

  function BlobManagerBounds(manager: ObjectId): (bytes, bytes) {
    (manager + [SLASH], manager + [SLASH + 1])
  }

  predicate InBounds(bounds: (bytes, bytes), s: bytes) {
    LexLessEq(bounds.0, s) && LexLess(s, bounds.1)
  }

  predicate SlashFree(s: bytes) {
    forall i | 0 <= i < |s| :: s[i] != SLASH
  }

  lemma PrefixOfConcat(p: bytes, q: bytes, r: bytes)
    requires |p| == |q|
    ensures p <= q + r <==> p == q
  {
    if p <= q + r {
      assert p == (q + r)[..|p|] == q;
    }
  }

  lemma CommonPrefixCancels(p: bytes, a: bytes, b: bytes)
    ensures p + a <= p + b <==> a <= b
  {
    if p + a <= p + b {
      assert a == (p + a)[|p|..] && b == (p + b)[|p|..];
      assert a == (p + b)[|p|..|p + a|];
    }
    if a <= b {
      assert (p + b)[..|p + a|] == p + b[..|a|];
    }
  }

  /** The scan bounds of a manager select exactly that manager's keys. */
  lemma ManagerScanExact(manager: ObjectId, k: PrimaryIndexKey)
    ensures InBounds(BlobManagerBounds(manager), Serialize(k)) <==> k.manager == manager
  {
    PrefixInterval(manager, SLASH, Serialize(k));
    var rest := k.identifier + [SLASH] + ToBe(k.sequence, SEQUENCE_LEN);
    assert Serialize(k) == (k.manager + [SLASH]) + rest;
    PrefixOfConcat(manager + [SLASH], k.manager + [SLASH], rest);
    assert manager + [SLASH] == k.manager + [SLASH] ==> manager == (manager + [SLASH])[..32] == k.manager;
  }

  /** What the bounds of an identifier select, for any identifiers: the keys of that manager whose
      bytes after the manager start with the identifier and a slash. */
  lemma IdentifierScanSelects(manager: ObjectId, identifier: bytes, k: PrimaryIndexKey)
    ensures InBounds(PrimaryIndexBounds(manager, identifier), Serialize(k)) <==>
            && k.manager == manager
            && identifier + [SLASH] <= k.identifier + [SLASH] + ToBe(k.sequence, SEQUENCE_LEN)
  {
    PrefixInterval(KeyStart(manager, identifier), SLASH, Serialize(k));
    var rest := k.identifier + [SLASH] + ToBe(k.sequence, SEQUENCE_LEN);
    var bound := identifier + [SLASH];
    assert Serialize(k) == (k.manager + [SLASH]) + rest;
    assert KeyStart(manager, identifier) + [SLASH] == (manager + [SLASH]) + bound;
    if k.manager == manager {
      CommonPrefixCancels(manager + [SLASH], bound, rest);
    } else {
      assert Serialize(k)[..32] == k.manager;
      assert ((manager + [SLASH]) + bound)[..32] == manager;
    }
  }

  lemma SlashInside(id: bytes, s: bytes, rest: bytes)
    ensures id + [SLASH] <= s + [SLASH] + rest && |s| < |id| ==> id[|s|] == SLASH
  {
    var whole := s + [SLASH] + rest;
    assert whole[|s|] == SLASH;
    if id + [SLASH] <= whole && |s| < |id| {
      assert whole[|s|] == (id + [SLASH])[|s|] == id[|s|];
    }
  }

  /** The first slash of a string decides what it starts with, up to a slash. */
  lemma SlashFreePrefix(id: bytes, s: bytes, rest: bytes)
    requires SlashFree(id)
    ensures id + [SLASH] <= s + [SLASH] + rest <==> s == id || id + [SLASH] <= s
  {
    var whole := s + [SLASH] + rest;
    if id + [SLASH] <= whole {
      assert whole[|id|] == (id + [SLASH])[|id|] == SLASH;
      assert whole[..|id| + 1] == id + [SLASH];
      SlashInside(id, s, rest);
      if |s| == |id| {
        assert s == whole[..|id|] == id;
      } else {
        assert s[..|id| + 1] == whole[..|id| + 1];
      }
    }
    if s == id {
      assert whole[..|id| + 1] == id + [SLASH];
    } else if id + [SLASH] <= s {
      assert whole[..|id| + 1] == s[..|id| + 1];
    }
  }

  /** For an identifier without a slash, a scan selects its own keys and those of identifiers that
      continue it after a slash; nothing else. */
  lemma IdentifierScanExact(manager: ObjectId, identifier: bytes, k: PrimaryIndexKey)
    requires SlashFree(identifier)
    ensures InBounds(PrimaryIndexBounds(manager, identifier), Serialize(k)) <==>
            k.manager == manager && (k.identifier == identifier || identifier + [SLASH] <= k.identifier)
  {
    IdentifierScanSelects(manager, identifier, k);
    SlashFreePrefix(identifier, k.identifier, ToBe(k.sequence, SEQUENCE_LEN));
  }

  // ----- quilt patch index keys: blob ID 0 object ID -----

  datatype QuiltPatchIndexKey = QuiltPatchIndexKey(patchBlobId: BlobId, objectId: ObjectId)

  function SerializePatchKey(k: QuiltPatchIndexKey): bytes {
    k.patchBlobId + [0] + k.objectId
  }

  function DeserializePatchKey(s: bytes): Result<QuiltPatchIndexKey, KeyError> {
    if |s| != 65 then Err(InvalidLength)
    else if s[32] != 0 then Err(InvalidSeparator)
    else Ok(QuiltPatchIndexKey(s[..32], s[33..65]))
  }

  /** Blob ID, a zero byte, object ID; decoding and encoding undo each other, and the errors. */
  lemma PatchKeyRoundTrip(k: QuiltPatchIndexKey, s: bytes)
    ensures SerializePatchKey(k) == k.patchBlobId + [0] + k.objectId
    ensures |s| != 65 ==> DeserializePatchKey(s) == Err(InvalidLength)
    ensures |s| == 65 && s[32] != 0 ==> DeserializePatchKey(s) == Err(InvalidSeparator)
    ensures DeserializePatchKey(SerializePatchKey(k)) == Ok(k)
    ensures DeserializePatchKey(s).Ok? ==> SerializePatchKey(DeserializePatchKey(s).value) == s
  {
    var t := SerializePatchKey(k);
    assert t[..32] == k.patchBlobId && t[33..65] == k.objectId;
    if DeserializePatchKey(s).Ok? {
      assert s == s[..32] + [s[32]] + s[33..65];
    }
  }

  function QuiltPatchIndexBounds(patchBlobId: BlobId): (bytes, bytes) {
    (patchBlobId + [0], patchBlobId + [1])
  }

  /** The scan bounds of a patch blob ID select exactly its keys. */
  lemma PatchScanExact(patchBlobId: BlobId, k: QuiltPatchIndexKey)
    ensures InBounds(QuiltPatchIndexBounds(patchBlobId), SerializePatchKey(k)) <==> k.patchBlobId == patchBlobId
  {
    PrefixInterval(patchBlobId, 0, SerializePatchKey(k));
    PrefixOfConcat(patchBlobId + [0], k.patchBlobId + [0], k.objectId);
    assert patchBlobId + [0] == k.patchBlobId + [0] ==> patchBlobId == (patchBlobId + [0])[..32] == k.patchBlobId;
  }
}
