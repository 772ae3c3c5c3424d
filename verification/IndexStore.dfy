/** The indexer's store: the primary index by blob manager, identifier and sequence number, and the
    object index that points into it. */
module IndexStore {
  import opened ByteStrings
  import opened ColumnFamily
  import opened KeyCodecs

  datatype IndexTarget =
    | Blob(blobId: BlobId, objectId: ObjectId)
    | QuiltPatch(patchId: bytes)
  {
    predicate Names(o: ObjectId) {
      Blob? && objectId == o
    }
  }

  /** What the object index stores for an object: the parts of its primary index key. */
  datatype ObjectIndexValue = ObjectIndexValue(manager: ObjectId, identifier: bytes, sequence: u64) {
    function Key(): PrimaryIndexKey {
      PrimaryIndexKey(manager, identifier, sequence)
    }
  }

  // ----- the two indices over runs of inserts -----

  datatype Index = Index(primary: map<bytes, IndexTarget>, objects: map<bytes, ObjectIndexValue>)

  function Inserted(index: Index, k: PrimaryIndexKey, target: IndexTarget): Index {
    Index(
      index.primary[Serialize(k) := target],
      if target.Blob? then
        index.objects[target.objectId := ObjectIndexValue(k.manager, k.identifier, k.sequence)]
      else
        index.objects)
  }

  type Insert = (PrimaryIndexKey, IndexTarget)

  function InsertAll(inserts: seq<Insert>): Index {
    if inserts == [] then Index(map[], map[])
    else
      var last := inserts[|inserts| - 1];
      Inserted(InsertAll(inserts[..|inserts| - 1]), last.0, last.1)
  }

  ghost predicate LastFor(inserts: seq<Insert>, k: PrimaryIndexKey, i: nat) {
    i < |inserts| && inserts[i].0 == k && forall j | i < j < |inserts| :: inserts[j].0 != k
  }

  ghost predicate LastNaming(inserts: seq<Insert>, o: ObjectId, i: nat) {
    i < |inserts| && inserts[i].1.Names(o) && forall j | i < j < |inserts| :: !inserts[j].1.Names(o)
  }

  /** The primary index holds, for every key, what was inserted last under it. */
  lemma {:induction false} PrimaryIsLastInsert(inserts: seq<Insert>, k: PrimaryIndexKey)
    ensures Serialize(k) !in InsertAll(inserts).primary ==> forall i | 0 <= i < |inserts| :: inserts[i].0 != k
    ensures Serialize(k) in InsertAll(inserts).primary ==>
              exists i: nat :: LastFor(inserts, k, i) && InsertAll(inserts).primary[Serialize(k)] == inserts[i].1
  {
    if inserts != [] {
      var init, last := inserts[..|inserts| - 1], inserts[|inserts| - 1];
      PrimaryIsLastInsert(init, k);
      if last.0 == k {
        assert LastFor(inserts, k, |inserts| - 1);
      } else {
        if Serialize(last.0) == Serialize(k) {
          SerializeInjective(last.0, k);
        }
        if Serialize(k) in InsertAll(init).primary {
          var i: nat :| LastFor(init, k, i) && InsertAll(init).primary[Serialize(k)] == init[i].1;
          assert LastFor(inserts, k, i);
        }
      }
    }
  }

  /** The object index holds, for every object, the key of the last insert of a blob naming it. */
  lemma {:induction false} ObjectIsLastInsert(inserts: seq<Insert>, o: ObjectId)
    ensures o !in InsertAll(inserts).objects ==> forall i | 0 <= i < |inserts| :: !inserts[i].1.Names(o)
    ensures o in InsertAll(inserts).objects ==>
              exists i: nat :: LastNaming(inserts, o, i) && InsertAll(inserts).objects[o].Key() == inserts[i].0
  {
    if inserts != [] {
      var init, last := inserts[..|inserts| - 1], inserts[|inserts| - 1];
      ObjectIsLastInsert(init, o);
      if last.1.Names(o) {
        assert LastNaming(inserts, o, |inserts| - 1);
      } else if o in InsertAll(init).objects {
        var i: nat :| LastNaming(init, o, i) && InsertAll(init).objects[o].Key() == init[i].0;
        assert LastNaming(inserts, o, i);
      }
    }
  }

  /** The object index entry of `o` leads to a primary entry that names `o`. */
  ghost predicate PointerValid(index: Index, o: bytes)
    requires o in index.objects
  {
    var k := Serialize(index.objects[o].Key());
    k in index.primary && index.primary[k].Blob? && index.primary[k].objectId == o
  }

  ghost predicate PointersValid(index: Index) {
    forall o | o in index.objects :: PointerValid(index, o)
  }

  /** The insert overwrites the primary entry some object's pointer leads to, with another target. */
  predicate Strands(index: Index, k: PrimaryIndexKey, target: IndexTarget) {
    var s := Serialize(k);
    && s in index.primary && index.primary[s].Blob?
    && var o := index.primary[s].objectId;
       o in index.objects && index.objects[o].Key() == k && !target.Names(o)
  }

  /** An insert keeps the two indices consistent exactly when it strands no object. */
  lemma InsertKeepsPointers(index: Index, k: PrimaryIndexKey, target: IndexTarget)
    requires PointersValid(index)
    ensures PointersValid(Inserted(index, k, target)) <==> !Strands(index, k, target)
  {
    var after := Inserted(index, k, target);
    if Strands(index, k, target) {
      var o := index.primary[Serialize(k)].objectId;
      assert after.objects[o] == index.objects[o];
      assert !PointerValid(after, o);
    } else {
      forall o | o in after.objects
        ensures PointerValid(after, o)
      {
        if !(target.Blob? && target.objectId == o) {
          assert PointerValid(index, o);
          if Serialize(index.objects[o].Key()) == Serialize(k) {
            SerializeInjective(index.objects[o].Key(), k);
          }
        }
      }
    }
  }

  ghost predicate DistinctKeys(inserts: seq<Insert>) {
    forall i, j | 0 <= i < j < |inserts| :: inserts[i].0 != inserts[j].0
  }

  /** Inserts under distinct keys keep the indices consistent, over every run. */
  lemma {:induction false} DistinctInsertsKeepPointers(inserts: seq<Insert>)
    requires DistinctKeys(inserts)
    ensures PointersValid(InsertAll(inserts))
  {
    if inserts != [] {
      var init, last := inserts[..|inserts| - 1], inserts[|inserts| - 1];
      DistinctInsertsKeepPointers(init);
      PrimaryIsLastInsert(init, last.0);
      InsertKeepsPointers(InsertAll(init), last.0, last.1);
    }
  }

  /** No insert after the last one naming an object reuses the key of that one. */
  ghost predicate LastKeysKept(inserts: seq<Insert>) {
    forall o: ObjectId, i: nat, j: nat | LastNaming(inserts, o, i) && i < j < |inserts| :: inserts[j].0 != inserts[i].0
  }

  lemma {:induction false} ObjectsAreIds(inserts: seq<Insert>, o: bytes)
    ensures o in InsertAll(inserts).objects ==> |o| == 32
  {
    if inserts != [] {
      ObjectsAreIds(inserts[..|inserts| - 1], o);
    }
  }

  /** One object's entry is valid exactly when the last insert naming it is also the last under its key. */
  lemma PointerValidExactly(inserts: seq<Insert>, o: ObjectId, i: nat)
    requires LastNaming(inserts, o, i)
    ensures o in InsertAll(inserts).objects
    ensures PointerValid(InsertAll(inserts), o) <==> forall j | i < j < |inserts| :: inserts[j].0 != inserts[i].0
  {
    ObjectIsLastInsert(inserts, o);
    var i': nat :| LastNaming(inserts, o, i') && InsertAll(inserts).objects[o].Key() == inserts[i'].0;
    assert i' == i;
    PrimaryIsLastInsert(inserts, inserts[i].0);
    var m: nat :| LastFor(inserts, inserts[i].0, m)
      && InsertAll(inserts).primary[Serialize(inserts[i].0)] == inserts[m].1;
    assert i <= m;
  }

  /** After any run the indices are consistent if and only if no object's last key was reused. */
  lemma ConsistentExactly(inserts: seq<Insert>)
    ensures PointersValid(InsertAll(inserts)) <==> LastKeysKept(inserts)
  {
    var index := InsertAll(inserts);
    if LastKeysKept(inserts) {
      forall o | o in index.objects
        ensures PointerValid(index, o)
      {
        ObjectsAreIds(inserts, o);
        ObjectIsLastInsert(inserts, o);
        var i: nat :| LastNaming(inserts, o, i) && index.objects[o].Key() == inserts[i].0;
        PointerValidExactly(inserts, o, i);
      }
    }
    if PointersValid(index) {
      forall o: ObjectId, i: nat, j: nat | LastNaming(inserts, o, i) && i < j < |inserts|
        ensures inserts[j].0 != inserts[i].0
      {
        PointerValidExactly(inserts, o, i);
      }
    }
  }

  /** Looking an object up in both indices gives the blob inserted last for it. */
  lemma LookupByObject(inserts: seq<Insert>, o: ObjectId) returns (i: nat)
    requires DistinctKeys(inserts) && o in InsertAll(inserts).objects
    ensures LastNaming(inserts, o, i)
    ensures var k := Serialize(InsertAll(inserts).objects[o].Key());
            k in InsertAll(inserts).primary && InsertAll(inserts).primary[k] == inserts[i].1
  {
    ObjectIsLastInsert(inserts, o);
    i :| LastNaming(inserts, o, i) && InsertAll(inserts).objects[o].Key() == inserts[i].0;
    DistinctInsertsKeepPointers(inserts);
    assert PointerValid(InsertAll(inserts), o);
    PrimaryIsLastInsert(inserts, inserts[i].0);
  }

  /** Reusing a primary key for another object leaves the first object's entry dangling. */
  lemma ReusedKeyStrandsObject(k: PrimaryIndexKey, b: BlobId, o: ObjectId, o': ObjectId)
    requires o != o'
    ensures !PointersValid(InsertAll([(k, Blob(b, o)), (k, Blob(b, o'))]))
  {
    var inserts := [(k, Blob(b, o)), (k, Blob(b, o'))];
    assert inserts[..1] == [(k, Blob(b, o))] && inserts[..1][..0] == [];
    DistinctInsertsKeepPointers(inserts[..1]);
    InsertKeepsPointers(InsertAll(inserts[..1]), k, Blob(b, o'));
  }

  // ----- lookup by identifier -----

  /** All stored keys decode: they were serialized from keys with UTF-8 identifiers. */
  ghost predicate KeysDecode(utf8: Utf8, rows: seq<Row<IndexTarget>>) {
    forall r | r in rows :: Deserialize(utf8, r.key).Ok?
  }

  function RowDecoder(utf8: Utf8): Row<IndexTarget> -> Result<Insert, KeyError> {
    (r: Row<IndexTarget>) => match Deserialize(utf8, r.key) case Ok(k) => Ok((k, r.value)) case Err(e) => Err(e)
  }

  function NoFault(i: nat): Option<KeyError> {
    None
  }

  function Query(utf8: Utf8, rows: seq<Row<IndexTarget>>, manager: ObjectId, identifier: bytes, limit: nat)
    : Result<seq<Insert>, KeyError>
  {
    var (begin, end) := PrimaryIndexBounds(manager, identifier);
    Decoded(RowDecoder(utf8), NoFault, Scanned(rows, begin, end, limit, true))
  }

  /** Which stored keys a query is about. */
  predicate Matches(manager: ObjectId, identifier: bytes, k: PrimaryIndexKey) {
    InBounds(PrimaryIndexBounds(manager, identifier), Serialize(k))
  }

  function RowOf(insert: Insert): Row<IndexTarget> {
    Row(Serialize(insert.0), insert.1)
  }

  lemma RowDecodes(utf8: Utf8, rows: seq<Row<IndexTarget>>, i: nat)
    requires KeysDecode(utf8, rows) && i < |rows|
    ensures Item(RowDecoder(utf8), NoFault, rows, i).Ok?
    ensures RowOf(Item(RowDecoder(utf8), NoFault, rows, i).value) == rows[i]
  {
    assert rows[i] in rows;
    DeserializeRoundTrip(utf8, rows[i].key);
  }

  lemma RowsDecode(utf8: Utf8, rows: seq<Row<IndexTarget>>)
    requires KeysDecode(utf8, rows)
    ensures var q := Decoded(RowDecoder(utf8), NoFault, rows);
            q.Ok? && |q.value| == |rows| && forall i | 0 <= i < |rows| :: rows[i] == RowOf(q.value[i])
  {
    forall i | 0 <= i < |rows|
      ensures Item(RowDecoder(utf8), NoFault, rows, i).Ok?
      ensures RowOf(Item(RowDecoder(utf8), NoFault, rows, i).value) == rows[i]
    {
      RowDecodes(utf8, rows, i);
    }
    DecodedRoundTrip(RowDecoder(utf8), NoFault, rows, RowOf);
  }

  /** The decoded answer, entry by entry. */
  lemma QueryRows(utf8: Utf8, rows: seq<Row<IndexTarget>>, manager: ObjectId, identifier: bytes, limit: nat)
    requires Sorted(rows) && KeysDecode(utf8, rows)
    ensures var (begin, end) := PrimaryIndexBounds(manager, identifier);
            var s := Scanned(rows, begin, end, limit, true);
            var q := Query(utf8, rows, manager, identifier, limit);
            && q.Ok? && |q.value| == |s|
            && forall i | 0 <= i < |s| :: s[i] == RowOf(q.value[i])
  {
    var (begin, end) := PrimaryIndexBounds(manager, identifier);
    var s := Scanned(rows, begin, end, limit, true);
    ReverseScan(rows, begin, end, limit);
    forall r | r in s
      ensures Deserialize(utf8, r.key).Ok?
    {
      RangeExact(rows, begin, end, r);
    }
    RowsDecode(utf8, s);
  }

  /** Every answer is a stored, matching entry, and answers come largest key first. */
  lemma QuerySound(utf8: Utf8, rows: seq<Row<IndexTarget>>, manager: ObjectId, identifier: bytes, limit: nat)
    requires Sorted(rows) && KeysDecode(utf8, rows)
    ensures var q := Query(utf8, rows, manager, identifier, limit);
            && q.Ok? && |q.value| <= limit && Descending(q.value)
            && (forall i | 0 <= i < |q.value| ::
                 Holds(AsMap(rows), q.value[i].0, q.value[i].1) && Matches(manager, identifier, q.value[i].0))
  {
    QueryRows(utf8, rows, manager, identifier, limit);
    var (begin, end) := PrimaryIndexBounds(manager, identifier);
    var s := Scanned(rows, begin, end, limit, true);
    ReverseScan(rows, begin, end, limit);
    var q := Query(utf8, rows, manager, identifier, limit).value;
    forall i | 0 <= i < |q|
      ensures Holds(AsMap(rows), q[i].0, q[i].1) && Matches(manager, identifier, q[i].0)
    {
      assert s[i] in s;
      RangeExact(rows, begin, end, s[i]);
      HoldsIsStored(rows, q[i].0, q[i].1);
    }
    forall i, j | 0 <= i < j < |q|
      ensures LexLess(Serialize(q[j].0), Serialize(q[i].0))
    {
      assert LexLess(s[j].key, s[i].key);
    }
  }

  ghost predicate Descending(q: seq<Insert>) {
    forall i, j | 0 <= i < j < |q| :: LexLess(Serialize(q[j].0), Serialize(q[i].0))
  }

  /** The primary index has this target under this key. */
  predicate Holds(primary: map<bytes, IndexTarget>, k: PrimaryIndexKey, target: IndexTarget) {
    Serialize(k) in primary && primary[Serialize(k)] == target
  }

  lemma HoldsIsStored(rows: seq<Row<IndexTarget>>, k: PrimaryIndexKey, target: IndexTarget)
    requires Sorted(rows)
    ensures Holds(AsMap(rows), k, target) <==> Row(Serialize(k), target) in rows
  {
    AsMapMaps(rows);
  }

  /** Every stored, matching entry is answered, unless the limit is used up by larger keys. */
  lemma QueryComplete(utf8: Utf8, rows: seq<Row<IndexTarget>>, manager: ObjectId, identifier: bytes, limit: nat,
                      k: PrimaryIndexKey, target: IndexTarget)
    requires Sorted(rows) && KeysDecode(utf8, rows)
    requires Holds(AsMap(rows), k, target) && Matches(manager, identifier, k)
    ensures var q := Query(utf8, rows, manager, identifier, limit);
            q.Ok? && ((k, target) in q.value || (|q.value| == limit && BelowAll(k, q.value)))
  {
    QueryRows(utf8, rows, manager, identifier, limit);
    HoldsIsStored(rows, k, target);
    var (begin, end) := PrimaryIndexBounds(manager, identifier);
    var s := Scanned(rows, begin, end, limit, true);
    var q := Query(utf8, rows, manager, identifier, limit).value;
    var r := Row(Serialize(k), target);
    RangeExact(rows, begin, end, r);
    ReverseScanComplete(rows, begin, end, limit, r);
    if r in s {
      var i :| 0 <= i < |s| && s[i] == r;
      SerializeInjective(k, q[i].0);
      assert q[i] == (k, target);
    } else {
      forall i | 0 <= i < |q|
        ensures LexLess(Serialize(k), Serialize(q[i].0))
      {
        assert LexLess(r.key, s[i].key);
      }
    }
  }

  ghost predicate BelowAll(k: PrimaryIndexKey, q: seq<Insert>) {
    forall i | 0 <= i < |q| :: LexLess(Serialize(k), Serialize(q[i].0))
  }

  // ----- when a lookup answers the identifier asked for -----

  /** A key of another identifier whose bytes start with the queried identifier and a slash. */
  predicate Intrudes(manager: ObjectId, identifier: bytes, k: PrimaryIndexKey) {
    && k.manager == manager && k.identifier != identifier
    && identifier + [SLASH] <= k.identifier + [SLASH] + ToBe(k.sequence, SEQUENCE_LEN)
  }

  /** For an identifier without a slash these are the identifiers that continue it after a slash. */
  lemma IntrudersOfSlashFree(manager: ObjectId, identifier: bytes, k: PrimaryIndexKey)
    requires SlashFree(identifier)
    ensures Intrudes(manager, identifier, k) <==> k.manager == manager && identifier + [SLASH] <= k.identifier
  {
    SlashFreePrefix(identifier, k.identifier, ToBe(k.sequence, SEQUENCE_LEN));
  }

  /** A query is about the identifier's own keys and its intruders. */
  lemma MatchesExactly(manager: ObjectId, identifier: bytes, k: PrimaryIndexKey)
    ensures Matches(manager, identifier, k)
            <==> k == PrimaryIndexKey(manager, identifier, k.sequence) || Intrudes(manager, identifier, k)
  {
    IdentifierScanSelects(manager, identifier, k);
  }

  /** The answer is what the caller asked for: entries of that identifier, newest first, and none left
      out but older ones beyond the limit. */
  ghost predicate AnswersIdentifier(q: seq<Insert>, primary: map<bytes, IndexTarget>, manager: ObjectId,
                                    identifier: bytes, limit: nat)
  {
    && |q| <= limit
    && (forall i | 0 <= i < |q| ::
         && Holds(primary, q[i].0, q[i].1)
         && q[i].0.manager == manager && q[i].0.identifier == identifier)
    && (forall i, j | 0 <= i < j < |q| :: q[j].0.sequence < q[i].0.sequence)
    && (forall n: u64, target | Holds(primary, PrimaryIndexKey(manager, identifier, n), target) ::
         (PrimaryIndexKey(manager, identifier, n), target) in q || (|q| == limit && OlderThanAll(n, q)))
  }

  ghost predicate OlderThanAll(n: u64, q: seq<Insert>) {
    forall i | 0 <= i < |q| :: n < q[i].0.sequence
  }

  ghost predicate NoneIntrudes(q: seq<Insert>, manager: ObjectId, identifier: bytes) {
    forall i | 0 <= i < |q| :: !Intrudes(manager, identifier, q[i].0)
  }

  lemma LookupComplete(utf8: Utf8, rows: seq<Row<IndexTarget>>, manager: ObjectId, identifier: bytes, limit: nat,
                       n: u64, target: IndexTarget)
    requires Sorted(rows) && KeysDecode(utf8, rows)
    requires Query(utf8, rows, manager, identifier, limit).Ok?
    requires NoneIntrudes(Query(utf8, rows, manager, identifier, limit).value, manager, identifier)
    requires Holds(AsMap(rows), PrimaryIndexKey(manager, identifier, n), target)
    ensures var q := Query(utf8, rows, manager, identifier, limit).value;
            (PrimaryIndexKey(manager, identifier, n), target) in q || (|q| == limit && OlderThanAll(n, q))
  {
    var k := PrimaryIndexKey(manager, identifier, n);
    MatchesExactly(manager, identifier, k);
    QueryComplete(utf8, rows, manager, identifier, limit, k, target);
    QuerySound(utf8, rows, manager, identifier, limit);
    var q := Query(utf8, rows, manager, identifier, limit).value;
    if (k, target) !in q {
      forall i | 0 <= i < |q|
        ensures n < q[i].0.sequence
      {
        MatchesExactly(manager, identifier, q[i].0);
        KeyOrderIsSequenceOrder(manager, identifier, n, q[i].0.sequence);
      }
    }
  }

  /** An answer without intruders is the answer asked for. */
  lemma AnswersWithoutIntruders(utf8: Utf8, rows: seq<Row<IndexTarget>>, manager: ObjectId, identifier: bytes,
                                limit: nat)
    requires Sorted(rows) && KeysDecode(utf8, rows)
    requires Query(utf8, rows, manager, identifier, limit).Ok?
    requires NoneIntrudes(Query(utf8, rows, manager, identifier, limit).value, manager, identifier)
    ensures AnswersIdentifier(Query(utf8, rows, manager, identifier, limit).value, AsMap(rows), manager, identifier,
                              limit)
  {
    QuerySound(utf8, rows, manager, identifier, limit);
    var q := Query(utf8, rows, manager, identifier, limit).value;
    forall i | 0 <= i < |q|
      ensures q[i].0 == PrimaryIndexKey(manager, identifier, q[i].0.sequence)
    {
      MatchesExactly(manager, identifier, q[i].0);
    }
    forall i, j | 0 <= i < j < |q|
      ensures q[j].0.sequence < q[i].0.sequence
    {
      assert LexLess(Serialize(q[j].0), Serialize(q[i].0));
      KeyOrderIsSequenceOrder(manager, identifier, q[j].0.sequence, q[i].0.sequence);
    }
    forall n: u64, target | Holds(AsMap(rows), PrimaryIndexKey(manager, identifier, n), target)
      ensures (PrimaryIndexKey(manager, identifier, n), target) in q || (|q| == limit && OlderThanAll(n, q))
    {
      LookupComplete(utf8, rows, manager, identifier, limit, n, target);
    }
  }

  /** The bytes of a key of this manager and identifier. */
  predicate IsOwn(manager: ObjectId, identifier: bytes, s: bytes) {
    |s| == |identifier| + 42 && KeyStart(manager, identifier) + [SLASH] <= s
  }

  lemma OwnKey(manager: ObjectId, identifier: bytes, s: bytes) returns (n: u64)
    requires IsOwn(manager, identifier, s)
    ensures s == Serialize(PrimaryIndexKey(manager, identifier, n))
  {
    var tail := s[|identifier| + 34..];
    SequenceFits(tail);
    n := BeValue(tail);
    BeValueRoundTrip(tail);
    assert s == KeyStart(manager, identifier) + [SLASH] + tail;
  }

  /** The identifier's own stored keys above a given one. */
  function OwnKeysAbove(primary: map<bytes, IndexTarget>, manager: ObjectId, identifier: bytes, s: bytes): set<bytes> {
    set x | x in primary && IsOwn(manager, identifier, x) && LexLess(s, x)
  }

  /** Every stored intruder lies below at least `limit` of the identifier's own keys. */
  ghost predicate CrowdedOut(primary: map<bytes, IndexTarget>, manager: ObjectId, identifier: bytes, limit: nat) {
    forall k: PrimaryIndexKey | Serialize(k) in primary && Intrudes(manager, identifier, k) ::
      |OwnKeysAbove(primary, manager, identifier, Serialize(k))| >= limit
  }

  /** The keys of an answer. */
  function AnswerKeys(q: seq<Insert>): (keys: seq<bytes>)
    ensures |keys| == |q| && forall i | 0 <= i < |q| :: keys[i] == Serialize(q[i].0)
  {
    seq(|q|, i requires 0 <= i < |q| => Serialize(q[i].0))
  }

  lemma AnswerKeysDistinct(q: seq<Insert>)
    requires Descending(q)
    ensures |Elements(AnswerKeys(q))| == |q|
  {
    forall i, j | 0 <= i < j < |q|
      ensures AnswerKeys(q)[i] != AnswerKeys(q)[j]
    {
      LaterIsSmaller(q, i, j);
      LexTotal(AnswerKeys(q)[j], AnswerKeys(q)[i]);
    }
    ElementsCount(AnswerKeys(q));
  }

  /** A right answer leaves an intruder out only for `limit` own keys above it. */
  lemma RightAnswerCrowdsOut(utf8: Utf8, rows: seq<Row<IndexTarget>>, manager: ObjectId, identifier: bytes, limit: nat,
                             k: PrimaryIndexKey)
    requires Sorted(rows) && KeysDecode(utf8, rows)
    requires Query(utf8, rows, manager, identifier, limit).Ok?
    requires AnswersIdentifier(Query(utf8, rows, manager, identifier, limit).value, AsMap(rows), manager, identifier,
                               limit)
    requires Serialize(k) in AsMap(rows) && Intrudes(manager, identifier, k)
    ensures |OwnKeysAbove(AsMap(rows), manager, identifier, Serialize(k))| >= limit
  {
    var q := Query(utf8, rows, manager, identifier, limit).value;
    MatchesExactly(manager, identifier, k);
    QueryComplete(utf8, rows, manager, identifier, limit, k, AsMap(rows)[Serialize(k)]);
    QuerySound(utf8, rows, manager, identifier, limit);
    forall x | x in Elements(AnswerKeys(q))
      ensures x in OwnKeysAbove(AsMap(rows), manager, identifier, Serialize(k))
    {
      var i :| 0 <= i < |q| && AnswerKeys(q)[i] == x;
      SerializedParts(q[i].0);
    }
    AnswerKeysDistinct(q);
    SubsetSize(Elements(AnswerKeys(q)), OwnKeysAbove(AsMap(rows), manager, identifier, Serialize(k)));
  }

  /** An own key above an answer was answered before it. */
  lemma OwnKeyAnsweredBefore(utf8: Utf8, rows: seq<Row<IndexTarget>>, manager: ObjectId, identifier: bytes, limit: nat,
                             i: nat, x: bytes)
    requires Sorted(rows) && KeysDecode(utf8, rows)
    requires Query(utf8, rows, manager, identifier, limit).Ok?
    requires i < |Query(utf8, rows, manager, identifier, limit).value|
    requires x in OwnKeysAbove(AsMap(rows), manager, identifier,
                               Serialize(Query(utf8, rows, manager, identifier, limit).value[i].0))
    ensures x in Elements(AnswerKeys(Query(utf8, rows, manager, identifier, limit).value[..i]))
  {
    var q := Query(utf8, rows, manager, identifier, limit).value;
    var n := OwnKey(manager, identifier, x);
    var k := PrimaryIndexKey(manager, identifier, n);
    MatchesExactly(manager, identifier, k);
    QueryComplete(utf8, rows, manager, identifier, limit, k, AsMap(rows)[x]);
    QuerySound(utf8, rows, manager, identifier, limit);
    LexTotal(Serialize(q[i].0), x);
    var j :| 0 <= j < |q| && q[j].0 == k;
    AnsweredInOrder(q, j, i);
    assert AnswerKeys(q[..i])[j] == x;
  }

  lemma AnsweredInOrder(q: seq<Insert>, j: nat, i: nat)
    requires Descending(q) && i < |q| && j < |q| && LexLess(Serialize(q[i].0), Serialize(q[j].0))
    ensures j < i
  {
    LexTotal(Serialize(q[i].0), Serialize(q[j].0));
    LaterIsSmaller(q, i, j);
  }

  lemma LaterIsSmaller(q: seq<Insert>, i: nat, j: nat)
    requires Descending(q) && i < |q| && j < |q|
    ensures i < j ==> LexLess(Serialize(q[j].0), Serialize(q[i].0))
  {
  }

  lemma CrowdedOutAnswers(utf8: Utf8, rows: seq<Row<IndexTarget>>, manager: ObjectId, identifier: bytes, limit: nat)
    requires Sorted(rows) && KeysDecode(utf8, rows)
    requires CrowdedOut(AsMap(rows), manager, identifier, limit)
    requires Query(utf8, rows, manager, identifier, limit).Ok?
    ensures NoneIntrudes(Query(utf8, rows, manager, identifier, limit).value, manager, identifier)
  {
    QuerySound(utf8, rows, manager, identifier, limit);
    var q := Query(utf8, rows, manager, identifier, limit).value;
    forall i | 0 <= i < |q|
      ensures !Intrudes(manager, identifier, q[i].0)
    {
      var above := OwnKeysAbove(AsMap(rows), manager, identifier, Serialize(q[i].0));
      forall x | x in above
        ensures x in Elements(AnswerKeys(q[..i]))
      {
        OwnKeyAnsweredBefore(utf8, rows, manager, identifier, limit, i, x);
      }
      SubsetSize(above, Elements(AnswerKeys(q[..i])));
      ElementsCount(AnswerKeys(q[..i]));
    }
  }

  /** Lookup by identifier, exactly: it answers the identifier asked for if and only if every stored intruder
      lies below `limit` of the identifier's own keys. */
  lemma LookupExactly(utf8: Utf8, rows: seq<Row<IndexTarget>>, manager: ObjectId, identifier: bytes, limit: nat)
    requires Sorted(rows) && KeysDecode(utf8, rows)
    ensures Query(utf8, rows, manager, identifier, limit).Ok?
    ensures AnswersIdentifier(Query(utf8, rows, manager, identifier, limit).value, AsMap(rows), manager, identifier,
                              limit)
            <==> CrowdedOut(AsMap(rows), manager, identifier, limit)
  {
    QueryRows(utf8, rows, manager, identifier, limit);
    var q := Query(utf8, rows, manager, identifier, limit).value;
    if CrowdedOut(AsMap(rows), manager, identifier, limit) {
      CrowdedOutAnswers(utf8, rows, manager, identifier, limit);
      AnswersWithoutIntruders(utf8, rows, manager, identifier, limit);
    }
    if AnswersIdentifier(q, AsMap(rows), manager, identifier, limit) {
      forall k: PrimaryIndexKey | Serialize(k) in AsMap(rows) && Intrudes(manager, identifier, k)
        ensures |OwnKeysAbove(AsMap(rows), manager, identifier, Serialize(k))| >= limit
      {
        RightAnswerCrowdsOut(utf8, rows, manager, identifier, limit, k);
      }
    }
  }

  /** No intruder is stored. */
  ghost predicate Alone(primary: map<bytes, IndexTarget>, manager: ObjectId, identifier: bytes) {
    forall k: PrimaryIndexKey | Serialize(k) in primary :: !Intrudes(manager, identifier, k)
  }

  /** For a limit above the number of entries, only the absence of intruders will do. */
  lemma LookupExactlyWhenAlone(utf8: Utf8, rows: seq<Row<IndexTarget>>, manager: ObjectId, identifier: bytes,
                               limit: nat)
    requires Sorted(rows) && KeysDecode(utf8, rows) && |AsMap(rows)| < limit
    ensures Query(utf8, rows, manager, identifier, limit).Ok?
    ensures AnswersIdentifier(Query(utf8, rows, manager, identifier, limit).value, AsMap(rows), manager, identifier,
                              limit)
            <==> Alone(AsMap(rows), manager, identifier)
  {
    LookupExactly(utf8, rows, manager, identifier, limit);
    var primary := AsMap(rows);
    forall k: PrimaryIndexKey
      ensures |OwnKeysAbove(primary, manager, identifier, Serialize(k))| < limit
    {
      SubsetSize(OwnKeysAbove(primary, manager, identifier, Serialize(k)), primary.Keys);
    }
  }

  // ----- lookups after a run of inserts -----

  ghost predicate Utf8Identifiers(utf8: Utf8, inserts: seq<Insert>) {
    forall i | 0 <= i < |inserts| :: utf8(inserts[i].0.identifier)
  }

  lemma {:induction false} InsertedKeysDecode(utf8: Utf8, inserts: seq<Insert>, s: bytes)
    requires Utf8Identifiers(utf8, inserts) && s in InsertAll(inserts).primary
    ensures Deserialize(utf8, s).Ok?
  {
    var init, last := inserts[..|inserts| - 1], inserts[|inserts| - 1];
    if s == Serialize(last.0) {
      SerializeRoundTrip(utf8, last.0);
    } else {
      InsertedKeysDecode(utf8, init, s);
    }
  }

  /** The rows of a primary index that the inserts have produced. */
  ghost predicate RowsAfter(rows: seq<Row<IndexTarget>>, inserts: seq<Insert>) {
    Sorted(rows) && AsMap(rows) == InsertAll(inserts).primary
  }

  lemma RowsAfterDecode(utf8: Utf8, rows: seq<Row<IndexTarget>>, inserts: seq<Insert>)
    requires RowsAfter(rows, inserts) && Utf8Identifiers(utf8, inserts)
    ensures KeysDecode(utf8, rows)
  {
    AsMapMaps(rows);
    forall r | r in rows
      ensures Deserialize(utf8, r.key).Ok?
    {
      InsertedKeysDecode(utf8, inserts, r.key);
    }
  }

  /** Under distinct keys the primary index holds exactly what was inserted. */
  lemma HoldsWhatWasInserted(inserts: seq<Insert>, k: PrimaryIndexKey, target: IndexTarget)
    requires DistinctKeys(inserts)
    ensures Holds(InsertAll(inserts).primary, k, target) <==> (k, target) in inserts
  {
    PrimaryIsLastInsert(inserts, k);
    if (k, target) in inserts {
      var i :| 0 <= i < |inserts| && inserts[i] == (k, target);
      assert inserts[i].0 == k;
      var j: nat :| LastFor(inserts, k, j) && InsertAll(inserts).primary[Serialize(k)] == inserts[j].1;
      assert i == j;
    }
  }

  /** The answer lists the inserts of that identifier, newest first, up to the limit. */
  ghost predicate AnswersInserts(q: seq<Insert>, inserts: seq<Insert>, manager: ObjectId, identifier: bytes,
                                 limit: nat)
  {
    && |q| <= limit
    && (forall i | 0 <= i < |q| :: q[i] in inserts && q[i].0.manager == manager && q[i].0.identifier == identifier)
    && (forall i, j | 0 <= i < j < |q| :: q[j].0.sequence < q[i].0.sequence)
    && (forall insert | insert in inserts && insert.0.manager == manager && insert.0.identifier == identifier ::
         insert in q || (|q| == limit && OlderThanAll(insert.0.sequence, q)))
  }

  /** After any run of inserts under distinct keys, none of which intrudes, a lookup returns exactly the
      inserts of that manager and identifier, newest first, cut to the limit. */
  lemma LookupByIdentifier(utf8: Utf8, inserts: seq<Insert>, rows: seq<Row<IndexTarget>>, manager: ObjectId,
                           identifier: bytes, limit: nat)
    requires RowsAfter(rows, inserts) && Utf8Identifiers(utf8, inserts) && DistinctKeys(inserts)
    requires forall i | 0 <= i < |inserts| :: !Intrudes(manager, identifier, inserts[i].0)
    ensures Query(utf8, rows, manager, identifier, limit).Ok?
    ensures AnswersInserts(Query(utf8, rows, manager, identifier, limit).value, inserts, manager, identifier, limit)
  {
    RowsAfterDecode(utf8, rows, inserts);
    var primary := AsMap(rows);
    forall k: PrimaryIndexKey | Serialize(k) in primary
      ensures !Intrudes(manager, identifier, k)
    {
      HoldsWhatWasInserted(inserts, k, primary[Serialize(k)]);
    }
    LookupExactly(utf8, rows, manager, identifier, limit);
    AnswersAreInserts(Query(utf8, rows, manager, identifier, limit).value, inserts, manager, identifier, limit);
  }

  lemma AnswersAreInserts(q: seq<Insert>, inserts: seq<Insert>, manager: ObjectId, identifier: bytes, limit: nat)
    requires DistinctKeys(inserts) && AnswersIdentifier(q, InsertAll(inserts).primary, manager, identifier, limit)
    ensures AnswersInserts(q, inserts, manager, identifier, limit)
  {
    forall i | 0 <= i < |q|
      ensures q[i] in inserts
    {
      HoldsWhatWasInserted(inserts, q[i].0, q[i].1);
    }
    forall insert | insert in inserts && insert.0.manager == manager && insert.0.identifier == identifier
      ensures insert in q || (|q| == limit && OlderThanAll(insert.0.sequence, q))
    {
      HoldsWhatWasInserted(inserts, insert.0, insert.1);
      assert insert == (PrimaryIndexKey(manager, identifier, insert.0.sequence), insert.1);
    }
  }

  lemma OneAnswer(q: seq<Insert>, k: PrimaryIndexKey)
    requires Descending(q) && forall i | 0 <= i < |q| :: q[i].0 == k
    ensures |q| <= 1
  {
    AnswerKeysDistinct(q);
    SubsetSize(Elements(AnswerKeys(q)), {Serialize(k)});
  }

  /** A lookup of `identifier` returns a blob stored under `identifier/tail`. */
  lemma LookupReturnsOtherIdentifier(utf8: Utf8, manager: ObjectId, identifier: bytes, tail: bytes, n: u64,
                                     target: IndexTarget, limit: nat)
    requires SlashFree(identifier) && utf8(identifier + [SLASH] + tail) && limit > 0
    ensures var k := PrimaryIndexKey(manager, identifier + [SLASH] + tail, n);
            Query(utf8, [Row(Serialize(k), target)], manager, identifier, limit) == Ok([(k, target)])
  {
    var k := PrimaryIndexKey(manager, identifier + [SLASH] + tail, n);
    var rows := [Row(Serialize(k), target)];
    SerializeRoundTrip(utf8, k);
    HoldsIsStored(rows, k, target);
    IdentifierScanExact(manager, identifier, k);
    QuerySound(utf8, rows, manager, identifier, limit);
    QueryComplete(utf8, rows, manager, identifier, limit, k, target);
    var q := Query(utf8, rows, manager, identifier, limit).value;
    forall i | 0 <= i < |q|
      ensures q[i] == (k, target)
    {
      HoldsIsStored(rows, q[i].0, q[i].1);
      assert Row(Serialize(q[i].0), q[i].1) == rows[0];
      SerializeInjective(q[i].0, k);
    }
    OneAnswer(q, k);
    assert q == [(k, target)];
  }

  lemma KeysStillDecode(utf8: Utf8, rows: seq<Row<IndexTarget>>, rows': seq<Row<IndexTarget>>, key: bytes,
                        target: IndexTarget)
    requires Sorted(rows) && KeysDecode(utf8, rows) && Deserialize(utf8, key).Ok?
    requires Sorted(rows') && AsMap(rows') == AsMap(rows)[key := target]
    ensures KeysDecode(utf8, rows')
  {
    AsMapMaps(rows);
    AsMapMaps(rows');
    forall r | r in rows'
      ensures Deserialize(utf8, r.key).Ok?
    {
      assert r.key in AsMap(rows');
      if r.key != key {
        assert Row(r.key, AsMap(rows)[r.key]) in rows;
      }
    }
  }

  class IndexStore {
    const utf8: Utf8
    const primary: ColumnFamily<IndexTarget>
    const objects: ColumnFamily<ObjectIndexValue>

    ghost predicate Valid()
      reads this, primary, objects
    {
      && (primary as object) != objects
      && primary.Valid() && objects.Valid()
      && KeysDecode(utf8, primary.rows)
    }

    ghost function View(): Index
      reads this, primary, objects
    {
      Index(primary.Contents(), objects.Contents())
    }

    constructor (utf8: Utf8)
      ensures Valid() && View() == InsertAll([]) && this.utf8 == utf8
    {
      this.utf8 := utf8;
      primary := new ColumnFamily<IndexTarget>();
      objects := new ColumnFamily<ObjectIndexValue>();
    }

    /** Inserts into both indices. Identifiers are strings, so their bytes are UTF-8. */
    method InsertPrimaryIndex(k: PrimaryIndexKey, target: IndexTarget)
      requires Valid() && utf8(k.identifier)
      modifies primary, objects
      ensures Valid() && View() == Inserted(old(View()), k, target)
    {
      if target.Blob? {
        objects.Put(target.objectId, ObjectIndexValue(k.manager, k.identifier, k.sequence));
      }
      SerializeRoundTrip(utf8, k);
      primary.Put(Serialize(k), target);
      KeysStillDecode(utf8, old(primary.rows), primary.rows, Serialize(k), target);
    }

    method GetBlobByIdentifier(manager: ObjectId, identifier: bytes, limit: nat)
      returns (result: Result<seq<Insert>, KeyError>)
      requires Valid()
      ensures result == Query(utf8, primary.rows, manager, identifier, limit)
    {
      var (begin, end) := PrimaryIndexBounds(manager, identifier);
      result := primary.ReadRange(RowDecoder(utf8), NoFault, begin, end, limit, true);
    }

    method GetBlobByObjectId(o: ObjectId) returns (value: Option<ObjectIndexValue>)
      requires Valid()
      ensures value == if o in View().objects then Some(View().objects[o]) else None
    {
      value := objects.Get(o);
    }
  }
}
