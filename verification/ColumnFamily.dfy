/** A column family: rows ordered by key bytes, with point writes, point reads and range scans. */
module ColumnFamily {
  import opened ByteStrings

  datatype Row<V> = Row(key: bytes, value: V)

  ghost predicate Sorted<V>(rows: seq<Row<V>>) {
    forall i, j | 0 <= i < j < |rows| :: LexLess(rows[i].key, rows[j].key)
  }

  /** Where a seek to `key` lands: the number of leading rows with a smaller key. */
  function Seek<V>(rows: seq<Row<V>>, key: bytes): (n: nat)
    ensures n <= |rows|
  {
    if rows == [] || !LexLess(rows[0].key, key) then 0 else 1 + Seek(rows[1..], key)
  }

  ghost predicate SplitsAt<V>(rows: seq<Row<V>>, key: bytes, n: nat) {
    n <= |rows| && forall i | 0 <= i < |rows| :: i < n <==> LexLess(rows[i].key, key)
  }

  /** In sorted rows a seek separates the smaller keys from the others. */
  lemma {:induction false} SeekSplits<V>(rows: seq<Row<V>>, key: bytes)
    requires Sorted(rows)
    ensures SplitsAt(rows, key, Seek(rows, key))
  {
    if rows != [] {
      var rest := rows[1..];
      if LexLess(rows[0].key, key) {
        SeekSplits(rest, key);
        forall i | 0 <= i < |rows|
          ensures i < Seek(rows, key) <==> LexLess(rows[i].key, key)
        {
          assert i > 0 ==> rows[i] == rest[i - 1];
        }
      } else {
        forall i | 0 <= i < |rows|
          ensures !LexLess(rows[i].key, key)
        {
          NotBelow(rows[0].key, rows[i].key, key);
        }
      }
    }
  }

  lemma NotBelow(a: bytes, b: bytes, c: bytes)
    requires LexLessEq(a, b) && !LexLess(a, c)
    ensures !LexLess(b, c)
  {
    if a != b && LexLess(b, c) {
      LexTransitive(a, b, c);
    }
  }

  // ----- contents -----

  /** What the rows say, as a map. */
  ghost function AsMap<V>(rows: seq<Row<V>>): map<bytes, V> {
    if rows == [] then map[]
    else AsMap(rows[..|rows| - 1])[rows[|rows| - 1].key := rows[|rows| - 1].value]
  }

  ghost predicate Maps<V(!new)>(rows: seq<Row<V>>, m: map<bytes, V>) {
    && (forall r | r in rows :: r.key in m && m[r.key] == r.value)
    && (forall k | k in m :: Row(k, m[k]) in rows)
  }

  lemma {:induction false} AsMapMaps<V(!new)>(rows: seq<Row<V>>)
    requires Sorted(rows)
    ensures Maps(rows, AsMap(rows))
  {
    if rows != [] {
      var init, last := rows[..|rows| - 1], rows[|rows| - 1];
      AsMapMaps(init);
      assert rows == init + [last];
      forall r | r in init
        ensures r.key != last.key
      {
        var i :| 0 <= i < |init| && init[i] == r;
        LexTotal(rows[i].key, last.key);
      }
    }
  }

  lemma SameMap<V(!new)>(rows: seq<Row<V>>, m: map<bytes, V>, m': map<bytes, V>)
    requires Maps(rows, m) && Maps(rows, m')
    ensures m == m'
  {
    assert forall k | k in m :: k in m' && m'[k] == m[k] by {
      forall k | k in m
        ensures k in m' && m'[k] == m[k]
      {
        assert Row(k, m[k]) in rows;
      }
    }
    assert forall k | k in m' :: k in m by {
      forall k | k in m'
        ensures k in m
      {
        assert Row(k, m'[k]) in rows;
      }
    }
  }

  // ----- writes -----

  function Written<V>(rows: seq<Row<V>>, key: bytes, value: V): seq<Row<V>> {
    var n := Seek(rows, key);
    if n < |rows| && rows[n].key == key then rows[n := Row(key, value)]
    else rows[..n] + [Row(key, value)] + rows[n..]
  }

  lemma KeyOnlyAtSeek<V>(rows: seq<Row<V>>, key: bytes, i: nat)
    requires Sorted(rows) && i < |rows|
    ensures rows[i].key == key ==> i == Seek(rows, key)
  {
    SeekSplits(rows, key);
    LexTotal(key, key);
    var n := Seek(rows, key);
    assert n < |rows| ==> !LexLess(rows[n].key, key);
  }

  lemma AboveSeek<V>(rows: seq<Row<V>>, key: bytes, j: nat)
    requires Sorted(rows) && Seek(rows, key) <= j < |rows| && rows[j].key != key
    ensures LexLess(key, rows[j].key)
  {
    SeekSplits(rows, key);
    LexTotal(key, rows[j].key);
  }

  lemma InsertedSorted<V>(rows: seq<Row<V>>, n: nat, r: Row<V>)
    requires Sorted(rows) && n <= |rows|
    requires forall i | 0 <= i < n :: LexLess(rows[i].key, r.key)
    requires forall i | n <= i < |rows| :: LexLess(r.key, rows[i].key)
    ensures Sorted(rows[..n] + [r] + rows[n..])
  {
    var rows' := rows[..n] + [r] + rows[n..];
    forall i, j | 0 <= i < j < |rows'|
      ensures LexLess(rows'[i].key, rows'[j].key)
    {
      assert i < n ==> rows'[i] == rows[i];
      assert i > n ==> rows'[i] == rows[i - 1];
      assert j < n ==> rows'[j] == rows[j];
      assert j > n ==> rows'[j] == rows[j - 1];
    }
  }

  lemma WrittenSorted<V>(rows: seq<Row<V>>, key: bytes, value: V)
    requires Sorted(rows)
    ensures Sorted(Written(rows, key, value))
  {
    SeekSplits(rows, key);
    var n := Seek(rows, key);
    if n == |rows| || rows[n].key != key {
      forall j | n <= j < |rows|
        ensures LexLess(key, rows[j].key)
      {
        KeyOnlyAtSeek(rows, key, j);
        AboveSeek(rows, key, j);
      }
      InsertedSorted(rows, n, Row(key, value));
    }
  }

  /** A write replaces the row of its key or adds one; every other row stays. */
  lemma WrittenRows<V>(rows: seq<Row<V>>, key: bytes, value: V, r: Row<V>)
    requires Sorted(rows)
    ensures r in Written(rows, key, value) <==> r == Row(key, value) || (r in rows && r.key != key)
  {
    var n := Seek(rows, key);
    var rows' := Written(rows, key, value);
    assert rows'[n] == Row(key, value);
    if r in rows && r.key != key {
      var i :| 0 <= i < |rows| && rows[i] == r;
      if |rows'| == |rows| {
        assert rows'[i] == r;
      } else {
        assert rows'[if i < n then i else i + 1] == r;
      }
    }
    if r in rows' && r != Row(key, value) {
      var i :| 0 <= i < |rows'| && rows'[i] == r;
      var j := if |rows'| == |rows| || i < n then i else i - 1;
      assert rows[j] == r;
      KeyOnlyAtSeek(rows, key, j);
    }
  }

  lemma WrittenMap<V(!new)>(rows: seq<Row<V>>, key: bytes, value: V)
    requires Sorted(rows)
    ensures AsMap(Written(rows, key, value)) == AsMap(rows)[key := value]
  {
    AsMapMaps(rows);
    WrittenSorted(rows, key, value);
    var rows', m := Written(rows, key, value), AsMap(rows)[key := value];
    AsMapMaps(rows');
    forall r | r in rows'
      ensures r.key in m && m[r.key] == r.value
    {
      WrittenRows(rows, key, value, r);
    }
    forall k | k in m
      ensures Row(k, m[k]) in rows'
    {
      WrittenRows(rows, key, value, Row(k, m[k]));
    }
    SameMap(rows', m, AsMap(rows'));
  }

  // ----- scans -----

  /** The rows with `begin <= key < end`, by position. */
  function Range<V>(rows: seq<Row<V>>, begin: bytes, end: bytes): seq<Row<V>> {
    var lo, hi := Seek(rows, begin), Seek(rows, end);
    if lo <= hi then rows[lo..hi] else []
  }

  lemma RangePosition<V>(rows: seq<Row<V>>, begin: bytes, end: bytes, i: nat)
    requires Sorted(rows) && i < |rows|
    ensures LexLessEq(begin, rows[i].key) && LexLess(rows[i].key, end) <==> Seek(rows, begin) <= i < Seek(rows, end)
  {
    SeekSplits(rows, begin);
    SeekSplits(rows, end);
    LexTotal(begin, rows[i].key);
  }

  lemma SliceMember<T>(s: seq<T>, lo: nat, hi: nat, x: T)
    requires lo <= hi <= |s|
    ensures x in s[lo..hi] <==> exists i | lo <= i < hi :: s[i] == x
  {
    if x in s[lo..hi] {
      var i :| 0 <= i < hi - lo && s[lo..hi][i] == x;
      assert s[lo + i] == x;
    }
  }

  /** The rows between two seeks are exactly those whose keys lie in the range. */
  lemma RangeExact<V>(rows: seq<Row<V>>, begin: bytes, end: bytes, r: Row<V>)
    requires Sorted(rows)
    ensures r in Range(rows, begin, end) <==> r in rows && LexLessEq(begin, r.key) && LexLess(r.key, end)
  {
    var lo, hi := Seek(rows, begin), Seek(rows, end);
    forall i | 0 <= i < |rows| && rows[i] == r
      ensures LexLessEq(begin, r.key) && LexLess(r.key, end) <==> lo <= i < hi
    {
      RangePosition(rows, begin, end, i);
    }
    if lo <= hi {
      SliceMember(rows, lo, hi, r);
    }
  }

  function Reversed<T>(s: seq<T>): (r: seq<T>)
    ensures |r| == |s|
    ensures forall i | 0 <= i < |s| :: r[i] == s[|s| - 1 - i]
  {
    if s == [] then [] else [s[|s| - 1]] + Reversed(s[..|s| - 1])
  }

  function Cut<T>(s: seq<T>, limit: nat): seq<T> {
    if |s| <= limit then s else s[..limit]
  }

  /** What an iterator over the range yields, in its direction, at most `limit` rows. */
  function Scanned<V>(rows: seq<Row<V>>, begin: bytes, end: bytes, limit: nat, reverse: bool): seq<Row<V>> {
    var range := Range(rows, begin, end);
    Cut(if reverse then Reversed(range) else range, limit)
  }

  /** A reverse scan yields rows of the range, largest key first; what the limit cuts off is smaller
      than everything it yields. */
  lemma ReverseScan<V>(rows: seq<Row<V>>, begin: bytes, end: bytes, limit: nat)
    requires Sorted(rows)
    ensures var s := Scanned(rows, begin, end, limit, true);
            && |s| <= limit
            && (forall i, j | 0 <= i < j < |s| :: LexLess(s[j].key, s[i].key))
            && (forall r | r in s :: r in Range(rows, begin, end))
  {
    var range := Range(rows, begin, end);
    var back := Reversed(range);
    var s := Cut(back, limit);
    forall i | 0 <= i < |s|
      ensures s[i] == range[|range| - 1 - i]
    {
    }
  }

  lemma ReverseScanComplete<V>(rows: seq<Row<V>>, begin: bytes, end: bytes, limit: nat, r: Row<V>)
    requires Sorted(rows) && r in Range(rows, begin, end)
    ensures var s := Scanned(rows, begin, end, limit, true);
            r in s || (|s| == limit && forall i | 0 <= i < |s| :: LexLess(r.key, s[i].key))
  {
    var range := Range(rows, begin, end);
    var back := Reversed(range);
    var s := Cut(back, limit);
    var n :| 0 <= n < |range| && range[n] == r;
    var m := |range| - 1 - n;
    assert back[m] == r;
    if m < |s| {
      assert s[m] == r;
    } else {
      forall i | 0 <= i < |s|
        ensures LexLess(r.key, s[i].key)
      {
        assert s[i] == range[|range| - 1 - i];
        RangeSorted(rows, begin, end);
      }
    }
  }

  /** A forward scan yields rows of the range, smallest key first. */
  lemma ForwardScan<V>(rows: seq<Row<V>>, begin: bytes, end: bytes, limit: nat)
    requires Sorted(rows)
    ensures var s := Scanned(rows, begin, end, limit, false);
            |s| <= limit && Sorted(s) && (forall r | r in s :: r in Range(rows, begin, end))
  {
    RangeSorted(rows, begin, end);
  }

  lemma ForwardScanComplete<V>(rows: seq<Row<V>>, begin: bytes, end: bytes, limit: nat, r: Row<V>)
    requires Sorted(rows) && r in Range(rows, begin, end)
    ensures var s := Scanned(rows, begin, end, limit, false);
            r in s || (|s| == limit && forall i | 0 <= i < |s| :: LexLess(s[i].key, r.key))
  {
    RangeSorted(rows, begin, end);
    var range := Range(rows, begin, end);
    var s := Cut(range, limit);
    var n :| 0 <= n < |range| && range[n] == r;
    if n < |s| {
      assert s[n] == r;
    }
  }

  lemma RangeSorted<V>(rows: seq<Row<V>>, begin: bytes, end: bytes)
    requires Sorted(rows)
    ensures Sorted(Range(rows, begin, end))
  {
  }

  /** Turns a stored row, key and value, into what callers see, or fails. */
  type Decoder<!V, T, E> = Row<V> -> Result<T, E>

  /** Whether the `i`-th row of an iteration cannot be read. */
  type Faults<E> = nat -> Option<E>

  function Item<V, T, E>(decode: Decoder<V, T, E>, faults: Faults<E>, rows: seq<Row<V>>, i: nat): Result<T, E>
    requires i < |rows|
  {
    if faults(i).Some? then Err(faults(i).value) else decode(rows[i])
  }

  /** The rows from `i` on, up to the first that cannot be read or decoded. */
  function DecodedFrom<V, T, E>(decode: Decoder<V, T, E>, faults: Faults<E>, rows: seq<Row<V>>, i: nat): seq<T>
    requires i <= |rows|
    decreases |rows| - i
  {
    if i == |rows| || Item(decode, faults, rows, i).Err? then []
    else [Item(decode, faults, rows, i).value] + DecodedFrom(decode, faults, rows, i + 1)
  }

  function Decoded<V, T, E>(decode: Decoder<V, T, E>, faults: Faults<E>, rows: seq<Row<V>>): Result<seq<T>, E> {
    if rows != [] && Item(decode, faults, rows, 0).Err? then Err(Item(decode, faults, rows, 0).error)
    else Ok(DecodedFrom(decode, faults, rows, 0))
  }

  lemma {:induction false} DecodedUpTo<V, T, E>(decode: Decoder<V, T, E>, faults: Faults<E>, rows: seq<Row<V>>, i: nat)
    requires i <= |rows|
    ensures var d := DecodedFrom(decode, faults, rows, i);
            && i + |d| <= |rows|
            && (forall j | 0 <= j < |d| :: Item(decode, faults, rows, i + j) == Ok(d[j]))
            && (i + |d| < |rows| ==> Item(decode, faults, rows, i + |d|).Err?)
    decreases |rows| - i
  {
    if i < |rows| && Item(decode, faults, rows, i).Ok? {
      DecodedUpTo(decode, faults, rows, i + 1);
      var d, rest := DecodedFrom(decode, faults, rows, i), DecodedFrom(decode, faults, rows, i + 1);
      assert d == [Item(decode, faults, rows, i).value] + rest;
      forall j | 0 <= j < |d|
        ensures Item(decode, faults, rows, i + j) == Ok(d[j])
      {
        assert j > 0 ==> Item(decode, faults, rows, i + 1 + (j - 1)) == Ok(rest[j - 1]);
      }
    }
  }

  /** A scan fails with the error of its first row, or returns all rows before the first that cannot be read
      or decoded. A row that cannot be read is not decoded. */
  lemma DecodedExactly<V, T, E>(decode: Decoder<V, T, E>, faults: Faults<E>, rows: seq<Row<V>>)
    ensures var d := Decoded(decode, faults, rows);
            if rows != [] && faults(0).Some? then d == Err(faults(0).value)
            else if rows != [] && decode(rows[0]).Err? then d == Err(decode(rows[0]).error)
            else
              && d.Ok? && |d.value| <= |rows|
              && (forall j | 0 <= j < |d.value| :: faults(j) == None && decode(rows[j]) == Ok(d.value[j]))
              && (|d.value| < |rows| ==> faults(|d.value|).Some? || decode(rows[|d.value|]).Err?)
  {
    DecodedUpTo(decode, faults, rows, 0);
    var d := DecodedFrom(decode, faults, rows, 0);
    forall j | 0 <= j < |d|
      ensures faults(j) == None && decode(rows[j]) == Ok(d[j])
    {
      assert Item(decode, faults, rows, 0 + j) == Ok(d[j]);
    }
  }

  /** Rows that can all be read and decoded are returned one for one. */
  lemma {:induction false} DecodedInFull<V, T, E>(decode: Decoder<V, T, E>, faults: Faults<E>, rows: seq<Row<V>>,
                                                  i: nat)
    requires i <= |rows| && forall j | 0 <= j < |rows| :: Item(decode, faults, rows, j).Ok?
    ensures var d := DecodedFrom(decode, faults, rows, i);
            && |d| == |rows| - i
            && forall j | 0 <= j < |d| :: d[j] == Item(decode, faults, rows, i + j).value
    decreases |rows| - i
  {
    if i < |rows| {
      DecodedInFull(decode, faults, rows, i + 1);
      var d, rest := DecodedFrom(decode, faults, rows, i), DecodedFrom(decode, faults, rows, i + 1);
      assert d == [Item(decode, faults, rows, i).value] + rest;
      forall j | 0 <= j < |d|
        ensures d[j] == Item(decode, faults, rows, i + j).value
      {
        assert j > 0 ==> d[j] == rest[j - 1] == Item(decode, faults, rows, i + 1 + (j - 1)).value;
      }
    }
  }

  /** Where `encode` gives the row of a decoded item back, so it does for all that is decoded. */
  lemma DecodedRoundTrip<V, T, E>(decode: Decoder<V, T, E>, faults: Faults<E>, rows: seq<Row<V>>, encode: T -> Row<V>)
    requires forall i | 0 <= i < |rows| :: Item(decode, faults, rows, i).Ok?
    requires forall i | 0 <= i < |rows| :: encode(Item(decode, faults, rows, i).value) == rows[i]
    ensures var d := Decoded(decode, faults, rows);
            d.Ok? && |d.value| == |rows| && forall i | 0 <= i < |rows| :: rows[i] == encode(d.value[i])
  {
    DecodedInFull(decode, faults, rows, 0);
    var d := DecodedFrom(decode, faults, rows, 0);
    forall i | 0 <= i < |rows|
      ensures rows[i] == encode(d[i])
    {
      assert d[i] == Item(decode, faults, rows, 0 + i).value;
    }
  }

  class ColumnFamily<V(!new)> {
    var rows: seq<Row<V>>

    ghost predicate Valid()
      reads this
    {
      Sorted(rows)
    }

    ghost function Contents(): map<bytes, V>
      reads this
    {
      AsMap(rows)
    }

    constructor ()
      ensures Valid() && rows == []
    {
      rows := [];
    }

    method Put(key: bytes, value: V)
      requires Valid()
      modifies this
      ensures Valid() && Contents() == old(Contents())[key := value]
    {
      WrittenSorted(rows, key, value);
      WrittenMap(rows, key, value);
      var n := Seek(rows, key);
      if n < |rows| && rows[n].key == key {
        rows := rows[n := Row(key, value)];
      } else {
        rows := rows[..n] + [Row(key, value)] + rows[n..];
      }
    }

    method Get(key: bytes) returns (value: Option<V>)
      requires Valid()
      ensures value == if key in Contents() then Some(Contents()[key]) else None
    {
      AsMapMaps(rows);
      var n := Seek(rows, key);
      if n < |rows| && rows[n].key == key {
        value := Some(rows[n].value);
        assert rows[n] in rows;
      } else {
        value := None;
        forall i | 0 <= i < |rows|
          ensures rows[i].key != key
        {
          KeyOnlyAtSeek(rows, key, i);
        }
      }
    }

    /** Reads `[begin, end)`. A row that cannot be read or decoded ends the scan; it is an error only when
        it is the first one. */
    method ReadRange<T, E>(decode: Decoder<V, T, E>, faults: Faults<E>, begin: bytes, end: bytes, limit: nat,
                           reverse: bool) returns (result: Result<seq<T>, E>)
      requires Valid()
      ensures result == Decoded(decode, faults, Scanned(rows, begin, end, limit, reverse))
    {
      var items := Scanned(rows, begin, end, limit, reverse);
      var results: seq<T> := [];
      for i := 0 to |items|
        invariant |results| == i
        invariant i > 0 ==> Item(decode, faults, items, 0).Ok?
        invariant results + DecodedFrom(decode, faults, items, i) == DecodedFrom(decode, faults, items, 0)
      {
        match Item(decode, faults, items, i) {
          case Ok(item) =>
            ConcatAssociative(results, [item], DecodedFrom(decode, faults, items, i + 1));
            results := results + [item];
          case Err(e) =>
            if results == [] {
              return Err(e);
            }
            assert results + DecodedFrom(decode, faults, items, i) == results;
            return Ok(results);
        }
      }
      assert results + DecodedFrom(decode, faults, items, |items|) == results;
      result := Ok(results);
    }
  }
}
