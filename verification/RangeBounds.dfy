/** How a typed range over keys becomes the byte bounds of a RocksDB iterator: an inclusive lower and
    an exclusive upper bound. Keys stand for their big-endian fixed-width serialization. */
module RangeBounds {
  import opened ByteStrings

  datatype Bound = Included(key: bytes) | Excluded(key: bytes) | Unbounded

  datatype KeyRange = KeyRange(lower: Bound, upper: Bound)

  /** Iterator bounds: `lower` inclusive, `upper` exclusive. */
  datatype ReadOptions = ReadOptions(lower: Option<bytes>, upper: Option<bytes>)

  // ----- incrementing a big-endian number -----

  predicate IsMax(v: bytes) {
    forall i | 0 <= i < |v| :: v[i] == 255
  }

  function Increment(v: bytes): (r: bytes)
    requires !IsMax(v)
    ensures |r| == |v|
  {
    var init, last := v[..|v| - 1], v[|v| - 1];
    if last < 255 then init + [last + 1]
    else
      assert v == init + [last];
      Increment(init) + [0]
  }

  function SaturatingIncrement(v: bytes): bytes {
    if IsMax(v) then v else Increment(v)
  }

  /** A string of 0xFF bytes is the largest number of its width. */
  lemma {:induction false} MaxIsLargest(v: bytes)
    ensures IsMax(v) <==> BeValue(v) == Pow256(|v|) - 1
  {
    if v != [] {
      var init, last := v[..|v| - 1], v[|v| - 1];
      MaxIsLargest(init);
      BeValueRoundTrip(init);
      assert v == init + [last];
    }
  }

  /** Otherwise the increment is the successor of the same width. */
  lemma {:induction false} IncrementIsSuccessor(v: bytes)
    requires !IsMax(v)
    ensures BeValue(Increment(v)) == BeValue(v) + 1
  {
    var init, last := v[..|v| - 1], v[|v| - 1];
    assert v == init + [last];
    if last < 255 {
      assert (init + [last + 1])[..|v| - 1] == init;
    } else {
      IncrementIsSuccessor(init);
      assert (Increment(init) + [0])[..|v| - 1] == Increment(init);
    }
  }

  method IsMaxBytes(v: array<byte>) returns (max: bool)
    ensures max == IsMax(v[..])
  {
    for i := 0 to v.Length
      invariant forall j | 0 <= j < i :: v[j] == 255
    {
      if v[i] != 255 {
        assert v[..][i] != 255;
        return false;
      }
    }
    return true;
  }

  /** The bytes before `n` stay, the byte at `n` is one more, the ones behind it wrap from 0xFF to 0. */
  ghost predicate CarriedTo(v: bytes, r: bytes, n: nat) {
    && |r| == |v| && n < |v|
    && v[n] < 255 && r[n] == v[n] + 1
    && (forall i | 0 <= i < n :: r[i] == v[i])
    && (forall i | n < i < |v| :: v[i] == 255 && r[i] == 0)
  }

  lemma {:induction false} CarriedIsIncrement(v: bytes, r: bytes, n: nat)
    requires CarriedTo(v, r, n)
    ensures !IsMax(v) && r == Increment(v)
  {
    var init, last := v[..|v| - 1], v[|v| - 1];
    assert r == r[..|v| - 1] + [r[|v| - 1]];
    if n == |v| - 1 {
      assert r[..|v| - 1] == init;
    } else {
      CarriedIsIncrement(init, r[..|v| - 1], n);
    }
  }

  method BigEndianSaturatingAddOne(v: array<byte>)
    modifies v
    ensures v[..] == SaturatingIncrement(old(v[..]))
  {
    var max := IsMaxBytes(v);
    if max {
      return;
    }
    ghost var was := v[..];
    var i := v.Length;
    while i > 0
      invariant 0 <= i <= v.Length
      invariant forall j | 0 <= j < i :: v[j] == was[j]
      invariant forall j | i <= j < v.Length :: was[j] == 255 && v[j] == 0
    {
      i := i - 1;
      if v[i] == 255 {
        v[i] := 0;
      } else {
        v[i] := v[i] + 1;
        CarriedIsIncrement(was, v[..], i);
        return;
      }
    }
  }

  // ----- what lies between a key and its increment -----

  lemma PrefixHeadTail(a: bytes, b: bytes)
    requires a != [] && b != []
    ensures a < b <==> a[0] == b[0] && a[1..] < b[1..]
  {
    assert a == [a[0]] + a[1..] && b == [b[0]] + b[1..];
  }

  /** Only longer strings lie above a string of 0xFF bytes. */
  lemma {:induction false} AboveMax(v: bytes, s: bytes)
    requires IsMax(v)
    ensures LexLess(v, s) <==> v < s
  {
    if v != [] && s != [] {
      AboveMax(v[1..], s[1..]);
      PrefixHeadTail(v, s);
    }
  }

  /** Only shorter strings of zeros lie below a string of zeros. */
  lemma {:induction false} BelowZeros(z: bytes, s: bytes)
    requires forall i | 0 <= i < |z| :: z[i] == 0
    ensures LexLess(s, z) <==> s < z
  {
    if z != [] && s != [] {
      BelowZeros(z[1..], s[1..]);
      PrefixHeadTail(s, z);
    }
  }

  /** The strings strictly between a key and its increment: extensions of the key, and prefixes of the
      increment that are above the key. No string of the key's width is among them. */
  predicate Between(v: bytes, s: bytes)
    requires !IsMax(v)
  {
    v < s || (LexLess(v, s) && s < Increment(v))
  }

  lemma {:induction false} BetweenCarried(v: bytes, r: bytes, n: nat, s: bytes)
    requires CarriedTo(v, r, n)
    ensures LexLess(v, s) && LexLess(s, r) <==> v < s || (LexLess(v, s) && s < r)
  {
    if s != [] {
      PrefixHeadTail(v, s);
      PrefixHeadTail(s, r);
      if n > 0 {
        BetweenCarried(v[1..], r[1..], n - 1, s[1..]);
      } else {
        AboveMax(v[1..], s[1..]);
        BelowZeros(r[1..], s[1..]);
      }
    }
  }

  lemma {:induction false} IncrementCarries(v: bytes) returns (n: nat)
    requires !IsMax(v)
    ensures CarriedTo(v, Increment(v), n)
  {
    var init, last := v[..|v| - 1], v[|v| - 1];
    if last < 255 {
      n := |v| - 1;
    } else {
      assert v == init + [last];
      n := IncrementCarries(init);
    }
  }

  lemma BetweenExact(v: bytes, s: bytes)
    requires !IsMax(v)
    ensures LexLess(v, s) && LexLess(s, Increment(v)) <==> Between(v, s)
  {
    var n := IncrementCarries(v);
    BetweenCarried(v, Increment(v), n, s);
  }

  lemma IncrementIsAbove(v: bytes)
    requires !IsMax(v)
    ensures LexLess(v, Increment(v))
  {
    IncrementIsSuccessor(v);
    LexIsNumeric(v, Increment(v));
  }

  // ----- from a typed range to iterator bounds -----

  predicate AdmitsLower(b: Bound, s: bytes) {
    match b
    case Included(k) => LexLessEq(k, s)
    case Excluded(k) => LexLess(k, s)
    case Unbounded => true
  }

  predicate AdmitsUpper(b: Bound, s: bytes) {
    match b
    case Included(k) => LexLessEq(s, k)
    case Excluded(k) => LexLess(s, k)
    case Unbounded => true
  }

  /** The keys the caller asked for. */
  predicate InRange(range: KeyRange, s: bytes) {
    AdmitsLower(range.lower, s) && AdmitsUpper(range.upper, s)
  }

  predicate AboveLower(o: ReadOptions, s: bytes) {
    o.lower.Some? ==> LexLessEq(o.lower.value, s)
  }

  predicate BelowUpper(o: ReadOptions, s: bytes) {
    o.upper.Some? ==> LexLess(s, o.upper.value)
  }

  /** The keys the iterator yields. */
  predicate InScan(o: ReadOptions, s: bytes) {
    AboveLower(o, s) && BelowUpper(o, s)
  }

  function OptionsOf(range: KeyRange): ReadOptions {
    ReadOptions(
      match range.lower
      case Included(k) => Some(k)
      case Excluded(k) => Some(SaturatingIncrement(k))
      case Unbounded => None,
      match range.upper
      case Included(k) => if IsMax(k) then None else Some(Increment(k))
      case Excluded(k) => Some(k)
      case Unbounded => None)
  }

  method CreateReadOptionsWithRange(range: KeyRange) returns (options: ReadOptions)
    ensures options == OptionsOf(range)
  {
    options := ReadOptions(None, None);
    match range.lower {
      case Included(k) => options := options.(lower := Some(k));
      case Excluded(k) =>
        var buf := new byte[|k|](i requires 0 <= i < |k| => k[i]);
        assert buf[..] == k;
        BigEndianSaturatingAddOne(buf);
        options := options.(lower := Some(buf[..]));
      case Unbounded =>
    }
    match range.upper {
      case Included(k) =>
        var buf := new byte[|k|](i requires 0 <= i < |k| => k[i]);
        assert buf[..] == k;
        var max := IsMaxBytes(buf);
        if !max {
          BigEndianSaturatingAddOne(buf);
          options := options.(upper := Some(buf[..]));
        }
      case Excluded(k) => options := options.(upper := Some(k));
      case Unbounded =>
    }
  }

  /** Where the lower bound errs: at an excluded key of 0xFF bytes itself, which has no successor, and
      at the strings between an excluded key and its increment. */
  predicate LowerErrs(b: Bound, s: bytes) {
    b.Excluded? && if IsMax(b.key) then s == b.key else Between(b.key, s)
  }

  /** Where the upper bound errs: at extensions of an included key of 0xFF bytes, and at the strings
      between an included key and its increment. */
  predicate UpperErrs(b: Bound, s: bytes) {
    b.Included? && if IsMax(b.key) then b.key < s else Between(b.key, s)
  }

  lemma LowerExact(range: KeyRange, s: bytes)
    ensures (AboveLower(OptionsOf(range), s) <==> AdmitsLower(range.lower, s)) <==> !LowerErrs(range.lower, s)
  {
    if range.lower.Excluded? {
      var k := range.lower.key;
      LexTotal(k, s);
      if !IsMax(k) {
        BetweenExact(k, s);
        IncrementIsAbove(k);
        LexTotal(s, Increment(k));
        if LexLess(Increment(k), s) {
          LexTransitive(k, Increment(k), s);
        }
      }
    }
  }

  lemma UpperExact(range: KeyRange, s: bytes)
    ensures (BelowUpper(OptionsOf(range), s) <==> AdmitsUpper(range.upper, s)) <==> !UpperErrs(range.upper, s)
  {
    if range.upper.Included? {
      var k := range.upper.key;
      LexTotal(k, s);
      if IsMax(k) {
        AboveMax(k, s);
      } else {
        BetweenExact(k, s);
        IncrementIsAbove(k);
        if LexLess(s, k) {
          LexTransitive(s, k, Increment(k));
        }
      }
    }
  }

  ghost predicate Width(range: KeyRange, w: nat) {
    (!range.lower.Unbounded? ==> |range.lower.key| == w) && (!range.upper.Unbounded? ==> |range.upper.key| == w)
  }

  /** With keys of one width the iterator yields exactly the range, except for one key: an excluded
      lower bound of 0xFF bytes is yielded when the upper bound admits it. */
  lemma ScanExact(range: KeyRange, w: nat, s: bytes)
    requires Width(range, w) && |s| == w
    ensures (InScan(OptionsOf(range), s) <==> InRange(range, s))
            <==> !(range.lower == Excluded(s) && IsMax(s) && AdmitsUpper(range.upper, s))
  {
    LowerExact(range, s);
    UpperExact(range, s);
    LexTotal(s, s);
  }

  ghost predicate ScanIsRange(range: KeyRange, w: nat) {
    forall s: bytes | |s| == w :: InScan(OptionsOf(range), s) <==> InRange(range, s)
  }

  /** As a statement about the range alone. */
  lemma ScanIsRangeExactly(range: KeyRange, w: nat)
    requires Width(range, w)
    ensures ScanIsRange(range, w)
            <==> !(range.lower.Excluded? && IsMax(range.lower.key) && AdmitsUpper(range.upper, range.lower.key))
  {
    forall s: bytes | |s| == w
      ensures (InScan(OptionsOf(range), s) <==> InRange(range, s))
              <==> !(range.lower == Excluded(s) && IsMax(s) && AdmitsUpper(range.upper, s))
    {
      ScanExact(range, w, s);
    }
    if range.lower.Excluded? && IsMax(range.lower.key) && AdmitsUpper(range.upper, range.lower.key) {
      var s := range.lower.key;
      assert !(InScan(OptionsOf(range), s) <==> InRange(range, s));
    }
  }

  /** `(255, ..)` over one-byte keys yields 255. */
  lemma ExcludedLargestKeyIsYielded()
    ensures InScan(OptionsOf(KeyRange(Excluded([255]), Unbounded)), [255])
    ensures !InRange(KeyRange(Excluded([255]), Unbounded), [255])
  {
    LexTotal([255], [255]);
  }
}
