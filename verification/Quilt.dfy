/** Patches of a quilt: their sliver ranges, how start indices are recovered from end indices, and the
    five-byte form of a patch ID. */
module Quilt {
  import opened ByteStrings

  type u16 = n: int | 0 <= n < 0x1_0000

  datatype QuiltPatch = QuiltPatch(startIndex: u16, endIndex: u16, identifier: string, tags: map<string, string>)

  /** The indices from `a` up to but not including `b`. */
  function Indices(a: nat, b: nat): (s: seq<nat>)
    ensures |s| == if a <= b then b - a else 0
    ensures forall i | 0 <= i < |s| :: s[i] == a + i
    decreases b
  {
    if a >= b then [] else Indices(a, b - 1) + [b - 1]
  }

  function SliverIndices(p: QuiltPatch): seq<nat> {
    Indices(p.startIndex, p.endIndex)
  }

  // ----- recovering start indices -----

  function Populated(patches: seq<QuiltPatch>, first: u16): (r: seq<QuiltPatch>)
    ensures |r| == |patches|
  {
    if patches == [] then []
    else [patches[0].(startIndex := first)] + Populated(patches[1..], patches[0].endIndex)
  }

  /** Each patch starts where the one before it ends; nothing else changes. */
  lemma {:induction false} PopulatedAt(patches: seq<QuiltPatch>, first: u16, i: nat)
    requires i < |patches|
    ensures Populated(patches, first)[i]
            == patches[i].(startIndex := if i == 0 then first else patches[i - 1].endIndex)
  {
    if |patches| > 1 {
      PopulatedAt(patches[1..], patches[0].endIndex, if i == 0 then 0 else i - 1);
    }
  }

  method PopulateStartIndices(patches: array<QuiltPatch>, first: u16)
    modifies patches
    ensures patches[..] == Populated(old(patches[..]), first)
  {
    ghost var was := patches[..];
    var previousEnd := first;
    for i := 0 to patches.Length
      invariant previousEnd == if i == 0 then first else was[i - 1].endIndex
      invariant forall j | i <= j < patches.Length :: patches[j] == was[j]
      invariant forall j | 0 <= j < i ::
                  patches[j] == was[j].(startIndex := if j == 0 then first else was[j - 1].endIndex)
    {
      patches[i] := patches[i].(startIndex := previousEnd);
      previousEnd := patches[i].endIndex;
    }
    forall i | 0 <= i < |was|
      ensures patches[i] == Populated(was, first)[i]
    {
      PopulatedAt(was, first, i);
    }
  }

  predicate StartsAfter(patches: seq<QuiltPatch>, first: u16, i: nat)
    requires i < |patches|
  {
    patches[i].startIndex == if i == 0 then first else patches[i - 1].endIndex
  }

  /** Patches that follow each other from `first` on. */
  ghost predicate Contiguous(patches: seq<QuiltPatch>, first: u16) {
    forall i | 0 <= i < |patches| :: StartsAfter(patches, first, i)
  }

  /** What the wire format keeps of the patches: everything but the start indices. */
  function OnWire(patches: seq<QuiltPatch>): (w: seq<QuiltPatch>)
    ensures |w| == |patches|
    ensures forall i | 0 <= i < |w| :: w[i] == patches[i].(startIndex := 0)
  {
    if patches == [] then [] else [patches[0].(startIndex := 0)] + OnWire(patches[1..])
  }

  /** Populating what was read back restores exactly the contiguous patch lists. */
  lemma PopulateRestores(patches: seq<QuiltPatch>, first: u16)
    ensures Populated(OnWire(patches), first) == patches <==> Contiguous(patches, first)
  {
    var restored := Populated(OnWire(patches), first);
    forall i | 0 <= i < |patches|
      ensures restored[i] == patches[i] <==> StartsAfter(patches, first, i)
    {
      PopulatedAt(OnWire(patches), first, i);
    }
  }

  // ----- the layout -----

  function AllSlivers(patches: seq<QuiltPatch>): seq<nat> {
    if patches == [] then [] else SliverIndices(patches[0]) + AllSlivers(patches[1..])
  }

  function LastEnd(patches: seq<QuiltPatch>, first: u16): u16 {
    if patches == [] then first else patches[|patches| - 1].endIndex
  }

  /** End indices do not decrease, from `first` on. */
  ghost predicate SortedEnds(patches: seq<QuiltPatch>, first: u16) {
    patches == [] || (first <= patches[0].endIndex && SortedEnds(patches[1..], patches[0].endIndex))
  }

  lemma IndicesJoin(a: nat, b: nat, c: nat)
    requires a <= b <= c
    ensures Indices(a, b) + Indices(b, c) == Indices(a, c)
  {
  }

  /** Sorted end indices: the patches' slivers, in order, are all indices from `first` to the last end. */
  lemma {:induction false} SortedTiles(patches: seq<QuiltPatch>, first: u16)
    requires SortedEnds(patches, first)
    ensures first <= LastEnd(patches, first)
    ensures AllSlivers(Populated(patches, first)) == Indices(first, LastEnd(patches, first))
  {
    if patches != [] {
      var end := patches[0].endIndex;
      var rest := patches[1..];
      SortedTiles(rest, end);
      assert Populated(patches, first)[1..] == Populated(rest, end);
      assert LastEnd(patches, first) == LastEnd(rest, end);
      IndicesJoin(first, end, LastEnd(rest, end));
    }
  }

  /** The patches together hold at least as many slivers as the end moves, and no more only if sorted. */
  lemma {:induction false} SliverCount(patches: seq<QuiltPatch>, first: u16)
    ensures |AllSlivers(Populated(patches, first))| >= LastEnd(patches, first) - first
    ensures |AllSlivers(Populated(patches, first))| == LastEnd(patches, first) - first <==> SortedEnds(patches, first)
  {
    if patches != [] {
      var end := patches[0].endIndex;
      SliverCount(patches[1..], end);
      assert Populated(patches, first)[1..] == Populated(patches[1..], end);
      assert LastEnd(patches, first) == LastEnd(patches[1..], end);
    }
  }

  /** End indices do not increase, from `first` on: no patch has a sliver. */
  ghost predicate FallingEnds(patches: seq<QuiltPatch>, first: u16) {
    patches == [] || (patches[0].endIndex <= first && FallingEnds(patches[1..], patches[0].endIndex))
  }

  lemma {:induction false} NoSlivers(patches: seq<QuiltPatch>, first: u16)
    ensures AllSlivers(Populated(patches, first)) == [] <==> FallingEnds(patches, first)
    ensures FallingEnds(patches, first) ==> LastEnd(patches, first) <= first
  {
    if patches != [] {
      var end := patches[0].endIndex;
      NoSlivers(patches[1..], end);
      assert Populated(patches, first)[1..] == Populated(patches[1..], end);
      assert LastEnd(patches, first) == LastEnd(patches[1..], end);
    }
  }

  /** The patches' slivers, in order, are all indices from `first` to the last end exactly when the end
      indices are sorted, or fall throughout and there are no slivers at all. */
  lemma TilesExactly(patches: seq<QuiltPatch>, first: u16)
    ensures AllSlivers(Populated(patches, first)) == Indices(first, LastEnd(patches, first))
            <==> SortedEnds(patches, first) || FallingEnds(patches, first)
  {
    SliverCount(patches, first);
    NoSlivers(patches, first);
    if SortedEnds(patches, first) {
      SortedTiles(patches, first);
    }
  }

  lemma {:induction false} SortedPair(patches: seq<QuiltPatch>, first: u16, i: nat, j: nat)
    requires SortedEnds(patches, first) && i <= j < |patches|
    ensures first <= patches[i].endIndex <= patches[j].endIndex
  {
    if i > 0 {
      SortedPair(patches[1..], patches[0].endIndex, i - 1, j - 1);
    } else if j > 0 {
      SortedPair(patches[1..], patches[0].endIndex, 0, j - 1);
    }
  }

  /** With sorted end indices two patches never share a sliver. */
  lemma PatchesDisjoint(patches: seq<QuiltPatch>, first: u16, i: nat, j: nat, sliver: nat)
    requires SortedEnds(patches, first) && i < j < |patches|
    ensures !(sliver in SliverIndices(Populated(patches, first)[i])
              && sliver in SliverIndices(Populated(patches, first)[j]))
  {
    PopulatedAt(patches, first, i);
    PopulatedAt(patches, first, j);
    SortedPair(patches, first, i, j - 1);
  }

  // ----- patch IDs -----

  datatype PatchId = PatchId(startIndex: u16, endIndex: u16)

  datatype PatchIdError = WrongLength | VersionMismatch(found: byte)

  const VERSION_BYTE: byte := 1

  function ToBytes(id: PatchId): bytes {
    [VERSION_BYTE] + ToLe(id.startIndex, 2) + ToLe(id.endIndex, 2)
  }

  function FromBytes(s: bytes): Result<PatchId, PatchIdError> {
    if |s| != 5 then Err(WrongLength)
    else if s[0] != VERSION_BYTE then Err(VersionMismatch(s[0]))
    else
      TwoBytes(s[1..3]);
      TwoBytes(s[3..5]);
      Ok(PatchId(LeValue(s[1..3]), LeValue(s[3..5])))
  }

  lemma TwoBytes(s: bytes)
    requires |s| == 2
    ensures LeValue(s) < 0x1_0000
  {
    LeValueRoundTrip(s);
    assert Pow256(2) == 0x1_0000;
  }

  /** The version byte, then start and end index, low byte first; decoding gives the ID back. */
  lemma PatchIdRoundTrip(id: PatchId)
    ensures ToBytes(id)
            == [1, id.startIndex % 256, id.startIndex / 256, id.endIndex % 256, id.endIndex / 256]
    ensures FromBytes(ToBytes(id)) == Ok(id)
  {
    var s := ToBytes(id);
    assert s[1..3] == ToLe(id.startIndex, 2) && s[3..5] == ToLe(id.endIndex, 2);
    assert Pow256(2) == 0x1_0000;
    LeRoundTrip(id.startIndex, 2);
    LeRoundTrip(id.endIndex, 2);
  }

  /** Accepted are exactly the encodings of patch IDs. */
  lemma AcceptedBytesAreEncodings(s: bytes)
    ensures FromBytes(s).Ok? <==> |s| == 5 && s[0] == 1
    ensures |s| != 5 ==> FromBytes(s) == Err(WrongLength)
    ensures |s| == 5 && s[0] != 1 ==> FromBytes(s) == Err(VersionMismatch(s[0]))
    ensures FromBytes(s).Ok? ==> ToBytes(FromBytes(s).value) == s
  {
    if FromBytes(s).Ok? {
      LeValueRoundTrip(s[1..3]);
      LeValueRoundTrip(s[3..5]);
      assert s == [s[0]] + s[1..3] + s[3..5];
    }
  }
}
