/** Byzantine thresholds over shards, and what quorums built from them guarantee. */
module Bft {
  import opened ByteStrings

  /** A number of shards: a non-zero 16-bit integer. */
  type ShardCount = n: int | 1 <= n < 0x1_0000 witness 1

  function MaxNFaulty(n: ShardCount): nat {
    (n - 1) / 3
  }

  function MinNCorrect(n: ShardCount): nat {
    n - MaxNFaulty(n)
  }

  predicate IsQuorum(n: ShardCount, num: nat) {
    num > 2 * MaxNFaulty(n)
  }

  predicate IsAboveValidity(n: ShardCount, num: nat) {
    num > MaxNFaulty(n)
  }

  /** The number of faults tolerated is the largest one below a third. */
  lemma FaultyIsLargestBelowThird(n: ShardCount, f: nat)
    ensures 3 * f < n <==> f <= MaxNFaulty(n)
  {
  }

  function Interval(a: nat, b: nat): (s: set<nat>)
    ensures a <= b ==> |s| == b - a
    ensures a > b ==> s == {}
    ensures forall i: nat :: i in s <==> a <= i < b
  {
    if a >= b then {} else
      var rest := Interval(a, b - 1);
      assert b - 1 !in rest;
      rest + {b - 1}
  }

  function Shards(n: nat): set<nat> {
    Interval(0, n)
  }

  lemma Overlap(n: nat, a: set<nat>, b: set<nat>)
    requires a <= Shards(n) && b <= Shards(n)
    ensures |a * b| >= |a| + |b| - n
  {
    SubsetSize(a + b, Shards(n));
  }

  /** Any two sets of at least `MinNCorrect` shards share a shard outside every set of tolerated
      faults. */
  lemma CorrectSetsIntersect(n: ShardCount, a: set<nat>, b: set<nat>, faulty: set<nat>)
    requires a <= Shards(n) && b <= Shards(n)
    requires |a| >= MinNCorrect(n) && |b| >= MinNCorrect(n) && |faulty| <= MaxNFaulty(n)
    ensures a * b - faulty != {}
  {
    Overlap(n, a, b);
    OutsideFaulty(a * b, faulty);
  }

  lemma OutsideFaulty(a: set<nat>, faulty: set<nat>)
    requires |a| > |faulty|
    ensures a - faulty != {}
  {
    SubsetSize(a * faulty, faulty);
    assert a == a * faulty + (a - faulty);
  }

  /** With at most `MaxNFaulty` faults the remaining shards reach that number and a quorum, and every set
      above the validity threshold has a correct member. */
  lemma CorrectShardsSuffice(n: ShardCount, faulty: set<nat>, a: set<nat>)
    requires faulty <= Shards(n) && |faulty| <= MaxNFaulty(n) && IsAboveValidity(n, |a|)
    ensures |Shards(n) - faulty| >= MinNCorrect(n) && IsQuorum(n, |Shards(n) - faulty|)
    ensures a - faulty != {}
  {
    assert Shards(n) == faulty + (Shards(n) - faulty);
    OutsideFaulty(a, faulty);
  }

  /** Of three shards, two quorums can be disjoint. */
  lemma DisjointQuorums()
    ensures {0} <= Shards(3) && {1} <= Shards(3)
    ensures IsQuorum(3, |{0}|) && IsQuorum(3, |{1}|) && {0} * {1} == {}
  {
  }

  /** All pairs of quorums share more shards than may be faulty. */
  ghost predicate QuorumsIntersect(n: ShardCount) {
    forall a: set<nat>, b: set<nat> | a <= Shards(n) && b <= Shards(n) ::
      IsQuorum(n, |a|) && IsQuorum(n, |b|) ==> IsAboveValidity(n, |a * b|)
  }

  /** Quorums of `2f + 1` shards have that property exactly when `n == 3f + 1`. */
  lemma QuorumsIntersectExactly(n: ShardCount)
    ensures QuorumsIntersect(n) <==> n == 3 * MaxNFaulty(n) + 1
  {
    var f := MaxNFaulty(n);
    if n == 3 * f + 1 {
      forall a: set<nat>, b: set<nat> | a <= Shards(n) && b <= Shards(n)
        ensures IsQuorum(n, |a|) && IsQuorum(n, |b|) ==> IsAboveValidity(n, |a * b|)
      {
        Overlap(n, a, b);
      }
    } else {
      var a, b := Interval(0, 2 * f + 1), Interval(n - 2 * f - 1, n);
      assert a * b == Interval(n - 2 * f - 1, 2 * f + 1);
      assert a <= Shards(n) && b <= Shards(n);
      assert IsQuorum(n, |a|) && IsQuorum(n, |b|) && !IsAboveValidity(n, |a * b|);
    }
  }
}
