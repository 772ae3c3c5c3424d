/** The async task sorter as a whole: enqueuing, pulling and background fetches interleaved in any
    order, over the persistent store.

    The source releases its lock between some of its steps. The following are therefore guards of
    the step relation: storing and pushing a task is one step, capturing the bounds of a fetch and
    launching it is one step, one fetch is in flight at a time, a new ID exceeds all stored IDs,
    and the initial fetch is requested before anything was loaded. */
module SorterRuns {
  import opened ByteStrings
  import opened TaskBuffer

  /** A fetch in flight: the arguments of `read_tasks` and, once the read has happened, its result.
      `front` and `dropped` are history: how many stored tasks preceded the latest queue at launch,
      and whether an overflow has dropped tasks since. */
  datatype Fetch = Fetch(
    from: Option<TaskId>,
    to: Option<TaskId>,
    limit: nat,
    front: int,
    dropped: bool,
    loaded: Option<seq<TaskId>>)

  /** `stored` holds every ID ever stored, in order; `removed` those the executor has deleted;
      `delivered` what `pull` has returned so far. */
  datatype Sorter = Sorter(
    buffer: Buffer,
    stored: seq<TaskId>,
    removed: set<TaskId>,
    fetch: Option<Fetch>,
    delivered: seq<TaskId>)

  datatype Action =
    | Init
    | Enqueue(task: TaskId)
    | Pull
    | Read
    | ReadFails
    | Complete
    | Execute(task: TaskId)

  function Start(stored: seq<TaskId>): Sorter {
    Sorter(EMPTY_BUFFER, stored, {}, None, [])
  }

  // ----- the store -----

  predicate Selected(removed: set<TaskId>, from: Option<TaskId>, to: Option<TaskId>, x: TaskId) {
    x !in removed && (from.Some? ==> from.value < x) && (to.Some? ==> x < to.value)
  }

  function Select(stored: seq<TaskId>, removed: set<TaskId>, from: Option<TaskId>, to: Option<TaskId>): seq<TaskId> {
    if stored == [] then []
    else (if Selected(removed, from, to, stored[0]) then [stored[0]] else [])
         + Select(stored[1..], removed, from, to)
  }

  /** The contract of `read_tasks`: ordered, exclusive on both ends, cut to the limit. */
  function ReadTasks(s: Sorter, f: Fetch): seq<TaskId> {
    var found := Select(s.stored, s.removed, f.from, f.to);
    found[..Min(f.limit, |found|)]
  }

  // ----- steps -----

  /** How many stored tasks precede the latest queue. */
  function Front(s: Sorter): int {
    |s.stored| - |s.buffer.latest|
  }

  /** `trigger_fetch`. */
  function Triggered(config: Config, s: Sorter, from: Option<TaskId>, to: Option<TaskId>): Sorter {
    if from.Some? && to.Some? && from.value >= to.value then s
    else if s.fetch.Some? then s
    else if |s.buffer.catchup| >= config.catchupMax then s
    else s.(fetch := Some(Fetch(from, to, config.catchupMax - |s.buffer.catchup|, Front(s), false, None)))
  }

  function FrontId(b: Buffer): Option<TaskId> {
    if b.latest == [] then None else Some(b.latest[0])
  }

  /** How many tasks an enqueue takes out of a full latest queue. */
  function OverflowCount(config: Config, b: Buffer): nat {
    if |b.latest| >= config.latestMax then Min(config.dropBatch, |b.latest|) else 0
  }

  /** A fetch is in flight whose read has happened. */
  predicate HasLoaded(s: Sorter) {
    s.fetch.Some? && s.fetch.value.loaded.Some?
  }

  predicate Enabled(config: Config, s: Sorter, a: Action) {
    match a
    case Init => s.buffer.state == CatchingUp && s.buffer.watermark == None
    case Enqueue(t) => forall x | x in s.stored :: x < t
    case Pull => true
    case Read => s.fetch.Some? && s.fetch.value.loaded == None
    case ReadFails => s.fetch.Some? && s.fetch.value.loaded == None
    case Complete => HasLoaded(s)
    case Execute(t) => t in s.delivered
  }

  function Apply(config: Config, s: Sorter, a: Action): Sorter
    requires Enabled(config, s, a)
  {
    match a
    case Init => Triggered(config, s, None, None)
    case Enqueue(t) => Enqueued(config, s, t)
    case Pull => PullApplied(config, s)
    case Read => s.(fetch := Some(s.fetch.value.(loaded := Some(ReadTasks(s, s.fetch.value)))))
    case ReadFails => s.(fetch := None)
    case Complete => s.(buffer := Loaded(s.buffer, s.fetch.value.loaded.value), fetch := None)
    case Execute(t) => s.(removed := s.removed + {t})
  }

  function Enqueued(config: Config, s: Sorter, t: TaskId): Sorter {
    var drops := OverflowCount(config, s.buffer) > 0;
    s.(buffer := Pushed(s.buffer, config, t),
       stored := s.stored + [t],
       fetch := if s.fetch.Some? && drops then Some(s.fetch.value.(dropped := true)) else s.fetch)
  }

  /** The pulling half of a pull, before a fetch is triggered. */
  function Popped(config: Config, s: Sorter): Sorter {
    var p := Pulled(s.buffer, config);
    s.(buffer := p.rest, delivered := s.delivered + (if p.task.Some? then [p.task.value] else []))
  }

  function PullApplied(config: Config, s: Sorter): Sorter {
    var p := Pulled(s.buffer, config);
    if p.wantsFetch then Triggered(config, Popped(config, s), p.rest.watermark, FrontId(p.rest))
    else Popped(config, s)
  }

  /** The state after a sequence of actions, if each was enabled when taken. */
  function Run(config: Config, s: Sorter, actions: seq<Action>): Option<Sorter> {
    if actions == [] then Some(s)
    else
      var before := Run(config, s, actions[..|actions| - 1]);
      var a := actions[|actions| - 1];
      if before.Some? && Enabled(config, before.value, a) then Some(Apply(config, before.value, a)) else None
  }

  // ----- the invariant -----

  predicate Increasing(s: seq<TaskId>) {
    forall i, j | 0 <= i < j < |s| :: s[i] < s[j]
  }

  predicate AllIn(xs: seq<TaskId>, ys: seq<TaskId>) {
    forall x | x in xs :: x in ys
  }

  lemma AllInLongerPrefix(xs: seq<TaskId>, ys: seq<TaskId>, m: nat, n: nat)
    requires m <= n <= |ys| && AllIn(xs, ys[..m])
    ensures AllIn(xs, ys[..n])
  {
    assert ys[..m] <= ys[..n];
  }

  /** Delivered and queued for catching up, in order. */
  function Line(s: Sorter): seq<TaskId> {
    s.delivered + s.buffer.catchup
  }

  /** How many stored IDs are at or below the watermark. */
  function AtMost(stored: seq<TaskId>, watermark: Option<TaskId>): (n: nat)
    ensures n <= |stored|
  {
    if watermark == None then 0 else PrefixBelow(stored, watermark.value + 1)
  }

  function Caught(s: Sorter): nat {
    AtMost(s.stored, s.buffer.watermark)
  }

  ghost predicate QueuesInv(config: Config, s: Sorter) {
    && Increasing(s.stored)
    && |s.buffer.latest| <= |s.stored|
    && s.buffer.latest == s.stored[Front(s)..]
    && |s.buffer.catchup| <= config.catchupMax
    && (config.catchupMax == 0 ==> s.buffer.state == CatchingUp)
    && Increasing(Line(s))
    && AllIn(Line(s), s.stored[..Front(s)])
  }

  ghost predicate WatermarkInv(s: Sorter)
    requires 0 <= Front(s)
  {
    && WatermarkIsLast(s.buffer, s.stored, Front(s))
    && (s.buffer.state == CatchingUp ==> AllIn(Line(s), s.stored[..Caught(s)]))
    && forall x | x in s.removed :: x in s.delivered
  }

  ghost predicate FetchInv(config: Config, s: Sorter)
    requires 0 <= Front(s)
  {
    s.fetch.Some? ==>
      var f := s.fetch.value;
      && s.buffer.state == CatchingUp
      && f.from == s.buffer.watermark
      && 1 <= f.limit && |s.buffer.catchup| + f.limit <= config.catchupMax
      && Caught(s) <= f.front <= Front(s)
      && (f.dropped <==> f.front < Front(s))
      && (f.to.Some? ==> f.front < |s.stored| && f.to.value == s.stored[f.front])
      && (f.loaded.Some? ==>
            && |f.loaded.value| <= f.limit
            && Caught(s) + |f.loaded.value| <= |s.stored|
            && f.loaded.value == s.stored[Caught(s)..Caught(s) + |f.loaded.value|]
            && (f.loaded.value == [] ==> f.front == Caught(s)))
  }

  ghost predicate Inv(config: Config, s: Sorter) {
    QueuesInv(config, s) && WatermarkInv(s) && FetchInv(config, s)
  }

  // ----- the store and the watermark -----

  lemma {:induction false} SelectConcat(a: seq<TaskId>, b: seq<TaskId>, removed: set<TaskId>, from: Option<TaskId>,
                                        to: Option<TaskId>)
    ensures Select(a + b, removed, from, to) == Select(a, removed, from, to) + Select(b, removed, from, to)
  {
    if a == [] {
      assert a + b == b;
    } else {
      assert (a + b)[1..] == a[1..] + b;
      SelectConcat(a[1..], b, removed, from, to);
      ConcatAssociative(if Selected(removed, from, to, a[0]) then [a[0]] else [],
                        Select(a[1..], removed, from, to), Select(b, removed, from, to));
    }
  }

  lemma {:induction false} SelectAll(a: seq<TaskId>, removed: set<TaskId>, from: Option<TaskId>, to: Option<TaskId>)
    requires forall x | x in a :: Selected(removed, from, to, x)
    ensures Select(a, removed, from, to) == a
  {
    if a != [] {
      assert Selected(removed, from, to, a[0]);
      SelectAll(a[1..], removed, from, to);
    }
  }

  lemma {:induction false} SelectNone(a: seq<TaskId>, removed: set<TaskId>, from: Option<TaskId>, to: Option<TaskId>)
    requires forall x | x in a :: !Selected(removed, from, to, x)
    ensures Select(a, removed, from, to) == []
  {
    if a != [] {
      assert !Selected(removed, from, to, a[0]);
      SelectNone(a[1..], removed, from, to);
    }
  }

  lemma AtMostIs(stored: seq<TaskId>, w: TaskId, n: nat)
    requires Increasing(stored) && 0 < n <= |stored| && stored[n - 1] == w
    ensures AtMost(stored, Some(w)) == n
  {
    PrefixBelowUnique(stored, w + 1, n);
  }

  lemma AtMostAppend(stored: seq<TaskId>, t: TaskId, watermark: Option<TaskId>)
    requires watermark.Some? ==> watermark.value < t
    ensures AtMost(stored + [t], watermark) == AtMost(stored, watermark)
  {
    if watermark.Some? {
      PrefixBelowUnique(stored + [t], watermark.value + 1, AtMost(stored, watermark));
    }
  }

  lemma CaughtBeforeFront(config: Config, s: Sorter)
    requires QueuesInv(config, s) && WatermarkInv(s)
    ensures Caught(s) <= Front(s)
  {
    if s.buffer.watermark.Some? {
      var i :| 0 <= i < Front(s) && s.stored[i] == s.buffer.watermark.value;
      AtMostIs(s.stored, s.stored[i], i + 1);
    }
  }

  lemma SelectSlice(stored: seq<TaskId>, lo: nat, end: nat, removed: set<TaskId>, from: Option<TaskId>,
                    to: Option<TaskId>)
    requires lo <= end <= |stored|
    requires forall i | 0 <= i < |stored| :: Selected(removed, from, to, stored[i]) <==> lo <= i < end
    ensures Select(stored, removed, from, to) == stored[lo..end]
  {
    var head, mid, tail := stored[..lo], stored[lo..end], stored[end..];
    assert stored == head + (mid + tail);
    SelectConcat(head, mid + tail, removed, from, to);
    SelectConcat(mid, tail, removed, from, to);
    SelectNone(head, removed, from, to);
    SelectAll(mid, removed, from, to);
    SelectNone(tail, removed, from, to);
    assert [] + (mid + []) == mid;
  }

  lemma NotRemoved(s: Sorter, i: nat)
    requires 0 <= Front(s) && WatermarkInv(s) && s.buffer.state == CatchingUp && Increasing(s.stored)
    requires Caught(s) <= i < |s.stored|
    ensures s.stored[i] !in s.removed
  {
    var x := s.stored[i];
    assert x !in s.stored[..Caught(s)];
    assert x in s.delivered ==> x in Line(s);
  }

  /** Nothing above the watermark has been removed, so a fetch reads a contiguous stretch of what
      was stored, starting right above the watermark. */
  lemma ReadIsSlice(config: Config, s: Sorter, f: Fetch, end: nat)
    requires Inv(config, s) && s.fetch == Some(f)
    requires end == if f.to.Some? then f.front else |s.stored|
    ensures Caught(s) <= end <= |s.stored|
    ensures Select(s.stored, s.removed, f.from, f.to) == s.stored[Caught(s)..end]
  {
    forall i | 0 <= i < |s.stored|
      ensures Selected(s.removed, f.from, f.to, s.stored[i]) <==> Caught(s) <= i < end
    {
      if Caught(s) <= i {
        NotRemoved(s, i);
        assert f.from.Some? ==> f.from.value < s.stored[Caught(s)] <= s.stored[i];
      }
    }
    SelectSlice(s.stored, Caught(s), end, s.removed, f.from, f.to);
  }

  // ----- every step keeps the invariant -----

  /** An overflow that takes the `n` oldest tasks out of the latest queue. */
  function Overflown(config: Config, s: Sorter, n: nat): Sorter
    requires n <= |s.buffer.latest|
  {
    s.(buffer := DropOldest(s.buffer, n, config.catchupMax),
       fetch := if s.fetch.Some? && n > 0 then Some(s.fetch.value.(dropped := true)) else s.fetch)
  }

  function Appended(s: Sorter, t: TaskId): Sorter {
    s.(buffer := s.buffer.(latest := s.buffer.latest + [t]), stored := s.stored + [t])
  }

  lemma EnqueueIsOverflowThenAppend(config: Config, s: Sorter, t: TaskId)
    requires QueuesInv(config, s) && forall x | x in s.stored :: x < t
    ensures Enqueued(config, s, t) == Appended(Overflown(config, s, OverflowCount(config, s.buffer)), t)
  {
    var b := s.buffer;
    if b.latest != [] {
      assert Last(b.latest) == s.stored[|s.stored| - 1];
      assert Last(b.latest) in s.stored;
    }
    DropNone(b, config.catchupMax);
  }

  lemma DropNone(b: Buffer, catchupMax: nat)
    ensures DropOldest(b, 0, catchupMax) == b
  {
    assert b.catchup + b.latest[..0] == b.catchup && b.latest[0..] == b.latest;
  }

  lemma IncreasingAppend(stored: seq<TaskId>, t: TaskId)
    requires Increasing(stored) && forall x | x in stored :: x < t
    ensures Increasing(stored + [t])
  {
    forall i | 0 <= i < |stored|
      ensures stored[i] < t
    {
      assert stored[i] in stored;
    }
  }

  lemma AppendKeepsQueues(config: Config, s: Sorter, t: TaskId)
    requires Inv(config, s) && forall x | x in s.stored :: x < t
    ensures Front(Appended(s, t)) == Front(s) && Caught(Appended(s, t)) == Caught(s)
    ensures (s.stored + [t])[..Front(s)] == s.stored[..Front(s)]
    ensures QueuesInv(config, Appended(s, t))
  {
    assert (s.stored + [t])[Front(s)..] == s.stored[Front(s)..] + [t];
    if s.buffer.watermark.Some? {
      assert s.buffer.watermark.value in s.stored[..Front(s)];
      assert s.buffer.watermark.value in s.stored;
    }
    AtMostAppend(s.stored, t, s.buffer.watermark);
    IncreasingAppend(s.stored, t);
  }

  lemma AppendKeepsInv(config: Config, s: Sorter, t: TaskId)
    requires Inv(config, s) && forall x | x in s.stored :: x < t
    ensures Inv(config, Appended(s, t))
  {
    AppendKeepsQueues(config, s, t);
    var s' := Appended(s, t);
    assert s'.stored[..Caught(s)] == s.stored[..Caught(s)];
    if s.fetch.Some? && s.fetch.value.loaded.Some? {
      var n := |s.fetch.value.loaded.value|;
      assert s'.stored[Caught(s)..Caught(s) + n] == s.stored[Caught(s)..Caught(s) + n];
    }
  }

  lemma OverflowKeepsQueues(config: Config, s: Sorter, n: nat)
    requires QueuesInv(config, s) && n <= |s.buffer.latest|
    ensures var s' := Overflown(config, s, n);
            var moved := Movable(s.buffer, n, config.catchupMax);
            && QueuesInv(config, s') && Front(s') == Front(s) + n
            && Line(s') == Line(s) + s.stored[Front(s)..Front(s) + moved]
  {
    var s' := Overflown(config, s, n);
    var moved := Movable(s.buffer, n, config.catchupMax);
    var front := Front(s);
    assert s.buffer.latest[..moved] == s.stored[front..front + moved];
    assert Line(s') == Line(s) + s.stored[front..front + moved];
    assert s.buffer.latest[n..] == s.stored[front + n..];
    IncreasingConcat(Line(s), s.stored, front, moved);
    AllInLongerPrefix(Line(s'), s.stored, front + moved, front + n);
  }

  /** Elements of an increasing sequence that all lie in a prefix stay increasing when the next
      stretch is appended. */
  lemma IncreasingConcat(line: seq<TaskId>, stored: seq<TaskId>, front: nat, n: nat)
    requires Increasing(line) && Increasing(stored) && front + n <= |stored|
    requires AllIn(line, stored[..front])
    ensures Increasing(line + stored[front..front + n])
    ensures AllIn(line + stored[front..front + n], stored[..front + n])
  {
    var r := line + stored[front..front + n];
    PrefixExtends(stored, front, front + n);
    forall i, j | 0 <= i < j < |r|
      ensures r[i] < r[j]
    {
      if i < |line| && j >= |line| {
        assert line[i] in line;
        assert r[j] == stored[front + (j - |line|)];
      }
    }
  }

  /** A line that ends at the watermark holds nothing above it. */
  lemma LineEndsAtWatermark(stored: seq<TaskId>, line: seq<TaskId>, front: nat)
    requires Increasing(stored) && Increasing(line) && line != [] && front <= |stored|
    requires AllIn(line, stored[..front])
    ensures AllIn(line, stored[..AtMost(stored, Some(Last(line)))])
  {
    var w := Last(line);
    var n := AtMost(stored, Some(w));
    forall x | x in line
      ensures x in stored[..n]
    {
      var j :| 0 <= j < |line| && line[j] == x;
      assert x <= w;
      var i :| 0 <= i < front && stored[i] == x;
      assert i < n;
    }
  }

  lemma OverflowWatermark(b: Buffer, n: nat, catchupMax: nat, stored: seq<TaskId>, front: nat)
    requires n <= |b.latest| && front + |b.latest| == |stored| && b.latest == stored[front..]
    requires WatermarkIsLast(b, stored, front)
    ensures WatermarkIsLast(DropOldest(b, n, catchupMax), stored, front + n)
  {
    var moved := Movable(b, n, catchupMax);
    assert stored[..front] <= stored[..front + n];
    if moved == 0 {
      assert b.catchup + b.latest[..0] == b.catchup;
    } else {
      assert b.latest[moved - 1] == stored[..front + n][front + moved - 1];
    }
  }

  lemma OverflowKeepsWatermark(config: Config, s: Sorter, n: nat)
    requires QueuesInv(config, s) && WatermarkInv(s) && n <= |s.buffer.latest|
    ensures var s' := Overflown(config, s, n); 0 <= Front(s') && WatermarkInv(s')
  {
    OverflowKeepsQueues(config, s, n);
    OverflowWatermark(s.buffer, n, config.catchupMax, s.stored, Front(s));
    var s' := Overflown(config, s, n);
    if s.buffer.state == CatchingUp {
      assert s.buffer.catchup + s.buffer.latest[..0] == s.buffer.catchup;
    } else if s'.buffer.state == CatchingUp {
      assert s'.buffer.catchup != [];
      LastOfConcat(s.delivered, s'.buffer.catchup);
      LineEndsAtWatermark(s.stored, Line(s'), Front(s'));
    }
  }

  lemma OverflowKeepsInv(config: Config, s: Sorter, n: nat)
    requires Inv(config, s) && n <= |s.buffer.latest|
    ensures Inv(config, Overflown(config, s, n))
  {
    OverflowKeepsQueues(config, s, n);
    OverflowKeepsWatermark(config, s, n);
    if s.fetch.Some? {
      assert s.buffer.catchup + s.buffer.latest[..0] == s.buffer.catchup;
    }
  }

  lemma EnqueueKeepsInv(config: Config, s: Sorter, t: TaskId)
    requires Inv(config, s) && forall x | x in s.stored :: x < t
    ensures Inv(config, Enqueued(config, s, t))
  {
    EnqueueIsOverflowThenAppend(config, s, t);
    var n := OverflowCount(config, s.buffer);
    OverflowKeepsInv(config, s, n);
    AppendKeepsInv(config, Overflown(config, s, n), t);
  }

  lemma PopCatchup(config: Config, s: Sorter)
    requires Inv(config, s) && s.buffer.catchup != []
    ensures Inv(config, Popped(config, s))
    ensures Line(Popped(config, s)) == Line(s) && Front(Popped(config, s)) == Front(s)
  {
    var s', c := Popped(config, s), s.buffer.catchup;
    assert c == [c[0]] + c[1..];
    ConcatAssociative(s.delivered, [c[0]], c[1..]);
    assert Line(s') == Line(s);
    assert c[1..] != [] ==> Last(c[1..]) == Last(c);
    assert forall x | x in s.delivered :: x in s'.delivered;
  }

  lemma PopLatest(config: Config, s: Sorter)
    requires Inv(config, s) && s.buffer.catchup == [] && s.buffer.state == UpToDate && s.buffer.latest != []
    ensures Inv(config, Popped(config, s))
    ensures Line(Popped(config, s)) == Line(s) + s.stored[Front(s)..Front(s) + 1]
    ensures Front(Popped(config, s)) == Front(s) + 1
  {
    var s', front := Popped(config, s), Front(s);
    assert s.stored[front..front + 1] == [s.buffer.latest[0]];
    assert Line(s') == Line(s) + s.stored[front..front + 1];
    assert s.buffer.latest[1..] == s.stored[front + 1..];
    IncreasingConcat(Line(s), s.stored, front, 1);
    PrefixExtends(s.stored, front, front + 1);
  }

  lemma PopKeepsInv(config: Config, s: Sorter)
    requires Inv(config, s)
    ensures Inv(config, Popped(config, s)) && Caught(Popped(config, s)) == Caught(s)
  {
    if s.buffer.catchup != [] {
      PopCatchup(config, s);
    } else if s.buffer.state == UpToDate && s.buffer.latest != [] {
      PopLatest(config, s);
    } else {
      assert Popped(config, s) == s;
    }
  }

  lemma TriggerKeepsInv(config: Config, s: Sorter, from: Option<TaskId>, to: Option<TaskId>)
    requires Inv(config, s) && s.buffer.state == CatchingUp
    requires from == s.buffer.watermark && (to == None || to == FrontId(s.buffer))
    ensures Inv(config, Triggered(config, s, from, to))
  {
    CaughtBeforeFront(config, s);
  }

  lemma PullKeepsInv(config: Config, s: Sorter)
    requires Inv(config, s)
    ensures Inv(config, PullApplied(config, s))
  {
    PopKeepsInv(config, s);
    var p := Pulled(s.buffer, config);
    if p.wantsFetch {
      TriggerKeepsInv(config, Popped(config, s), p.rest.watermark, FrontId(p.rest));
    }
  }

  /** What a read returns: at least one ID unless the stretch it covers is empty. */
  lemma ReadResult(config: Config, s: Sorter, f: Fetch)
    requires Inv(config, s) && s.fetch == Some(f)
    ensures var r := ReadTasks(s, f);
            && |r| <= f.limit && Caught(s) + |r| <= |s.stored|
            && r == s.stored[Caught(s)..Caught(s) + |r|]
            && (r == [] ==> f.front == Caught(s))
  {
    var lo := Caught(s);
    var end := if f.to.Some? then f.front else |s.stored|;
    ReadIsSlice(config, s, f, end);
    CaughtBeforeFront(config, s);
    TakeOfSlice(s.stored, lo, end, Min(f.limit, end - lo));
  }

  lemma TakeOfSlice(stored: seq<TaskId>, lo: nat, end: nat, n: nat)
    requires lo + n <= end <= |stored|
    ensures stored[lo..end][..n] == stored[lo..lo + n]
  {
  }

  lemma ReadKeepsInv(config: Config, s: Sorter)
    requires Inv(config, s) && Enabled(config, s, Read)
    ensures Inv(config, Apply(config, s, Read))
  {
    ReadResult(config, s, s.fetch.value);
  }

  /** Where the stretch a completing fetch adds to the catchup queue ends. */
  function LoadedUpTo(s: Sorter): int
    requires HasLoaded(s)
  {
    var n := Caught(s) + |s.fetch.value.loaded.value|;
    if n < Front(s) then n else Front(s)
  }

  /** Loading a stretch of the stored IDs that starts above the catchup queue takes what lies
      before the latest queue. */
  lemma LoadSlice(b: Buffer, tasks: seq<TaskId>, stored: seq<TaskId>, lo: nat, front: nat)
    requires Increasing(stored) && tasks != [] && lo + |tasks| <= |stored| && lo <= front <= |stored|
    requires tasks == stored[lo..lo + |tasks|]
    requires b.latest == stored[front..] && (b.catchup != [] ==> Last(b.catchup) < stored[lo])
    ensures WithoutSeen(b, tasks) == tasks
    ensures TakeCount(b, tasks) == Min(|tasks|, front - lo)
  {
    if b.catchup != [] {
      PrefixBelowUnique(tasks, Last(b.catchup) + 1, 0);
    }
    if b.latest != [] {
      assert b.latest[0] == stored[front];
      PrefixBelowUnique(tasks, b.latest[0], Min(|tasks|, front - lo));
    }
  }

  function SliceLoaded(b: Buffer, stored: seq<TaskId>, lo: nat, n: nat, front: nat): Buffer
    requires lo + n <= |stored| && lo <= front <= |stored|
  {
    var end := lo + Min(n, front - lo);
    Buffer(
      b.catchup + stored[lo..end],
      b.latest,
      if end == lo then b.watermark else Some(stored[end - 1]),
      if lo + n > front then UpToDate else b.state)
  }

  lemma LoadSliceResult(b: Buffer, tasks: seq<TaskId>, stored: seq<TaskId>, lo: nat, front: nat)
    requires Increasing(stored) && tasks != [] && lo + |tasks| <= |stored| && lo <= front <= |stored|
    requires tasks == stored[lo..lo + |tasks|]
    requires b.latest == stored[front..] && (b.catchup != [] ==> Last(b.catchup) < stored[lo])
    ensures Loaded(b, tasks) == SliceLoaded(b, stored, lo, |tasks|, front)
  {
    var take := Min(|tasks|, front - lo);
    LoadSlice(b, tasks, stored, lo, front);
    TakenSlice(b, tasks, stored, lo, front, take);
  }

  lemma TakenSlice(b: Buffer, tasks: seq<TaskId>, stored: seq<TaskId>, lo: nat, front: nat, take: nat)
    requires lo + |tasks| <= |stored| && lo <= front <= |stored| && take == Min(|tasks|, front - lo)
    requires tasks == stored[lo..lo + |tasks|]
    ensures Taken(b, tasks, take) == SliceLoaded(b, stored, lo, |tasks|, front)
  {
    TakeOfSlice(stored, lo, lo + |tasks|, take);
    assert take == 0 ==> b.catchup + stored[lo..lo] == b.catchup;
  }

  /** What the invariant says about a fetch whose read has happened. */
  predicate LoadedFacts(s: Sorter)
    requires HasLoaded(s)
  {
    var lo, n := Caught(s), |s.fetch.value.loaded.value|;
    && Increasing(s.stored)
    && lo <= Front(s) <= |s.stored| && lo + n <= |s.stored|
    && s.buffer.latest == s.stored[Front(s)..]
    && s.fetch.value.loaded.value == s.stored[lo..lo + n]
    && s.buffer.state == CatchingUp
    && (n > 0 && s.buffer.catchup != [] ==> Last(s.buffer.catchup) < s.stored[lo])
  }

  lemma InvGivesLoadedFacts(config: Config, s: Sorter)
    requires Inv(config, s) && Enabled(config, s, Complete)
    ensures LoadedFacts(s)
  {
    CaughtBeforeFront(config, s);
  }

  /** The buffer after a fetch completes. */
  function AfterLoading(s: Sorter): Buffer
    requires HasLoaded(s) && LoadedFacts(s)
  {
    var n := |s.fetch.value.loaded.value|;
    if n == 0 then s.buffer.(state := UpToDate) else SliceLoaded(s.buffer, s.stored, Caught(s), n, Front(s))
  }

  lemma CompleteGives(config: Config, s: Sorter)
    requires Enabled(config, s, Complete) && LoadedFacts(s)
    ensures Apply(config, s, Complete) == s.(buffer := AfterLoading(s), fetch := None)
  {
    var tasks := s.fetch.value.loaded.value;
    if tasks != [] {
      LoadSliceResult(s.buffer, tasks, s.stored, Caught(s), Front(s));
    }
  }

  /** A completing fetch extends the line by the stored IDs from the watermark up to `LoadedUpTo`. */
  lemma LoadingExtendsLine(s: Sorter, s': Sorter)
    requires HasLoaded(s) && LoadedFacts(s)
    requires s' == s.(buffer := AfterLoading(s), fetch := None)
    ensures Caught(s) <= LoadedUpTo(s) <= Front(s) == Front(s')
    ensures Line(s') == Line(s) + s.stored[Caught(s)..LoadedUpTo(s)]
    ensures Caught(s') == LoadedUpTo(s)
  {
    var lo, n := Caught(s), |s.fetch.value.loaded.value|;
    if n == 0 {
      assert Line(s) + s.stored[lo..lo] == Line(s);
    } else {
      SliceLoadedLine(s.delivered, s.buffer, s.stored, lo, n, Front(s));
    }
  }

  lemma SliceLoadedLine(delivered: seq<TaskId>, b: Buffer, stored: seq<TaskId>, lo: nat, n: nat, front: nat)
    requires Increasing(stored) && lo + n <= |stored| && lo <= front <= |stored| && lo == AtMost(stored, b.watermark)
    ensures var b', end := SliceLoaded(b, stored, lo, n, front), lo + Min(n, front - lo);
            && delivered + b'.catchup == delivered + b.catchup + stored[lo..end]
            && AtMost(stored, b'.watermark) == end
  {
    var end := lo + Min(n, front - lo);
    ConcatAssociative(delivered, b.catchup, stored[lo..end]);
    if lo < end {
      AtMostIs(stored, stored[end - 1], end);
    }
  }

  lemma LoadingKeepsLine(s: Sorter, s': Sorter)
    requires HasLoaded(s) && LoadedFacts(s)
    requires s' == s.(buffer := AfterLoading(s), fetch := None)
    requires Increasing(Line(s)) && AllIn(Line(s), s.stored[..Caught(s)])
    ensures Increasing(Line(s'))
    ensures 0 <= LoadedUpTo(s) <= Front(s) && AllIn(Line(s'), s.stored[..LoadedUpTo(s)])
  {
    var lo, end := Caught(s), LoadedUpTo(s);
    LoadingExtendsLine(s, s');
    IncreasingConcat(Line(s), s.stored, lo, end - lo);
  }

  lemma LoadingKeepsQueues(config: Config, s: Sorter, s': Sorter)
    requires QueuesInv(config, s) && Enabled(config, s, Complete) && LoadedFacts(s)
    requires |s.buffer.catchup| + |s.fetch.value.loaded.value| <= config.catchupMax && config.catchupMax >= 1
    requires AllIn(Line(s), s.stored[..Caught(s)])
    requires s' == s.(buffer := AfterLoading(s), fetch := None)
    ensures QueuesInv(config, s')
  {
    LoadingKeepsLine(s, s');
    AllInLongerPrefix(Line(s'), s.stored, LoadedUpTo(s), Front(s));
  }

  ghost predicate WatermarkIsLast(b: Buffer, stored: seq<TaskId>, front: nat)
    requires front <= |stored|
  {
    && (b.catchup != [] ==> b.watermark == Some(Last(b.catchup)))
    && (b.watermark.Some? ==> b.watermark.value in stored[..front])
  }

  lemma SliceLoadedWatermark(b: Buffer, stored: seq<TaskId>, lo: nat, n: nat, front: nat)
    requires lo + n <= |stored| && lo <= front <= |stored| && WatermarkIsLast(b, stored, front)
    ensures WatermarkIsLast(SliceLoaded(b, stored, lo, n, front), stored, front)
  {
    var end := lo + Min(n, front - lo);
    if end == lo {
      assert b.catchup + stored[lo..lo] == b.catchup;
    } else {
      assert Last(b.catchup + stored[lo..end]) == stored[end - 1];
      assert stored[..front][end - 1] == stored[end - 1];
    }
  }

  lemma LoadingKeepsWatermark(s: Sorter, s': Sorter)
    requires 0 <= Front(s) && WatermarkInv(s) && HasLoaded(s) && LoadedFacts(s)
    requires Increasing(Line(s)) && s' == s.(buffer := AfterLoading(s), fetch := None)
    ensures 0 <= Front(s') && WatermarkInv(s')
  {
    var n := |s.fetch.value.loaded.value|;
    LoadingExtendsLine(s, s');
    LoadingKeepsLine(s, s');
    if n > 0 {
      SliceLoadedWatermark(s.buffer, s.stored, Caught(s), n, Front(s));
    }
  }

  lemma CompleteKeepsInv(config: Config, s: Sorter)
    requires Inv(config, s) && Enabled(config, s, Complete)
    ensures Inv(config, Apply(config, s, Complete))
  {
    InvGivesLoadedFacts(config, s);
    CompleteGives(config, s);
    var s' := s.(buffer := AfterLoading(s), fetch := None);
    LoadingKeepsQueues(config, s, s');
    LoadingKeepsWatermark(s, s');
  }

  lemma ExecuteKeepsInv(config: Config, s: Sorter, t: TaskId)
    requires Inv(config, s) && Enabled(config, s, Execute(t))
    ensures Inv(config, Apply(config, s, Execute(t)))
  {
  }

  lemma StepKeepsInv(config: Config, s: Sorter, a: Action)
    requires Inv(config, s) && Enabled(config, s, a)
    ensures Inv(config, Apply(config, s, a))
  {
    match a
    case Init => TriggerKeepsInv(config, s, None, None);
    case Enqueue(t) => EnqueueKeepsInv(config, s, t);
    case Pull => PullKeepsInv(config, s);
    case Read => ReadKeepsInv(config, s);
    case ReadFails =>
    case Complete => CompleteKeepsInv(config, s);
    case Execute(t) => ExecuteKeepsInv(config, s, t);
  }

  lemma {:induction false} RunKeepsInv(config: Config, s: Sorter, actions: seq<Action>)
    requires Inv(config, s) && Run(config, s, actions).Some?
    ensures Inv(config, Run(config, s, actions).value)
  {
    if actions != [] {
      var n := |actions| - 1;
      RunKeepsInv(config, s, actions[..n]);
      StepKeepsInv(config, Run(config, s, actions[..n]).value, actions[n]);
    }
  }

  lemma StartInv(config: Config, stored: seq<TaskId>)
    requires Increasing(stored)
    ensures Inv(config, Start(stored))
  {
  }
}
