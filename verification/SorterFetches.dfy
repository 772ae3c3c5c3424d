/** When the async task sorter fetches and how much, what an overflow keeps, and what loading takes in. */
module SorterFetches {
  import opened ByteStrings
  import opened TaskBuffer
  import opened SorterRuns
  import opened SorterGuarantees

  // ----- launching a fetch -----

  /** How many stored tasks lie between the watermark and the latest queue, or the end if that is empty. */
  function Missing(s: Sorter): int {
    (if s.buffer.latest == [] then |s.stored| else Front(s)) - Caught(s)
  }

  /** A pull with no fetch in flight launches one exactly when the sorter is catching up, has room, and at
      most half of the catchup queue is left. */
  lemma PullLaunchesExactly(config: Config, s: Sorter)
    requires Inv(config, s) && s.fetch.None?
    ensures PullApplied(config, s).fetch.Some? <==>
            && s.buffer.state == CatchingUp && config.catchupMax >= 1
            && |PullApplied(config, s).buffer.catchup| <= config.catchupMax / 2
  {
    CaughtBeforeFront(config, s);
    if s.buffer.watermark.Some? && s.buffer.latest != [] {
      var i :| 0 <= i < Front(s) && s.stored[i] == s.buffer.watermark.value;
      assert s.buffer.latest[0] == s.stored[Front(s)];
    }
  }

  /** A request for a fetch launches one exactly when its bounds are not crossed, none is in flight and the
      catchup queue has room; otherwise it does nothing. */
  lemma TriggerExactly(config: Config, s: Sorter, from: Option<TaskId>, to: Option<TaskId>)
    ensures var s' := Triggered(config, s, from, to);
            var crossed := from.Some? && to.Some? && to.value <= from.value;
            && (s' != s <==> !crossed && s.fetch.None? && |s.buffer.catchup| < config.catchupMax)
            && (s' != s ==>
                  && s'.fetch.Some? && s' == s.(fetch := s'.fetch)
                  && s'.fetch.value.from == from && s'.fetch.value.to == to
                  && s'.fetch.value.limit + |s.buffer.catchup| == config.catchupMax)
  {
  }

  /** What was executed is not read again, whatever a fetch asks for. */
  lemma ExecutedIsGone(config: Config, s: Sorter, t: TaskId, f: Fetch)
    requires Enabled(config, s, Execute(t))
    ensures t !in ReadTasks(Apply(config, s, Execute(t)), f)
  {
    SelectOmits(s.stored, s.removed + {t}, f.from, f.to, t);
  }

  lemma {:induction false} SelectOmits(stored: seq<TaskId>, removed: set<TaskId>, from: Option<TaskId>,
                                       to: Option<TaskId>, t: TaskId)
    requires t in removed
    ensures t !in Select(stored, removed, from, to)
  {
    if stored != [] {
      SelectOmits(stored[1..], removed, from, to, t);
    }
  }

  /** One is in flight at a time, and a pull leaves it as it is. */
  lemma PullKeepsFlight(config: Config, s: Sorter)
    requires s.fetch.Some?
    ensures PullApplied(config, s).fetch == s.fetch
  {
  }

  lemma ReadCount(config: Config, s: Sorter, f: Fetch, end: nat)
    requires Inv(config, s) && s.fetch == Some(f)
    requires end == if f.to.Some? then f.front else |s.stored|
    ensures Caught(s) <= end <= |s.stored|
    ensures |ReadTasks(s, f)| == Min(f.limit, end - Caught(s))
    ensures ReadTasks(s, f) == s.stored[Caught(s)..Caught(s) + |ReadTasks(s, f)|]
  {
    ReadIsSlice(config, s, f, end);
    TakeOfSlice(s.stored, Caught(s), end, Min(f.limit, end - Caught(s)));
  }

  lemma ReadFills(config: Config, s: Sorter, f: Fetch)
    requires Inv(config, s) && s.fetch == Some(f)
    requires (f.to.Some? <==> s.buffer.latest != []) && f.front == Front(s)
    ensures 0 <= Missing(s) && Caught(s) + Min(f.limit, Missing(s)) <= |s.stored|
    ensures ReadTasks(s, f) == s.stored[Caught(s)..Caught(s) + Min(f.limit, Missing(s))]
  {
    ReadCount(config, s, f, if f.to.Some? then f.front else |s.stored|);
  }

  lemma LaunchedFetch(config: Config, s: Sorter)
    requires s.fetch.None? && PullApplied(config, s).fetch.Some?
    ensures var s' := PullApplied(config, s);
            var f := s'.fetch.value;
            && |s'.buffer.catchup| < config.catchupMax && f.limit == config.catchupMax - |s'.buffer.catchup|
            && (f.to.Some? <==> s'.buffer.latest != []) && f.front == Front(s')
  {
  }

  /** A fetch a pull has launched asks for as many tasks as the catchup queue has room for, and reads those
      that come next after the watermark. */
  lemma PullFetchesFreeRoom(config: Config, s: Sorter)
    requires Inv(config, s) && s.fetch.None? && PullApplied(config, s).fetch.Some?
    ensures var s' := PullApplied(config, s);
            var n := Min(config.catchupMax - |s'.buffer.catchup|, Missing(s'));
            && 0 <= Missing(s') && |s'.buffer.catchup| < config.catchupMax
            && Caught(s') + n <= |s'.stored|
            && ReadTasks(s', s'.fetch.value) == s'.stored[Caught(s')..Caught(s') + n]
  {
    PullKeepsInv(config, s);
    LaunchedFetch(config, s);
    var s' := PullApplied(config, s);
    ReadFills(config, s', s'.fetch.value);
  }

  /** The initial fetch asks for a whole catchup queue, from the beginning of the store. */
  lemma InitFetchesFreeRoom(config: Config, s: Sorter)
    requires Inv(config, s) && s.fetch.None? && Enabled(config, s, Init)
    ensures var s' := Apply(config, s, Init);
            && (s'.fetch.Some? <==> |s.buffer.catchup| < config.catchupMax)
            && (s'.fetch.Some? ==>
                  var n := Min(config.catchupMax - |s.buffer.catchup|, |s.stored| - Caught(s));
                  && Caught(s) <= |s.stored|
                  && ReadTasks(s', s'.fetch.value) == s.stored[Caught(s)..Caught(s) + n])
  {
    TriggerKeepsInv(config, s, None, None);
    var s' := Apply(config, s, Init);
    CaughtBeforeFront(config, s);
    if s'.fetch.Some? {
      ReadCount(config, s', s'.fetch.value, |s'.stored|);
    }
  }

  // ----- overflow -----

  /** What a push does to a full or a free latest queue: the `n` oldest tasks leave it, as many of them as
      fit go to the catchup queue of an up-to-date sorter, the others are dropped, and only a drop changes
      the state. */
  lemma PushExactly(b: Buffer, config: Config, task: TaskId) returns (moved: seq<TaskId>, dropped: seq<TaskId>)
    requires b.latest == [] || Last(b.latest) < task
    ensures var b' := Pushed(b, config, task);
            && b.latest + [task] == moved + dropped + b'.latest
            && b'.catchup == b.catchup + moved
            && |moved| + |dropped| == (if |b.latest| < config.latestMax then 0 else Min(config.dropBatch, |b.latest|))
            && (b.state == CatchingUp ==> moved == [])
            && (b.state == UpToDate && dropped != [] ==> |b'.catchup| >= config.catchupMax)
            && (moved != [] ==> |b'.catchup| <= config.catchupMax && b'.watermark == Some(Last(moved)))
            && (moved == [] ==> b'.watermark == b.watermark)
            && b'.state == (if dropped != [] then CatchingUp else b.state)
  {
    var n := if |b.latest| < config.latestMax then 0 else Min(config.dropBatch, |b.latest|);
    var k := Movable(b, n, config.catchupMax);
    moved, dropped := b.latest[..k], b.latest[k..n];
    PrefixExtends(b.latest, k, n);
    if n == 0 {
      DropNone(b, config.catchupMax);
      assert b.catchup + moved == b.catchup;
    }
    PushedLatest(b.latest, n, task);
  }

  lemma PushedLatest(latest: seq<TaskId>, n: nat, task: TaskId)
    requires n <= |latest|
    ensures latest + [task] == latest[..n] + (latest[n..] + [task])
  {
  }

  lemma SuffixBelow(s: seq<TaskId>, n: nat, t: TaskId)
    requires Increasing(s) && n <= |s| && (s == [] || Last(s) < t)
    ensures Increasing(s[n..]) && forall x | x in s[n..] :: x < t
  {
  }

  /** A task that is not above the last one is ignored, so the latest queue stays in order. */
  lemma PushKeepsOrder(b: Buffer, config: Config, task: TaskId)
    requires Increasing(b.latest)
    ensures Increasing(Pushed(b, config, task).latest)
    ensures b.latest != [] && task <= Last(b.latest) ==> Pushed(b, config, task) == b
  {
    if b.latest == [] || Last(b.latest) < task {
      var n := OverflowCount(config, b);
      assert b.latest[0..] == b.latest;
      SuffixBelow(b.latest, n, task);
      IncreasingAppend(b.latest[n..], task);
    }
  }

  // ----- loading -----

  /** The tasks that are neither queued for catching up already nor in the latest queue. */
  predicate Loadable(b: Buffer, x: TaskId) {
    (b.catchup != [] ==> Last(b.catchup) < x) && (b.latest != [] ==> x < b.latest[0])
  }

  lemma PrefixOfIncreasing(tasks: seq<TaskId>, bound: TaskId, i: nat)
    requires Increasing(tasks) && i < |tasks|
    ensures i < PrefixBelow(tasks, bound) <==> tasks[i] < bound
  {
    var n := PrefixBelow(tasks, bound);
    assert n <= i ==> tasks[n] <= tasks[i];
  }

  /** How many of the tasks are queued for catching up already. */
  function SeenCount(b: Buffer, tasks: seq<TaskId>): (n: nat)
    ensures n <= |tasks|
  {
    if b.catchup == [] then 0 else PrefixBelow(tasks, Last(b.catchup) + 1)
  }

  lemma SeenExactly(b: Buffer, tasks: seq<TaskId>, i: nat)
    requires Increasing(tasks) && i < |tasks|
    ensures SeenCount(b, tasks) <= i <==> (b.catchup != [] ==> Last(b.catchup) < tasks[i])
  {
    if b.catchup != [] {
      PrefixOfIncreasing(tasks, Last(b.catchup) + 1, i);
    }
  }

  lemma UntakenExactly(b: Buffer, tasks: seq<TaskId>, lo: nat, i: nat)
    requires Increasing(tasks) && lo <= i < |tasks|
    ensures i < lo + TakeCount(b, tasks[lo..]) <==> (b.latest != [] ==> tasks[i] < b.latest[0])
  {
    assert tasks[lo..][i - lo] == tasks[i];
    if b.latest != [] {
      PrefixOfIncreasing(tasks[lo..], b.latest[0], i - lo);
    }
  }

  lemma LoadablePosition(b: Buffer, tasks: seq<TaskId>, i: nat)
    requires Increasing(tasks) && i < |tasks|
    ensures var lo := SeenCount(b, tasks);
            Loadable(b, tasks[i]) <==> lo <= i < lo + TakeCount(b, tasks[lo..])
  {
    SeenExactly(b, tasks, i);
    if SeenCount(b, tasks) <= i {
      UntakenExactly(b, tasks, SeenCount(b, tasks), i);
    }
  }

  /** Where the tasks that are taken end. */
  function TakenEnd(b: Buffer, tasks: seq<TaskId>): (hi: nat)
    ensures SeenCount(b, tasks) <= hi <= |tasks|
  {
    SeenCount(b, tasks) + TakeCount(b, tasks[SeenCount(b, tasks)..])
  }

  lemma UnseenSlice(b: Buffer, tasks: seq<TaskId>, lo: nat, hi: nat)
    requires lo == SeenCount(b, tasks) && hi == TakenEnd(b, tasks)
    ensures var unseen := WithoutSeen(b, tasks);
            && unseen == tasks[lo..] && TakeCount(b, unseen) == hi - lo && unseen[..hi - lo] == tasks[lo..hi]
  {
    assert WithoutSeen(b, tasks) == tasks[lo..];
  }

  lemma LoadedSlice(b: Buffer, tasks: seq<TaskId>, lo: nat, hi: nat)
    requires lo == SeenCount(b, tasks) && hi == TakenEnd(b, tasks)
    ensures var b' := Loaded(b, tasks);
            && b'.catchup == b.catchup + tasks[lo..hi] && b'.latest == b.latest
            && b'.watermark == (if lo == hi then b.watermark else Some(tasks[hi - 1]))
            && (tasks != [] ==> b'.state == (if hi < |tasks| then UpToDate else b.state))
  {
    assert lo == hi ==> b.catchup + tasks[lo..hi] == b.catchup;
    if tasks != [] {
      UnseenSlice(b, tasks, lo, hi);
    }
  }

  /** The loadable tasks are those at the positions from `lo` to `hi`. */
  ghost predicate LoadableBetween(b: Buffer, tasks: seq<TaskId>, lo: nat, hi: nat) {
    lo <= hi <= |tasks| && forall i | 0 <= i < |tasks| :: Loadable(b, tasks[i]) <==> lo <= i < hi
  }

  lemma LoadableStretch(b: Buffer, tasks: seq<TaskId>, lo: nat, hi: nat)
    requires Increasing(tasks) && lo == SeenCount(b, tasks) && hi == TakenEnd(b, tasks)
    ensures LoadableBetween(b, tasks, lo, hi)
  {
    forall i | 0 <= i < |tasks|
      ensures Loadable(b, tasks[i]) <==> lo <= i < hi
    {
      LoadablePosition(b, tasks, i);
    }
  }

  /** Loading tasks in order appends to the catchup queue exactly the loadable ones, which are consecutive;
      the watermark moves to the last of them. */
  lemma LoadTakesLoadable(b: Buffer, tasks: seq<TaskId>) returns (lo: nat, hi: nat)
    requires Increasing(tasks)
    ensures LoadableBetween(b, tasks, lo, hi)
    ensures var b' := Loaded(b, tasks);
            && b'.catchup == b.catchup + tasks[lo..hi] && b'.latest == b.latest
            && b'.watermark == (if lo == hi then b.watermark else Some(tasks[hi - 1]))
  {
    lo, hi := SeenCount(b, tasks), TakenEnd(b, tasks);
    LoadedSlice(b, tasks, lo, hi);
    LoadableStretch(b, tasks, lo, hi);
  }

  /** A task not queued for catching up that lies in the latest queue or above. */
  predicate ReachesLatest(b: Buffer, x: TaskId) {
    b.latest != [] && b.latest[0] <= x && (b.catchup != [] ==> Last(b.catchup) < x)
  }

  /** Loading ends the catching-up state exactly when there was nothing to load, or the tasks not queued yet
      reach the latest queue. */
  lemma LoadSwitchesExactly(b: Buffer, tasks: seq<TaskId>)
    requires Increasing(tasks) && b.state == CatchingUp
    ensures Loaded(b, tasks).state == UpToDate
            <==> tasks == [] || exists i | 0 <= i < |tasks| :: ReachesLatest(b, tasks[i])
  {
    if tasks != [] {
      var lo, hi := SeenCount(b, tasks), TakenEnd(b, tasks);
      LoadedSlice(b, tasks, lo, hi);
      forall i | 0 <= i < |tasks|
        ensures ReachesLatest(b, tasks[i]) <==> hi <= i
      {
        SeenExactly(b, tasks, i);
        if lo <= i {
          UntakenExactly(b, tasks, lo, i);
        }
      }
      assert hi < |tasks| ==> ReachesLatest(b, tasks[hi]);
    }
  }
}
