/** What the async task sorter guarantees over whole runs: order, completeness, progress, capacity. */
module SorterGuarantees {
  import opened ByteStrings
  import opened TaskBuffer
  import opened SorterRuns

  function After(config: Config, stored: seq<TaskId>, actions: seq<Action>): Option<Sorter> {
    Run(config, Start(stored), actions)
  }

  lemma ReachableInv(config: Config, stored: seq<TaskId>, actions: seq<Action>)
    requires Increasing(stored) && After(config, stored, actions).Some?
    ensures Inv(config, After(config, stored, actions).value)
  {
    StartInv(config, stored);
    RunKeepsInv(config, Start(stored), actions);
  }

  // ----- order -----

  /** Tasks are handed out in order of their IDs, and each at most once: over every interleaving,
      what was delivered is strictly increasing, and everything queued comes after it. */
  lemma DeliveredInOrder(config: Config, stored: seq<TaskId>, actions: seq<Action>)
    requires Increasing(stored) && After(config, stored, actions).Some?
    ensures var s := After(config, stored, actions).value;
            && Increasing(s.delivered) && AllIn(s.delivered, s.stored)
            && Increasing(s.delivered + s.buffer.catchup + s.buffer.latest)
  {
    ReachableInv(config, stored, actions);
    var s := After(config, stored, actions).value;
    LineThenLatest(s.delivered, s.buffer.catchup, s.stored, Front(s));
  }

  lemma LineThenLatest(delivered: seq<TaskId>, catchup: seq<TaskId>, stored: seq<TaskId>, front: nat)
    requires Increasing(stored) && Increasing(delivered + catchup) && front <= |stored|
    requires AllIn(delivered + catchup, stored[..front])
    ensures Increasing(delivered) && AllIn(delivered, stored)
    ensures Increasing(delivered + catchup + stored[front..])
  {
    var line := delivered + catchup;
    IncreasingConcat(line, stored, front, |stored| - front);
    assert stored[front..|stored|] == stored[front..];
    assert delivered == line[..|delivered|];
    forall i | 0 <= i < |delivered|
      ensures delivered[i] in stored
    {
      assert delivered[i] == line[i] && line[i] in line;
      assert line[i] in stored[..front];
    }
  }

  /** While catching up, all stored IDs up to the watermark were delivered or wait in the catchup
      queue; once up to date, all stored IDs were delivered or wait in one of the queues. */
  ghost predicate NothingLost(s: Sorter) {
    && 0 <= Front(s)
    && Line(s) == s.stored[..if s.buffer.state == CatchingUp then Caught(s) else Front(s)]
  }

  /** The step that loses tasks: an empty fetch result is taken to mean that the sorter has caught
      up, although an overflow has dropped tasks since the bounds of the fetch were captured. */
  predicate LosesTasks(s: Sorter, a: Action) {
    a == Complete && s.fetch.Some? && s.fetch.value.loaded == Some([]) && s.fetch.value.dropped
  }

  lemma EnqueueLosesNothing(config: Config, s: Sorter, t: TaskId)
    requires Inv(config, s) && NothingLost(s) && Enabled(config, s, Enqueue(t))
    ensures NothingLost(Apply(config, s, Enqueue(t)))
  {
    EnqueueIsOverflowThenAppend(config, s, t);
    var n := OverflowCount(config, s.buffer);
    var m := Overflown(config, s, n);
    OverflowKeepsInv(config, s, n);
    OverflowLosesNothing(config, s, n);
    AppendLosesNothing(config, m, t);
  }

  lemma AppendLosesNothing(config: Config, s: Sorter, t: TaskId)
    requires Inv(config, s) && NothingLost(s) && forall x | x in s.stored :: x < t
    ensures NothingLost(Appended(s, t))
  {
    AppendKeepsQueues(config, s, t);
    assert (s.stored + [t])[..Caught(s)] == s.stored[..Caught(s)];
  }

  lemma OverflowLosesNothing(config: Config, s: Sorter, n: nat)
    requires Inv(config, s) && NothingLost(s) && n <= |s.buffer.latest|
    ensures NothingLost(Overflown(config, s, n))
  {
    OverflowKeepsQueues(config, s, n);
    var s' := Overflown(config, s, n);
    var front, moved := Front(s), Movable(s.buffer, n, config.catchupMax);
    if s.buffer.state == CatchingUp {
      assert Line(s) + s.stored[front..front] == Line(s);
    } else {
      PrefixExtends(s.stored, front, front + moved);
      if moved < n {
        OverflowSwitches(config, s, n);
      }
    }
  }

  /** When an overflow ends the up-to-date state, the catchup queue is full and ends at the
      watermark. */
  lemma OverflowSwitches(config: Config, s: Sorter, n: nat)
    requires Inv(config, s) && NothingLost(s) && n <= |s.buffer.latest|
    requires s.buffer.state == UpToDate && Movable(s.buffer, n, config.catchupMax) < n
    ensures Caught(Overflown(config, s, n)) == Front(s) + Movable(s.buffer, n, config.catchupMax)
  {
    var s' := Overflown(config, s, n);
    var end := Front(s) + Movable(s.buffer, n, config.catchupMax);
    OverflowKeepsQueues(config, s, n);
    OverflowKeepsWatermark(config, s, n);
    PrefixExtends(s.stored, Front(s), end);
    CaughtUpToEnd(s.stored, s'.delivered, s'.buffer.catchup, end);
  }

  lemma CaughtUpToEnd(stored: seq<TaskId>, delivered: seq<TaskId>, catchup: seq<TaskId>, end: nat)
    requires Increasing(stored) && end <= |stored| && catchup != [] && delivered + catchup == stored[..end]
    ensures AtMost(stored, Some(Last(catchup))) == end
  {
    LastOfConcat(delivered, catchup);
    AtMostIs(stored, stored[end - 1], end);
  }

  lemma PullLosesNothing(config: Config, s: Sorter)
    requires Inv(config, s) && NothingLost(s)
    ensures NothingLost(PullApplied(config, s))
  {
    PopKeepsInv(config, s);
    if s.buffer.catchup != [] {
      PopCatchup(config, s);
    } else if s.buffer.state == UpToDate && s.buffer.latest != [] {
      PopLatest(config, s);
      PrefixExtends(s.stored, Front(s), Front(s) + 1);
    }
  }

  /** A completed fetch leaves a gap before the latest queue of an up-to-date sorter exactly in the
      losing step. */
  lemma GapIffLoses(config: Config, s: Sorter)
    requires Inv(config, s) && Enabled(config, s, Complete) && LoadedFacts(s)
    ensures AfterLoading(s).state == UpToDate && LoadedUpTo(s) != Front(s) <==> LosesTasks(s, Complete)
  {
  }

  lemma LineAfterLoading(s: Sorter, s': Sorter)
    requires NothingLost(s) && HasLoaded(s) && LoadedFacts(s)
    requires s' == s.(buffer := AfterLoading(s), fetch := None)
    ensures 0 <= LoadedUpTo(s) == Caught(s') <= Front(s') == Front(s) && Line(s') == s.stored[..LoadedUpTo(s)]
  {
    LoadingExtendsLine(s, s');
    var lo, end := Caught(s), LoadedUpTo(s);
    PrefixExtends(s.stored, lo, end);
  }

  /** Completing a fetch keeps everything exactly if it is not the losing step. */
  lemma CompleteLosesOnlyThen(config: Config, s: Sorter)
    requires Inv(config, s) && NothingLost(s) && Enabled(config, s, Complete)
    ensures NothingLost(Apply(config, s, Complete)) <==> !LosesTasks(s, Complete)
  {
    InvGivesLoadedFacts(config, s);
    CompleteGives(config, s);
    GapIffLoses(config, s);
    LineAfterLoading(s, s.(buffer := AfterLoading(s), fetch := None));
  }

  lemma StepLosesOnlyThen(config: Config, s: Sorter, a: Action)
    requires Inv(config, s) && NothingLost(s) && Enabled(config, s, a)
    ensures NothingLost(Apply(config, s, a)) <==> !LosesTasks(s, a)
  {
    match a
    case Init =>
    case Enqueue(t) => EnqueueLosesNothing(config, s, t);
    case Pull => PullLosesNothing(config, s);
    case Read =>
    case ReadFails =>
    case Complete => CompleteLosesOnlyThen(config, s);
    case Execute(t) =>
  }

  /** No prefix of the run has lost a task. */
  ghost predicate AlwaysComplete(config: Config, s: Sorter, actions: seq<Action>)
    decreases |actions|
  {
    && (Run(config, s, actions).Some? ==> NothingLost(Run(config, s, actions).value))
    && (actions != [] ==> AlwaysComplete(config, s, actions[..|actions| - 1]))
  }

  /** No step of the run is a losing one. */
  ghost predicate NeverLoses(config: Config, s: Sorter, actions: seq<Action>)
    decreases |actions|
  {
    actions != [] ==>
      var before, a := actions[..|actions| - 1], actions[|actions| - 1];
      && NeverLoses(config, s, before)
      && (Run(config, s, before).Some? ==> !LosesTasks(Run(config, s, before).value, a))
  }

  lemma {:induction false} AlwaysCompleteIff(config: Config, s: Sorter, actions: seq<Action>)
    requires Inv(config, s) && NothingLost(s) && Run(config, s, actions).Some?
    ensures AlwaysComplete(config, s, actions) <==> NeverLoses(config, s, actions)
    decreases |actions|
  {
    if actions != [] {
      var before, a := actions[..|actions| - 1], actions[|actions| - 1];
      AlwaysCompleteIff(config, s, before);
      RunKeepsInv(config, s, before);
      var m := Run(config, s, before).value;
      if NothingLost(m) {
        StepLosesOnlyThen(config, m, a);
      }
    }
  }

  /** Sorter completeness, exactly: in a run every state accounts for all stored tasks if and only
      if no fetch completes empty after an overflow dropped tasks during its flight. */
  lemma CompleteUnlessDroppedInFlight(config: Config, stored: seq<TaskId>, actions: seq<Action>)
    requires Increasing(stored) && After(config, stored, actions).Some?
    ensures AlwaysComplete(config, Start(stored), actions) <==> NeverLoses(config, Start(stored), actions)
  {
    StartInv(config, stored);
    AlwaysCompleteIff(config, Start(stored), actions);
  }

  /** An enqueue that overflows while a fetch is in flight. */
  predicate DropsInFlight(config: Config, s: Sorter, a: Action) {
    a.Enqueue? && s.fetch.Some? && OverflowCount(config, s.buffer) > 0
  }

  /** No step of the run overflows while a fetch is in flight. */
  ghost predicate NeverDropsInFlight(config: Config, s: Sorter, actions: seq<Action>)
    decreases |actions|
  {
    actions != [] ==>
      var before, a := actions[..|actions| - 1], actions[|actions| - 1];
      && NeverDropsInFlight(config, s, before)
      && (Run(config, s, before).Some? ==> !DropsInFlight(config, Run(config, s, before).value, a))
  }

  predicate Undropped(s: Sorter) {
    s.fetch.Some? ==> !s.fetch.value.dropped
  }

  lemma StepKeepsUndropped(config: Config, s: Sorter, a: Action)
    requires Undropped(s) && Enabled(config, s, a) && !DropsInFlight(config, s, a)
    ensures Undropped(Apply(config, s, a)) && !LosesTasks(s, a)
  {
  }

  lemma {:induction false} NoDropsNoLoss(config: Config, s: Sorter, actions: seq<Action>)
    requires Undropped(s)
    requires Run(config, s, actions).Some? && NeverDropsInFlight(config, s, actions)
    ensures NeverLoses(config, s, actions)
    ensures Undropped(Run(config, s, actions).value)
    decreases |actions|
  {
    if actions != [] {
      var n := |actions| - 1;
      NoDropsNoLoss(config, s, actions[..n]);
      StepKeepsUndropped(config, Run(config, s, actions[..n]).value, actions[n]);
    }
  }

  /** In particular, tasks an overflow drops are always read again if it happens outside a flight. */
  lemma CompleteIfNoDropsInFlight(config: Config, stored: seq<TaskId>, actions: seq<Action>)
    requires Increasing(stored) && After(config, stored, actions).Some?
    requires NeverDropsInFlight(config, Start(stored), actions)
    ensures NothingLost(After(config, stored, actions).value)
  {
    NoDropsNoLoss(config, Start(stored), actions);
    CompleteUnlessDroppedInFlight(config, stored, actions);
  }

  const TIGHT := Config(1, 1, 1)

  lemma RunOneMore(config: Config, s: Sorter, actions: seq<Action>, a: Action)
    requires Run(config, s, actions).Some? && Enabled(config, Run(config, s, actions).value, a)
    ensures Run(config, s, actions + [a]) == Some(Apply(config, Run(config, s, actions).value, a))
  {
    assert (actions + [a])[..|actions|] == actions;
  }

  const FETCHING :=
    Sorter(Buffer([], [1], None, CatchingUp), [1], {}, Some(Fetch(None, Some(1), 1, 0, false, None)), [])
  const DROPPED :=
    Sorter(Buffer([], [2], None, CatchingUp), [1, 2], {}, Some(Fetch(None, Some(1), 1, 0, true, None)), [])
  const DONE := Sorter(Buffer([], [2], None, UpToDate), [1, 2], {}, None, [])

  lemma LossStarts()
    ensures Run(TIGHT, Start([]), [Enqueue(1), Pull]) == Some(FETCHING)
  {
    var s := Sorter(Buffer([], [1], None, CatchingUp), [1], {}, None, []);
    assert Apply(TIGHT, Start([]), Enqueue(1)) == s;
    assert Apply(TIGHT, s, Pull) == FETCHING;
    RunOneMore(TIGHT, Start([]), [], Enqueue(1));
    assert [] + [Enqueue(1)] == [Enqueue(1)] && [Enqueue(1)] + [Pull] == [Enqueue(1), Pull];
    RunOneMore(TIGHT, Start([]), [Enqueue(1)], Pull);
  }

  lemma LossHappens()
    ensures Apply(TIGHT, FETCHING, Enqueue(2)) == DROPPED
    ensures var s := Apply(TIGHT, DROPPED, Read); LosesTasks(s, Complete) && Apply(TIGHT, s, Complete) == DONE
  {
    assert DropOldest(FETCHING.buffer, 1, 1) == Buffer([], [], None, CatchingUp);
    assert [1, 2][1..] == [2];
    assert Select([2], {}, None, Some(1)) == [];
    assert ReadTasks(DROPPED, DROPPED.fetch.value) == [];
  }

  /** The unconditional claim is false: a fetch is launched for what precedes task 1, task 2
      overflows the latest queue and drops task 1, the fetch comes back empty, and task 2 is
      delivered while task 1 never is. */
  lemma DroppedTaskIsLost() returns (actions: seq<Action>)
    ensures var r := After(TIGHT, [], actions);
            && r.Some? && r.value.stored == [1, 2] && r.value.delivered == [2]
            && r.value.buffer.state == UpToDate && r.value.buffer.catchup == [] && r.value.buffer.latest == []
  {
    var s0 := Start([]);
    LossStarts();
    LossHappens();
    actions := [Enqueue(1), Pull];
    RunOneMore(TIGHT, s0, actions, Enqueue(2));
    actions := actions + [Enqueue(2)];
    RunOneMore(TIGHT, s0, actions, Read);
    actions := actions + [Read];
    RunOneMore(TIGHT, s0, actions, Complete);
    actions := actions + [Complete];
    RunOneMore(TIGHT, s0, actions, Pull);
    actions := actions + [Pull];
  }

  // ----- draining -----

  predicate NoEnqueue(actions: seq<Action>) {
    forall i | 0 <= i < |actions| :: !actions[i].Enqueue?
  }

  function Pulls(n: nat): (p: seq<Action>)
    ensures |p| == n && NoEnqueue(p)
  {
    if n == 0 then [] else Pulls(n - 1) + [Pull]
  }

  lemma DrainOne(config: Config, s: Sorter)
    requires Inv(config, s) && s.buffer.state == UpToDate && |s.buffer.catchup| + |s.buffer.latest| > 0
    ensures var s' := PullApplied(config, s);
            && Inv(config, s') && s'.buffer.state == UpToDate && s'.stored == s.stored
            && |s'.buffer.catchup| + |s'.buffer.latest| == |s.buffer.catchup| + |s.buffer.latest| - 1
            && (NothingLost(s) ==> NothingLost(s'))
  {
    PullKeepsInv(config, s);
    if NothingLost(s) {
      PullLosesNothing(config, s);
    }
  }

  /** An up-to-date sorter hands out its two queues, oldest first. */
  lemma {:induction false} Drain(config: Config, s: Sorter, n: nat) returns (s': Sorter)
    requires Inv(config, s) && s.buffer.state == UpToDate
    requires n <= |s.buffer.catchup| + |s.buffer.latest|
    ensures Run(config, s, Pulls(n)) == Some(s')
    ensures Inv(config, s') && s'.buffer.state == UpToDate && s'.stored == s.stored
    ensures |s'.buffer.catchup| + |s'.buffer.latest| == |s.buffer.catchup| + |s.buffer.latest| - n
    ensures NothingLost(s) ==> NothingLost(s')
  {
    s' := s;
    if n > 0 {
      s' := Drain(config, s, n - 1);
      RunOneMore(config, s, Pulls(n - 1), Pull);
      DrainOne(config, s');
      s' := PullApplied(config, s');
    }
  }

  lemma NothingQueuedAllDelivered(s: Sorter)
    requires NothingLost(s) && s.buffer.state == UpToDate && s.buffer.catchup == [] && s.buffer.latest == []
    ensures s.delivered == s.stored
  {
    assert s.delivered + s.buffer.catchup == s.delivered && s.stored[..|s.stored|] == s.stored;
  }

  /** If nothing was lost, pulling until the queues are empty has delivered exactly what was
      stored, in order. */
  lemma DrainDeliversEverything(config: Config, s: Sorter) returns (end: Sorter)
    requires Inv(config, s) && NothingLost(s) && s.buffer.state == UpToDate
    ensures Run(config, s, Pulls(|s.buffer.catchup| + |s.buffer.latest|)) == Some(end)
    ensures end.stored == s.stored && end.delivered == s.stored
  {
    end := Drain(config, s, |s.buffer.catchup| + |s.buffer.latest|);
    NothingQueuedAllDelivered(end);
  }

  // ----- progress -----

  /** Pulling from a sorter that is catching up with an empty catchup queue always has a fetch in
      flight afterwards, for the bounds are never crossed; unless the queue has no capacity at all. */
  lemma PullNeverStalls(config: Config, s: Sorter)
    requires Inv(config, s)
    requires s.buffer.state == CatchingUp && s.buffer.catchup == []
    ensures PullApplied(config, s).fetch.Some? <==> config.catchupMax >= 1
  {
    if s.buffer.watermark.Some? && s.buffer.latest != [] {
      var w := s.buffer.watermark.value;
      var i :| 0 <= i < Front(s) && s.stored[i] == w;
      assert s.buffer.latest[0] == s.stored[Front(s)];
    }
  }

  function Backlog(s: Sorter): int {
    |s.stored| - Caught(s)
  }

  /** A successful fetch ends the catching-up state or raises the watermark. */
  lemma FetchMakesProgress(config: Config, s: Sorter)
    requires Inv(config, s) && Enabled(config, s, Complete)
    ensures var s' := Apply(config, s, Complete);
            && Caught(s) <= Caught(s')
            && (s'.buffer.state == UpToDate || Caught(s) < Caught(s'))
  {
    InvGivesLoadedFacts(config, s);
    CompleteGives(config, s);
    LoadingExtendsLine(s, s.(buffer := AfterLoading(s), fetch := None));
  }

  function Completions(actions: seq<Action>): nat {
    if actions == [] then 0
    else Completions(actions[..|actions| - 1]) + if actions[|actions| - 1] == Complete then 1 else 0
  }

  /** Successful fetches still to come: one per ID above the watermark, and the one that finds
      nothing more. */
  function FetchesLeft(s: Sorter): int {
    Backlog(s) + if s.buffer.state == CatchingUp then 1 else 0
  }

  lemma StepUsesFetch(config: Config, s: Sorter, a: Action)
    requires Inv(config, s) && Enabled(config, s, a) && !a.Enqueue?
    ensures var s' := Apply(config, s, a);
            && 0 <= FetchesLeft(s')
            && FetchesLeft(s') + (if a == Complete then 1 else 0) <= FetchesLeft(s)
  {
    match a
    case Pull => PopKeepsInv(config, s);
    case Complete => FetchMakesProgress(config, s);
    case _ =>
  }

  /** Without new tasks, the number of successful fetches is at most the number of stored tasks
      above the watermark plus one. */
  lemma {:induction false} FetchesAreBounded(config: Config, s: Sorter, actions: seq<Action>)
    requires Inv(config, s) && Run(config, s, actions).Some?
    requires NoEnqueue(actions)
    ensures Completions(actions) + FetchesLeft(Run(config, s, actions).value) <= FetchesLeft(s)
    ensures Completions(actions) <= Backlog(s) + 1
    decreases |actions|
  {
    if actions != [] {
      var n := |actions| - 1;
      FetchesAreBounded(config, s, actions[..n]);
      RunKeepsInv(config, s, actions[..n]);
      StepUsesFetch(config, Run(config, s, actions[..n]).value, actions[n]);
    }
  }

  // ----- capacity -----

  /** Neither queue outgrows its maximum. */
  lemma {:induction false} QueuesStayBounded(config: Config, stored: seq<TaskId>, actions: seq<Action>)
    requires Increasing(stored) && After(config, stored, actions).Some?
    ensures var b := After(config, stored, actions).value.buffer;
            && |b.catchup| <= config.catchupMax
            && (config.latestMax >= 1 && config.dropBatch >= 1 ==> |b.latest| <= config.latestMax)
    decreases |actions|
  {
    ReachableInv(config, stored, actions);
    if actions != [] {
      var n := |actions| - 1;
      var s := After(config, stored, actions[..n]).value;
      QueuesStayBounded(config, stored, actions[..n]);
      ReachableInv(config, stored, actions[..n]);
      if config.latestMax >= 1 && config.dropBatch >= 1 {
        LatestStaysBounded(config, s, actions[n]);
      }
    }
  }

  lemma LatestStaysBounded(config: Config, s: Sorter, a: Action)
    requires Inv(config, s) && Enabled(config, s, a)
    requires config.latestMax >= 1 && config.dropBatch >= 1 && |s.buffer.latest| <= config.latestMax
    ensures |Apply(config, s, a).buffer.latest| <= config.latestMax
  {
    if a.Enqueue? {
      EnqueueIsOverflowThenAppend(config, s, a.task);
    }
  }
}
