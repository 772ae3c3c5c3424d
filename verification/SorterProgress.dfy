/** From which states the async task sorter can still deliver everything, and which configurations can
    lose tasks. */
module SorterProgress {
  import opened ByteStrings
  import opened TaskBuffer
  import opened SorterRuns
  import opened SorterGuarantees

  // ----- catching up -----

  lemma RunLast(config: Config, s: Sorter, actions: seq<Action>, end: Sorter) returns (before: Sorter)
    requires Run(config, s, actions) == Some(end) && actions != []
    ensures Run(config, s, actions[..|actions| - 1]) == Some(before)
    ensures Enabled(config, before, actions[|actions| - 1])
    ensures end == Apply(config, before, actions[|actions| - 1])
  {
    before := Run(config, s, actions[..|actions| - 1]).value;
  }

  lemma ConcatLast<T>(a: seq<T>, b: seq<T>)
    requires b != []
    ensures a + b[..|b| - 1] + [b[|b| - 1]] == a + b
  {
  }

  lemma {:induction false} RunConcat(config: Config, s: Sorter, actions: seq<Action>, s': Sorter, more: seq<Action>,
                                     end: Sorter)
    requires Run(config, s, actions) == Some(s') && Run(config, s', more) == Some(end)
    ensures Run(config, s, actions + more) == Some(end)
    decreases |more|
  {
    if more == [] {
      assert actions + more == actions;
    } else {
      var n := |more| - 1;
      var before := RunLast(config, s', more, end);
      RunConcat(config, s, actions, s', more[..n], before);
      ConcatLast(actions, more);
      RunOneMore(config, s, actions + more[..n], more[n]);
    }
  }

  /** What a sorter that is catching up does next: launch a fetch, read, or take the result in. */
  function NextStep(s: Sorter): Action {
    if s.fetch.None? then Pull else if s.fetch.value.loaded.None? then Read else Complete
  }

  function StepsBeforeFetchEnds(s: Sorter): nat {
    if s.fetch.None? then 2 else if s.fetch.value.loaded.None? then 1 else 0
  }

  ghost predicate Lossless(config: Config, s: Sorter) {
    Inv(config, s) && NothingLost(s) && Undropped(s)
  }

  /** The second state is closer to the end of catching up than the first. */
  ghost predicate Closer(s: Sorter, s': Sorter) {
    && 0 <= FetchesLeft(s') <= FetchesLeft(s)
    && (FetchesLeft(s') == FetchesLeft(s) ==>
          || StepsBeforeFetchEnds(s') < StepsBeforeFetchEnds(s)
          || (StepsBeforeFetchEnds(s') == StepsBeforeFetchEnds(s) && |s'.buffer.catchup| < |s.buffer.catchup|))
  }

  lemma CatchUpStep(config: Config, s: Sorter) returns (s': Sorter)
    requires config.catchupMax >= 1 && s.buffer.state == CatchingUp && Lossless(config, s)
    ensures Run(config, s, [NextStep(s)]) == Some(s')
    ensures Lossless(config, s') && s'.stored == s.stored && Closer(s, s')
  {
    var a := NextStep(s);
    s' := Apply(config, s, a);
    RunOneMore(config, s, [], a);
    assert [] + [a] == [a];
    StepKeepsInv(config, s, a);
    StepKeepsUndropped(config, s, a);
    StepLosesOnlyThen(config, s, a);
    NextStepIsCloser(config, s);
  }

  lemma NextStepIsCloser(config: Config, s: Sorter)
    requires config.catchupMax >= 1 && s.buffer.state == CatchingUp && Inv(config, s)
    ensures Enabled(config, s, NextStep(s)) && Apply(config, s, NextStep(s)).stored == s.stored
    ensures Closer(s, Apply(config, s, NextStep(s)))
  {
    StepUsesFetch(config, s, NextStep(s));
    if s.buffer.catchup == [] {
      PullNeverStalls(config, s);
    }
  }

  /** From any state that has lost nothing and whose fetch, if one is in flight, saw no drop, pulling and
      fetching deliver everything stored. */
  lemma {:induction false} CatchUp(config: Config, s: Sorter) returns (actions: seq<Action>, end: Sorter)
    requires config.catchupMax >= 1 && Lossless(config, s)
    ensures NoEnqueue(actions) && Run(config, s, actions) == Some(end)
    ensures end.stored == s.stored && end.delivered == s.stored
    decreases FetchesLeft(s), StepsBeforeFetchEnds(s), |s.buffer.catchup|
  {
    if s.buffer.state == UpToDate {
      actions := Pulls(|s.buffer.catchup| + |s.buffer.latest|);
      end := DrainDeliversEverything(config, s);
    } else {
      var s' := CatchUpStep(config, s);
      var rest;
      rest, end := CatchUp(config, s');
      RunConcat(config, s, [NextStep(s)], s', rest, end);
      actions := [NextStep(s)] + rest;
    }
  }

  // ----- states that cannot recover -----

  /** The fetch in flight has read nothing, and tasks were dropped since it was launched. */
  predicate Doomed(s: Sorter) {
    HasLoaded(s) && s.fetch.value.loaded.value == [] && s.fetch.value.dropped
  }

  lemma LaterIsLarger(s: seq<TaskId>, i: nat, j: nat)
    requires Increasing(s) && i < |s| && j < |s|
    ensures i < j ==> s[i] < s[j]
  {
  }

  lemma {:induction false} IncreasingFits(xs: seq<TaskId>, ys: seq<TaskId>)
    requires Increasing(xs) && Increasing(ys) && AllIn(xs, ys)
    ensures |xs| <= |ys|
    ensures |xs| == |ys| ==> xs == ys
    decreases |ys|
  {
    if xs != [] {
      var x, m := Last(xs), |xs| - 1;
      assert x in xs;
      var n :| 0 <= n < |ys| && ys[n] == x;
      forall z | z in xs[..m]
        ensures z in ys[..n]
      {
        var i :| 0 <= i < m && xs[i] == z;
        assert xs[i] in xs;
        var j :| 0 <= j < |ys| && ys[j] == z;
        assert xs[i] < xs[m];
        LaterIsLarger(ys, n, j);
      }
      IncreasingFits(xs[..m], ys[..n]);
      if |xs| == |ys| {
        assert xs == xs[..m] + [x] && ys == ys[..n] + [x];
      }
    }
  }

  /** How many stored tasks should have been delivered or be queued for catching up. */
  function Due(s: Sorter): int {
    if s.buffer.state == CatchingUp then Caught(s) else Front(s)
  }

  /** Something is lost exactly when the line is shorter than what is due. */
  lemma LostExactly(config: Config, s: Sorter)
    requires Inv(config, s)
    ensures |Line(s)| <= Due(s) && (NothingLost(s) <==> |Line(s)| == Due(s))
  {
    CaughtBeforeFront(config, s);
    IncreasingFits(Line(s), s.stored[..Due(s)]);
  }

  /** Without new tasks the line never catches up with what is due. */
  lemma LossStays(config: Config, s: Sorter, a: Action)
    requires Inv(config, s) && Enabled(config, s, a) && !a.Enqueue? && !NothingLost(s)
    ensures !NothingLost(Apply(config, s, a))
  {
    StepKeepsInv(config, s, a);
    LostExactly(config, s);
    LostExactly(config, Apply(config, s, a));
    match a
    case Pull => PullKeepsGap(config, s);
    case Complete => CompleteKeepsGap(config, s);
    case _ =>
  }

  lemma PullKeepsGap(config: Config, s: Sorter)
    requires Inv(config, s)
    ensures var s' := PullApplied(config, s); Due(s') - |Line(s')| == Due(s) - |Line(s)|
  {
    PopKeepsInv(config, s);
    if s.buffer.catchup != [] {
      PopCatchup(config, s);
    } else if s.buffer.state == UpToDate && s.buffer.latest != [] {
      PopLatest(config, s);
    }
  }

  lemma CompleteKeepsGap(config: Config, s: Sorter)
    requires Inv(config, s) && Enabled(config, s, Complete)
    ensures var s' := Apply(config, s, Complete); Due(s') - |Line(s')| >= Due(s) - |Line(s)|
  {
    InvGivesLoadedFacts(config, s);
    CompleteGives(config, s);
    LoadingExtendsLine(s, s.(buffer := AfterLoading(s), fetch := None));
  }

  /** A state from which not everything can be delivered any more. */
  ghost predicate Stuck(s: Sorter) {
    !NothingLost(s) || Doomed(s)
  }

  lemma StuckStays(config: Config, s: Sorter, a: Action)
    requires Inv(config, s) && Enabled(config, s, a) && !a.Enqueue? && Stuck(s)
    ensures Stuck(Apply(config, s, a)) && Apply(config, s, a).stored == s.stored
  {
    if !NothingLost(s) {
      LossStays(config, s, a);
    } else if a == Complete {
      StepLosesOnlyThen(config, s, a);
    }
  }

  lemma {:induction false} StuckRun(config: Config, s: Sorter, actions: seq<Action>, end: Sorter)
    requires Inv(config, s) && NoEnqueue(actions) && Run(config, s, actions) == Some(end) && Stuck(s)
    ensures Inv(config, end) && Stuck(end) && end.stored == s.stored
    decreases |actions|
  {
    if actions != [] {
      var n := |actions| - 1;
      var before := RunLast(config, s, actions, end);
      StuckRun(config, s, actions[..n], before);
      StuckStays(config, before, actions[n]);
      StepKeepsInv(config, before, actions[n]);
    }
  }

  /** Who has delivered everything is not stuck. */
  lemma AllDeliveredNotStuck(config: Config, s: Sorter)
    requires Inv(config, s) && s.delivered == s.stored
    ensures !Stuck(s)
  {
    LostExactly(config, s);
    CaughtBeforeFront(config, s);
  }

  /** One step that ends a flight during which tasks were dropped, where that does no harm. */
  lemma LeaveDroppedFlight(config: Config, s: Sorter) returns (a: Action, s': Sorter)
    requires Inv(config, s) && !Stuck(s) && !Undropped(s)
    ensures !a.Enqueue? && Run(config, s, [a]) == Some(s')
    ensures Lossless(config, s') && s'.stored == s.stored
  {
    a := if HasLoaded(s) then Complete else ReadFails;
    s' := Apply(config, s, a);
    RunOneMore(config, s, [], a);
    assert [] + [a] == [a];
    StepKeepsInv(config, s, a);
    StepLosesOnlyThen(config, s, a);
  }

  lemma NotStuckDelivers(config: Config, s: Sorter) returns (actions: seq<Action>, end: Sorter)
    requires config.catchupMax >= 1 && Inv(config, s) && !Stuck(s)
    ensures NoEnqueue(actions) && Run(config, s, actions) == Some(end) && end.delivered == s.stored
  {
    if Undropped(s) {
      actions, end := CatchUp(config, s);
    } else {
      var a, s' := LeaveDroppedFlight(config, s);
      var rest;
      rest, end := CatchUp(config, s');
      RunConcat(config, s, [a], s', rest, end);
      actions := [a] + rest;
    }
  }

  // ----- without a catchup queue -----

  /** A sorter whose catchup queue has no capacity delivers nothing, ever. */
  lemma {:induction false} NoCapacityNoDelivery(config: Config, stored: seq<TaskId>, actions: seq<Action>)
    requires config.catchupMax == 0 && Increasing(stored) && After(config, stored, actions).Some?
    ensures After(config, stored, actions).value.delivered == []
    decreases |actions|
  {
    if actions != [] {
      var n := |actions| - 1;
      NoCapacityNoDelivery(config, stored, actions[..n]);
      ReachableInv(config, stored, actions[..n]);
    }
  }

  // ----- what can still be delivered -----

  /** The continuation `more` brings no new task and ends with everything delivered that was stored. */
  ghost predicate DeliversAll(config: Config, stored: seq<TaskId>, actions: seq<Action>, more: seq<Action>)
    requires After(config, stored, actions).Some?
  {
    var end := After(config, stored, actions + more);
    NoEnqueue(more) && end.Some? && end.value.delivered == After(config, stored, actions).value.stored
  }

  lemma InitOfConcat<T>(a: seq<T>, b: seq<T>)
    requires b != []
    ensures (a + b)[..|a + b| - 1] == a + b[..|b| - 1] && (a + b)[|a + b| - 1] == b[|b| - 1]
    ensures b[..|b| - 1] + [b[|b| - 1]] == b
  {
  }

  lemma {:induction false} RunSplit(config: Config, s: Sorter, actions: seq<Action>, s': Sorter, more: seq<Action>,
                                    end: Sorter)
    requires Run(config, s, actions) == Some(s') && Run(config, s, actions + more) == Some(end)
    ensures Run(config, s', more) == Some(end)
    decreases |more|
  {
    if more == [] {
      assert actions + more == actions;
    } else {
      var n := |more| - 1;
      InitOfConcat(actions, more);
      var before := RunLast(config, s, actions + more, end);
      RunSplit(config, s, actions, s', more[..n], before);
      RunOneMore(config, s', more[..n], more[n]);
    }
  }

  lemma StuckNeverDelivers(config: Config, stored: seq<TaskId>, actions: seq<Action>, more: seq<Action>)
    requires Increasing(stored) && After(config, stored, actions).Some?
    requires Stuck(After(config, stored, actions).value)
    ensures !DeliversAll(config, stored, actions, more)
  {
    var s := After(config, stored, actions).value;
    ReachableInv(config, stored, actions);
    var end := After(config, stored, actions + more);
    if NoEnqueue(more) && end.Some? {
      RunSplit(config, Start(stored), actions, s, more, end.value);
      StuckRun(config, s, more, end.value);
      StuckHasNotDelivered(config, end.value);
    }
  }

  lemma StuckHasNotDelivered(config: Config, s: Sorter)
    requires Inv(config, s)
    ensures Stuck(s) ==> s.delivered != s.stored
  {
    if s.delivered == s.stored {
      AllDeliveredNotStuck(config, s);
    }
  }

  lemma ContinuesToDeliverAll(config: Config, stored: seq<TaskId>, actions: seq<Action>) returns (more: seq<Action>)
    requires config.catchupMax >= 1 && Increasing(stored) && After(config, stored, actions).Some?
    requires !Stuck(After(config, stored, actions).value)
    ensures DeliversAll(config, stored, actions, more)
  {
    var s := After(config, stored, actions).value;
    ReachableInv(config, stored, actions);
    var end;
    more, end := NotStuckDelivers(config, s);
    RunConcat(config, Start(stored), actions, s, more, end);
  }

  /** Sorter progress, exactly: after any run everything stored can still be delivered without new tasks if
      and only if nothing is lost and the fetch in flight is not about to lose anything. */
  lemma DeliverableUnlessStuck(config: Config, stored: seq<TaskId>, actions: seq<Action>)
    requires config.catchupMax >= 1 && Increasing(stored) && After(config, stored, actions).Some?
    ensures var s := After(config, stored, actions).value;
            (exists more :: DeliversAll(config, stored, actions, more)) <==> NothingLost(s) && !Doomed(s)
  {
    if Stuck(After(config, stored, actions).value) {
      forall more
        ensures !DeliversAll(config, stored, actions, more)
      {
        StuckNeverDelivers(config, stored, actions, more);
      }
    } else {
      var more := ContinuesToDeliverAll(config, stored, actions);
    }
  }

  /** Without capacity for catching up, only if there is nothing to deliver. */
  lemma DeliverableWithoutCapacity(config: Config, stored: seq<TaskId>, actions: seq<Action>)
    requires config.catchupMax == 0 && Increasing(stored) && After(config, stored, actions).Some?
    ensures (exists more :: DeliversAll(config, stored, actions, more))
            <==> After(config, stored, actions).value.stored == []
  {
    forall more | After(config, stored, actions + more).Some?
      ensures After(config, stored, actions + more).value.delivered == []
    {
      NoCapacityNoDelivery(config, stored, actions + more);
    }
    assert actions + [] == actions;
    if After(config, stored, actions).value.stored == [] {
      assert DeliversAll(config, stored, actions, []);
    }
  }

  /** Every run without an overflow during a flight can be continued, without new tasks, until all that was
      ever stored has been delivered, in order. */
  lemma EverythingCanBeDelivered(config: Config, stored: seq<TaskId>, actions: seq<Action>)
    returns (more: seq<Action>)
    requires config.catchupMax >= 1 && Increasing(stored) && After(config, stored, actions).Some?
    requires NeverDropsInFlight(config, Start(stored), actions)
    ensures DeliversAll(config, stored, actions, more)
  {
    CompleteIfNoDropsInFlight(config, stored, actions);
    NoDropsNoLoss(config, Start(stored), actions);
    more := ContinuesToDeliverAll(config, stored, actions);
  }

  // ----- which configurations can lose tasks -----

  /** The run ends in a state that has lost a task. */
  ghost predicate Loses(config: Config, actions: seq<Action>) {
    var end := After(config, [], actions);
    end.Some? && !NothingLost(end.value)
  }

  /** Without capacity for catching up no fetch is launched; with empty drop batches nothing is dropped. */
  lemma {:induction false} NothingToDropInFlight(config: Config, stored: seq<TaskId>, actions: seq<Action>)
    requires config.catchupMax == 0 || config.dropBatch == 0
    requires Increasing(stored) && After(config, stored, actions).Some?
    ensures NeverDropsInFlight(config, Start(stored), actions)
    decreases |actions|
  {
    if actions != [] {
      var n := |actions| - 1;
      NothingToDropInFlight(config, stored, actions[..n]);
      ReachableInv(config, stored, actions[..n]);
    }
  }

  /** `1, 2, ..., n`. */
  function FirstIds(n: nat): (ids: seq<TaskId>)
    ensures |ids| == n && forall i | 0 <= i < n :: ids[i] == i + 1
  {
    if n == 0 then [] else FirstIds(n - 1) + [n]
  }

  /** `n` tasks are stored and wait in the latest queue; nothing else has happened. */
  function Filled(n: nat): Sorter {
    Start(FirstIds(n)).(buffer := EMPTY_BUFFER.(latest := FirstIds(n)))
  }

  /** The latest queue fills up without an overflow. */
  lemma {:induction false} FillLatest(config: Config, n: nat) returns (actions: seq<Action>)
    requires n <= config.latestMax || n <= 1
    ensures After(config, [], actions) == Some(Filled(n))
  {
    actions := [];
    if n > 0 {
      actions := FillLatest(config, n - 1);
      RunOneMore(config, Start([]), actions, Enqueue(n));
      actions := actions + [Enqueue(n)];
      FilledOneMore(config, n);
    }
  }

  lemma FilledOneMore(config: Config, n: nat)
    requires 0 < n && (n <= config.latestMax || n <= 1)
    ensures Enabled(config, Filled(n - 1), Enqueue(n)) && Apply(config, Filled(n - 1), Enqueue(n)) == Filled(n)
  {
    var b := Filled(n - 1).buffer;
    assert b.latest != [] ==> Last(b.latest) == n - 1;
    assert OverflowCount(config, b) == 0;
    DropNone(b, config.catchupMax);
  }

  /** A fetch for what precedes task 1 is in flight when an overflow drops that task. */
  lemma OverflowDuringFlight(config: Config, n: nat) returns (s: Sorter)
    requires config.catchupMax >= 1 && config.dropBatch >= 1 && n >= 1 && n >= config.latestMax
    ensures Run(config, Filled(n), [Pull, Enqueue(n + 1)]) == Some(s)
    ensures s.fetch.Some? && s.fetch.value.to == Some(1) && s.fetch.value.loaded == None
    ensures s.fetch.value.front == 0 && s.fetch.value.dropped
  {
    var s0 := Filled(n);
    var s1 := Apply(config, s0, Pull);
    RunOneMore(config, s0, [], Pull);
    assert [] + [Pull] == [Pull] && [Pull] + [Enqueue(n + 1)] == [Pull, Enqueue(n + 1)];
    RunOneMore(config, s0, [Pull], Enqueue(n + 1));
    s := Apply(config, s1, Enqueue(n + 1));
  }

  /** Such a fetch comes back empty. */
  lemma ComesBackEmpty(config: Config, s: Sorter)
    requires Inv(config, s) && s.fetch.Some? && s.fetch.value.to.Some? && s.fetch.value.loaded == None
    requires s.fetch.value.front == 0 && s.fetch.value.dropped
    ensures Doomed(Apply(config, s, Read))
  {
    ReadIsSlice(config, s, s.fetch.value, 0);
  }

  lemma DoomedLoses(config: Config, s: Sorter)
    requires Inv(config, s) && Doomed(s)
    ensures Enabled(config, s, Complete) && !NothingLost(Apply(config, s, Complete))
  {
    if NothingLost(s) {
      StepLosesOnlyThen(config, s, Complete);
    } else {
      LossStays(config, s, Complete);
    }
  }

  /** And the task is lost. */
  lemma EmptyFetchLoses(config: Config, s: Sorter) returns (end: Sorter)
    requires Inv(config, s) && s.fetch.Some? && s.fetch.value.to.Some? && s.fetch.value.loaded == None
    requires s.fetch.value.front == 0 && s.fetch.value.dropped
    ensures Run(config, s, [Read, Complete]) == Some(end) && !NothingLost(end)
  {
    ComesBackEmpty(config, s);
    StepKeepsInv(config, s, Read);
    DoomedLoses(config, Apply(config, s, Read));
    end := Apply(config, Apply(config, s, Read), Complete);
    RunOneMore(config, s, [], Read);
    assert [] + [Read] == [Read] && [Read] + [Complete] == [Read, Complete];
    RunOneMore(config, s, [Read], Complete);
  }

  lemma OverflowLoses(config: Config) returns (actions: seq<Action>)
    requires config.catchupMax >= 1 && config.dropBatch >= 1
    ensures Loses(config, actions)
  {
    var n := if config.latestMax == 0 then 1 else config.latestMax;
    actions := FillLatest(config, n);
    var s := OverflowDuringFlight(config, n);
    RunConcat(config, Start([]), actions, Filled(n), [Pull, Enqueue(n + 1)], s);
    actions := actions + [Pull, Enqueue(n + 1)];
    ReachableInv(config, [], actions);
    var end := EmptyFetchLoses(config, s);
    RunConcat(config, Start([]), actions, s, [Read, Complete], end);
    actions := actions + [Read, Complete];
  }

  /** A configuration can lose a task if and only if it has room for catching up and drops anything. */
  lemma LossExactly(config: Config)
    ensures (exists actions :: Loses(config, actions)) <==> config.catchupMax >= 1 && config.dropBatch >= 1
  {
    if config.catchupMax >= 1 && config.dropBatch >= 1 {
      var actions := OverflowLoses(config);
    } else {
      forall actions
        ensures !Loses(config, actions)
      {
        if After(config, [], actions).Some? {
          NothingToDropInFlight(config, [], actions);
          CompleteIfNoDropsInFlight(config, [], actions);
        }
      }
    }
  }
}
