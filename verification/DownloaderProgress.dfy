/** Progress of the downloader: from which states the next checkpoint can still be delivered, and which
    configurations can get stuck. */
module DownloaderProgress {
  import opened ByteStrings
  import opened DownloadCoordinator
  import opened DownloaderRuns

  /** `actions` lead from the start to `s`. */
  ghost predicate Reached(config: Config, start: nat, actions: seq<Action>, s: System) {
    config.Valid() && Run(config, Start(config, start), actions) == Some(s) && Inv(config, start, s)
  }

  lemma Step(config: Config, start: nat, actions: seq<Action>, s: System, a: Action)
    returns (actions': seq<Action>, s': System)
    requires Reached(config, start, actions, s) && Enabled(config, s, a)
    ensures Reached(config, start, actions', s') && actions <= actions'
    ensures s' == Apply(config, s, a)
  {
    actions', s' := actions + [a], Apply(config, s, a);
    assert actions'[..|actions|] == actions;
    StepKeepsInv(config, start, s, a);
  }

  // ----- starvation -----

  /** The coordinator waits for a result although no number is queued, being downloaded or done. */
  ghost predicate Starved(s: System) {
    s.phase == Receiving && Outstanding(s) == multiset{}
  }

  lemma EachIsOutstanding(s: System)
    ensures s.results != [] ==> s.results[0].number in Outstanding(s)
    ensures forall n | n in s.busy :: n in Outstanding(s)
    ensures s.messages != [] && s.messages[0].Download? ==> s.messages[0].number in Outstanding(s)
  {
  }

  /** That situation is final: whatever workers and monitor do, the coordinator waits on. */
  lemma StarvedForever(config: Config, s: System, a: Action)
    requires Starved(s) && Enabled(config, s, a)
    ensures Starved(Apply(config, s, a)) && Apply(config, s, a).delivered == s.delivered
  {
    EachIsOutstanding(s);
    if a == SendShutdown {
      MessagesAppend(s.messages, Shutdown);
    }
  }

  lemma {:induction false} StarvedRun(config: Config, s0: System, actions: seq<Action>, more: seq<Action>)
    requires Run(config, s0, actions).Some? && Starved(Run(config, s0, actions).value)
    requires Run(config, s0, actions + more).Some?
    ensures Starved(Run(config, s0, actions + more).value)
    ensures Run(config, s0, actions + more).value.delivered == Run(config, s0, actions).value.delivered
    decreases |more|
  {
    if more == [] {
      assert actions + more == actions;
    } else {
      var n := |more| - 1;
      assert (actions + more)[..|actions| + n] == actions + more[..n];
      StarvedRun(config, s0, actions, more[..n]);
      StarvedForever(config, Run(config, s0, actions + more[..n]).value, more[n]);
    }
  }

  // ----- delivering the next checkpoint -----

  /** No message waits and no download runs. */
  predicate Quiet(s: System) {
    s.messages == [] && s.busy == multiset{}
  }

  /** What the workers do on their own leaves the coordinator and the monitor where they are. */
  ghost predicate OnlyResultsGrew(s: System, s': System) {
    && s'.phase == s.phase && s'.books == s.books && s'.delivered == s.delivered && s.results <= s'.results
    && s'.monitor == s.monitor && s'.workerCount == s.workerCount
  }

  /** A step of some worker is enabled unless all is quiet. */
  lemma WorkerStep(config: Config, start: nat, s: System) returns (a: Action)
    requires config.Valid() && Inv(config, start, s) && !Quiet(s)
    ensures Enabled(config, s, a)
    ensures var s' := Apply(config, s, a);
            OnlyResultsGrew(s, s') && 2 * |s'.messages| + |s'.busy| < 2 * |s.messages| + |s.busy|
  {
    if s.busy != multiset{} {
      var n :| n in s.busy;
      ResultHasRoom(config, s, n);
      a := Finish(n, 0);
    } else {
      a := if s.messages[0].Download? then TakeDownload else TakeShutdown;
    }
  }

  /** The workers can empty the message channel and finish all downloads. */
  lemma {:induction false} Settle(config: Config, start: nat, actions: seq<Action>, s: System)
    returns (actions': seq<Action>, s': System)
    requires Reached(config, start, actions, s)
    ensures Reached(config, start, actions', s') && actions <= actions'
    ensures Quiet(s') && OnlyResultsGrew(s, s')
    decreases 2 * |s.messages| + |s.busy|
  {
    actions', s' := actions, s;
    if !Quiet(s) {
      var a := WorkerStep(config, start, s);
      actions', s' := Step(config, start, actions, s, a);
      actions', s' := Settle(config, start, actions', s');
    }
  }

  /** The coordinator goes on to wait, with something in flight, and has received nothing. */
  ghost predicate ReadyToReceive(s: System, s': System) {
    && s'.phase == Receiving && s'.books.inFlight != {}
    && s'.books.nextExpected == s.books.nextExpected && s'.delivered == s.delivered && s.results <= s'.results
  }

  lemma IssueGrowsFlight(config: Config, start: nat, s: System)
    requires Inv(config, start, s) && Enabled(config, s, Issue)
    ensures |Apply(config, s, Issue).books.inFlight| == |s.books.inFlight| + 1
  {
  }

  lemma {:induction false} FillUp(config: Config, start: nat, actions: seq<Action>, s: System)
    returns (actions': seq<Action>, s': System)
    requires Reached(config, start, actions, s) && s.phase.Filling?
    requires s.books.inFlight != {} || s.messages == []
    ensures Reached(config, start, actions', s') && actions <= actions'
    ensures ReadyToReceive(s, s')
    decreases s.phase.limit - |s.books.inFlight|
  {
    LimitIsBounded(config, config.maxWorkers);
    if Enabled(config, s, Issue) {
      IssueGrowsFlight(config, start, s);
      actions', s' := Step(config, start, actions, s, Issue);
      actions', s' := FillUp(config, start, actions', s');
    } else {
      actions', s' := Step(config, start, actions, s, StopFilling);
    }
  }

  lemma ToReceiving(config: Config, start: nat, actions: seq<Action>, s: System)
    returns (actions': seq<Action>, s': System)
    requires Reached(config, start, actions, s) && Quiet(s) && !Starved(s)
    ensures Reached(config, start, actions', s') && actions <= actions'
    ensures Quiet(s') && ReadyToReceive(s, s')
  {
    actions', s' := actions, s;
    if s.phase == Receiving {
      assert multiset(s.books.inFlight) != multiset{};
      return;
    }
    if s.phase == AtHead {
      actions', s' := Step(config, start, actions', s', LoadWorkerCount);
    }
    actions', s' := FillUp(config, start, actions', s');
    actions', s' := Settle(config, start, actions', s');
  }

  /** A waiting coordinator gets to the next expected entry, wherever it is in the result channel. */
  lemma {:induction false} DeliverAt(config: Config, start: nat, actions: seq<Action>, s: System, p: nat)
    returns (actions': seq<Action>, s': System)
    requires Reached(config, start, actions, s) && Quiet(s) && s.phase == Receiving
    requires p < |s.results| && s.results[p].number == s.books.nextExpected
    ensures Reached(config, start, actions', s') && actions <= actions'
    ensures |s'.delivered| > |s.delivered|
    decreases p
  {
    actions', s' := Step(config, start, actions, s, Receive);
    if s.results[0].number != s.books.nextExpected {
      assert s'.delivered == s.delivered;
      assert s'.results[p - 1] == s.results[p];
      actions', s' := ToReceiving(config, start, actions', s');
      actions', s' := DeliverAt(config, start, actions', s', p - 1);
    }
  }

  lemma {:induction false} NumberHasPosition(entries: seq<Entry>, n: nat) returns (p: nat)
    requires n in Numbers(entries)
    ensures p < |entries| && entries[p].number == n
  {
    if entries[0].number == n {
      p := 0;
    } else {
      p := NumberHasPosition(entries[1..], n);
      p := p + 1;
    }
  }

  lemma NotStarvedDelivers(config: Config, start: nat, actions: seq<Action>, s: System)
    returns (actions': seq<Action>, s': System)
    requires Reached(config, start, actions, s) && !Starved(s)
    ensures Reached(config, start, actions', s') && actions <= actions'
    ensures |s'.delivered| > |s.delivered|
  {
    actions', s' := Settle(config, start, actions, s);
    assert !Starved(s');
    actions', s' := ToReceiving(config, start, actions', s');
    NextIsInFlightOrUnissued(s'.books);
    assert s'.books.nextExpected in multiset(s'.books.inFlight);
    var p := NumberHasPosition(s'.results, s'.books.nextExpected);
    actions', s' := DeliverAt(config, start, actions', s', p);
  }

  /** The run goes on to deliver the checkpoint that is expected next after `actions`. */
  ghost predicate DeliversNext(config: Config, start: nat, actions: seq<Action>, more: seq<Action>)
    requires Run(config, Start(config, start), actions).Some?
  {
    var s := Run(config, Start(config, start), actions).value;
    var after := Run(config, Start(config, start), actions + more);
    && after.Some? && |s.delivered| < |after.value.delivered|
    && after.value.delivered[|s.delivered|].number == s.books.nextExpected
  }

  lemma ContinuesToDeliver(config: Config, start: nat, actions: seq<Action>) returns (more: seq<Action>)
    requires config.Valid() && Run(config, Start(config, start), actions).Some?
    requires !Starved(Run(config, Start(config, start), actions).value)
    ensures DeliversNext(config, start, actions, more)
  {
    ReachableInv(config, start, actions);
    var s := Run(config, Start(config, start), actions).value;
    var actions', s' := NotStarvedDelivers(config, start, actions, s);
    more := actions'[|actions|..];
    assert actions + more == actions';
    InvDelivers(start, s', |s.delivered|);
  }

  lemma StarvedNeverDelivers(config: Config, start: nat, actions: seq<Action>, more: seq<Action>)
    requires Run(config, Start(config, start), actions).Some?
    requires Starved(Run(config, Start(config, start), actions).value)
    ensures !DeliversNext(config, start, actions, more)
  {
    if Run(config, Start(config, start), actions + more).Some? {
      StarvedRun(config, Start(config, start), actions, more);
    }
  }

  /** Downloader progress, exactly: after every run, the next expected checkpoint can still be delivered
      if and only if the coordinator is not starved. */
  lemma DeliverableUnlessStarved(config: Config, start: nat, actions: seq<Action>)
    requires config.Valid() && Run(config, Start(config, start), actions).Some?
    ensures !Starved(Run(config, Start(config, start), actions).value)
            <==> exists more :: DeliversNext(config, start, actions, more)
  {
    if Starved(Run(config, Start(config, start), actions).value) {
      forall more
        ensures !DeliversNext(config, start, actions, more)
      {
        StarvedNeverDelivers(config, start, actions, more);
      }
    } else {
      var more := ContinuesToDeliver(config, start, actions);
    }
  }

  // ----- which configurations can starve -----

  /** With a pool of fixed size no shutdown is ever sent, and the coordinator waits only for something. */
  ghost predicate FixedPoolInv(s: System) {
    Shutdowns(s.messages) == 0 && (s.phase == Receiving ==> s.books.inFlight != {})
  }

  lemma {:induction false} MessagesSplit(messages: seq<Message>)
    ensures |messages| == |Queued(messages)| + Shutdowns(messages)
  {
    if messages != [] {
      MessagesSplit(messages[1..]);
    }
  }

  /** The coordinator starts waiting for nothing exactly when nothing is in flight and every slot of the
      message channel holds a shutdown. */
  lemma StarvesBehindShutdowns(config: Config, start: nat, actions: seq<Action>)
    requires config.Valid() && Run(config, Start(config, start), actions).Some?
    requires Run(config, Start(config, start), actions).value.phase.Filling?
    ensures var s := Run(config, Start(config, start), actions).value;
            Enabled(config, s, StopFilling) && Starved(Apply(config, s, StopFilling))
            <==> s.books.inFlight == {} && Shutdowns(s.messages) >= config.MessageQueueSize()
  {
    ReachableInv(config, start, actions);
    StopFillingStarves(config, start, Run(config, Start(config, start), actions).value);
  }

  lemma StopFillingStarves(config: Config, start: nat, s: System)
    requires Inv(config, start, s) && s.phase.Filling?
    ensures Enabled(config, s, StopFilling) && Starved(Apply(config, s, StopFilling))
            <==> s.books.inFlight == {} && Shutdowns(s.messages) >= config.MessageQueueSize()
  {
    MessagesSplit(s.messages);
    if s.books.inFlight == {} {
      assert Queued(s.messages) <= Outstanding(s);
    } else {
      var k :| k in s.books.inFlight;
      assert k in Outstanding(s);
    }
  }

  /** At some point of the run the coordinator stopped filling with nothing in flight and shutdowns in every
      slot of the message channel. */
  ghost predicate StoppedBehindShutdowns(config: Config, start: nat, actions: seq<Action>)
    decreases |actions|
  {
    actions != [] &&
    var init, a := actions[..|actions| - 1], actions[|actions| - 1];
    var before := Run(config, Start(config, start), init);
    || StoppedBehindShutdowns(config, start, init)
    || (&& a == StopFilling && before.Some? && before.value.books.inFlight == {}
        && Shutdowns(before.value.messages) >= config.MessageQueueSize())
  }

  lemma StarvesByStopping(config: Config, start: nat, s: System, a: Action)
    requires config.Valid() && Inv(config, start, s) && Enabled(config, s, a) && !Starved(s)
    ensures Starved(Apply(config, s, a)) <==>
            a == StopFilling && s.books.inFlight == {} && Shutdowns(s.messages) >= config.MessageQueueSize()
  {
    if a == StopFilling {
      StopFillingStarves(config, start, s);
    } else {
      StepKeepsInv(config, start, s, a);
    }
  }

  /** A run starves the coordinator if and only if it stopped filling behind a channel full of shutdowns. */
  lemma {:induction false} StarvedRunsExactly(config: Config, start: nat, actions: seq<Action>)
    requires config.Valid() && Run(config, Start(config, start), actions).Some?
    ensures Starved(Run(config, Start(config, start), actions).value)
            <==> StoppedBehindShutdowns(config, start, actions)
    decreases |actions|
  {
    if actions != [] {
      var n := |actions| - 1;
      StarvedRunsExactly(config, start, actions[..n]);
      ReachableInv(config, start, actions[..n]);
      var s := Run(config, Start(config, start), actions[..n]).value;
      if Starved(s) {
        StarvedForever(config, s, actions[n]);
      } else {
        StarvesByStopping(config, start, s, actions[n]);
      }
    }
  }

  /** Idle workers take shutdowns soon enough that these never fill the message channel. */
  ghost predicate ShutdownsTakenInTime(config: Config, start: nat, actions: seq<Action>)
    decreases |actions|
  {
    var end := Run(config, Start(config, start), actions);
    && (end.Some? ==> Shutdowns(end.value.messages) < config.MessageQueueSize())
    && (actions != [] ==> ShutdownsTakenInTime(config, start, actions[..|actions| - 1]))
  }

  /** Then the coordinator is never starved, whatever the pool does. */
  lemma {:induction false} PromptWorkersPreventStarvation(config: Config, start: nat, actions: seq<Action>)
    requires config.Valid() && Run(config, Start(config, start), actions).Some?
    requires ShutdownsTakenInTime(config, start, actions)
    ensures !Starved(Run(config, Start(config, start), actions).value)
    decreases |actions|
  {
    StarvedRunsExactly(config, start, actions);
    if actions != [] {
      var n := |actions| - 1;
      PromptWorkersPreventStarvation(config, start, actions[..n]);
      StarvedRunsExactly(config, start, actions[..n]);
    }
  }

  lemma FixedPoolStep(config: Config, start: nat, s: System, a: Action)
    requires config.Valid() && config.minWorkers == config.maxWorkers
    requires Inv(config, start, s) && FixedPoolInv(s) && Enabled(config, s, a)
    ensures FixedPoolInv(Apply(config, s, a))
  {
    match a
    case Issue => MessagesAppend(s.messages, Download(s.books.sequenceNumber));
    case StopFilling =>
      StopFillingStarves(config, start, s);
      LimitIsBounded(config, config.maxWorkers);
    case _ =>
  }

  lemma {:induction false} FixedPoolRun(config: Config, start: nat, actions: seq<Action>)
    requires config.Valid() && config.minWorkers == config.maxWorkers
    requires Run(config, Start(config, start), actions).Some?
    ensures FixedPoolInv(Run(config, Start(config, start), actions).value)
    decreases |actions|
  {
    if actions != [] {
      var n := |actions| - 1;
      FixedPoolRun(config, start, actions[..n]);
      ReachableInv(config, start, actions[..n]);
      FixedPoolStep(config, start, Run(config, Start(config, start), actions[..n]).value, actions[n]);
    }
  }

  /** The monitor adds a worker. */
  lemma Grow(config: Config, start: nat, actions: seq<Action>, s: System)
    returns (actions': seq<Action>, s': System)
    requires Reached(config, start, actions, s) && s.monitor == Idle && s.workerCount < config.maxWorkers
    ensures Reached(config, start, actions', s')
    ensures s' == s.(idle := s.idle + 1, workerCount := s.workerCount + 1)
  {
    actions', s' := Step(config, start, actions, s, ScaleUp);
    actions', s' := Step(config, start, actions', s', Spawn);
    actions', s' := Step(config, start, actions', s', CountUp);
    actions', s' := Step(config, start, actions', s', AdjustmentDone);
  }

  /** The monitor sends a shutdown that no worker has taken yet. */
  lemma Shrink(config: Config, start: nat, actions: seq<Action>, s: System)
    returns (actions': seq<Action>, s': System)
    requires Reached(config, start, actions, s) && s.monitor == Idle && s.workerCount > config.minWorkers
    requires |s.messages| < config.MessageQueueSize()
    ensures Reached(config, start, actions', s')
    ensures s' == s.(messages := s.messages + [Shutdown], workerCount := s.workerCount - 1)
  {
    actions', s' := Step(config, start, actions, s, ScaleDown);
    actions', s' := Step(config, start, actions', s', SendShutdown);
    actions', s' := Step(config, start, actions', s', CountDown);
    actions', s' := Step(config, start, actions', s', AdjustmentDone);
  }

  /** The coordinator has not begun, and the message channel holds only shutdowns. */
  ghost predicate Shutting(s: System) {
    && s.phase == AtHead && s.monitor == Idle && s.books.inFlight == {}
    && Shutdowns(s.messages) == |s.messages|
  }

  /** Shrinking and growing in turn fills the channel with shutdowns for idle workers. */
  lemma {:induction false} FillWithShutdowns(config: Config, start: nat, actions: seq<Action>, s: System)
    returns (actions': seq<Action>, s': System)
    requires Reached(config, start, actions, s) && s.workerCount > config.minWorkers
    requires Shutting(s) && |s.messages| <= config.MessageQueueSize()
    ensures Reached(config, start, actions', s')
    ensures Shutting(s') && |s'.messages| == config.MessageQueueSize()
    decreases config.MessageQueueSize() - |s.messages|
  {
    actions', s' := actions, s;
    if |s.messages| < config.MessageQueueSize() {
      MessagesAppend(s.messages, Shutdown);
      actions', s' := Shrink(config, start, actions', s');
      actions', s' := Grow(config, start, actions', s');
      actions', s' := FillWithShutdowns(config, start, actions', s');
    }
  }

  lemma ScalingPoolStarves(config: Config, start: nat) returns (actions: seq<Action>, s: System)
    requires config.Valid() && config.minWorkers < config.maxWorkers
    ensures Reached(config, start, actions, s) && Starved(s)
  {
    actions, s := [], Start(config, start);
    StartInv(config, start);
    if config.initialWorkers == config.minWorkers {
      actions, s := Grow(config, start, actions, s);
    }
    actions, s := FillWithShutdowns(config, start, actions, s);
    actions, s := Step(config, start, actions, s, LoadWorkerCount);
    StopFillingStarves(config, start, s);
    actions, s := Step(config, start, actions, s, StopFilling);
  }

  /** The run ends with a starved coordinator. */
  ghost predicate Starves(config: Config, start: nat, actions: seq<Action>) {
    var end := Run(config, Start(config, start), actions);
    end.Some? && Starved(end.value)
  }

  /** A configuration can starve its coordinator if and only if its pool can change size. */
  lemma StarvationExactly(config: Config, start: nat)
    requires config.Valid()
    ensures (exists actions :: Starves(config, start, actions)) <==> config.minWorkers < config.maxWorkers
  {
    if config.minWorkers < config.maxWorkers {
      var actions, s := ScalingPoolStarves(config, start);
      assert Starves(config, start, actions);
    } else {
      forall actions
        ensures !Starves(config, start, actions)
      {
        if Run(config, Start(config, start), actions).Some? {
          FixedPoolNeverStarves(config, start, actions);
        }
      }
    }
  }

  lemma FixedPoolNeverStarves(config: Config, start: nat, actions: seq<Action>)
    requires config.Valid() && config.minWorkers == config.maxWorkers
    requires Run(config, Start(config, start), actions).Some?
    ensures !Starved(Run(config, Start(config, start), actions).value)
  {
    FixedPoolRun(config, start, actions);
    ReachableInv(config, start, actions);
    var s := Run(config, Start(config, start), actions).value;
    assert s.books.inFlight != {} ==> multiset(s.books.inFlight) != multiset{};
  }

  /** With a pool of fixed size every run can go on to deliver the next checkpoint. */
  lemma FixedPoolAlwaysDelivers(config: Config, start: nat, actions: seq<Action>)
    requires config.Valid() && config.minWorkers == config.maxWorkers
    requires Run(config, Start(config, start), actions).Some?
    ensures exists more :: DeliversNext(config, start, actions, more)
  {
    FixedPoolNeverStarves(config, start, actions);
    DeliverableUnlessStarved(config, start, actions);
  }
}
