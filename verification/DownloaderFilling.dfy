/** How far the downloader's coordinator fills up before it waits, and how full its channels get. */
module DownloaderFilling {
  import opened ByteStrings
  import opened DownloadCoordinator
  import opened DownloaderRuns
  import opened DownloaderProgress

  // ----- the in-flight limit -----

  /** The worker count the coordinator saw when it last began to fill up. */
  function SeenWorkers(config: Config, start: nat, actions: seq<Action>): nat
    decreases |actions|
  {
    if actions == [] then 0
    else
      var init, a := actions[..|actions| - 1], actions[|actions| - 1];
      var before := Run(config, Start(config, start), init);
      if a == LoadWorkerCount && before.Some? then before.value.workerCount else SeenWorkers(config, start, init)
  }

  /** The message channel was full when the coordinator last stopped filling. */
  ghost predicate StoppedAtFullChannel(config: Config, start: nat, actions: seq<Action>)
    decreases |actions|
  {
    actions != [] &&
    var init, a := actions[..|actions| - 1], actions[|actions| - 1];
    var before := Run(config, Start(config, start), init);
    if a == StopFilling && before.Some? then |before.value.messages| >= 2 * config.maxWorkers * config.bufferFactor
    else StoppedAtFullChannel(config, start, init)
  }

  lemma SameProduct(config: Config)
    ensures config.MessageQueueSize() == 2 * config.maxWorkers * config.bufferFactor
    ensures config.CheckpointQueueSize() == 2 * config.maxWorkers * config.bufferFactor
  {
    assert config.maxWorkers * config.bufferFactor * 2 == 2 * (config.maxWorkers * config.bufferFactor);
    assert 2 * config.maxWorkers * config.bufferFactor == 2 * (config.maxWorkers * config.bufferFactor);
  }

  predicate FilledTo(config: Config, s: System, workers: nat, fullChannel: bool) {
    && (s.phase.Filling? ==> s.phase.limit == workers * config.bufferFactor)
    && (s.phase == Receiving ==> |s.books.inFlight| >= workers * config.bufferFactor || fullChannel)
  }

  lemma FillStep(config: Config, s: System, a: Action, workers: nat, workers': nat, full: bool, full': bool)
    requires FilledTo(config, s, workers, full) && Enabled(config, s, a)
    requires workers' == if a == LoadWorkerCount then s.workerCount else workers
    requires full' == if a == StopFilling then |s.messages| >= 2 * config.maxWorkers * config.bufferFactor else full
    ensures FilledTo(config, Apply(config, s, a), workers', full')
  {
    SameProduct(config);
  }

  lemma {:induction false} FilledUp(config: Config, start: nat, actions: seq<Action>)
    requires Run(config, Start(config, start), actions).Some?
    ensures FilledTo(config, Run(config, Start(config, start), actions).value, SeenWorkers(config, start, actions),
                     StoppedAtFullChannel(config, start, actions))
    decreases |actions|
  {
    if actions != [] {
      var init, a := actions[..|actions| - 1], actions[|actions| - 1];
      FilledUp(config, start, init);
      FillStep(config, Run(config, Start(config, start), init).value, a,
               SeenWorkers(config, start, init), SeenWorkers(config, start, actions),
               StoppedAtFullChannel(config, start, init), StoppedAtFullChannel(config, start, actions));
    }
  }

  /** The coordinator waits only once it has put in flight as many downloads as the workers it saw times the
      buffer factor, unless the message channel was full; and it issues none beyond that. */
  lemma FillsUpBeforeWaiting(config: Config, start: nat, actions: seq<Action>)
    requires config.Valid() && Run(config, Start(config, start), actions).Some?
    ensures var s := Run(config, Start(config, start), actions).value;
            var limit := SeenWorkers(config, start, actions) * config.bufferFactor;
            && (s.phase.Filling? ==> s.phase.limit == limit)
            && (Enabled(config, s, Issue) ==> |s.books.inFlight| < limit)
            && (s.phase == Receiving ==> |s.books.inFlight| >= limit || StoppedAtFullChannel(config, start, actions))
  {
    FilledUp(config, start, actions);
  }

  // ----- a pool of fixed size -----

  lemma {:induction false} FixedPoolSize(config: Config, start: nat, actions: seq<Action>)
    requires config.Valid() && config.minWorkers == config.maxWorkers
    requires Run(config, Start(config, start), actions).Some?
    ensures var s := Run(config, Start(config, start), actions).value;
            && s.workerCount == config.maxWorkers
            && (s.phase != AtHead ==> SeenWorkers(config, start, actions) == config.maxWorkers)
    decreases |actions|
  {
    ReachableInv(config, start, actions);
    if actions != [] {
      FixedPoolSize(config, start, actions[..|actions| - 1]);
    }
  }

  lemma FixedPoolChannelHasRoom(config: Config, start: nat, s: System)
    requires config.Valid() && Inv(config, start, s) && FixedPoolInv(s)
    ensures |s.messages| < 2 * config.maxWorkers * config.bufferFactor
  {
    MessagesSplit(s.messages);
    NumbersSize(s.results);
    SizesAddUp(Queued(s.messages), s.busy, Numbers(s.results), s.books.inFlight);
    LimitIsBounded(config, config.maxWorkers);
    SameProduct(config);
    assert config.MessageQueueSize() == 2 * (config.maxWorkers * config.bufferFactor);
  }

  lemma {:induction false} FixedPoolNeverStopsAtFullChannel(config: Config, start: nat, actions: seq<Action>)
    requires config.Valid() && config.minWorkers == config.maxWorkers
    requires Run(config, Start(config, start), actions).Some?
    ensures !StoppedAtFullChannel(config, start, actions)
    decreases |actions|
  {
    if actions != [] {
      var init := actions[..|actions| - 1];
      FixedPoolNeverStopsAtFullChannel(config, start, init);
      FixedPoolRun(config, start, init);
      ReachableInv(config, start, init);
      FixedPoolChannelHasRoom(config, start, Run(config, Start(config, start), init).value);
    }
  }

  /** With a pool of fixed size the coordinator always waits with exactly `max_workers * buffer_factor`
      downloads in flight. */
  lemma FixedPoolWaitsFull(config: Config, start: nat, actions: seq<Action>)
    requires config.Valid() && config.minWorkers == config.maxWorkers
    requires Run(config, Start(config, start), actions).Some?
    requires Run(config, Start(config, start), actions).value.phase == Receiving
    ensures |Run(config, Start(config, start), actions).value.books.inFlight| == config.maxWorkers * config.bufferFactor
  {
    ReachableInv(config, start, actions);
    FillsUpBeforeWaiting(config, start, actions);
    FixedPoolSize(config, start, actions);
    FixedPoolNeverStopsAtFullChannel(config, start, actions);
  }

  // ----- channels -----

  /** Over every run the message channel stays within its capacity. */
  lemma {:induction false} MessagesStayBounded(config: Config, start: nat, actions: seq<Action>)
    requires Run(config, Start(config, start), actions).Some?
    ensures |Run(config, Start(config, start), actions).value.messages| <= config.MessageQueueSize()
    decreases |actions|
  {
    if actions != [] {
      MessagesStayBounded(config, start, actions[..|actions| - 1]);
    }
  }

  /** Over every run downloads use at most half of either channel, and a finished worker finds room for its
      result. */
  lemma ChannelsStayBounded(config: Config, start: nat, actions: seq<Action>)
    requires config.Valid() && Run(config, Start(config, start), actions).Some?
    ensures var s := Run(config, Start(config, start), actions).value;
            && |s.messages| <= 2 * config.maxWorkers * config.bufferFactor
            && |Queued(s.messages)| <= config.maxWorkers * config.bufferFactor
            && |s.results| <= config.maxWorkers * config.bufferFactor
            && (s.busy != multiset{} ==> 2 * |s.results| < 2 * config.maxWorkers * config.bufferFactor)
            && config.MessageQueueSize() == config.CheckpointQueueSize() == 2 * config.maxWorkers * config.bufferFactor
  {
    ReachableInv(config, start, actions);
    var s := Run(config, Start(config, start), actions).value;
    MessagesStayBounded(config, start, actions);
    SameProduct(config);
    FlightUse(config, s);
  }

  lemma FlightUse(config: Config, s: System)
    requires FlightInv(config, s)
    ensures |Queued(s.messages)| <= config.maxWorkers * config.bufferFactor
    ensures |s.results| <= config.maxWorkers * config.bufferFactor
    ensures s.busy != multiset{} ==> 2 * |s.results| < 2 * config.maxWorkers * config.bufferFactor
  {
    NumbersSize(s.results);
    SizesAddUp(Queued(s.messages), s.busy, Numbers(s.results), s.books.inFlight);
    Doubled(|s.results|, config.maxWorkers, config.bufferFactor);
  }

  lemma Doubled(n: nat, a: nat, b: nat)
    ensures n < a * b <==> 2 * n < 2 * a * b
  {
    assert 2 * a * b == 2 * (a * b);
  }

  // ----- the pool -----

  predicate Scales(a: Action) {
    a == ScaleUp || a == ScaleDown || a == ScaleToAverage
  }

  lemma UnscaledStep(config: Config, s: System, a: Action)
    requires s.monitor == Idle && Enabled(config, s, a) && !Scales(a)
    ensures Apply(config, s, a).monitor == Idle && Apply(config, s, a).workerCount == s.workerCount
  {
  }

  /** Until the monitor adjusts it, the pool has its initial size. */
  lemma {:induction false} InitialPool(config: Config, start: nat, actions: seq<Action>)
    requires Run(config, Start(config, start), actions).Some?
    requires forall i | 0 <= i < |actions| :: !Scales(actions[i])
    ensures var s := Run(config, Start(config, start), actions).value;
            s.workerCount == config.initialWorkers && s.monitor == Idle
    decreases |actions|
  {
    if actions != [] {
      var n := |actions| - 1;
      InitialPool(config, start, actions[..n]);
      UnscaledStep(config, Run(config, Start(config, start), actions[..n]).value, actions[n]);
    }
  }

  /** Scaling up aims one higher, scaling down one lower, and the third kind at the middle of the range; an
      adjustment ends only at its target. */
  lemma TargetsExactly(config: Config, s: System, a: Action)
    requires config.Valid() && MonitorInv(config, s) && Enabled(config, s, a)
    ensures var s' := Apply(config, s, a);
            && (a == ScaleUp ==> s'.monitor == Adjusting(s.workerCount + 1))
            && (a == ScaleDown ==> s.workerCount > 0 && s'.monitor == Adjusting(s.workerCount - 1))
            && (a == ScaleToAverage ==>
                  && s'.monitor.Adjusting?
                  && 2 * s'.monitor.target <= config.minWorkers + config.maxWorkers < 2 * s'.monitor.target + 2)
            && (!s.monitor.Idle? && s'.monitor.Idle? ==> s'.workerCount == s.monitor.target)
            && (!s.monitor.Idle? && !s'.monitor.Idle? ==> s'.monitor.target == s.monitor.target)
  {
  }

  /** How far the pool is from the monitor's target. */
  function Distance(s: System): nat
    requires !s.monitor.Idle?
  {
    if s.workerCount < s.monitor.target then s.monitor.target - s.workerCount else s.workerCount - s.monitor.target
  }

  /** The monitor's next step, with room in the message channel, brings the pool closer to the target. */
  lemma MonitorStep(config: Config, s: System) returns (a: Action)
    requires config.Valid() && MonitorInv(config, s) && !s.monitor.Idle? && Distance(s) > 0
    requires s.monitor.Adjusting? && s.workerCount > s.monitor.target ==> s.messages == []
    ensures Enabled(config, s, a)
    ensures var s' := Apply(config, s, a);
            && !s'.monitor.Idle? && s'.monitor.target == s.monitor.target
            && (if s.monitor.Adjusting? then Distance(s') == Distance(s) && !s'.monitor.Adjusting?
                else Distance(s') < Distance(s))
  {
    a := if s.monitor.SentShutdown? then CountDown
         else if s.monitor.Spawned? then CountUp
         else if s.workerCount < s.monitor.target then Spawn
         else SendShutdown;
  }

  lemma AdjustStep(config: Config, start: nat, actions: seq<Action>, s: System)
    returns (actions': seq<Action>, s': System)
    requires Reached(config, start, actions, s) && !s.monitor.Idle? && Distance(s) > 0
    ensures Reached(config, start, actions', s') && actions <= actions'
    ensures !s'.monitor.Idle? && s'.monitor.target == s.monitor.target
    ensures if s.monitor.Adjusting? then Distance(s') == Distance(s) && !s'.monitor.Adjusting?
            else Distance(s') < Distance(s)
  {
    var settled: seq<Action>, quiet: System;
    settled, quiet := Settle(config, start, actions, s);
    var a := MonitorStep(config, quiet);
    actions', s' := Step(config, start, settled, quiet, a);
  }

  /** Every adjustment can be completed: the workers make room for its shutdowns. */
  lemma {:induction false} Adjust(config: Config, start: nat, actions: seq<Action>, s: System)
    returns (actions': seq<Action>, s': System)
    requires Reached(config, start, actions, s) && !s.monitor.Idle?
    ensures Reached(config, start, actions', s') && actions <= actions'
    ensures s'.monitor == Idle && s'.workerCount == s.monitor.target
    decreases Distance(s), if s.monitor.Adjusting? then 1 else 0
  {
    if Distance(s) == 0 {
      actions', s' := Step(config, start, actions, s, AdjustmentDone);
    } else {
      actions', s' := AdjustStep(config, start, actions, s);
      actions', s' := Adjust(config, start, actions', s');
    }
  }

  /** After every run the monitor can bring the pool to the middle of its range. */
  lemma PoolCanReachAverage(config: Config, start: nat, actions: seq<Action>)
    returns (actions': seq<Action>, s': System)
    requires config.Valid() && Run(config, Start(config, start), actions).Some?
    ensures actions <= actions' && Run(config, Start(config, start), actions') == Some(s')
    ensures s'.monitor == Idle && 2 * s'.workerCount <= config.minWorkers + config.maxWorkers < 2 * s'.workerCount + 2
  {
    ReachableInv(config, start, actions);
    actions', s' := actions, Run(config, Start(config, start), actions).value;
    if !s'.monitor.Idle? {
      actions', s' := Adjust(config, start, actions', s');
    }
    actions', s' := Step(config, start, actions', s', ScaleToAverage);
    actions', s' := Adjust(config, start, actions', s');
  }

  // ----- order of work -----

  predicate QueuedAbove(messages: seq<Message>, n: int) {
    forall i | 0 <= i < |messages| && messages[i].Download? :: n < messages[i].number
  }

  predicate QueuedBelow(messages: seq<Message>, n: int) {
    forall i | 0 <= i < |messages| && messages[i].Download? :: messages[i].number < n
  }

  predicate InOrder(messages: seq<Message>) {
    forall i, j | 0 <= i < j < |messages| && messages[i].Download? && messages[j].Download? ::
      messages[i].number < messages[j].number
  }

  ghost predicate TakenBelow(messages: seq<Message>, taken: multiset<nat>) {
    forall n | n in taken :: QueuedAbove(messages, n)
  }

  /** The queue holds downloads in the order of their numbers, above everything that was taken from it. */
  ghost predicate QueueInOrder(s: System) {
    && InOrder(s.messages) && QueuedBelow(s.messages, s.books.sequenceNumber)
    && TakenBelow(s.messages, s.busy + Numbers(s.results))
  }

  lemma AppendKeepsOrder(messages: seq<Message>, taken: multiset<nat>, m: Message)
    requires InOrder(messages) && TakenBelow(messages, taken)
    requires m.Download? ==> QueuedBelow(messages, m.number) && forall n | n in taken :: n < m.number
    ensures InOrder(messages + [m]) && TakenBelow(messages + [m], taken)
  {
  }

  lemma TakeKeepsOrder(messages: seq<Message>, taken: multiset<nat>, bound: int)
    requires messages != [] && InOrder(messages) && TakenBelow(messages, taken) && QueuedBelow(messages, bound)
    ensures InOrder(messages[1..]) && TakenBelow(messages[1..], taken) && QueuedBelow(messages[1..], bound)
    ensures messages[0].Download? ==> TakenBelow(messages[1..], taken + multiset{messages[0].number})
  {
  }

  function Taken(s: System): multiset<nat> {
    s.busy + Numbers(s.results)
  }

  lemma IssueKeepsQueueOrder(config: Config, start: nat, s: System)
    requires Inv(config, start, s) && QueueInOrder(s) && Enabled(config, s, Issue)
    ensures QueueInOrder(Apply(config, s, Issue))
  {
    forall n | n in Taken(s)
      ensures n < s.books.sequenceNumber
    {
      OutstandingIsIssued(config, start, s, n);
    }
    AppendKeepsOrder(s.messages, Taken(s), Download(s.books.sequenceNumber));
  }

  lemma TakeDownloadKeepsQueueOrder(config: Config, s: System)
    requires QueueInOrder(s) && Enabled(config, s, TakeDownload)
    ensures QueueInOrder(Apply(config, s, TakeDownload))
  {
    var n := s.messages[0].number;
    TakeKeepsOrder(s.messages, Taken(s), s.books.sequenceNumber);
    assert (s.busy + multiset{n}) + Numbers(s.results) == Taken(s) + multiset{n};
  }

  lemma FinishKeepsQueueOrder(config: Config, s: System, n: nat, data: int)
    requires QueueInOrder(s) && Enabled(config, s, Finish(n, data))
    ensures QueueInOrder(Apply(config, s, Finish(n, data)))
  {
    NumbersAppend(s.results, Entry(n, data));
    MoveOne(multiset{}, s.busy, Numbers(s.results), n);
    assert multiset{} + s.busy + Numbers(s.results) == Taken(s);
  }

  lemma StepKeepsQueueOrder(config: Config, start: nat, s: System, a: Action)
    requires Inv(config, start, s) && QueueInOrder(s) && Enabled(config, s, a)
    ensures QueueInOrder(Apply(config, s, a))
  {
    match a
    case Issue => IssueKeepsQueueOrder(config, start, s);
    case SendShutdown => AppendKeepsOrder(s.messages, Taken(s), Shutdown);
    case TakeDownload => TakeDownloadKeepsQueueOrder(config, s);
    case TakeShutdown => TakeKeepsOrder(s.messages, Taken(s), s.books.sequenceNumber);
    case Finish(n, data) => FinishKeepsQueueOrder(config, s, n, data);
    case _ =>
  }

  lemma OutstandingIsIssued(config: Config, start: nat, s: System, k: nat)
    requires Inv(config, start, s) && k in Outstanding(s)
    ensures k < s.books.sequenceNumber
  {
    assert k in multiset(s.books.inFlight);
  }

  /** Workers take downloads in the order of their numbers: over every run, what is being downloaded or has
      been is below everything still queued. */
  lemma {:induction false} DownloadsStartInOrder(config: Config, start: nat, actions: seq<Action>)
    requires config.Valid() && Run(config, Start(config, start), actions).Some?
    ensures QueueInOrder(Run(config, Start(config, start), actions).value)
    decreases |actions|
  {
    if actions != [] {
      var n := |actions| - 1;
      DownloadsStartInOrder(config, start, actions[..n]);
      ReachableInv(config, start, actions[..n]);
      StepKeepsQueueOrder(config, start, Run(config, Start(config, start), actions[..n]).value, actions[n]);
    }
  }
}
