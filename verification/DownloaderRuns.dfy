/** The parallel checkpoint downloader as a concurrent protocol: the coordinator, a bounded message
    channel, workers that finish in any order, a bounded result channel, and a pool monitor that
    spawns workers and sends shutdowns. Every interleaving of the steps below is a run. */
module DownloaderRuns {
  import opened ByteStrings
  import opened DownloadCoordinator

  datatype Config = Config(minWorkers: nat, maxWorkers: nat, initialWorkers: nat, bufferFactor: nat) {
    ghost predicate Valid() {
      1 <= minWorkers <= initialWorkers <= maxWorkers && 1 <= bufferFactor
    }

    function MessageQueueSize(): nat {
      maxWorkers * bufferFactor * 2
    }

    function CheckpointQueueSize(): nat {
      maxWorkers * bufferFactor * 2
    }

    function AverageWorkers(): nat {
      (minWorkers + maxWorkers) / 2
    }
  }

  datatype Message = Download(number: nat) | Shutdown

  /** Where the coordinator stands in its loop. */
  datatype Phase = AtHead | Filling(limit: nat) | Receiving

  /** Where the pool monitor stands: idle, or adjusting the pool to a target, possibly between the
      change of the pool and the update of the shared counter. */
  datatype Monitor = Idle | Adjusting(target: nat) | SentShutdown(target: nat) | Spawned(target: nat)

  /** `fetched` and `delivered` are history: what workers downloaded and what was passed on. */
  datatype System = System(
    books: Books,
    phase: Phase,
    messages: seq<Message>,
    idle: nat,
    busy: multiset<nat>,
    results: seq<Entry>,
    workerCount: nat,
    monitor: Monitor,
    fetched: map<nat, int>,
    delivered: seq<Entry>)

  datatype Action =
    | LoadWorkerCount
    | Issue
    | StopFilling
    | Receive
    | TakeDownload
    | TakeShutdown
    | Finish(number: nat, data: int)
    | ScaleUp
    | ScaleDown
    | ScaleToAverage
    | SendShutdown
    | CountDown
    | Spawn
    | CountUp
    | AdjustmentDone

  function Start(config: Config, start: nat): System {
    System(Books(start, {}, map[], start), AtHead, [], config.initialWorkers, multiset{}, [],
           config.initialWorkers, Idle, map[], [])
  }

  predicate Enabled(config: Config, s: System, a: Action) {
    match a
    case LoadWorkerCount => s.phase == AtHead
    case Issue =>
      s.phase.Filling? && |s.messages| < config.MessageQueueSize() && |s.books.inFlight| < s.phase.limit
    case StopFilling =>
      s.phase.Filling? && !(|s.messages| < config.MessageQueueSize() && |s.books.inFlight| < s.phase.limit)
    case Receive => s.phase == Receiving && s.results != []
    case TakeDownload => s.idle > 0 && s.messages != [] && s.messages[0].Download?
    case TakeShutdown => s.idle > 0 && s.messages != [] && s.messages[0].Shutdown?
    case Finish(n, _) => n in s.busy && |s.results| < config.CheckpointQueueSize()
    case ScaleUp => s.monitor == Idle && s.workerCount < config.maxWorkers
    case ScaleDown => s.monitor == Idle && s.workerCount > config.minWorkers
    case ScaleToAverage => s.monitor == Idle
    case SendShutdown =>
      s.monitor.Adjusting? && s.workerCount > s.monitor.target && |s.messages| < config.MessageQueueSize()
    case CountDown => s.monitor.SentShutdown? && s.workerCount > 0
    case Spawn => s.monitor.Adjusting? && s.workerCount < s.monitor.target
    case CountUp => s.monitor.Spawned?
    case AdjustmentDone => s.monitor.Adjusting? && s.workerCount == s.monitor.target
  }

  function Apply(config: Config, s: System, a: Action): System
    requires Enabled(config, s, a)
  {
    match a
    case LoadWorkerCount => s.(phase := Filling(s.workerCount * config.bufferFactor))
    case Issue =>
      var n := s.books.sequenceNumber;
      s.(messages := s.messages + [Download(n)],
         books := s.books.(sequenceNumber := n + 1, inFlight := s.books.inFlight + {n}))
    case StopFilling => s.(phase := Receiving)
    case Receive =>
      var (books, sent) := Received(s.books, s.results[0]);
      s.(books := books, results := s.results[1..], delivered := s.delivered + sent, phase := AtHead)
    case TakeDownload =>
      s.(messages := s.messages[1..], idle := s.idle - 1, busy := s.busy + multiset{s.messages[0].number})
    case TakeShutdown => s.(messages := s.messages[1..], idle := s.idle - 1)
    case Finish(n, data) =>
      s.(busy := s.busy - multiset{n}, idle := s.idle + 1, results := s.results + [Entry(n, data)],
         fetched := s.fetched[n := data])
    case ScaleUp => s.(monitor := Adjusting(s.workerCount + 1))
    case ScaleDown => s.(monitor := Adjusting(s.workerCount - 1))
    case ScaleToAverage => s.(monitor := Adjusting(config.AverageWorkers()))
    case SendShutdown => s.(messages := s.messages + [Shutdown], monitor := SentShutdown(s.monitor.target))
    case CountDown => s.(workerCount := s.workerCount - 1, monitor := Adjusting(s.monitor.target))
    case Spawn => s.(idle := s.idle + 1, monitor := Spawned(s.monitor.target))
    case CountUp => s.(workerCount := s.workerCount + 1, monitor := Adjusting(s.monitor.target))
    case AdjustmentDone => s.(monitor := Idle)
  }

  function Run(config: Config, s: System, actions: seq<Action>): Option<System>
    decreases |actions|
  {
    if actions == [] then Some(s)
    else
      var before := Run(config, s, actions[..|actions| - 1]);
      var a := actions[|actions| - 1];
      if before.Some? && Enabled(config, before.value, a) then Some(Apply(config, before.value, a)) else None
  }

  // ----- where the numbers are -----

  /** The numbers queued for download. */
  function Queued(messages: seq<Message>): multiset<nat> {
    if messages == [] then multiset{}
    else (if messages[0].Download? then multiset{messages[0].number} else multiset{}) + Queued(messages[1..])
  }

  function Shutdowns(messages: seq<Message>): nat {
    if messages == [] then 0 else (if messages[0].Shutdown? then 1 else 0) + Shutdowns(messages[1..])
  }

  /** The numbers of downloaded entries. */
  function Numbers(entries: seq<Entry>): multiset<nat> {
    if entries == [] then multiset{} else multiset{entries[0].number} + Numbers(entries[1..])
  }

  /** Every number handed to the workers and not yet received back, with multiplicity. */
  function Outstanding(s: System): multiset<nat> {
    Queued(s.messages) + s.busy + Numbers(s.results)
  }

  lemma {:induction false} MessagesAppend(messages: seq<Message>, m: Message)
    ensures Queued(messages + [m]) == Queued(messages) + (if m.Download? then multiset{m.number} else multiset{})
    ensures Shutdowns(messages + [m]) == Shutdowns(messages) + (if m.Shutdown? then 1 else 0)
  {
    if messages == [] {
      assert messages + [m] == [m] && [m][1..] == [];
    } else {
      assert (messages + [m])[1..] == messages[1..] + [m];
      MessagesAppend(messages[1..], m);
    }
  }

  lemma {:induction false} NumbersAppend(entries: seq<Entry>, e: Entry)
    ensures Numbers(entries + [e]) == Numbers(entries) + multiset{e.number}
  {
    if entries == [] {
      assert entries + [e] == [e] && [e][1..] == [];
    } else {
      assert (entries + [e])[1..] == entries[1..] + [e];
      NumbersAppend(entries[1..], e);
    }
  }

  lemma {:induction false} NumbersSize(entries: seq<Entry>)
    ensures |Numbers(entries)| == |entries|
  {
    if entries != [] {
      NumbersSize(entries[1..]);
    }
  }

  // ----- the worker pool -----

  /** The pool is ahead of the counter by one worker, behind by one, or in step with it. */
  function Drift(m: Monitor): int {
    match m
    case SentShutdown(_) => -1
    case Spawned(_) => 1
    case _ => 0
  }

  ghost predicate MonitorInv(config: Config, s: System) {
    && config.minWorkers <= s.workerCount <= config.maxWorkers
    && (!s.monitor.Idle? ==> config.minWorkers <= s.monitor.target <= config.maxWorkers)
    && (s.monitor.SentShutdown? ==> s.monitor.target < s.workerCount)
    && (s.monitor.Spawned? ==> s.workerCount < s.monitor.target)
  }

  ghost predicate PoolInv(config: Config, s: System) {
    && MonitorInv(config, s)
    && s.idle + |s.busy| == s.workerCount + Shutdowns(s.messages) + Drift(s.monitor)
  }

  lemma StepKeepsMonitor(config: Config, s: System, a: Action)
    requires config.Valid() && MonitorInv(config, s) && Enabled(config, s, a)
    ensures MonitorInv(config, Apply(config, s, a))
  {
  }

  lemma StepKeepsPool(config: Config, s: System, a: Action)
    requires config.Valid() && PoolInv(config, s) && Enabled(config, s, a)
    ensures PoolInv(config, Apply(config, s, a))
  {
    StepKeepsMonitor(config, s, a);
    match a
    case Issue => MessagesAppend(s.messages, Download(s.books.sequenceNumber));
    case SendShutdown => MessagesAppend(s.messages, Shutdown);
    case _ =>
  }

  // ----- what is in flight -----

  ghost predicate FlightInv(config: Config, s: System) {
    && Outstanding(s) == multiset(s.books.inFlight)
    && |s.books.inFlight| <= config.maxWorkers * config.bufferFactor
    && (s.phase.Filling? ==> 1 <= s.phase.limit <= config.maxWorkers * config.bufferFactor)
  }

  lemma LimitIsBounded(config: Config, workers: nat)
    requires 1 <= workers <= config.maxWorkers && 1 <= config.bufferFactor
    ensures 1 <= workers * config.bufferFactor <= config.maxWorkers * config.bufferFactor
  {
  }

  lemma IssueKeepsFlight(config: Config, s: System)
    requires FlightInv(config, s) && Enabled(config, s, Issue) && s.books.sequenceNumber !in s.books.inFlight
    ensures FlightInv(config, Apply(config, s, Issue))
  {
    var n := s.books.sequenceNumber;
    MessagesAppend(s.messages, Download(n));
    assert multiset(s.books.inFlight + {n}) == multiset(s.books.inFlight) + multiset{n};
  }

  lemma ReceiveKeepsFlight(config: Config, s: System)
    requires FlightInv(config, s) && Enabled(config, s, Receive)
    ensures FlightInv(config, Apply(config, s, Receive))
    ensures s.results[0].number in s.books.inFlight
  {
    var n := s.results[0].number;
    assert n in Outstanding(s);
    assert multiset(s.books.inFlight - {n}) == multiset(s.books.inFlight) - multiset{n};
  }

  lemma FinishKeepsFlight(config: Config, s: System, n: nat, data: int)
    requires FlightInv(config, s) && Enabled(config, s, Finish(n, data))
    ensures FlightInv(config, Apply(config, s, Finish(n, data)))
  {
    NumbersAppend(s.results, Entry(n, data));
    MoveOne(Queued(s.messages), s.busy, Numbers(s.results), n);
  }

  lemma MoveOne(a: multiset<nat>, b: multiset<nat>, c: multiset<nat>, n: nat)
    requires n in b
    ensures a + (b - multiset{n}) + (c + multiset{n}) == a + b + c
  {
  }

  lemma StepKeepsFlight(config: Config, s: System, a: Action)
    requires config.Valid() && MonitorInv(config, s) && FlightInv(config, s) && Enabled(config, s, a)
    requires s.books.sequenceNumber !in s.books.inFlight
    ensures FlightInv(config, Apply(config, s, a))
  {
    match a
    case LoadWorkerCount => LimitIsBounded(config, s.workerCount);
    case Issue => IssueKeepsFlight(config, s);
    case Receive => ReceiveKeepsFlight(config, s);
    case Finish(n, data) => FinishKeepsFlight(config, s, n, data);
    case SendShutdown => MessagesAppend(s.messages, Shutdown);
    case _ =>
  }

  // ----- the books -----

  /** The issued numbers from the next expected one on are in flight or pending, and nothing else
      is; the next expected one is not pending. */
  ghost predicate BooksInv(b: Books) {
    && b.nextExpected <= b.sequenceNumber
    && (forall k: nat :: k in b.inFlight || k in b.pending <==> b.nextExpected <= k < b.sequenceNumber)
    && (forall k: nat :: !(k in b.inFlight && k in b.pending))
    && b.nextExpected !in b.pending
    && (forall k: nat | k in b.pending :: b.pending[k].number == k)
  }

  lemma ReceivedKeepsBooks(b: Books, e: Entry)
    requires BooksInv(b) && e.number in b.inFlight
    ensures BooksInv(Received(b, e).0)
  {
    if e.number == b.nextExpected {
      ReadyIsMaximalRun(b.pending, b.nextExpected + 1);
      ReadyStaysIssued(b);
    }
  }

  /** The ready run does not reach beyond the issued numbers. */
  lemma ReadyStaysIssued(b: Books)
    requires BooksInv(b) && b.nextExpected in b.inFlight
    ensures var ready := Ready(b.pending, b.nextExpected + 1);
            && b.nextExpected + 1 + |ready| <= b.sequenceNumber
            && forall k: nat | b.nextExpected < k < b.nextExpected + 1 + |ready| :: k in b.pending
  {
    var first := b.nextExpected + 1;
    var ready := Ready(b.pending, first);
    ReadyIsMaximalRun(b.pending, first);
    forall k: nat | b.nextExpected < k < first + |ready|
      ensures k in b.pending
    {
      assert BufferedAt(b.pending, first, ready, k - first);
    }
    if |ready| > 0 {
      assert first + |ready| - 1 in b.pending;
    }
  }

  // ----- what is delivered -----

  ghost predicate DeliveryInv(start: nat, s: System) {
    && start + |s.delivered| == s.books.nextExpected
    && forall i | 0 <= i < |s.delivered| :: s.delivered[i].number == start + i
  }

  lemma SentInSequence(b: Books, e: Entry, i: nat)
    requires BooksInv(b) && e.number in b.inFlight && i < |Received(b, e).1|
    ensures Received(b, e).1[i].number == b.nextExpected + i
  {
    if i > 0 {
      var first := b.nextExpected + 1;
      ReadyIsMaximalRun(b.pending, first);
      assert BufferedAt(b.pending, first, Ready(b.pending, first), i - 1);
    }
  }

  lemma ReceiveKeepsDelivery(config: Config, start: nat, s: System)
    requires BooksInv(s.books) && DeliveryInv(start, s) && Enabled(config, s, Receive)
    requires s.results[0].number in s.books.inFlight
    ensures DeliveryInv(start, Apply(config, s, Receive))
  {
    var sent := Received(s.books, s.results[0]).1;
    forall i | 0 <= i < |sent|
      ensures sent[i].number == s.books.nextExpected + i
    {
      SentInSequence(s.books, s.results[0], i);
    }
  }

  /** The entry carries what a worker downloaded for its number. */
  predicate Genuine(fetched: map<nat, int>, e: Entry) {
    e.number in fetched && e.data == fetched[e.number]
  }

  predicate AllGenuine(fetched: map<nat, int>, entries: seq<Entry>) {
    forall i | 0 <= i < |entries| :: Genuine(fetched, entries[i])
  }

  predicate PendingGenuine(fetched: map<nat, int>, pending: map<nat, Entry>) {
    forall k | k in pending :: Genuine(fetched, pending[k])
  }

  ghost predicate DataInv(s: System) {
    && AllGenuine(s.fetched, s.results)
    && PendingGenuine(s.fetched, s.books.pending)
    && AllGenuine(s.fetched, s.delivered)
  }

  lemma ReceiveKeepsData(config: Config, s: System)
    requires DataInv(s) && Enabled(config, s, Receive)
    ensures DataInv(Apply(config, s, Receive))
  {
    var b, e := s.books, s.results[0];
    assert Genuine(s.fetched, e);
    if e.number == b.nextExpected {
      var first := b.nextExpected + 1;
      var ready := Ready(b.pending, first);
      ReadyIsMaximalRun(b.pending, first);
      forall i | 0 <= i < |ready|
        ensures Genuine(s.fetched, ready[i])
      {
        assert BufferedAt(b.pending, first, ready, i);
      }
    }
  }

  lemma {:induction false} NumbersMember(entries: seq<Entry>, i: nat)
    requires i < |entries|
    ensures entries[i].number in Numbers(entries)
  {
    if i > 0 {
      NumbersMember(entries[1..], i - 1);
    }
  }

  /** A number that is being downloaded is in flight, and no entry for it exists yet. */
  lemma BusyNumberIsNew(config: Config, s: System, n: nat)
    requires FlightInv(config, s) && n in s.busy
    ensures n in s.books.inFlight
    ensures forall i | 0 <= i < |s.results| :: s.results[i].number != n
  {
    assert n in Outstanding(s);
    assert Outstanding(s)[n] == 1;
    forall i | 0 <= i < |s.results|
      ensures s.results[i].number != n
    {
      NumbersMember(s.results, i);
    }
  }

  lemma FinishKeepsData(config: Config, start: nat, s: System, n: nat, data: int)
    requires DataInv(s) && FlightInv(config, s) && BooksInv(s.books) && DeliveryInv(start, s)
    requires Enabled(config, s, Finish(n, data))
    ensures DataInv(Apply(config, s, Finish(n, data)))
  {
    BusyNumberIsNew(config, s, n);
    var fetched := s.fetched[n := data];
    forall i | 0 <= i < |s.results|
      ensures Genuine(fetched, s.results[i])
    {
      assert Genuine(s.fetched, s.results[i]);
    }
    forall k | k in s.books.pending
      ensures Genuine(fetched, s.books.pending[k])
    {
      assert Genuine(s.fetched, s.books.pending[k]);
    }
    forall i | 0 <= i < |s.delivered|
      ensures Genuine(fetched, s.delivered[i])
    {
      assert Genuine(s.fetched, s.delivered[i]);
    }
  }

  // ----- every run -----

  ghost predicate Inv(config: Config, start: nat, s: System) {
    && PoolInv(config, s) && FlightInv(config, s) && BooksInv(s.books)
    && DeliveryInv(start, s) && DataInv(s)
  }

  lemma StartInv(config: Config, start: nat)
    requires config.Valid()
    ensures Inv(config, start, Start(config, start))
  {
  }

  lemma StepKeepsBooks(config: Config, start: nat, s: System, a: Action)
    requires Inv(config, start, s) && Enabled(config, s, a)
    ensures BooksInv(Apply(config, s, a).books) && DeliveryInv(start, Apply(config, s, a))
  {
    if a == Receive {
      ReceiveKeepsFlight(config, s);
      ReceivedKeepsBooks(s.books, s.results[0]);
      ReceiveKeepsDelivery(config, start, s);
    }
  }

  lemma StepKeepsData(config: Config, start: nat, s: System, a: Action)
    requires Inv(config, start, s) && Enabled(config, s, a)
    ensures DataInv(Apply(config, s, a))
  {
    match a
    case Receive => ReceiveKeepsData(config, s);
    case Finish(n, data) => FinishKeepsData(config, start, s, n, data);
    case _ =>
  }

  lemma StepKeepsInv(config: Config, start: nat, s: System, a: Action)
    requires config.Valid() && Inv(config, start, s) && Enabled(config, s, a)
    ensures Inv(config, start, Apply(config, s, a))
  {
    StepKeepsPool(config, s, a);
    StepKeepsFlight(config, s, a);
    StepKeepsBooks(config, start, s, a);
    StepKeepsData(config, start, s, a);
  }

  lemma {:induction false} ReachableInv(config: Config, start: nat, actions: seq<Action>)
    requires config.Valid() && Run(config, Start(config, start), actions).Some?
    ensures Inv(config, start, Run(config, Start(config, start), actions).value)
    decreases |actions|
  {
    if actions == [] {
      StartInv(config, start);
    } else {
      var n := |actions| - 1;
      ReachableInv(config, start, actions[..n]);
      StepKeepsInv(config, start, Run(config, Start(config, start), actions[..n]).value, actions[n]);
    }
  }

  /** An issued number is delivered, in flight or pending, in exactly one way; others are not. */
  predicate AccountedFor(start: nat, s: System, k: nat) {
    var delivered := start <= k < start + |s.delivered|;
    && (start <= k < s.books.sequenceNumber <==> delivered || k in s.books.inFlight || k in s.books.pending)
    && !(delivered && (k in s.books.inFlight || k in s.books.pending))
    && !(k in s.books.inFlight && k in s.books.pending)
  }

  lemma InvAccountsFor(start: nat, s: System, k: nat)
    requires BooksInv(s.books) && DeliveryInv(start, s)
    ensures AccountedFor(start, s, k)
  {
  }

  lemma InvDelivers(start: nat, s: System, i: nat)
    requires DeliveryInv(start, s) && DataInv(s) && i < |s.delivered|
    ensures IsDownloadOf(s.fetched, s.delivered[i], start + i)
  {
    assert Genuine(s.fetched, s.delivered[i]);
  }

  lemma NextIsInFlightOrUnissued(b: Books)
    requires BooksInv(b)
    ensures b.nextExpected in b.inFlight || b.nextExpected == b.sequenceNumber
  {
  }

  predicate IsDownloadOf(fetched: map<nat, int>, e: Entry, number: nat) {
    number in fetched && e == Entry(number, fetched[number])
  }

  /** Downloader delivery: for every completion order and every scaling, the output is
      `start`, `start + 1`, ... without gap or repeat, each with what was downloaded for it; the
      issued numbers are the disjoint union of delivered, in flight and pending; and the next
      expected number is in flight or not issued yet. */
  lemma DeliversInSequence(config: Config, start: nat, actions: seq<Action>)
    requires config.Valid() && Run(config, Start(config, start), actions).Some?
    ensures var s := Run(config, Start(config, start), actions).value;
            && (forall i | 0 <= i < |s.delivered| :: IsDownloadOf(s.fetched, s.delivered[i], start + i))
            && (forall k: nat :: AccountedFor(start, s, k))
            && (s.books.nextExpected in s.books.inFlight || s.books.nextExpected == s.books.sequenceNumber)
  {
    ReachableInv(config, start, actions);
    var s := Run(config, Start(config, start), actions).value;
    forall i | 0 <= i < |s.delivered|
      ensures IsDownloadOf(s.fetched, s.delivered[i], start + i)
    {
      InvDelivers(start, s, i);
    }
    forall k: nat
      ensures AccountedFor(start, s, k)
    {
      InvAccountsFor(start, s, k);
    }
    NextIsInFlightOrUnissued(s.books);
  }

  /** Downloader pool: the counter stays within its bounds, it equals the live workers minus the
      queued shutdowns whenever the monitor is idle, and at every moment more workers live than
      will be shut down. */
  lemma PoolStaysAlive(config: Config, start: nat, actions: seq<Action>)
    requires config.Valid() && Run(config, Start(config, start), actions).Some?
    ensures var s := Run(config, Start(config, start), actions).value;
            && config.minWorkers <= s.workerCount <= config.maxWorkers
            && (s.monitor == Idle ==> s.idle + |s.busy| - Shutdowns(s.messages) == s.workerCount)
            && s.idle + |s.busy| - Shutdowns(s.messages) >= config.minWorkers >= 1
  {
    ReachableInv(config, start, actions);
  }

  lemma SizesAddUp(a: multiset<nat>, b: multiset<nat>, c: multiset<nat>, whole: set<nat>)
    requires a + b + c == multiset(whole)
    ensures |a| + |b| + |c| == |whole|
  {
    assert |a + b + c| == |a| + |b| + |c|;
  }

  /** A worker that has finished finds room in the result channel. */
  lemma ResultHasRoom(config: Config, s: System, n: nat)
    requires config.Valid() && FlightInv(config, s) && n in s.busy
    ensures |s.results| < config.CheckpointQueueSize()
  {
    NumbersSize(s.results);
    SizesAddUp(Queued(s.messages), s.busy, Numbers(s.results), s.books.inFlight);
    assert |s.results| < |s.books.inFlight|;
    QueueExceedsFlight(config, |s.results|);
  }

  lemma QueueExceedsFlight(config: Config, n: nat)
    requires n < config.maxWorkers * config.bufferFactor
    ensures n < config.CheckpointQueueSize()
  {
  }

  /** Downloader channels: downloads in flight stay within `max_workers * buffer_factor`, so a
      worker that has finished never waits for room in the result channel. */
  lemma WorkersNeverBlock(config: Config, start: nat, actions: seq<Action>, n: nat, data: int)
    requires config.Valid() && Run(config, Start(config, start), actions).Some?
    ensures var s := Run(config, Start(config, start), actions).value;
            && |s.books.inFlight| <= config.maxWorkers * config.bufferFactor
            && (n in s.busy ==> Enabled(config, s, Finish(n, data)))
  {
    ReachableInv(config, start, actions);
    var s := Run(config, Start(config, start), actions).value;
    if n in s.busy {
      ResultHasRoom(config, s, n);
    }
  }
}
