/** The in-memory buffer of the async task sorter: two queues, a watermark and a state. */
module TaskBuffer {
  import opened ByteStrings

  /** Tasks are represented by their IDs, which are totally ordered. */
  type TaskId = int

  datatype Config = Config(latestMax: nat, catchupMax: nat, dropBatch: nat) {
    function FetchThreshold(): nat {
      catchupMax / 2
    }
  }

  datatype QueueState = CatchingUp | UpToDate

  datatype Buffer = Buffer(
    catchup: seq<TaskId>,
    latest: seq<TaskId>,
    watermark: Option<TaskId>,
    state: QueueState)

  const EMPTY_BUFFER := Buffer([], [], None, CatchingUp)

  function Min(a: nat, b: nat): nat {
    if a < b then a else b
  }

  function Last<T>(s: seq<T>): T
    requires s != []
  {
    s[|s| - 1]
  }

  lemma LastOfConcat<T>(a: seq<T>, b: seq<T>)
    requires b != []
    ensures Last(a + b) == Last(b)
  {
  }

  // ----- overflow -----

  /** How many of the `n` oldest latest tasks move to the catchup queue. */
  function Movable(b: Buffer, n: nat, catchupMax: nat): nat {
    if b.state == CatchingUp || |b.catchup| >= catchupMax then 0 else Min(n, catchupMax - |b.catchup|)
  }

  /** Takes the `n` oldest tasks out of the latest queue: as many as fit move over, the others are
      dropped, and a drop puts the buffer in the catching-up state. */
  function DropOldest(b: Buffer, n: nat, catchupMax: nat): Buffer
    requires n <= |b.latest|
  {
    var moved := Movable(b, n, catchupMax);
    Buffer(
      b.catchup + b.latest[..moved],
      b.latest[n..],
      if moved == 0 then b.watermark else Some(b.latest[moved - 1]),
      if moved < n then CatchingUp else b.state)
  }

  /** One iteration of `drop_tasks`. */
  function DropFront(b: Buffer, catchupMax: nat): Buffer
    requires b.latest != []
  {
    var b' := b.(latest := b.latest[1..]);
    if b.state == CatchingUp then b'
    else if |b.catchup| >= catchupMax then b'.(state := CatchingUp)
    else b'.(catchup := b.catchup + [b.latest[0]], watermark := Some(b.latest[0]))
  }

  /** Dropping one task more is one more iteration. */
  lemma DropOneMore(b: Buffer, n: nat, catchupMax: nat)
    requires n < |b.latest|
    ensures DropOldest(b, n, catchupMax).latest != []
    ensures DropOldest(b, n + 1, catchupMax) == DropFront(DropOldest(b, n, catchupMax), catchupMax)
  {
    var moved, moved' := Movable(b, n, catchupMax), Movable(b, n + 1, catchupMax);
    var d := DropOldest(b, n, catchupMax);
    assert d.latest[1..] == b.latest[n + 1..];
    if moved' != moved {
      assert moved' == moved + 1 && moved == n;
      PrefixExtends(b.latest, n, n + 1);
      ConcatAssociative(b.catchup, b.latest[..n], [b.latest[n]]);
    }
  }

  function Pushed(b: Buffer, config: Config, task: TaskId): Buffer {
    if b.latest != [] && task <= Last(b.latest) then b
    else
      var room := if |b.latest| >= config.latestMax
                  then DropOldest(b, Min(config.dropBatch, |b.latest|), config.catchupMax) else b;
      room.(latest := room.latest + [task])
  }

  // ----- loading -----

  /** The length of the longest prefix of `tasks` below `bound`. */
  function PrefixBelow(tasks: seq<TaskId>, bound: TaskId): (n: nat)
    ensures n <= |tasks|
    ensures forall i | 0 <= i < n :: tasks[i] < bound
    ensures n < |tasks| ==> tasks[n] >= bound
  {
    if tasks == [] || tasks[0] >= bound then 0 else 1 + PrefixBelow(tasks[1..], bound)
  }

  function WithoutSeen(b: Buffer, tasks: seq<TaskId>): seq<TaskId> {
    if b.catchup == [] then tasks else tasks[PrefixBelow(tasks, Last(b.catchup) + 1)..]
  }

  /** How many of the unseen tasks lie before the latest queue. */
  function TakeCount(b: Buffer, unseen: seq<TaskId>): (n: nat)
    ensures n <= |unseen|
  {
    if b.latest == [] then |unseen| else PrefixBelow(unseen, b.latest[0])
  }

  /** Takes the first `take` tasks into the catchup queue; what is left over is in the latest queue. */
  function Taken(b: Buffer, tasks: seq<TaskId>, take: nat): Buffer
    requires take <= |tasks|
  {
    Buffer(
      if take == 0 then b.catchup else b.catchup + tasks[..take],
      b.latest,
      if take == 0 then b.watermark else Some(tasks[take - 1]),
      if take < |tasks| then UpToDate else b.state)
  }

  function Loaded(b: Buffer, tasks: seq<TaskId>): Buffer {
    if tasks == [] then b.(state := UpToDate)
    else
      var unseen := WithoutSeen(b, tasks);
      Taken(b, unseen, TakeCount(b, unseen))
  }

  // ----- pulling -----

  /** What one pass of the `pull` loop does: which task it returns, if any, what is left, and
      whether it asks for a fetch. */
  datatype PullResult = PullResult(task: Option<TaskId>, rest: Buffer, wantsFetch: bool)

  function Pulled(b: Buffer, config: Config): PullResult {
    if b.catchup != [] then
      PullResult(Some(b.catchup[0]), b.(catchup := b.catchup[1..]),
                 b.state == CatchingUp && |b.catchup| - 1 <= config.FetchThreshold())
    else if b.state == CatchingUp then PullResult(None, b, true)
    else if b.latest != [] then PullResult(Some(b.latest[0]), b.(latest := b.latest[1..]), false)
    else PullResult(None, b, false)
  }

  // ----- the buffer as the source updates it -----

  class TaskBuffer {
    const config: Config
    var catchupQueue: seq<TaskId>
    var latestQueue: seq<TaskId>
    var catchupLowWatermark: Option<TaskId>
    var state: QueueState

    function View(): Buffer
      reads this
    {
      Buffer(catchupQueue, latestQueue, catchupLowWatermark, state)
    }

    constructor (config: Config)
      ensures this.config == config && View() == EMPTY_BUFFER
    {
      this.config := config;
      catchupQueue, latestQueue, catchupLowWatermark, state := [], [], None, CatchingUp;
    }

    /** `drop_tasks`. */
    method DropTasks(dropBatchSize: nat, catchupQueueMax: nat)
      modifies this
      ensures View() == old(DropOldest(View(), Min(dropBatchSize, |latestQueue|), catchupQueueMax))
    {
      var left: nat := dropBatchSize;
      ghost var before := View();
      ghost var done := 0;
      while latestQueue != [] && left > 0
        invariant left + done == dropBatchSize && done <= |before.latest|
        invariant View() == DropOldest(before, done, catchupQueueMax)
        decreases left
      {
        DropOneMore(before, done, catchupQueueMax);
        ghost var now := View();
        var task := latestQueue[0];
        latestQueue := latestQueue[1..];
        if state == CatchingUp {
          // The task stays in the store and is read again later.
        } else if |catchupQueue| >= catchupQueueMax {
          state := CatchingUp;
        } else {
          catchupLowWatermark := Some(task);
          catchupQueue := catchupQueue + [task];
        }
        assert View() == DropFront(now, catchupQueueMax);
        left, done := left - 1, done + 1;
      }
    }

    /** `add_loaded_tasks`. */
    method AddLoadedTasks(tasks: seq<TaskId>)
      modifies this
      ensures View() == old(Loaded(View(), tasks))
    {
      if tasks == [] {
        state := UpToDate;
        return;
      }
      var unseen := tasks;
      if catchupQueue != [] {
        var skipCount := Position(tasks, Last(catchupQueue) + 1);
        unseen := tasks[skipCount..];
      }
      assert unseen == old(WithoutSeen(View(), tasks));
      if unseen == [] {
        return;
      }
      var takeCount := |unseen|;
      if latestQueue != [] {
        takeCount := Position(unseen, latestQueue[0]);
      }
      assert takeCount == old(TakeCount(View(), unseen));
      if takeCount < |unseen| {
        state := UpToDate;
      }
      if takeCount > 0 {
        catchupLowWatermark := Some(unseen[takeCount - 1]);
        catchupQueue := catchupQueue + unseen[..takeCount];
      }
    }

    /** `push_to_latest`. */
    method PushToLatest(task: TaskId)
      modifies this
      ensures View() == old(Pushed(View(), config, task))
    {
      if latestQueue != [] && task <= Last(latestQueue) {
        return;
      }
      if |latestQueue| >= config.latestMax {
        DropTasks(config.dropBatch, config.catchupMax);
      }
      latestQueue := latestQueue + [task];
    }

    /** One pass of the `pull` loop, up to the point where it returns or waits. */
    method PullOnce() returns (task: Option<TaskId>, wantsFetch: bool)
      modifies this
      ensures PullResult(task, View(), wantsFetch) == old(Pulled(View(), config))
    {
      if state == UpToDate {
        if catchupQueue != [] {
          task, wantsFetch := Some(catchupQueue[0]), false;
          catchupQueue := catchupQueue[1..];
        } else if latestQueue != [] {
          task, wantsFetch := Some(latestQueue[0]), false;
          latestQueue := latestQueue[1..];
        } else {
          task, wantsFetch := None, false;
        }
      } else if catchupQueue != [] {
        task := Some(catchupQueue[0]);
        catchupQueue := catchupQueue[1..];
        wantsFetch := |catchupQueue| <= config.FetchThreshold();
      } else {
        task, wantsFetch := None, true;
      }
    }
  }

  /** `iter().position(|t| t >= bound).unwrap_or(len)`. */
  method Position(tasks: seq<TaskId>, bound: TaskId) returns (n: nat)
    ensures n == PrefixBelow(tasks, bound)
  {
    n := 0;
    while n < |tasks| && tasks[n] < bound
      invariant n <= |tasks| && forall i | 0 <= i < n :: tasks[i] < bound
    {
      n := n + 1;
    }
    PrefixBelowUnique(tasks, bound, n);
  }

  lemma PrefixBelowUnique(tasks: seq<TaskId>, bound: TaskId, n: nat)
    requires n <= |tasks|
    requires forall i | 0 <= i < n :: tasks[i] < bound
    requires n < |tasks| ==> tasks[n] >= bound
    ensures PrefixBelow(tasks, bound) == n
  {
  }
}
