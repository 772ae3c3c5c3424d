/** The coordinator of the parallel checkpoint downloader: which numbers are in flight, the reorder
    buffer, and the delivery of downloaded checkpoints in sequence. */
module DownloadCoordinator {
  import opened ByteStrings

  /** A downloaded checkpoint; `data` stands for the download result. */
  datatype Entry = Entry(number: nat, data: int)

  /** The local variables of `run_download_loop`. */
  datatype Books = Books(
    sequenceNumber: nat,
    inFlight: set<nat>,
    pending: map<nat, Entry>,
    nextExpected: nat)

  // ----- draining the reorder buffer -----

  /** The entries `pending` holds for `next`, `next + 1`, ... without a gap. */
  function Ready(pending: map<nat, Entry>, next: nat): seq<Entry>
    decreases |pending|
  {
    if next in pending then
      RemoveShrinks(pending, next);
      [pending[next]] + Ready(pending - {next}, next + 1)
    else []
  }

  lemma RemoveShrinks(pending: map<nat, Entry>, key: nat)
    requires key in pending
    ensures |pending - {key}| < |pending|
  {
    assert (pending - {key}).Keys == pending.Keys - {key};
    assert |(pending - {key}).Keys| < |pending.Keys|;
  }

  /** What stays in the reorder buffer when `n` numbers from `next` on are taken out. */
  function Without(pending: map<nat, Entry>, next: nat, n: nat): map<nat, Entry> {
    map k | k in pending && !(next <= k < next + n) :: pending[k]
  }

  predicate BufferedAt(pending: map<nat, Entry>, next: nat, ready: seq<Entry>, i: nat) {
    i < |ready| ==> next + i in pending && ready[i] == pending[next + i]
  }

  /** The ready entries are the buffered ones for consecutive numbers, as many as there are. */
  lemma {:induction false} ReadyIsMaximalRun(pending: map<nat, Entry>, next: nat)
    ensures forall i: nat :: BufferedAt(pending, next, Ready(pending, next), i)
    ensures next + |Ready(pending, next)| !in pending
    decreases |pending|
  {
    if next in pending {
      RemoveShrinks(pending, next);
      var rest := pending - {next};
      ReadyIsMaximalRun(rest, next + 1);
      var ready := Ready(rest, next + 1);
      assert Ready(pending, next) == [pending[next]] + ready;
      assert next + 1 + |ready| !in rest;
      forall i: nat
        ensures BufferedAt(pending, next, Ready(pending, next), i)
      {
        if i > 0 {
          assert BufferedAt(rest, next + 1, ready, i - 1);
        }
      }
    }
  }

  // ----- receiving an entry -----

  function Received(b: Books, e: Entry): (Books, seq<Entry>) {
    var left := b.inFlight - {e.number};
    if e.number != b.nextExpected then
      (b.(inFlight := left, pending := b.pending[e.number := e]), [])
    else
      var ready := Ready(b.pending, b.nextExpected + 1);
      (b.(inFlight := left,
          pending := Without(b.pending, b.nextExpected + 1, |ready|),
          nextExpected := b.nextExpected + 1 + |ready|),
       [e] + ready)
  }

  class Coordinator {
    var sequenceNumber: nat
    var inFlight: set<nat>
    var pending: map<nat, Entry>
    var nextExpected: nat

    function View(): Books
      reads this
    {
      Books(sequenceNumber, inFlight, pending, nextExpected)
    }

    constructor (start: nat)
      ensures View() == Books(start, {}, map[], start)
    {
      sequenceNumber, inFlight, pending, nextExpected := start, {}, map[], start;
    }

    /** The bookkeeping of one send to the workers. */
    method Issue() returns (number: nat)
      modifies this
      ensures number == old(sequenceNumber)
      ensures View() == old(View()).(sequenceNumber := number + 1, inFlight := old(inFlight) + {number})
    {
      number := sequenceNumber;
      inFlight := inFlight + {sequenceNumber};
      sequenceNumber := sequenceNumber + 1;
    }

    /** The second half of the download loop: `sent` are the entries passed on to the consumer. */
    method Receive(entry: Entry) returns (sent: seq<Entry>)
      modifies this
      ensures (View(), sent) == old(Received(View(), entry))
    {
      inFlight := inFlight - {entry.number};
      if entry.number != nextExpected {
        pending := pending[entry.number := entry];
        return [];
      }
      sent := [entry];
      nextExpected := nextExpected + 1;
      ghost var buffered, first := pending, nextExpected;
      ghost var n := 0;
      while nextExpected in pending
        invariant nextExpected == first + n
        invariant pending == Without(buffered, first, n)
        invariant sent + Ready(pending, nextExpected) == [entry] + Ready(buffered, first)
        invariant |sent| == n + 1
        invariant unchanged(`sequenceNumber) && inFlight == old(inFlight) - {entry.number}
        decreases |pending|
      {
        RemoveShrinks(pending, nextExpected);
        WithoutOneMore(buffered, first, n);
        var checkpoint := pending[nextExpected];
        ConcatAssociative(sent, [checkpoint], Ready(pending - {nextExpected}, nextExpected + 1));
        pending := pending - {nextExpected};
        sent := sent + [checkpoint];
        nextExpected, n := nextExpected + 1, n + 1;
      }
      assert sent + [] == sent;
    }
  }

  lemma WithoutOneMore(pending: map<nat, Entry>, next: nat, n: nat)
    ensures Without(pending, next, n) - {next + n} == Without(pending, next, n + 1)
  {
  }
}
