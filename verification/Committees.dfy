/** The current, previous and next committee, and the tracker that moves them through epoch changes. */
module Committees {
  import opened ByteStrings
  import opened Bft

  datatype StorageNode = StorageNode(nodeId: nat, shardIds: seq<nat>, attributes: int)

  datatype Committee = Committee(epoch: nat, nShards: ShardCount, members: seq<StorageNode>)

  // ----- comparing committees -----

  /** Which shards each node ID has; a later member of the same ID wins. */
  function Assignment(members: seq<StorageNode>): map<nat, seq<nat>> {
    if members == [] then map[]
    else
      var last := members[|members| - 1];
      Assignment(members[..|members| - 1])[last.nodeId := last.shardIds]
  }

  predicate SameEssentials(a: Committee, b: Committee) {
    a.epoch == b.epoch && a.nShards == b.nShards && Assignment(a.members) == Assignment(b.members)
  }

  /** The last member with this node ID has these shards. */
  ghost predicate HasShards(members: seq<StorageNode>, id: nat, shards: seq<nat>) {
    exists i | 0 <= i < |members| :: LastWithId(members, id, i) && members[i].shardIds == shards
  }

  predicate LastWithId(members: seq<StorageNode>, id: nat, i: nat)
    requires i < |members|
  {
    members[i].nodeId == id && forall j | i < j < |members| :: members[j].nodeId != id
  }

  lemma {:induction false} AssignmentByNode(members: seq<StorageNode>, id: nat, shards: seq<nat>)
    ensures HasShards(members, id, shards) <==> id in Assignment(members) && Assignment(members)[id] == shards
  {
    if members != [] {
      var init, last := members[..|members| - 1], members[|members| - 1];
      AssignmentByNode(init, id, shards);
      if last.nodeId == id {
        assert LastWithId(members, id, |members| - 1);
      } else {
        LastWithIdShorter(members, id, shards);
      }
    }
  }

  lemma LastWithIdShorter(members: seq<StorageNode>, id: nat, shards: seq<nat>)
    requires members != [] && members[|members| - 1].nodeId != id
    ensures HasShards(members, id, shards) <==> HasShards(members[..|members| - 1], id, shards)
  {
    var init := members[..|members| - 1];
    forall i | 0 <= i < |init|
      ensures LastWithId(members, id, i) <==> LastWithId(init, id, i)
    {
      assert init[i] == members[i];
    }
    if HasShards(members, id, shards) {
      var i :| 0 <= i < |members| && LastWithId(members, id, i) && members[i].shardIds == shards;
      assert LastWithId(init, id, i) && init[i].shardIds == shards;
    }
    if HasShards(init, id, shards) {
      var i :| 0 <= i < |init| && LastWithId(init, id, i) && init[i].shardIds == shards;
      assert LastWithId(members, id, i) && members[i].shardIds == shards;
    }
  }

  /** Two committees agree in their essentials exactly when they have the same epoch, number of shards, and
      shards for every node. */
  lemma EssentialsByNode(a: Committee, b: Committee)
    ensures SameEssentials(a, b) <==>
            && a.epoch == b.epoch && a.nShards == b.nShards
            && forall id: nat, shards :: HasShards(a.members, id, shards) <==> HasShards(b.members, id, shards)
  {
    forall id: nat, shards
      ensures HasShards(a.members, id, shards) <==>
              id in Assignment(a.members) && Assignment(a.members)[id] == shards
      ensures HasShards(b.members, id, shards) <==>
              id in Assignment(b.members) && Assignment(b.members)[id] == shards
    {
      AssignmentByNode(a.members, id, shards);
      AssignmentByNode(b.members, id, shards);
    }
    var l, r := Assignment(a.members), Assignment(b.members);
    if forall id: nat, shards :: HasShards(a.members, id, shards) <==> HasShards(b.members, id, shards) {
      forall id | id in l
        ensures id in r && r[id] == l[id]
      {
        assert HasShards(a.members, id, l[id]);
      }
      forall id | id in r
        ensures id in l
      {
        assert HasShards(b.members, id, r[id]);
      }
      SameAssignment(l, r);
    }
  }

  method AssignmentOf(members: seq<StorageNode>) returns (m: map<nat, seq<nat>>)
    ensures m == Assignment(members)
  {
    m := map[];
    for i := 0 to |members|
      invariant m == Assignment(members[..i])
    {
      assert members[..i + 1][..i] == members[..i];
      m := m[members[i].nodeId := members[i].shardIds];
    }
    assert members[..|members|] == members;
  }

  /** Every node of `l` is in `r` with the same shards. */
  ghost predicate Within(l: map<nat, seq<nat>>, r: map<nat, seq<nat>>, ids: set<nat>) {
    forall id | id in ids && id in l :: id in r && r[id] == l[id]
  }

  lemma SameAssignment(l: map<nat, seq<nat>>, r: map<nat, seq<nat>>)
    ensures l == r <==> Within(l, r, l.Keys) && r.Keys <= l.Keys
  {
    if Within(l, r, l.Keys) && r.Keys <= l.Keys {
      assert l.Keys == r.Keys;
      assert forall id | id in l :: r[id] == l[id];
    }
  }

  method CompareNodes(l: map<nat, seq<nat>>, r: map<nat, seq<nat>>) returns (ok: bool)
    ensures ok <==> Within(l, r, l.Keys)
  {
    ok := true;
    var todo: set<nat> := l.Keys;
    ghost var done: set<nat> := {};
    while todo != {}
      invariant l.Keys == done + todo
      invariant ok <==> Within(l, r, done)
      decreases |todo|
    {
      var id :| id in todo;
      if id !in r || r[id] != l[id] {
        ok := false;
      }
      todo, done := todo - {id}, done + {id};
    }
    assert done == l.Keys;
  }

  method ContainsNodes(l: map<nat, seq<nat>>, r: map<nat, seq<nat>>) returns (ok: bool)
    ensures ok <==> r.Keys <= l.Keys
  {
    ok := true;
    var todo: set<nat> := r.Keys;
    ghost var done: set<nat> := {};
    while todo != {}
      invariant r.Keys == done + todo
      invariant ok <==> done <= l.Keys
      decreases |todo|
    {
      var id :| id in todo;
      if id !in l {
        ok := false;
      }
      todo, done := todo - {id}, done + {id};
    }
    assert done == r.Keys;
  }

  /** Compares node by node, in both directions. */
  method CompareEssential(left: Committee, right: Committee) returns (ok: bool)
    ensures ok <==> SameEssentials(left, right)
  {
    var l := AssignmentOf(left.members);
    var r := AssignmentOf(right.members);
    var matching := CompareNodes(l, r);
    var contained := ContainsNodes(l, r);
    ok := left.epoch == right.epoch && left.nShards == right.nShards && matching && contained;
    SameAssignment(l, r);
  }

  // ----- the active committees -----

  datatype ActiveCommittees = ActiveCommittees(
    current: Committee,
    previous: Option<Committee>,
    next: Option<Committee>,
    isTransitioning: bool)
  {
    /** The checked invariants: consecutive epochs, equal shard counts, a previous committee beyond
        epoch 0. */
    predicate Consistent() {
      && (current.epoch == 0 || previous.Some?)
      && (previous.Some? ==> current.epoch == previous.value.epoch + 1 && current.nShards == previous.value.nShards)
      && (next.Some? ==> current.epoch + 1 == next.value.epoch && current.nShards == next.value.nShards)
    }

    /** What a tracker is started with: a transition has a previous committee to come from. */
    predicate Valid() {
      Consistent() && (isTransitioning ==> previous.Some?)
    }

    function ReadCommittee(certified: nat): Option<Committee> {
      if certified > current.epoch then None
      else if !isTransitioning then Some(current)
      else if certified < current.epoch then previous
      else Some(current)
    }

    function CommitteeForEpoch(epoch: nat): Option<Committee> {
      if epoch == current.epoch then Some(current)
      else if epoch == current.epoch + 1 then next
      else if epoch + 1 == current.epoch then previous
      else None
    }
  }

  /** Reads are served for exactly the epochs up to the current one, by a committee that is the current or
      the outgoing one and not older than the certification. */
  lemma ReadsAreServed(ac: ActiveCommittees, certified: nat)
    requires ac.Valid()
    ensures ac.ReadCommittee(certified).Some? <==> certified <= ac.current.epoch
    ensures certified <= ac.current.epoch ==>
              var c := ac.ReadCommittee(certified).value;
              certified <= c.epoch && ac.CommitteeForEpoch(c.epoch) == Some(c)
              && (c == ac.current || (ac.isTransitioning && Some(c) == ac.previous))
  {
  }

  /** Which committees are known. */
  predicate Known(ac: ActiveCommittees, c: Committee) {
    c == ac.current || ac.previous == Some(c) || ac.next == Some(c)
  }

  /** The committee found for an epoch is the known committee of that epoch, if there is one; all known
      committees have the same number of shards. */
  lemma FoundExactly(ac: ActiveCommittees, epoch: nat, c: Committee)
    requires ac.Valid()
    ensures ac.CommitteeForEpoch(epoch) == Some(c) <==> Known(ac, c) && c.epoch == epoch
    ensures Known(ac, c) ==> c.nShards == ac.current.nShards
  {
  }

  // ----- the tracker's operations -----

  datatype TrackerError = NextCommitteeInconsistent | UnknownNextCommittee | ChangeInProgress | ChangeNotInProgress

  datatype Outcome = Done | Failed(error: TrackerError) | Panicked

  datatype Action = SetNext(committee: Committee) | StartChange | EndChange | Update(committees: ActiveCommittees)

  function Checked(ac: ActiveCommittees): Outcome {
    if ac.Consistent() then Done else Panicked
  }

  function Apply(ac: ActiveCommittees, a: Action): (ActiveCommittees, Outcome) {
    match a
    case SetNext(c) =>
      if c.epoch != ac.current.epoch + 1 then (ac, Panicked)
      else if ac.next.Some? && !SameEssentials(ac.next.value, c) then (ac, Failed(NextCommitteeInconsistent))
      else
        var ac' := ac.(next := Some(c));
        (ac', Checked(ac'))
    case StartChange =>
      if ac.next.None? then (ac, Failed(UnknownNextCommittee))
      else if ac.isTransitioning then (ac, Failed(ChangeInProgress))
      else
        var ac' := ActiveCommittees(ac.next.value, Some(ac.current), None, true);
        (ac', Checked(ac'))
    case EndChange =>
      if !ac.isTransitioning then (ac, Failed(ChangeNotInProgress))
      else
        var ac' := ac.(isTransitioning := false);
        if ac.previous.None? then (ac', Panicked) else (ac', Checked(ac'))
    case Update(committees) => (committees, Done)
  }

  class CommitteeTracker {
    var committees: ActiveCommittees

    constructor (committees: ActiveCommittees)
      ensures this.committees == committees
    {
      this.committees := committees;
    }

    method SetCommitteeForNextEpoch(committee: Committee) returns (outcome: Outcome)
      modifies this
      ensures (committees, outcome) == Apply(old(committees), SetNext(committee))
    {
      if committee.epoch != committees.current.epoch + 1 {
        return Panicked;
      }
      if committees.next.Some? {
        var same := CompareEssential(committees.next.value, committee);
        if !same {
          return Failed(NextCommitteeInconsistent);
        }
      }
      committees := committees.(next := Some(committee));
      outcome := Checked(committees);
    }

    method Start() returns (outcome: Outcome)
      modifies this
      ensures (committees, outcome) == Apply(old(committees), StartChange)
    {
      if committees.next.None? {
        return Failed(UnknownNextCommittee);
      }
      if committees.isTransitioning {
        return Failed(ChangeInProgress);
      }
      var next := committees.next.value;
      committees := committees.(next := None);
      var previous := committees.current;
      committees := committees.(current := next);
      committees := committees.(previous := Some(previous));
      committees := committees.(isTransitioning := true);
      outcome := Checked(committees);
    }

    /** On success `outgoing` is the committee whose term ended. */
    method End() returns (outcome: Outcome, outgoing: Option<Committee>)
      modifies this
      ensures (committees, outcome) == Apply(old(committees), EndChange)
      ensures outgoing == if outcome.Done? then old(committees.previous) else None
    {
      if !committees.isTransitioning {
        return Failed(ChangeNotInProgress), None;
      }
      committees := committees.(isTransitioning := false);
      if committees.previous.None? {
        return Panicked, None;
      }
      outcome := Checked(committees);
      outgoing := if outcome.Done? then committees.previous else None;
    }

    method UpdateActiveCommittees(committees: ActiveCommittees)
      modifies this
      ensures this.committees == committees
    {
      this.committees := committees;
    }
  }

  // ----- runs -----

  /** What callers hand in: committees obtained from the chain are valid. */
  predicate WellFormed(a: Action) {
    a.Update? ==> a.committees.Valid()
  }

  /** A step from a consistent state panics exactly when it names a next committee of the wrong epoch or,
      where none is known yet, of another shard count, or when it ends a change that has no previous
      committee to have come from. */
  lemma PanicsExactly(ac: ActiveCommittees, a: Action)
    requires ac.Consistent() && WellFormed(a)
    ensures Apply(ac, a).1.Panicked? <==>
            || (&& a.SetNext?
                && (|| a.committee.epoch != ac.current.epoch + 1
                    || (ac.next.None? && a.committee.nShards != ac.current.nShards)))
            || (a == EndChange && ac.isTransitioning && ac.previous.None?)
  {
  }

  /** Which steps are carried out and which are refused, and why. */
  lemma OutcomesExactly(ac: ActiveCommittees, a: Action)
    requires ac.Valid() && WellFormed(a) && !Apply(ac, a).1.Panicked?
    ensures var (after, outcome) := Apply(ac, a);
            && (outcome == Failed(NextCommitteeInconsistent) <==>
                  a.SetNext? && ac.next.Some? && !SameEssentials(ac.next.value, a.committee))
            && (outcome == Failed(UnknownNextCommittee) <==> a == StartChange && ac.next.None?)
            && (outcome == Failed(ChangeInProgress) <==> a == StartChange && ac.next.Some? && ac.isTransitioning)
            && (outcome == Failed(ChangeNotInProgress) <==> a == EndChange && !ac.isTransitioning)
            && (outcome.Failed? ==> after == ac)
  {
  }

  /** A next committee that was set is found under its epoch and takes over when the change starts. */
  lemma SetThenStart(ac: ActiveCommittees, c: Committee)
    requires ac.Valid() && Apply(ac, SetNext(c)).1.Done?
    ensures var ac' := Apply(ac, SetNext(c)).0;
            && ac'.Valid() && ac'.CommitteeForEpoch(c.epoch) == Some(c) && c.epoch == ac.current.epoch + 1
            && ac'.current == ac.current && ac'.previous == ac.previous && ac'.isTransitioning == ac.isTransitioning
            && (!ac.isTransitioning ==>
                  var (started, outcome) := Apply(ac', StartChange);
                  && outcome.Done? && started.current == c && started.previous == Some(ac.current)
                  && started.next == None && started.isTransitioning)
  {
  }

  lemma StepKeepsValid(ac: ActiveCommittees, a: Action)
    requires ac.Valid() && WellFormed(a) && !Apply(ac, a).1.Panicked?
    ensures Apply(ac, a).0.Valid()
  {
  }

  /** The state after a run, or nothing when a step panics. */
  function Run(ac: ActiveCommittees, actions: seq<Action>): Option<ActiveCommittees> {
    if actions == [] then Some(ac)
    else
      var before := Run(ac, actions[..|actions| - 1]);
      if before.None? then None
      else
        var (after, outcome) := Apply(before.value, actions[|actions| - 1]);
        if outcome.Panicked? then None else Some(after)
  }

  /** Number of steps of the run that were carried out and satisfy `StartChange?` or `EndChange?`. */
  function Carried(ac: ActiveCommittees, actions: seq<Action>, kind: Action): nat {
    if actions == [] then 0
    else
      var init, a := actions[..|actions| - 1], actions[|actions| - 1];
      var before := Run(ac, init);
      Carried(ac, init, kind)
      + if before.Some? && a == kind && Apply(before.value, a).1.Done? then 1 else 0
  }

  ghost predicate AllWellFormed(actions: seq<Action>) {
    forall a | a in actions :: WellFormed(a)
  }

  ghost predicate NoUpdate(actions: seq<Action>) {
    forall a | a in actions :: !a.Update?
  }

  /** Every run keeps the invariants. */
  lemma {:induction false} RunKeepsValid(ac: ActiveCommittees, actions: seq<Action>)
    requires ac.Valid() && AllWellFormed(actions)
    ensures Run(ac, actions).Some? ==> Run(ac, actions).value.Valid()
  {
    if actions != [] {
      RunKeepsValid(ac, actions[..|actions| - 1]);
      var before := Run(ac, actions[..|actions| - 1]);
      if Run(ac, actions).Some? {
        StepKeepsValid(before.value, actions[|actions| - 1]);
      }
    }
  }

  /** Between updates: the shard count never changes, the epoch advances once for each change started,
      and changes start and end in turn. */
  lemma {:induction false} ChangesAlternate(ac: ActiveCommittees, actions: seq<Action>)
    requires ac.Valid() && NoUpdate(actions) && Run(ac, actions).Some?
    ensures var end := Run(ac, actions).value;
            var starts, ends := Carried(ac, actions, StartChange), Carried(ac, actions, EndChange);
            && end.Valid()
            && end.current.nShards == ac.current.nShards
            && end.current.epoch == ac.current.epoch + starts
            && (if ac.isTransitioning then 1 else 0) + starts == ends + (if end.isTransitioning then 1 else 0)
  {
    if actions != [] {
      var init, a := actions[..|actions| - 1], actions[|actions| - 1];
      assert a in actions;
      ChangesAlternate(ac, init);
      StepKeepsValid(Run(ac, init).value, a);
    }
  }

  /** Every next committee set during the run is of the epoch after the current one and, where none is
      known yet, has the current shard count. */
  ghost predicate NextCommitteesFit(ac: ActiveCommittees, actions: seq<Action>) {
    if actions == [] then true
    else
      var init, a := actions[..|actions| - 1], actions[|actions| - 1];
      NextCommitteesFit(ac, init) && (Run(ac, init).Some? ==> Fits(Run(ac, init).value, a))
  }

  predicate Fits(ac: ActiveCommittees, a: Action) {
    a.SetNext? ==>
      && a.committee.epoch == ac.current.epoch + 1
      && (ac.next.None? ==> a.committee.nShards == ac.current.nShards)
  }

  /** A run is free of panics if and only if its next committees fit. */
  lemma {:induction false} NeverPanicsExactly(ac: ActiveCommittees, actions: seq<Action>)
    requires ac.Valid() && AllWellFormed(actions)
    ensures Run(ac, actions).Some? <==> NextCommitteesFit(ac, actions)
  {
    if actions != [] {
      var init, a := actions[..|actions| - 1], actions[|actions| - 1];
      assert a in actions;
      NeverPanicsExactly(ac, init);
      RunKeepsValid(ac, init);
      if Run(ac, init).Some? {
        PanicsExactly(Run(ac, init).value, a);
      }
    }
  }

  /** Starting a change moves no read: blobs certified up to then are read where they were. */
  lemma StartMovesNoRead(ac: ActiveCommittees, certified: nat)
    requires ac.Valid() && Apply(ac, StartChange).1.Done? && certified <= ac.current.epoch
    ensures Apply(ac, StartChange).0.ReadCommittee(certified) == ac.ReadCommittee(certified)
  {
  }

  /** A step moves the reads of an epoch only by ending a change, from the outgoing to the current
      committee. */
  lemma OnlyEndMovesReads(ac: ActiveCommittees, a: Action, certified: nat)
    requires ac.Valid() && !a.Update? && !Apply(ac, a).1.Panicked? && certified <= ac.current.epoch
    ensures var after := Apply(ac, a).0;
            if a == EndChange && ac.isTransitioning && certified < ac.current.epoch then
              ac.ReadCommittee(certified) == ac.previous && after.ReadCommittee(certified) == Some(ac.current)
            else
              after.ReadCommittee(certified) == ac.ReadCommittee(certified)
  {
  }

  /** Over a whole run the reads of a certified epoch stay where they are until a change ends. */
  lemma {:induction false} ReadsStayUntilEnd(ac: ActiveCommittees, actions: seq<Action>, certified: nat)
    requires ac.Valid() && NoUpdate(actions) && Run(ac, actions).Some? && certified <= ac.current.epoch
    requires Carried(ac, actions, EndChange) == 0
    ensures Run(ac, actions).value.ReadCommittee(certified) == ac.ReadCommittee(certified)
  {
    if actions != [] {
      var init, a := actions[..|actions| - 1], actions[|actions| - 1];
      assert a in actions;
      ReadsStayUntilEnd(ac, init, certified);
      ChangesAlternate(ac, init);
      OnlyEndMovesReads(Run(ac, init).value, a, certified);
    }
  }

  /** A next committee, once known, is fixed in its essentials: over every run it is that committee that
      stays next and then becomes current. */
  lemma {:induction false} KnownNextBecomesCurrent(ac: ActiveCommittees, actions: seq<Action>)
    requires ac.Valid() && ac.next.Some? && NoUpdate(actions) && Run(ac, actions).Some?
    ensures var end := Run(ac, actions).value;
            && end.Valid() && ac.current.epoch <= end.current.epoch
            && (end.current.epoch == ac.current.epoch ==>
                  end.next.Some? && SameEssentials(ac.next.value, end.next.value))
            && (end.current.epoch == ac.current.epoch + 1 ==> SameEssentials(ac.next.value, end.current))
  {
    if actions != [] {
      var init, a := actions[..|actions| - 1], actions[|actions| - 1];
      assert a in actions;
      KnownNextBecomesCurrent(ac, init);
      StepKeepsValid(Run(ac, init).value, a);
    }
  }

  /** The committee announced last for the coming epoch, and not yet in office. */
  function Announced(ac: ActiveCommittees, actions: seq<Action>): Option<Committee> {
    if actions == [] then ac.next
    else
      var init, a := actions[..|actions| - 1], actions[|actions| - 1];
      var before := Run(ac, init);
      if before.None? || !Apply(before.value, a).1.Done? then Announced(ac, init)
      else
        match a
        case SetNext(c) => Some(c)
        case StartChange => None
        case EndChange => Announced(ac, init)
        case Update(committees) => committees.next
  }

  /** Over every run the committee found for the coming epoch is the one announced last, and a change that
      starts puts exactly that one in office. */
  lemma {:induction false} AnnouncedTakesOffice(ac: ActiveCommittees, actions: seq<Action>)
    requires ac.Valid() && AllWellFormed(actions) && Run(ac, actions).Some?
    ensures var end := Run(ac, actions).value;
            && end.CommitteeForEpoch(end.current.epoch + 1) == Announced(ac, actions)
            && (Apply(end, StartChange).1.Done? ==>
                  Announced(ac, actions) == Some(Apply(end, StartChange).0.current))
  {
    RunKeepsValid(ac, actions);
    if actions != [] {
      var init, a := actions[..|actions| - 1], actions[|actions| - 1];
      assert a in actions;
      AnnouncedTakesOffice(ac, init);
    }
  }
}
