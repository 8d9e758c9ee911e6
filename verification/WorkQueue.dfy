/**
 The durable queue from which measurement nodes take experiments. Claim and
 finish are atomic under a file lock; each reads the whole state and writes it back.
 */
module WorkQueue {
  import opened Prelude

  type Name = string
  type NodeId = int

  datatype Status = Pending | Running | Succeeded | Failed

  datatype Group = Group(status: Status, node: Option<NodeId>)

  type Groups = map<Name, Group>

  /** Experiments against a shared service must not overlap. */
  predicate ServiceGroup(name: Name) {
    EndsWith(name, "-cube") || EndsWith(name, "-e2b")
  }

  datatype Queue = Queue(experiments: seq<Name>, placement: set<NodeId>, groups: Groups)
  {
    /** Every experiment has a group and every group is listed. */
    predicate Listed() {
      (forall n | n in groups :: n in experiments) && (forall n | n in experiments :: n in groups)
    }

    predicate AnyFailed() {
      exists n | n in groups :: groups[n].status.Failed?
    }

    predicate Runs(node: NodeId, name: Name) {
      name in groups && groups[name] == Group(Running, Some(node))
    }

    predicate Busy(node: NodeId) {
      exists n | n in groups :: Runs(node, n)
    }

    predicate ServiceBusy() {
      exists n | n in groups :: ServiceGroup(n) && groups[n].status.Running?
    }

    /** Pending, and free or leased to this node. */
    predicate Eligible(node: NodeId, name: Name) {
      name in groups && groups[name].status.Pending? && groups[name].node in {None, Some(node)}
    }

    predicate AnyEligible(node: NodeId) {
      exists n | n in groups :: Eligible(node, n)
    }

    predicate Claimable(node: NodeId, name: Name) {
      Eligible(node, name) && !(ServiceGroup(name) && ServiceBusy())
    }

    function Set(name: Name, g: Group): Queue {
      this.(groups := groups[name := g])
    }
  }

  datatype Claim = Claimed(name: Name) | Wait | Done | Refused

  /** The position of the first claimable experiment, or the end of the list. */
  function FirstClaimable(q: Queue, node: NodeId, from: nat): (i: nat)
    requires from <= |q.experiments|
    ensures from <= i <= |q.experiments|
    ensures i < |q.experiments| ==> q.Claimable(node, q.experiments[i])
    ensures forall j | from <= j < i :: !q.Claimable(node, q.experiments[j])
    decreases |q.experiments| - from
  {
    if from == |q.experiments| || q.Claimable(node, q.experiments[from]) then from
    else FirstClaimable(q, node, from + 1)
  }

  function ClaimResult(q: Queue, node: NodeId): Claim {
    if node !in q.placement then Refused
    else if q.AnyFailed() then Done
    else if q.Busy(node) then Refused
    else
      var i := FirstClaimable(q, node, 0);
      if i < |q.experiments| then Claimed(q.experiments[i])
      else if q.AnyEligible(node) then Wait
      else Done
  }

  function AfterClaim(q: Queue, node: NodeId): Queue {
    match ClaimResult(q, node)
    case Claimed(name) => q.Set(name, Group(Running, Some(node)))
    case _ => q
  }

  function AfterFinish(q: Queue, node: NodeId, name: Name, ok: bool): Queue
    requires q.Runs(node, name)
  {
    q.Set(name, Group(if ok then Succeeded else Failed, Some(node)))
  }

  /** The stored queue. */
  class WorkQueue {
    var state: Queue

    constructor (experiments: seq<Name>, placement: set<NodeId>, groups: Groups)
      requires forall n :: n in groups <==> n in experiments
      ensures state == Queue(experiments, placement, groups) && state.Listed()
    {
      state := Queue(experiments, placement, groups);
    }

    method Claim(node: NodeId) returns (r: Claim)
      requires state.Listed()
      modifies this
      ensures r == ClaimResult(old(state), node)
      ensures state == AfterClaim(old(state), node)
      ensures state.Listed()
    {
      if node !in state.placement {
        return Refused;
      }
      if state.AnyFailed() {
        return Done;
      }
      if state.Busy(node) {
        return Refused;
      }
      var serviceBusy := state.ServiceBusy();
      var i := 0;
      while i < |state.experiments|
        invariant 0 <= i <= |state.experiments|
        invariant state == old(state)
        invariant FirstClaimable(state, node, 0) == FirstClaimable(state, node, i)
      {
        var name := state.experiments[i];
        if state.Eligible(node, name) && !(ServiceGroup(name) && serviceBusy) {
          state := state.Set(name, Group(Running, Some(node)));
          return Claimed(name);
        }
        i := i + 1;
      }
      if state.AnyEligible(node) {
        return Wait;
      }
      return Done;
    }

    /** Refused unless this node is placed and runs the experiment. */
    method Finish(node: NodeId, name: Name, ok: bool) returns (accepted: bool)
      requires state.Listed()
      modifies this
      ensures accepted <==> node in old(state).placement && old(state).Runs(node, name)
      ensures state == if accepted then AfterFinish(old(state), node, name, ok) else old(state)
      ensures state.Listed()
    {
      accepted := node in state.placement && state.Runs(node, name);
      if accepted {
        state := state.Set(name, Group(if ok then Succeeded else Failed, Some(node)));
      }
    }
  }

  // ----- Runs -----

  /** What a node may do next: ask for work, or report on what it was given. */
  datatype Move =
    | Ask(node: NodeId)
    | Report(node: NodeId, name: Name, ok: bool)

  predicate Owns(q: Queue, node: NodeId, name: Name) {
    node in q.placement && q.Runs(node, name)
  }

  function Next(q: Queue, m: Move): Queue {
    match m
    case Ask(node) => AfterClaim(q, node)
    case Report(node, name, ok) => if Owns(q, node, name) then AfterFinish(q, node, name, ok) else q
  }

  function Play(q: Queue, moves: seq<Move>): Queue {
    if moves == [] then q else Next(Play(q, DropLast(moves)), Last(moves))
  }

  /** A queue as it is created or recovered: nothing runs or has failed. */
  predicate Initial(q: Queue) {
    && q.Listed()
    && forall n | n in q.groups :: q.groups[n].status in {Pending, Succeeded}
  }

  /** At most one service experiment runs, and each node runs at most one. */
  ghost predicate Exclusive(q: Queue) {
    && q.Listed()
    && (forall n | n in q.groups :: q.groups[n].status.Running? ==> q.groups[n].node.Some?)
    && (forall m, n | m in q.groups && n in q.groups ::
          q.groups[m].status.Running? && q.groups[n].status.Running? && m != n ==>
            q.groups[m].node != q.groups[n].node && !(ServiceGroup(m) && ServiceGroup(n)))
  }

  lemma ClaimExclusive(q: Queue, node: NodeId)
    requires Exclusive(q)
    ensures Exclusive(AfterClaim(q, node))
  {
    var r := ClaimResult(q, node);
    if r.Claimed? {
      var q' := AfterClaim(q, node);
      forall m | m in q.groups && q.groups[m].status.Running?
        ensures q.groups[m].node != Some(node) && !(ServiceGroup(m) && ServiceGroup(r.name))
      {
        assert !q.Runs(node, m);
      }
    }
  }

  lemma {:induction false} PlayExclusive(q: Queue, moves: seq<Move>)
    requires Initial(q)
    ensures Exclusive(Play(q, moves))
  {
    if moves != [] {
      var p, m := Play(q, DropLast(moves)), Last(moves);
      PlayExclusive(q, DropLast(moves));
      if m.Ask? {
        ClaimExclusive(p, m.node);
      }
    }
  }

  /** Leases name nodes of the placement. */
  ghost predicate LeasesPlaced(q: Queue) {
    q.placement != {} && forall n | n in q.groups :: q.groups[n].node.Some? ==> q.groups[n].node.value in q.placement
  }

  /** Every reachable queue is exclusive and leases only to placed nodes. */
  lemma {:induction false} PlayKeepsLeases(q: Queue, moves: seq<Move>)
    requires Initial(q) && LeasesPlaced(q)
    ensures Exclusive(Play(q, moves)) && LeasesPlaced(Play(q, moves))
  {
    PlayExclusive(q, moves);
    if moves != [] {
      PlayKeepsLeases(q, DropLast(moves));
    }
  }

  /** The life of one group: pending, running on one node, finished for good. A
      lease once given never changes hands. */
  ghost predicate Ages(g: Group, h: Group) {
    && (g.node.Some? ==> h.node == g.node)
    && match g.status
       case Pending => h.status.Pending? ==> h == g
       case Running => !h.status.Pending? && (h.status.Running? ==> h == g)
       case Succeeded => h == g
       case Failed => h == g
  }

  ghost predicate AllAge(p: Queue, q: Queue) {
    && q.experiments == p.experiments && q.placement == p.placement && q.groups.Keys == p.groups.Keys
    && forall n | n in p.groups :: Ages(p.groups[n], q.groups[n])
  }

  lemma NextAges(q: Queue, m: Move)
    requires q.Listed()
    ensures AllAge(q, Next(q, m)) && Next(q, m).Listed()
  {
    match m
    case Ask(node) =>
      var r := ClaimResult(q, node);
      if r.Claimed? {
        assert q.Eligible(node, r.name);
        assert Next(q, m).groups.Keys == q.groups.Keys;
      }
    case Report(node, name, ok) =>
      if Owns(q, node, name) {
        assert Next(q, m).groups.Keys == q.groups.Keys;
      }
  }

  lemma AgesChain(p: Queue, q: Queue, r: Queue)
    requires AllAge(p, q) && AllAge(q, r)
    ensures AllAge(p, r)
  {
    forall n | n in p.groups
      ensures Ages(p.groups[n], r.groups[n])
    {
      assert Ages(p.groups[n], q.groups[n]) && Ages(q.groups[n], r.groups[n]);
    }
  }

  lemma {:induction false} PlayAges(q: Queue, moves: seq<Move>)
    requires q.Listed()
    ensures AllAge(q, Play(q, moves)) && Play(q, moves).Listed()
  {
    if moves != [] {
      var p := Play(q, DropLast(moves));
      PlayAges(q, DropLast(moves));
      NextAges(p, Last(moves));
      AgesChain(q, p, Play(q, moves));
    }
  }

  lemma {:induction false} PlaySplit(q: Queue, moves: seq<Move>, i: nat)
    requires i <= |moves|
    ensures Play(q, moves) == Play(Play(q, moves[..i]), moves[i..])
  {
    if i == |moves| {
      assert moves[..i] == moves && moves[i..] == [];
    } else {
      PlaySplit(q, DropLast(moves), i);
      assert DropLast(moves)[..i] == moves[..i];
      assert DropLast(moves[i..]) == DropLast(moves)[i..];
    }
  }

  /** Move i of the run gives this experiment to this node. */
  predicate Starts(q: Queue, moves: seq<Move>, i: nat, node: NodeId, name: Name)
    requires i < |moves|
  {
    moves[i] == Ask(node) && ClaimResult(Play(q, moves[..i]), node) == Claimed(name)
  }

  /** Move i of the run finishes this experiment. */
  predicate Ends(q: Queue, moves: seq<Move>, i: nat, node: NodeId, name: Name)
    requires i < |moves|
  {
    moves[i].Report? && moves[i].node == node && moves[i].name == name && Owns(Play(q, moves[..i]), node, name)
  }

  /** The state just after move i ages into the state just before move j. */
  lemma Between(q: Queue, moves: seq<Move>, i: nat, j: nat)
    requires q.Listed() && i < j < |moves|
    ensures Play(q, moves[..i]).Listed()
    ensures Play(q, moves[..i + 1]) == Next(Play(q, moves[..i]), moves[i])
    ensures AllAge(Play(q, moves[..i + 1]), Play(q, moves[..j]))
  {
    PlayAges(q, moves[..i]);
    assert DropLast(moves[..i + 1]) == moves[..i];
    PlayAges(q, moves[..i + 1]);
    PlaySplit(q, moves[..j], i + 1);
    assert moves[..j][..i + 1] == moves[..i + 1];
    PlayAges(Play(q, moves[..i + 1]), moves[..j][i + 1..]);
  }

  /** In every run, no experiment is ever given out twice, whoever asks. */
  lemma StartedOnce(q: Queue, moves: seq<Move>, i: nat, j: nat, a: NodeId, b: NodeId, name: Name)
    requires q.Listed() && i < j < |moves| && Starts(q, moves, i, a, name)
    ensures !Starts(q, moves, j, b, name)
  {
    Between(q, moves, i, j);
    assert Ages(Play(q, moves[..i + 1]).groups[name], Play(q, moves[..j]).groups[name]);
    assert !Play(q, moves[..j]).Eligible(b, name);
  }

  /** In every run, an experiment is finished at most once, and only by the
      node it was given to. */
  lemma FinishedOnceByOwner(q: Queue, moves: seq<Move>, i: nat, j: nat, a: NodeId, b: NodeId, name: Name)
    requires q.Listed() && i < j < |moves|
    ensures Ends(q, moves, i, a, name) ==> !Ends(q, moves, j, b, name)
    ensures Starts(q, moves, i, a, name) && Ends(q, moves, j, b, name) ==> a == b
  {
    Between(q, moves, i, j);
    var p, r := Play(q, moves[..i + 1]), Play(q, moves[..j]);
    if name in p.groups {
      assert Ages(p.groups[name], r.groups[name]);
    }
  }

  /** A lease that exists at the start is honoured: only its node ever gets the
      experiment. */
  lemma LeaseHonoured(q: Queue, moves: seq<Move>, i: nat, node: NodeId, name: Name)
    requires q.Listed() && i < |moves| && Starts(q, moves, i, node, name)
    ensures name in q.groups && q.groups[name].node in {None, Some(node)}
  {
    PlayAges(q, moves[..i]);
    assert Play(q, moves[..i]).Eligible(node, name);
    assert Ages(q.groups[name], Play(q, moves[..i]).groups[name]);
  }

  lemma FailureStays(p: Queue, q: Queue)
    requires AllAge(p, q) && p.AnyFailed()
    ensures q.AnyFailed()
  {
    var n :| n in p.groups && p.groups[n].status.Failed?;
    assert Ages(p.groups[n], q.groups[n]);
  }

  /** After a failure nothing new starts. */
  lemma NothingAfterFailure(q: Queue, moves: seq<Move>, i: nat, j: nat, node: NodeId, name: Name)
    requires q.Listed() && i <= j < |moves| && Play(q, moves[..i]).AnyFailed()
    ensures !Starts(q, moves, j, node, name)
  {
    PlaySplit(q, moves[..j], i);
    assert moves[..j][..i] == moves[..i];
    PlayAges(q, moves[..i]);
    PlayAges(Play(q, moves[..i]), moves[..j][i..]);
    FailureStays(Play(q, moves[..i]), Play(q, moves[..j]));
  }

  // ----- What a claim answers -----

  /** The answer to a claim in plain terms: a stranger is refused; after a
      failure everyone is done; a node that runs something is refused; otherwise
      it gets the first pending experiment that is free or leased to it, unless
      that one needs the service while another uses it; waits if only such ones
      are left for it; and is done if none is. */
  lemma ClaimAnswers(q: Queue, node: NodeId)
    requires q.Listed()
    ensures var r := ClaimResult(q, node);
            && (r.Refused? <==> node !in q.placement || (!q.AnyFailed() && q.Busy(node)))
            && (r.Done? <==> node in q.placement && (q.AnyFailed() || (!q.Busy(node) && !q.AnyEligible(node))))
            && (r.Wait? <==>
                  && node in q.placement && !q.AnyFailed() && !q.Busy(node) && q.AnyEligible(node)
                  && forall n | n in q.groups && q.Eligible(node, n) :: ServiceGroup(n) && q.ServiceBusy())
            && (r.Claimed? <==>
                  && node in q.placement && !q.AnyFailed() && !q.Busy(node)
                  && exists n :: n in q.groups && q.Eligible(node, n) && !(ServiceGroup(n) && q.ServiceBusy()))
  {
    var i := FirstClaimable(q, node, 0);
    if i < |q.experiments| {
      assert q.Claimable(node, q.experiments[i]);
      assert q.AnyEligible(node);
    } else {
      forall n | n in q.groups
        ensures !q.Claimable(node, n)
      {
        var j :| 0 <= j < |q.experiments| && q.experiments[j] == n;
      }
    }
  }

  // ----- What a report records -----

  /** This move is a report on the experiment, with this outcome, by the node that runs it. */
  predicate Tells(q: Queue, m: Move, name: Name, ok: bool) {
    m.Report? && m.name == name && m.ok == ok && Owns(q, m.node, name)
  }

  /** An accepted report leaves its experiment succeeded if it said so and failed
      if not, with its node; nothing else about the queue changes. */
  lemma ReportRecords(q: Queue, node: NodeId, name: Name, ok: bool)
    requires Owns(q, node, name)
    ensures var q' := Next(q, Report(node, name, ok));
            && name in q'.groups && q'.groups[name].node == Some(node)
            && (q'.groups[name].status.Succeeded? <==> ok)
            && (q'.groups[name].status.Failed? <==> !ok)
            && q'.experiments == q.experiments && q'.placement == q.placement
            && q'.groups.Keys == q.groups.Keys
            && (forall n | n in q.groups && n != name :: q'.groups[n] == q.groups[n])
  {
  }

  lemma OutcomeNext(q: Queue, m: Move, name: Name)
    requires q.Listed() && name in q.groups
    ensures name in Next(q, m).groups
    ensures Next(q, m).groups[name].status.Succeeded? <==> q.groups[name].status.Succeeded? || Tells(q, m, name, true)
    ensures Next(q, m).groups[name].status.Failed? <==> q.groups[name].status.Failed? || Tells(q, m, name, false)
  {
    if m.Report? && Owns(q, m.node, m.name) {
      ReportRecords(q, m.node, m.name, m.ok);
    } else if m.Ask? {
      var r := ClaimResult(q, m.node);
      if r.Claimed? {
        assert q.Eligible(m.node, r.name);
      }
    }
  }

  /** Some move of the run is such a report. */
  ghost predicate Told(q: Queue, moves: seq<Move>, name: Name, ok: bool) {
    exists i: nat :: TellsAt(q, moves, i, name, ok)
  }

  ghost predicate TellsAt(q: Queue, moves: seq<Move>, i: nat, name: Name, ok: bool) {
    i < |moves| && Tells(Play(q, moves[..i]), moves[i], name, ok)
  }

  lemma ToldSnoc(q: Queue, moves: seq<Move>, m: Move, name: Name, ok: bool)
    ensures Told(q, moves + [m], name, ok) <==> Told(q, moves, name, ok) || Tells(Play(q, moves), m, name, ok)
  {
    var more := moves + [m];
    assert more[..|moves|] == moves && more[|moves|] == m;
    if i: nat :| TellsAt(q, more, i, name, ok) {
      if i < |moves| {
        assert more[..i] == moves[..i] && more[i] == moves[i];
        assert TellsAt(q, moves, i, name, ok);
      }
    }
    if i: nat :| TellsAt(q, moves, i, name, ok) {
      assert more[..i] == moves[..i] && more[i] == moves[i];
      assert TellsAt(q, more, i, name, ok);
    }
    if Tells(Play(q, moves), m, name, ok) {
      assert TellsAt(q, more, |moves|, name, ok);
    }
  }

  /** Over every run: an experiment has succeeded exactly when it had at the
      start or its node reported success, and failed exactly when its node
      reported failure. */
  lemma {:induction false} OutcomesAreReports(q: Queue, moves: seq<Move>, name: Name)
    requires Initial(q) && name in q.groups
    ensures name in Play(q, moves).groups
    ensures Play(q, moves).groups[name].status.Succeeded? <==>
            q.groups[name].status.Succeeded? || Told(q, moves, name, true)
    ensures Play(q, moves).groups[name].status.Failed? <==> Told(q, moves, name, false)
  {
    if moves != [] {
      var init, m := DropLast(moves), Last(moves);
      assert moves == init + [m];
      OutcomesAreReports(q, init, name);
      PlayAges(q, init);
      OutcomeNext(Play(q, init), m, name);
      ToldSnoc(q, init, m, name, true);
      ToldSnoc(q, init, m, name, false);
    }
  }

  /** The queue has failed exactly when some node reported a failure. */
  lemma FailedMeansReported(q: Queue, moves: seq<Move>)
    requires Initial(q)
    ensures Play(q, moves).AnyFailed() <==> exists name :: name in q.groups && Told(q, moves, name, false)
  {
    PlayAges(q, moves);
    forall name | name in q.groups
      ensures Play(q, moves).groups[name].status.Failed? <==> Told(q, moves, name, false)
    {
      OutcomesAreReports(q, moves, name);
    }
  }

  /** Which experiments use a shared service. */
  lemma ServiceNames(name: Name)
    ensures ServiceGroup(name) <==> exists prefix: string :: name == prefix + "-cube" || name == prefix + "-e2b"
  {
    if EndsWith(name, "-cube") {
      assert name == name[..|name| - 5] + "-cube";
    }
    if EndsWith(name, "-e2b") {
      assert name == name[..|name| - 4] + "-e2b";
    }
  }

  // ----- Progress -----

  /** A node is told to wait only while another node runs a service experiment. */
  lemma WaitMeansServiceElsewhere(q: Queue, node: NodeId) returns (name: Name, other: NodeId)
    requires Exclusive(q) && ClaimResult(q, node) == Wait
    ensures ServiceGroup(name) && q.Runs(other, name) && other != node
  {
    var n :| n in q.groups && q.Eligible(node, n);
    var i :| 0 <= i < |q.experiments| && q.experiments[i] == n;
    assert !q.Claimable(node, q.experiments[i]);
    assert q.ServiceBusy();
    name :| name in q.groups && ServiceGroup(name) && q.groups[name].status.Running?;
    other := q.groups[name].node.value;
    assert q.Runs(other, name);
    assert !q.Runs(node, name);
  }

  /** A node told that it is done stays done, whatever anyone does. */
  lemma DoneIsForGood(q: Queue, moves: seq<Move>, node: NodeId)
    requires Exclusive(q) && ClaimResult(q, node) == Done
    ensures ClaimResult(Play(q, moves), node) == Done
  {
    PlayAges(q, moves);
    var p := Play(q, moves);
    if q.AnyFailed() {
      FailureStays(q, p);
    } else {
      forall n | n in p.groups
        ensures !p.Eligible(node, n)
      {
        assert Ages(q.groups[n], p.groups[n]);
        assert !q.Eligible(node, n);
      }
      NeverStartsAgain(q, moves, node);
    }
  }

  /** With nothing eligible and nothing running, a node never runs again. */
  lemma {:induction false} NeverStartsAgain(q: Queue, moves: seq<Move>, node: NodeId)
    requires q.Listed() && !q.AnyEligible(node) && !q.Busy(node)
    ensures !Play(q, moves).AnyEligible(node) && !Play(q, moves).Busy(node)
  {
    if moves != [] {
      NeverStartsAgain(q, DropLast(moves), node);
      var p, p' := Play(q, DropLast(moves)), Play(q, moves);
      PlayAges(q, DropLast(moves));
      NextAges(p, Last(moves));
      forall n | n in p'.groups
        ensures !p'.Eligible(node, n) && !p'.Runs(node, n)
      {
        assert Ages(p.groups[n], p'.groups[n]);
        assert !p.Eligible(node, n) && !p.Runs(node, n);
      }
    }
  }

  function Weight(g: Group): nat {
    match g.status
    case Pending => 2
    case Running => 1
    case Succeeded => 0
    case Failed => 0
  }

  /** The work left over a list of experiments. */
  function Rank(groups: Groups, names: seq<Name>): nat
    requires forall n | n in names :: n in groups
  {
    if names == [] then 0 else Rank(groups, DropLast(names)) + Weight(groups[Last(names)])
  }

  lemma {:induction false} RankSet(groups: Groups, names: seq<Name>, name: Name, g: Group)
    requires NoRepeats(names) && (forall n | n in names :: n in groups) && name in groups
    ensures Rank(groups[name := g], names)
            == Rank(groups, names) + if name in names then Weight(g) - Weight(groups[name]) else 0
  {
    if names != [] {
      assert names == DropLast(names) + [Last(names)];
      RankSet(groups, DropLast(names), name, g);
      if Last(names) == name {
        assert name !in DropLast(names);
      }
    }
  }

  /** A claim that gives out work, or an accepted report. */
  predicate Effective(q: Queue, m: Move) {
    match m
    case Ask(node) => ClaimResult(q, node).Claimed?
    case Report(node, name, _) => Owns(q, node, name)
  }

  /** Each effective move lowers the rank by one, and no other changes anything. */
  lemma EveryStepCounts(q: Queue, m: Move)
    requires q.Listed() && NoRepeats(q.experiments)
    ensures Next(q, m).Listed()
    ensures var r, r' := Rank(q.groups, q.experiments), Rank(Next(q, m).groups, q.experiments);
            if Effective(q, m) then r' == r - 1 else Next(q, m) == q && r' == r
  {
    NextAges(q, m);
    match m
    case Ask(node) =>
      var r := ClaimResult(q, node);
      if r.Claimed? {
        RankSet(q.groups, q.experiments, r.name, Group(Running, Some(node)));
      }
    case Report(node, name, ok) =>
      if Owns(q, node, name) {
        RankSet(q.groups, q.experiments, name, Group(if ok then Succeeded else Failed, Some(node)));
      }
  }

  /** How many moves of a run are effective. */
  function Effects(q: Queue, moves: seq<Move>): nat {
    if moves == [] then 0
    else Effects(q, DropLast(moves)) + if Effective(Play(q, DropLast(moves)), Last(moves)) then 1 else 0
  }

  lemma {:induction false} RankBound(groups: Groups, names: seq<Name>)
    requires forall n | n in names :: n in groups
    ensures Rank(groups, names) <= 2 * |names|
  {
    if names != [] {
      RankBound(groups, DropLast(names));
    }
  }

  lemma {:induction false} EffectsSpendRank(q: Queue, moves: seq<Move>)
    requires q.Listed() && NoRepeats(q.experiments)
    ensures Play(q, moves).Listed() && Play(q, moves).experiments == q.experiments
    ensures Effects(q, moves) + Rank(Play(q, moves).groups, q.experiments) == Rank(q.groups, q.experiments)
  {
    if moves != [] {
      EffectsSpendRank(q, DropLast(moves));
      EveryStepCounts(Play(q, DropLast(moves)), Last(moves));
    }
    PlayAges(q, moves);
  }

  /** However long a run, it gives out and finishes work at most as often as
      there was work left, which is at most twice per experiment. */
  lemma EffectsBounded(q: Queue, moves: seq<Move>)
    requires q.Listed() && NoRepeats(q.experiments)
    ensures Effects(q, moves) <= Rank(q.groups, q.experiments) <= 2 * |q.experiments|
  {
    EffectsSpendRank(q, moves);
    RankBound(q.groups, q.experiments);
  }

  lemma Member<T>(s: set<T>) returns (x: T)
    requires s != {}
    ensures x in s
  {
    x :| x in s;
  }

  /** The queue cannot deadlock: short of a failure and short of success
      everywhere, some node runs something or is given work when it asks. */
  lemma SomeoneCanMove(q: Queue) returns (node: NodeId)
    requires Exclusive(q) && LeasesPlaced(q) && !q.AnyFailed()
    requires exists n | n in q.groups :: !q.groups[n].status.Succeeded?
    ensures node in q.placement
    ensures q.Busy(node) || ClaimResult(q, node).Claimed?
  {
    if exists n | n in q.groups :: q.groups[n].status.Running? {
      var n :| n in q.groups && q.groups[n].status.Running?;
      node := q.groups[n].node.value;
      assert q.Runs(node, n);
    } else {
      var n :| n in q.groups && !q.groups[n].status.Succeeded?;
      assert q.groups[n].status.Pending?;
      if q.groups[n].node.Some? {
        node := q.groups[n].node.value;
      } else {
        node := Member(q.placement);
      }
      assert q.Claimable(node, n);
      var i :| 0 <= i < |q.experiments| && q.experiments[i] == n;
    }
  }

  /** Without a failure, once every node is done every experiment succeeded. */
  lemma AllDoneMeansAllSucceeded(q: Queue)
    requires Exclusive(q) && LeasesPlaced(q) && !q.AnyFailed()
    requires forall node | node in q.placement :: ClaimResult(q, node) == Done
    ensures forall n | n in q.groups :: q.groups[n].status.Succeeded?
  {
    if exists n | n in q.groups :: !q.groups[n].status.Succeeded? {
      var node := SomeoneCanMove(q);
    }
  }
}
