/**
 Which trees the whole pipeline accepts: every restore that the compiler emits
 names an earlier checkpoint, so acceptance depends on the checkpoint IDs and on
 the recorded actions of the nodes that ran, and on nothing else.
 */
module TreeAcceptance {
  import opened Prelude
  import opened Schedule
  import opened Actions
  import opened TreeSchedule
  import opened TreeReplay

  // ----- Judging one event more -----

  /** Every restore names a checkpoint taken earlier. */
  ghost predicate RestoresBack(events: seq<Event>) {
    forall i: nat | i < |events| && events[i].Restore? :: Introduced(events, i, events[i].target)
  }

  lemma RestoresBackSnoc(events: seq<Event>, e: Event)
    requires RestoresBack(events) && (e.Restore? ==> Introduced(events, |events|, e.target))
    ensures RestoresBack(events + [e])
  {
    var more := events + [e];
    IntroducedSnoc(events, e);
    forall i: nat | i < |more| && more[i].Restore?
      ensures Introduced(more, i, more[i].target)
    {
      if i < |events| {
        assert events[i] == more[i];
      }
    }
  }

  lemma RestoreLegal(events: seq<Event>, target: string, adaptive: bool)
    requires Introduced(events, |events|, target)
    ensures AllLegal(events + [Restore(target)], adaptive) <==> AllLegal(events, adaptive)
  {
    var more := events + [Restore(target)];
    LegalSnoc(events, Restore(target), adaptive);
    IntroducedSnoc(events, Restore(target));
    assert more[|events|] == Restore(target);
  }

  lemma CkptLegal(events: seq<Event>, e: Event, adaptive: bool)
    requires e.Ckpt?
    ensures AllLegal(events + [e], adaptive) <==>
            AllLegal(events, adaptive) && e.id != "" && !Introduced(events, |events|, e.id) && PayloadOk(e, adaptive)
  {
    LegalSnoc(events, e, adaptive);
    IntroducedSnoc(events, e);
    assert (events + [e])[|events|] == e;
  }

  // ----- Judging one row more -----

  /** One of the first k rows ran and took this checkpoint. */
  ghost predicate RanAs(cid: int -> string, es: seq<Row>, k: nat, id: string)
    requires k <= |es| && forall i | 0 <= i < |es| :: es[i].id.Some?
  {
    exists j :: 0 <= j < k && es[j].Emits() && cid(es[j].id.value) == id
  }

  ghost predicate PayloadFits(r: Row) {
    r.parent.NoParent? || (r.ops != [] && AllHandled(r.ops))
  }

  /** Row k takes no checkpoint, or an acceptable one under a new ID. */
  ghost predicate RowFits(cid: int -> string, es: seq<Row>, k: nat)
    requires k < |es| && forall i | 0 <= i < |es| :: es[i].id.Some?
  {
    es[k].Emits() ==>
      cid(es[k].id.value) != "" && !RanAs(cid, es, k, cid(es[k].id.value)) && PayloadFits(es[k])
  }

  ghost predicate RowsFit(cid: int -> string, es: seq<Row>, n: nat)
    requires n <= |es| && forall i | 0 <= i < |es| :: es[i].id.Some?
  {
    forall k: nat | k < n :: RowFits(cid, es, k)
  }

  /** What holds of the timed events of the first k rows. */
  ghost predicate Judged(cid: int -> string, es: seq<Row>, k: nat, events: seq<Event>, adaptive: bool)
    requires k <= |es| && forall i | 0 <= i < |es| :: es[i].id.Some?
  {
    && RestoresBack(events)
    && (forall id :: Introduced(events, |events|, id) <==> RanAs(cid, es, k, id))
    && (AllLegal(events, adaptive) <==> RowsFit(cid, es, k))
  }

  lemma RanAsMore(cid: int -> string, es: seq<Row>, k: nat, id: string)
    requires k < |es| && forall i | 0 <= i < |es| :: es[i].id.Some?
    ensures RanAs(cid, es, k + 1, id) <==> RanAs(cid, es, k, id) || (es[k].Emits() && cid(es[k].id.value) == id)
  {
    if RanAs(cid, es, k, id) {
      var j :| 0 <= j < k && es[j].Emits() && cid(es[j].id.value) == id;
    }
  }

  lemma RowsFitMore(cid: int -> string, es: seq<Row>, k: nat)
    requires k < |es| && forall i | 0 <= i < |es| :: es[i].id.Some?
    ensures RowsFit(cid, es, k + 1) <==> RowsFit(cid, es, k) && RowFits(cid, es, k)
  {
  }

  /** A jump restores a checkpoint that some earlier row took. */
  lemma JumpJudged(cid: int -> string, es: seq<Row>, k: nat, st: Emission, events: seq<Event>, adaptive: bool)
    requires Expansion(es) && k < |es| && Tracked(cid, es, k, st)
    requires Judged(cid, es, k, events, adaptive)
    ensures Judged(cid, es, k, events + Jump(st, es[k]), adaptive)
  {
    if Jump(st, es[k]) == [] {
      assert events + [] == events;
    } else {
      var p := es[k].parent.id.value;
      var target := st.ckpts[p];
      CkptOfEarlierRow(cid, es, k, st, p);
      assert Introduced(events, |events|, target);
      RestoresBackSnoc(events, Restore(target));
      RestoreLegal(events, target, adaptive);
      IntroducedSnoc(events, Restore(target));
    }
  }

  lemma CkptOfEarlierRow(cid: int -> string, es: seq<Row>, k: nat, st: Emission, p: int)
    requires Expansion(es) && k <= |es| && Tracked(cid, es, k, st) && p in st.ckpts
    ensures RanAs(cid, es, k, st.ckpts[p])
  {
    assert Ran(es, k, Some(p));
    var j: nat :| RanBefore(es, k, Some(p), j);
  }

  lemma OwnJudged(cid: int -> string, es: seq<Row>, k: nat, events: seq<Event>, e: Event, adaptive: bool)
    requires k < |es| && (forall i | 0 <= i < |es| :: es[i].id.Some?) && es[k].Emits()
    requires Judged(cid, es, k, events, adaptive)
    requires e.Ckpt? && e.id == cid(es[k].id.value) && (PayloadOk(e, adaptive) <==> PayloadFits(es[k]))
    ensures Judged(cid, es, k + 1, events + [e], adaptive)
  {
    RestoresBackSnoc(events, e);
    CkptLegal(events, e, adaptive);
    IntroducedSnoc(events, e);
    RowsFitMore(cid, es, k);
    var more := events + [e];
    forall id
      ensures Introduced(more, |more|, id) <==> RanAs(cid, es, k + 1, id)
    {
      RanAsMore(cid, es, k, id);
      assert Introduced(events, |events|, id) <==> RanAs(cid, es, k, id);
    }
  }

  /** A row that does not run changes nothing. */
  lemma RestJudged(cid: int -> string, es: seq<Row>, k: nat, events: seq<Event>, adaptive: bool)
    requires k < |es| && (forall i | 0 <= i < |es| :: es[i].id.Some?) && !es[k].Emits()
    requires Judged(cid, es, k, events, adaptive)
    ensures Judged(cid, es, k + 1, events, adaptive)
  {
    RowsFitMore(cid, es, k);
    forall id
      ensures RanAs(cid, es, k + 1, id) <==> RanAs(cid, es, k, id)
    {
      RanAsMore(cid, es, k, id);
    }
  }

  ghost predicate NonNegative(latencies: seq<real>) {
    forall i | 0 <= i < |latencies| :: latencies[i] >= 0.0
  }

  lemma {:induction false} SumNonNegative(xs: seq<real>)
    requires NonNegative(xs)
    ensures Sum(xs) >= 0.0
  {
    if xs != [] {
      SumNonNegative(DropLast(xs));
    }
  }

  lemma LatencyNonNegative(latencies: seq<real>, i: nat)
    requires latencies != [] && NonNegative(latencies)
    ensures LatencyAt(latencies, i) >= 0.0
  {
    SumNonNegative(latencies);
  }

  /** Timing leaves a checkpoint only its operations to be judged by. */
  lemma TimedPayload(cid: int -> string, r: Row, latency: real, adaptive: bool)
    requires OwnWork(r) && r.Emits() && latency >= 0.0
    ensures OwnCkpt(cid, r) == [OwnCkpt(cid, r)[0]] && OwnCkpt(cid, r)[0].Ckpt?
    ensures PayloadOk(TimeEvent(OwnCkpt(cid, r)[0], latency, adaptive), adaptive) <==> PayloadFits(r)
  {
  }

  lemma TimedJump(events: seq<Event>, st: Emission, r: Row, latencies: seq<real>, adaptive: bool)
    requires latencies != []
    ensures Timed(events + Jump(st, r), latencies, adaptive) == Timed(events, latencies, adaptive) + Jump(st, r)
  {
    if Jump(st, r) == [] {
      assert events + [] == events;
    } else {
      TimedSnoc(events, Jump(st, r)[0], latencies, adaptive);
    }
  }

  lemma RowJudged(cid: int -> string, es: seq<Row>, k: nat, st: Emission, latencies: seq<real>, adaptive: bool)
    returns (events: seq<Event>)
    requires Expansion(es) && k < |es| && Tracked(cid, es, k, st)
    requires latencies != [] && NonNegative(latencies)
    requires Judged(cid, es, k, Timed(st.events, latencies, adaptive), adaptive)
    ensures events == Timed(EmitRow(cid, st, es[k]).events, latencies, adaptive)
    ensures Judged(cid, es, k + 1, events, adaptive)
  {
    var r, before := es[k], st.events + Jump(st, es[k]);
    TimedJump(st.events, st, r, latencies, adaptive);
    JumpJudged(cid, es, k, st, Timed(st.events, latencies, adaptive), adaptive);
    events := Timed(before, latencies, adaptive);
    if r.Emits() {
      var own, latency := OwnCkpt(cid, r)[0], LatencyAt(latencies, CountCkpts(before));
      LatencyNonNegative(latencies, CountCkpts(before));
      TimedPayload(cid, r, latency, adaptive);
      TimedSnoc(before, own, latencies, adaptive);
      OwnJudged(cid, es, k, events, TimeEvent(own, latency, adaptive), adaptive);
      assert EmitRow(cid, st, r).events == before + [own];
      events := events + [TimeEvent(own, latency, adaptive)];
    } else {
      RestJudged(cid, es, k, events, adaptive);
      assert EmitRow(cid, st, r).events == before;
    }
  }

  lemma NothingJudged(cid: int -> string, es: seq<Row>, adaptive: bool)
    requires Expansion(es)
    ensures Judged(cid, es, 0, [], adaptive)
  {
  }

  /** The timed events of the first k rows have been judged. */
  ghost predicate JudgedTo(cid: int -> string, es: seq<Row>, st: Emission, k: nat, latencies: seq<real>, adaptive: bool)
    requires k <= |es| && latencies != [] && forall i | 0 <= i < |es| :: es[i].id.Some?
  {
    Judged(cid, es, k, Timed(st.events, latencies, adaptive), adaptive)
  }

  lemma JudgeNext(cid: int -> string, es: seq<Row>, trace: seq<Emission>, k: nat, latencies: seq<real>, adaptive: bool)
    requires Expansion(es) && k < |es| && Traces(cid, es, trace) && latencies != [] && NonNegative(latencies)
    requires JudgedTo(cid, es, trace[k], k, latencies, adaptive)
    ensures JudgedTo(cid, es, trace[k + 1], k + 1, latencies, adaptive)
  {
    TraceTracks(cid, es, trace, k);
    assert Follows(cid, es, trace, k);
    var events := RowJudged(cid, es, k, trace[k], latencies, adaptive);
  }

  lemma {:induction false} TraceJudged(cid: int -> string, es: seq<Row>, trace: seq<Emission>, k: nat,
                                       latencies: seq<real>, adaptive: bool)
    requires Expansion(es) && k <= |es| && Traces(cid, es, trace) && latencies != [] && NonNegative(latencies)
    ensures JudgedTo(cid, es, trace[k], k, latencies, adaptive)
  {
    if k == 0 {
      NothingJudged(cid, es, adaptive);
    } else {
      TraceJudged(cid, es, trace, k - 1, latencies, adaptive);
      JudgeNext(cid, es, trace, k - 1, latencies, adaptive);
    }
  }

  lemma CompileJudged(cid: int -> string, es: seq<Row>, latencies: seq<real>, adaptive: bool)
    returns (events: seq<Event>)
    requires Expansion(es) && latencies != [] && NonNegative(latencies)
    ensures events == Timed(Compile(cid, es, |es|).events, latencies, adaptive)
    ensures Judged(cid, es, |es|, events, adaptive)
  {
    var trace := CompileTrace(cid, es);
    TraceJudged(cid, es, trace, |es|, latencies, adaptive);
    events := Timed(Compile(cid, es, |es|).events, latencies, adaptive);
  }

  // ----- Every restore names an earlier checkpoint -----

  /** For every tree, accepted or not. */
  lemma RestoresNameEarlier(cid: int -> string, root: Node)
    ensures RestoresBack(Linearize(cid, root))
  {
    var events, es := Linearize(cid, root), ById(Rows(root));
    ExpansionFacts(root);
    var timed := CompileJudged(cid, es, [0.0], true);
    TimedAt(events, [0.0], true);
    forall i: nat | i < |events| && events[i].Restore?
      ensures Introduced(events, i, events[i].target)
    {
      assert SameWork(events[i], timed[i]);
      assert Introduced(timed, i, timed[i].target);
      var j :| 0 <= j < i && timed[j].Ckpt? && timed[j].id == timed[i].target;
      assert SameWork(events[j], timed[j]);
    }
  }

  // ----- The nodes behind the rows -----

  /** The node is one of these, or below one. */
  ghost predicate Under(nodes: seq<Node>, n: Node)
    decreases nodes
  {
    exists c :: c in nodes && (c == n || Under(c.children, n))
  }

  ghost predicate RowOf(n: Node, r: Row) {
    && r.id == n.id && r.dup == n.dup && r.parent.Parent?
    && r.ops == NodeOps(n.steps) && r.strategy == NodeStrategy(n.steps)
  }

  ghost predicate HasNode(nodes: seq<Node>, r: Row) {
    exists n :: Under(nodes, n) && RowOf(n, r)
  }

  ghost predicate HasRow(rows: seq<Row>, n: Node) {
    exists r :: r in rows && RowOf(n, r)
  }

  lemma UnderFirst(nodes: seq<Node>, n: Node)
    requires nodes != []
    ensures Under(nodes, n) <==> n == nodes[0] || Under(nodes[0].children, n) || Under(nodes[1..], n)
  {
    if Under(nodes, n) {
      var c :| c in nodes && (c == n || Under(c.children, n));
      assert c == nodes[0] || c in nodes[1..];
    }
    if Under(nodes[1..], n) {
      var c :| c in nodes[1..] && (c == n || Under(c.children, n));
      assert c in nodes;
    }
    assert nodes[0] in nodes;
  }

  /** Below the root, visited rows and nodes correspond. */
  lemma {:induction false} WalkAllNodes(nodes: seq<Node>, parent: ParentRef, above: seq<Work>)
    requires parent.Parent?
    ensures forall r | r in WalkAll(nodes, parent, above) :: HasNode(nodes, r)
    ensures forall n | Under(nodes, n) :: HasRow(WalkAll(nodes, parent, above), n)
    decreases nodes
  {
    if nodes == [] {
      return;
    }
    var first, own := nodes[0], Visit(nodes[0], parent, above);
    var below, rest := WalkAll(first.children, Parent(first.id), own.path), WalkAll(nodes[1..], parent, above);
    var rows := WalkAll(nodes, parent, above);
    assert Walk(first, parent, above) == [own] + below;
    assert rows == ([own] + below) + rest;
    WalkAllNodes(first.children, Parent(first.id), own.path);
    WalkAllNodes(nodes[1..], parent, above);
    assert RowOf(first, own);
    forall r | r in rows
      ensures HasNode(nodes, r)
    {
      var n := if r == own then first
               else if r in below then Witness(first.children, r) else Witness(nodes[1..], r);
      UnderFirst(nodes, n);
    }
    forall n | Under(nodes, n)
      ensures HasRow(rows, n)
    {
      UnderFirst(nodes, n);
      if n == first {
        assert own in rows;
      } else if Under(first.children, n) {
        HasRowGrows(below, rows, n);
      } else {
        HasRowGrows(rest, rows, n);
      }
    }
  }

  ghost function Witness(nodes: seq<Node>, r: Row): (n: Node)
    requires HasNode(nodes, r)
    ensures Under(nodes, n) && RowOf(n, r)
  {
    var n :| Under(nodes, n) && RowOf(n, r);
    n
  }

  lemma HasRowGrows(rows: seq<Row>, more: seq<Row>, n: Node)
    requires HasRow(rows, n) && forall r | r in rows :: r in more
    ensures HasRow(more, n)
  {
    var r :| r in rows && RowOf(n, r);
    assert r in more;
  }

  // ----- The exact condition -----

  /** A node below the root that takes a checkpoint. */
  ghost predicate Expanded(root: Node, n: Node) {
    Under(root.children, n) && n.id.Some? && !n.dup
  }

  /** The root or a node below it that takes a checkpoint. */
  ghost predicate Takes(root: Node, n: Node) {
    n.id.Some? && (n == root || Expanded(root, n))
  }

  /** Some node takes a checkpoint, all of them under present and distinct IDs,
      and those below the root carry only actions that can be replayed. */
  ghost predicate Acceptable(cid: int -> string, root: Node) {
    && (exists n :: Takes(root, n))
    && (forall n | Takes(root, n) :: cid(n.id.value) != "")
    && (forall n, q | Takes(root, n) && Takes(root, q) && n.id != q.id :: cid(n.id.value) != cid(q.id.value))
    && (forall n | Expanded(root, n) :: Replayable(n.steps))
  }

  /** The same, said of rows. */
  ghost predicate AcceptableRows(cid: int -> string, rows: seq<Row>) {
    && (exists r :: r in rows && r.Emits())
    && (forall r | r in rows && r.Emits() :: cid(r.id.value) != "" && PayloadFits(r))
    && (forall r, q | r in rows && q in rows && r.Emits() && q.Emits() && r.id != q.id ::
          cid(r.id.value) != cid(q.id.value))
  }

  /** Rows that take a checkpoint are nodes that take one. */
  lemma RowTaken(root: Node, r: Row) returns (n: Node)
    requires r in Rows(root) && r.Emits()
    ensures Takes(root, n) && n.id == r.id
    ensures r.parent.Parent? ==>
              Expanded(root, n) && r.ops == NodeOps(n.steps) && r.strategy == NodeStrategy(n.steps)
  {
    var own := Visit(root, NoParent, []);
    var below := WalkAll(root.children, Parent(root.id), own.path);
    assert Rows(root) == [own] + below;
    WalkAllNodes(root.children, Parent(root.id), own.path);
    n := if r == own then root else Witness(root.children, r);
  }

  lemma TakerRow(root: Node, n: Node) returns (r: Row)
    requires Takes(root, n)
    ensures r in Rows(root) && r.Emits() && r.id == n.id
    ensures Expanded(root, n) ==>
              r.parent.Parent? && r.ops == NodeOps(n.steps) && r.strategy == NodeStrategy(n.steps)
  {
    var own := Visit(root, NoParent, []);
    var below := WalkAll(root.children, Parent(root.id), own.path);
    assert Rows(root) == [own] + below;
    WalkAllNodes(root.children, Parent(root.id), own.path);
    if Expanded(root, n) {
      assert HasRow(below, n);
      r :| r in below && RowOf(n, r);
    } else {
      r := own;
    }
  }

  lemma AcceptableNodes(cid: int -> string, root: Node)
    requires AcceptableRows(cid, Rows(root))
    ensures Acceptable(cid, root)
  {
    var r :| r in Rows(root) && r.Emits();
    var some := RowTaken(root, r);
    forall n | Takes(root, n)
      ensures cid(n.id.value) != "" && (Expanded(root, n) ==> Replayable(n.steps))
    {
      var r := TakerRow(root, n);
      ReplayableIff(n.steps);
    }
    forall n | Expanded(root, n)
      ensures Replayable(n.steps)
    {
      assert Takes(root, n);
    }
    forall n, q | Takes(root, n) && Takes(root, q) && n.id != q.id
      ensures cid(n.id.value) != cid(q.id.value)
    {
      var a := TakerRow(root, n);
      var b := TakerRow(root, q);
    }
  }

  lemma AcceptableOfNodes(cid: int -> string, root: Node)
    requires Acceptable(cid, root)
    ensures AcceptableRows(cid, Rows(root))
  {
    var n :| Takes(root, n);
    var some := TakerRow(root, n);
    forall r | r in Rows(root) && r.Emits()
      ensures cid(r.id.value) != "" && PayloadFits(r)
    {
      var n := RowTaken(root, r);
      ReplayableIff(n.steps);
    }
    forall r, q | r in Rows(root) && q in Rows(root) && r.Emits() && q.Emits() && r.id != q.id
      ensures cid(r.id.value) != cid(q.id.value)
    {
      var a := RowTaken(root, r);
      var b := RowTaken(root, q);
    }
  }

  /** In an expansion order, fitting one by one is being acceptable together. */
  lemma FitIsAcceptable(cid: int -> string, rows: seq<Row>, es: seq<Row>)
    requires SortedById(es) && forall r :: r in es <==> r in rows && r.id.Some?
    ensures RowsFit(cid, es, |es|) && (exists id :: RanAs(cid, es, |es|, id)) <==> AcceptableRows(cid, rows)
  {
    if AcceptableRows(cid, rows) {
      AcceptableFits(cid, rows, es);
    }
    if RowsFit(cid, es, |es|) && exists id :: RanAs(cid, es, |es|, id) {
      FitsAcceptable(cid, rows, es);
    }
  }

  lemma AcceptableFits(cid: int -> string, rows: seq<Row>, es: seq<Row>)
    requires SortedById(es) && (forall r :: r in es <==> r in rows && r.id.Some?) && AcceptableRows(cid, rows)
    ensures RowsFit(cid, es, |es|) && exists id :: RanAs(cid, es, |es|, id)
  {
    var r :| r in rows && r.Emits();
    assert r in es;
    assert RanAs(cid, es, |es|, cid(r.id.value));
    forall k: nat | k < |es|
      ensures RowFits(cid, es, k)
    {
      assert es[k] in es;
      forall j | 0 <= j < k && es[j].Emits() && es[k].Emits()
        ensures cid(es[j].id.value) != cid(es[k].id.value)
      {
        assert es[j] in es;
      }
    }
  }

  lemma FitsAcceptable(cid: int -> string, rows: seq<Row>, es: seq<Row>)
    requires SortedById(es) && (forall r :: r in es <==> r in rows && r.id.Some?)
    requires RowsFit(cid, es, |es|) && exists id :: RanAs(cid, es, |es|, id)
    ensures AcceptableRows(cid, rows)
  {
    var id :| RanAs(cid, es, |es|, id);
    var j :| 0 <= j < |es| && es[j].Emits() && cid(es[j].id.value) == id;
    assert es[j] in es;
    forall r | r in rows && r.Emits()
      ensures cid(r.id.value) != "" && PayloadFits(r)
    {
      assert r in es;
      var k :| 0 <= k < |es| && es[k] == r;
      assert RowFits(cid, es, k);
    }
    forall r, q | r in rows && q in rows && r.Emits() && q.Emits() && r.id != q.id
      ensures cid(r.id.value) != cid(q.id.value)
    {
      assert r in es && q in es;
      var a :| 0 <= a < |es| && es[a] == r;
      var b :| 0 <= b < |es| && es[b] == q;
      assert RowFits(cid, es, a) && RowFits(cid, es, b);
    }
  }

  /** Legal events are none at all, or take a checkpoint. */
  lemma FirstIsCkpt(events: seq<Event>, adaptive: bool)
    requires AllLegal(events, adaptive)
    ensures events != [] <==> exists id :: Introduced(events, |events|, id)
  {
    if events != [] {
      assert Legal(events, 0, adaptive);
      assert Introduced(events, |events|, events[0].id);
    }
  }

  /** The validator accepts the timed schedule of a tree if and only if the tree
      is acceptable: whatever its shape, its duplicates and the order of its
      IDs, no restore is ever the reason for a rejection. */
  lemma TreeAcceptedIff(cid: int -> string, root: Node, latencies: seq<real>, adaptive: bool)
    requires DistinctIds(Rows(root)) && latencies != [] && NonNegative(latencies)
    ensures Accepted(Timed(Linearize(cid, root), latencies, adaptive), adaptive) <==> Acceptable(cid, root)
  {
    var es := ById(Rows(root));
    ExpansionFacts(root);
    ByIdComplete(Rows(root));
    var timed := CompileJudged(cid, es, latencies, adaptive);
    FitIsAcceptable(cid, Rows(root), es);
    if AllLegal(timed, adaptive) {
      FirstIsCkpt(timed, adaptive);
    }
    if AcceptableRows(cid, Rows(root)) {
      AcceptableNodes(cid, root);
    }
    if Acceptable(cid, root) {
      AcceptableOfNodes(cid, root);
    }
  }

  // ----- Actions without a translation -----

  /** A node that ran with an untranslatable action spoils the whole tree. */
  lemma UnsupportedRefused(cid: int -> string, root: Node, latencies: seq<real>, adaptive: bool, n: Node, i: nat)
    requires DistinctIds(Rows(root)) && latencies != [] && NonNegative(latencies)
    requires Expanded(root, n) && i < |n.steps| && !Supported(n.steps[i])
    ensures !Accepted(Timed(Linearize(cid, root), latencies, adaptive), adaptive)
  {
    TreeAcceptedIff(cid, root, latencies, adaptive);
    assert !Replayable(n.steps);
  }

  /** In particular a rewrite or a line insertion, though tagged as mutating. */
  lemma RewritesRefused(cid: int -> string, root: Node, latencies: seq<real>, adaptive: bool, n: Node, i: nat)
    requires DistinctIds(Rows(root)) && latencies != [] && NonNegative(latencies)
    requires Expanded(root, n) && i < |n.steps| && n.steps[i].Action?
    requires ClassOf(n.steps[i]) in {"RewriteFileArgs", "InsertLineArgs"}
    ensures NodeStrategy(n.steps).Standard?
    ensures !Accepted(Timed(Linearize(cid, root), latencies, adaptive), adaptive)
  {
    RewritesUnsupported(n.steps[i]);
    UnsupportedRefused(cid, root, latencies, adaptive, n, i);
  }

  /** A root with one duplicate below it. */
  function OneDuplicate(steps: seq<Action>): Node {
    Node(Some(0), false, [], [Node(Some(1), true, steps, [])])
  }

  lemma OneDuplicateRows(steps: seq<Action>)
    ensures DistinctIds(Rows(OneDuplicate(steps)))
  {
    var root, dup := OneDuplicate(steps), Node(Some(1), true, steps, []);
    var own := Visit(root, NoParent, []);
    WalkSingle(dup, Parent(Some(0)), own.path);
    assert Walk(dup, Parent(Some(0)), own.path) == [Visit(dup, Parent(Some(0)), own.path)];
    assert Rows(root) == [own] + [Visit(dup, Parent(Some(0)), own.path)];
  }

  /** On a duplicate, which takes no checkpoint, any action is accepted. */
  lemma DuplicatesAcceptAnything(cid: int -> string, steps: seq<Action>, latencies: seq<real>, adaptive: bool)
    requires latencies != [] && NonNegative(latencies) && cid(0) != ""
    ensures Accepted(Timed(Linearize(cid, OneDuplicate(steps)), latencies, adaptive), adaptive)
  {
    var root := OneDuplicate(steps);
    forall n | Under(root.children, n)
      ensures n.dup
    {
      UnderFirst(root.children, n);
    }
    assert Takes(root, root);
    OneDuplicateRows(steps);
    TreeAcceptedIff(cid, root, latencies, adaptive);
  }

  lemma WalkSingle(node: Node, parent: ParentRef, above: seq<Work>)
    ensures WalkAll([node], parent, above) == Walk(node, parent, above)
  {
    assert [node][1..] == [];
  }

  // ----- The whole pipeline -----

  datatype MakeError = BadLatency | NoLatency | NoNodeIds | Rejected(why: Rejection)

  /** The whole pipeline: compile the tree, time its checkpoints, validate. */
  method MakeSchedule(cid: int -> string, root: Node, latencies: seq<real>, adaptive: bool)
    returns (r: Result<seq<Event>, MakeError>)
    ensures r.Ok? <==>
              && latencies != []
              && NonNegative(latencies)
              && (exists q :: q in Rows(root) && q.id.Some?)
              && Accepted(Timed(Linearize(cid, root), latencies, adaptive), adaptive)
    ensures r.Ok? ==> r.value == Timed(Linearize(cid, root), latencies, adaptive)
    ensures DistinctIds(Rows(root)) ==>
              (r.Ok? <==> latencies != [] && NonNegative(latencies) && Acceptable(cid, root))
  {
    for i := 0 to |latencies|
      invariant forall j | 0 <= j < i :: latencies[j] >= 0.0
    {
      if latencies[i] < 0.0 {
        return Err(BadLatency);
      }
    }
    if latencies == [] {
      return Err(NoLatency);
    }
    var converted := Convert(cid, root);
    NoIds(Rows(root));
    if DistinctIds(Rows(root)) {
      TreeAcceptedIff(cid, root, latencies, adaptive);
    }
    if converted.Err? {
      return Err(NoNodeIds);
    }
    var timed := TimeEvents(converted.value, latencies, adaptive);
    var verdict := ValidateSchedule(timed, adaptive);
    if verdict.Err? {
      return Err(Rejected(verdict.error));
    }
    return Ok(timed);
  }
}
