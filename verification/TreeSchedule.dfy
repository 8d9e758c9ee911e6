/**
 The compiler from a recorded search tree to a linear replay schedule.

 Nodes are visited in the order of their IDs. A checkpoint is emitted for every
 node that ran, preceded by a restore when the search jumped.
 */
module TreeSchedule {
  import opened Prelude
  import opened Schedule
  import opened Actions

  datatype Node = Node(id: Option<int>, dup: bool, steps: seq<Action>, children: seq<Node>)

  /** What a node knows of its parent: none for the root, and otherwise the
      parent's own node ID, which may be absent. */
  datatype ParentRef = NoParent | Parent(id: Option<int>)

  /** The work one emitted checkpoint performs. */
  datatype Work = Work(id: int, strategy: Strategy, ops: seq<Op>)

  /** A visited node. `path` is the reference for its state: the work of the
      nodes that ran, from the root down to the node itself. */
  datatype Row = Row(id: Option<int>, parent: ParentRef, dup: bool,
                     strategy: Strategy, ops: seq<Op>, path: seq<Work>)
  {
    /** The root always runs; other nodes run unless marked as duplicates. */
    predicate Emits() {
      id.Some? && (parent.NoParent? || !dup)
    }

    /** The path down to, and without, this node's own work. */
    function Base(): seq<Work> {
      if Emits() && path != [] then DropLast(path) else path
    }
  }

  // ----- Visiting the tree -----

  function Visit(node: Node, parent: ParentRef, above: seq<Work>): Row {
    var root := parent.NoParent?;
    var strategy := if root then Standard else NodeStrategy(node.steps);
    var ops := if root then [] else NodeOps(node.steps);
    var row := Row(node.id, parent, node.dup, strategy, ops, above);
    if row.Emits() then row.(path := above + [Work(node.id.value, strategy, ops)]) else row
  }

  /** Pre-order: the node, then its children's subtrees in order. */
  function Walk(node: Node, parent: ParentRef, above: seq<Work>): seq<Row>
    decreases node, 0
  {
    var row := Visit(node, parent, above);
    [row] + WalkAll(node.children, Parent(node.id), row.path)
  }

  function WalkAll(nodes: seq<Node>, parent: ParentRef, above: seq<Work>): seq<Row>
    decreases nodes
  {
    if nodes == [] then [] else Walk(nodes[0], parent, above) + WalkAll(nodes[1..], parent, above)
  }

  function Rows(root: Node): seq<Row> {
    Walk(root, NoParent, [])
  }

  ghost predicate Reached(rows: seq<Row>, path: seq<Work>) {
    exists q :: q in rows && q.Emits() && q.path == path
  }

  /** A row that ran ends its path with its own work, which is none for the
      root. Only standard work may change files. */
  ghost predicate OwnWork(r: Row) {
    r.Emits() ==>
      && r.path != []
      && Last(r.path) == Work(r.id.value, r.strategy, r.ops)
      && (r.parent.NoParent? ==> r.ops == [] && r.strategy.Standard?)
      && (r.strategy.Standard? || (r.strategy.Lightweight? && AllReadOnly(r.ops)))
  }

  ghost predicate Rooted(rows: seq<Row>, above: seq<Work>, r: Row) {
    && OwnWork(r)
    && above <= r.Base()
    && (forall m | |above| < m <= |r.path| :: Reached(rows, r.path[..m]))
  }

  ghost predicate UnderParent(rows: seq<Row>, r: Row) {
    r.parent.Parent? && exists q :: q in rows && q.id == r.parent.id && q.path == r.Base()
  }

  ghost predicate AllRooted(rows: seq<Row>, above: seq<Work>) {
    forall r | r in rows :: Rooted(rows, above, r)
  }

  ghost predicate AllUnderParent(rows: seq<Row>) {
    forall i | 1 <= i < |rows| :: UnderParent(rows, rows[i])
  }

  ghost predicate AllUnder(rows: seq<Row>, parent: ParentRef, above: seq<Work>) {
    forall r | r in rows :: UnderParent(rows, r) || (r.parent == parent && r.Base() == above)
  }

  lemma RootedGrows(rows: seq<Row>, more: seq<Row>, above: seq<Work>, r: Row)
    requires Rooted(rows, above, r)
    requires forall q | q in rows :: q in more
    ensures Rooted(more, above, r)
  {
    forall m | |above| < m <= |r.path|
      ensures Reached(more, r.path[..m])
    {
      assert Reached(rows, r.path[..m]);
      var q :| q in rows && q.Emits() && q.path == r.path[..m];
      assert q in more;
    }
  }

  lemma RootedDeeper(rows: seq<Row>, own: Row, above: seq<Work>, r: Row)
    requires Rooted(rows, own.path, r)
    requires Rooted([own], above, own)
    requires |own.path| <= |above| + 1
    ensures Rooted([own] + rows, above, r)
  {
    forall m | |above| < m <= |r.path|
      ensures Reached([own] + rows, r.path[..m])
    {
      if m <= |own.path| {
        assert r.path[..m] == own.path[..m];
        assert Reached([own], own.path[..m]);
        assert own in [own] + rows;
      } else {
        assert Reached(rows, r.path[..m]);
        var q :| q in rows && q.Emits() && q.path == r.path[..m];
        assert q in [own] + rows;
      }
    }
  }

  lemma VisitFacts(node: Node, parent: ParentRef, above: seq<Work>)
    ensures var own := Visit(node, parent, above);
            && Rooted([own], above, own)
            && own.Base() == above
            && |own.path| <= |above| + 1
  {
    var own := Visit(node, parent, above);
    if NodeStrategy(node.steps).Lightweight? {
      LightweightIsReadOnly(node.steps);
    }
    forall m | |above| < m <= |own.path|
      ensures Reached([own], own.path[..m])
    {
      assert own in [own] && own.path[..m] == own.path;
    }
  }

  /** Every visited path is built of earlier paths, and ends above its row in
      the path of the row's parent. */
  lemma {:induction false} WalkFacts(node: Node, parent: ParentRef, above: seq<Work>)
    ensures AllRooted(Walk(node, parent, above), above)
    ensures AllUnderParent(Walk(node, parent, above))
    decreases node, 0
  {
    var own := Visit(node, parent, above);
    var below := WalkAll(node.children, Parent(node.id), own.path);
    var rows := [own] + below;
    assert rows == Walk(node, parent, above);
    VisitFacts(node, parent, above);
    WalkAllFacts(node.children, Parent(node.id), own.path);
    RootedGrows([own], rows, above, own);
    forall r | r in below
      ensures Rooted(rows, above, r)
      ensures UnderParent(rows, r)
    {
      RootedDeeper(below, own, above, r);
      if UnderParent(below, r) {
        var q :| q in below && q.id == r.parent.id && q.path == r.Base();
        assert q in rows;
      } else {
        assert own in rows;
      }
    }
  }

  lemma {:induction false} WalkAllFacts(nodes: seq<Node>, parent: ParentRef, above: seq<Work>)
    requires parent.Parent?
    ensures AllRooted(WalkAll(nodes, parent, above), above)
    ensures AllUnder(WalkAll(nodes, parent, above), parent, above)
    decreases nodes
  {
    if nodes == [] {
      return;
    }
    var first := Walk(nodes[0], parent, above);
    var rest := WalkAll(nodes[1..], parent, above);
    var rows := first + rest;
    WalkFacts(nodes[0], parent, above);
    VisitFacts(nodes[0], parent, above);
    WalkAllFacts(nodes[1..], parent, above);
    forall r | r in rows
      ensures Rooted(rows, above, r)
      ensures UnderParent(rows, r) || (r.parent == parent && r.Base() == above)
    {
      if r in first {
        assert Rooted(first, above, r);
        RootedGrows(first, rows, above, r);
        var i :| 0 <= i < |first| && first[i] == r;
        if i > 0 {
          assert UnderParent(first, first[i]);
          var q :| q in first && q.id == r.parent.id && q.path == r.Base();
          assert q in rows;
        }
      } else {
        RootedGrows(rest, rows, above, r);
        if UnderParent(rest, r) {
          var q :| q in rest && q.id == r.parent.id && q.path == r.Base();
          assert q in rows;
        }
      }
    }
  }

  // ----- Expansion order -----

  /** Place r by ID into rows sorted by ID, replacing a row of the same ID. */
  function InsertById(r: Row, rows: seq<Row>): seq<Row>
    requires r.id.Some? && forall q | q in rows :: q.id.Some?
  {
    if rows == [] || r.id.value < rows[0].id.value then [r] + rows
    else if r.id == rows[0].id then [r] + rows[1..]
    else [rows[0]] + InsertById(r, rows[1..])
  }

  predicate SortedById(rows: seq<Row>) {
    && (forall i | 0 <= i < |rows| :: rows[i].id.Some?)
    && (forall i, j | 0 <= i < j < |rows| :: rows[i].id.value < rows[j].id.value)
  }

  lemma {:induction false} InsertByIdMembers(r: Row, rows: seq<Row>, x: Row)
    requires r.id.Some? && SortedById(rows)
    ensures x in InsertById(r, rows) <==> x == r || (x in rows && x.id != r.id)
  {
    if rows != [] && r.id.value >= rows[0].id.value {
      assert rows == [rows[0]] + rows[1..];
      if r.id != rows[0].id {
        InsertByIdMembers(r, rows[1..], x);
      }
    }
  }

  lemma {:induction false} InsertByIdSorted(r: Row, rows: seq<Row>)
    requires r.id.Some? && SortedById(rows)
    ensures SortedById(InsertById(r, rows))
  {
    if rows != [] && r.id.value > rows[0].id.value {
      var tail := InsertById(r, rows[1..]);
      InsertByIdSorted(r, rows[1..]);
      forall j | 0 <= j < |tail|
        ensures rows[0].id.value < tail[j].id.value
      {
        InsertByIdMembers(r, rows[1..], tail[j]);
      }
    }
  }

  lemma InsertByIdFacts(r: Row, rows: seq<Row>)
    requires r.id.Some? && SortedById(rows)
    ensures SortedById(InsertById(r, rows))
    ensures forall x :: x in InsertById(r, rows) <==> x == r || (x in rows && x.id != r.id)
  {
    InsertByIdSorted(r, rows);
    forall x {
      InsertByIdMembers(r, rows, x);
    }
  }

  /** The visited rows that have an ID, in increasing order of ID; of several
      rows with one ID the last visited stays. */
  function ById(rows: seq<Row>): (es: seq<Row>)
    ensures SortedById(es)
    ensures forall e | e in es :: e in rows && e.id.Some?
  {
    if rows == [] then []
    else
      var es := ById(DropLast(rows));
      if Last(rows).id.None? then es
      else
        InsertByIdFacts(Last(rows), es);
        InsertById(Last(rows), es)
  }

  /** Of several rows with one ID the last visited stays. */
  ghost predicate LastWithId(rows: seq<Row>, i: nat) {
    i < |rows| && rows[i].id.Some? && forall j | i < j < |rows| :: rows[j].id != rows[i].id
  }

  lemma LastWithIdSnoc(rows: seq<Row>, r: Row, i: nat)
    ensures LastWithId(rows + [r], i) <==>
            if i == |rows| then r.id.Some? else LastWithId(rows, i) && r.id != rows[i].id
  {
    var more := rows + [r];
    assert more[|rows|] == r;
    assert forall j | 0 <= j < |rows| :: more[j] == rows[j];
  }

  lemma {:induction false} ByIdKeepsLast(rows: seq<Row>, e: Row)
    ensures e in ById(rows) <==> exists i: nat :: LastWithId(rows, i) && rows[i] == e
  {
    if rows != [] {
      var init, r := DropLast(rows), Last(rows);
      assert rows == init + [r];
      ByIdKeepsLast(init, e);
      if r.id.Some? {
        InsertByIdFacts(r, ById(init));
      }
      KeptOrReplaced(init, r, e);
    }
  }

  lemma KeptOrReplaced(init: seq<Row>, r: Row, e: Row)
    ensures var rows := init + [r];
            (exists i: nat :: LastWithId(rows, i) && rows[i] == e) <==>
            (r.id.Some? && e == r) || (e.id != r.id && exists i: nat :: LastWithId(init, i) && init[i] == e)
  {
    var rows := init + [r];
    if i: nat :| LastWithId(rows, i) && rows[i] == e {
      LastWithIdSnoc(init, r, i);
    }
    if r.id.Some? && e == r {
      LastWithIdSnoc(init, r, |init|);
      assert rows[|init|] == e;
    }
    if i: nat :| e.id != r.id && LastWithId(init, i) && init[i] == e {
      LastWithIdSnoc(init, r, i);
      assert rows[i] == e;
    }
  }

  predicate DistinctIds(rows: seq<Row>) {
    forall i, j | 0 <= i < j < |rows| :: rows[i].id.Some? ==> rows[i].id != rows[j].id
  }

  lemma {:induction false} ByIdComplete(rows: seq<Row>)
    requires DistinctIds(rows)
    ensures forall r | r in rows && r.id.Some? :: r in ById(rows)
  {
    if rows != [] {
      ByIdComplete(DropLast(rows));
      assert rows == DropLast(rows) + [Last(rows)];
      if Last(rows).id.Some? {
        InsertByIdFacts(Last(rows), ById(DropLast(rows)));
      }
    }
  }

  // ----- Compilation -----

  datatype Emission = Emission(events: seq<Event>, ckpts: map<int, string>, prev: Option<int>)

  /** The restore that a row asks for: the search jumped to a parent that has a checkpoint. */
  function Jump(st: Emission, r: Row): seq<Event> {
    if r.parent.Parent? && st.prev != r.parent.id && r.parent.id.Some? && r.parent.id.value in st.ckpts
    then [Restore(st.ckpts[r.parent.id.value])] else []
  }

  /** The checkpoint of a row that ran. */
  function OwnCkpt(cid: int -> string, r: Row): seq<Event> {
    if !r.Emits() then []
    else if r.parent.NoParent? then [Ckpt(cid(r.id.value), Standard, None, Some([]), false)]
    else [Ckpt(cid(r.id.value), r.strategy, None, Some(r.ops), true)]
  }

  function EmitRow(cid: int -> string, st: Emission, r: Row): Emission
    requires r.id.Some?
  {
    Emission(st.events + Jump(st, r) + OwnCkpt(cid, r),
             if r.Emits() then st.ckpts[r.id.value := cid(r.id.value)] else st.ckpts,
             r.id)
  }

  /** The compiler's state after the first k rows of the expansion order. */
  function Compile(cid: int -> string, es: seq<Row>, k: nat): Emission
    requires k <= |es| && forall i | 0 <= i < |es| :: es[i].id.Some?
  {
    if k == 0 then Emission([], map[], None) else EmitRow(cid, Compile(cid, es, k - 1), es[k - 1])
  }

  function Linearize(cid: int -> string, root: Node): seq<Event> {
    var es := ById(Rows(root));
    Compile(cid, es, |es|).events
  }

  /** One turn of the compiler's loop. */
  method ConvertRow(cid: int -> string, row: Row, schedule: seq<Event>, nodeToCkpt: map<int, string>,
                    previous: Option<int>)
    returns (schedule': seq<Event>, nodeToCkpt': map<int, string>, previous': Option<int>)
    requires row.id.Some?
    ensures Emission(schedule', nodeToCkpt', previous')
            == EmitRow(cid, Emission(schedule, nodeToCkpt, previous), row)
  {
    var id := row.id.value;
    schedule', nodeToCkpt', previous' := schedule, nodeToCkpt, Some(id);
    if row.parent.NoParent? {
      nodeToCkpt' := nodeToCkpt[id := cid(id)];
      schedule' := schedule + [Ckpt(cid(id), Standard, None, Some([]), false)];
      return;
    }
    if previous != row.parent.id {
      if row.parent.id.Some? && row.parent.id.value in nodeToCkpt {
        schedule' := schedule + [Restore(nodeToCkpt[row.parent.id.value])];
      }
    }
    if row.dup {
      return;
    }
    nodeToCkpt' := nodeToCkpt[id := cid(id)];
    schedule' := schedule' + [Ckpt(cid(id), row.strategy, None, Some(row.ops), true)];
  }

  /** The compiler as a loop over the expansion order. It fails exactly when no
      node has an ID. */
  method Convert(cid: int -> string, root: Node) returns (r: Result<seq<Event>, ()>)
    ensures r.Err? <==> forall q | q in Rows(root) :: q.id.None?
    ensures r.Ok? ==> r.value == Linearize(cid, root)
  {
    var es := ById(Rows(root));
    NoIds(Rows(root));
    if es == [] {
      return Err(());
    }
    var schedule: seq<Event> := [];
    var nodeToCkpt: map<int, string> := map[];
    var previous: Option<int> := None;
    var k := 0;
    while k < |es|
      invariant 0 <= k <= |es|
      invariant Emission(schedule, nodeToCkpt, previous) == Compile(cid, es, k)
    {
      CompileNext(cid, es, k, Emission(schedule, nodeToCkpt, previous));
      schedule, nodeToCkpt, previous := ConvertRow(cid, es[k], schedule, nodeToCkpt, previous);
      k := k + 1;
    }
    return Ok(schedule);
  }

  lemma CompileNext(cid: int -> string, es: seq<Row>, k: nat, st: Emission)
    requires k < |es| && (forall i | 0 <= i < |es| :: es[i].id.Some?) && st == Compile(cid, es, k)
    ensures Compile(cid, es, k + 1) == EmitRow(cid, st, es[k])
  {
  }

  lemma {:induction false} NoIds(rows: seq<Row>)
    ensures ById(rows) == [] <==> forall r | r in rows :: r.id.None?
  {
    if rows != [] {
      assert rows == DropLast(rows) + [Last(rows)];
      NoIds(DropLast(rows));
      if Last(rows).id.Some? {
        InsertByIdFacts(Last(rows), ById(DropLast(rows)));
        assert Last(rows) in ById(rows);
      }
    }
  }

  // ----- Which path the machine holds -----

  function PrevId(es: seq<Row>, k: nat): Option<int>
    requires k <= |es|
  {
    if k == 0 then None else es[k - 1].id
  }

  /** A row before k that ran and has the given ID. */
  ghost predicate RanBefore(es: seq<Row>, k: nat, id: Option<int>, j: nat)
    requires k <= |es|
  {
    j < k && es[j].Emits() && es[j].id == id
  }

  ghost predicate Ran(es: seq<Row>, k: nat, id: Option<int>)
    requires k <= |es|
  {
    exists j: nat :: RanBefore(es, k, id, j)
  }

  /** The path whose state the machine holds once the first k rows are done. */
  ghost function Held(es: seq<Row>, k: nat): seq<Work>
    requires k <= |es|
    decreases k, 0
  {
    if k == 0 then [] else if es[k - 1].Emits() then es[k - 1].path else Resume(es, k - 1)
  }

  /** The path whose state row k starts from. A jump reaches the parent only if
      the parent ran earlier; otherwise the machine stays where it is. */
  ghost function Resume(es: seq<Row>, k: nat): seq<Work>
    requires k < |es|
    decreases k, 1
  {
    var parent := es[k].parent;
    if parent.NoParent? || PrevId(es, k) == parent.id then Held(es, k)
    else if Ran(es, k, parent.id) then
      var j: nat :| RanBefore(es, k, parent.id, j);
      es[j].path
    else Held(es, k)
  }

  /** Every row that runs starts from its nearest ancestor that ran. A caller
      can read this off the tree and its IDs alone. */
  ghost predicate AlignedUpTo(es: seq<Row>, n: nat)
    requires n <= |es|
  {
    forall k {:trigger Resume(es, k)} | 0 <= k < n && es[k].Emits() :: Resume(es, k) == es[k].Base()
  }

  ghost predicate Aligned(root: Node) {
    var es := ById(Rows(root));
    AlignedUpTo(es, |es|)
  }

  /** The state a worker reaches by doing a path's work in order. */
  function Replay<S>(w: Worker<S>, cid: int -> string, start: S, path: seq<Work>): S {
    if path == [] then start
    else w(Replay(w, cid, start, DropLast(path)), cid(Last(path).id), Last(path).ops)
  }

  /** Rows in expansion order, consistent with the paths they carry. */
  ghost predicate Expansion(es: seq<Row>) {
    && SortedById(es)
    && (forall i | 0 <= i < |es| :: OwnWork(es[i]))
  }

  /** No two rows that run hash to the same checkpoint ID. */
  ghost predicate DistinctCkpts(cid: int -> string, es: seq<Row>, n: nat)
    requires n <= |es| && forall i | 0 <= i < |es| :: es[i].id.Some?
  {
    forall i, j | 0 <= i < j < n && es[i].Emits() && es[j].Emits() ::
      cid(es[i].id.value) != cid(es[j].id.value)
  }

  ghost predicate Tracked(cid: int -> string, es: seq<Row>, k: nat, st: Emission)
    requires k <= |es| && forall i | 0 <= i < |es| :: es[i].id.Some?
  {
    && st.prev == PrevId(es, k)
    && (forall id | id in st.ckpts :: st.ckpts[id] == cid(id))
    && (forall id | id in st.ckpts :: Ran(es, k, Some(id)))
    && (forall j: nat | j < k && es[j].Emits() :: es[j].id.value in st.ckpts)
  }

  lemma RanMore(es: seq<Row>, k: nat, id: Option<int>)
    requires k < |es|
    ensures Ran(es, k + 1, id) <==> Ran(es, k, id) || (es[k].Emits() && es[k].id == id)
  {
    if Ran(es, k, id) {
      var j: nat :| RanBefore(es, k, id, j);
      assert RanBefore(es, k + 1, id, j);
    }
    if Ran(es, k + 1, id) {
      var j: nat :| RanBefore(es, k + 1, id, j);
      assert j < k ==> RanBefore(es, k, id, j);
    }
    if es[k].Emits() && es[k].id == id {
      assert RanBefore(es, k + 1, id, k);
    }
  }

  /** One row more, and the compiler still knows exactly the rows that ran. */
  lemma TrackRow(cid: int -> string, es: seq<Row>, k: nat, st: Emission)
    requires Expansion(es) && k < |es| && Tracked(cid, es, k, st)
    ensures Tracked(cid, es, k + 1, EmitRow(cid, st, es[k]))
  {
    var st' := EmitRow(cid, st, es[k]);
    forall id | id in st'.ckpts
      ensures Ran(es, k + 1, Some(id))
    {
      RanMore(es, k, Some(id));
    }
  }

  /** The compiler's states, one before and one after each row. */
  ghost predicate Traces(cid: int -> string, es: seq<Row>, trace: seq<Emission>) {
    && |trace| == |es| + 1 && trace[0] == Emission([], map[], None)
    && forall k: nat {:trigger Follows(cid, es, trace, k)} | k < |es| :: Follows(cid, es, trace, k)
  }

  ghost predicate Follows(cid: int -> string, es: seq<Row>, trace: seq<Emission>, k: nat) {
    k < |es| && k + 1 < |trace| && es[k].id.Some? && trace[k + 1] == EmitRow(cid, trace[k], es[k])
  }

  lemma CompileTrace(cid: int -> string, es: seq<Row>) returns (trace: seq<Emission>)
    requires forall i | 0 <= i < |es| :: es[i].id.Some?
    ensures Traces(cid, es, trace)
    ensures forall k: nat | k <= |es| :: trace[k] == Compile(cid, es, k)
  {
    trace := seq(|es| + 1, k requires 0 <= k <= |es| => Compile(cid, es, k));
    forall k: nat | k < |es|
      ensures Follows(cid, es, trace, k)
    {
      CompileNext(cid, es, k, trace[k]);
    }
  }

  lemma {:induction false} TraceTracks(cid: int -> string, es: seq<Row>, trace: seq<Emission>, k: nat)
    requires Expansion(es) && k <= |es| && Traces(cid, es, trace)
    ensures Tracked(cid, es, k, trace[k])
  {
    if k > 0 {
      TraceTracks(cid, es, trace, k - 1);
      TrackNext(cid, es, trace, k - 1);
    }
  }

  lemma TrackNext(cid: int -> string, es: seq<Row>, trace: seq<Emission>, k: nat)
    requires Expansion(es) && k < |es| && Traces(cid, es, trace) && Tracked(cid, es, k, trace[k])
    ensures Tracked(cid, es, k + 1, trace[k + 1])
  {
    assert Follows(cid, es, trace, k);
    TrackRow(cid, es, k, trace[k]);
  }

  lemma CompileTracks(cid: int -> string, es: seq<Row>, k: nat)
    requires Expansion(es) && k <= |es|
    ensures Tracked(cid, es, k, Compile(cid, es, k))
  {
    var trace := CompileTrace(cid, es);
    TraceTracks(cid, es, trace, k);
  }

  ghost predicate Rebuilt<S>(w: Worker<S>, cid: int -> string, start: S, es: seq<Row>, k: nat, m: Machine<S>)
    requires k <= |es| && forall i | 0 <= i < |es| :: es[i].id.Some?
  {
    forall j | 0 <= j < k && es[j].Emits() ::
      cid(es[j].id.value) in m.store && m.store[cid(es[j].id.value)] == Replay(w, cid, start, es[j].path)
  }

  lemma RunSnoc<S>(w: Worker<S>, start: S, events: seq<Event>, e: Event)
    requires Run(w, start, events).Some?
    ensures Run(w, start, events + [e]) == Step(w, Run(w, start, events).value, e)
  {
    assert DropLast(events + [e]) == events;
  }

  /** The state row k starts from, once an emitted restore is done. */
  lemma AfterJump<S>(w: Worker<S>, cid: int -> string, start: S, es: seq<Row>, k: nat,
                     st: Emission, m: Machine<S>) returns (m': Machine<S>)
    requires Expansion(es) && k < |es| && Tracked(cid, es, k, st)
    requires Run(w, start, st.events) == Some(m)
    requires Rebuilt(w, cid, start, es, k, m)
    requires m.cur == Replay(w, cid, start, Held(es, k))
    ensures Run(w, start, st.events + Jump(st, es[k])) == Some(m')
    ensures m'.store == m.store
    ensures m'.cur == Replay(w, cid, start, Resume(es, k))
  {
    m' := m;
    assert st.events + [] == st.events;
    if es[k].parent.Parent? && st.prev != es[k].parent.id {
      var p := es[k].parent.id;
      if p.Some? && p.value in st.ckpts {
        assert Ran(es, k, Some(p.value)) by { assert forall id | id in st.ckpts :: Ran(es, k, Some(id)); }
        var j: nat :| RanBefore(es, k, Some(p.value), j);
        assert forall i: nat | RanBefore(es, k, p, i) :: i == j;
        RunSnoc(w, start, st.events, Restore(st.ckpts[p.value]));
        m' := m.(cur := m.store[st.ckpts[p.value]]);
      } else {
        assert !Ran(es, k, p);
      }
    }
  }

  /** Taking row k's checkpoint from the state of its base path. */
  lemma TakeCkpt<S>(w: Worker<S>, cid: int -> string, start: S, es: seq<Row>, k: nat,
                    before: seq<Event>, m: Machine<S>, e: Event) returns (m': Machine<S>)
    requires Expansion(es) && k < |es| && es[k].Emits()
    requires DistinctCkpts(cid, es, k + 1)
    requires Run(w, start, before) == Some(m)
    requires m.cur == Replay(w, cid, start, DropLast(es[k].path))
    requires Rebuilt(w, cid, start, es, k, m)
    requires e.Ckpt? && e.id == cid(es[k].id.value) && e.ops == Some(es[k].ops)
    ensures Run(w, start, before + [e]) == Some(m')
    ensures m'.cur == Replay(w, cid, start, es[k].path)
    ensures Rebuilt(w, cid, start, es, k + 1, m')
  {
    RunSnoc(w, start, before, e);
    m' := Step(w, m, e).value;
  }

  lemma EmitRuns<S>(w: Worker<S>, cid: int -> string, start: S, es: seq<Row>, k: nat,
                    st: Emission, m: Machine<S>) returns (m': Machine<S>)
    requires Expansion(es) && k < |es| && Tracked(cid, es, k, st)
    requires DistinctCkpts(cid, es, k + 1)
    requires es[k].Emits() ==> Resume(es, k) == es[k].Base()
    requires Run(w, start, st.events) == Some(m)
    requires Rebuilt(w, cid, start, es, k, m)
    requires m.cur == Replay(w, cid, start, Held(es, k))
    ensures Run(w, start, EmitRow(cid, st, es[k]).events) == Some(m')
    ensures m'.cur == Replay(w, cid, start, if es[k].Emits() then es[k].path else Resume(es, k))
    ensures Rebuilt(w, cid, start, es, k + 1, m')
  {
    var r, st' := es[k], EmitRow(cid, st, es[k]);
    m' := AfterJump(w, cid, start, es, k, st, m);
    var before := st.events + Jump(st, r);
    if r.Emits() {
      var e := OwnCkpt(cid, r)[0];
      assert st'.events == before + [e];
      m' := TakeCkpt(w, cid, start, es, k, before, m', e);
    } else {
      assert st'.events == before;
    }
  }

  lemma AlignedLess(es: seq<Row>, k: nat)
    requires k < |es| && AlignedUpTo(es, k + 1)
    ensures AlignedUpTo(es, k)
    ensures es[k].Emits() ==> Resume(es, k) == es[k].Base()
  {
  }

  /** The run of these events holds what Held says, and has rebuilt the paths of the first k rows. */
  ghost predicate Holds<S>(w: Worker<S>, cid: int -> string, start: S, es: seq<Row>, k: nat, events: seq<Event>,
                           m: Machine<S>)
    requires k <= |es| && forall i | 0 <= i < |es| :: es[i].id.Some?
  {
    && Run(w, start, events) == Some(m)
    && m.cur == Replay(w, cid, start, Held(es, k))
    && Rebuilt(w, cid, start, es, k, m)
  }

  lemma HoldsMore<S>(w: Worker<S>, cid: int -> string, start: S, es: seq<Row>, k: nat, st: Emission, m: Machine<S>)
    returns (m': Machine<S>)
    requires Expansion(es) && k < |es| && Tracked(cid, es, k, st)
    requires DistinctCkpts(cid, es, k + 1)
    requires es[k].Emits() ==> Resume(es, k) == es[k].Base()
    requires Holds(w, cid, start, es, k, st.events, m)
    ensures Holds(w, cid, start, es, k + 1, EmitRow(cid, st, es[k]).events, m')
  {
    m' := EmitRuns(w, cid, start, es, k, st, m);
    HeldNext(es, k);
  }

  lemma HeldNext(es: seq<Row>, k: nat)
    requires k < |es|
    ensures Held(es, k + 1) == if es[k].Emits() then es[k].path else Resume(es, k)
  {
  }

  lemma {:induction false} TraceRuns<S>(w: Worker<S>, cid: int -> string, start: S, es: seq<Row>,
                                        trace: seq<Emission>, k: nat)
    returns (m: Machine<S>)
    requires Expansion(es) && k <= |es| && Traces(cid, es, trace)
    requires DistinctCkpts(cid, es, k)
    requires AlignedUpTo(es, k)
    ensures Holds(w, cid, start, es, k, trace[k].events, m)
  {
    if k == 0 {
      m := Machine(start, map[]);
    } else {
      AlignedLess(es, k - 1);
      m := TraceRuns(w, cid, start, es, trace, k - 1);
      TraceTracks(cid, es, trace, k - 1);
      assert Follows(cid, es, trace, k - 1);
      m := HoldsMore(w, cid, start, es, k - 1, trace[k - 1], m);
    }
  }

  /** While every row so far was aligned, the run holds what Held says and has
      stored under every checkpoint the state of its root-to-node path. */
  lemma CompileRuns<S>(w: Worker<S>, cid: int -> string, start: S, es: seq<Row>, k: nat) returns (m: Machine<S>)
    requires Expansion(es) && k <= |es|
    requires DistinctCkpts(cid, es, k)
    requires AlignedUpTo(es, k)
    ensures Holds(w, cid, start, es, k, Compile(cid, es, k).events, m)
  {
    var trace := CompileTrace(cid, es);
    m := TraceRuns(w, cid, start, es, trace, k);
  }
}
