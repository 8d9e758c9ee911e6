/**
 Trees as the search records them are aligned; a duplicate with a late child is
 not; and a lightweight checkpoint holds the files of its nearest standard ancestor.
 */
module TreeTheorems {
  import opened Prelude
  import opened Schedule
  import opened Actions
  import opened TreeSchedule
  import opened TreeReplay
  import opened TreeAcceptance
  import opened Files

  // ----- Increasing IDs and childless duplicates -----

  /** Every node has an ID larger than its parent's, and a duplicate other than
      the root has no children. */
  predicate Recorded(node: Node, root: bool) {
    && node.id.Some?
    && (root || !node.dup || node.children == [])
    && (forall c | c in node.children :: c.id.Some? && node.id.value < c.id.value && Recorded(c, false))
  }

  /** A row below `least` whose parent row ran, and has a smaller ID. */
  ghost predicate Lively(rows: seq<Row>, least: int, r: Row) {
    && r.id.Some? && least < r.id.value
    && exists q :: ParentRan(rows, r, q)
  }

  ghost predicate ParentRan(rows: seq<Row>, r: Row, q: Row) {
    && q in rows && q.Emits() && r.parent == Parent(q.id) && q.path == r.Base()
    && r.id.Some? && q.id.value < r.id.value
  }

  ghost predicate AllLively(rows: seq<Row>, least: int) {
    forall i | 1 <= i < |rows| :: Lively(rows, least, rows[i])
  }

  lemma LivelyGrows(rows: seq<Row>, more: seq<Row>, least: int, less: int, r: Row)
    requires Lively(rows, least, r) && less <= least
    requires forall q | q in rows :: q in more
    ensures Lively(more, less, r)
  {
    var q :| ParentRan(rows, r, q);
    assert ParentRan(more, r, q);
  }

  lemma {:induction false} WalkLively(node: Node, parent: ParentRef, above: seq<Work>)
    requires Recorded(node, parent.NoParent?)
    ensures AllLively(Walk(node, parent, above), node.id.value)
    decreases node, 0
  {
    var own := Visit(node, parent, above);
    var below := WalkAll(node.children, Parent(node.id), own.path);
    if node.children != [] {
      WalkAllLively(node.children, own, below);
    }
    assert Walk(node, parent, above) == [own] + below;
  }

  lemma {:induction false} WalkAllLively(nodes: seq<Node>, own: Row, rows: seq<Row>)
    requires own.Emits()
    requires forall c | c in nodes :: c.id.Some? && own.id.value < c.id.value && Recorded(c, false)
    requires rows == WalkAll(nodes, Parent(own.id), own.path)
    ensures forall r | r in rows :: Lively([own] + rows, own.id.value, r)
    decreases nodes
  {
    if nodes == [] {
      return;
    }
    var first := Walk(nodes[0], Parent(own.id), own.path);
    var rest := WalkAll(nodes[1..], Parent(own.id), own.path);
    var all := [own] + rows;
    assert rows == first + rest;
    WalkLively(nodes[0], Parent(own.id), own.path);
    VisitFacts(nodes[0], Parent(own.id), own.path);
    WalkAllLively(nodes[1..], own, rest);
    forall r | r in rows
      ensures Lively(all, own.id.value, r)
    {
      if r in rest {
        LivelyGrows([own] + rest, all, own.id.value, own.id.value, r);
      } else {
        var i :| 0 <= i < |first| && first[i] == r;
        if i == 0 {
          assert ParentRan(all, r, own);
        } else {
          LivelyGrows(first, all, nodes[0].id.value, own.id.value, r);
        }
      }
    }
  }

  /** A row resumes where the one earlier row with its parent's identifier ended. */
  lemma ResumesAfterParent(es: seq<Row>, k: nat, j: nat)
    requires SortedById(es) && k < |es| && es[k].parent.Parent?
    requires RanBefore(es, k, es[k].parent.id, j)
    ensures Resume(es, k) == es[j].path
  {
    assert forall i: nat | RanBefore(es, k, es[k].parent.id, i) :: i == j;
    if PrevId(es, k) == es[k].parent.id {
      assert j == k - 1;
    } else {
      assert Ran(es, k, es[k].parent.id);
    }
  }

  /** The parent of a lively row in the expansion order is where the row resumes. */
  lemma LivelyAligned(es: seq<Row>, k: nat, q: Row)
    requires SortedById(es) && k < |es| && q in es && ParentRan(es, es[k], q)
    ensures Resume(es, k) == es[k].Base()
  {
    var j :| 0 <= j < |es| && es[j] == q;
    ResumesAfterParent(es, k, j);
  }

  /** Trees as the search records them meet the exact condition. */
  lemma RecordedAligned(root: Node)
    requires Recorded(root, true) && DistinctIds(Rows(root))
    ensures Aligned(root)
  {
    var rows, es := Rows(root), ById(Rows(root));
    WalkLively(root, NoParent, []);
    VisitFacts(root, NoParent, []);
    ByIdComplete(rows);
    forall x | x in es
      ensures root.id.value <= x.id.value
    {
      var z :| 0 <= z < |rows| && rows[z] == x;
      if z > 0 {
        assert Lively(rows, root.id.value, rows[z]);
      }
    }
    forall k | 0 <= k < |es| && es[k].Emits()
      ensures Resume(es, k) == es[k].Base()
    {
      assert es[k] in es && es[k] in rows;
      var i :| 0 <= i < |rows| && rows[i] == es[k];
      if i == 0 {
        assert es[0] in es;
        assert k == 0;
      } else {
        assert Lively(rows, root.id.value, rows[i]);
        var q :| ParentRan(rows, rows[i], q);
        assert q in es && ParentRan(es, es[k], q);
        LivelyAligned(es, k, q);
      }
    }
  }

  /** The compiler's promise: for every worker, an accepted schedule of a
      recorded tree rebuilds every root-to-node path. */
  lemma RecordedRebuilds<S>(w: Worker<S>, cid: int -> string, start: S, root: Node, latencies: seq<real>,
                            adaptive: bool)
    requires Recorded(root, true) && DistinctIds(Rows(root)) && latencies != []
    requires Accepted(Timed(Linearize(cid, root), latencies, adaptive), adaptive)
    ensures RebuildsPaths(w, cid, start, root, Final(w, cid, start, root, latencies, adaptive))
  {
    RecordedAligned(root);
    AlignedRebuilds(w, cid, start, root, latencies, adaptive);
  }

  // ----- Where alignment can fail -----

  /** A row whose parent took no checkpoint before it is the one case in which
      the compiler emits no restore although it may need one. */
  ghost predicate Orphan(es: seq<Row>, k: nat)
    requires k < |es|
  {
    es[k].Emits() && (es[k].parent.NoParent? || !Ran(es, k, es[k].parent.id))
  }

  /** Below the root, the row that carries the parent's identifier ended on the base. */
  lemma ParentRowPath(root: Node, r: Row, parent: Row)
    requires DistinctIds(Rows(root)) && r in Rows(root) && parent in Rows(root)
    requires r.parent.Parent? && parent.id.Some? && r.parent.id == parent.id
    ensures parent.path == r.Base()
  {
    var rows := Rows(root);
    WalkFacts(root, NoParent, []);
    var z :| 0 <= z < |rows| && rows[z] == r;
    assert rows[0].parent.NoParent?;
    assert UnderParent(rows, rows[z]);
    var q :| q in rows && q.id == r.parent.id && q.path == r.Base();
    SameRow(rows, q, parent);
  }

  /** Rows in order of their IDs, whose parents, where they ran before, ended on the rows' bases. */
  ghost predicate Filed(es: seq<Row>) {
    && SortedById(es)
    && forall k: nat, j: nat {:trigger RanBefore(es, k, es[k].parent.id, j)} |
         k < |es| && es[k].parent.Parent? && RanBefore(es, k, es[k].parent.id, j) :: es[j].path == es[k].Base()
  }

  lemma TreeFiled(root: Node)
    requires DistinctIds(Rows(root))
    ensures Filed(ById(Rows(root)))
  {
    var es := ById(Rows(root));
    forall k: nat, j: nat | k < |es| && es[k].parent.Parent? && RanBefore(es, k, es[k].parent.id, j)
      ensures es[j].path == es[k].Base()
    {
      assert es[k] in es && es[j] in es;
      ParentRowPath(root, es[k], es[j]);
    }
  }

  /** A row whose parent ran before it always starts from its base. */
  lemma ParentRanAligned(es: seq<Row>, k: nat)
    requires Filed(es)
    requires k < |es| && es[k].parent.Parent? && Ran(es, k, es[k].parent.id)
    ensures Resume(es, k) == es[k].Base()
  {
    var j: nat :| RanBefore(es, k, es[k].parent.id, j);
    ResumesAfterParent(es, k, j);
  }

  lemma SameRow(rows: seq<Row>, q: Row, r: Row)
    requires DistinctIds(rows) && q in rows && r in rows && q.id.Some? && q.id == r.id
    ensures q == r
  {
    var a :| 0 <= a < |rows| && rows[a] == q;
    var b :| 0 <= b < |rows| && rows[b] == r;
    assert a == b;
  }

  /** Row j leaves the machine on its own path: it ran, or its parent had run
      and the jump to it was made. */
  ghost predicate Settles(es: seq<Row>, j: nat)
    requires j < |es|
  {
    es[j].Emits() || (es[j].parent.Parent? && Ran(es, j, es[j].parent.id))
  }

  /** The last row before k that moved the machine. */
  ghost predicate LastSettled(es: seq<Row>, k: nat, j: nat)
    requires k <= |es|
  {
    j < k && Settles(es, j) && forall i | j < i < k :: !Settles(es, i)
  }

  ghost predicate NoneSettled(es: seq<Row>, k: nat)
    requires k <= |es|
  {
    forall i | 0 <= i < k :: !Settles(es, i)
  }

  /** Before row k the machine was left on the path that k starts from. */
  ghost predicate AtHome(es: seq<Row>, k: nat)
    requires k < |es|
  {
    && (NoneSettled(es, k) ==> es[k].Base() == [])
    && (forall j: nat | LastSettled(es, k, j) :: es[j].path == es[k].Base())
  }

  /** A row that settles leaves its own path, any other row leaves the machine alone. */
  lemma HeldAfter(es: seq<Row>, j: nat)
    requires Filed(es) && j < |es|
    ensures Held(es, j + 1) == if Settles(es, j) then es[j].path else Held(es, j)
  {
    if es[j].parent.Parent? && Ran(es, j, es[j].parent.id) {
      ParentRanAligned(es, j);
    }
  }

  /** The machine holds the path of the last row before k that moved it, if any did. */
  ghost predicate LeftBy(es: seq<Row>, k: nat, j: Option<nat>, held: seq<Work>)
    requires k <= |es|
  {
    match j
    case None => NoneSettled(es, k) && held == []
    case Some(i) => LastSettled(es, k, i) && held == es[i].path
  }

  lemma LeftByMore(es: seq<Row>, k: nat, j: Option<nat>, held: seq<Work>)
    requires k < |es| && LeftBy(es, k, j, held)
    ensures if Settles(es, k) then LeftBy(es, k + 1, Some(k), es[k].path) else LeftBy(es, k + 1, j, held)
  {
  }

  lemma {:induction false} HeldIs(es: seq<Row>, k: nat) returns (j: Option<nat>)
    requires Filed(es) && k <= |es|
    ensures LeftBy(es, k, j, Held(es, k))
  {
    if k == 0 {
      j := None;
    } else {
      j := HeldIs(es, k - 1);
      HeldAfter(es, k - 1);
      LeftByMore(es, k - 1, j, Held(es, k - 1));
      j := if Settles(es, k - 1) then Some(k - 1) else j;
    }
  }

  /** Every orphan is expanded at home. */
  ghost predicate OrphansAtHome(root: Node) {
    var es := ById(Rows(root));
    forall k: nat {:trigger Orphan(es, k)} | k < |es| && Orphan(es, k) :: AtHome(es, k)
  }

  lemma OrphanResumes(es: seq<Row>, k: nat)
    requires Filed(es) && k < |es| && Orphan(es, k)
    ensures Resume(es, k) == es[k].Base() <==> AtHome(es, k)
  {
    var j := HeldIs(es, k);
    assert Resume(es, k) == Held(es, k);
    if j.Some? {
      assert forall i: nat | LastSettled(es, k, i) :: i == j.value;
    }
  }

  /** A row that runs starts from its base, unless it is an orphan away from home. */
  lemma ResumesIff(es: seq<Row>, k: nat)
    requires Filed(es) && k < |es| && es[k].Emits()
    ensures Resume(es, k) == es[k].Base() <==> (Orphan(es, k) ==> AtHome(es, k))
  {
    if Orphan(es, k) {
      OrphanResumes(es, k);
    } else {
      ParentRanAligned(es, k);
    }
  }

  /** Alignment fails only in the branch that looks a parent up in vain: a tree
      is aligned if and only if, for every node whose parent took no checkpoint
      before it, the last node expanded that ran or was jumped to ended on that
      node's nearest ancestor that ran. */
  lemma AlignedIffOrphansAtHome(root: Node)
    requires DistinctIds(Rows(root))
    ensures Aligned(root) <==> OrphansAtHome(root)
  {
    var es := ById(Rows(root));
    TreeFiled(root);
    forall k: nat | k < |es| && es[k].Emits()
      ensures Resume(es, k) == es[k].Base() <==> (Orphan(es, k) ==> AtHome(es, k))
    {
      ResumesIff(es, k);
    }
  }

  // ----- A duplicate with two children -----

  function Leaf(id: int, steps: seq<Action>): Node {
    Node(Some(id), false, steps, [])
  }

  /** Node 1 is a duplicate with the children 2 and 3. */
  function TwoUnderDuplicate(steps: seq<Action>): Node {
    Node(Some(0), false, [], [Node(Some(1), true, steps, [Leaf(2, steps), Leaf(3, steps)])])
  }

  lemma WalkLeaf(id: int, steps: seq<Action>, parent: ParentRef, above: seq<Work>)
    ensures Walk(Leaf(id, steps), parent, above) == [Visit(Leaf(id, steps), parent, above)]
  {
  }

  lemma WalkPair(a: Node, b: Node, parent: ParentRef, above: seq<Work>)
    ensures WalkAll([a, b], parent, above) == Walk(a, parent, above) + Walk(b, parent, above)
  {
    assert [a, b][1..] == [b];
    WalkSingle(b, parent, above);
  }

  lemma TwoUnderDuplicateRows(steps: seq<Action>) returns (rows: seq<Row>)
    ensures rows == Rows(TwoUnderDuplicate(steps)) && |rows| == 4
    ensures forall i | 0 <= i < 4 :: rows[i].id == Some(i) && (rows[i].Emits() <==> i != 1)
    ensures rows[3].parent == Parent(Some(1))
    ensures rows[3].Base() == rows[1].path && rows[2].Base() == rows[1].path && rows[2].path != rows[1].path
  {
    var root := TwoUnderDuplicate(steps);
    var dup := root.children[0];
    var r0 := Visit(root, NoParent, []);
    var r1 := Visit(dup, Parent(Some(0)), r0.path);
    var r2 := Visit(Leaf(2, steps), Parent(Some(1)), r1.path);
    var r3 := Visit(Leaf(3, steps), Parent(Some(1)), r1.path);
    WalkLeaf(2, steps, Parent(Some(1)), r1.path);
    WalkLeaf(3, steps, Parent(Some(1)), r1.path);
    WalkPair(Leaf(2, steps), Leaf(3, steps), Parent(Some(1)), r1.path);
    WalkSingle(dup, Parent(Some(0)), r0.path);
    rows := [r0] + ([r1] + ([r2] + [r3]));
    assert rows == [r0, r1, r2, r3];
  }

  lemma {:induction false} InsertLast(r: Row, rows: seq<Row>)
    requires r.id.Some? && forall q | q in rows :: q.id.Some? && q.id.value < r.id.value
    ensures InsertById(r, rows) == rows + [r]
  {
    if rows != [] {
      InsertLast(r, rows[1..]);
    }
  }

  lemma {:induction false} SortedStays(rows: seq<Row>)
    requires SortedById(rows)
    ensures ById(rows) == rows
  {
    if rows != [] {
      SortedStays(DropLast(rows));
      InsertLast(Last(rows), DropLast(rows));
    }
  }

  lemma TwoUnderDuplicateMisaligned(steps: seq<Action>)
    ensures DistinctIds(Rows(TwoUnderDuplicate(steps)))
    ensures !Aligned(TwoUnderDuplicate(steps))
  {
    var es := TwoUnderDuplicateRows(steps);
    SortedStays(es);
    assert forall j: nat | j < 3 && es[j].Emits() :: es[j].id != Some(1);
    assert !Ran(es, 3, Some(1));
    assert Resume(es, 3) == Held(es, 3) == es[2].path != es[3].Base();
  }

  lemma TwoUnderDuplicateNodes(steps: seq<Action>, n: Node)
    ensures var root := TwoUnderDuplicate(steps);
            Takes(root, n) <==> n in {root, Leaf(2, steps), Leaf(3, steps)}
    ensures Expanded(TwoUnderDuplicate(steps), n) ==> n.steps == steps
  {
    var root, two, three := TwoUnderDuplicate(steps), Leaf(2, steps), Leaf(3, steps);
    var pair := [two, three];
    assert root.children[0].children == pair && root.children[1..] == [] && pair[1..] == [three] && [three][1..] == [];
    UnderFirst(root.children, n);
    UnderFirst(pair, n);
    UnderFirst([three], n);
  }

  /** Checkpoint IDs under which the tree can be replayed. */
  predicate Named(cid: int -> string) {
    && cid(0) != "" && cid(2) != "" && cid(3) != ""
    && cid(0) != cid(2) && cid(0) != cid(3) && cid(2) != cid(3)
  }

  lemma TwoUnderDuplicateAcceptable(cid: int -> string, steps: seq<Action>)
    requires Named(cid) && Replayable(steps)
    ensures Acceptable(cid, TwoUnderDuplicate(steps))
  {
    var root := TwoUnderDuplicate(steps);
    forall n
      ensures Takes(root, n) <==> n in {root, Leaf(2, steps), Leaf(3, steps)}
      ensures Expanded(root, n) ==> n.steps == steps
    {
      TwoUnderDuplicateNodes(steps, n);
    }
    assert Takes(root, root);
  }

  /** The second child of a duplicate gets no restore and continues from the
      first: the validator accepts the schedule, and what it stores is wrong. */
  lemma TwoUnderDuplicateWrong(cid: int -> string, steps: seq<Action>, latencies: seq<real>, adaptive: bool)
    requires Named(cid) && Replayable(steps) && latencies != [] && NonNegative(latencies)
    ensures var root := TwoUnderDuplicate(steps);
            && Accepted(Timed(Linearize(cid, root), latencies, adaptive), adaptive)
            && !RebuildsPaths(Tracer, cid, [], root, Final(Tracer, cid, [], root, latencies, adaptive))
  {
    var root := TwoUnderDuplicate(steps);
    TwoUnderDuplicateMisaligned(steps);
    TwoUnderDuplicateAcceptable(cid, steps);
    TreeAcceptedIff(cid, root, latencies, adaptive);
    RebuildsIffAligned(cid, root, latencies, adaptive);
  }

  // ----- Files at lightweight checkpoints -----

  /** Every row that ran lies under the root's standard checkpoint, on a path of
      standard work and lightweight work that only reads. */
  ghost predicate Anchored(path: seq<Work>) {
    && path != [] && path[0].strategy.Standard?
    && forall i | 0 <= i < |path| :: path[i].strategy.Lightweight? ==> AllReadOnly(path[i].ops)
  }

  lemma PathsAnchored(root: Node)
    requires root.id.Some?
    ensures forall r | r in Rows(root) && r.Emits() :: Anchored(r.path)
  {
    var rows, own := Rows(root), Visit(root, NoParent, []);
    var below := WalkAll(root.children, Parent(root.id), own.path);
    WalkFacts(root, NoParent, []);
    WalkAllFacts(root.children, Parent(root.id), own.path);
    assert rows == [own] + below;
    forall r | r in rows && r.Emits()
      ensures Anchored(r.path)
    {
      if r != own {
        assert r in below;
        assert Rooted(below, own.path, r);
      }
      assert own.path <= r.path;
      assert own.path[0] == r.path[0];
      assert Rooted(rows, [], r);
      PathWork(rows, r);
    }
  }

  /** All work on a path is standard, or lightweight and read-only. */
  lemma PathWork(rows: seq<Row>, r: Row)
    requires AllRooted(rows, []) && Rooted(rows, [], r)
    ensures forall i | 0 <= i < |r.path| ::
              r.path[i].strategy.Standard? || (r.path[i].strategy.Lightweight? && AllReadOnly(r.path[i].ops))
  {
    forall i | 0 <= i < |r.path|
      ensures r.path[i].strategy.Standard? || (r.path[i].strategy.Lightweight? && AllReadOnly(r.path[i].ops))
    {
      assert Reached(rows, r.path[..i + 1]);
      var q :| q in rows && q.Emits() && q.path == r.path[..i + 1];
      assert Rooted(rows, [], q);
    }
  }

  /** The length of the path down to its last standard work. */
  function NearestStandard(path: seq<Work>): (n: nat)
    requires path != [] && path[0].strategy.Standard?
    ensures 0 < n <= |path| && path[n - 1].strategy.Standard?
    ensures forall i | n <= i < |path| :: !path[i].strategy.Standard?
  {
    if Last(path).strategy.Standard? then |path| else NearestStandard(DropLast(path))
  }

  lemma {:induction false} FilesSinceStandard<F(!new)>(effect: (F, Op) -> F, cid: int -> string, start: F,
                                                       path: seq<Work>)
    requires LeavesReadsAlone(effect) && Anchored(path)
    requires forall i | 0 <= i < |path| :: path[i].strategy.Standard? || path[i].strategy.Lightweight?
    ensures Replay(FileWorker(effect), cid, start, path)
            == Replay(FileWorker(effect), cid, start, path[..NearestStandard(path)])
  {
    var n := NearestStandard(path);
    if n == |path| {
      assert path[..n] == path;
    } else {
      var up := DropLast(path);
      assert Last(path).strategy.Lightweight?;
      FilesSinceStandard(effect, cid, start, up);
      assert up[..n] == path[..n];
      ReadOnlyKeepsFiles(effect, Replay(FileWorker(effect), cid, start, up), Last(path).ops);
    }
  }

  ghost predicate StandardAncestor(root: Node, r: Row, q: Row) {
    && q in Rows(root) && q.Emits() && q.strategy.Standard? && q.path <= r.path
    && forall i | |q.path| <= i < |r.path| :: r.path[i].strategy.Lightweight?
  }

  lemma StandardAncestorExists(root: Node, r: Row) returns (q: Row)
    requires root.id.Some? && r in Rows(root) && r.Emits()
    ensures Anchored(r.path) && q.path == r.path[..NearestStandard(r.path)]
    ensures StandardAncestor(root, r, q)
    ensures forall i | 0 <= i < |r.path| :: r.path[i].strategy.Standard? || r.path[i].strategy.Lightweight?
  {
    var rows := Rows(root);
    PathsAnchored(root);
    WalkFacts(root, NoParent, []);
    assert Rooted(rows, [], r);
    PathWork(rows, r);
    var n := NearestStandard(r.path);
    assert Reached(rows, r.path[..n]);
    q :| q in rows && q.Emits() && q.path == r.path[..n];
    assert Rooted(rows, [], q);
  }

  /** In every adaptive schedule of an aligned tree, each checkpoint holds the
      very files of its nearest standard ancestor, which exists, for every
      interpretation of operations under which reads leave files alone. */
  lemma LightweightFiles<F(!new)>(effect: (F, Op) -> F, cid: int -> string, start: F, root: Node,
                                  latencies: seq<real>, r: Row)
    returns (q: Row)
    requires LeavesReadsAlone(effect)
    requires root.id.Some? && Aligned(root) && DistinctIds(Rows(root)) && latencies != []
    requires Accepted(Timed(Linearize(cid, root), latencies, true), true)
    requires r in Rows(root) && r.Emits()
    ensures StandardAncestor(root, r, q)
    ensures var m := Final(FileWorker(effect), cid, start, root, latencies, true);
            && cid(q.id.value) in m.store && cid(r.id.value) in m.store
            && m.store[cid(r.id.value)] == m.store[cid(q.id.value)]
  {
    q := StandardAncestorExists(root, r);
    AlignedRebuilds(FileWorker(effect), cid, start, root, latencies, true);
    FilesSinceStandard(effect, cid, start, r.path);
  }
}
