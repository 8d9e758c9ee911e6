/**
 What the events of a compiled tree are: one checkpoint for every node that ran,
 in the order of their IDs, and a restore exactly where the search jumped to a
 node that has a checkpoint.
 */
module TreeEvents {
  import opened Prelude
  import opened Schedule
  import opened Actions
  import opened TreeSchedule
  import opened TreeReplay
  import opened TreeAcceptance

  // ----- Checkpoints -----

  /** The rows that run, in order. */
  function Runners(es: seq<Row>): seq<Row> {
    FlatMap((r: Row) => if r.Emits() then [r] else [], es)
  }

  lemma RunnersSnoc(es: seq<Row>, r: Row)
    ensures Runners(es + [r]) == Runners(es) + if r.Emits() then [r] else []
  {
    FlatMapSnoc((r: Row) => if r.Emits() then [r] else [], es, r);
  }

  /** This checkpoint is the one of this row: the root's is standard and empty,
      any other carries its node's strategy and operations, and must have some. */
  ghost predicate CkptOf(cid: int -> string, r: Row, e: Event) {
    && r.id.Some? && e.Ckpt? && e.id == cid(r.id.value)
    && (r.parent.NoParent? ==> e.strategy.Standard? && e.ops == Some([]) && !e.opsRequired)
    && (r.parent.Parent? ==> e.strategy == r.strategy && e.ops == Some(r.ops) && e.opsRequired)
  }

  ghost predicate CkptsFor(cid: int -> string, rows: seq<Row>, ckpts: seq<Event>) {
    |ckpts| == |rows| && forall i | 0 <= i < |rows| :: CkptOf(cid, rows[i], ckpts[i])
  }

  lemma CkptsForRow(cid: int -> string, done: seq<Row>, st: Emission, r: Row)
    requires r.id.Some? && CkptsFor(cid, Runners(done), CkptsOf(st.events))
    ensures CkptsFor(cid, Runners(done + [r]), CkptsOf(EmitRow(cid, st, r).events))
  {
    var jumped := st.events + Jump(st, r);
    RunnersSnoc(done, r);
    if Jump(st, r) == [] {
      assert jumped == st.events;
    } else {
      CkptsOfSnoc(st.events, Jump(st, r)[0]);
      assert jumped == st.events + [Jump(st, r)[0]];
    }
    assert CkptsOf(jumped) == CkptsOf(st.events);
    if r.Emits() {
      var own := OwnCkpt(cid, r)[0];
      CkptsOfSnoc(jumped, own);
      assert EmitRow(cid, st, r).events == jumped + [own];
    } else {
      assert EmitRow(cid, st, r).events == jumped;
    }
  }

  lemma {:induction false} TraceCkpts(cid: int -> string, es: seq<Row>, trace: seq<Emission>, k: nat)
    requires k <= |es| && Traces(cid, es, trace)
    ensures CkptsFor(cid, Runners(es[..k]), CkptsOf(trace[k].events))
  {
    if k > 0 {
      TraceCkpts(cid, es, trace, k - 1);
      assert Follows(cid, es, trace, k - 1);
      assert es[..k] == es[..k - 1] + [es[k - 1]];
      CkptsForRow(cid, es[..k - 1], trace[k - 1], es[k - 1]);
    }
  }

  /** The checkpoints of a compiled tree are those of its nodes that ran, in the
      order of their IDs. */
  lemma CkptsInOrder(cid: int -> string, root: Node)
    ensures CkptsFor(cid, Runners(ById(Rows(root))), CkptsOf(Linearize(cid, root)))
  {
    var es := ById(Rows(root));
    var trace := CompileTrace(cid, es);
    TraceCkpts(cid, es, trace, |es|);
    assert es[..|es|] == es;
  }

  // ----- Restores -----

  /** The search came to row k from elsewhere, and the parent has a checkpoint. */
  ghost predicate Jumps(es: seq<Row>, k: nat)
    requires k < |es|
  {
    && es[k].parent.Parent? && Ran(es, k, es[k].parent.id)
    && (k == 0 || es[k - 1].id != es[k].parent.id)
  }

  /** Restores that the first k rows call for, in order. */
  ghost function Restores(cid: int -> string, es: seq<Row>, k: nat): seq<Event>
    requires k <= |es|
  {
    if k == 0 then []
    else
      Restores(cid, es, k - 1) +
      if Jumps(es, k - 1) && es[k - 1].parent.id.Some? then [Restore(cid(es[k - 1].parent.id.value))] else []
  }

  function RestoresOf(events: seq<Event>): seq<Event> {
    FlatMap((e: Event) => if e.Restore? then [e] else [], events)
  }

  lemma RestoresOfSnoc(events: seq<Event>, e: Event)
    ensures RestoresOf(events + [e]) == RestoresOf(events) + if e.Restore? then [e] else []
  {
    FlatMapSnoc((e: Event) => if e.Restore? then [e] else [], events, e);
  }

  lemma JumpIff(cid: int -> string, es: seq<Row>, k: nat, st: Emission)
    requires Expansion(es) && k < |es| && Tracked(cid, es, k, st)
    ensures Jump(st, es[k]) ==
            if Jumps(es, k) && es[k].parent.id.Some? then [Restore(cid(es[k].parent.id.value))] else []
  {
    var p := es[k].parent;
    if p.Parent? && p.id.Some? {
      if Ran(es, k, p.id) {
        var j: nat :| RanBefore(es, k, p.id, j);
        assert es[j].id.value in st.ckpts;
      }
      if p.id.value in st.ckpts {
        assert Ran(es, k, Some(p.id.value)) by {
          assert forall id | id in st.ckpts :: Ran(es, k, Some(id));
        }
      }
    }
  }

  lemma RestoresAfterJump(events: seq<Event>, jump: seq<Event>)
    requires |jump| <= 1 && forall e | e in jump :: e.Restore?
    ensures RestoresOf(events + jump) == RestoresOf(events) + jump
  {
    if jump == [] {
      assert events + jump == events;
    } else {
      assert jump == [jump[0]];
      RestoresOfSnoc(events, jump[0]);
    }
  }

  lemma RestoresAfterOwn(cid: int -> string, events: seq<Event>, r: Row)
    ensures RestoresOf(events + OwnCkpt(cid, r)) == RestoresOf(events)
  {
    if r.Emits() {
      RestoresOfSnoc(events, OwnCkpt(cid, r)[0]);
      assert OwnCkpt(cid, r) == [OwnCkpt(cid, r)[0]];
    } else {
      assert events + [] == events;
    }
  }

  lemma RestoresForRow(cid: int -> string, es: seq<Row>, k: nat, st: Emission)
    requires Expansion(es) && k < |es| && Tracked(cid, es, k, st) && RestoresOf(st.events) == Restores(cid, es, k)
    ensures RestoresOf(EmitRow(cid, st, es[k]).events) == Restores(cid, es, k + 1)
  {
    var jump := Jump(st, es[k]);
    JumpIff(cid, es, k, st);
    RestoresAfterJump(st.events, jump);
    RestoresAfterOwn(cid, st.events + jump, es[k]);
  }

  lemma {:induction false} TraceRestores(cid: int -> string, es: seq<Row>, trace: seq<Emission>, k: nat)
    requires Expansion(es) && k <= |es| && Traces(cid, es, trace)
    ensures RestoresOf(trace[k].events) == Restores(cid, es, k)
  {
    if k > 0 {
      TraceRestores(cid, es, trace, k - 1);
      TraceTracks(cid, es, trace, k - 1);
      assert Follows(cid, es, trace, k - 1);
      RestoresForRow(cid, es, k - 1, trace[k - 1]);
    }
  }

  /** The restores of a compiled tree are exactly those its jumps call for. */
  lemma RestoresInOrder(cid: int -> string, root: Node)
    ensures var es := ById(Rows(root)); RestoresOf(Linearize(cid, root)) == Restores(cid, es, |es|)
  {
    var es := ById(Rows(root));
    ExpansionFacts(root);
    var trace := CompileTrace(cid, es);
    TraceRestores(cid, es, trace, |es|);
  }
}
