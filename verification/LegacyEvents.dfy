/**
 What the events of a converted log are: the work of each transition in the
 order it was recorded, one checkpoint for each transition that takes one, and
 a restore only where the machine stands elsewhere.
 */
module LegacyEvents {
  import opened Prelude
  import opened Schedule
  import opened Actions
  import opened Files
  import opened LegacySchedule

  // ----- The work of one transition -----

  /** The reads of a transition: one for each named file of its context, in order. */
  lemma {:induction false} ContextOpsAre(paths: seq<string>)
    ensures var ops, files := ContextOps(paths), NonemptyTexts(paths);
            |ops| == |files| && forall k | 0 <= k < |ops| :: ops[k] == ViewFile(files[k], None, None)
  {
    if paths != [] {
      ContextOpsAre(DropLast(paths));
      NonemptyTextsSnoc(DropLast(paths), Last(paths));
      assert paths == DropLast(paths) + [Last(paths)];
    }
  }

  ghost predicate AllRepaired(cfg: Config, id: int, diffs: seq<string>) {
    forall k | 0 <= k < |diffs| :: cfg.repair(id, diffs[k]).Some?
  }

  /** Operation k applies the repair of diff k. */
  ghost predicate Applies(cfg: Config, id: int, diffs: seq<string>, ops: seq<Op>) {
    && |ops| == |diffs|
    && forall k | 0 <= k < |diffs| ::
         cfg.repair(id, diffs[k]).Some? && ops[k] == ApplyRecordedDiff(cfg.repair(id, diffs[k]).value)
  }

  /** The writes of a transition: one for each nonempty diff, in order; refused
      exactly when the repair of one fails. */
  lemma {:induction false} DiffOpsAre(cfg: Config, id: int, diffs: seq<string>)
    ensures var ops, texts := DiffOps(cfg, id, diffs), NonemptyTexts(diffs);
            && (ops.Some? <==> AllRepaired(cfg, id, texts))
            && (ops.Some? ==> Applies(cfg, id, texts, ops.value))
  {
    if diffs != [] {
      var init, d := DropLast(diffs), Last(diffs);
      assert diffs == init + [d];
      DiffOpsAre(cfg, id, init);
      NonemptyTextsSnoc(init, d);
      DiffOpsOneMore(cfg, id, init, d);
      RepairedSnoc(cfg, id, NonemptyTexts(init), d);
      assert NonemptyTexts(init) + [] == NonemptyTexts(init);
    }
  }

  lemma RepairedSnoc(cfg: Config, id: int, diffs: seq<string>, d: string)
    ensures AllRepaired(cfg, id, diffs + [d]) <==> AllRepaired(cfg, id, diffs) && cfg.repair(id, d).Some?
    ensures forall ops: seq<Op> :: Applies(cfg, id, diffs, ops) && cfg.repair(id, d).Some? ==>
              Applies(cfg, id, diffs + [d], ops + [ApplyRecordedDiff(cfg.repair(id, d).value)])
  {
    var more := diffs + [d];
    assert more[|diffs|] == d;
    assert forall k | 0 <= k < |diffs| :: more[k] == diffs[k];
  }

  lemma DiffOpsOneMore(cfg: Config, id: int, init: seq<string>, diff: string)
    ensures var before, one := DiffOps(cfg, id, init), cfg.repair(id, diff);
            DiffOps(cfg, id, init + [diff]) ==
            if before.None? then None
            else if diff == "" then before
            else if one.None? then None
            else Some(before.value + [ApplyRecordedDiff(one.value)])
  {
    assert DropLast(init + [diff]) == init;
  }

  /** Diffs are applied in the order they were recorded. */
  lemma {:induction false} DiffOpsAppend(cfg: Config, id: int, a: seq<string>, b: seq<string>)
    ensures var x, y := DiffOps(cfg, id, a), DiffOps(cfg, id, b);
            DiffOps(cfg, id, a + b) == if x.Some? && y.Some? then Some(x.value + y.value) else None
    decreases |b|
  {
    if b == [] {
      assert a + b == a;
      var x := DiffOps(cfg, id, a);
      assert x.Some? ==> x.value + [] == x.value;
    } else {
      var init, d := DropLast(b), Last(b);
      assert a + b == (a + init) + [d] && b == init + [d];
      DiffOpsAppend(cfg, id, a, init);
      DiffOpsOneMore(cfg, id, a + init, d);
      DiffOpsOneMore(cfg, id, init, d);
      var x, y, one := DiffOps(cfg, id, a), DiffOps(cfg, id, init), cfg.repair(id, d);
      if x.Some? && y.Some? && one.Some? {
        var e := [ApplyRecordedDiff(one.value)];
        assert (x.value + y.value) + e == x.value + (y.value + e);
      }
    }
  }

  /** A transition first reads its context and then applies its diffs; one that
      does neither marks a boundary. It is refused when a repair fails, or when
      it writes without being an edit. */
  lemma TransitionOpsAre(cfg: Config, t: Transition)
    ensures var files, diffs, r := NonemptyTexts(t.context), NonemptyTexts(t.diffs), TransitionOps(cfg, t);
            && (r == Err(BadRepair) <==> !AllRepaired(cfg, t.id, diffs))
            && (r == Err(WriteInReadOnlyState) <==>
                  AllRepaired(cfg, t.id, diffs) && diffs != [] && t.name != "EditCode")
            && (r.Ok? && files == [] && diffs == [] ==> r.value == [NO_IO])
            && (r.Ok? && files + diffs != [] ==>
                  && |r.value| == |files| + |diffs|
                  && (forall k | 0 <= k < |files| :: r.value[k] == ViewFile(files[k], None, None))
                  && Applies(cfg, t.id, diffs, r.value[|files|..]))
  {
    var views, edits := ContextOps(t.context), DiffOps(cfg, t.id, t.diffs);
    ContextOpsAre(t.context);
    DiffOpsAre(cfg, t.id, t.diffs);
    if edits.Some? {
      assert (views + edits.value)[|views|..] == edits.value;
      assert forall k | 0 <= k < |views| :: (views + edits.value)[k] == views[k];
    }
  }

  // ----- Checkpoints -----

  /** The transitions that take a checkpoint: all but the markers of progress. */
  function Takers(ts: seq<Transition>, n: nat): seq<nat>
    requires n <= |ts|
  {
    if n == 0 then []
    else
      var name := ts[n - 1].name;
      Takers(ts, n - 1) + if name == "Pending" || name == "Rejected" || name == "Finished" then [] else [n - 1]
  }

  /** The checkpoint of transition i. */
  ghost predicate CkptFor(cfg: Config, ts: seq<Transition>, i: nat, e: Event) {
    && i < |ts| && e.Ckpt? && e.id == cfg.cid(ts[i].id) && e.opsRequired
    && e.ops.Some? && TransitionOps(cfg, ts[i]) == Ok(e.ops.value)
    && (e.strategy.Lightweight? <==> cfg.adaptive && ts[i].name != "EditCode")
    && (e.strategy.Standard? <==> !cfg.adaptive || ts[i].name == "EditCode")
    && e.latency == Some(LatencyOf(cfg, ts, i))
  }

  /** First the bootstrap's checkpoint, then one for each of these transitions. */
  ghost predicate CkptsFor(cfg: Config, ts: seq<Transition>, takers: seq<nat>, ckpts: seq<Event>) {
    && |ckpts| == |takers| + 1
    && ckpts[0] == Ckpt(cfg.boot, Standard, Some(0.0), Some([INITIAL]), true)
    && forall k | 0 <= k < |takers| :: CkptFor(cfg, ts, takers[k], ckpts[k + 1])
  }

  lemma CkptsOfAppend(log: Log, parent: string, e: Event)
    requires e.Ckpt?
    ensures CkptsOf(Append(log, parent, e).events) == CkptsOf(log.events) + [e]
  {
    if log.active != parent {
      CkptsOfSnoc(log.events, Restore(parent));
      CkptsOfSnoc(log.events + [Restore(parent)], e);
    } else {
      assert log.events + [] == log.events;
      CkptsOfSnoc(log.events, e);
    }
  }

  lemma CkptsForBootstrap(cfg: Config, ts: seq<Transition>)
    ensures CkptsFor(cfg, ts, [], CkptsOf(Bootstrap(cfg).events))
  {
    var none: seq<Event> := [];
    CkptsOfSnoc(none, Bootstrap(cfg).events[0]);
    assert none + [Bootstrap(cfg).events[0]] == Bootstrap(cfg).events;
  }

  /** One checkpoint more, for one transition more. */
  lemma CkptsForSnoc(cfg: Config, ts: seq<Transition>, takers: seq<nat>, ckpts: seq<Event>, i: nat, e: Event)
    requires CkptsFor(cfg, ts, takers, ckpts) && CkptFor(cfg, ts, i, e)
    ensures CkptsFor(cfg, ts, takers + [i], ckpts + [e])
  {
  }

  lemma OwnCkptFor(cfg: Config, ts: seq<Transition>, i: nat, ops: seq<Op>)
    requires i < |ts| && TransitionOps(cfg, ts[i]) == Ok(ops)
    ensures CkptFor(cfg, ts, i, OwnCkpt(cfg, ts, i, ops))
  {
  }

  /** The log after n transitions has the checkpoints of those that take one. */
  ghost predicate TakersDone(cfg: Config, ts: seq<Transition>, n: nat, log: Log)
    requires n <= |ts|
  {
    CkptsFor(cfg, ts, Takers(ts, n), CkptsOf(log.events))
  }

  lemma TakersNext(cfg: Config, ts: seq<Transition>, n: nat, log: Log, parent: string, ops: seq<Op>)
    requires n < |ts| && !Skipped(ts[n]) && TransitionOps(cfg, ts[n]) == Ok(ops) && TakersDone(cfg, ts, n, log)
    ensures TakersDone(cfg, ts, n + 1, Append(log, parent, OwnCkpt(cfg, ts, n, ops)))
  {
    var own := OwnCkpt(cfg, ts, n, ops);
    OwnCkptFor(cfg, ts, n, ops);
    CkptsOfAppend(log, parent, own);
    CkptsForSnoc(cfg, ts, Takers(ts, n), CkptsOf(log.events), n, own);
  }

  lemma {:induction false} TraceCkpts(cfg: Config, ts: seq<Transition>, logs: seq<Log>, n: nat)
    requires n <= |ts| && Traces(cfg, ts, logs)
    ensures TakersDone(cfg, ts, n, logs[n])
  {
    if n == 0 {
      CkptsForBootstrap(cfg, ts);
    } else {
      TraceCkpts(cfg, ts, logs, n - 1);
      CkptsForNext(cfg, ts, logs, n - 1);
    }
  }

  lemma CkptsForNext(cfg: Config, ts: seq<Transition>, logs: seq<Log>, n: nat)
    requires n < |ts| && Traces(cfg, ts, logs) && TakersDone(cfg, ts, n, logs[n])
    ensures TakersDone(cfg, ts, n + 1, logs[n + 1])
  {
    assert Follows(cfg, ts, logs, n);
    if Skipped(ts[n]) {
      assert Takers(ts, n + 1) == Takers(ts, n);
    } else {
      TakersNext(cfg, ts, n, logs[n], ParentOf(cfg, ts, n).value, TransitionOps(cfg, ts[n]).value);
    }
  }

  /** The checkpoints of a converted log: the bootstrap's, and one for each
      transition that is no marker, in order, with its own work and strategy. */
  lemma LegacyCkptsInOrder(cfg: Config, ts: seq<Transition>)
    requires Compile(cfg, ts, |ts|).Ok?
    ensures CkptsFor(cfg, ts, Takers(ts, |ts|), CkptsOf(Compile(cfg, ts, |ts|).value.events))
  {
    var logs := CompileTrace(cfg, ts);
    TraceCkpts(cfg, ts, logs, |ts|);
  }

  // ----- Restores -----

  /** Every restore comes right after a checkpoint other than its target. */
  ghost predicate RestoresNeeded(events: seq<Event>) {
    forall i | 0 <= i < |events| && events[i].Restore? ::
      i > 0 && events[i - 1].Ckpt? && events[i - 1].id != events[i].target
  }

  ghost predicate ActiveLast(log: Log) {
    log.events != [] && Last(log.events).Ckpt? && Last(log.events).id == log.active
  }

  lemma AppendNeeded(log: Log, parent: string, e: Event)
    requires e.Ckpt? && RestoresNeeded(log.events) && ActiveLast(log)
    ensures RestoresNeeded(Append(log, parent, e).events) && ActiveLast(Append(log, parent, e))
  {
    var after := Append(log, parent, e).events;
    assert forall i | 0 <= i < |log.events| :: after[i] == log.events[i];
    assert after[|log.events| - 1] == Last(log.events);
  }

  lemma {:induction false} TraceNeeded(cfg: Config, ts: seq<Transition>, logs: seq<Log>, n: nat)
    requires n <= |ts| && Traces(cfg, ts, logs)
    ensures RestoresNeeded(logs[n].events) && ActiveLast(logs[n])
  {
    if n > 0 {
      TraceNeeded(cfg, ts, logs, n - 1);
      assert Follows(cfg, ts, logs, n - 1);
      if !Skipped(ts[n - 1]) {
        AppendNeeded(logs[n - 1], ParentOf(cfg, ts, n - 1).value,
                     OwnCkpt(cfg, ts, n - 1, TransitionOps(cfg, ts[n - 1]).value));
      }
    }
  }

  /** A converted log never restores the checkpoint it has just taken. */
  lemma LegacyRestoresNeeded(cfg: Config, ts: seq<Transition>)
    requires Compile(cfg, ts, |ts|).Ok?
    ensures RestoresNeeded(Compile(cfg, ts, |ts|).value.events)
  {
    var logs := CompileTrace(cfg, ts);
    TraceNeeded(cfg, ts, logs, |ts|);
  }

  // ----- Pacing -----

  function Elapsed(cfg: Config, ts: seq<Transition>, n: nat): real
    requires n <= |ts|
  {
    if n == 0 then 0.0 else Elapsed(cfg, ts, n - 1) + LatencyOf(cfg, ts, n - 1)
  }

  ghost predicate Chronological(ts: seq<Transition>) {
    forall i, j | 0 <= i <= j < |ts| :: ts[i].createdAt <= ts[j].createdAt
  }

  /** Under the recorded policy the latencies of a chronological log add up to
      the time between its first and last transition. */
  lemma {:induction false} LatenciesSpanTheLog(cfg: Config, ts: seq<Transition>, n: nat)
    requires !cfg.paperZero && Chronological(ts) && n < |ts|
    ensures Elapsed(cfg, ts, n) == ts[n].createdAt - ts[0].createdAt
    ensures n == |ts| - 1 ==> Elapsed(cfg, ts, |ts|) == Last(ts).createdAt - ts[0].createdAt
  {
    if n > 0 {
      LatenciesSpanTheLog(cfg, ts, n - 1);
    }
  }

  /** Under the other policy they are all zero. */
  lemma {:induction false} ZeroLatencies(cfg: Config, ts: seq<Transition>, n: nat)
    requires cfg.paperZero && n <= |ts|
    ensures Elapsed(cfg, ts, n) == 0.0
  {
    if n > 0 {
      ZeroLatencies(cfg, ts, n - 1);
    }
  }

  // ----- The index -----

  /** The index holds, for each ID, the last transition recorded under it. */
  lemma {:induction false} IndexHoldsLast(ts: seq<Transition>, i: nat)
    requires i < |ts| && forall j | i < j < |ts| :: ts[j].id != ts[i].id
    ensures ts[i].id in ById(ts) && ById(ts)[ts[i].id] == ts[i]
  {
    if i < |ts| - 1 {
      IndexHoldsLast(DropLast(ts), i);
    }
  }
}
