/**
 What a compiled tree schedule does when it runs: it rebuilds, under every
 checkpoint, the state of that node's root-to-node path, exactly when the tree
 and its IDs are aligned.
 */
module TreeReplay {
  import opened Prelude
  import opened Schedule
  import opened Actions
  import opened TreeSchedule

  // ----- Timing the schedule -----

  /** The recorded latency of the i-th checkpoint, or the mean once the record runs out. */
  function LatencyAt(latencies: seq<real>, i: nat): real
    requires latencies != []
  {
    if i < |latencies| then latencies[i] else Sum(latencies) / (|latencies| as real)
  }

  function CountCkpts(events: seq<Event>): nat {
    if events == [] then 0 else CountCkpts(DropLast(events)) + (if Last(events).Ckpt? then 1 else 0)
  }

  function TimeEvent(e: Event, latency: real, adaptive: bool): Event {
    if e.Ckpt? then e.(strategy := if adaptive then e.strategy else Standard, latency := Some(latency)) else e
  }

  function Timed(events: seq<Event>, latencies: seq<real>, adaptive: bool): (r: seq<Event>)
    requires latencies != []
    ensures |r| == |events|
  {
    if events == [] then []
    else
      Timed(DropLast(events), latencies, adaptive) +
      [TimeEvent(Last(events), LatencyAt(latencies, CountCkpts(DropLast(events))), adaptive)]
  }

  lemma TimedSnoc(events: seq<Event>, e: Event, latencies: seq<real>, adaptive: bool)
    requires latencies != []
    ensures Timed(events + [e], latencies, adaptive)
            == Timed(events, latencies, adaptive) + [TimeEvent(e, LatencyAt(latencies, CountCkpts(events)), adaptive)]
  {
    assert DropLast(events + [e]) == events;
  }

  /** Timing changes neither the identity nor the work of any event. */
  ghost predicate SameWork(e: Event, f: Event) {
    || (e == f && !e.Ckpt?)
    || (e.Ckpt? && f.Ckpt? && e.id == f.id && e.ops == f.ops)
  }

  lemma {:induction false} TimedAt(events: seq<Event>, latencies: seq<real>, adaptive: bool)
    requires latencies != []
    ensures forall i | 0 <= i < |events| :: SameWork(events[i], Timed(events, latencies, adaptive)[i])
  {
    if events != [] {
      TimedAt(DropLast(events), latencies, adaptive);
    }
  }

  /** Timing makes every checkpoint standard unless the schedule is adaptive,
      and changes nothing else but the latency. */
  lemma {:induction false} TimedFields(events: seq<Event>, latencies: seq<real>, adaptive: bool, i: nat)
    requires latencies != [] && i < |events|
    ensures var e, t := events[i], Timed(events, latencies, adaptive)[i];
            && (!e.Ckpt? ==> t == e)
            && (e.Ckpt? ==>
                  && t.Ckpt? && t.id == e.id && t.ops == e.ops && t.opsRequired == e.opsRequired
                  && t.strategy == if adaptive then e.strategy else Standard)
  {
    if i < |events| - 1 {
      TimedFields(DropLast(events), latencies, adaptive, i);
    }
  }

  lemma {:induction false} TimedPrefix(events: seq<Event>, latencies: seq<real>, adaptive: bool, n: nat)
    requires latencies != [] && n <= |events|
    ensures Timed(events, latencies, adaptive)[..n] == Timed(events[..n], latencies, adaptive)
  {
    if n == |events| {
      assert events[..n] == events;
    } else {
      TimedPrefix(DropLast(events), latencies, adaptive, n);
      assert DropLast(events)[..n] == events[..n];
    }
  }

  lemma {:induction false} TimedRun<S>(w: Worker<S>, start: S, events: seq<Event>, latencies: seq<real>, adaptive: bool)
    requires latencies != []
    ensures Run(w, start, Timed(events, latencies, adaptive)) == Run(w, start, events)
  {
    if events != [] {
      TimedRun(w, start, DropLast(events), latencies, adaptive);
      assert DropLast(Timed(events, latencies, adaptive)) == Timed(DropLast(events), latencies, adaptive);
    }
  }

  /** The latencies of a schedule's checkpoints, in order. */
  function CkptLatencies(events: seq<Event>): seq<Option<real>> {
    if events == [] then []
    else CkptLatencies(DropLast(events)) + if Last(events).Ckpt? then [Last(events).latency] else []
  }

  lemma {:induction false} LatenciesAt(events: seq<Event>, latencies: seq<real>, adaptive: bool)
    requires latencies != []
    ensures var ls := CkptLatencies(Timed(events, latencies, adaptive));
            && |ls| == CountCkpts(events)
            && forall i | 0 <= i < |ls| :: ls[i] == Some(LatencyAt(latencies, i))
  {
    if events != [] {
      LatenciesAt(DropLast(events), latencies, adaptive);
      assert DropLast(Timed(events, latencies, adaptive)) == Timed(DropLast(events), latencies, adaptive);
    }
  }

  /** The i-th latency is the i-th recorded one, or the mean once the record has run out. */
  ghost predicate LatencyRight(latencies: seq<real>, i: nat, latency: Option<real>) {
    && latency.Some?
    && if i < |latencies| then latency.value == latencies[i]
       else latency.value * |latencies| as real == Sum(latencies)
  }

  lemma LatencyFacts(latencies: seq<real>, i: nat)
    requires latencies != []
    ensures LatencyRight(latencies, i, Some(LatencyAt(latencies, i)))
  {
  }

  /** Recorded latencies go to checkpoints in order, one each; restores take
      none, and checkpoints beyond the record take the mean. */
  lemma LatenciesInOrder(events: seq<Event>, latencies: seq<real>, adaptive: bool)
    requires latencies != []
    ensures var ls := CkptLatencies(Timed(events, latencies, adaptive));
            && |ls| == CountCkpts(events)
            && forall i | 0 <= i < |ls| :: LatencyRight(latencies, i, ls[i])
  {
    var ls := CkptLatencies(Timed(events, latencies, adaptive));
    LatenciesAt(events, latencies, adaptive);
    forall i | 0 <= i < |ls|
      ensures LatencyRight(latencies, i, ls[i])
    {
      LatencyFacts(latencies, i);
    }
  }

  method TimeEvents(events: seq<Event>, latencies: seq<real>, adaptive: bool) returns (timed: seq<Event>)
    requires latencies != []
    ensures timed == Timed(events, latencies, adaptive)
  {
    timed := [];
    var checkpointIndex := 0;
    for i := 0 to |events|
      invariant timed == Timed(events[..i], latencies, adaptive)
      invariant checkpointIndex == CountCkpts(events[..i])
    {
      var event := events[i];
      assert DropLast(events[..i + 1]) == events[..i];
      if event.Ckpt? {
        event := event.(strategy := if adaptive then event.strategy else Standard,
                        latency := Some(LatencyAt(latencies, checkpointIndex)));
        checkpointIndex := checkpointIndex + 1;
      }
      timed := timed + [event];
    }
    assert events[..|events|] == events;
  }

  // ----- Acceptance rules out colliding checkpoint IDs -----

  ghost predicate FreshIds(events: seq<Event>) {
    forall i, j | 0 <= i < j < |events| && events[i].Ckpt? && events[j].Ckpt? :: events[i].id != events[j].id
  }

  lemma AcceptedFresh(events: seq<Event>, latencies: seq<real>, adaptive: bool)
    requires latencies != []
    requires Accepted(Timed(events, latencies, adaptive), adaptive)
    ensures FreshIds(events)
  {
    var timed := Timed(events, latencies, adaptive);
    TimedAt(events, latencies, adaptive);
    forall i, j | 0 <= i < j < |events| && events[i].Ckpt? && events[j].Ckpt?
      ensures events[i].id != events[j].id
    {
      assert SameWork(events[i], timed[i]) && SameWork(events[j], timed[j]);
      assert Legal(timed, j, adaptive);
    }
  }

  lemma {:induction false} CompileGrows(cid: int -> string, es: seq<Row>, k: nat, n: nat)
    requires k <= n <= |es| && forall i | 0 <= i < |es| :: es[i].id.Some?
    ensures Compile(cid, es, k).events <= Compile(cid, es, n).events
  {
    if k < n {
      CompileGrows(cid, es, k, n - 1);
      var st, e := Compile(cid, es, n - 1), es[n - 1];
      assert Compile(cid, es, n).events == st.events + Jump(st, e) + OwnCkpt(cid, e);
    }
  }

  lemma CompileSnoc(cid: int -> string, es: seq<Row>, k: nat, st: Emission, jump: seq<Event>)
    requires 0 < k <= |es| && forall i | 0 <= i < |es| :: es[i].id.Some?
    requires st == Compile(cid, es, k - 1) && jump == Jump(st, es[k - 1])
    ensures Compile(cid, es, k).events == st.events + jump + OwnCkpt(cid, es[k - 1])
    ensures st.events <= Compile(cid, es, k).events
  {
  }

  /** The first n events introduce a checkpoint for each of the first k rows that ran. */
  ghost predicate Covers(cid: int -> string, es: seq<Row>, k: nat, whole: seq<Event>, n: nat)
    requires k <= |es| && n <= |whole| && forall i | 0 <= i < |es| :: es[i].id.Some?
  {
    forall j | 0 <= j < k && es[j].Emits() :: Introduced(whole, n, cid(es[j].id.value))
  }

  lemma FreshRow(cid: int -> string, es: seq<Row>, k: nat, before: seq<Event>, jump: seq<Event>, whole: seq<Event>)
    requires k < |es| && forall i | 0 <= i < |es| :: es[i].id.Some?
    requires FreshIds(whole) && before + jump + OwnCkpt(cid, es[k]) <= whole
    requires DistinctCkpts(cid, es, k) && Covers(cid, es, k, whole, |before|)
    ensures DistinctCkpts(cid, es, k + 1)
    ensures Covers(cid, es, k + 1, whole, |before + jump + OwnCkpt(cid, es[k])|)
  {
    var n := |before + jump|;
    if es[k].Emits() {
      var after := before + jump + OwnCkpt(cid, es[k]);
      assert whole[n] == after[n] == OwnCkpt(cid, es[k])[0];
    }
    forall j | 0 <= j < k && es[j].Emits()
      ensures Introduced(whole, |before + jump + OwnCkpt(cid, es[k])|, cid(es[j].id.value))
      ensures es[k].Emits() ==> cid(es[j].id.value) != cid(es[k].id.value)
    {
      assert Introduced(whole, |before|, cid(es[j].id.value));
      var i :| 0 <= i < |before| && whole[i].Ckpt? && whole[i].id == cid(es[j].id.value);
    }
  }

  lemma {:induction false} FreshCkpts(cid: int -> string, es: seq<Row>, k: nat, whole: seq<Event>)
    requires k <= |es| && forall i | 0 <= i < |es| :: es[i].id.Some?
    requires Compile(cid, es, k).events <= whole && FreshIds(whole)
    ensures DistinctCkpts(cid, es, k) && Covers(cid, es, k, whole, |Compile(cid, es, k).events|)
  {
    if k > 0 {
      var st := Compile(cid, es, k - 1);
      var jump := Jump(st, es[k - 1]);
      CompileSnoc(cid, es, k, st, jump);
      FreshCkpts(cid, es, k - 1, whole);
      FreshRow(cid, es, k - 1, st.events, jump, whole);
    }
  }

  /** The expansion order of any tree is consistent with its paths. */
  lemma ExpansionFacts(root: Node)
    ensures Expansion(ById(Rows(root)))
  {
    var rows, es := Rows(root), ById(Rows(root));
    WalkFacts(root, NoParent, []);
    forall i | 0 <= i < |es|
      ensures OwnWork(es[i])
    {
      assert es[i] in es;
      assert Rooted(rows, [], es[i]);
    }
  }

  /** The facts every theorem below starts from. */
  lemma TreeFacts(cid: int -> string, root: Node, latencies: seq<real>, adaptive: bool) returns (es: seq<Row>)
    requires DistinctIds(Rows(root)) && latencies != []
    requires Accepted(Timed(Linearize(cid, root), latencies, adaptive), adaptive)
    ensures es == ById(Rows(root)) && Expansion(es)
    ensures forall r :: r in es <==> r in Rows(root) && r.id.Some?
    ensures DistinctCkpts(cid, es, |es|)
  {
    es := ById(Rows(root));
    ExpansionFacts(root);
    ByIdComplete(Rows(root));
    AcceptedFresh(Linearize(cid, root), latencies, adaptive);
    FreshCkpts(cid, es, |es|, Linearize(cid, root));
  }

  // ----- Aligned trees are rebuilt on every worker -----

  /** The machine that a timed tree schedule ends in. */
  ghost function Final<S>(w: Worker<S>, cid: int -> string, start: S, root: Node, latencies: seq<real>,
                          adaptive: bool): (m: Machine<S>)
    requires latencies != [] && Accepted(Timed(Linearize(cid, root), latencies, adaptive), adaptive)
  {
    var timed := Timed(Linearize(cid, root), latencies, adaptive);
    AcceptedRuns(w, start, timed, adaptive);
    Run(w, start, timed).value
  }

  /** Every checkpoint of a node holds the state of its root-to-node path. */
  ghost predicate RebuildsPaths<S>(w: Worker<S>, cid: int -> string, start: S, root: Node, m: Machine<S>) {
    forall r | r in Rows(root) && r.Emits() ::
      cid(r.id.value) in m.store && m.store[cid(r.id.value)] == Replay(w, cid, start, r.path)
  }

  /** For every worker: an accepted schedule of an aligned tree rebuilds every path. */
  lemma AlignedRebuilds<S>(w: Worker<S>, cid: int -> string, start: S, root: Node, latencies: seq<real>, adaptive: bool)
    requires DistinctIds(Rows(root)) && latencies != []
    requires Accepted(Timed(Linearize(cid, root), latencies, adaptive), adaptive)
    requires Aligned(root)
    ensures RebuildsPaths(w, cid, start, root, Final(w, cid, start, root, latencies, adaptive))
  {
    var es := TreeFacts(cid, root, latencies, adaptive);
    var m := CompileRuns(w, cid, start, es, |es|);
    TimedRun(w, start, Linearize(cid, root), latencies, adaptive);
    forall r | r in Rows(root) && r.Emits()
      ensures cid(r.id.value) in m.store && m.store[cid(r.id.value)] == Replay(w, cid, start, r.path)
    {
      assert r in es;
      var j :| 0 <= j < |es| && es[j] == r;
    }
  }

  // ----- Only aligned trees are rebuilt: the worker that remembers everything -----

  lemma {:induction false} TrailOf(cid: int -> string, path: seq<Work>)
    ensures var t := Replay(Tracer, cid, [], path);
            && |t| == |path|
            && forall i | 0 <= i < |path| :: t[i] == (cid(path[i].id), path[i].ops)
  {
    if path != [] {
      TrailOf(cid, DropLast(path));
    }
  }

  /** A path made of the work of rows that ran. */
  ghost predicate Performed(es: seq<Row>, path: seq<Work>) {
    forall i | 0 <= i < |path| :: DoneBy(es, path[i])
  }

  ghost predicate DoneBy(es: seq<Row>, work: Work) {
    exists j :: 0 <= j < |es| && es[j].Emits() && work == Work(es[j].id.value, es[j].strategy, es[j].ops)
  }

  /** Distinct checkpoint IDs make a trail identify its path. */
  lemma TrailInjective(cid: int -> string, es: seq<Row>, p: seq<Work>, q: seq<Work>)
    requires Expansion(es) && DistinctCkpts(cid, es, |es|)
    requires Performed(es, p) && Performed(es, q)
    requires Replay(Tracer, cid, [], p) == Replay(Tracer, cid, [], q)
    ensures p == q
  {
    TrailOf(cid, p);
    TrailOf(cid, q);
    forall i | 0 <= i < |p|
      ensures p[i] == q[i]
    {
      assert DoneBy(es, p[i]) && DoneBy(es, q[i]);
      var a :| 0 <= a < |es| && es[a].Emits() && p[i] == Work(es[a].id.value, es[a].strategy, es[a].ops);
      var b :| 0 <= b < |es| && es[b].Emits() && q[i] == Work(es[b].id.value, es[b].strategy, es[b].ops);
      assert cid(es[a].id.value) == cid(es[b].id.value);
      assert a == b;
    }
  }

  lemma PathsPerformed(root: Node)
    requires DistinctIds(Rows(root))
    ensures var es := ById(Rows(root)); forall r | r in Rows(root) :: Performed(es, r.path)
  {
    var rows, es := Rows(root), ById(Rows(root));
    WalkFacts(root, NoParent, []);
    ByIdComplete(rows);
    forall r, i | r in rows && 0 <= i < |r.path|
      ensures DoneBy(es, r.path[i])
    {
      assert Rooted(rows, [], r);
      assert Reached(rows, r.path[..i + 1]);
      var q :| q in rows && q.Emits() && q.path == r.path[..i + 1];
      assert Rooted(rows, [], q) && OwnWork(q);
      assert q in es;
      var j :| 0 <= j < |es| && es[j] == q;
    }
  }

  lemma {:induction false} HeldPerformed(es: seq<Row>, k: nat)
    requires k <= |es|
    requires forall r | r in es :: Performed(es, r.path)
    ensures Performed(es, Held(es, k))
    ensures k < |es| ==> Performed(es, Resume(es, k))
  {
    if k > 0 {
      HeldPerformed(es, k - 1);
    }
  }

  /** What row k's checkpoint holds once taken: the trail it resumed from, and
      its own work. */
  lemma TakenTrail(cid: int -> string, es: seq<Row>, k: nat, st: Emission, m: Machine<Trail>)
    returns (m': Machine<Trail>)
    requires Expansion(es) && k < |es| && es[k].Emits() && Tracked(cid, es, k, st)
    requires Run(Tracer, [], st.events) == Some(m)
    requires Rebuilt(Tracer, cid, [], es, k, m)
    requires m.cur == Replay(Tracer, cid, [], Held(es, k))
    ensures Run(Tracer, [], EmitRow(cid, st, es[k]).events) == Some(m')
    ensures var id := cid(es[k].id.value);
            id in m'.store && m'.store[id] == Tracer(Replay(Tracer, cid, [], Resume(es, k)), id, es[k].ops)
  {
    m' := AfterJump(Tracer, cid, [], es, k, st, m);
    var before, e := st.events + Jump(st, es[k]), OwnCkpt(cid, es[k])[0];
    RunSnoc(Tracer, [], before, e);
    assert OwnCkpt(cid, es[k]) == [e];
    m' := Step(Tracer, m', e).value;
  }

  lemma CompiledTrail(cid: int -> string, es: seq<Row>, k: nat) returns (m: Machine<Trail>)
    requires Expansion(es) && DistinctCkpts(cid, es, |es|)
    requires k < |es| && es[k].Emits() && AlignedUpTo(es, k)
    ensures Run(Tracer, [], Compile(cid, es, k + 1).events) == Some(m)
    ensures var id := cid(es[k].id.value);
            id in m.store && m.store[id] == Tracer(Replay(Tracer, cid, [], Resume(es, k)), id, es[k].ops)
  {
    m := CompileRuns(Tracer, cid, [], es, k);
    CompileTracks(cid, es, k);
    m := TakenTrail(cid, es, k, Compile(cid, es, k), m);
  }

  /** A checkpoint that ends up with its path's trail was taken from its base. */
  lemma RightTrailRightBase(cid: int -> string, root: Node, es: seq<Row>, k: nat, s: Trail)
    requires DistinctIds(Rows(root)) && es == ById(Rows(root)) && Expansion(es) && DistinctCkpts(cid, es, |es|)
    requires k < |es| && es[k].Emits()
    requires s == Tracer(Replay(Tracer, cid, [], Resume(es, k)), cid(es[k].id.value), es[k].ops)
    requires s == Replay(Tracer, cid, [], es[k].path)
    ensures Resume(es, k) == es[k].Base()
  {
    var r := es[k];
    assert r in es;
    var ours, theirs := Replay(Tracer, cid, [], Resume(es, k)), Replay(Tracer, cid, [], r.Base());
    assert ours == s[..|s| - 1] && theirs == s[..|s| - 1];
    PathsPerformed(root);
    HeldPerformed(es, k);
    assert Performed(es, r.path);
    TrailInjective(cid, es, Resume(es, k), r.Base());
  }

  /** What the first k rows store, the final machine still stores. */
  ghost predicate KeptAt<S>(w: Worker<S>, cid: int -> string, start: S, es: seq<Row>, k: nat, final: Machine<S>)
    requires k <= |es| && forall i | 0 <= i < |es| :: es[i].id.Some?
  {
    var r := Run(w, start, Compile(cid, es, k).events);
    r.Some? ==> forall id | id in r.value.store :: id in final.store && final.store[id] == r.value.store[id]
  }

  /** A checkpoint taken by the first k rows keeps its state to the end. */
  lemma KeptToTheEnd<S>(w: Worker<S>, cid: int -> string, start: S, root: Node, latencies: seq<real>, adaptive: bool,
                        es: seq<Row>, k: nat)
    requires latencies != [] && es == ById(Rows(root)) && k <= |es|
    requires Accepted(Timed(Linearize(cid, root), latencies, adaptive), adaptive)
    ensures KeptAt(w, cid, start, es, k, Final(w, cid, start, root, latencies, adaptive))
  {
    var whole, part := Linearize(cid, root), Compile(cid, es, k).events;
    var timed, n := Timed(whole, latencies, adaptive), |part|;
    CompileGrows(cid, es, k, |es|);
    assert whole[..n] == part;
    TimedPrefix(whole, latencies, adaptive, n);
    TimedRun(w, start, part, latencies, adaptive);
    assert Run(w, start, timed[..n]) == Run(w, start, part);
    if n > 0 {
      TruncationIsSafe(w, start, timed, n, adaptive);
    }
  }

  /** A row whose path ends up rebuilt resumed from its base, if the rows before it did. */
  lemma RebuiltRowAligned(cid: int -> string, root: Node, es: seq<Row>, k: nat, final: Machine<Trail>)
    requires DistinctIds(Rows(root)) && es == ById(Rows(root)) && Expansion(es) && DistinctCkpts(cid, es, |es|)
    requires RebuildsPaths(Tracer, cid, [], root, final)
    requires k < |es| && es[k].Emits() && AlignedUpTo(es, k) && KeptAt(Tracer, cid, [], es, k + 1, final)
    ensures Resume(es, k) == es[k].Base()
  {
    assert es[k] in es && es[k] in Rows(root);
    var m := CompiledTrail(cid, es, k);
    RightTrailRightBase(cid, root, es, k, m.store[cid(es[k].id.value)]);
  }

  lemma {:induction false} RebuiltAligned(cid: int -> string, root: Node, es: seq<Row>, k: nat, final: Machine<Trail>)
    requires DistinctIds(Rows(root)) && es == ById(Rows(root)) && Expansion(es) && DistinctCkpts(cid, es, |es|)
    requires RebuildsPaths(Tracer, cid, [], root, final)
    requires k <= |es| && KeptThroughout(Tracer, cid, [], es, final)
    ensures AlignedUpTo(es, k)
  {
    if k > 0 {
      RebuiltAligned(cid, root, es, k - 1, final);
      KeptAfter(Tracer, cid, [], es, k, final);
      RebuiltOneMore(cid, root, es, k - 1, final);
    }
  }

  lemma RebuiltOneMore(cid: int -> string, root: Node, es: seq<Row>, k: nat, final: Machine<Trail>)
    requires DistinctIds(Rows(root)) && es == ById(Rows(root)) && Expansion(es) && DistinctCkpts(cid, es, |es|)
    requires RebuildsPaths(Tracer, cid, [], root, final)
    requires k < |es| && AlignedUpTo(es, k) && KeptAt(Tracer, cid, [], es, k + 1, final)
    ensures AlignedUpTo(es, k + 1)
  {
    if es[k].Emits() {
      RebuiltRowAligned(cid, root, es, k, final);
    }
    AlignedMore(es, k + 1);
  }

  ghost predicate KeptThroughout<S>(w: Worker<S>, cid: int -> string, start: S, es: seq<Row>, final: Machine<S>)
    requires forall i | 0 <= i < |es| :: es[i].id.Some?
  {
    forall k: nat | k <= |es| :: KeptAt(w, cid, start, es, k, final)
  }

  lemma KeptAfter<S>(w: Worker<S>, cid: int -> string, start: S, es: seq<Row>, k: nat, final: Machine<S>)
    requires (forall i | 0 <= i < |es| :: es[i].id.Some?) && k <= |es| && KeptThroughout(w, cid, start, es, final)
    ensures KeptAt(w, cid, start, es, k, final)
  {
  }

  lemma AlignedMore(es: seq<Row>, k: nat)
    requires 0 < k <= |es| && AlignedUpTo(es, k - 1)
    requires es[k - 1].Emits() ==> Resume(es, k - 1) == es[k - 1].Base()
    ensures AlignedUpTo(es, k)
  {
  }

  /** The exact condition: an accepted tree schedule rebuilds the root-to-node
      path of every node that ran if and only if the tree is aligned. */
  lemma RebuildsIffAligned(cid: int -> string, root: Node, latencies: seq<real>, adaptive: bool)
    requires DistinctIds(Rows(root)) && latencies != []
    requires Accepted(Timed(Linearize(cid, root), latencies, adaptive), adaptive)
    ensures RebuildsPaths(Tracer, cid, [], root, Final(Tracer, cid, [], root, latencies, adaptive))
            <==> Aligned(root)
  {
    if Aligned(root) {
      AlignedRebuilds(Tracer, cid, [], root, latencies, adaptive);
    }
    if RebuildsPaths(Tracer, cid, [], root, Final(Tracer, cid, [], root, latencies, adaptive)) {
      var es := TreeFacts(cid, root, latencies, adaptive);
      var final := Final(Tracer, cid, [], root, latencies, adaptive);
      forall k: nat | k <= |es|
        ensures KeptAt(Tracer, cid, [], es, k, final)
      {
        KeptToTheEnd(Tracer, cid, [], root, latencies, adaptive, es, k);
      }
      RebuiltAligned(cid, root, es, |es|, final);
    }
  }
}
