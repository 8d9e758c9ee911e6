/**
 What a compiled log of transitions does when it runs, judged by the recorded
 parent pointers: it rebuilds, under every checkpoint, the work of that
 transition's recorded line of ancestors, exactly when no transition comes
 before its nearest recorded ancestor that takes a checkpoint.
 */
module LegacyReplay {
  import opened Prelude
  import opened Schedule
  import opened Actions
  import opened Files
  import opened LegacySchedule

  // ----- Recorded lines of descent -----

  /** One of the first n transitions has this ID and takes a checkpoint. */
  ghost predicate Checkpointed(ts: seq<Transition>, n: nat, id: int)
    requires n <= |ts|
  {
    exists j :: 0 <= j < n && !Skipped(ts[j]) && ts[j].id == id
  }

  /** The recorded pointers from tid end here: no parent, or one that takes a
      checkpoint anywhere in the log. */
  ghost predicate Ends(ts: seq<Transition>, x: Option<int>) {
    x.None? || Checkpointed(ts, |ts|, x.value)
  }

  ghost predicate FirstEnd(ts: seq<Transition>, tid: Option<int>, n: nat) {
    && Ends(ts, Ancestor(ById(ts), tid, n))
    && forall m: nat | m < n :: !Ends(ts, Ancestor(ById(ts), tid, m))
  }

  /** By the recorded pointers, x is the nearest ancestor of transition i that
      takes a checkpoint, or None if there is no such ancestor. */
  ghost predicate Nearest(ts: seq<Transition>, i: nat, x: Option<int>)
    requires i < |ts|
  {
    exists n: nat :: FirstEnd(ts, ts[i].previous, n) && x == Ancestor(ById(ts), ts[i].previous, n)
  }

  /** Every checkpoint comes after that of its nearest recorded ancestor. */
  ghost predicate InOrder(ts: seq<Transition>) {
    forall i: nat, x {:trigger Nearest(ts, i, x)} | i < |ts| && !Skipped(ts[i]) && Nearest(ts, i, x) ::
      x.None? || Checkpointed(ts, i, x.value)
  }

  /** The ID of the transition before position k of the line. */
  function Above(ts: seq<Transition>, line: seq<nat>, k: nat): Option<int>
    requires k <= |line| && forall j | 0 <= j < |line| :: line[j] < |ts|
  {
    if k == 0 then None else Some(ts[line[k - 1]].id)
  }

  /** Transitions that take a checkpoint, each the nearest recorded ancestor of
      the next, from one without any down to the last. */
  ghost predicate RecordedLine(ts: seq<Transition>, line: seq<nat>) {
    && (forall k | 0 <= k < |line| :: line[k] < |ts| && !Skipped(ts[line[k]]))
    && (forall k: nat {:trigger Above(ts, line, k)} | k < |line| :: Nearest(ts, line[k], Above(ts, line, k)))
  }

  function OpsOf(cfg: Config, t: Transition): seq<Op> {
    var ops := TransitionOps(cfg, t);
    if ops.Ok? then ops.value else []
  }

  /** The state a worker reaches from the bootstrap by doing a line's work in order. */
  function ReplayLine<S>(w: Worker<S>, start: S, cfg: Config, ts: seq<Transition>, line: seq<nat>): S
    requires forall j | 0 <= j < |line| :: line[j] < |ts|
  {
    if line == [] then w(start, cfg.boot, [INITIAL])
    else
      var t := ts[Last(line)];
      w(ReplayLine(w, start, cfg, ts, DropLast(line)), cfg.cid(t.id), OpsOf(cfg, t))
  }

  /** The checkpoint at the end of a line, which is the bootstrap's for the empty line. */
  function EndOf(cfg: Config, ts: seq<Transition>, line: seq<nat>): string
    requires forall j | 0 <= j < |line| :: line[j] < |ts|
  {
    if line == [] then cfg.boot else cfg.cid(ts[Last(line)].id)
  }

  ghost predicate HoldsLine<S>(w: Worker<S>, start: S, cfg: Config, ts: seq<Transition>, line: seq<nat>, m: Machine<S>)
    requires forall j | 0 <= j < |line| :: line[j] < |ts|
  {
    var id := EndOf(cfg, ts, line);
    id in m.store && m.store[id] == ReplayLine(w, start, cfg, ts, line)
  }

  /** Transition i has a recorded line, and its checkpoint holds that line's work. */
  ghost predicate HoldsOwnLine<S>(w: Worker<S>, start: S, cfg: Config, ts: seq<Transition>, i: nat, m: Machine<S>)
    requires i < |ts|
  {
    exists line: seq<nat> ::
      RecordedLine(ts, line) && line != [] && Last(line) == i && HoldsLine(w, start, cfg, ts, line, m)
  }

  ghost predicate RebuildsLines<S>(w: Worker<S>, start: S, cfg: Config, ts: seq<Transition>, m: Machine<S>) {
    forall i: nat | i < |ts| && !Skipped(ts[i]) :: HoldsOwnLine(w, start, cfg, ts, i, m)
  }

  // ----- The walk and the recorded pointers -----

  lemma {:induction false} KnownIsCheckpointed(cfg: Config, ts: seq<Transition>, n: nat, x: int)
    requires n <= |ts|
    ensures x in Known(cfg, ts, n) <==> Checkpointed(ts, n, x)
    ensures x in Known(cfg, ts, n) ==> Known(cfg, ts, n)[x] == cfg.cid(x)
  {
    if n > 0 {
      KnownIsCheckpointed(cfg, ts, n - 1, x);
      CheckpointedMore(ts, n - 1, x);
    }
  }

  lemma CheckpointedMore(ts: seq<Transition>, n: nat, x: int)
    requires n < |ts|
    ensures Checkpointed(ts, n + 1, x) <==> Checkpointed(ts, n, x) || (!Skipped(ts[n]) && ts[n].id == x)
  {
    if Checkpointed(ts, n, x) {
      var j :| 0 <= j < n && !Skipped(ts[j]) && ts[j].id == x;
    }
  }

  /** Where the compiler's walk ended, and what it answered there. */
  lemma WalkEnd(cfg: Config, ts: seq<Transition>, i: nat) returns (d: nat)
    requires i < |ts| && ParentOf(cfg, ts, i).Ok?
    ensures FirstStop(ById(ts), Known(cfg, ts, i), ts[i].previous, d)
    ensures var x := Ancestor(ById(ts), ts[i].previous, d);
            && (x.None? || Checkpointed(ts, i, x.value))
            && ParentOf(cfg, ts, i) == Ok(if x.None? then cfg.boot else cfg.cid(x.value))
  {
    d := WalkFrom(ById(ts), Known(cfg, ts, i), cfg.boot, ts[i].previous, 0, {});
    var x := Ancestor(ById(ts), ts[i].previous, d);
    if x.Some? {
      KnownIsCheckpointed(cfg, ts, i, x.value);
    }
  }

  lemma CheckpointedInLog(ts: seq<Transition>, i: nat, x: int)
    requires i <= |ts| && Checkpointed(ts, i, x)
    ensures Checkpointed(ts, |ts|, x)
  {
    var j :| 0 <= j < i && !Skipped(ts[j]) && ts[j].id == x;
  }

  /** From any pointer that ends within n steps there is a first end. */
  lemma {:induction false} FirstEndBelow(ts: seq<Transition>, tid: Option<int>, n: nat) returns (k: nat)
    requires Ends(ts, Ancestor(ById(ts), tid, n))
    ensures k <= n && FirstEnd(ts, tid, k)
  {
    if m: nat :| m < n && Ends(ts, Ancestor(ById(ts), tid, m)) {
      k := FirstEndBelow(ts, tid, m);
    } else {
      k := n;
    }
  }

  /** Every transition that was converted has a nearest recorded ancestor. */
  lemma NearestExists(cfg: Config, ts: seq<Transition>, i: nat) returns (x: Option<int>)
    requires i < |ts| && ParentOf(cfg, ts, i).Ok?
    ensures Nearest(ts, i, x)
  {
    var d := WalkEnd(cfg, ts, i);
    var end := Ancestor(ById(ts), ts[i].previous, d);
    if end.Some? {
      CheckpointedInLog(ts, i, end.value);
    }
    var n := FirstEndBelow(ts, ts[i].previous, d);
    x := Ancestor(ById(ts), ts[i].previous, n);
  }

  /** If the nearest recorded ancestor came before, the walk finds it. */
  lemma WalkFindsNearest(cfg: Config, ts: seq<Transition>, i: nat, x: Option<int>)
    requires i < |ts| && ParentOf(cfg, ts, i).Ok? && Nearest(ts, i, x)
    requires x.None? || Checkpointed(ts, i, x.value)
    ensures ParentOf(cfg, ts, i) == Ok(if x.None? then cfg.boot else cfg.cid(x.value))
  {
    var tid := ts[i].previous;
    var d := WalkEnd(cfg, ts, i);
    var n: nat :| FirstEnd(ts, tid, n) && x == Ancestor(ById(ts), tid, n);
    var end := Ancestor(ById(ts), tid, d);
    if end.Some? {
      CheckpointedInLog(ts, i, end.value);
    }
    if x.Some? {
      KnownIsCheckpointed(cfg, ts, i, x.value);
    }
    assert Stops(ById(ts), Known(cfg, ts, i), x) && Ends(ts, end);
    assert d == n;
  }

  /** The walk answers with the nearest recorded ancestor only if that came before. */
  lemma WalkFoundNearest(cfg: Config, ts: seq<Transition>, i: nat, x: Option<int>)
    requires i < |ts| && Fresh(cfg, ts, |ts|) && Nearest(ts, i, x)
    requires ParentOf(cfg, ts, i) == Ok(if x.None? then cfg.boot else cfg.cid(x.value))
    ensures x.None? || Checkpointed(ts, i, x.value)
  {
    if x.Some? {
      var j :| 0 <= j < |ts| && !Skipped(ts[j]) && ts[j].id == x.value;
      ParentIsEarlier(cfg, ts, i);
      var k :| 0 <= k < i && !Skipped(ts[k]) && cfg.cid(x.value) == cfg.cid(ts[k].id);
      assert j == k;
    }
  }

  // ----- Logs in order are rebuilt on every worker -----

  ghost predicate AllContinued<S>(w: Worker<S>, start: S, cfg: Config, ts: seq<Transition>, m: Machine<S>) {
    && cfg.boot in m.store && m.store[cfg.boot] == w(start, cfg.boot, [INITIAL])
    && AllContinue(w, cfg, ts, |ts|, m)
  }

  lemma LineInit(ts: seq<Transition>, line: seq<nat>)
    requires RecordedLine(ts, line) && line != []
    ensures RecordedLine(ts, DropLast(line))
    ensures Nearest(ts, Last(line), Above(ts, line, |line| - 1))
  {
    var init := DropLast(line);
    forall k: nat | k < |init|
      ensures Nearest(ts, init[k], Above(ts, init, k))
    {
      assert Above(ts, init, k) == Above(ts, line, k);
    }
  }

  lemma LineSnoc(ts: seq<Transition>, line: seq<nat>, i: nat)
    requires RecordedLine(ts, line) && i < |ts| && !Skipped(ts[i]) && Nearest(ts, i, Above(ts, line, |line|))
    ensures RecordedLine(ts, line + [i])
  {
    var longer := line + [i];
    forall k: nat | k < |longer|
      ensures Nearest(ts, longer[k], Above(ts, longer, k))
    {
      assert Above(ts, longer, k) == Above(ts, line, k);
    }
  }

  /** In a log in order, the end of every recorded line holds the line's work. */
  lemma {:induction false} LineRebuilt<S>(w: Worker<S>, start: S, cfg: Config, ts: seq<Transition>, m: Machine<S>,
                                          line: seq<nat>)
    requires InOrder(ts) && AllContinued(w, start, cfg, ts, m) && RecordedLine(ts, line)
    ensures HoldsLine(w, start, cfg, ts, line, m)
  {
    if line != [] {
      var i, init := Last(line), DropLast(line);
      LineInit(ts, line);
      LineRebuilt(w, start, cfg, ts, m, init);
      assert Continues(w, cfg, ts, i, m);
      WalkFindsNearest(cfg, ts, i, Above(ts, line, |line| - 1));
      assert ParentOf(cfg, ts, i) == Ok(EndOf(cfg, ts, init));
    }
  }

  /** In a log in order, every transition that takes a checkpoint has a recorded line. */
  lemma {:induction false} LineExists<S>(w: Worker<S>, cfg: Config, ts: seq<Transition>, m: Machine<S>, i: nat)
    returns (line: seq<nat>)
    requires InOrder(ts) && AllContinue(w, cfg, ts, |ts|, m) && i < |ts| && !Skipped(ts[i])
    ensures RecordedLine(ts, line) && line != [] && Last(line) == i
    decreases i
  {
    assert Continues(w, cfg, ts, i, m);
    var x := NearestExists(cfg, ts, i);
    line := [];
    if x.Some? {
      var j :| 0 <= j < i && !Skipped(ts[j]) && ts[j].id == x.value;
      line := LineExists(w, cfg, ts, m, j);
    }
    LineSnoc(ts, line, i);
    line := line + [i];
  }

  /** For every worker: an accepted schedule of a log in order rebuilds every
      recorded line of descent. */
  lemma InOrderRebuilds<S>(w: Worker<S>, start: S, cfg: Config, ts: seq<Transition>) returns (m: Machine<S>)
    requires Compile(cfg, ts, |ts|).Ok? && Accepted(Compile(cfg, ts, |ts|).value.events, cfg.adaptive)
    requires InOrder(ts)
    ensures Run(w, start, Compile(cfg, ts, |ts|).value.events) == Some(m)
    ensures RebuildsLines(w, start, cfg, ts, m)
    ensures forall line: seq<nat> | RecordedLine(ts, line) :: HoldsLine(w, start, cfg, ts, line, m)
  {
    m := LegacyContinuesAncestors(w, start, cfg, ts);
    forall line: seq<nat> | RecordedLine(ts, line)
      ensures HoldsLine(w, start, cfg, ts, line, m)
    {
      LineRebuilt(w, start, cfg, ts, m, line);
    }
    forall i: nat | i < |ts| && !Skipped(ts[i])
      ensures HoldsOwnLine(w, start, cfg, ts, i, m)
    {
      var line := LineExists(w, cfg, ts, m, i);
    }
  }

  // ----- Only logs in order are rebuilt -----

  /** A line's trail names the line's last checkpoint last. */
  lemma TrailNamesEnd(cfg: Config, ts: seq<Transition>, line: seq<nat>)
    requires forall j | 0 <= j < |line| :: line[j] < |ts|
    ensures var t := ReplayLine(Tracer, [], cfg, ts, line); t != [] && Last(t).0 == EndOf(cfg, ts, line)
  {
  }

  /** A stored trail names its own checkpoint last. */
  lemma StoredNamesSelf(cfg: Config, ts: seq<Transition>, m: Machine<Trail>, i: nat)
    requires i < |ts| && !Skipped(ts[i]) && AllContinued(Tracer, [], cfg, ts, m)
    requires ParentOf(cfg, ts, i).Ok? && ParentOf(cfg, ts, i).value in m.store
    ensures var p := ParentOf(cfg, ts, i).value; m.store[p] != [] && Last(m.store[p]).0 == p
  {
    var p := ParentOf(cfg, ts, i).value;
    ParentIsEarlier(cfg, ts, i);
    if p != cfg.boot {
      var j :| 0 <= j < i && !Skipped(ts[j]) && p == cfg.cid(ts[j].id);
      assert Continues(Tracer, cfg, ts, j, m);
    }
  }

  /** A checkpoint that holds a line ending in it was taken from that line's end above it. */
  lemma TakenFromLine(cfg: Config, ts: seq<Transition>, m: Machine<Trail>, i: nat, line: seq<nat>)
    requires AllContinued(Tracer, [], cfg, ts, m) && i < |ts| && !Skipped(ts[i])
    requires (forall j | 0 <= j < |line| :: line[j] < |ts|) && HoldsLine(Tracer, [], cfg, ts, line + [i], m)
    ensures ParentOf(cfg, ts, i) == Ok(EndOf(cfg, ts, line))
  {
    assert Continues(Tracer, cfg, ts, i, m);
    var p := ParentOf(cfg, ts, i).value;
    assert DropLast(line + [i]) == line;
    StoredNamesSelf(cfg, ts, m, i);
    TrailNamesEnd(cfg, ts, line);
    SameBefore(m.store[p], ReplayLine(Tracer, [], cfg, ts, line), cfg.cid(ts[i].id), OpsOf(cfg, ts[i]));
  }

  /** If that end is the nearest recorded ancestor, it came before. */
  lemma EndCameBefore(cfg: Config, ts: seq<Transition>, i: nat, line: seq<nat>, x: Option<int>)
    requires Fresh(cfg, ts, |ts|) && i < |ts| && (forall j | 0 <= j < |line| :: line[j] < |ts|)
    requires Nearest(ts, i, x) && x == Above(ts, line, |line|) && ParentOf(cfg, ts, i) == Ok(EndOf(cfg, ts, line))
    ensures x.None? || Checkpointed(ts, i, x.value)
  {
    WalkFoundNearest(cfg, ts, i, x);
  }

  lemma OwnLine<S>(w: Worker<S>, start: S, cfg: Config, ts: seq<Transition>, i: nat, m: Machine<S>)
    returns (line: seq<nat>)
    requires i < |ts| && HoldsOwnLine(w, start, cfg, ts, i, m)
    ensures RecordedLine(ts, line) && Nearest(ts, i, Above(ts, line, |line|))
    ensures HoldsLine(w, start, cfg, ts, line + [i], m)
  {
    var whole: seq<nat> :|
      RecordedLine(ts, whole) && whole != [] && Last(whole) == i && HoldsLine(w, start, cfg, ts, whole, m);
    LineInit(ts, whole);
    line := DropLast(whole);
    assert whole == line + [i];
  }

  /** A checkpoint that holds its recorded line was taken after its nearest recorded ancestor. */
  lemma RebuiltInOrder(cfg: Config, ts: seq<Transition>, m: Machine<Trail>, i: nat, x: Option<int>)
    requires Fresh(cfg, ts, |ts|) && AllContinued(Tracer, [], cfg, ts, m)
    requires i < |ts| && !Skipped(ts[i]) && HoldsOwnLine(Tracer, [], cfg, ts, i, m) && Nearest(ts, i, x)
    ensures x.None? || Checkpointed(ts, i, x.value)
  {
    var line := OwnLine(Tracer, [], cfg, ts, i, m);
    TakenFromLine(cfg, ts, m, i, line);
    NearestUnique(ts, i, x, Above(ts, line, |line|));
    EndCameBefore(cfg, ts, i, line, x);
  }

  lemma SameBefore(a: Trail, b: Trail, id: string, ops: seq<Op>)
    requires Tracer(a, id, ops) == Tracer(b, id, ops)
    ensures a == b
  {
    assert a == Tracer(a, id, ops)[..|a|] && b == Tracer(b, id, ops)[..|b|];
  }

  lemma NearestUnique(ts: seq<Transition>, i: nat, x: Option<int>, y: Option<int>)
    requires i < |ts| && Nearest(ts, i, x) && Nearest(ts, i, y)
    ensures x == y
  {
    var tid := ts[i].previous;
    var n: nat :| FirstEnd(ts, tid, n) && x == Ancestor(ById(ts), tid, n);
    var m: nat :| FirstEnd(ts, tid, m) && y == Ancestor(ById(ts), tid, m);
    assert n == m;
  }

  /** The exact condition: an accepted legacy schedule rebuilds every recorded
      line of descent if and only if every checkpoint comes after that of its
      nearest recorded ancestor. */
  lemma RebuildsIffInOrder(cfg: Config, ts: seq<Transition>) returns (m: Machine<Trail>)
    requires Compile(cfg, ts, |ts|).Ok? && Accepted(Compile(cfg, ts, |ts|).value.events, cfg.adaptive)
    ensures Run(Tracer, [], Compile(cfg, ts, |ts|).value.events) == Some(m)
    ensures RebuildsLines(Tracer, [], cfg, ts, m) <==> InOrder(ts)
  {
    m := LegacyContinuesAncestors(Tracer, [], cfg, ts);
    LegacyAcceptedIff(cfg, ts);
    if RebuildsLines(Tracer, [], cfg, ts, m) {
      forall i: nat, x | i < |ts| && !Skipped(ts[i]) && Nearest(ts, i, x)
        ensures x.None? || Checkpointed(ts, i, x.value)
      {
        RebuiltInOrder(cfg, ts, m, i, x);
      }
    }
    if InOrder(ts) {
      var same := InOrderRebuilds(Tracer, [], cfg, ts);
    }
  }

  // ----- Files at lightweight checkpoints -----

  /** The length of the line down to its last standard transition. */
  function LastStandard(cfg: Config, ts: seq<Transition>, line: seq<nat>): (n: nat)
    requires forall j | 0 <= j < |line| :: line[j] < |ts|
    ensures n <= |line| && (n > 0 ==> StrategyOf(cfg, ts[line[n - 1]]).Standard?)
    ensures forall j | n <= j < |line| :: StrategyOf(cfg, ts[line[j]]).Lightweight?
  {
    if line == [] || StrategyOf(cfg, ts[Last(line)]).Standard? then |line|
    else LastStandard(cfg, ts, DropLast(line))
  }

  /** Along a line, files change only at standard transitions. */
  lemma {:induction false} LineFiles<F(!new)>(effect: (F, Op) -> F, start: F, cfg: Config, ts: seq<Transition>,
                                              line: seq<nat>)
    requires LeavesReadsAlone(effect)
    requires forall j | 0 <= j < |line| :: line[j] < |ts| && TransitionOps(cfg, ts[line[j]]).Ok?
    ensures ReplayLine(FileWorker(effect), start, cfg, ts, line)
            == ReplayLine(FileWorker(effect), start, cfg, ts, line[..LastStandard(cfg, ts, line)])
  {
    var n := LastStandard(cfg, ts, line);
    if n == |line| {
      assert line[..n] == line;
    } else {
      var init, t := DropLast(line), ts[Last(line)];
      LineFiles(effect, start, cfg, ts, init);
      assert init[..n] == line[..n];
      LegacyLightweightReads(cfg, t);
      ReadOnlyKeepsFiles(effect, ReplayLine(FileWorker(effect), start, cfg, ts, init), OpsOf(cfg, t));
    }
  }

  lemma {:induction false} LinePrefix(ts: seq<Transition>, line: seq<nat>, n: nat)
    requires RecordedLine(ts, line) && n <= |line|
    ensures RecordedLine(ts, line[..n])
  {
    if n == |line| {
      assert line[..n] == line;
    } else {
      LineInit(ts, line);
      LinePrefix(ts, DropLast(line), n);
      assert DropLast(line)[..n] == line[..n];
    }
  }

  /** In every accepted schedule of a log in order, each checkpoint holds the
      very files of its nearest standard ancestor on its recorded line, which
      exists: the bootstrap at the latest. */
  lemma LegacyLightweightFiles<F(!new)>(effect: (F, Op) -> F, start: F, cfg: Config, ts: seq<Transition>, i: nat)
    returns (m: Machine<F>, line: seq<nat>, q: string)
    requires LeavesReadsAlone(effect) && i < |ts| && !Skipped(ts[i])
    requires Compile(cfg, ts, |ts|).Ok? && Accepted(Compile(cfg, ts, |ts|).value.events, cfg.adaptive)
    requires InOrder(ts)
    ensures Run(FileWorker(effect), start, Compile(cfg, ts, |ts|).value.events) == Some(m)
    ensures RecordedLine(ts, line) && line != [] && Last(line) == i
    ensures q == EndOf(cfg, ts, line[..LastStandard(cfg, ts, line)])
    ensures q in m.store && cfg.cid(ts[i].id) in m.store && m.store[cfg.cid(ts[i].id)] == m.store[q]
  {
    var w := FileWorker(effect);
    m := InOrderRebuilds(w, start, cfg, ts);
    var same := LegacyContinuesAncestors(w, start, cfg, ts);
    line := LineExists(w, cfg, ts, m, i);
    forall j | 0 <= j < |line|
      ensures TransitionOps(cfg, ts[line[j]]).Ok?
    {
      assert Continues(w, cfg, ts, line[j], m);
    }
    var n := LastStandard(cfg, ts, line);
    LineFiles(effect, start, cfg, ts, line);
    LinePrefix(ts, line, n);
    q := EndOf(cfg, ts, line[..n]);
    assert HoldsLine(w, start, cfg, ts, line, m) && HoldsLine(w, start, cfg, ts, line[..n], m);
  }

  // ----- A parent that comes late -----

  /** A search whose recorded parent, an edit, stands after it in the log. */
  const LATE_PARENT: seq<Transition> := [
    Transition(1, "SearchCode", Some(2), 0.0, ["x.py"], []),
    Transition(2, "EditCode", None, 1.0, [], ["diff"])]

  predicate Distinguishes(cfg: Config) {
    && cfg.boot != "" && cfg.cid(1) != "" && cfg.cid(2) != ""
    && cfg.boot != cfg.cid(1) && cfg.boot != cfg.cid(2) && cfg.cid(1) != cfg.cid(2)
  }

  lemma LateParentIndex()
    ensures var byId := ById(LATE_PARENT);
            2 in byId && byId[2].previous == None
  {
    var ts := LATE_PARENT;
    assert DropLast(ts) == ts[..1];
  }

  /** The walk passes the late parent by, and reaches the bootstrap. */
  lemma LateParentWalk(cfg: Config)
    ensures ParentOf(cfg, LATE_PARENT, 0) == Ok(cfg.boot) && ParentOf(cfg, LATE_PARENT, 1) == Ok(cfg.boot)
  {
    var byId, none := ById(LATE_PARENT), map[];
    LateParentIndex();
    assert Known(cfg, LATE_PARENT, 0) == none;
    assert ParentWalk(byId, none, cfg.boot, None, {2}) == Ok(cfg.boot);
    assert {} + {2} == {2};
  }

  lemma LateParentOps(cfg: Config)
    requires cfg.repair(2, "diff").Some?
    ensures TransitionOps(cfg, LATE_PARENT[0]) == Ok([ViewFile("x.py", None, None)])
    ensures TransitionOps(cfg, LATE_PARENT[1]) == Ok([ApplyRecordedDiff(cfg.repair(2, "diff").value)])
  {
    var search, edit := LATE_PARENT[0], LATE_PARENT[1];
    var diff := ApplyRecordedDiff(cfg.repair(2, "diff").value);
    assert DropLast(search.context) == [] && Last(search.context) == "x.py";
    assert ContextOps(search.context) == [ViewFile("x.py", None, None)];
    assert DropLast(edit.diffs) == [] && Last(edit.diffs) == "diff";
    assert DiffOps(cfg, 2, []) == Some([]);
    assert DiffOps(cfg, 2, edit.diffs) == Some([] + [diff]);
    assert ContextOps(edit.context) + [diff] == [diff];
    assert DiffOps(cfg, 1, search.diffs) == Some([]);
    assert ContextOps(search.context) + [] == [ViewFile("x.py", None, None)];
  }

  lemma LateParentAccepted(cfg: Config)
    requires Distinguishes(cfg) && cfg.repair(2, "diff").Some?
    ensures Compile(cfg, LATE_PARENT, 2).Ok? && Accepted(Compile(cfg, LATE_PARENT, 2).value.events, cfg.adaptive)
  {
    LateParentWalk(cfg);
    LateParentOps(cfg);
    assert Compile(cfg, LATE_PARENT, 0).Ok?;
    assert Compile(cfg, LATE_PARENT, 1).Ok?;
    LegacyAcceptedIff(cfg, LATE_PARENT);
  }

  lemma LateParentNearest()
    ensures Nearest(LATE_PARENT, 0, Some(2)) && !Checkpointed(LATE_PARENT, 0, 2) && !InOrder(LATE_PARENT)
  {
    var ts := LATE_PARENT;
    assert !Skipped(ts[1]) && ts[1].id == 2;
    assert Ancestor(ById(ts), ts[0].previous, 0) == Some(2);
    assert FirstEnd(ts, ts[0].previous, 0);
  }

  /** The log converts and is accepted, and its lines are not rebuilt. */
  lemma LateParentLost(cfg: Config) returns (m: Machine<Trail>)
    requires Distinguishes(cfg) && cfg.repair(2, "diff").Some?
    ensures Compile(cfg, LATE_PARENT, 2).Ok? && Accepted(Compile(cfg, LATE_PARENT, 2).value.events, cfg.adaptive)
    ensures Run(Tracer, [], Compile(cfg, LATE_PARENT, 2).value.events) == Some(m)
    ensures !RebuildsLines(Tracer, [], cfg, LATE_PARENT, m)
  {
    LateParentAccepted(cfg);
    LateParentNearest();
    m := RebuildsIffInOrder(cfg, LATE_PARENT);
  }

  /** The lightweight search holds the bootstrap's files, although its nearest
      recorded ancestor is a standard edit that changed them. */
  lemma LateParentFiles<F(!new)>(effect: (F, Op) -> F, start: F, cfg: Config) returns (m: Machine<F>)
    requires LeavesReadsAlone(effect) && Distinguishes(cfg) && cfg.repair(2, "diff").Some? && cfg.adaptive
    requires effect(start, ApplyRecordedDiff(cfg.repair(2, "diff").value)) != start
    ensures Compile(cfg, LATE_PARENT, 2).Ok? && Accepted(Compile(cfg, LATE_PARENT, 2).value.events, true)
    ensures Run(FileWorker(effect), start, Compile(cfg, LATE_PARENT, 2).value.events) == Some(m)
    ensures Nearest(LATE_PARENT, 0, Some(2)) && StrategyOf(cfg, LATE_PARENT[0]).Lightweight?
    ensures StrategyOf(cfg, LATE_PARENT[1]).Standard?
    ensures cfg.cid(1) in m.store && cfg.cid(2) in m.store && m.store[cfg.cid(1)] != m.store[cfg.cid(2)]
  {
    LateParentAccepted(cfg);
    LateParentNearest();
    m := LegacyContinuesAncestors(FileWorker(effect), start, cfg, LATE_PARENT);
    LateParentStates(FileWorker(effect), cfg, m);
    EditShows(effect, start, ApplyRecordedDiff(cfg.repair(2, "diff").value));
  }

  lemma LateParentStates<S>(w: Worker<S>, cfg: Config, m: Machine<S>)
    requires cfg.repair(2, "diff").Some? && AllContinue(w, cfg, LATE_PARENT, 2, m)
    ensures cfg.boot in m.store && cfg.cid(1) in m.store && cfg.cid(2) in m.store
    ensures m.store[cfg.cid(1)] == w(m.store[cfg.boot], cfg.cid(1), [ViewFile("x.py", None, None)])
    ensures m.store[cfg.cid(2)]
            == w(m.store[cfg.boot], cfg.cid(2), [ApplyRecordedDiff(cfg.repair(2, "diff").value)])
  {
    LateParentWalk(cfg);
    LateParentOps(cfg);
    assert Continues(w, cfg, LATE_PARENT, 0, m) && Continues(w, cfg, LATE_PARENT, 1, m);
  }

  lemma EditShows<F(!new)>(effect: (F, Op) -> F, start: F, edit: Op)
    requires LeavesReadsAlone(effect) && effect(start, edit) != start
    ensures ApplyAll(effect, start, [INITIAL]) == start
    ensures ApplyAll(effect, start, [ViewFile("x.py", None, None)]) != ApplyAll(effect, start, [edit])
  {
    ReadOnlyKeepsFiles(effect, start, [INITIAL]);
    ReadOnlyKeepsFiles(effect, start, [ViewFile("x.py", None, None)]);
    assert DropLast([edit]) == [];
    assert ApplyAll(effect, start, [edit]) == effect(start, edit);
  }

  // ----- Files by the compiler's own choice of ancestors -----

  /** A line of descent: each transition's parent checkpoint is the next one's. */
  ghost predicate Lineage(cfg: Config, ts: seq<Transition>, chain: seq<nat>) {
    && chain != []
    && (forall k | 0 <= k < |chain| :: chain[k] < |ts| && !Skipped(ts[chain[k]]))
    && (forall k | 0 <= k < |chain| - 1 ::
          chain[k + 1] < chain[k] && ParentOf(cfg, ts, chain[k]) == Ok(cfg.cid(ts[chain[k + 1]].id)))
  }

  /** The line ends in the standard checkpoint q, and is lightweight down from there. */
  ghost predicate EndsStandard(cfg: Config, ts: seq<Transition>, chain: seq<nat>, q: string)
    requires Lineage(cfg, ts, chain)
  {
    && (forall k | 0 <= k < |chain| - 1 :: StrategyOf(cfg, ts[chain[k]]).Lightweight?)
    && if StrategyOf(cfg, ts[Last(chain)]).Standard? then q == cfg.cid(ts[Last(chain)].id)
       else ParentOf(cfg, ts, Last(chain)) == Ok(cfg.boot) && q == cfg.boot
  }

  lemma Prepend(cfg: Config, ts: seq<Transition>, i: nat, chain: seq<nat>, q: string)
    requires Lineage(cfg, ts, chain) && EndsStandard(cfg, ts, chain, q)
    requires i < |ts| && !Skipped(ts[i]) && chain[0] < i && StrategyOf(cfg, ts[i]).Lightweight?
    requires ParentOf(cfg, ts, i) == Ok(cfg.cid(ts[chain[0]].id))
    ensures Lineage(cfg, ts, [i] + chain) && EndsStandard(cfg, ts, [i] + chain, q)
  {
    var longer := [i] + chain;
    assert Last(longer) == Last(chain);
    forall k | 0 <= k < |longer| - 1
      ensures longer[k + 1] < longer[k] && ParentOf(cfg, ts, longer[k]) == Ok(cfg.cid(ts[longer[k + 1]].id))
      ensures StrategyOf(cfg, ts[longer[k]]).Lightweight?
    {
      if k > 0 {
        assert longer[k] == chain[k - 1] && longer[k + 1] == chain[k];
      }
    }
  }

  /** A machine whose checkpoints continue their ancestors' holds, for each,
      the files of the nearest standard one on its line of descent. */
  lemma {:induction false} FilesAlongLineage<F(!new)>(effect: (F, Op) -> F, cfg: Config, ts: seq<Transition>, i: nat,
                                                      m: Machine<F>)
    returns (chain: seq<nat>, q: string)
    requires LeavesReadsAlone(effect) && i < |ts| && !Skipped(ts[i])
    requires forall j | 0 <= j < |ts| && !Skipped(ts[j]) :: Continues(FileWorker(effect), cfg, ts, j, m)
    ensures Lineage(cfg, ts, chain) && chain[0] == i && EndsStandard(cfg, ts, chain, q)
    ensures q in m.store && cfg.cid(ts[i].id) in m.store && m.store[cfg.cid(ts[i].id)] == m.store[q]
    decreases i
  {
    chain, q := [i], cfg.cid(ts[i].id);
    assert Continues(FileWorker(effect), cfg, ts, i, m);
    if StrategyOf(cfg, ts[i]).Lightweight? {
      var parent, ops := ParentOf(cfg, ts, i).value, TransitionOps(cfg, ts[i]).value;
      LegacyLightweightReads(cfg, ts[i]);
      ReadOnlyKeepsFiles(effect, m.store[parent], ops);
      ParentIsEarlier(cfg, ts, i);
      if parent == cfg.boot {
        q := cfg.boot;
      } else {
        var j :| 0 <= j < i && !Skipped(ts[j]) && parent == cfg.cid(ts[j].id);
        chain, q := FilesAlongLineage(effect, cfg, ts, j, m);
        Prepend(cfg, ts, i, chain, q);
        chain := [i] + chain;
      }
    }
  }

  /** In every accepted schedule, in order or not, each checkpoint holds the
      files of the nearest standard one among the ancestors that the compiler's
      walk chose. */
  lemma LegacyWalkedFiles<F(!new)>(effect: (F, Op) -> F, start: F, cfg: Config, ts: seq<Transition>, i: nat)
    returns (m: Machine<F>, chain: seq<nat>, q: string)
    requires LeavesReadsAlone(effect) && i < |ts| && !Skipped(ts[i])
    requires Compile(cfg, ts, |ts|).Ok?
    requires Accepted(Compile(cfg, ts, |ts|).value.events, cfg.adaptive)
    ensures Run(FileWorker(effect), start, Compile(cfg, ts, |ts|).value.events) == Some(m)
    ensures Lineage(cfg, ts, chain) && chain[0] == i && EndsStandard(cfg, ts, chain, q)
    ensures q in m.store && cfg.cid(ts[i].id) in m.store && m.store[cfg.cid(ts[i].id)] == m.store[q]
  {
    m := LegacyContinuesAncestors(FileWorker(effect), start, cfg, ts);
    chain, q := FilesAlongLineage(effect, cfg, ts, i, m);
  }
}
