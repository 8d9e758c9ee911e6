/**
 The compiler from a log of state transitions with parent pointers to a replay
 schedule. Transitions that only mark progress take no checkpoint, so a parent
 is found by walking pointers up to the nearest transition checkpointed so far.
 */
module LegacySchedule {
  import opened Prelude
  import opened Schedule
  import opened Actions

  datatype Transition = Transition(
    id: int, name: string, previous: Option<int>, createdAt: real,
    context: seq<string>, diffs: seq<string>)

  type Index = map<int, Transition>

  // ----- The walk to the parent checkpoint -----

  datatype WalkError = Cycle | MissingParent

  function ParentWalk(byId: Index, known: map<int, string>, boot: string, tid: Option<int>,
                      seen: set<int>): Result<string, WalkError>
    decreases byId.Keys - seen
  {
    if tid.None? then Ok(boot)
    else if tid.value in known then Ok(known[tid.value])
    else if tid.value in seen then Err(Cycle)
    else if tid.value !in byId then Err(MissingParent)
    else ParentWalk(byId, known, boot, byId[tid.value].previous, seen + {tid.value})
  }

  method ParentCheckpoint(byId: Index, known: map<int, string>, boot: string, t: Transition)
    returns (r: Result<string, WalkError>)
    ensures r == ParentWalk(byId, known, boot, t.previous, {})
  {
    var seen: set<int> := {};
    var tid := t.previous;
    while tid.Some?
      invariant ParentWalk(byId, known, boot, t.previous, {}) == ParentWalk(byId, known, boot, tid, seen)
      decreases byId.Keys - seen, if tid.Some? then 1 else 0
    {
      if tid.value in known {
        return Ok(known[tid.value]);
      }
      if tid.value in seen {
        return Err(Cycle);
      }
      seen := seen + {tid.value};
      if tid.value !in byId {
        return Err(MissingParent);
      }
      tid := byId[tid.value].previous;
    }
    return Ok(boot);
  }

  /** The n-th pointer above tid, if the chain is that long. */
  function Ancestor(byId: Index, tid: Option<int>, n: nat): Option<int> {
    if n == 0 then tid
    else
      var below := Ancestor(byId, tid, n - 1);
      if below.Some? && below.value in byId then byId[below.value].previous else None
  }

  /** The walk ends at x: no parent, a checkpointed one, or one not in the log. */
  predicate Stops(byId: Index, known: map<int, string>, x: Option<int>) {
    x.None? || x.value in known || x.value !in byId
  }

  /** The first place at which the walk from tid ends. */
  ghost predicate FirstStop(byId: Index, known: map<int, string>, tid: Option<int>, n: nat) {
    && Stops(byId, known, Ancestor(byId, tid, n))
    && forall m: nat | m < n :: !Stops(byId, known, Ancestor(byId, tid, m))
  }

  /** What the walk must answer at the place where it ends. */
  function Answer(known: map<int, string>, boot: string, x: Option<int>): Result<string, WalkError> {
    if x.None? then Ok(boot) else if x.value in known then Ok(known[x.value]) else Err(MissingParent)
  }

  lemma {:induction false} AncestorPeriod(byId: Index, tid: Option<int>, a: nat, b: nat, n: nat)
    requires Ancestor(byId, tid, a) == Ancestor(byId, tid, b)
    ensures Ancestor(byId, tid, a + n) == Ancestor(byId, tid, b + n)
  {
    if n > 0 {
      AncestorPeriod(byId, tid, a, b, n - 1);
    }
  }

  /** A pointer met twice is met for ever. */
  lemma {:induction false} CycleNeverStops(byId: Index, known: map<int, string>, tid: Option<int>, a: nat, b: nat,
                                           n: nat)
    requires a < b && Ancestor(byId, tid, a) == Ancestor(byId, tid, b)
    requires forall m: nat | m < b :: !Stops(byId, known, Ancestor(byId, tid, m))
    ensures !Stops(byId, known, Ancestor(byId, tid, n))
    decreases n
  {
    if n >= b {
      AncestorPeriod(byId, tid, a, b, n - b);
      CycleNeverStops(byId, known, tid, a, b, n - (b - a));
    }
  }

  /** The walk resumed after n pointers, all of them passed. */
  ghost predicate Passed(byId: Index, known: map<int, string>, tid: Option<int>, n: nat, seen: set<int>) {
    && (forall m: nat | m < n :: !Stops(byId, known, Ancestor(byId, tid, m)))
    && (forall x | x in seen :: SeenAt(byId, tid, n, x))
  }

  ghost predicate SeenAt(byId: Index, tid: Option<int>, n: nat, x: int) {
    exists m: nat :: m < n && Ancestor(byId, tid, m) == Some(x)
  }

  lemma {:induction false} WalkFrom(byId: Index, known: map<int, string>, boot: string, tid: Option<int>, n: nat,
                                    seen: set<int>)
    returns (stop: nat)
    requires Passed(byId, known, tid, n, seen)
    ensures var r := ParentWalk(byId, known, boot, Ancestor(byId, tid, n), seen);
            if r == Err(Cycle) then forall m: nat :: !Stops(byId, known, Ancestor(byId, tid, m))
            else FirstStop(byId, known, tid, stop) && r == Answer(known, boot, Ancestor(byId, tid, stop))
    decreases byId.Keys - seen
  {
    var x := Ancestor(byId, tid, n);
    stop := n;
    if x.None? || x.value in known {
    } else if x.value in seen {
      assert SeenAt(byId, tid, n, x.value);
      var m: nat :| m < n && Ancestor(byId, tid, m) == Some(x.value);
      forall i: nat
        ensures !Stops(byId, known, Ancestor(byId, tid, i))
      {
        CycleNeverStops(byId, known, tid, m, n, i);
      }
    } else if x.value in byId {
      var seen' := seen + {x.value};
      forall y | y in seen'
        ensures SeenAt(byId, tid, n + 1, y)
      {
        if y in seen {
          assert SeenAt(byId, tid, n, y);
          var m: nat :| m < n && Ancestor(byId, tid, m) == Some(y);
        } else {
          assert Ancestor(byId, tid, n) == Some(y);
        }
      }
      stop := WalkFrom(byId, known, boot, tid, n + 1, seen');
    }
  }

  /** On every parent-pointer graph the walk terminates; it reports a cycle
      exactly when the pointers never reach an end, and otherwise answers for
      the nearest place where they do. */
  lemma ParentWalkFindsNearest(byId: Index, known: map<int, string>, boot: string, tid: Option<int>)
    ensures ParentWalk(byId, known, boot, tid, {}) == Err(Cycle) <==>
            forall m: nat :: !Stops(byId, known, Ancestor(byId, tid, m))
    ensures forall n: nat | FirstStop(byId, known, tid, n) ::
              ParentWalk(byId, known, boot, tid, {}) == Answer(known, boot, Ancestor(byId, tid, n))
  {
    var stop := WalkFrom(byId, known, boot, tid, 0, {});
    forall n: nat | FirstStop(byId, known, tid, n)
      ensures ParentWalk(byId, known, boot, tid, {}) == Answer(known, boot, Ancestor(byId, tid, n))
    {
      if ParentWalk(byId, known, boot, tid, {}) != Err(Cycle) {
        assert n == stop;
      }
    }
  }

  // ----- Compilation -----

  /** What stays fixed during one conversion: the checkpoint ID of a transition,
      the bootstrap's ID, the policies, and the lookup of diff repairs, which is
      None where the lookup raises. */
  datatype Config = Config(
    cid: int -> string, boot: string, adaptive: bool, paperZero: bool,
    repair: (int, string) -> Option<string>)

  predicate Skipped(t: Transition) {
    t.name in {"Pending", "Rejected", "Finished"}
  }

  datatype ConvertError = BadParent(why: WalkError) | BadRepair | WriteInReadOnlyState

  function ContextOps(paths: seq<string>): seq<Op> {
    if paths == [] then []
    else ContextOps(DropLast(paths)) + (if Last(paths) == "" then [] else [ViewFile(Last(paths), None, None)])
  }

  function DiffOps(cfg: Config, id: int, diffs: seq<string>): Option<seq<Op>> {
    if diffs == [] then Some([])
    else
      match DiffOps(cfg, id, DropLast(diffs))
      case None => None
      case Some(ops) =>
        if Last(diffs) == "" then Some(ops)
        else
          match cfg.repair(id, Last(diffs))
          case None => None
          case Some(diff) => Some(ops + [ApplyRecordedDiff(diff)])
  }

  // The notes are joined from two literals because the verifier cannot look into one this long, and the
  // validator's test of a note depends on how it starts.
  const NO_IO: Op := Noop("legacy" + " state has no recorded file IO; classifier boundary only")
  const INITIAL: Op := Noop("initial" + " physical state for legacy read-only roots")

  function TransitionOps(cfg: Config, t: Transition): Result<seq<Op>, ConvertError> {
    match DiffOps(cfg, t.id, t.diffs)
    case None => Err(BadRepair)
    case Some(diffs) =>
      var ops := ContextOps(t.context) + diffs;
      if ops == [] then Ok([NO_IO])
      else if t.name != "EditCode" && diffs != [] then Err(WriteInReadOnlyState)
      else Ok(ops)
  }

  function StrategyOf(cfg: Config, t: Transition): Strategy {
    if cfg.adaptive && t.name != "EditCode" then Lightweight else Standard
  }

  /** The time to the next transition, never negative, or zero by policy. */
  function LatencyOf(cfg: Config, ts: seq<Transition>, i: nat): (r: real)
    requires i < |ts|
    ensures r >= 0.0
  {
    if cfg.paperZero || i + 1 >= |ts| || ts[i + 1].createdAt < ts[i].createdAt then 0.0
    else ts[i + 1].createdAt - ts[i].createdAt
  }

  function ById(ts: seq<Transition>): Index {
    if ts == [] then map[] else ById(DropLast(ts))[Last(ts).id := Last(ts)]
  }

  /** The checkpoints known before transition i. */
  function Known(cfg: Config, ts: seq<Transition>, i: nat): map<int, string>
    requires i <= |ts|
  {
    if i == 0 then map[]
    else if Skipped(ts[i - 1]) then Known(cfg, ts, i - 1)
    else Known(cfg, ts, i - 1)[ts[i - 1].id := cfg.cid(ts[i - 1].id)]
  }

  function ParentOf(cfg: Config, ts: seq<Transition>, i: nat): Result<string, WalkError>
    requires i < |ts|
  {
    ParentWalk(ById(ts), Known(cfg, ts, i), cfg.boot, ts[i].previous, {})
  }

  datatype Log = Log(events: seq<Event>, active: string)

  function Bootstrap(cfg: Config): Log {
    Log([Ckpt(cfg.boot, Standard, Some(0.0), Some([INITIAL]), true)], cfg.boot)
  }

  function OwnCkpt(cfg: Config, ts: seq<Transition>, i: nat, ops: seq<Op>): Event
    requires i < |ts|
  {
    Ckpt(cfg.cid(ts[i].id), StrategyOf(cfg, ts[i]), Some(LatencyOf(cfg, ts, i)), Some(ops), true)
  }

  function Append(log: Log, parent: string, e: Event): Log
    requires e.Ckpt?
  {
    Log(log.events + (if log.active != parent then [Restore(parent)] else []) + [e], e.id)
  }

  function Compile(cfg: Config, ts: seq<Transition>, i: nat): Result<Log, ConvertError>
    requires i <= |ts|
  {
    if i == 0 then Ok(Bootstrap(cfg))
    else
      match Compile(cfg, ts, i - 1)
      case Err(e) => Err(e)
      case Ok(log) =>
        if Skipped(ts[i - 1]) then Ok(log)
        else
          match ParentOf(cfg, ts, i - 1)
          case Err(e) => Err(BadParent(e))
          case Ok(parent) =>
            match TransitionOps(cfg, ts[i - 1])
            case Err(e) => Err(e)
            case Ok(ops) => Ok(Append(log, parent, OwnCkpt(cfg, ts, i - 1, ops)))
  }

  lemma {:induction false} CompileFails(cfg: Config, ts: seq<Transition>, i: nat, n: nat)
    requires i <= n <= |ts| && Compile(cfg, ts, i).Err?
    ensures Compile(cfg, ts, n) == Compile(cfg, ts, i)
  {
    if i < n {
      CompileFails(cfg, ts, i, n - 1);
    }
  }

  /** The compiler as a loop over the log. */
  method ConvertLegacy(cfg: Config, ts: seq<Transition>) returns (r: Result<seq<Event>, ConvertError>)
    ensures Compile(cfg, ts, |ts|).Err? ==> r == Err(Compile(cfg, ts, |ts|).error)
    ensures Compile(cfg, ts, |ts|).Ok? ==> r == Ok(Compile(cfg, ts, |ts|).value.events)
  {
    var events := [Ckpt(cfg.boot, Standard, Some(0.0), Some([INITIAL]), true)];
    var byId, known, active := ById(ts), map[], cfg.boot;
    var i := 0;
    while i < |ts|
      invariant 0 <= i <= |ts|
      invariant byId == ById(ts) && known == Known(cfg, ts, i)
      invariant Compile(cfg, ts, i) == Ok(Log(events, active))
    {
      var t := ts[i];
      if !Skipped(t) {
        var parent := ParentCheckpoint(byId, known, cfg.boot, t);
        if parent.Err? {
          CompileFails(cfg, ts, i + 1, |ts|);
          return Err(BadParent(parent.error));
        }
        var ops := TransitionOps(cfg, t);
        if ops.Err? {
          CompileFails(cfg, ts, i + 1, |ts|);
          return Err(ops.error);
        }
        var e := OwnCkpt(cfg, ts, i, ops.value);
        var log := Append(Log(events, active), parent.value, e);
        known := known[t.id := cfg.cid(t.id)];
        events, active := log.events, log.active;
      }
      i := i + 1;
    }
    return Ok(events);
  }

  // ----- What the schedule does when it runs -----

  /** Checkpoint IDs of the transitions that take one, all distinct. */
  ghost predicate Fresh(cfg: Config, ts: seq<Transition>, n: nat)
    requires n <= |ts|
  {
    && (forall i | 0 <= i < n && !Skipped(ts[i]) :: cfg.cid(ts[i].id) != cfg.boot)
    && (forall i, j | 0 <= i < j < n && !Skipped(ts[i]) && !Skipped(ts[j]) ::
          cfg.cid(ts[i].id) != cfg.cid(ts[j].id))
  }

  /** Transition i's checkpoint holds its own work done from the state of the
      nearest ancestor that was checkpointed before it. */
  ghost predicate Continues<S>(w: Worker<S>, cfg: Config, ts: seq<Transition>, i: nat, m: Machine<S>)
    requires i < |ts|
  {
    var parent, ops, own := ParentOf(cfg, ts, i), TransitionOps(cfg, ts[i]), cfg.cid(ts[i].id);
    && parent.Ok? && ops.Ok?
    && parent.value in m.store && own in m.store
    && m.store[own] == w(m.store[parent.value], own, ops.value)
  }

  /** A checkpoint taken by one of the first n transitions. */
  ghost predicate Taken(cfg: Config, ts: seq<Transition>, n: nat, id: string)
    requires n <= |ts|
  {
    exists i :: 0 <= i < n && !Skipped(ts[i]) && id == cfg.cid(ts[i].id)
  }

  lemma {:induction false} KnownValues(cfg: Config, ts: seq<Transition>, n: nat)
    requires n <= |ts|
    ensures forall x | x in Known(cfg, ts, n) :: Taken(cfg, ts, n, Known(cfg, ts, n)[x])
  {
    if n > 0 {
      var before, after := Known(cfg, ts, n - 1), Known(cfg, ts, n);
      KnownValues(cfg, ts, n - 1);
      forall x | x in after
        ensures Taken(cfg, ts, n, after[x])
      {
        if x in before && after[x] == before[x] {
          assert Taken(cfg, ts, n - 1, before[x]);
          var i :| 0 <= i < n - 1 && !Skipped(ts[i]) && before[x] == cfg.cid(ts[i].id);
        } else {
          assert !Skipped(ts[n - 1]) && after[x] == cfg.cid(ts[n - 1].id);
        }
      }
    }
  }

  ghost predicate IsValue(known: map<int, string>, id: string) {
    exists x :: x in known && known[x] == id
  }

  lemma ValueAt(known: map<int, string>, x: int)
    requires x in known
    ensures IsValue(known, known[x])
  {
  }

  lemma {:induction false} WalkValue(byId: Index, known: map<int, string>, boot: string, tid: Option<int>,
                                     seen: set<int>)
    ensures var r := ParentWalk(byId, known, boot, tid, seen);
            r.Ok? ==> r.value == boot || IsValue(known, r.value)
    decreases byId.Keys - seen
  {
    if tid.Some? && tid.value in known {
      ValueAt(known, tid.value);
    } else if tid.Some? && tid.value !in seen && tid.value in byId {
      WalkValue(byId, known, boot, byId[tid.value].previous, seen + {tid.value});
    }
  }

  /** A parent is the bootstrap or the checkpoint of an earlier transition. */
  lemma ParentIsEarlier(cfg: Config, ts: seq<Transition>, i: nat)
    requires i < |ts| && ParentOf(cfg, ts, i).Ok?
    ensures var p := ParentOf(cfg, ts, i).value;
            p == cfg.boot || Taken(cfg, ts, i, p)
  {
    var known := Known(cfg, ts, i);
    WalkValue(ById(ts), known, cfg.boot, ts[i].previous, {});
    KnownValues(cfg, ts, i);
    var p := ParentOf(cfg, ts, i).value;
    if p != cfg.boot {
      assert IsValue(known, p);
      var x :| x in known && known[x] == p;
      assert Taken(cfg, ts, i, known[x]);
    }
  }

  /** Everything checkpointed so far is stored. */
  ghost predicate Stocked<S>(cfg: Config, ts: seq<Transition>, n: nat, m: Machine<S>)
    requires n <= |ts|
  {
    && cfg.boot in m.store
    && (forall id :: id in m.store <==> id == cfg.boot || Taken(cfg, ts, n, id))
  }

  lemma AppendRuns<S>(w: Worker<S>, start: S, log: Log, parent: string, e: Event, m: Machine<S>)
    returns (m': Machine<S>)
    requires Run(w, start, log.events) == Some(m)
    requires log.active in m.store && m.store[log.active] == m.cur && parent in m.store
    requires e.Ckpt? && e.ops.Some?
    ensures Run(w, start, Append(log, parent, e).events) == Some(m')
    ensures m'.cur == w(m.store[parent], e.id, e.ops.value)
    ensures m'.store == m.store[e.id := m'.cur]
  {
    var before := log.events + (if log.active != parent then [Restore(parent)] else []);
    if log.active != parent {
      assert DropLast(before) == log.events && Last(before) == Restore(parent);
    } else {
      assert before == log.events;
    }
    assert DropLast(before + [e]) == before;
    m' := Step(w, m.(cur := m.store[parent]), e).value;
  }

  /** After the first n transitions' events the active checkpoint is loaded,
      and everything checkpointed so far is stored. */
  ghost predicate Upright<S>(w: Worker<S>, start: S, cfg: Config, ts: seq<Transition>, n: nat, log: Log, m: Machine<S>)
    requires n <= |ts|
  {
    && Run(w, start, log.events) == Some(m)
    && log.active in m.store && m.store[log.active] == m.cur
    && Stocked(cfg, ts, n, m)
    && m.store[cfg.boot] == w(start, cfg.boot, [INITIAL])
  }

  /** Every checkpoint so far continues its nearest ancestor's. */
  ghost predicate AllContinue<S>(w: Worker<S>, cfg: Config, ts: seq<Transition>, n: nat, m: Machine<S>)
    requires n <= |ts|
  {
    forall i | 0 <= i < n && !Skipped(ts[i]) :: Continues(w, cfg, ts, i, m)
  }

  ghost predicate Upholds<S>(w: Worker<S>, start: S, cfg: Config, ts: seq<Transition>, n: nat, log: Log, m: Machine<S>)
    requires n <= |ts|
  {
    Upright(w, start, cfg, ts, n, log, m) && AllContinue(w, cfg, ts, n, m)
  }

  lemma BootstrapRuns<S>(w: Worker<S>, start: S, cfg: Config, ts: seq<Transition>) returns (m: Machine<S>)
    ensures Upholds(w, start, cfg, ts, 0, Bootstrap(cfg), m)
  {
    var boot := Bootstrap(cfg).events;
    assert DropLast(boot) == [];
    m := Step(w, Machine(start, map[]), boot[0]).value;
  }

  lemma SkipRuns<S>(w: Worker<S>, start: S, cfg: Config, ts: seq<Transition>, n: nat, log: Log, m: Machine<S>)
    requires n < |ts| && Skipped(ts[n]) && Upholds(w, start, cfg, ts, n, log, m)
    ensures Upholds(w, start, cfg, ts, n + 1, log, m)
  {
    forall id
      ensures Taken(cfg, ts, n + 1, id) <==> Taken(cfg, ts, n, id)
    {
      TakenOneMore(cfg, ts, n + 1, id);
    }
  }

  lemma TransitionRuns<S>(w: Worker<S>, start: S, cfg: Config, ts: seq<Transition>, n: nat, log: Log, m: Machine<S>,
                          parent: string, ops: seq<Op>) returns (m': Machine<S>)
    requires n < |ts| && !Skipped(ts[n]) && Fresh(cfg, ts, n + 1) && Upholds(w, start, cfg, ts, n, log, m)
    requires ParentOf(cfg, ts, n) == Ok(parent) && TransitionOps(cfg, ts[n]) == Ok(ops)
    ensures Upholds(w, start, cfg, ts, n + 1, Append(log, parent, OwnCkpt(cfg, ts, n, ops)), m')
  {
    ParentStored(cfg, ts, n, m);
    m' := TransitionUpright(w, start, cfg, ts, n, log, m, parent, ops);
    ContinuesMore(w, cfg, ts, n, m, m', parent, ops);
  }

  lemma TransitionUpright<S>(w: Worker<S>, start: S, cfg: Config, ts: seq<Transition>, n: nat, log: Log, m: Machine<S>,
                             parent: string, ops: seq<Op>) returns (m': Machine<S>)
    requires n < |ts| && !Skipped(ts[n]) && Fresh(cfg, ts, n + 1) && Upright(w, start, cfg, ts, n, log, m)
    requires parent in m.store
    ensures Upright(w, start, cfg, ts, n + 1, Append(log, parent, OwnCkpt(cfg, ts, n, ops)), m')
    ensures var own := cfg.cid(ts[n].id);
            own !in m.store && m'.store == m.store[own := w(m.store[parent], own, ops)]
  {
    m' := AppendRuns(w, start, log, parent, OwnCkpt(cfg, ts, n, ops), m);
    StockOne(cfg, ts, n + 1, m, m', m'.cur);
  }

  lemma ParentStored<S>(cfg: Config, ts: seq<Transition>, n: nat, m: Machine<S>)
    requires n < |ts| && ParentOf(cfg, ts, n).Ok? && Stocked(cfg, ts, n, m)
    ensures ParentOf(cfg, ts, n).value in m.store
  {
    ParentIsEarlier(cfg, ts, n);
  }

  /** A new checkpoint continues its ancestor's, and disturbs no other. */
  lemma ContinuesMore<S>(w: Worker<S>, cfg: Config, ts: seq<Transition>, n: nat, m: Machine<S>, m': Machine<S>,
                         parent: string, ops: seq<Op>)
    requires n < |ts| && ParentOf(cfg, ts, n) == Ok(parent) && TransitionOps(cfg, ts[n]) == Ok(ops)
    requires AllContinue(w, cfg, ts, n, m)
    requires var own := cfg.cid(ts[n].id);
             own !in m.store && parent in m.store && m'.store == m.store[own := w(m.store[parent], own, ops)]
    ensures AllContinue(w, cfg, ts, n + 1, m')
  {
    forall i | 0 <= i < n && !Skipped(ts[i])
      ensures Continues(w, cfg, ts, i, m')
    {
      ContinuesGrows(w, cfg, ts, i, m, m');
    }
    assert Continues(w, cfg, ts, n, m');
  }

  /** The logs of one conversion, one before and one after each transition. */
  ghost predicate Traces(cfg: Config, ts: seq<Transition>, logs: seq<Log>) {
    && |logs| == |ts| + 1 && logs[0] == Bootstrap(cfg)
    && forall n: nat {:trigger Follows(cfg, ts, logs, n)} | n < |ts| :: Follows(cfg, ts, logs, n)
  }

  ghost predicate Follows(cfg: Config, ts: seq<Transition>, logs: seq<Log>, n: nat) {
    && n < |ts| && n + 1 < |logs|
    && if Skipped(ts[n]) then logs[n + 1] == logs[n]
       else
         && ParentOf(cfg, ts, n).Ok? && TransitionOps(cfg, ts[n]).Ok?
         && logs[n + 1] == Append(logs[n], ParentOf(cfg, ts, n).value,
                                  OwnCkpt(cfg, ts, n, TransitionOps(cfg, ts[n]).value))
  }

  lemma CompileTrace(cfg: Config, ts: seq<Transition>) returns (logs: seq<Log>)
    requires Compile(cfg, ts, |ts|).Ok?
    ensures Traces(cfg, ts, logs) && logs[|ts|] == Compile(cfg, ts, |ts|).value
  {
    forall n: nat | n <= |ts|
      ensures Compile(cfg, ts, n).Ok?
    {
      if Compile(cfg, ts, n).Err? {
        CompileFails(cfg, ts, n, |ts|);
      }
    }
    logs := seq(|ts| + 1, n requires 0 <= n <= |ts| && Compile(cfg, ts, n).Ok? => Compile(cfg, ts, n).value);
    forall n: nat | n < |ts|
      ensures Follows(cfg, ts, logs, n)
    {
      CompileNext(cfg, ts, n, logs[n], logs[n + 1]);
    }
  }

  lemma CompileNext(cfg: Config, ts: seq<Transition>, n: nat, log: Log, next: Log)
    requires n < |ts| && Compile(cfg, ts, n) == Ok(log) && Compile(cfg, ts, n + 1) == Ok(next)
    ensures if Skipped(ts[n]) then next == log
            else
              && ParentOf(cfg, ts, n).Ok? && TransitionOps(cfg, ts[n]).Ok?
              && next == Append(log, ParentOf(cfg, ts, n).value, OwnCkpt(cfg, ts, n, TransitionOps(cfg, ts[n]).value))
  {
  }

  lemma FreshLess(cfg: Config, ts: seq<Transition>, n: nat)
    requires n < |ts| && Fresh(cfg, ts, n + 1)
    ensures Fresh(cfg, ts, n)
  {
  }

  lemma {:induction false} TraceRuns<S>(w: Worker<S>, start: S, cfg: Config, ts: seq<Transition>, logs: seq<Log>,
                                        n: nat)
    returns (m: Machine<S>)
    requires n <= |ts| && Traces(cfg, ts, logs) && Fresh(cfg, ts, n)
    ensures Upholds(w, start, cfg, ts, n, logs[n], m)
  {
    if n == 0 {
      m := BootstrapRuns(w, start, cfg, ts);
    } else {
      FreshLess(cfg, ts, n - 1);
      m := TraceRuns(w, start, cfg, ts, logs, n - 1);
      m := RunsOn(w, start, cfg, ts, logs, n - 1, m);
    }
  }

  lemma RunsOn<S>(w: Worker<S>, start: S, cfg: Config, ts: seq<Transition>, logs: seq<Log>, n: nat, m: Machine<S>)
    returns (m': Machine<S>)
    requires n < |ts| && Traces(cfg, ts, logs) && Fresh(cfg, ts, n + 1) && Upholds(w, start, cfg, ts, n, logs[n], m)
    ensures Upholds(w, start, cfg, ts, n + 1, logs[n + 1], m')
  {
    m' := m;
    assert Follows(cfg, ts, logs, n);
    if Skipped(ts[n]) {
      SkipRuns(w, start, cfg, ts, n, logs[n], m);
    } else {
      m' := TransitionRuns(w, start, cfg, ts, n, logs[n], m,
                           ParentOf(cfg, ts, n).value, TransitionOps(cfg, ts[n]).value);
    }
  }

  /** A larger store keeps what was continued. */
  lemma ContinuesGrows<S>(w: Worker<S>, cfg: Config, ts: seq<Transition>, i: nat, m: Machine<S>, m': Machine<S>)
    requires i < |ts| && Continues(w, cfg, ts, i, m)
    requires forall id | id in m.store :: id in m'.store && m'.store[id] == m.store[id]
    ensures Continues(w, cfg, ts, i, m')
  {
  }

  lemma StockOne<S>(cfg: Config, ts: seq<Transition>, n: nat, m: Machine<S>, m': Machine<S>, s: S)
    requires 0 < n <= |ts| && !Skipped(ts[n - 1]) && Fresh(cfg, ts, n)
    requires Stocked(cfg, ts, n - 1, m)
    requires m'.store == m.store[cfg.cid(ts[n - 1].id) := s]
    ensures Stocked(cfg, ts, n, m')
    ensures cfg.cid(ts[n - 1].id) !in m.store
  {
    var own := cfg.cid(ts[n - 1].id);
    forall id
      ensures Taken(cfg, ts, n, id) <==> Taken(cfg, ts, n - 1, id) || id == own
    {
      if Taken(cfg, ts, n - 1, id) {
        var i :| 0 <= i < n - 1 && !Skipped(ts[i]) && id == cfg.cid(ts[i].id);
      }
    }
    assert !Taken(cfg, ts, n - 1, own);
  }

  // ----- Acceptance -----

  lemma OpsHandled(cfg: Config, t: Transition)
    requires TransitionOps(cfg, t).Ok?
    ensures TransitionOps(cfg, t).value != [] && AllHandled(TransitionOps(cfg, t).value)
  {
    ContextOnlyViews(t.context);
    DiffsOnly(cfg, t.id, t.diffs);
    assert NO_IO.note[0] == 'l';
  }

  /** The payload of every emitted checkpoint is acceptable. */
  lemma PayloadFine(cfg: Config, ts: seq<Transition>, i: nat)
    requires i < |ts| && TransitionOps(cfg, ts[i]).Ok?
    ensures PayloadOk(OwnCkpt(cfg, ts, i, TransitionOps(cfg, ts[i]).value), cfg.adaptive)
  {
    OpsHandled(cfg, ts[i]);
  }

  lemma {:induction false} ContextOnlyViews(paths: seq<string>)
    ensures forall j | 0 <= j < |ContextOps(paths)| :: ContextOps(paths)[j].ViewFile?
  {
    if paths != [] {
      ContextOnlyViews(DropLast(paths));
    }
  }

  lemma {:induction false} DiffsOnly(cfg: Config, id: int, diffs: seq<string>)
    ensures var ops := DiffOps(cfg, id, diffs);
            ops.Some? ==> forall j | 0 <= j < |ops.value| :: ops.value[j].ApplyRecordedDiff?
  {
    if diffs != [] {
      DiffsOnly(cfg, id, DropLast(diffs));
      var init, ops := DiffOps(cfg, id, DropLast(diffs)), DiffOps(cfg, id, diffs);
      if ops.Some? {
        assert ops.value == init.value ||
               (ops.value != [] && DropLast(ops.value) == init.value && Last(ops.value).ApplyRecordedDiff?);
      }
    }
  }

  ghost predicate NamedCkpts(cfg: Config, ts: seq<Transition>, n: nat)
    requires n <= |ts|
  {
    cfg.boot != "" && forall i | 0 <= i < n && !Skipped(ts[i]) :: cfg.cid(ts[i].id) != ""
  }

  /** Appending a transition's events keeps a legal log legal exactly when its ID is new. */
  lemma AppendLegal(log: Log, parent: string, e: Event, adaptive: bool)
    requires e.Ckpt? && PayloadOk(e, adaptive)
    requires AllLegal(log.events, adaptive) && Introduced(log.events, |log.events|, parent)
    ensures var after := Append(log, parent, e).events;
            && (AllLegal(after, adaptive) <==> e.id != "" && !Introduced(log.events, |log.events|, e.id))
            && forall id :: Introduced(after, |after|, id) <==> Introduced(log.events, |log.events|, id) || id == e.id
  {
    var before := log.events;
    if log.active != parent {
      LegalSnoc(before, Restore(parent), adaptive);
      IntroducedSnoc(before, Restore(parent));
      before := before + [Restore(parent)];
      assert before[|log.events|] == Restore(parent);
    } else {
      assert log.events + [] == log.events;
    }
    LegalSnoc(before, e, adaptive);
    IntroducedSnoc(before, e);
    assert (before + [e])[|before|] == e;
  }

  lemma AppendGrows(log: Log, parent: string, e: Event)
    requires e.Ckpt?
    ensures log.events <= Append(log, parent, e).events
  {
  }

  lemma TakenOneMore(cfg: Config, ts: seq<Transition>, n: nat, id: string)
    requires 0 < n <= |ts|
    ensures Taken(cfg, ts, n, id) <==>
            Taken(cfg, ts, n - 1, id) || (!Skipped(ts[n - 1]) && id == cfg.cid(ts[n - 1].id))
  {
    if Taken(cfg, ts, n - 1, id) {
      var i :| 0 <= i < n - 1 && !Skipped(ts[i]) && id == cfg.cid(ts[i].id);
    }
  }

  lemma FreshOneMore(cfg: Config, ts: seq<Transition>, n: nat)
    requires 0 < n <= |ts|
    ensures Fresh(cfg, ts, n) <==>
            && Fresh(cfg, ts, n - 1)
            && (Skipped(ts[n - 1]) ||
                (cfg.cid(ts[n - 1].id) != cfg.boot && !Taken(cfg, ts, n - 1, cfg.cid(ts[n - 1].id))))
  {
  }

  /** Legal so far exactly when the IDs so far are present and distinct, and
      then the checkpoints introduced are the bootstrap's and those taken. */
  ghost predicate LegalIffFresh(cfg: Config, ts: seq<Transition>, n: nat, events: seq<Event>)
    requires n <= |ts|
  {
    && (AllLegal(events, cfg.adaptive) <==> Fresh(cfg, ts, n) && NamedCkpts(cfg, ts, n))
    && (Fresh(cfg, ts, n) && NamedCkpts(cfg, ts, n) ==>
          forall id :: Introduced(events, |events|, id) <==> id == cfg.boot || Taken(cfg, ts, n, id))
  }

  lemma BootstrapLegal(cfg: Config, ts: seq<Transition>)
    ensures LegalIffFresh(cfg, ts, 0, Bootstrap(cfg).events)
  {
    LegalSnoc([], Bootstrap(cfg).events[0], cfg.adaptive);
    IntroducedSnoc([], Bootstrap(cfg).events[0]);
    assert [] + [Bootstrap(cfg).events[0]] == Bootstrap(cfg).events;
    assert INITIAL.note[0] == 'i';
    assert forall id :: !Taken(cfg, ts, 0, id);
  }

  lemma SkipLegal(cfg: Config, ts: seq<Transition>, n: nat, events: seq<Event>)
    requires 0 < n <= |ts| && Skipped(ts[n - 1]) && LegalIffFresh(cfg, ts, n - 1, events)
    ensures LegalIffFresh(cfg, ts, n, events)
  {
    FreshOneMore(cfg, ts, n);
    forall id
      ensures Taken(cfg, ts, n, id) <==> Taken(cfg, ts, n - 1, id)
    {
      TakenOneMore(cfg, ts, n, id);
    }
  }

  lemma TakeLegal(cfg: Config, ts: seq<Transition>, n: nat, log: Log, parent: string, e: Event)
    requires 0 < n <= |ts| && !Skipped(ts[n - 1]) && LegalIffFresh(cfg, ts, n - 1, log.events)
    requires e.Ckpt? && e.id == cfg.cid(ts[n - 1].id) && PayloadOk(e, cfg.adaptive)
    requires parent == cfg.boot || Taken(cfg, ts, n - 1, parent)
    ensures LegalIffFresh(cfg, ts, n, Append(log, parent, e).events)
  {
    FreshOneMore(cfg, ts, n);
    forall id
      ensures Taken(cfg, ts, n, id) <==> Taken(cfg, ts, n - 1, id) || id == e.id
    {
      TakenOneMore(cfg, ts, n, id);
    }
    var after := Append(log, parent, e).events;
    if Fresh(cfg, ts, n - 1) && NamedCkpts(cfg, ts, n - 1) {
      AppendLegal(log, parent, e, cfg.adaptive);
    } else {
      AppendGrows(log, parent, e);
      if AllLegal(after, cfg.adaptive) {
        PrefixLegal(log.events, after, cfg.adaptive);
      }
    }
  }

  lemma {:induction false} CompileLegal(cfg: Config, ts: seq<Transition>, n: nat)
    requires n <= |ts| && Compile(cfg, ts, n).Ok?
    ensures LegalIffFresh(cfg, ts, n, Compile(cfg, ts, n).value.events)
  {
    if n == 0 {
      BootstrapLegal(cfg, ts);
    } else {
      CompileLegal(cfg, ts, n - 1);
      var log := Compile(cfg, ts, n - 1).value;
      if Skipped(ts[n - 1]) {
        SkipLegal(cfg, ts, n, log.events);
      } else {
        var parent, ops := ParentOf(cfg, ts, n - 1).value, TransitionOps(cfg, ts[n - 1]).value;
        ParentIsEarlier(cfg, ts, n - 1);
        PayloadFine(cfg, ts, n - 1);
        TakeLegal(cfg, ts, n, log, parent, OwnCkpt(cfg, ts, n - 1, ops));
      }
    }
  }

  /** A converted log passes the validator exactly when its checkpoint IDs,
      the bootstrap's included, are present and distinct. */
  lemma LegacyAcceptedIff(cfg: Config, ts: seq<Transition>)
    requires Compile(cfg, ts, |ts|).Ok?
    ensures Accepted(Compile(cfg, ts, |ts|).value.events, cfg.adaptive)
            <==> Fresh(cfg, ts, |ts|) && NamedCkpts(cfg, ts, |ts|)
  {
    CompileLegal(cfg, ts, |ts|);
    CompileNonempty(cfg, ts, |ts|);
  }

  lemma {:induction false} CompileNonempty(cfg: Config, ts: seq<Transition>, n: nat)
    requires n <= |ts| && Compile(cfg, ts, n).Ok?
    ensures Compile(cfg, ts, n).value.events != []
  {
    if n > 0 {
      CompileNonempty(cfg, ts, n - 1);
    }
  }

  /** For every worker, an accepted legacy schedule stores under each
      transition's checkpoint that transition's work done from the state of its
      nearest ancestor checkpointed before it, or of the bootstrap. */
  lemma LegacyContinuesAncestors<S>(w: Worker<S>, start: S, cfg: Config, ts: seq<Transition>) returns (m: Machine<S>)
    requires Compile(cfg, ts, |ts|).Ok?
    requires Accepted(Compile(cfg, ts, |ts|).value.events, cfg.adaptive)
    ensures Run(w, start, Compile(cfg, ts, |ts|).value.events) == Some(m)
    ensures cfg.boot in m.store && m.store[cfg.boot] == w(start, cfg.boot, [INITIAL])
    ensures forall i | 0 <= i < |ts| && !Skipped(ts[i]) :: Continues(w, cfg, ts, i, m)
  {
    LegacyAcceptedIff(cfg, ts);
    var logs := CompileTrace(cfg, ts);
    m := TraceRuns(w, start, cfg, ts, logs, |ts|);
  }

  /** A lightweight legacy checkpoint carries no operation that changes files. */
  lemma LegacyLightweightReads(cfg: Config, t: Transition)
    requires TransitionOps(cfg, t).Ok? && StrategyOf(cfg, t).Lightweight?
    ensures AllReadOnly(TransitionOps(cfg, t).value)
  {
    ContextOnlyViews(t.context);
  }
}
