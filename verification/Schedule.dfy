/**
 Replay schedules: the events that drive a checkpointed worker, the acceptance
 predicate for them, and what running them means.

 A worker is any deterministic function from its state, a checkpoint ID and the
 operations of that checkpoint to its next state.
 */
module Schedule {
  import opened Prelude

  datatype Strategy = Standard | Lightweight | Predump | OtherStrategy

  datatype Op =
    | ViewFile(path: string, startLine: Option<int>, endLine: Option<int>)
    | FindSymbol(kind: string, filePattern: string, name: string)
    | Grep(filePattern: string, pattern: string)
    | Replace(target: Option<string>, oldStr: string, newStr: string)
    | WriteFile(target: Option<string>, content: string)
    | AppendFile(target: Option<string>, content: string)
    | RunTests(testFiles: seq<string>)
    | Noop(note: string)
    | ApplyRecordedDiff(diff: string)

  predicate ReadOnly(op: Op) {
    op.ViewFile? || op.FindSymbol? || op.Grep? || op.Noop?
  }

  /** One line of a schedule. An absent ID or target is the empty string, an
      absent or non-numeric latency is None, a non-list of operations is None. */
  datatype Event =
    | Ckpt(id: string, strategy: Strategy, latency: Option<real>,
           ops: Option<seq<Op>>, opsRequired: bool)
    | Restore(target: string)
    | Unknown

  // ----- Acceptance -----

  predicate StrategyAllowed(s: Strategy, adaptive: bool) {
    s.Standard? || (adaptive && (s.Lightweight? || s.Predump?))
  }

  predicate Unhandled(op: Op) {
    op.Noop? && StartsWith(op.note, "unhandled_action:")
  }

  predicate PayloadOk(e: Event, adaptive: bool)
    requires e.Ckpt?
  {
    && StrategyAllowed(e.strategy, adaptive)
    && e.latency.Some? && e.latency.value >= 0.0
    && e.ops.Some?
    && (e.opsRequired ==> e.ops.value != [])
    && (forall i | 0 <= i < |e.ops.value| :: !Unhandled(e.ops.value[i]))
  }

  /** The checkpoint IDs that the first n events introduce. */
  predicate Introduced(events: seq<Event>, n: nat, id: string)
    requires n <= |events|
  {
    exists j :: 0 <= j < n && events[j].Ckpt? && events[j].id == id
  }

  predicate Legal(events: seq<Event>, i: nat, adaptive: bool)
    requires i < |events|
  {
    match events[i]
    case Restore(target) => Introduced(events, i, target)
    case Ckpt(id, _, _, _, _) => id != "" && !Introduced(events, i, id) && PayloadOk(events[i], adaptive)
    case Unknown => false
  }

  predicate Accepted(events: seq<Event>, adaptive: bool) {
    events != [] && forall i: nat | i < |events| :: Legal(events, i, adaptive)
  }

  /** Every restore names the ID of an earlier checkpoint, and no two checkpoints share one. */
  ghost predicate WellNamed(events: seq<Event>) {
    && (forall i | 0 <= i < |events| :: !events[i].Unknown?)
    && (forall i | 0 <= i < |events| && events[i].Restore? ::
          exists j :: 0 <= j < i && events[j].Ckpt? && events[j].id == events[i].target)
    && (forall i, j | 0 <= i < j < |events| && events[i].Ckpt? && events[j].Ckpt? ::
          events[i].id != events[j].id)
  }

  ghost predicate AllSound(events: seq<Event>, adaptive: bool) {
    forall i | 0 <= i < |events| && events[i].Ckpt? :: SoundCkpt(events[i], adaptive)
  }

  lemma CkptLegalIff(events: seq<Event>, i: nat, adaptive: bool)
    requires i < |events| && events[i].Ckpt?
    ensures Legal(events, i, adaptive) <==>
            SoundCkpt(events[i], adaptive) && !Introduced(events, i, events[i].id)
  {
  }

  /** Acceptance in plain terms. */
  lemma AcceptedMeans(events: seq<Event>, adaptive: bool)
    ensures Accepted(events, adaptive) <==> events != [] && WellNamed(events) && AllSound(events, adaptive)
  {
    forall i: nat | i < |events| && events[i].Ckpt?
      ensures Legal(events, i, adaptive) <==>
              SoundCkpt(events[i], adaptive) && !Introduced(events, i, events[i].id)
    {
      CkptLegalIff(events, i, adaptive);
    }
    if Accepted(events, adaptive) {
      forall i | 0 <= i < |events|
        ensures !events[i].Unknown? && (events[i].Ckpt? ==> SoundCkpt(events[i], adaptive))
        ensures events[i].Restore? ==>
                  exists j :: 0 <= j < i && events[j].Ckpt? && events[j].id == events[i].target
      {
        assert Legal(events, i, adaptive);
      }
      forall i, j | 0 <= i < j < |events| && events[i].Ckpt? && events[j].Ckpt?
        ensures events[i].id != events[j].id
      {
        assert Legal(events, j, adaptive);
      }
    }
    if events != [] && WellNamed(events) && AllSound(events, adaptive) {
      forall i: nat | i < |events|
        ensures Legal(events, i, adaptive)
      {
        if events[i].Restore? {
          assert Introduced(events, i, events[i].target);
        } else {
          assert SoundCkpt(events[i], adaptive);
        }
      }
    }
  }

  /** A named checkpoint with a nonnegative latency and its work, all of it
      supported; only an adaptive schedule may be other than standard. */
  predicate SoundCkpt(e: Event, adaptive: bool)
    requires e.Ckpt?
  {
    && e.id != "" && !e.strategy.OtherStrategy? && (!adaptive ==> e.strategy.Standard?)
    && e.latency.Some? && e.latency.value >= 0.0
    && e.ops.Some? && !(e.opsRequired && e.ops.value == [])
    && forall op | op in e.ops.value :: !(op.Noop? && StartsWith(op.note, "unhandled_action:"))
  }

  datatype Rejection = EmptySchedule | IllegalEvent(index: nat)

  /** The validator: one pass that grows the set of checkpoints seen so far. It
      accepts exactly the accepted schedules, and otherwise stops at the first
      illegal event. */
  method ValidateSchedule(events: seq<Event>, adaptive: bool) returns (r: Result<(), Rejection>)
    ensures r.Ok? <==> Accepted(events, adaptive)
    ensures r == Err(EmptySchedule) <==> events == []
    ensures r.Err? && r.error.IllegalEvent? ==>
              && r.error.index < |events|
              && !Legal(events, r.error.index, adaptive)
              && forall j: nat | j < r.error.index :: Legal(events, j, adaptive)
  {
    if events == [] {
      return Err(EmptySchedule);
    }
    var checkpoints: set<string> := {};
    var i := 0;
    while i < |events|
      invariant 0 <= i <= |events|
      invariant forall id :: id in checkpoints <==> Introduced(events, i, id)
      invariant "" !in checkpoints
      invariant forall j: nat | j < i :: Legal(events, j, adaptive)
    {
      var event := events[i];
      match event {
        case Restore(target) =>
          if target !in checkpoints {
            assert !Legal(events, i, adaptive);
            return Err(IllegalEvent(i));
          }
        case Ckpt(id, strategy, latency, ops, opsRequired) =>
          if id == "" || id in checkpoints {
            assert !Legal(events, i, adaptive);
            return Err(IllegalEvent(i));
          }
          checkpoints := checkpoints + {id};
          if !StrategyAllowed(strategy, adaptive) || latency.None? || latency.value < 0.0 {
            assert !Legal(events, i, adaptive);
            return Err(IllegalEvent(i));
          }
          if ops.None? || (opsRequired && ops.value == []) {
            assert !Legal(events, i, adaptive);
            return Err(IllegalEvent(i));
          }
          var clean := NoUnhandled(ops.value);
          if !clean {
            assert !Legal(events, i, adaptive);
            return Err(IllegalEvent(i));
          }
        case Unknown =>
          assert !Legal(events, i, adaptive);
          return Err(IllegalEvent(i));
      }
      assert Legal(events, i, adaptive);
      i := i + 1;
    }
    return Ok(());
  }

  method NoUnhandled(ops: seq<Op>) returns (ok: bool)
    ensures ok <==> forall i | 0 <= i < |ops| :: !Unhandled(ops[i])
  {
    for i := 0 to |ops|
      invariant forall j | 0 <= j < i :: !Unhandled(ops[j])
    {
      if Unhandled(ops[i]) {
        return false;
      }
    }
    return true;
  }

  /** The checkpoints of a schedule, in order. */
  function CkptsOf(events: seq<Event>): seq<Event> {
    FlatMap((e: Event) => if e.Ckpt? then [e] else [], events)
  }

  lemma CkptsOfSnoc(events: seq<Event>, e: Event)
    ensures CkptsOf(events + [e]) == CkptsOf(events) + if e.Ckpt? then [e] else []
  {
    FlatMapSnoc((e: Event) => if e.Ckpt? then [e] else [], events, e);
  }

  // ----- Meaning -----

  type Worker<!S> = (S, string, seq<Op>) -> S

  type Trail = seq<(string, seq<Op>)>

  /** The worker that remembers everything it was asked to do. */
  function Tracer(s: Trail, id: string, ops: seq<Op>): Trail {
    s + [(id, ops)]
  }

  datatype Machine<S> = Machine(cur: S, store: map<string, S>)

  function Step<S>(w: Worker<S>, m: Machine<S>, e: Event): Option<Machine<S>> {
    match e
    case Ckpt(id, _, _, ops, _) =>
      if ops.None? then None
      else
        var s := w(m.cur, id, ops.value);
        Some(Machine(s, m.store[id := s]))
    case Restore(target) =>
      if target in m.store then Some(m.(cur := m.store[target])) else None
    case Unknown => None
  }

  function Run<S>(w: Worker<S>, start: S, events: seq<Event>): Option<Machine<S>> {
    if events == [] then Some(Machine(start, map[]))
    else
      match Run(w, start, DropLast(events))
      case None => None
      case Some(m) => Step(w, m, Last(events))
  }

  /** Legality looks only backwards. */
  lemma LegalOfPrefix(events: seq<Event>, n: nat, i: nat, adaptive: bool)
    requires i < n <= |events|
    ensures Legal(events[..n], i, adaptive) <==> Legal(events, i, adaptive)
  {
    forall id
      ensures Introduced(events[..n], i, id) <==> Introduced(events, i, id)
    {
      if Introduced(events, i, id) {
        var j :| 0 <= j < i && events[j].Ckpt? && events[j].id == id;
        assert events[..n][j] == events[j];
      }
    }
  }

  /** Every nonempty prefix of an accepted schedule is accepted. */
  lemma PrefixAccepted(events: seq<Event>, n: nat, adaptive: bool)
    requires Accepted(events, adaptive) && 0 < n <= |events|
    ensures Accepted(events[..n], adaptive)
  {
    forall i: nat | i < n
      ensures Legal(events[..n], i, adaptive)
    {
      LegalOfPrefix(events, n, i, adaptive);
    }
  }

  ghost predicate AllLegal(events: seq<Event>, adaptive: bool) {
    forall i: nat | i < |events| :: Legal(events, i, adaptive)
  }

  /** One event more is one more event to judge. */
  lemma LegalSnoc(events: seq<Event>, e: Event, adaptive: bool)
    ensures AllLegal(events + [e], adaptive) <==> AllLegal(events, adaptive) && Legal(events + [e], |events|, adaptive)
  {
    var more := events + [e];
    assert more[..|events|] == events;
    forall i: nat | i < |events|
      ensures Legal(more, i, adaptive) <==> Legal(events, i, adaptive)
    {
      LegalOfPrefix(more, |events|, i, adaptive);
    }
    if AllLegal(more, adaptive) {
      assert forall i: nat | i < |events| :: Legal(more, i, adaptive);
    }
  }

  /** What one event more introduces. */
  lemma IntroducedSnoc(events: seq<Event>, e: Event)
    ensures forall i: nat, id | i <= |events| :: Introduced(events + [e], i, id) <==> Introduced(events, i, id)
    ensures forall id :: Introduced(events + [e], |events| + 1, id) <==>
              Introduced(events, |events|, id) || (e.Ckpt? && e.id == id)
  {
    var more := events + [e];
    forall i: nat, id | i <= |events|
      ensures Introduced(more, i, id) <==> Introduced(events, i, id)
    {
      if Introduced(events, i, id) {
        var j :| 0 <= j < i && events[j].Ckpt? && events[j].id == id;
        assert more[j] == events[j];
      }
    }
    forall id
      ensures Introduced(more, |events| + 1, id) <==> Introduced(more, |events|, id) || (e.Ckpt? && e.id == id)
    {
      assert more[|events|] == e;
      if Introduced(more, |events|, id) {
        var j :| 0 <= j < |events| && more[j].Ckpt? && more[j].id == id;
      }
    }
  }

  /** A legal list of events stays legal when cut. */
  lemma PrefixLegal(events: seq<Event>, more: seq<Event>, adaptive: bool)
    requires events <= more && AllLegal(more, adaptive)
    ensures AllLegal(events, adaptive)
  {
    forall i: nat | i < |events|
      ensures Legal(events, i, adaptive)
    {
      assert more[..|events|] == events;
      LegalOfPrefix(more, |events|, i, adaptive);
    }
  }

  /** An accepted schedule never gets stuck on any worker, and leaves exactly
      the checkpoints it introduces. */
  lemma {:induction false} AcceptedRuns<S>(w: Worker<S>, start: S, events: seq<Event>, adaptive: bool)
    requires forall i: nat | i < |events| :: Legal(events, i, adaptive)
    ensures Run(w, start, events).Some?
    ensures forall id :: id in Run(w, start, events).value.store <==> Introduced(events, |events|, id)
    decreases |events|
  {
    if events == [] {
      return;
    }
    var n := |events| - 1;
    forall i: nat | i < n
      ensures Legal(events[..n], i, adaptive)
    {
      LegalOfPrefix(events, n, i, adaptive);
    }
    AcceptedRuns(w, start, events[..n], adaptive);
    assert Legal(events, n, adaptive);
    forall id
      ensures Introduced(events[..n], n, id) <==> Introduced(events, n, id)
      ensures Introduced(events, |events|, id) <==>
              Introduced(events, n, id) || (events[n].Ckpt? && events[n].id == id)
    {
      if Introduced(events, n, id) {
        var j :| 0 <= j < n && events[j].Ckpt? && events[j].id == id;
        assert events[..n][j] == events[j];
      }
    }
  }

  /** Nothing that runs later changes a stored checkpoint: a checkpoint keeps
      the state the worker was in when that checkpoint was taken. */
  lemma {:induction false} StoredForGood<S>(w: Worker<S>, start: S, events: seq<Event>, n: nat, adaptive: bool)
    requires Accepted(events, adaptive)
    requires n <= |events|
    ensures Run(w, start, events[..n]).Some? && Run(w, start, events).Some?
    ensures forall id :: Introduced(events, n, id) ==>
              && id in Run(w, start, events[..n]).value.store
              && id in Run(w, start, events).value.store
              && Run(w, start, events).value.store[id] == Run(w, start, events[..n]).value.store[id]
    decreases |events|
  {
    AcceptedRuns(w, start, events, adaptive);
    if n == |events| {
      assert events[..n] == events;
      return;
    }
    var k := |events| - 1;
    if k == 0 {
      return;
    }
    PrefixAccepted(events, k, adaptive);
    StoredForGood(w, start, events[..k], n, adaptive);
    assert events[..k][..n] == events[..n];
    assert DropLast(events) == events[..k];
    forall id | Introduced(events, n, id)
      ensures Introduced(events[..k], n, id)
      ensures !(events[k].Ckpt? && events[k].id == id)
    {
      var j :| 0 <= j < n && events[j].Ckpt? && events[j].id == id;
      assert events[..k][j] == events[j];
      assert Legal(events, k, adaptive);
      assert Introduced(events, k, id);
    }
  }

  /** Truncating an accepted schedule after validation is safe: the prefix is
      accepted, runs on every worker, and stores for each of its checkpoints
      the state that the whole schedule stores for it. */
  lemma TruncationIsSafe<S>(w: Worker<S>, start: S, events: seq<Event>, n: nat, adaptive: bool)
    requires Accepted(events, adaptive) && 0 < n <= |events|
    ensures Accepted(events[..n], adaptive)
    ensures Run(w, start, events).Some? && Run(w, start, events[..n]).Some?
    ensures var part, whole := Run(w, start, events[..n]).value, Run(w, start, events).value;
            && (forall id :: id in part.store <==> Introduced(events, n, id))
            && (forall id | id in part.store :: id in whole.store && whole.store[id] == part.store[id])
  {
    PrefixAccepted(events, n, adaptive);
    AcceptedRuns(w, start, events[..n], adaptive);
    StoredForGood(w, start, events, n, adaptive);
    forall id
      ensures Introduced(events[..n], n, id) <==> Introduced(events, n, id)
    {
      if Introduced(events, n, id) {
        var j :| 0 <= j < n && events[j].Ckpt? && events[j].id == id;
        assert events[..n][j] == events[j];
      }
    }
  }
}
