/**
 The agent worker and its network proxy under checkpoint and restore.

 A snapshot holds everything in the worker's memory, the table of pending
 requests included. Request files, answers, response files and the epoch live
 outside it. Notify lines are arbitrary: a line may be lost, repeated, torn or
 meant for a branch that was rolled away.
 */
module Worker {
  import opened Prelude

  /** The epoch a request was issued in, and its unique suffix. */
  datatype Rid = Rid(epoch: nat, uuid: nat)

  /** A message of the conversation. An assistant message remembers the request
      that it answers. */
  datatype Message =
    | System(text: string)
    | User(text: string)
    | Assistant(text: string, rid: Rid)

  datatype Response = Response(ok: bool, content: string)

  // ----- The prompt -----

  /** Python's body[-k:]. */
  function FromEnd(body: seq<Message>, k: int): seq<Message> {
    if k > 0 then (if k >= |body| then body else body[|body| - k..])
    else (if -k >= |body| then [] else body[-k..])
  }

  /** The conversation's window: the system prompt, the task, and the latest turns. */
  function Window(turns: int, conv: seq<Message>): seq<Message> {
    if conv == [] then []
    else
      var body := conv[1..];
      if |body| > 2 * turns then conv[..1] + body[..Min(1, |body|)] + FromEnd(body, 2 * turns - 1) else conv
  }

  /** The messages of a request; an empty observation adds nothing. */
  function Prompt(turns: int, conv: seq<Message>, observation: string): seq<Message> {
    if conv == [] then []
    else Window(turns, conv) + if observation == "" then [] else [User(observation)]
  }

  /** With a positive turn limit the system prompt and the task stay first, the
      latest messages follow without a gap, and the length is bounded. */
  lemma PromptShape(turns: int, conv: seq<Message>, observation: string)
    requires turns > 0 && |conv| >= 2
    ensures var p := Prompt(turns, conv, observation);
            && |p| <= 2 * turns + 2
            && p[..2] == conv[..2]
            && Window(turns, conv) == (if |conv| <= 2 * turns + 1 then conv
                                       else conv[..2] + conv[|conv| - (2 * turns - 1)..])
            && p == Window(turns, conv) + (if observation == "" then [] else [User(observation)])
  {
    var body := conv[1..];
    if |body| > 2 * turns {
      assert conv[..2] == conv[..1] + body[..1];
      assert FromEnd(body, 2 * turns - 1) == conv[|conv| - (2 * turns - 1)..];
    }
  }

  /** With any other limit the slice drops a fixed number of messages instead
      of keeping one, so the prompt grows with the conversation. */
  lemma PromptUncut(turns: int, conv: seq<Message>)
    requires turns <= 0 && |conv| > 2 - 2 * turns
    ensures Prompt(turns, conv, "") == conv[..2] + conv[2 - 2 * turns..]
    ensures |Prompt(turns, conv, "")| == |conv| + 2 * turns
  {
    var body := conv[1..];
    assert conv[..2] == conv[..1] + body[..1];
    assert FromEnd(body, 2 * turns - 1) == conv[2 - 2 * turns..];
  }

  // ----- The worker's memory -----

  /** `folded` counts injected observations and `taken` lists the requests this
      branch has consumed; `issued` lists those it sent. */
  datatype Memory = Memory(
    ready: bool, step: nat, folded: nat, conversation: seq<Message>,
    pending: set<Rid>, issued: seq<Rid>, taken: seq<Rid>)

  const BLANK: Memory := Memory(false, 0, 0, [], {}, [], [])

  function Init(w: Memory, system: string, task: string): Memory {
    w.(ready := true, step := 0, folded := 0, conversation := [System(system), User("Task:\n" + task)])
  }

  function Fold(conv: seq<Message>, observation: string): seq<Message> {
    if observation == "" then conv else conv + [User(observation)]
  }

  function Dispatch(w: Memory, rid: Rid, observation: string): Memory {
    w.(conversation := Fold(w.conversation, observation),
       folded := w.folded + (if observation == "" then 0 else 1),
       pending := w.pending + {rid}, issued := w.issued + [rid])
  }

  /** A notify line for a pending request: take it, and its response if readable. */
  function Take(w: Memory, rid: Rid, response: Option<Response>, result: string): Memory {
    var popped := w.(pending := w.pending - {rid}, taken := w.taken + [rid]);
    if response.None? || !response.value.ok then popped
    else
      var messages := [Assistant(response.value.content, rid), User("Observation:\n" + result)];
      popped.(conversation := w.conversation + messages, step := w.step + 1)
  }

  /** One request at most is pending, and the conversation has its length. */
  ghost predicate Paced(w: Memory) {
    && |w.pending| <= 1 && (w.pending != {} ==> w.ready)
    && (if w.ready then
          && |w.conversation| == 2 + 2 * w.step + w.folded
          && w.conversation[0].System? && w.conversation[1].User?
        else w.conversation == [])
  }

  /** Requests are issued once, taken once, and pending in between. */
  ghost predicate Tidy(w: Memory) {
    && NoRepeats(w.issued) && NoRepeats(w.taken)
    && (forall r | r in w.taken :: r in w.issued)
    && (forall r | r in w.pending :: r in w.issued && r !in w.taken)
  }

  lemma InitTidy(w: Memory, system: string, task: string)
    requires Tidy(w) && Paced(w) && w.pending == {}
    ensures Tidy(Init(w, system, task)) && Paced(Init(w, system, task))
  {
  }

  lemma DispatchTidy(w: Memory, rid: Rid, observation: string)
    requires Tidy(w) && Paced(w) && w.pending == {} && w.ready && rid !in w.issued
    ensures Tidy(Dispatch(w, rid, observation)) && Paced(Dispatch(w, rid, observation))
  {
  }

  lemma OnlyOne<T>(s: set<T>, x: T)
    requires |s| <= 1 && x in s
    ensures s == {x}
  {
    assert |s - {x}| == |s| - 1;
  }

  lemma TakeTidy(w: Memory, rid: Rid, response: Option<Response>, result: string)
    requires Tidy(w) && Paced(w) && rid in w.pending
    ensures Tidy(Take(w, rid, response, result)) && Paced(Take(w, rid, response, result))
  {
    OnlyOne(w.pending, rid);
  }

  /** The worker as an object. Host commands wait while a request is pending. */
  class AgentWorker {
    var memory: Memory

    /** At most one request is pending, each is issued and taken once, and the
        conversation has two messages, two per step and one per observation. */
    ghost predicate Valid()
      reads this
    {
      Tidy(memory) && Paced(memory)
    }

    constructor ()
      ensures memory == BLANK && Valid()
    {
      memory := BLANK;
    }

    method HandleInit(system: string, task: string) returns (handled: bool)
      requires Valid()
      modifies this
      ensures Valid()
      ensures handled <==> old(memory).pending == {}
      ensures memory == if handled then Init(old(memory), system, task) else old(memory)
      ensures memory.conversation == if handled then [System(system), User("Task:\n" + task)]
                                     else old(memory).conversation
    {
      handled := memory.pending == {};
      if handled {
        InitTidy(memory, system, task);
        memory := memory.(conversation := [System(system), User("Task:\n" + task)]);
        memory := memory.(ready := true, step := 0, folded := 0);
      }
    }

    /** The request to send, if the step command is accepted, under a fresh ID. */
    method HandleStep(turns: int, rid: Rid, observation: string) returns (request: Option<seq<Message>>)
      requires Valid() && rid !in memory.issued
      modifies this
      ensures Valid()
      ensures request.Some? <==>
              && old(memory).pending == {} && old(memory).ready
              && Prompt(turns, old(memory).conversation, observation) != []
      ensures request.Some? ==> request.value == Prompt(turns, old(memory).conversation, observation)
      ensures memory == if request.Some? then Dispatch(old(memory), rid, observation) else old(memory)
      ensures memory.conversation == old(memory).conversation +
                                     if request.Some? && observation != "" then [User(observation)] else []
    {
      if memory.pending != {} || !memory.ready {
        return None;
      }
      var messages := Prompt(turns, memory.conversation, observation);
      if messages == [] {
        return None;
      }
      DispatchTidy(memory, rid, observation);
      if observation != "" {
        memory := memory.(conversation := memory.conversation + [User(observation)], folded := memory.folded + 1);
      }
      memory := memory.(pending := memory.pending + {rid}, issued := memory.issued + [rid]);
      return Some(messages);
    }

    method HandleNotify(rid: Rid, response: Option<Response>, result: string)
      requires Valid()
      modifies this
      ensures Valid()
      ensures memory == if rid in old(memory).pending then Take(old(memory), rid, response, result) else old(memory)
      ensures memory.conversation ==
              old(memory).conversation +
              if rid in old(memory).pending && response.Some? && response.value.ok
              then [Assistant(response.value.content, rid), User("Observation:\n" + result)] else []
    {
      if rid in memory.pending {
        TakeTidy(memory, rid, response, result);
        memory := memory.(pending := memory.pending - {rid}, taken := memory.taken + [rid]);
        if response.Some? && response.value.ok {
          memory := memory.(conversation := memory.conversation + [Assistant(response.value.content, rid)]);
          memory := memory.(conversation := memory.conversation + [User("Observation:\n" + result)]);
          memory := memory.(step := memory.step + 1);
        }
      }
    }
  }

  // ----- The whole system -----

  /** Outside every snapshot: the current epoch, every request ever written,
      the transcript it was made for, requests not yet taken up, every answer
      obtained, answers past the epoch filter, response files, and for each
      request that passed the filter the epoch that was current at its check. */
  datatype Proxy = Proxy(
    epoch: nat, requests: map<Rid, seq<Message>>, origins: map<Rid, seq<Message>>, queue: set<Rid>,
    answers: map<Rid, Response>, unchecked: set<Rid>, passed: set<Rid>, files: map<Rid, Response>,
    verdicts: set<(Rid, nat)>)

  datatype System = World(worker: Memory, snapshots: map<nat, Memory>, proxy: Proxy)

  datatype Move =
    | HostInit(system: string, task: string)
    | HostStep(rid: Rid, observation: string)
    | Notify(rid: Rid, result: string)
    | TakeUp(rid: Rid, response: Response)
    | Filter(rid: Rid)
    | Publish(rid: Rid)
    | Discard(rid: Rid)
    | Checkpoint(snap: nat)
    | Restore(snap: nat, epoch: nat)

  predicate Enabled(turns: int, s: System, m: Move) {
    match m
    case HostInit(_, _) => s.worker.pending == {}
    case HostStep(rid, observation) =>
      && s.worker.pending == {} && s.worker.ready && Prompt(turns, s.worker.conversation, observation) != []
      && rid.epoch == s.proxy.epoch && rid !in s.proxy.requests
    case Notify(_, _) => true
    case TakeUp(rid, _) => rid in s.proxy.queue
    case Filter(rid) => rid in s.proxy.unchecked
    case Publish(rid) => rid in s.proxy.passed && rid in s.proxy.answers
    case Discard(rid) => true
    case Checkpoint(_) => true
    case Restore(snap, epoch) => snap in s.snapshots && s.proxy.epoch < epoch
  }

  function ReadFile(p: Proxy, rid: Rid): Option<Response> {
    if rid in p.files then Some(p.files[rid]) else None
  }

  function Next(turns: int, s: System, m: Move): System
    requires Enabled(turns, s, m)
  {
    var p := s.proxy;
    match m
    case HostInit(system, task) => s.(worker := Init(s.worker, system, task))
    case HostStep(rid, observation) =>
      var messages := Prompt(turns, s.worker.conversation, observation);
      s.(worker := Dispatch(s.worker, rid, observation),
         proxy := p.(requests := p.requests[rid := messages],
                     origins := p.origins[rid := Fold(s.worker.conversation, observation)], queue := p.queue + {rid}))
    case Notify(rid, result) =>
      if rid !in s.worker.pending then s
      else s.(worker := Take(s.worker, rid, ReadFile(p, rid), result), proxy := p.(files := p.files - {rid}))
    case TakeUp(rid, response) =>
      s.(proxy := p.(queue := p.queue - {rid}, answers := p.answers[rid := response], unchecked := p.unchecked + {rid}))
    case Filter(rid) =>
      if rid.epoch < p.epoch then s.(proxy := p.(unchecked := p.unchecked - {rid}))
      else s.(proxy := p.(unchecked := p.unchecked - {rid}, passed := p.passed + {rid},
                          verdicts := p.verdicts + {(rid, p.epoch)}))
    case Publish(rid) => s.(proxy := p.(passed := p.passed - {rid}, files := p.files[rid := p.answers[rid]]))
    case Discard(rid) => s.(proxy := p.(files := p.files - {rid}))
    case Checkpoint(snap) => s.(snapshots := s.snapshots[snap := s.worker])
    case Restore(snap, epoch) => s.(worker := s.snapshots[snap], proxy := p.(epoch := epoch))
  }

  function Run(turns: int, s: System, moves: seq<Move>): Option<System> {
    if moves == [] then Some(s)
    else
      match Run(turns, s, DropLast(moves))
      case None => None
      case Some(t) => if Enabled(turns, t, Last(moves)) then Some(Next(turns, t, Last(moves))) else None
  }

  const START: System := World(BLANK, map[], Proxy(0, map[], map[], {}, map[], {}, {}, map[], {}))

  // ----- The invariant of one branch -----

  /** This request was made from exactly this transcript, whose last message may
      be the observation that came with the request. */
  ghost predicate AskedFrom(turns: int, request: seq<Message>, conv: seq<Message>) {
    || request == Prompt(turns, conv, "")
    || (&& conv != [] && Last(conv).User? && Last(conv).text != ""
        && request == Prompt(turns, DropLast(conv), Last(conv).text))
  }

  /** Every request was made from the transcript kept as its origin. */
  ghost predicate Made(turns: int, p: Proxy) {
    forall r | r in p.requests :: r in p.origins && AskedFrom(turns, p.requests[r], p.origins[r])
  }

  /** Message i is an assistant's, answering a request that this branch issued
      and has taken, made from this branch's own transcript before it. */
  ghost predicate Answers(p: Proxy, w: Memory, i: nat)
    requires i < |w.conversation| && w.conversation[i].Assistant?
  {
    var rid := w.conversation[i].rid;
    && rid in w.issued && rid in w.taken && rid in p.requests
    && rid in p.origins && p.origins[rid] == w.conversation[..i]
    && rid in p.answers && p.answers[rid] == Response(true, w.conversation[i].text)
  }

  ghost predicate AllOwn(p: Proxy, w: Memory) {
    forall i: nat {:trigger Answers(p, w, i)} |
      i < |w.conversation| && w.conversation[i].Assistant? :: Answers(p, w, i)
  }

  ghost predicate NoneTwice(conv: seq<Message>) {
    forall i, j | 0 <= i < j < |conv| && conv[i].Assistant? && conv[j].Assistant? :: conv[i].rid != conv[j].rid
  }

  /** Every assistant message answers a request of its own branch, no two the same. */
  ghost predicate AllAnswer(p: Proxy, w: Memory) {
    AllOwn(p, w) && NoneTwice(w.conversation)
  }

  ghost predicate Branch(p: Proxy, w: Memory) {
    && Tidy(w)
    && (forall r | r in w.issued :: r in p.requests)
    && (forall r | r in w.pending :: r in p.origins && p.origins[r] == w.conversation)
    && AllAnswer(p, w)
  }

  /** What the proxy holds hangs together. */
  ghost predicate Orderly(p: Proxy) {
    && (forall r | r in p.requests :: r.epoch <= p.epoch)
    && (forall r | r in p.queue :: r in p.requests && r !in p.answers)
    && (forall r | r in p.answers :: r in p.requests)
    && (forall r | r in p.unchecked :: r in p.answers)
    && (forall r | r in p.passed :: r in p.answers && (r, r.epoch) in p.verdicts)
    && (forall r | r in p.files :: r in p.answers && p.files[r] == p.answers[r] && (r, r.epoch) in p.verdicts)
    && (forall v | v in p.verdicts :: v.0.epoch == v.1)
  }

  ghost predicate Inv(turns: int, s: System) {
    && Orderly(s.proxy) && Made(turns, s.proxy)
    && Branch(s.proxy, s.worker) && Paced(s.worker)
    && (forall k | k in s.snapshots :: Branch(s.proxy, s.snapshots[k]) && Paced(s.snapshots[k]))
  }

  /** Requests, their origins and answers, once there, never change. */
  ghost predicate Grows(p: Proxy, q: Proxy) {
    && (forall r | r in p.requests :: r in q.requests && q.requests[r] == p.requests[r])
    && (forall r | r in p.origins && r in p.requests :: r in q.origins && q.origins[r] == p.origins[r])
    && (forall r | r in p.answers :: r in q.answers && q.answers[r] == p.answers[r])
  }

  /** A message answers its request as long as what it stands on stays. */
  lemma StillAnswers(p: Proxy, q: Proxy, w: Memory, w': Memory, i: nat)
    requires AllOwn(p, w) && Grows(p, q) && w.conversation <= w'.conversation
    requires i < |w.conversation| && w'.conversation[i].Assistant?
    requires (forall r | r in w.issued :: r in w'.issued) && (forall r | r in w.taken :: r in w'.taken)
    ensures Answers(q, w', i)
  {
    assert w'.conversation[i] == w.conversation[i];
    assert Answers(p, w, i);
    assert w'.conversation[..i] == w.conversation[..i];
  }

  lemma BranchKept(p: Proxy, q: Proxy, w: Memory)
    requires Branch(p, w) && Grows(p, q)
    ensures Branch(q, w)
  {
    AnswersKept(p, q, w, w);
  }

  lemma AnswersKept(p: Proxy, q: Proxy, w: Memory, w': Memory)
    requires AllAnswer(p, w) && Grows(p, q) && w.conversation == w'.conversation
    requires (forall r | r in w.issued :: r in w'.issued) && (forall r | r in w.taken :: r in w'.taken)
    ensures AllAnswer(q, w')
  {
    forall i: nat | i < |w'.conversation| && w'.conversation[i].Assistant?
      ensures Answers(q, w', i)
    {
      StillAnswers(p, q, w, w', i);
    }
  }

  lemma NextGrows(turns: int, s: System, m: Move)
    requires Orderly(s.proxy) && Enabled(turns, s, m)
    ensures Grows(s.proxy, Next(turns, s, m).proxy)
  {
    var p, q := s.proxy, Next(turns, s, m).proxy;
    if !m.HostStep? {
      assert q.requests == p.requests && q.origins == p.origins;
    }
    if !m.TakeUp? {
      assert q.answers == p.answers;
    }
  }

  /** Issuing, taking up and filtering requests. */
  lemma NextOrderly(turns: int, s: System, m: Move)
    requires Orderly(s.proxy) && Enabled(turns, s, m)
    ensures Orderly(Next(turns, s, m).proxy)
  {
    var p, q := s.proxy, Next(turns, s, m).proxy;
    match m
    case HostInit(_, _) => assert p == q;
    case HostStep(rid, observation) =>
    case Notify(rid, _) =>
    case TakeUp(rid, response) => TakeUpOrderly(p, q, rid, response);
    case Filter(rid) => FilterOrderly(p, q, rid);
    case Publish(rid) =>
    case Discard(rid) =>
    case Checkpoint(_) => assert p == q;
    case Restore(_, _) =>
  }

  lemma TakeUpOrderly(p: Proxy, q: Proxy, rid: Rid, response: Response)
    requires Orderly(p) && rid in p.queue
    requires q == p.(queue := p.queue - {rid}, answers := p.answers[rid := response], unchecked := p.unchecked + {rid})
    ensures Orderly(q)
  {
  }

  lemma FilterOrderly(p: Proxy, q: Proxy, rid: Rid)
    requires Orderly(p) && rid in p.unchecked
    requires q == if rid.epoch < p.epoch then p.(unchecked := p.unchecked - {rid})
                  else p.(unchecked := p.unchecked - {rid}, passed := p.passed + {rid},
                          verdicts := p.verdicts + {(rid, p.epoch)})
    ensures Orderly(q)
  {
  }

  lemma DispatchAnswers(p: Proxy, q: Proxy, w: Memory, rid: Rid, observation: string)
    requires AllAnswer(p, w) && Grows(p, q)
    ensures AllAnswer(q, Dispatch(w, rid, observation))
  {
    var w' := Dispatch(w, rid, observation);
    forall i: nat | i < |w'.conversation| && w'.conversation[i].Assistant?
      ensures Answers(q, w', i)
    {
      StillAnswers(p, q, w, w', i);
    }
  }

  lemma DispatchBranch(p: Proxy, q: Proxy, w: Memory, rid: Rid, observation: string)
    requires Branch(p, w) && Paced(w) && w.pending == {} && w.ready && rid !in p.requests
    requires Grows(p, q) && (forall r | r in p.requests :: r in q.requests)
    requires rid in q.requests && rid in q.origins && q.origins[rid] == Fold(w.conversation, observation)
    ensures Branch(q, Dispatch(w, rid, observation)) && Paced(Dispatch(w, rid, observation))
  {
    DispatchTidy(w, rid, observation);
    DispatchAnswers(p, q, w, rid, observation);
  }

  /** The prompt of a step is made from the transcript that the step leaves. */
  lemma DispatchAsks(turns: int, conv: seq<Message>, observation: string)
    ensures AskedFrom(turns, Prompt(turns, conv, observation), Fold(conv, observation))
  {
    if observation != "" {
      assert DropLast(conv + [User(observation)]) == conv;
    }
  }

  lemma NextMade(turns: int, s: System, m: Move)
    requires Made(turns, s.proxy) && Enabled(turns, s, m)
    ensures Made(turns, Next(turns, s, m).proxy)
  {
    if m.HostStep? {
      DispatchAsks(turns, s.worker.conversation, m.observation);
    }
  }

  /** A response added to the transcript that its request was made from. */
  lemma AnswerAdded(p: Proxy, w: Memory, w': Memory, rid: Rid, text: string, result: string)
    requires AllOwn(p, w) && rid in w'.issued && rid in w'.taken
    requires rid in p.requests && rid in p.origins && p.origins[rid] == w.conversation
    requires rid in p.answers && p.answers[rid] == Response(true, text)
    requires w'.conversation == w.conversation + [Assistant(text, rid)] + [User(result)]
    requires (forall r | r in w.issued :: r in w'.issued) && (forall r | r in w.taken :: r in w'.taken)
    ensures AllOwn(p, w')
  {
    var n := |w.conversation|;
    forall i: nat | i < |w'.conversation| && w'.conversation[i].Assistant?
      ensures Answers(p, w', i)
    {
      if i < n {
        StillAnswers(p, p, w, w', i);
      } else {
        assert i == n && w'.conversation[..n] == w.conversation;
      }
    }
  }

  /** A request not yet taken has no answer in the transcript. */
  lemma AnsweredOnce(p: Proxy, w: Memory, rid: Rid, text: string, result: string)
    requires AllAnswer(p, w) && rid !in w.taken
    ensures NoneTwice(w.conversation + [Assistant(text, rid)] + [User(result)])
  {
    forall i: nat | i < |w.conversation| && w.conversation[i].Assistant?
      ensures w.conversation[i].rid != rid
    {
      assert Answers(p, w, i);
    }
  }

  lemma TakeBranch(p: Proxy, w: Memory, rid: Rid, result: string)
    requires Orderly(p) && Branch(p, w) && Paced(w) && rid in w.pending
    ensures var w' := Take(w, rid, ReadFile(p, rid), result); Branch(p, w') && Paced(w')
  {
    var response, w' := ReadFile(p, rid), Take(w, rid, ReadFile(p, rid), result);
    TakeTidy(w, rid, response, result);
    OnlyOne(w.pending, rid);
    if response.Some? && response.value.ok {
      var text := response.value.content;
      assert w'.conversation == w.conversation + [Assistant(text, rid)] + [User("Observation:\n" + result)];
      AnsweredOnce(p, w, rid, text, "Observation:\n" + result);
      AnswerAdded(p, w, w', rid, text, "Observation:\n" + result);
    } else {
      AnswersKept(p, p, w, w');
    }
  }

  lemma InitBranch(p: Proxy, w: Memory, system: string, task: string)
    requires Branch(p, w) && Paced(w) && w.pending == {}
    ensures Branch(p, Init(w, system, task)) && Paced(Init(w, system, task))
  {
  }

  lemma NextInv(turns: int, s: System, m: Move)
    requires Inv(turns, s) && Enabled(turns, s, m)
    ensures Inv(turns, Next(turns, s, m))
  {
    var p, t := s.proxy, Next(turns, s, m);
    NextOrderly(turns, s, m);
    NextMade(turns, s, m);
    NextGrows(turns, s, m);
    BranchKept(p, t.proxy, s.worker);
    forall k | k in s.snapshots
      ensures Branch(t.proxy, s.snapshots[k])
    {
      BranchKept(p, t.proxy, s.snapshots[k]);
    }
    match m
    case HostInit(system, task) => InitBranch(p, s.worker, system, task);
    case HostStep(rid, observation) => DispatchBranch(p, t.proxy, s.worker, rid, observation);
    case Notify(rid, result) =>
      if rid in s.worker.pending {
        TakeBranch(p, s.worker, rid, result);
        BranchKept(p, t.proxy, t.worker);
      }
    case TakeUp(_, _) =>
    case Filter(_) =>
    case Publish(_) =>
    case Discard(_) =>
    case Checkpoint(_) =>
    case Restore(_, _) =>
  }

  lemma {:induction false} RunInv(turns: int, moves: seq<Move>)
    requires Run(turns, START, moves).Some?
    ensures Inv(turns, Run(turns, START, moves).value)
  {
    if moves != [] {
      RunInv(turns, DropLast(moves));
      NextInv(turns, Run(turns, START, DropLast(moves)).value, Last(moves));
    }
  }

  /** Over every interleaving of commands, replies, checkpoints and restores,
      each assistant message of the worker answers a request that this branch
      issued, from exactly the transcript that precedes the message, with the
      answer that the proxy obtained for it; and no request is answered twice. */
  lemma BranchesNeverMix(turns: int, moves: seq<Move>, i: nat)
    requires Run(turns, START, moves).Some?
    requires var w := Run(turns, START, moves).value.worker; i < |w.conversation| && w.conversation[i].Assistant?
    ensures var s := Run(turns, START, moves).value;
            var w, p, rid := s.worker, s.proxy, s.worker.conversation[i].rid;
            && rid in w.issued && rid in p.requests && rid in p.answers
            && AskedFrom(turns, p.requests[rid], w.conversation[..i])
            && p.answers[rid] == Response(true, w.conversation[i].text)
            && (forall j: nat | j < |w.conversation| && j != i && w.conversation[j].Assistant? ::
                  w.conversation[j].rid != rid)
  {
    RunInv(turns, moves);
    var s := Run(turns, START, moves).value;
    assert Answers(s.proxy, s.worker, i);
  }

  /** Over every interleaving, a branch takes each request at most once, only if
      it issued it, and never has two pending; once initialized its conversation
      has two messages, two more per step and one per injected observation. */
  lemma TakenOnce(turns: int, moves: seq<Move>)
    requires Run(turns, START, moves).Some?
    ensures var w := Run(turns, START, moves).value.worker;
            && NoRepeats(w.taken) && (forall r | r in w.taken :: r in w.issued)
            && |w.pending| <= 1 && (forall r | r in w.pending :: r in w.issued && r !in w.taken)
            && (w.ready ==> |w.conversation| == 2 + 2 * w.step + w.folded)
  {
    RunInv(turns, moves);
  }

  /** Epochs only rise, so every published response passed the filter while
      the epoch its request was issued in was still the current one. */
  lemma PublishedInOwnEpoch(turns: int, moves: seq<Move>)
    requires Run(turns, START, moves).Some?
    ensures var p := Run(turns, START, moves).value.proxy;
            && (forall v | v in p.verdicts :: v.0.epoch == v.1)
            && (forall r | r in p.files :: (r, r.epoch) in p.verdicts)
  {
    RunInv(turns, moves);
  }

  // ----- What a branch was told -----

  /** What changes a transcript: it begins, the host adds an observation, or a
      reply is taken and its action has a result. */
  datatype Said =
    | Began(system: string, task: string)
    | Observed(text: string)
    | Replied(rid: Rid, reply: string, result: string)

  function Render(said: Said): seq<Message> {
    match said
    case Began(system, task) => [System(system), User("Task:\n" + task)]
    case Observed(text) => [User(text)]
    case Replied(rid, reply, result) => [Assistant(reply, rid), User("Observation:\n" + result)]
  }

  /** What the live branch was told so far, and what each snapshot's branch had been told. */
  datatype Story = Story(told: seq<Said>, kept: map<nat, seq<Said>>)

  function Tell(s: System, m: Move, story: Story): Story {
    match m
    case HostInit(system, task) => story.(told := [Began(system, task)])
    case HostStep(_, observation) =>
      if observation == "" then story else story.(told := story.told + [Observed(observation)])
    case Notify(rid, result) =>
      if rid in s.worker.pending && rid in s.proxy.files && s.proxy.files[rid].ok
      then story.(told := story.told + [Replied(rid, s.proxy.files[rid].content, result)])
      else story
    case Checkpoint(snap) => story.(kept := story.kept[snap := story.told])
    case Restore(snap, _) => if snap in story.kept then story.(told := story.kept[snap]) else story
    case _ => story
  }

  /** The story of a run: a restore goes back to what the snapshot's branch had been told. */
  function StoryOf(turns: int, moves: seq<Move>): Story
    requires Run(turns, START, moves).Some?
  {
    if moves == [] then Story([], map[])
    else Tell(Run(turns, START, DropLast(moves)).value, Last(moves), StoryOf(turns, DropLast(moves)))
  }

  ghost predicate Tells(s: System, story: Story) {
    && s.worker.conversation == FlatMap(Render, story.told)
    && story.kept.Keys == s.snapshots.Keys
    && (forall k | k in s.snapshots :: s.snapshots[k].conversation == FlatMap(Render, story.kept[k]))
  }

  lemma TellsInit(turns: int, s: System, m: Move, story: Story)
    requires Tells(s, story) && Enabled(turns, s, m) && m.HostInit?
    ensures Tells(Next(turns, s, m), Tell(s, m, story))
  {
    FlatMapSnoc(Render, [], Began(m.system, m.task));
    assert [] + [Began(m.system, m.task)] == [Began(m.system, m.task)];
  }

  lemma TellsStep(turns: int, s: System, m: Move, story: Story)
    requires Tells(s, story) && Enabled(turns, s, m) && m.HostStep?
    ensures Tells(Next(turns, s, m), Tell(s, m, story))
  {
    FlatMapSnoc(Render, story.told, Observed(m.observation));
  }

  lemma TellsNotify(turns: int, s: System, m: Move, story: Story)
    requires Tells(s, story) && Enabled(turns, s, m) && m.Notify?
    ensures Tells(Next(turns, s, m), Tell(s, m, story))
  {
    if m.rid in s.proxy.files {
      FlatMapSnoc(Render, story.told, Replied(m.rid, s.proxy.files[m.rid].content, m.result));
    }
  }

  lemma TellsNext(turns: int, s: System, m: Move, story: Story)
    requires Tells(s, story) && Enabled(turns, s, m)
    ensures Tells(Next(turns, s, m), Tell(s, m, story))
  {
    if m.HostInit? {
      TellsInit(turns, s, m, story);
    } else if m.HostStep? {
      TellsStep(turns, s, m, story);
    } else if m.Notify? {
      TellsNotify(turns, s, m, story);
    }
  }

  /** Over every interleaving, the conversation of the live branch and of every
      snapshot is exactly what that branch was told, in order. */
  lemma {:induction false} ConversationIsStory(turns: int, moves: seq<Move>)
    requires Run(turns, START, moves).Some?
    ensures Tells(Run(turns, START, moves).value, StoryOf(turns, moves))
  {
    if moves != [] {
      ConversationIsStory(turns, DropLast(moves));
      TellsNext(turns, Run(turns, START, DropLast(moves)).value, Last(moves), StoryOf(turns, DropLast(moves)));
    }
  }

  /** An assistant message in a rendered story comes from a reply, and its result follows it. */
  lemma {:induction false} ReplyAt(told: seq<Said>, i: nat) returns (k: nat)
    requires i < |FlatMap(Render, told)| && FlatMap(Render, told)[i].Assistant?
    ensures var conv := FlatMap(Render, told);
            && k < |told| && told[k].Replied? && i + 1 < |conv|
            && conv[i] == Assistant(told[k].reply, told[k].rid)
            && conv[i + 1] == User("Observation:\n" + told[k].result)
    decreases |told|
  {
    var init := DropLast(told);
    if i < |FlatMap(Render, init)| {
      k := ReplyAt(init, i);
    } else {
      k := |told| - 1;
      assert FlatMap(Render, told) == FlatMap(Render, init) + Render(Last(told));
      assert FlatMap(Render, told)[i] == Render(Last(told))[i - |FlatMap(Render, init)|];
    }
  }

  ghost predicate InStory(story: Story, said: Said) {
    said in story.told || exists k :: k in story.kept && said in story.kept[k]
  }

  lemma NewlySaid(turns: int, s: System, m: Move, story: Story, said: Said)
    requires Enabled(turns, s, m) && said.Replied? && InStory(Tell(s, m, story), said) && !InStory(story, said)
    ensures m == Notify(said.rid, said.result)
    ensures said.rid in s.worker.pending && said.rid in s.proxy.files && s.proxy.files[said.rid].content == said.reply
  {
  }

  /** Move c took the response of rid, and its action had this result. */
  ghost predicate TookWith(turns: int, moves: seq<Move>, rid: Rid, result: string, c: nat) {
    ConsumedAt(turns, moves, rid, c) && moves[c] == Notify(rid, result)
  }

  lemma {:induction false} SaidWasTaken(turns: int, moves: seq<Move>, said: Said) returns (c: nat)
    requires Run(turns, START, moves).Some? && said.Replied? && InStory(StoryOf(turns, moves), said)
    ensures TookWith(turns, moves, said.rid, said.result, c)
    decreases |moves|
  {
    assert moves != [];
    var n := |moves| - 1;
    assert moves[..n] == DropLast(moves);
    var s := LastMove(turns, START, moves);
    var story := StoryOf(turns, DropLast(moves));
    if InStory(story, said) {
      c := SaidWasTaken(turns, moves[..n], said);
      assert moves[..n][..c] == moves[..c];
    } else {
      NewlySaid(turns, s, Last(moves), story, said);
      c := n;
    }
  }

  /** Over every interleaving, the message right after an assistant message
      holds the result of the notify that took this reply on this branch. */
  lemma ResultFollowsReply(turns: int, moves: seq<Move>, i: nat) returns (result: string, c: nat)
    requires Run(turns, START, moves).Some?
    requires var w := Run(turns, START, moves).value.worker; i < |w.conversation| && w.conversation[i].Assistant?
    ensures var conv := Run(turns, START, moves).value.worker.conversation;
            && i + 1 < |conv| && conv[i + 1] == User("Observation:\n" + result)
            && Replied(conv[i].rid, conv[i].text, result) in StoryOf(turns, moves).told
            && TookWith(turns, moves, conv[i].rid, result, c)
  {
    ConversationIsStory(turns, moves);
    var told := StoryOf(turns, moves).told;
    var k := ReplyAt(told, i);
    result := told[k].result;
    c := SaidWasTaken(turns, moves, told[k]);
  }

  // ----- Prompts of reachable workers -----

  lemma RunSnoc(turns: int, from: System, moves: seq<Move>, s: System, m: Move)
    requires Run(turns, from, moves) == Some(s) && Enabled(turns, s, m)
    ensures Run(turns, from, moves + [m]) == Some(Next(turns, s, m))
  {
    assert DropLast(moves + [m]) == moves;
  }

  /** A round with a host that answers the request itself: an observation goes
      in, and the notify line comes without a response. */
  function Round(n: nat): seq<Move> {
    [HostStep(Rid(0, n), "x"), Notify(Rid(0, n), "")]
  }

  ghost predicate Chatted(s: System, n: nat) {
    && s.worker.ready && s.worker.pending == {} && |s.worker.conversation| == 2 + n
    && s.proxy.epoch == 0 && s.proxy.files == map[]
    && (forall i: nat | n <= i :: Rid(0, i) !in s.proxy.requests)
  }

  lemma ChatOnce(turns: int, s: System, n: nat) returns (s': System)
    requires Chatted(s, n)
    ensures var step, notify := HostStep(Rid(0, n), "x"), Notify(Rid(0, n), "");
            && Enabled(turns, s, step) && Enabled(turns, Next(turns, s, step), notify)
            && s' == Next(turns, Next(turns, s, step), notify)
    ensures Chatted(s', n + 1)
  {
    var rid := Rid(0, n);
    s' := Next(turns, s, HostStep(rid, "x"));
    assert s'.worker.pending == {rid};
    s' := Next(turns, s', Notify(rid, ""));
    assert s'.worker.pending == {};
  }

  /** A run of these moves that has chatted n times. */
  ghost predicate ChatRun(turns: int, moves: seq<Move>, n: nat) {
    var r := Run(turns, START, moves);
    r.Some? && Chatted(r.value, n)
  }

  lemma ChatBegins(turns: int)
    ensures ChatRun(turns, [HostInit("", "")], 0)
  {
    var none: seq<Move> := [];
    RunSnoc(turns, START, none, START, HostInit("", ""));
    assert none + [HostInit("", "")] == [HostInit("", "")];
  }

  lemma ChatGoesOn(turns: int, moves: seq<Move>, n: nat)
    requires ChatRun(turns, moves, n)
    ensures ChatRun(turns, moves + Round(n), n + 1)
  {
    var s, step, notify := Run(turns, START, moves).value, HostStep(Rid(0, n), "x"), Notify(Rid(0, n), "");
    var s' := ChatOnce(turns, s, n);
    RunSnoc(turns, START, moves, s, step);
    RunSnoc(turns, START, moves + [step], Next(turns, s, step), notify);
    assert moves + Round(n) == moves + [step] + [notify];
  }

  lemma {:induction false} ChatRuns(turns: int, n: nat) returns (moves: seq<Move>)
    ensures ChatRun(turns, moves, n)
  {
    if n == 0 {
      ChatBegins(turns);
      moves := [HostInit("", "")];
    } else {
      moves := ChatRuns(turns, n - 1);
      ChatGoesOn(turns, moves, n - 1);
      moves := moves + Round(n - 1);
    }
  }

  /** No prompt of any reachable worker is longer than the bound. */
  ghost predicate PromptsFit(turns: int, bound: nat) {
    forall moves, observation | Run(turns, START, moves).Some? ::
      |Prompt(turns, Run(turns, START, moves).value.worker.conversation, observation)| <= bound
  }

  lemma PromptFits(turns: int, moves: seq<Move>, observation: string)
    requires turns > 0 && Run(turns, START, moves).Some?
    ensures |Prompt(turns, Run(turns, START, moves).value.worker.conversation, observation)| <= 2 * turns + 2
  {
    RunInv(turns, moves);
    var conv := Run(turns, START, moves).value.worker.conversation;
    if conv != [] {
      PromptShape(turns, conv, observation);
    }
  }

  /** Over all runs the prompts are bounded if and only if the turn limit is positive. */
  lemma PromptBoundedIff(turns: int)
    ensures (exists bound: nat :: PromptsFit(turns, bound)) <==> turns > 0
  {
    if turns > 0 {
      forall moves, observation | Run(turns, START, moves).Some?
        ensures |Prompt(turns, Run(turns, START, moves).value.worker.conversation, observation)| <= 2 * turns + 2
      {
        PromptFits(turns, moves, observation);
      }
      assert PromptsFit(turns, 2 * turns + 2);
    } else {
      forall bound: nat
        ensures !PromptsFit(turns, bound)
      {
        var n := bound + 1 - 2 * turns;
        var moves := ChatRuns(turns, n);
        PromptUncut(turns, Run(turns, START, moves).value.worker.conversation);
      }
    }
  }

  // ----- Responses that outlive a restore -----

  /** Move f let the response of rid pass the filter, in the request's own epoch. */
  ghost predicate FilteredAt(turns: int, moves: seq<Move>, rid: Rid, f: nat) {
    && f < |moves| && moves[f] == Filter(rid)
    && var s := Run(turns, START, moves[..f]); s.Some? && s.value.proxy.epoch == rid.epoch
  }

  /** Move c consumed the response of rid. */
  ghost predicate ConsumedAt(turns: int, moves: seq<Move>, rid: Rid, c: nat) {
    && c < |moves| && moves[c].Notify? && moves[c].rid == rid
    && var s := Run(turns, START, moves[..c]);
       s.Some? && rid in s.value.worker.pending && rid in s.value.proxy.files
  }

  /** Move r is a restore, and rid was issued before it. */
  ghost predicate IssuedBeforeRestore(turns: int, moves: seq<Move>, rid: Rid, r: nat) {
    && r < |moves| && moves[r].Restore?
    && var s := Run(turns, START, moves[..r]); s.Some? && rid in s.value.proxy.requests
  }

  lemma LastMove(turns: int, from: System, moves: seq<Move>) returns (s: System)
    requires Run(turns, from, moves).Some? && moves != []
    ensures Run(turns, from, DropLast(moves)) == Some(s) && Enabled(turns, s, Last(moves))
    ensures Run(turns, from, moves) == Some(Next(turns, s, Last(moves)))
  {
    s := Run(turns, from, DropLast(moves)).value;
  }

  lemma EpochsRise(turns: int, s: System, m: Move)
    requires Enabled(turns, s, m)
    ensures s.proxy.epoch <= Next(turns, s, m).proxy.epoch
  {
  }

  lemma {:induction false} RunPrefix(turns: int, moves: seq<Move>, n: nat)
    requires Run(turns, START, moves).Some? && n <= |moves|
    ensures var s := Run(turns, START, moves[..n]);
            s.Some? && s.value.proxy.epoch <= Run(turns, START, moves).value.proxy.epoch
    decreases |moves|
  {
    if n == |moves| {
      assert moves[..n] == moves;
    } else {
      var s := LastMove(turns, START, moves);
      EpochsRise(turns, s, Last(moves));
      RunPrefix(turns, DropLast(moves), n);
      assert DropLast(moves)[..n] == moves[..n];
    }
  }

  lemma NewlyPassed(turns: int, s: System, m: Move, rid: Rid)
    requires Orderly(s.proxy) && Enabled(turns, s, m)
    requires rid !in s.proxy.passed && rid !in s.proxy.files
    requires var p := Next(turns, s, m).proxy; rid in p.passed || rid in p.files
    ensures m == Filter(rid) && s.proxy.epoch == rid.epoch
  {
  }

  lemma FilteredLater(turns: int, moves: seq<Move>, n: nat, rid: Rid, f: nat)
    requires n <= |moves| && FilteredAt(turns, moves[..n], rid, f)
    ensures FilteredAt(turns, moves, rid, f)
  {
    assert moves[..n][..f] == moves[..f];
  }

  /** A response that may be published, or is, was let pass by the filter. */
  lemma {:induction false} PassedWasFiltered(turns: int, moves: seq<Move>, rid: Rid) returns (f: nat)
    requires Run(turns, START, moves).Some?
    requires var p := Run(turns, START, moves).value.proxy; rid in p.passed || rid in p.files
    ensures FilteredAt(turns, moves, rid, f)
    decreases |moves|
  {
    assert moves != [];
    var n := |moves| - 1;
    assert moves[..n] == DropLast(moves);
    var s := LastMove(turns, START, moves);
    if rid in s.proxy.passed || rid in s.proxy.files {
      f := PassedWasFiltered(turns, moves[..n], rid);
      FilteredLater(turns, moves, n, rid, f);
    } else {
      RunInv(turns, moves[..n]);
      NewlyPassed(turns, s, Last(moves), rid);
      f := n;
    }
  }

  /** Over a run: the response to a request issued before a restore and consumed
      after it had passed the filter before that restore. Stale responses
      checked after it stay invisible, whatever is pending. */
  lemma StaleWasFilteredBefore(turns: int, moves: seq<Move>, rid: Rid, r: nat, c: nat) returns (f: nat)
    requires Run(turns, START, moves).Some?
    requires IssuedBeforeRestore(turns, moves, rid, r) && r < c && ConsumedAt(turns, moves, rid, c)
    ensures f < r && FilteredAt(turns, moves, rid, f)
  {
    RunPrefix(turns, moves, c);
    f := PassedWasFiltered(turns, moves[..c], rid);
    FilteredLater(turns, moves, c, rid, f);
    if r < f {
      RunPrefix(turns, moves, f);
      assert moves[..f][..r] == moves[..r];
      RaisedEpoch(turns, moves[..f], rid, r);
    }
  }

  /** After the restore the epoch is beyond that of every request issued before it. */
  lemma RaisedEpoch(turns: int, moves: seq<Move>, rid: Rid, r: nat)
    requires Run(turns, START, moves).Some? && IssuedBeforeRestore(turns, moves, rid, r)
    ensures rid.epoch < Run(turns, START, moves).value.proxy.epoch
  {
    RunPrefix(turns, moves, r + 1);
    var s := LastMove(turns, START, moves[..r + 1]);
    assert DropLast(moves[..r + 1]) == moves[..r];
    RunInv(turns, moves[..r]);
    RestoreRaises(turns, s, moves[r], rid);
  }

  lemma RestoreRaises(turns: int, s: System, m: Move, rid: Rid)
    requires Orderly(s.proxy) && rid in s.proxy.requests && m.Restore? && Enabled(turns, s, m)
    ensures rid.epoch < Next(turns, s, m).proxy.epoch
  {
  }

  /** These moves begin with a restore and end by consuming the response of rid. */
  ghost predicate ConsumesAfterRestore(turns: int, s: System, rid: Rid, rest: seq<Move>) {
    && |rest| >= 2 && rest[0].Restore? && Last(rest).Notify? && Last(rest).rid == rid
    && var t := Run(turns, s, DropLast(rest));
       t.Some? && rid in t.value.worker.pending && rid in t.value.proxy.files
  }

  ghost predicate CanConsumeAfterRestore(turns: int, s: System, rid: Rid) {
    exists rest :: ConsumesAfterRestore(turns, s, rid, rest)
  }

  /** The response of rid has passed the filter and is still there. */
  ghost predicate PastFilter(p: Proxy, rid: Rid) {
    rid in p.passed || rid in p.files
  }

  ghost predicate PendingInSnapshot(s: System, rid: Rid) {
    exists k :: k in s.snapshots && rid in s.snapshots[k].pending
  }

  /** In t, reached from s by a restore and more, rid is stale: the filter lets
      it pass no more, and it is pending only where a snapshot of s has it. */
  ghost predicate Stale(s: System, t: System, rid: Rid) {
    && rid.epoch < t.proxy.epoch && rid in t.proxy.requests
    && (PastFilter(t.proxy, rid) ==> PastFilter(s.proxy, rid))
    && (rid in t.worker.pending || PendingInSnapshot(t, rid) ==> PendingInSnapshot(s, rid))
  }

  lemma StaleAtRestore(turns: int, s: System, m: Move, rid: Rid)
    requires Orderly(s.proxy) && rid in s.proxy.requests && m.Restore? && Enabled(turns, s, m)
    ensures Stale(s, Next(turns, s, m), rid)
  {
  }

  lemma PendingStays(turns: int, t: System, m: Move, rid: Rid)
    requires Enabled(turns, t, m) && rid in t.proxy.requests
    ensures var t' := Next(turns, t, m);
            rid in t'.worker.pending || PendingInSnapshot(t', rid) ==>
              rid in t.worker.pending || PendingInSnapshot(t, rid)
  {
    var t' := Next(turns, t, m);
    if PendingInSnapshot(t', rid) {
      var k :| k in t'.snapshots && rid in t'.snapshots[k].pending;
      assert t'.snapshots[k] == t.worker || (k in t.snapshots && t'.snapshots[k] == t.snapshots[k]);
    }
  }

  lemma StaleStays(turns: int, s: System, t: System, m: Move, rid: Rid)
    requires Stale(s, t, rid) && Enabled(turns, t, m)
    ensures Stale(s, Next(turns, t, m), rid)
  {
    PendingStays(turns, t, m, rid);
  }

  lemma {:induction false} StaleRun(turns: int, s: System, rid: Rid, rest: seq<Move>)
    requires Orderly(s.proxy) && rid in s.proxy.requests
    requires rest != [] && rest[0].Restore? && Run(turns, s, rest).Some?
    ensures Stale(s, Run(turns, s, rest).value, rid)
    decreases |rest|
  {
    var t := LastMove(turns, s, rest);
    if |rest| == 1 {
      StaleAtRestore(turns, s, rest[0], rid);
    } else {
      StaleRun(turns, s, rid, DropLast(rest));
      StaleStays(turns, s, t, Last(rest), rid);
    }
  }

  lemma ThenNotify(turns: int, s: System, rid: Rid, before: seq<Move>, t: System)
    requires Run(turns, s, before) == Some(t) && before != [] && before[0].Restore?
    requires rid in t.worker.pending && rid in t.proxy.files
    ensures ConsumesAfterRestore(turns, s, rid, before + [Notify(rid, "")])
  {
    assert DropLast(before + [Notify(rid, "")]) == before;
  }

  lemma RestoreFirst(turns: int, s: System, restore: Move)
    requires Enabled(turns, s, restore)
    ensures Run(turns, s, [restore]) == Some(Next(turns, s, restore))
  {
    var none: seq<Move> := [];
    RunSnoc(turns, s, none, s, restore);
    assert none + [restore] == [restore];
  }

  /** Restore the snapshot, publish the response if need be, and notify. */
  lemma RestoreAndConsume(turns: int, s: System, rid: Rid) returns (rest: seq<Move>)
    requires Orderly(s.proxy) && PastFilter(s.proxy, rid) && PendingInSnapshot(s, rid)
    ensures ConsumesAfterRestore(turns, s, rid, rest)
  {
    var k :| k in s.snapshots && rid in s.snapshots[k].pending;
    var restore := Restore(k, s.proxy.epoch + 1);
    var t := Next(turns, s, restore);
    RestoreFirst(turns, s, restore);
    rest := [restore];
    if rid !in s.proxy.files {
      RunSnoc(turns, s, rest, t, Publish(rid));
      rest, t := rest + [Publish(rid)], Next(turns, t, Publish(rid));
    }
    ThenNotify(turns, s, rid, rest, t);
    rest := rest + [Notify(rid, "")];
  }

  /** What the filter promises, exactly: in every reachable state, a request
      issued so far can still be consumed after a restore if and only if its
      response is past the filter and some snapshot has the request pending. */
  lemma StaleConsumableIff(turns: int, moves: seq<Move>, s: System, rid: Rid)
    requires Run(turns, START, moves) == Some(s) && rid in s.proxy.requests
    ensures CanConsumeAfterRestore(turns, s, rid) <==> PastFilter(s.proxy, rid) && PendingInSnapshot(s, rid)
  {
    RunInv(turns, moves);
    if rest :| ConsumesAfterRestore(turns, s, rid, rest) {
      assert DropLast(rest)[0] == rest[0];
      StaleRun(turns, s, rid, DropLast(rest));
    }
    if PastFilter(s.proxy, rid) && PendingInSnapshot(s, rid) {
      var rest := RestoreAndConsume(turns, s, rid);
    }
  }

  /** The race that the check leaves open: the filter looks, the worker is
      restored, and only then is the response published and consumed. */
  lemma StaleResponseRace(turns: int) returns (moves: seq<Move>, rid: Rid)
    ensures Run(turns, START, moves).Some?
    ensures exists r, c :: IssuedBeforeRestore(turns, moves, rid, r) && r < c && ConsumedAt(turns, moves, rid, c)
  {
    rid := Rid(0, 0);
    var setup := [HostInit("", ""), HostStep(rid, "x"), Checkpoint(0), TakeUp(rid, Response(true, "")), Filter(rid)];
    var s := RaceSetup(turns, rid, setup);
    RunSnoc(turns, START, setup, s, Restore(0, 1));
    var restored := Next(turns, s, Restore(0, 1));
    RunSnoc(turns, START, setup + [Restore(0, 1)], restored, Publish(rid));
    var published := Next(turns, restored, Publish(rid));
    var before := setup + [Restore(0, 1)] + [Publish(rid)];
    RunSnoc(turns, START, before, published, Notify(rid, ""));
    moves := before + [Notify(rid, "")];
    assert moves[..5] == setup && moves[..7] == before;
    assert IssuedBeforeRestore(turns, moves, rid, 5) && ConsumedAt(turns, moves, rid, 7);
  }

  lemma RaceSetup(turns: int, rid: Rid, setup: seq<Move>) returns (s: System)
    requires rid == Rid(0, 0)
    requires setup == [HostInit("", ""), HostStep(rid, "x"), Checkpoint(0),
                       TakeUp(rid, Response(true, "")), Filter(rid)]
    ensures Run(turns, START, setup) == Some(s)
    ensures s.proxy.epoch == 0 && rid in s.proxy.requests && rid in s.proxy.passed && rid in s.proxy.answers
    ensures 0 in s.snapshots && rid in s.snapshots[0].pending
  {
    var none: seq<Move> := [];
    s := START;
    RunSnoc(turns, START, none, s, setup[0]);
    assert setup[..1] == none + [setup[0]];
    s := Next(turns, s, setup[0]);
    RunSnoc(turns, START, setup[..1], s, setup[1]);
    assert setup[..2] == setup[..1] + [setup[1]];
    s := Next(turns, s, setup[1]);
    RunSnoc(turns, START, setup[..2], s, setup[2]);
    assert setup[..3] == setup[..2] + [setup[2]];
    s := Next(turns, s, setup[2]);
    RunSnoc(turns, START, setup[..3], s, setup[3]);
    assert setup[..4] == setup[..3] + [setup[3]];
    s := Next(turns, s, setup[3]);
    RunSnoc(turns, START, setup[..4], s, setup[4]);
    assert setup == setup[..4] + [setup[4]];
    s := Next(turns, s, setup[4]);
  }
}
