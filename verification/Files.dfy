/** Workers seen through their files alone. */
module Files {
  import opened Prelude
  import opened Schedule
  import opened Actions

  function ApplyAll<F>(effect: (F, Op) -> F, files: F, ops: seq<Op>): F {
    if ops == [] then files else effect(ApplyAll(effect, files, DropLast(ops)), Last(ops))
  }

  /** The worker seen through its files alone, for any effect of operations on files. */
  function FileWorker<F>(effect: (F, Op) -> F): Worker<F> {
    (files: F, id: string, ops: seq<Op>) => ApplyAll(effect, files, ops)
  }

  ghost predicate LeavesReadsAlone<F(!new)>(effect: (F, Op) -> F) {
    forall files, op | ReadOnly(op) :: effect(files, op) == files
  }

  lemma {:induction false} ApplyAppend<F>(effect: (F, Op) -> F, files: F, a: seq<Op>, b: seq<Op>)
    ensures ApplyAll(effect, files, a + b) == ApplyAll(effect, ApplyAll(effect, files, a), b)
  {
    if b == [] {
      assert a + b == a;
    } else {
      ApplyAppend(effect, files, a, DropLast(b));
      assert DropLast(a + b) == a + DropLast(b);
    }
  }

  /** The effect of a node is the effect of its steps, one after the other. */
  lemma StepsInOrder<F>(effect: (F, Op) -> F, files: F, steps: seq<Action>, x: Action)
    ensures ApplyAll(effect, files, NodeOps(steps + [x]))
            == ApplyAll(effect, ApplyAll(effect, files, NodeOps(steps)), ActionOps(x))
  {
    NodeOpsAppend(steps, [x]);
    NodeOpsSingle(x);
    ApplyAppend(effect, files, NodeOps(steps), ActionOps(x));
  }

  lemma {:induction false} ReadOnlyKeepsFiles<F(!new)>(effect: (F, Op) -> F, files: F, ops: seq<Op>)
    requires LeavesReadsAlone(effect) && AllReadOnly(ops)
    ensures ApplyAll(effect, files, ops) == files
  {
    if ops != [] {
      ReadOnlyKeepsFiles(effect, files, DropLast(ops));
    }
  }
}
