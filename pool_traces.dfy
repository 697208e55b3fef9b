/** Arbitrary interleavings of the pool's public operations and of worker-loop
    iterations, and the properties that hold along every one of them. */
module PoolTraces {
  import opened PoolModel

  /** A call of `addTask`, of `stop` (the destructor is `Shutdown(false)`), or one loop
      iteration of the worker with the given id. */
  datatype Op = Submit(task: TaskId) | Shutdown(immediate: bool) | Work(worker: nat)

  /** The effect of one operation; a worker that does not exist or has terminated does
      not run. */
  function Apply(p: Pool, op: Op): (r: Pool)
    ensures |r.workers| == |p.workers|
    ensures p.submitted <= r.submitted
    ensures !p.run ==> !r.run && r.submitted == p.submitted
    ensures Inv(p) ==> Inv(r) && p.executed <= r.executed
    ensures Inv(p) && op != Shutdown(true) ==> r.discarded == p.discarded
  {
    match op
    case Submit(t) => AddTask(p, t).0
    case Shutdown(immediate) => Stop(p, immediate)
    case Work(w) => if w < |p.workers| && p.workers[w] == Idle then WorkerStep(p, w).0 else p
  }

  /** The state after the operations `ops`, in order. */
  function Run(p: Pool, ops: seq<Op>): Pool
    decreases |ops|
  {
    if ops == [] then p else Run(Apply(p, ops[0]), ops[1..])
  }

  predicate NoImmediateStop(ops: seq<Op>) {
    forall k | 0 <= k < |ops| :: ops[k] != Shutdown(true)
  }

  lemma {:induction false} RunPreservesInv(p: Pool, ops: seq<Op>)
    requires Inv(p)
    ensures Inv(Run(p, ops)) && |Run(p, ops).workers| == |p.workers|
    decreases |ops|
  {
    if ops != [] {
      RunPreservesInv(Apply(p, ops[0]), ops[1..]);
    }
  }

  /** Once stopped, a pool stays stopped and accepts no task, whatever happens next. */
  lemma {:induction false} StoppedStaysStopped(p: Pool, ops: seq<Op>)
    requires !p.run
    ensures !Run(p, ops).run
    ensures Run(p, ops).submitted == p.submitted
    decreases |ops|
  {
    if ops != [] {
      StoppedStaysStopped(Apply(p, ops[0]), ops[1..]);
    }
  }

  /** Tasks are executed in submission order: the execution log only grows, and it is
      always a prefix of the submission log. */
  lemma {:induction false} ExecutionInSubmissionOrder(p: Pool, ops: seq<Op>)
    requires Inv(p)
    ensures p.executed <= Run(p, ops).executed
    ensures Run(p, ops).executed <= Run(p, ops).submitted
    ensures p.submitted <= Run(p, ops).submitted
    decreases |ops|
  {
    if ops == [] {
      assert p.executed <= p.executed + p.tasks + p.discarded;
    } else {
      ExecutionInSubmissionOrder(Apply(p, ops[0]), ops[1..]);
    }
  }

  /** Only an explicit immediate stop ever discards a task. */
  lemma {:induction false} OnlyImmediateStopDiscards(p: Pool, ops: seq<Op>)
    requires Inv(p) && NoImmediateStop(ops)
    ensures Run(p, ops).discarded == p.discarded
    decreases |ops|
  {
    if ops != [] {
      assert ops[0] != Shutdown(true);
      OnlyImmediateStopDiscards(Apply(p, ops[0]), ops[1..]);
    }
  }

  /** Whatever happened since construction with at least one worker, destroying the pool
      leaves no task pending: each accepted task was executed or discarded, and without
      an immediate stop every accepted task was executed, in submission order. */
  lemma DestructionDrainsQueue(size: nat, ops: seq<Op>)
    requires size > 0
    ensures var r := Stop(Run(Init(size), ops), false);
      && r.tasks == []
      && r.executed + r.discarded == r.submitted
      && (NoImmediateStop(ops) ==> r.executed == r.submitted)
  {
    var q := Run(Init(size), ops);
    RunPreservesInv(Init(size), ops);
    if NoImmediateStop(ops) {
      OnlyImmediateStopDiscards(Init(size), ops);
    }
    if !q.run {
      assert q.workers[0] == Terminated;
    }
  }
}
