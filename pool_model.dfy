/** The shared state of the worker pool (the `Shared` aggregate: a run flag and a FIFO
    deque of tasks), the worker threads' states, and the transitions that `addTask`,
    `stop` and one iteration of the worker loop perform on it. Every transition is one
    atomic step: holding the mutex is implicit. Three logs that the program does not keep
    (executed, discarded, submitted) record what happened to each task. */
module PoolModel {

  /** A submitted task, as an opaque identity. */
  type TaskId = nat

  /** The life of a worker thread: looping over the queue, or returned from `worker`. */
  datatype WorkerState = Idle | Terminated

  datatype Pool = Pool(
    run: bool,                  // Shared.run
    tasks: seq<TaskId>,         // Shared.tasks, front first
    workers: seq<WorkerState>,  // the workers vector, indexed by worker id
    executed: seq<TaskId>,      // tasks popped and executed, in execution order
    discarded: seq<TaskId>,     // tasks dropped by an immediate stop
    submitted: seq<TaskId>      // tasks accepted by addTask, in submission order
  )

  /** What `addTask` reports: accepted (and whether it signalled one waiting worker), or
      the runtime error raised when the pool is not running. */
  datatype Submission = Accepted(notifyOne: bool) | NotRunning

  /** What one iteration of the worker loop does. */
  datatype StepOutcome = Ran(task: TaskId) | Exited | Waiting

  /** The invariant every public operation keeps: each accepted task is executed, still
      queued or discarded, in submission order; only an immediate stop discards; and a
      worker has terminated exactly when the pool is stopped, and then the queue is empty. */
  predicate Inv(p: Pool) {
    && p.submitted == p.executed + p.tasks + p.discarded
    && (p.run ==> p.discarded == [])
    && (forall i | 0 <= i < |p.workers| :: p.workers[i] == Terminated <==> !p.run)
    && (forall i | 0 <= i < |p.workers| :: p.workers[i] == Terminated ==> p.tasks == [])
  }

  /** The pool right after construction with `size` workers. */
  function Init(size: nat): (p: Pool)
    ensures Inv(p)
    ensures p.run && p.tasks == [] && |p.workers| == size
    ensures forall id | 0 <= id < size :: p.workers[id] == Idle
    ensures p.executed == [] && p.submitted == []
  {
    Pool(true, [], seq(size, _ => Idle), [], [], [])
  }

  /** `addTask`: rejected when stopped; otherwise the task goes to the tail and one waiter
      is signalled when the queue has just become one long. */
  function AddTask(p: Pool, t: TaskId): (r: (Pool, Submission))
    ensures r.1 == NotRunning <==> !p.run
    ensures !p.run ==> r.0 == p
    ensures p.run ==> r.0 == p.(tasks := p.tasks + [t], submitted := p.submitted + [t])
    ensures p.run ==> |r.0.tasks| == |p.tasks| + 1 && r.0.tasks[..|p.tasks|] == p.tasks && r.0.tasks[|p.tasks|] == t
    ensures r.1.Accepted? ==> (r.1.notifyOne <==> p.tasks == [])
    ensures Inv(p) ==> Inv(r.0)
  {
    if !p.run then
      (p, NotRunning)
    else
      var q := p.(tasks := p.tasks + [t], submitted := p.submitted + [t]);
      (q, Accepted(|q.tasks| == 1))
  }

  /** One iteration of the `worker` loop of worker `w`: run the front task if there is
      one; else exit if the pool is stopped; else wait (which changes nothing). */
  function WorkerStep(p: Pool, w: nat): (r: (Pool, StepOutcome))
    requires w < |p.workers| && p.workers[w] == Idle
    ensures r.1.Ran? <==> p.tasks != []
    ensures r.1.Ran? ==> r.1.task == p.tasks[0] && r.0 == p.(tasks := p.tasks[1..], executed := p.executed + [p.tasks[0]])
    ensures r.1 == Exited <==> p.tasks == [] && !p.run
    ensures r.1 == Exited ==> r.0 == p.(workers := p.workers[w := Terminated])
    ensures r.1 == Waiting ==> r.0 == p
    ensures r.0.executed + r.0.tasks == p.executed + p.tasks
    ensures Inv(p) ==> Inv(r.0) && r.1 != Exited
  {
    if p.tasks != [] then
      var task := p.tasks[0];
      (p.(tasks := p.tasks[1..], executed := p.executed + [task]), Ran(task))
    else if !p.run then
      (p.(workers := p.workers[w := Terminated]), Exited)
    else
      (p, Waiting)
  }

  /** The locked part of `stop` on a running pool: an immediate stop clears the queue;
      either way the run flag drops. */
  function Signal(p: Pool, immediate: bool): (r: Pool)
    ensures !r.run
    ensures r.tasks == (if immediate then [] else p.tasks)
    ensures r.discarded + r.tasks == p.discarded + p.tasks
    ensures r.workers == p.workers && r.executed == p.executed && r.submitted == p.submitted
  {
    p.(run := false,
       tasks := if immediate then [] else p.tasks,
       discarded := p.discarded + (if immediate then p.tasks else []))
  }

  /** Worker `w` runs its loop on a stopped pool until it leaves it (what `join` waits for). */
  function RunWorker(p: Pool, w: nat): (r: Pool)
    requires !p.run && w < |p.workers|
    ensures !r.run && r.workers == p.workers[w := Terminated]
    ensures r.executed + r.tasks == p.executed + p.tasks
    ensures p.workers[w] == Idle ==> r.tasks == [] && r.executed == p.executed + p.tasks
    ensures p.workers[w] == Terminated ==> r == p
    ensures r.discarded == p.discarded && r.submitted == p.submitted
    decreases |p.tasks|, if p.workers[w] == Idle then 1 else 0
  {
    if p.workers[w] == Terminated then p
    else RunWorker(WorkerStep(p, w).0, w)
  }

  /** The join loop of `stop`: workers `i`, `i + 1`, ... are joined in turn. */
  function JoinAll(p: Pool, i: nat): (r: Pool)
    requires !p.run && i <= |p.workers|
    ensures !r.run && |r.workers| == |p.workers|
    ensures forall j | 0 <= j < i :: r.workers[j] == p.workers[j]
    ensures forall j | i <= j < |r.workers| :: r.workers[j] == Terminated
    ensures r.executed + r.tasks == p.executed + p.tasks
    ensures (exists j | i <= j < |p.workers| :: p.workers[j] == Idle) ==> r.tasks == [] && r.executed == p.executed + p.tasks
    ensures (forall j | i <= j < |p.workers| :: p.workers[j] == Terminated) ==> r == p
    ensures r.discarded == p.discarded && r.submitted == p.submitted
    decreases |p.workers| - i
  {
    if i == |p.workers| then p
    else JoinAll(RunWorker(p, i), i + 1)
  }

  /** `stop(immediate)`, where a call without argument is an immediate stop: nothing
      when already stopped; otherwise signal and join every worker. A graceful stop lets
      the workers drain the queue; a pool without workers keeps its queue. */
  function Stop(p: Pool, immediate: bool := true): (r: Pool)
    ensures !p.run ==> r == p
    ensures !r.run && |r.workers| == |p.workers| && r.submitted == p.submitted
    ensures p.run && Inv(p) ==>
      && (forall j | 0 <= j < |r.workers| :: r.workers[j] == Terminated)
      && r.executed == p.executed + (if immediate || |p.workers| == 0 then [] else p.tasks)
      && r.tasks == (if immediate || |p.workers| > 0 then [] else p.tasks)
      && r.discarded == (if immediate then p.tasks else [])
    ensures Inv(p) ==> Inv(r)
  {
    if !p.run then p
    else JoinAll(Signal(p, immediate), 0)
  }

  /** Stopping twice is stopping once, whatever the two flags. */
  lemma StopIsIdempotent(p: Pool, first: bool, second: bool)
    ensures Stop(Stop(p, first), second) == Stop(p, first)
  {
  }

  /** A graceful stop (or destruction) of a running pool with workers executes every
      task ever accepted, in submission order, and discards none. */
  lemma GracefulStopExecutesAll(p: Pool)
    requires Inv(p) && p.run && |p.workers| > 0
    ensures Stop(p, false).executed == p.submitted
    ensures Stop(p, false).tasks == [] && Stop(p, false).discarded == []
  {
  }

  /** An immediate stop executes none of the queued tasks: they are all discarded. */
  lemma ImmediateStopDiscardsQueue(p: Pool)
    requires Inv(p) && p.run
    ensures Stop(p, true).executed == p.executed
    ensures Stop(p, true).tasks == [] && Stop(p, true).discarded == p.tasks
  {
  }

  /** The rollback of a construction that created only `spawned` workers leaves the pool
      stopped, empty and with every created worker joined. */
  lemma RollbackLeavesPoolStopped(spawned: nat)
    ensures var r := Stop(Init(spawned), true);
      !r.run && r.tasks == [] && r.executed == [] && |r.workers| == spawned &&
      forall j | 0 <= j < spawned :: r.workers[j] == Terminated
  {
  }
}
