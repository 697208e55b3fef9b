# ThreadPool: a verified model of the worker pool's shared-state protocol

The C++ `ThreadPool` (header `ThreadPool.hpp`) runs submitted tasks on a fixed set of
worker threads. All the threads share one aggregate, `Shared`: a `run` flag and a FIFO
deque of tasks, guarded by a mutex and a condition variable. This project models that
protocol as a sequential state machine. Each locked critical section is one atomic step,
and a task is an opaque id.

- `pool_model.dfy`, module `PoolModel`: the state as a value (`Pool`: run flag, queue,
  one `Idle`/`Terminated` state per worker id, plus logs of executed, discarded and
  submitted tasks). It also holds the transitions: construction, `addTask`, one
  iteration of the worker loop, running one worker to its exit, the join loop and
  `stop`, with the invariant `Inv` they keep.
- `thread_pool.dfy`, module `ThreadPools`: class `ThreadPool`. Its fields (`run`,
  `tasks`, `workers`, and the logs as ghost fields) are updated in place. Each method is
  specified by the `PoolModel` transition it performs. The public methods (constructor,
  `AddTask`, `WorkerStep`, `Stop`, `Destroy`) keep `Valid()` (that is, `Inv`); `Join`
  and `JoinWorkers` run inside `Stop`, after the run flag has dropped and before the
  workers are joined, where it is suspended.
- `pool_traces.dfy`, module `PoolTraces`: any interleaving of submissions, stops and
  worker iterations (`Op`, `Apply`, `Run`). Lemmas state what holds along every one of
  them.

The central invariant: every accepted task is executed, still queued, or discarded, in
submission order (`submitted == executed + tasks + discarded`). Only an immediate stop
discards. A worker has terminated exactly when the pool is stopped, and then the queue is
empty.

Choices, where the code decides:
- The wake-one signal of `addTask` is its result `Accepted(notifyOne)`. The code sends it
  when the queue length after the append is 1. The model proves this is the same as "the
  queue was empty before".
- A pool built with zero workers that is stopped gracefully keeps its queue. No worker
  exists to drain it, and the join loop is empty. So `stop` empties the queue only
  when it is immediate or the pool has workers, and `PoolModel.Stop` states the
  zero-worker case separately.
- Thread creation is an input to the constructor: `spawnable` is how many threads the
  system lets it create. When creation fails at id `spawnable < size`, the catch clause
  runs `stop(true)`. The object then holds exactly `Stop(Init(spawnable), true)`.
- `stop` takes `immediate` with default `true`, as the declaration does: a call without
  argument (`Stop()` on the class, `PoolModel.Stop(p)`) discards the queue.
- The join phase of `stop` joins workers 0, 1, ... in turn. Joining worker `i` runs
  worker `i`'s loop until it leaves (`Join`, `PoolModel.RunWorker`). So the model
  follows one schedule: the first live worker drains the queue.

## Model

| member | source | states |
|---|---|---|
| `PoolModel.Init` | ThreadPool.hpp:71-80 | construction sets `run`, creates exactly `size` workers with ids `0..size-1`, all idle; the queue and logs are empty; the invariant holds |
| `PoolModel.AddTask` | ThreadPool.hpp:121-143 | rejected (`NotRunning`) iff the pool is stopped, and then nothing changes; otherwise the new queue is the old queue with the task at the tail (old entries in place), `run` unchanged; it signals one waiter iff the queue was empty before; the invariant is kept |
| `PoolModel.WorkerStep` | ThreadPool.hpp:145-186 | runs a task iff the queue is non-empty: exactly the front one, moved to the executed log, rest of the queue unchanged; exits iff the queue is empty and `run` is false; otherwise waits without any change; executed log plus queue is conserved; under the invariant a worker never exits outside a stop |
| `PoolModel.Signal` | ThreadPool.hpp:98-113 | the locked part of `stop` on a running pool: `run` drops; the queue is emptied when immediate and unchanged otherwise; queue and discard log together keep the same tasks in the same order; workers and the other logs are untouched |
| `PoolModel.RunWorker` | ThreadPool.hpp:150-185 | a live worker on a stopped pool runs until it exits: it terminates, the queue becomes empty, and the executed log is extended by the whole old queue in order; an already terminated worker changes nothing |
| `PoolModel.JoinAll` | ThreadPool.hpp:115-118 | joining workers `i..` leaves them all terminated and earlier ones untouched; if any of them was live, the queue is drained into the executed log in order; if none was, nothing changes |
| `PoolModel.Stop` | ThreadPool.hpp:95-119 | `immediate` defaults to `true`; no change when already stopped; afterwards `run` is false, the workers are all joined, and the submission log is unchanged; an immediate stop empties the queue into the discarded log and executes nothing more; a graceful stop executes the whole queue in order, and keeps it queued only when there are no workers; the invariant is kept |
| `PoolModel.StopIsIdempotent` | ThreadPool.hpp:100-104 | a second `stop`, with either flag, changes nothing: no second clear, no second join |
| `PoolModel.GracefulStopExecutesAll` | ThreadPool.hpp:90-93 | a graceful stop (the destructor) of a running pool with workers executes every accepted task in submission order and discards none |
| `PoolModel.ImmediateStopDiscardsQueue` | ThreadPool.hpp:106-112 | an immediate stop of a running pool executes no queued task: the whole queue is discarded |
| `PoolModel.RollbackLeavesPoolStopped` | ThreadPool.hpp:82-87 | after a creation failure with `spawned` workers created, the rollback `stop(true)` leaves `run` false, the queue empty, nothing executed and every created worker joined |
| `ThreadPools.ThreadPool.constructor` | ThreadPool.hpp:71-88 | with enough threads the object holds `Init(size)`; if creation fails at id `spawnable`, it holds `Stop(Init(spawnable), true)`; `Valid()` either way |
| `ThreadPools.ThreadPool.AddTask` | ThreadPool.hpp:121-143 | new state and result are exactly `PoolModel.AddTask` of the old state; keeps `Valid()` |
| `ThreadPools.ThreadPool.WorkerStep` | ThreadPool.hpp:150-185 | new state and outcome are exactly `PoolModel.WorkerStep` of the old state; keeps `Valid()` |
| `ThreadPools.ThreadPool.Join` | ThreadPool.hpp:117 | joining worker `w` of a stopped pool reaches `PoolModel.RunWorker` of the old state |
| `ThreadPools.ThreadPool.JoinWorkers` | ThreadPool.hpp:115-118 | the join loop reaches `PoolModel.JoinAll` of the old state from worker 0 |
| `ThreadPools.ThreadPool.Stop` | ThreadPool.hpp:95-119 | `immediate` defaults to `true`; new state is exactly `PoolModel.Stop` of the old state; keeps `Valid()` |
| `ThreadPools.ThreadPool.Destroy` | ThreadPool.hpp:90-93 | new state is `PoolModel.Stop(old, false)`: destruction is a graceful stop |
| `PoolTraces.Apply` | ThreadPool.hpp:36-43 | one public call or worker iteration keeps the worker count and the invariant, only extends the submission and execution logs, never restarts a stopped pool or accepts a task on one, and leaves the discard log unchanged unless it is an immediate stop |
| `PoolTraces.RunPreservesInv` | ThreadPool.hpp:51-57 | every sequence of operations keeps the invariant and the number of workers |
| `PoolTraces.StoppedStaysStopped` | ThreadPool.hpp:128-131 | once `run` is false it stays false, and no later submission is accepted, whatever operations follow |
| `PoolTraces.ExecutionInSubmissionOrder` | ThreadPool.hpp:154-159 | along any sequence of operations the execution log only grows and is always a prefix of the submission log (FIFO, no task run twice or skipped) |
| `PoolTraces.OnlyImmediateStopDiscards` | ThreadPool.hpp:106-109 | along any sequence of operations without an immediate stop the discard log does not change, whatever was discarded before |
| `PoolTraces.DestructionDrainsQueue` | ThreadPool.hpp:90-118 | after any history from construction with at least one worker, destruction leaves no task queued, and each accepted task was executed or discarded; without an immediate stop, every accepted task was executed in submission order |

## Left out

- Threads, the mutex, the condition variable and its `notify_one`/`notify_all`, spurious
  wake-ups and real `join` blocking. Each critical section is one atomic step. Waiting is
  the `Waiting` outcome, which changes nothing. A signal is only the `notifyOne` flag of
  the result.
- `ThreadPools.ThreadPool.Stop`: the join phase is one schedule. Workers are joined in
  order, and the first live worker drains the queue. Other workers running beside it,
  and the order in which tasks finish, are not modelled. The order in which tasks leave
  the queue (FIFO) is modelled. Because each `stop` is one atomic step, a second `stop`
  made by another thread while the first is still joining is not modelled: in the code it
  returns at once (the early return also skips the join loop) while workers may still be
  draining the queue.
- `std::packaged_task`, `std::future`, `std::bind` and the variadic signature of
  `addTask`. A task is an opaque id, and running it only appends it to the executed log.
- Results and exceptions delivered through futures, including the broken promise of a
  discarded task. The standard library does this work.
- `ThreadPools.ThreadPool.constructor`: the rethrow of the thread-creation exception is
  not modelled. The object is returned in its rolled-back state, and the caller tells
  failure by `spawnable < size`.
- `size_t` width: worker ids and counts are unbounded naturals. The queue has no
  capacity limit, as `std::deque` has none short of memory.
- `Test.cpp` and `Example.cpp`: demos and load tests (thread ids, console output,
  100,000-task runs), not pool logic.
