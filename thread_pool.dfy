/** The pool object itself: the fields of `Shared` and the workers vector, updated in
    place by the constructor, `addTask`, `stop`, the destructor and the workers' loops.
    Each method is specified by the PoolModel transition it performs. */
module ThreadPools {
  import P = PoolModel

  class ThreadPool {
    var run: bool
    var tasks: seq<P.TaskId>
    var workers: seq<P.WorkerState>
    ghost var executed: seq<P.TaskId>
    ghost var discarded: seq<P.TaskId>
    ghost var submitted: seq<P.TaskId>

    /** The abstract value of the object. */
    ghost function State(): P.Pool
      reads this
    {
      P.Pool(run, tasks, workers, executed, discarded, submitted)
    }

    ghost predicate Valid()
      reads this
    {
      P.Inv(State())
    }

    /** Construction with `size` workers, where the system lets only `spawnable` threads be
        created: on the first failure the pool is stopped immediately (the created workers
        are joined) before the error would propagate. */
    constructor (size: nat, spawnable: nat)
      ensures Valid()
      ensures size <= spawnable ==> State() == P.Init(size)
      ensures spawnable < size ==> State() == P.Stop(P.Init(spawnable), true)
    {
      run := true;
      tasks := [];
      workers := [];
      executed, discarded, submitted := [], [], [];
      new;
      var id := 0;
      while id < size
        invariant id <= size && id <= spawnable
        invariant State() == P.Init(id)
      {
        if id == spawnable {
          Stop(true);
          return;
        }
        workers := workers + [P.Idle];
        id := id + 1;
      }
    }

    /** `addTask`: enqueue at the tail, or fail when the pool is not running. */
    method AddTask(t: P.TaskId) returns (r: P.Submission)
      requires Valid()
      modifies this
      ensures Valid()
      ensures (State(), r) == P.AddTask(old(State()), t)
    {
      if !run {
        return P.NotRunning;
      }
      tasks := tasks + [t];
      submitted := submitted + [t];
      r := P.Accepted(|tasks| == 1);
    }

    /** One iteration of worker `w`'s loop. */
    method WorkerStep(w: nat) returns (o: P.StepOutcome)
      requires w < |workers| && workers[w] == P.Idle
      modifies this
      ensures (State(), o) == P.WorkerStep(old(State()), w)
      ensures old(Valid()) ==> Valid()
    {
      if tasks != [] {
        var task := tasks[0];
        tasks := tasks[1..];
        // the task runs with the lock released
        executed := executed + [task];
        return P.Ran(task);
      }
      if !run {
        workers := workers[w := P.Terminated];
        return P.Exited;
      }
      o := P.Waiting;
    }

    /** Joining worker `w` of a stopped pool: its loop runs until it leaves. */
    method Join(w: nat)
      requires !run && w < |workers|
      modifies this
      ensures State() == P.RunWorker(old(State()), w)
    {
      while workers[w] == P.Idle
        invariant !run && w < |workers|
        invariant P.RunWorker(State(), w) == P.RunWorker(old(State()), w)
        decreases |tasks|, if workers[w] == P.Idle then 1 else 0
      {
        var outcome := WorkerStep(w);
      }
    }

    /** The join loop of `stop`: every worker is joined in turn. */
    method JoinWorkers()
      requires !run
      modifies this
      ensures State() == P.JoinAll(old(State()), 0)
    {
      for i := 0 to |workers|
        invariant !run && |workers| == |old(workers)|
        invariant P.JoinAll(State(), i) == P.JoinAll(old(State()), 0)
      {
        ghost var before := State();
        Join(i);
        assert P.JoinAll(before, i) == P.JoinAll(State(), i + 1);
      }
      assert P.JoinAll(State(), |workers|) == State();
    }

    /** `stop(immediate)`; a call without argument is an immediate stop. */
    method Stop(immediate: bool := true)
      requires Valid()
      modifies this
      ensures Valid()
      ensures State() == P.Stop(old(State()), immediate)
    {
      if !run {
        return;
      }
      if immediate {
        discarded := discarded + tasks;
        tasks := [];
      }
      run := false;
      assert State() == P.Signal(old(State()), immediate);
      JoinWorkers();
    }

    /** The destructor: a graceful stop. */
    method Destroy()
      requires Valid()
      modifies this
      ensures Valid()
      ensures State() == P.Stop(old(State()), false)
    {
      Stop(false);
    }
  }
}
