// The pool's circular task queue.
module TaskQueueRing {
  import Ring

  const TASK_QUEUE_CAP := 4096

  datatype PoolTask = PoolTask(func: nat, arg: int)

  datatype Outcome = Blocked | Refused | Done

  // One locked pass of a push and of a pop, on the pending tasks.
  function PushOutcome(pending: nat, shutdown: bool): Outcome {
    if shutdown then Refused else if pending == TASK_QUEUE_CAP then Blocked else Done
  }

  function PopOutcome(pending: nat, shutdown: bool): Outcome {
    if pending != 0 then Done else if shutdown then Refused else Blocked
  }

  class TaskQueue {
    const tasks: array<PoolTask>
    var head: nat
    var tail: nat
    var count: nat
    var shutdown: bool

    ghost predicate Valid()
      reads this, tasks
    {
      && tasks.Length == TASK_QUEUE_CAP
      && head < TASK_QUEUE_CAP && count <= TASK_QUEUE_CAP
      && tail == (head + count) % TASK_QUEUE_CAP
    }

    ghost function Pending(): seq<PoolTask>
      requires Valid()
      reads this, tasks
    {
      Ring.Contents(tasks[..], head, count, TASK_QUEUE_CAP)
    }

    constructor ()
      ensures Valid() && fresh(tasks) && Pending() == [] && !shutdown
    {
      tasks := new PoolTask[TASK_QUEUE_CAP](_ => PoolTask(0, 0));
      head, tail, count, shutdown := 0, 0, 0, false;
    }

    // One pass of tq_push: wait while full, refuse after shutdown, otherwise append.
    method PushPass(task: PoolTask) returns (outcome: Outcome)
      requires Valid()
      modifies this`tail, this`count, tasks
      ensures Valid()
      ensures outcome == PushOutcome(|old(Pending())|, shutdown)
      ensures outcome.Done? <==> !shutdown && old(count) < 4096
      ensures Pending() == if outcome.Done? then old(Pending()) + [task] else old(Pending())
    {
      if count == TASK_QUEUE_CAP && !shutdown { return Blocked; }
      if shutdown { return Refused; }
      ghost var before := tasks[..];
      Ring.Push(before, head, count, TASK_QUEUE_CAP, task);
      tasks[tail] := task;
      assert tasks[..] == before[tail := task];
      tail := (tail + 1) % TASK_QUEUE_CAP;
      count := count + 1;
      return Done;
    }

    // One pass of tq_pop: wait while empty, end after shutdown, otherwise remove the oldest task.
    method PopPass(default: PoolTask) returns (outcome: Outcome, task: PoolTask)
      requires Valid()
      modifies this`head, this`count
      ensures Valid()
      ensures outcome == PopOutcome(|old(Pending())|, shutdown)
      ensures outcome.Done? <==> old(count) > 0
      ensures if outcome.Done? then old(Pending()) == [task] + Pending() else Pending() == old(Pending())
    {
      task := default;
      if count == 0 && !shutdown { return Blocked, task; }
      if count == 0 && shutdown { return Refused, task; }
      Ring.Pop(tasks[..], head, count, TASK_QUEUE_CAP);
      task := tasks[head];
      head := (head + 1) % TASK_QUEUE_CAP;
      count := count - 1;
      return Done, task;
    }
  }
}
