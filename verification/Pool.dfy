// The thread pool: any number of submitting and shutting-down threads, and a fixed set of workers.
// The queue's lock is modelled, because shutdown sets its flag without taking it: every read of the
// flag is a step of its own, and the flag may change between two reads inside a critical section.
module PoolSystem {
  import opened TaskQueueRing

  type Tid = nat

  datatype Holder = Free | HeldByWorker(i: nat) | HeldByThread(t: Tid)

  // A worker inside tq_pop, then with the task it took. `k` is the task's place among the accepted ones.
  datatype WorkerPc =
    | WantLock
    | Testing                              // the wait condition of tq_pop
    | Guarding                             // the exit test after the wait
    | Taking
    | Got(task: PoolTask, k: nat)          // popped, not yet counted as active
    | Running(task: PoolTask, k: nat)
    | Ran(k: nat)
    | Exited

  datatype ThreadPc =
    | Idle
    | PushWantLock(task: PoolTask)
    | PushTesting(task: PoolTask)
    | PushGuarding(task: PoolTask)
    | PushStoring(task: PoolTask)
    | ShutSawAlive                         // about to clear `alive`
    | ShutCleared                          // about to set the queue's shutdown flag
    | ShutJoining
    | ShutDone
    | IdleWantPending                      // wait_idle, before its locked read of the queue's count
    | IdleReadActive(seen: nat)            // found it 0, when `seen` tasks had been accepted

  datatype Execution = Execution(worker: nat, task: PoolTask, k: nat)

  // What a submission returned: -1 with what it had read, or 0 with the place of its task.
  datatype Answer = Rejected(t: Tid, task: PoolTask) | Took(t: Tid, task: PoolTask, k: nat)

  datatype Pool = Pool(workers: seq<WorkerPc>, threads: map<Tid, ThreadPc>, holder: Holder,
                       queue: seq<PoolTask>, shutdown: bool, alive: bool, active: int,
                       accepted: seq<PoolTask>, popped: nat, executed: seq<Execution>, answers: seq<Answer>)

  datatype Action =
    | Submit(t: Tid, task: PoolTask)
    | Shutdown(t: Tid)
    | WaitIdle(t: Tid)
    | Proceed(t: Tid)
    | Work(i: nat)

  function Created(n: nat): Pool {
    Pool(seq(n, _ => WantLock), map[], Free, [], false, true, 0, [], 0, [], [])
  }

  function PcOf(s: Pool, t: Tid): ThreadPc { if t in s.threads then s.threads[t] else Idle }

  function Go(s: Pool, t: Tid, pc: ThreadPc): Pool { s.(threads := s.threads[t := pc]) }

  function WGo(s: Pool, i: nat, pc: WorkerPc): Pool
    requires i < |s.workers|
  {
    s.(workers := s.workers[i := pc])
  }

  function ThreadStep(s: Pool, t: Tid): Pool {
    match PcOf(s, t)
    case Idle => s
    case PushWantLock(task) =>
      if s.holder.Free? then s.(threads := s.threads[t := PushTesting(task)], holder := HeldByThread(t)) else s
    case PushTesting(task) =>
      if |s.queue| == TASK_QUEUE_CAP && !s.shutdown then
        s.(threads := s.threads[t := PushWantLock(task)], holder := Free)
      else Go(s, t, PushGuarding(task))
    case PushGuarding(task) =>
      if s.shutdown then s.(threads := s.threads[t := Idle], holder := Free, answers := s.answers + [Rejected(t, task)])
      else Go(s, t, PushStoring(task))
    case PushStoring(task) =>
      s.(threads := s.threads[t := Idle], holder := Free, queue := s.queue + [task], accepted := s.accepted + [task],
         answers := s.answers + [Took(t, task, |s.accepted|)])
    case ShutSawAlive => s.(threads := s.threads[t := ShutCleared], alive := false)
    case ShutCleared => s.(threads := s.threads[t := ShutJoining], shutdown := true)
    case ShutJoining => if (forall i | 0 <= i < |s.workers| :: s.workers[i].Exited?) then Go(s, t, ShutDone) else s
    case ShutDone => s
    case IdleWantPending =>
      if s.holder.Free? && s.queue == [] then Go(s, t, IdleReadActive(|s.accepted|)) else s
    case IdleReadActive(_) => Go(s, t, if s.active == 0 then Idle else IdleWantPending)
  }

  // A pop from an empty queue would read a stale cell; here it would leave the queue as it is.
  function WorkerStep(s: Pool, i: nat): Pool
    requires i < |s.workers|
  {
    match s.workers[i]
    case WantLock =>
      if s.holder.Free? then s.(workers := s.workers[i := Testing], holder := HeldByWorker(i)) else s
    case Testing =>
      if |s.queue| == 0 && !s.shutdown then s.(workers := s.workers[i := WantLock], holder := Free)
      else WGo(s, i, Guarding)
    case Guarding =>
      if |s.queue| == 0 && s.shutdown then s.(workers := s.workers[i := Exited], holder := Free)
      else WGo(s, i, Taking)
    case Taking =>
      if s.queue == [] then s.(workers := s.workers[i := Got(PoolTask(0, 0), s.popped)], holder := Free)
      else
        s.(workers := s.workers[i := Got(s.queue[0], s.popped)], holder := Free,
           queue := s.queue[1..], popped := s.popped + 1)
    case Got(task, k) => s.(workers := s.workers[i := Running(task, k)], active := s.active + 1)
    case Running(task, k) => s.(workers := s.workers[i := Ran(k)], executed := s.executed + [Execution(i, task, k)])
    case Ran(k) => s.(workers := s.workers[i := WantLock], active := s.active - 1)
    case Exited => s
  }

  function Do(s: Pool, a: Action): Pool {
    match a
    case Submit(t, task) =>
      if !PcOf(s, t).Idle? then s
      else if s.alive then Go(s, t, PushWantLock(task))
      else s.(answers := s.answers + [Rejected(t, task)])
    case Shutdown(t) => if PcOf(s, t).Idle? && s.alive then Go(s, t, ShutSawAlive) else s
    case WaitIdle(t) => if PcOf(s, t).Idle? then Go(s, t, IdleWantPending) else s
    case Proceed(t) => ThreadStep(s, t)
    case Work(i) => if i < |s.workers| then WorkerStep(s, i) else s
  }

  function Run(s: Pool, schedule: seq<Action>): Pool
    decreases |schedule|
  {
    if schedule == [] then s else Do(Run(s, schedule[..|schedule| - 1]), schedule[|schedule| - 1])
  }

  // ----- Counting -----

  function Holds(pc: WorkerPc, k: nat): nat { if (pc.Got? || pc.Running?) && pc.k == k then 1 else 0 }

  // How many workers have popped the task at place k and not yet run it.
  function InHand(ws: seq<WorkerPc>, k: nat): nat {
    if ws == [] then 0 else Holds(ws[0], k) + InHand(ws[1..], k)
  }

  function IsActive(pc: WorkerPc): nat { if pc.Running? || pc.Ran? then 1 else 0 }

  function Active(ws: seq<WorkerPc>): nat {
    if ws == [] then 0 else IsActive(ws[0]) + Active(ws[1..])
  }

  lemma {:induction false} InHandUpdate(ws: seq<WorkerPc>, i: nat, pc: WorkerPc, k: nat)
    requires i < |ws|
    ensures InHand(ws[i := pc], k) + Holds(ws[i], k) == InHand(ws, k) + Holds(pc, k)
  {
    if i == 0 {
      assert ws[i := pc][1..] == ws[1..];
    } else {
      assert ws[i := pc][1..] == ws[1..][i - 1 := pc];
      InHandUpdate(ws[1..], i - 1, pc, k);
    }
  }

  lemma {:induction false} ActiveUpdate(ws: seq<WorkerPc>, i: nat, pc: WorkerPc)
    requires i < |ws|
    ensures Active(ws[i := pc]) + IsActive(ws[i]) == Active(ws) + IsActive(pc)
  {
    if i == 0 {
      assert ws[i := pc][1..] == ws[1..];
    } else {
      assert ws[i := pc][1..] == ws[1..][i - 1 := pc];
      ActiveUpdate(ws[1..], i - 1, pc);
    }
  }

  function Places(e: seq<Execution>): (r: seq<nat>)
    ensures |r| == |e|
  {
    seq(|e|, i requires 0 <= i < |e| => e[i].k)
  }

  function TasksRun(e: seq<Execution>): (r: seq<PoolTask>)
    ensures |r| == |e|
  {
    seq(|e|, i requires 0 <= i < |e| => e[i].task)
  }

  // How many times the task at place k has been run.
  function Runs(e: seq<Execution>, k: nat): nat { multiset(Places(e))[k] }

  // ----- What every step keeps -----

  ghost predicate WorkerOk(s: Pool, i: nat, pc: WorkerPc) {
    && (s.holder == HeldByWorker(i) <==> pc.Testing? || pc.Guarding? || pc.Taking?)
    && (pc.Guarding? ==> s.queue != [] || s.shutdown)
    && (pc.Taking? ==> s.queue != [])
    && (pc.Got? || pc.Running? ==> pc.k < s.popped <= |s.accepted| && pc.task == s.accepted[pc.k])
    && (pc.Exited? ==> s.shutdown && s.queue == [])
  }

  ghost predicate ThreadOk(s: Pool, t: Tid, pc: ThreadPc) {
    && (s.holder == HeldByThread(t) <==> pc.PushTesting? || pc.PushGuarding? || pc.PushStoring?)
    && (pc.PushGuarding? ==> |s.queue| < TASK_QUEUE_CAP || s.shutdown)
    && (pc.PushStoring? ==> |s.queue| < TASK_QUEUE_CAP && forall i | 0 <= i < |s.workers| :: !s.workers[i].Exited?)
    && (pc.ShutJoining? ==> s.shutdown)
    && (pc.ShutDone? ==> forall i | 0 <= i < |s.workers| :: s.workers[i].Exited?)
    && (pc.IdleReadActive? ==> pc.seen <= s.popped)
  }

  ghost predicate QueueOk(s: Pool) {
    && s.popped <= |s.accepted| && s.queue == s.accepted[s.popped..] && |s.queue| <= TASK_QUEUE_CAP
    && (s.holder.HeldByWorker? ==> s.holder.i < |s.workers|)
    && (s.holder.HeldByThread? ==> s.holder.t in s.threads)
  }

  ghost predicate WorkersOk(s: Pool) { forall i | 0 <= i < |s.workers| :: WorkerOk(s, i, s.workers[i]) }

  ghost predicate ThreadsOk(s: Pool) { forall t | t in s.threads :: ThreadOk(s, t, s.threads[t]) }

  // Conservation: the tasks popped so far are those run and those in the hands of workers.
  ghost predicate CountsOk(s: Pool) {
    && (forall k: nat :: Runs(s.executed, k) + InHand(s.workers, k) == if k < s.popped then 1 else 0)
    && s.active == Active(s.workers)
  }

  ghost predicate ExecutedOk(s: Pool) {
    forall x | 0 <= x < |s.executed| ::
      s.executed[x].k < s.popped <= |s.accepted| && s.executed[x].task == s.accepted[s.executed[x].k]
  }

  ghost predicate Inv(s: Pool) { QueueOk(s) && WorkersOk(s) && ThreadsOk(s) && CountsOk(s) && ExecutedOk(s) }

  // Steps of submitting and shutting-down threads

  lemma ThreadQueueOk(s: Pool, t: Tid)
    requires QueueOk(s) && ThreadsOk(s)
    ensures QueueOk(ThreadStep(s, t))
  {
    if t in s.threads { assert ThreadOk(s, t, s.threads[t]); }
  }

  lemma ThreadHistory(s: Pool, t: Tid)
    ensures s.accepted <= ThreadStep(s, t).accepted
    ensures ThreadStep(s, t).executed == s.executed && ThreadStep(s, t).active == s.active
  {
  }

  lemma ThreadQueue(s: Pool, t: Tid)
    requires QueueOk(s) && ThreadsOk(s)
    ensures QueueOk(ThreadStep(s, t))
    ensures s.accepted <= ThreadStep(s, t).accepted && ThreadStep(s, t).popped == s.popped
    ensures ThreadStep(s, t).workers == s.workers && ThreadStep(s, t).executed == s.executed
    ensures ThreadStep(s, t).active == s.active
    ensures s.shutdown ==> ThreadStep(s, t).shutdown
  {
    hide ThreadStep, QueueOk, ThreadsOk;
    ThreadQueueOk(s, t);
    ThreadHistory(s, t);
    ThreadFrame(s, t);
  }

  lemma ThreadWorkers(s: Pool, t: Tid)
    requires QueueOk(s) && ThreadsOk(s) && WorkersOk(s)
    ensures WorkersOk(ThreadStep(s, t))
  {
    ThreadQueue(s, t);
    var s' := ThreadStep(s, t);
    if t in s.threads { assert ThreadOk(s, t, s.threads[t]); }
    forall i | 0 <= i < |s.workers| ensures WorkerOk(s', i, s'.workers[i]) { assert WorkerOk(s, i, s.workers[i]); }
  }

  // What everybody else can see of a thread's step: only the holder of the lock touches the queue.
  lemma ThreadFrame(s: Pool, t: Tid)
    ensures var s' := ThreadStep(s, t);
            && s'.workers == s.workers && s'.popped == s.popped && (s.shutdown ==> s'.shutdown)
            && (PcOf(s, t).PushStoring? || s'.accepted == s.accepted)
  {
  }

  lemma ThreadMapFrame(s: Pool, t: Tid, u: Tid)
    requires u != t
    ensures (u in ThreadStep(s, t).threads <==> u in s.threads) && PcOf(ThreadStep(s, t), u) == PcOf(s, u)
  {
  }

  lemma ThreadLock(s: Pool, t: Tid)
    requires ThreadsOk(s)
    ensures var s' := ThreadStep(s, t);
            && (s.holder.HeldByThread? && s.holder.t != t ==> s'.holder == s.holder && s'.queue == s.queue)
            && (s'.holder.HeldByThread? ==> s'.holder.t == t || s'.holder == s.holder)
  {
    if t in s.threads { assert ThreadOk(s, t, s.threads[t]); }
  }

  lemma OwnThread(s: Pool, t: Tid)
    requires QueueOk(s) && ThreadsOk(s) && WorkersOk(s) && t in s.threads
    ensures t in ThreadStep(s, t).threads && ThreadOk(ThreadStep(s, t), t, ThreadStep(s, t).threads[t])
  {
    assert ThreadOk(s, t, s.threads[t]);
    forall i | 0 <= i < |s.workers| && s.workers[i].Exited? ensures s.shutdown { assert WorkerOk(s, i, s.workers[i]); }
  }

  lemma OtherThread(s: Pool, t: Tid, u: Tid)
    requires ThreadsOk(s) && u != t && u in s.threads
    ensures u in ThreadStep(s, t).threads && ThreadOk(ThreadStep(s, t), u, ThreadStep(s, t).threads[u])
  {
    hide ThreadStep;
    ThreadFrame(s, t);
    ThreadMapFrame(s, t, u);
    ThreadLock(s, t);
    assert ThreadOk(s, u, s.threads[u]);
  }

  lemma ThreadThreads(s: Pool, t: Tid)
    requires QueueOk(s) && ThreadsOk(s) && WorkersOk(s)
    ensures ThreadsOk(ThreadStep(s, t))
  {
    hide ThreadStep, ThreadOk, QueueOk, WorkersOk;
    var s' := ThreadStep(s, t);
    forall u | u in s'.threads ensures ThreadOk(s', u, s'.threads[u]) {
      if u != t {
        ThreadMapFrame(s, t, u);
        OtherThread(s, t, u);
      } else if t in s.threads {
        OwnThread(s, t);
      } else {
        NoThread(s, t);
      }
    }
  }

  lemma NoThread(s: Pool, t: Tid)
    requires t !in s.threads
    ensures ThreadStep(s, t) == s
  {
  }

  lemma ThreadInv(s: Pool, t: Tid)
    requires Inv(s)
    ensures Inv(ThreadStep(s, t))
  {
    ThreadQueue(s, t);
    ThreadWorkers(s, t);
    ThreadThreads(s, t);
  }

  // Steps of workers

  lemma WorkerQueue(s: Pool, i: nat)
    requires QueueOk(s) && i < |s.workers| && WorkerOk(s, i, s.workers[i])
    ensures QueueOk(WorkerStep(s, i))
    ensures WorkerStep(s, i).accepted == s.accepted && s.popped <= WorkerStep(s, i).popped
    ensures s.workers[i].Taking? ==> s.queue != [] && s.queue[0] == s.accepted[s.popped]
  {
    if s.workers[i].Taking? { assert s.accepted[s.popped..][0] == s.accepted[s.popped]; }
  }

  // The part of a worker's step that the counts depend on.
  lemma WorkerEffect(s: Pool, i: nat)
    requires i < |s.workers| && WorkerOk(s, i, s.workers[i])
    ensures var s' := WorkerStep(s, i);
            var pc, pc' := s.workers[i], s'.workers[i];
            if pc.Running? then
              && s'.executed == s.executed + [Execution(i, pc.task, pc.k)] && s'.popped == s.popped
              && !pc'.Got? && !pc'.Running?
            else if pc.Taking? then
              s'.executed == s.executed && s'.popped == s.popped + 1 && pc'.Got? && pc'.k == s.popped
            else
              s'.executed == s.executed && s'.popped == s.popped && forall k :: Holds(pc', k) == Holds(pc, k)
  {
  }

  lemma WorkerActive(s: Pool, i: nat)
    requires i < |s.workers|
    ensures WorkerStep(s, i).active - s.active == IsActive(WorkerStep(s, i).workers[i]) - IsActive(s.workers[i])
  {
  }

  lemma WorkerCounts(s: Pool, i: nat)
    requires CountsOk(s) && i < |s.workers| && WorkerOk(s, i, s.workers[i])
    ensures CountsOk(WorkerStep(s, i))
  {
    hide WorkerStep;
    WorkerSeats(s, i);
    WorkerEffect(s, i);
    WorkerActive(s, i);
    var s' := WorkerStep(s, i);
    var pc, pc' := s.workers[i], s'.workers[i];
    ActiveUpdate(s.workers, i, pc');
    if pc.Running? { assert Places(s'.executed) == Places(s.executed) + [pc.k]; }
    forall k: nat ensures Runs(s'.executed, k) + InHand(s'.workers, k) == if k < s'.popped then 1 else 0 {
      InHandUpdate(s.workers, i, pc', k);
      assert Runs(s.executed, k) + InHand(s.workers, k) == if k < s.popped then 1 else 0;
    }
  }

  lemma WorkerExecuted(s: Pool, i: nat)
    requires QueueOk(s) && ExecutedOk(s) && i < |s.workers| && WorkerOk(s, i, s.workers[i])
    ensures ExecutedOk(WorkerStep(s, i))
  {
    WorkerQueue(s, i);
  }

  lemma WorkerPcs(s: Pool, i: nat)
    requires QueueOk(s) && WorkersOk(s) && i < |s.workers|
    ensures WorkersOk(WorkerStep(s, i))
  {
    hide WorkerOk, WorkerStep, QueueOk;
    var s' := WorkerStep(s, i);
    assert WorkerOk(s, i, s.workers[i]);
    OwnPc(s, i);
    forall j | 0 <= j < |s.workers| && j != i ensures WorkerOk(s', j, s'.workers[j]) {
      assert WorkerOk(s, j, s.workers[j]);
      OtherPc(s, i, j);
    }
  }

  lemma OwnPc(s: Pool, i: nat)
    requires QueueOk(s) && i < |s.workers| && WorkerOk(s, i, s.workers[i])
    ensures |WorkerStep(s, i).workers| == |s.workers|
    ensures WorkerOk(WorkerStep(s, i), i, WorkerStep(s, i).workers[i])
  {
    WorkerQueue(s, i);
  }

  lemma WorkerSeats(s: Pool, i: nat)
    requires i < |s.workers|
    ensures var s' := WorkerStep(s, i);
            && |s'.workers| == |s.workers| && s'.workers == s.workers[i := s'.workers[i]]
            && (s.workers[i].Exited? ==> s'.workers[i].Exited?)
  {
  }

  lemma WorkerGivens(s: Pool, i: nat)
    requires i < |s.workers|
    ensures WorkerStep(s, i).accepted == s.accepted && WorkerStep(s, i).shutdown == s.shutdown
  {
  }

  // What another worker can see of the step: only the holder of the lock touches the queue.
  lemma WorkerFrame(s: Pool, i: nat)
    requires QueueOk(s) && i < |s.workers| && WorkerOk(s, i, s.workers[i])
    ensures var s' := WorkerStep(s, i);
            && (s.queue == [] ==> s'.queue == [])
            && (s.holder.HeldByWorker? && s.holder.i != i ==> s'.holder == s.holder && s'.queue == s.queue)
            && (s'.holder.HeldByWorker? ==> s'.holder.i == i || s'.holder == s.holder)
  {
  }

  lemma OtherPc(s: Pool, i: nat, j: nat)
    requires QueueOk(s) && i < |s.workers| && WorkerOk(s, i, s.workers[i])
    requires j < |s.workers| && j != i && WorkerOk(s, j, s.workers[j])
    ensures |WorkerStep(s, i).workers| == |s.workers| && WorkerStep(s, i).workers[j] == s.workers[j]
    ensures WorkerOk(WorkerStep(s, i), j, s.workers[j])
  {
    hide WorkerStep;
    WorkerSeats(s, i);
    WorkerGivens(s, i);
    WorkerFrame(s, i);
    WorkerQueue(s, i);
  }

  // What a thread can see of the step.
  lemma WorkerLock(s: Pool, i: nat)
    requires i < |s.workers| && WorkerOk(s, i, s.workers[i])
    ensures var s' := WorkerStep(s, i);
            && s'.threads == s.threads && |s'.queue| <= |s.queue|
            && (s.holder.HeldByThread? <==> s'.holder.HeldByThread?)
            && (s.holder.HeldByThread? ==> s'.holder == s.holder)
            && (s'.workers[i].Exited? ==> s.workers[i].Exited? || s.workers[i].Guarding?)
  {
  }

  lemma WorkerThreads(s: Pool, i: nat)
    requires QueueOk(s) && ThreadsOk(s) && i < |s.workers| && WorkerOk(s, i, s.workers[i])
    ensures ThreadsOk(WorkerStep(s, i))
  {
    hide WorkerStep;
    var s' := WorkerStep(s, i);
    WorkerQueue(s, i);
    WorkerSeats(s, i);
    WorkerGivens(s, i);
    WorkerLock(s, i);
    forall t | t in s'.threads ensures ThreadOk(s', t, s'.threads[t]) {
      assert ThreadOk(s, t, s.threads[t]);
      assert s.threads[t].ShutDone? ==> s.workers[i].Exited?;
    }
  }

  lemma WorkerInv(s: Pool, i: nat)
    requires Inv(s) && i < |s.workers|
    ensures Inv(WorkerStep(s, i))
  {
    assert WorkerOk(s, i, s.workers[i]);
    WorkerQueue(s, i);
    WorkerPcs(s, i);
    WorkerThreads(s, i);
    WorkerCounts(s, i);
    WorkerExecuted(s, i);
  }

  lemma CallInv(s: Pool, t: Tid, pc: ThreadPc)
    requires Inv(s) && (pc.PushWantLock? || pc.ShutSawAlive? || pc.IdleWantPending?) && PcOf(s, t).Idle?
    ensures Inv(Go(s, t, pc))
  {
    var s' := Go(s, t, pc);
    if t in s.threads { assert ThreadOk(s, t, s.threads[t]); }
    forall i | 0 <= i < |s.workers| ensures WorkerOk(s', i, s'.workers[i]) { assert WorkerOk(s, i, s.workers[i]); }
    forall u | u in s'.threads ensures ThreadOk(s', u, s'.threads[u]) {
      if u in s.threads { assert ThreadOk(s, u, s.threads[u]); }
    }
  }

  lemma StepInv(s: Pool, a: Action)
    requires Inv(s)
    ensures Inv(Do(s, a))
  {
    match a
    case Submit(t, task) =>
      if PcOf(s, t).Idle? && s.alive { CallInv(s, t, PushWantLock(task)); }
    case Shutdown(t) =>
      if PcOf(s, t).Idle? && s.alive { CallInv(s, t, ShutSawAlive); }
    case WaitIdle(t) =>
      if PcOf(s, t).Idle? { CallInv(s, t, IdleWantPending); }
    case Proceed(t) =>
      ThreadInv(s, t);
    case Work(i) =>
      if i < |s.workers| { WorkerInv(s, i); }
  }

  lemma SameWorkers(s: Pool, a: Action)
    ensures |Do(s, a).workers| == |s.workers|
  {
    hide ThreadStep, WorkerStep;
    match a
    case Proceed(t) => ThreadFrame(s, t);
    case Work(i) => if i < |s.workers| { WorkerSeats(s, i); }
    case _ =>
  }

  lemma {:induction false} RunInv(s: Pool, schedule: seq<Action>)
    requires Inv(s)
    ensures Inv(Run(s, schedule)) && |Run(s, schedule).workers| == |s.workers|
    decreases |schedule|
  {
    if schedule != [] {
      RunInv(s, schedule[..|schedule| - 1]);
      StepInv(Run(s, schedule[..|schedule| - 1]), schedule[|schedule| - 1]);
      SameWorkers(Run(s, schedule[..|schedule| - 1]), schedule[|schedule| - 1]);
    }
  }

  lemma {:induction false} CreatedInv(n: nat)
    ensures Inv(Created(n))
  {
    NothingHeld(Created(n).workers);
  }

  lemma {:induction false} NothingHeld(ws: seq<WorkerPc>)
    requires forall i | 0 <= i < |ws| :: !ws[i].Got? && IsActive(ws[i]) == 0
    ensures Active(ws) == 0 && forall k :: InHand(ws, k) == 0
  {
    if ws != [] { NothingHeld(ws[1..]); }
  }

  // ----- What holds of every schedule -----

  // No accepted task is run twice, by one worker or by two, and only accepted tasks are run.
  lemma {:induction false} AtMostOnce(n: nat, schedule: seq<Action>, i: nat, j: nat)
    requires i < j < |Run(Created(n), schedule).executed|
    ensures var s := Run(Created(n), schedule);
            && s.executed[i].k != s.executed[j].k
            && s.executed[i].k < |s.accepted| && s.executed[i].task == s.accepted[s.executed[i].k]
  {
    CreatedInv(n);
    RunInv(Created(n), schedule);
    var s := Run(Created(n), schedule);
    var ps: seq<nat> := Places(s.executed);
    assert Runs(s.executed, ps[i]) + InHand(s.workers, ps[i]) <= 1;
    if s.executed[i].k == s.executed[j].k {
      TwiceIn(ps, i, j);
      assert false;
    }
  }

  lemma TwiceIn(ps: seq<nat>, i: nat, j: nat)
    requires i < j < |ps| && ps[i] == ps[j]
    ensures multiset(ps)[ps[i]] >= 2
  {
    assert ps == ps[..j] + ps[j..];
    assert ps[..j][i] in ps[..j] && ps[j..][0] in ps[j..];
  }

  // A worker exits only from an empty queue that has been shut down, and never pops an empty one,
  // though the flag is set without the lock.
  lemma {:induction false} ExitsOnlyWhenDrained(n: nat, schedule: seq<Action>, i: nat)
    requires i < n
    ensures var s := Run(Created(n), schedule);
            && |s.workers| == n
            && (s.workers[i].Exited? ==> s.queue == [] && s.shutdown)
            && (s.workers[i].Taking? ==> s.queue != [])
  {
    CreatedInv(n);
    RunInv(Created(n), schedule);
    var s := Run(Created(n), schedule);
    assert WorkerOk(s, i, s.workers[i]);
  }

  // Once any worker has exited nothing more is ever accepted.
  lemma {:induction false} NothingAcceptedAfterExit(s: Pool, i: nat, more: seq<Action>)
    requires Inv(s) && i < |s.workers| && s.workers[i].Exited?
    ensures Run(s, more).accepted == s.accepted
    ensures |Run(s, more).workers| == |s.workers| && Run(s, more).workers[i].Exited?
    decreases |more|
  {
    if more != [] {
      var before := more[..|more| - 1];
      NothingAcceptedAfterExit(s, i, before);
      RunInv(s, before);
      OneStepAfterExit(Run(s, before), i, more[|more| - 1]);
    }
  }

  lemma OneStepAfterExit(s: Pool, i: nat, a: Action)
    requires ThreadsOk(s) && i < |s.workers| && s.workers[i].Exited?
    ensures Do(s, a).accepted == s.accepted && |Do(s, a).workers| == |s.workers| && Do(s, a).workers[i].Exited?
  {
    hide ThreadStep, WorkerStep;
    match a
    case Proceed(t) =>
      ThreadFrame(s, t);
      if t in s.threads { assert ThreadOk(s, t, s.threads[t]); }
    case Work(j) => if j < |s.workers| { WorkerSeats(s, j); WorkerGivens(s, j); }
    case _ =>
  }

  // When all workers have exited, every accepted task has been run exactly once.
  lemma {:induction false} DrainedExactlyOnce(n: nat, schedule: seq<Action>)
    requires n > 0
    requires forall w | w in Run(Created(n), schedule).workers :: w.Exited?
    ensures var s := Run(Created(n), schedule);
            && (forall k | 0 <= k < |s.accepted| :: Runs(s.executed, k) == 1)
            && multiset(TasksRun(s.executed)) == multiset(s.accepted)
  {
    CreatedInv(n);
    RunInv(Created(n), schedule);
    AllExited(Run(Created(n), schedule));
  }

  lemma AllExited(s: Pool)
    requires Inv(s) && s.workers != [] && forall w | w in s.workers :: w.Exited?
    ensures forall k | 0 <= k < |s.accepted| :: Runs(s.executed, k) == 1
    ensures multiset(TasksRun(s.executed)) == multiset(s.accepted)
  {
    assert s.workers[0] in s.workers && WorkerOk(s, 0, s.workers[0]);
    assert s.popped == |s.accepted|;
    assert forall i | 0 <= i < |s.workers| :: s.workers[i] in s.workers;
    NothingHeld(s.workers);
    var ps: seq<nat> := Places(s.executed);
    forall k: nat ensures multiset(ps)[k] == if k < |s.accepted| then 1 else 0 {
      assert Runs(s.executed, k) + InHand(s.workers, k) == if k < s.popped then 1 else 0;
    }
    assert EachOnce(ps, |s.accepted|);
    SelectAll(ps, s.accepted, TasksRun(s.executed));
  }

  // A shutdown call that has returned from its joins leaves nothing undone.
  lemma {:induction false} ShutdownDrains(n: nat, schedule: seq<Action>, t: Tid)
    requires n > 0 && PcOf(Run(Created(n), schedule), t).ShutDone?
    ensures var s := Run(Created(n), schedule);
            multiset(TasksRun(s.executed)) == multiset(s.accepted)
  {
    CreatedInv(n);
    RunInv(Created(n), schedule);
    var s := Run(Created(n), schedule);
    assert ThreadOk(s, t, s.threads[t]);
    DrainedExactlyOnce(n, schedule);
  }

  lemma {:induction false} SelectAll<T>(ps: seq<nat>, all: seq<T>, picked: seq<T>)
    requires |picked| == |ps| && EachOnce(ps, |all|)
    requires forall i | 0 <= i < |ps| :: ps[i] < |all| && picked[i] == all[ps[i]]
    ensures multiset(picked) == multiset(all)
    decreases |all|
  {
    hide EachOnce, Dropped;
    if all == [] {
      NoneOnce(ps);
    } else {
      var p := PlaceOf(ps, |all|);
      OneLess(ps, p, |all|);
      DroppedLength<nat>(ps, p);
      DroppedLength(picked, p);
      RestBelow(ps, all, picked, p);
      SelectAll(Dropped<nat>(ps, p), all[..|all| - 1], Dropped(picked, p));
      WithoutOne(picked, p);
      SameBags(all, picked, Dropped(picked, p));
    }
  }

  // The numbers below n, each exactly once, in any order.
  ghost predicate EachOnce(ps: seq<nat>, n: nat) {
    forall k: nat :: multiset(ps)[k] == if k < n then 1 else 0
  }

  lemma NoneOnce(ps: seq<nat>)
    requires EachOnce(ps, 0)
    ensures ps == []
  {
    var bag: multiset<nat> := multiset(ps);
    assert bag == multiset{};
    assert |bag| == |ps|;
  }

  lemma PlaceOf(ps: seq<nat>, n: nat) returns (p: nat)
    requires n > 0 && EachOnce(ps, n)
    ensures p < |ps| && ps[p] == n - 1
  {
    var last: nat := n - 1;
    assert multiset(ps)[last] == 1;
    assert last in ps;
    p :| p < |ps| && ps[p] == last;
  }

  lemma OneLess(ps: seq<nat>, p: nat, n: nat)
    requires n > 0 && EachOnce(ps, n) && p < |ps| && ps[p] == n - 1
    ensures EachOnce(Dropped<nat>(ps, p), n - 1)
  {
    hide Dropped;
    WithoutOne<nat>(ps, p);
    var rest: seq<nat> := Dropped<nat>(ps, p);
    forall k: nat ensures multiset(rest)[k] == if k < n - 1 then 1 else 0 {
      assert multiset(ps)[k] == multiset(rest)[k] + if k == ps[p] then 1 else 0;
    }
  }

  function Dropped<T>(xs: seq<T>, p: nat): seq<T>
    requires p < |xs|
  {
    xs[..p] + xs[p + 1..]
  }

  lemma DroppedLength<T>(xs: seq<T>, p: nat)
    requires p < |xs|
    ensures |Dropped(xs, p)| == |xs| - 1
  {
  }

  lemma RestBelow<T>(ps: seq<nat>, all: seq<T>, picked: seq<T>, p: nat)
    requires |picked| == |ps| && p < |ps| && ps[p] == |all| - 1
    requires forall i | 0 <= i < |ps| :: ps[i] < |all| && picked[i] == all[ps[i]]
    requires EachOnce(Dropped<nat>(ps, p), |all| - 1)
    ensures |Dropped(picked, p)| == |Dropped<nat>(ps, p)|
    ensures forall i | 0 <= i < |Dropped<nat>(ps, p)| ::
              Dropped<nat>(ps, p)[i] < |all| - 1 && Dropped(picked, p)[i] == all[..|all| - 1][Dropped<nat>(ps, p)[i]]
  {
    var rest: seq<nat> := Dropped<nat>(ps, p);
    forall i | 0 <= i < |rest| ensures rest[i] < |all| - 1 && rest[i] == if i < p then ps[i] else ps[i + 1] {
      assert rest[i] in multiset(rest);
    }
  }

  lemma SameBags<T>(all: seq<T>, picked: seq<T>, rest: seq<T>)
    requires all != [] && multiset(rest) == multiset(all[..|all| - 1])
    requires multiset(picked) == multiset(rest) + multiset{all[|all| - 1]}
    ensures multiset(picked) == multiset(all)
  {
    assert all == all[..|all| - 1] + [all[|all| - 1]];
  }

  lemma WithoutOne<T>(xs: seq<T>, p: nat)
    requires p < |xs|
    ensures multiset(xs) == multiset(Dropped(xs, p)) + multiset{xs[p]}
  {
    assert xs == xs[..p] + [xs[p]] + xs[p + 1..];
  }

  // ----- Waiting for an idle pool -----

  // The call returns from its second read.
  predicate Returns(s: Pool, t: Tid) { PcOf(s, t).IdleReadActive? && PcOf(ThreadStep(s, t), t).Idle? }

  // wait_idle reads the queue's count and, later, the number of active tasks. When it returns, every task
  // accepted before the first read has been run, exactly once, if and only if no worker holds such a task
  // between its pop and its count; tasks accepted later it says nothing about.
  lemma {:induction false} WaitIdleIff(n: nat, schedule: seq<Action>, t: Tid)
    requires Returns(Run(Created(n), schedule), t)
    ensures var s := Run(Created(n), schedule);
            var seen := PcOf(s, t).seen;
            && seen <= |s.accepted|
            && ((forall k | 0 <= k < seen :: Runs(s.executed, k) == 1)
                <==> forall i | 0 <= i < |s.workers| && s.workers[i].Got? :: s.workers[i].k >= seen)
  {
    CreatedInv(n);
    RunInv(Created(n), schedule);
    var s := Run(Created(n), schedule);
    assert ThreadOk(s, t, s.threads[t]);
    RunUnlessGot(s, PcOf(s, t).seen);
  }

  // What `seen` stands for: the pending read found nothing queued, so all that was accepted had been popped.
  lemma PendingRead(s: Pool, t: Tid)
    requires Inv(s) && PcOf(s, t).IdleWantPending? && PcOf(ThreadStep(s, t), t).IdleReadActive?
    ensures PcOf(ThreadStep(s, t), t).seen == |s.accepted| == s.popped
  {
  }

  lemma RunUnlessGot(s: Pool, seen: nat)
    requires Inv(s) && s.active == 0 && seen <= s.popped
    ensures (forall k | 0 <= k < seen :: Runs(s.executed, k) == 1)
            <==> forall i | 0 <= i < |s.workers| && s.workers[i].Got? :: s.workers[i].k >= seen
  {
    NoneActive(s.workers);
    forall k: nat | k < seen ensures Runs(s.executed, k) + InHand(s.workers, k) == 1 {}
    if (forall i | 0 <= i < |s.workers| && s.workers[i].Got? :: s.workers[i].k >= seen) {
      forall k: nat | k < seen ensures InHand(s.workers, k) == 0 { NotInHand(s.workers, k); }
    } else {
      var i :| 0 <= i < |s.workers| && s.workers[i].Got? && s.workers[i].k < seen;
      var k := s.workers[i].k;
      InHandUpdate(s.workers, i, WantLock, k);
      assert Runs(s.executed, k) + InHand(s.workers, k) == 1;
    }
  }

  lemma {:induction false} NotInHand(ws: seq<WorkerPc>, k: nat)
    requires forall i | 0 <= i < |ws| :: Holds(ws[i], k) == 0
    ensures InHand(ws, k) == 0
  {
    if ws != [] { NotInHand(ws[1..], k); }
  }

  // At one moment: a pool with an empty queue and no active task.
  predicate LooksIdle(s: Pool) { s.queue == [] && s.active == 0 }

  // An idle-looking pool has run everything it accepted exactly when no worker stands between its pop and its count.
  lemma {:induction false} IdleIffNoneJustPopped(n: nat, schedule: seq<Action>)
    requires LooksIdle(Run(Created(n), schedule))
    ensures var s := Run(Created(n), schedule);
            (forall k | 0 <= k < |s.accepted| :: Runs(s.executed, k) == 1)
            <==> forall i | 0 <= i < |s.workers| :: !s.workers[i].Got?
  {
    CreatedInv(n);
    RunInv(Created(n), schedule);
    var s := Run(Created(n), schedule);
    RunUnlessGot(s, s.popped);
    forall i | 0 <= i < |s.workers| && s.workers[i].Got? ensures s.workers[i].k < s.popped {
      assert WorkerOk(s, i, s.workers[i]);
    }
  }

  // The window is real: wait_idle returns although a task accepted before it was called has been popped
  // and not run.
  lemma {:induction false} IdleTooEarly(task: PoolTask) returns (schedule: seq<Action>)
    ensures var s := Run(Created(1), schedule);
            && Returns(s, 1) && PcOf(s, 1).seen == 1
            && LooksIdle(s) && s.accepted == [task] && s.executed == []
  {
    hide Do, Run, Returns;
    var s0 := Created(1);
    var pushed := s0.(threads := map[0 := Idle], queue := [task], accepted := [task], answers := [Took(0, task, 0)]);
    PushRuns(task);
    PopRuns(pushed, task);
    WaitRuns(pushed.(workers := [Got(task, 0)], queue := [], popped := 1), task);
    var a := [Submit(0, task), Proceed(0), Proceed(0), Proceed(0), Proceed(0)];
    var b := a + [Work(0)];
    var c := b + [Work(0)];
    var d := c + [Work(0)];
    var e := d + [Work(0)];
    var f := e + [WaitIdle(1)];
    RunMore(s0, a, Work(0));
    RunMore(s0, b, Work(0));
    RunMore(s0, c, Work(0));
    RunMore(s0, d, Work(0));
    RunMore(s0, e, WaitIdle(1));
    RunMore(s0, f, Proceed(1));
    schedule := f + [Proceed(1)];
  }

  lemma WaitRuns(s: Pool, task: PoolTask)
    requires s.holder.Free? && s.queue == [] && s.active == 0 && |s.accepted| == 1 && 1 !in s.threads
    ensures var s' := Do(Do(s, WaitIdle(1)), Proceed(1));
            && s' == s.(threads := s.threads[1 := IdleReadActive(1)])
            && Returns(s', 1) && PcOf(s', 1).seen == 1
  {
  }

  lemma PushRuns(task: PoolTask)
    ensures Run(Created(1), [Submit(0, task), Proceed(0), Proceed(0), Proceed(0), Proceed(0)])
         == Created(1).(threads := map[0 := Idle], queue := [task], accepted := [task],
                        answers := [Took(0, task, 0)])
  {
    var s0 := Created(1);
    var push := [Submit(0, task), Proceed(0), Proceed(0), Proceed(0), Proceed(0)];
    var t1 := Do(Do(s0, push[0]), push[1]);
    assert t1.threads == map[0 := PushTesting(task)] && t1.holder == HeldByThread(0);
    var t2 := Do(Do(t1, push[2]), push[3]);
    assert t2.threads == map[0 := PushStoring(task)];
    assert Do(t2, push[4])
        == s0.(threads := map[0 := Idle], queue := [task], accepted := [task], answers := [Took(0, task, 0)]);
    RunFive(s0, push);
  }

  lemma PopRuns(s: Pool, task: PoolTask)
    requires s.workers == [WantLock] && s.holder.Free? && s.queue == [task] && s.popped == 0
    ensures Do(Do(Do(Do(s, Work(0)), Work(0)), Work(0)), Work(0))
         == s.(workers := [Got(task, 0)], queue := [], popped := 1)
  {
    var w := Do(Do(s, Work(0)), Work(0));
    assert w == s.(workers := [Guarding], holder := HeldByWorker(0));
  }

  lemma {:induction false} RunMore(s: Pool, schedule: seq<Action>, a: Action)
    ensures Run(s, schedule + [a]) == Do(Run(s, schedule), a)
  {
    assert (schedule + [a])[..|schedule|] == schedule;
  }

  lemma RunFive(s: Pool, a: seq<Action>)
    requires |a| == 5
    ensures Run(s, a) == Do(Do(Do(Do(Do(s, a[0]), a[1]), a[2]), a[3]), a[4])
  {
    RunMore(s, [], a[0]);
    RunMore(s, [] + [a[0]], a[1]);
    RunMore(s, [] + [a[0]] + [a[1]], a[2]);
    RunMore(s, [] + [a[0]] + [a[1]] + [a[2]], a[3]);
    RunMore(s, [] + [a[0]] + [a[1]] + [a[2]] + [a[3]], a[4]);
    assert [] + [a[0]] + [a[1]] + [a[2]] + [a[3]] + [a[4]] == a;
  }

  lemma {:induction false} NoneActive(ws: seq<WorkerPc>)
    requires Active(ws) == 0
    ensures forall i | 0 <= i < |ws| :: IsActive(ws[i]) == 0
  {
    if ws != [] {
      NoneActive(ws[1..]);
      assert forall i | 0 < i < |ws| :: ws[i] == ws[1..][i - 1];
    }
  }
}
