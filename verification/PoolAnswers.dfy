// What the calls on a pool answer, and how it ends: the side of the pool that its callers see.
module PoolAnswers {
  import opened TaskQueueRing
  import opened PoolSystem

  // Between its call and its return.
  predicate Submitting(pc: ThreadPc) { pc.PushWantLock? || pc.PushTesting? || pc.PushGuarding? || pc.PushStoring? }

  // ----- Single steps -----

  // A submission returns in exactly two ways: it stores its task at the end and answers 0, or it has read the
  // shutdown flag as set, leaves everything alone and answers -1.
  lemma SubmitReturnsIff(s: Pool, t: Tid)
    requires Submitting(PcOf(s, t))
    ensures var s' := ThreadStep(s, t);
            var pc := PcOf(s, t);
            && (PcOf(s', t).Idle? <==> pc.PushStoring? || (pc.PushGuarding? && s.shutdown))
            && (!PcOf(s', t).Idle? ==>
                  Submitting(PcOf(s', t)) && PcOf(s', t).task == pc.task && s'.answers == s.answers)
            && (PcOf(s', t).Idle? ==>
                  if pc.PushStoring? then
                    && s'.accepted == s.accepted + [pc.task] && s'.queue == s.queue + [pc.task]
                    && s'.answers == s.answers + [Took(t, pc.task, |s.accepted|)]
                  else
                    && s'.accepted == s.accepted && s'.queue == s.queue
                    && s'.answers == s.answers + [Rejected(t, pc.task)])
  {
  }

  // A call of submit is turned away at once exactly if the pool has been shut down; it stays inside only
  // while another thread has the lock, or the queue holds 4096 tasks and is not shut down.
  lemma SubmitWaitsIff(s: Pool, t: Tid, task: PoolTask)
    ensures PcOf(s, t).Idle? ==>
              var s' := Do(s, Submit(t, task));
              && (s.alive <==> PcOf(s', t) == PushWantLock(task))
              && (!s.alive <==> s'.answers == s.answers + [Rejected(t, task)])
              && s'.queue == s.queue && s'.accepted == s.accepted
    ensures PcOf(s, t).PushWantLock? ==> (ThreadStep(s, t) == s <==> !s.holder.Free?)
    ensures PcOf(s, t).PushTesting? ==>
              (PcOf(ThreadStep(s, t), t).PushWantLock? <==> |s.queue| == 4096 && !s.shutdown)
  {
  }

  // From taking the lock to giving it back, with the flag left alone, a submission does what one locked pass
  // of the queue does: it waits, refuses or stores.
  lemma PushIsOnePass(s: Pool, t: Tid)
    requires PcOf(s, t).PushTesting?
    ensures var task := PcOf(s, t).task;
            var s1 := ThreadStep(s, t);
            var s2 := ThreadStep(s1, t);
            var s3 := ThreadStep(s2, t);
            match PushOutcome(|s.queue|, s.shutdown)
            case Blocked => s1.holder.Free? && s1.queue == s.queue && PcOf(s1, t) == PushWantLock(task)
            case Refused => s2.holder.Free? && s2.queue == s.queue && PcOf(s2, t).Idle?
            case Done => s3.holder.Free? && s3.queue == s.queue + [task] && PcOf(s3, t).Idle?
  {
  }

  // The same for a worker's pop: it waits, ends or takes the oldest task.
  lemma PopIsOnePass(s: Pool, i: nat)
    requires i < |s.workers| && s.workers[i].Testing?
    ensures var s1 := WorkerStep(s, i);
            var s2 := WorkerStep(s1, i);
            var s3 := WorkerStep(s2, i);
            match PopOutcome(|s.queue|, s.shutdown)
            case Blocked => s1.holder.Free? && s1.queue == s.queue && s1.workers[i].WantLock?
            case Refused => s2.holder.Free? && s2.queue == [] && s2.workers[i].Exited?
            case Done =>
              s3.holder.Free? && s3.workers[i] == Got(s.queue[0], s.popped) && s.queue == [s.queue[0]] + s3.queue
  {
  }

  // A worker outside the lock counts, runs and counts down; it waits for nothing but the lock.
  lemma WorkerRuns(s: Pool, i: nat)
    requires i < |s.workers|
    ensures var s' := WorkerStep(s, i);
            match s.workers[i]
            case WantLock => (s' == s <==> !s.holder.Free?) && (s' != s ==> s'.workers[i].Testing?)
            case Got(task, k) => s'.workers[i] == Running(task, k) && s'.active == s.active + 1
            case Running(task, k) => s'.workers[i] == Ran(k) && s'.executed == s.executed + [Execution(i, task, k)]
            case Ran(k) => s'.workers[i] == WantLock && s'.active == s.active - 1
            case Exited => s' == s
            case _ => s' != s
  {
    assert s.executed != s.executed + [Execution(i, PoolTask(0, 0), 0)];
  }

  // wait_idle goes on from its first read exactly when it has the lock and nothing is queued, and returns from
  // its second exactly when no task is counted as active; otherwise it starts again.
  lemma WaitIdleStepsIff(s: Pool, t: Tid)
    ensures PcOf(s, t).IdleWantPending? ==>
              (PcOf(ThreadStep(s, t), t).IdleReadActive? <==> s.holder.Free? && |s.queue| == 0)
    ensures PcOf(s, t).IdleReadActive? ==>
              && (PcOf(ThreadStep(s, t), t).Idle? <==> s.active == 0)
              && (PcOf(ThreadStep(s, t), t).IdleWantPending? <==> s.active != 0)
    ensures PcOf(s, t).ShutJoining? ==>
              (PcOf(ThreadStep(s, t), t).ShutDone? <==> forall i | 0 <= i < |s.workers| :: s.workers[i].Exited?)
  {
  }

  // A shutdown call goes on exactly if it finds the pool alive; then it clears `alive` and sets the flag, waiting for
  // nothing, and only then for the workers.
  lemma ShutdownStepsIff(s: Pool, t: Tid)
    ensures PcOf(s, t).Idle? ==> (s.alive <==> PcOf(Do(s, Shutdown(t)), t).ShutSawAlive?)
    ensures PcOf(s, t).Idle? ==> PcOf(Do(s, WaitIdle(t)), t).IdleWantPending?
    ensures PcOf(s, t).ShutSawAlive? ==>
              && !ThreadStep(s, t).alive && ThreadStep(s, t).shutdown == s.shutdown
              && PcOf(ThreadStep(s, t), t).ShutCleared?
    ensures PcOf(s, t).ShutCleared? ==> ThreadStep(s, t).shutdown && PcOf(ThreadStep(s, t), t).ShutJoining?
    ensures PcOf(s, t).ShutSawAlive? || PcOf(s, t).ShutCleared? ==>
              ThreadStep(s, t).queue == s.queue && ThreadStep(s, t).workers == s.workers
  {
  }

  // ----- Whole runs -----

  // The tasks of the submissions that returned 0, in the order of their returns.
  function Taken(answers: seq<Answer>): seq<PoolTask> {
    if answers == [] then []
    else
      var a := answers[|answers| - 1];
      Taken(answers[..|answers| - 1]) + if a.Took? then [a.task] else []
  }

  ghost predicate AnswerOk(s: Pool, a: Answer) {
    if a.Took? then a.k < |s.accepted| && s.accepted[a.k] == a.task else !s.alive
  }

  ghost predicate AnswersOk(s: Pool) {
    && Taken(s.answers) == s.accepted
    && (forall i | 0 <= i < |s.answers| :: AnswerOk(s, s.answers[i]))
    && FlagsOk(s)
  }

  // `alive` is cleared first.
  ghost predicate FlagsOk(s: Pool) {
    (s.shutdown ==> !s.alive) && forall t | t in s.threads :: s.threads[t].ShutCleared? ==> !s.alive
  }

  // One step gives at most one answer.
  ghost predicate Answered(s: Pool, s': Pool) {
    || (s'.answers == s.answers && s'.accepted == s.accepted)
    || (exists e: Answer :: Gives(s, s', e))
  }

  ghost predicate Gives(s: Pool, s': Pool, e: Answer) {
    && s'.answers == s.answers + [e]
    && if e.Took? then s'.accepted == s.accepted + [e.task] && e.k == |s.accepted|
       else s'.accepted == s.accepted && (s.shutdown || !s.alive)
  }

  lemma OneAnswer(s: Pool, a: Action)
    ensures Answered(s, Do(s, a)) && (Do(s, a).alive ==> s.alive)
  {
    hide ThreadStep, WorkerStep, Gives, Answered;
    match a
    case Proceed(t) => ThreadAnswers(s, t);
    case Work(i) => if i < |s.workers| { WorkerLeaves(s, i); } NoAnswer(s, Do(s, a));
    case Submit(t, task) => SubmitAnswers(s, t, task);
    case _ => NoAnswer(s, Do(s, a));
  }

  lemma NoAnswer(s: Pool, s': Pool)
    requires s'.answers == s.answers && s'.accepted == s.accepted
    ensures Answered(s, s')
  {
  }

  lemma SubmitAnswers(s: Pool, t: Tid, task: PoolTask)
    ensures var s' := Do(s, Submit(t, task));
            Answered(s, s') && s'.alive == s.alive
  {
    var s' := Do(s, Submit(t, task));
    if s'.answers != s.answers { assert Gives(s, s', Rejected(t, task)); }
  }

  lemma ThreadAnswers(s: Pool, t: Tid)
    ensures Answered(s, ThreadStep(s, t)) && (ThreadStep(s, t).alive ==> s.alive)
  {
    var s', pc := ThreadStep(s, t), PcOf(s, t);
    if pc.PushGuarding? && s.shutdown {
      assert Gives(s, s', Rejected(t, pc.task));
    } else if pc.PushStoring? {
      assert Gives(s, s', Took(t, pc.task, |s.accepted|));
    }
  }

  lemma FlagsStep(s: Pool, a: Action)
    requires FlagsOk(s)
    ensures FlagsOk(Do(s, a))
  {
    hide ThreadStep, WorkerStep;
    match a
    case Proceed(t) =>
      ThreadFlags(s, t);
      forall u | u in ThreadStep(s, t).threads && u != t
        ensures ThreadStep(s, t).threads[u].ShutCleared? ==> !ThreadStep(s, t).alive
      {
        ThreadMapFrame(s, t, u);
      }
    case Work(i) => if i < |s.workers| { WorkerLeaves(s, i); }
    case _ =>
  }

  lemma ThreadFlags(s: Pool, t: Tid)
    requires FlagsOk(s)
    ensures var s' := ThreadStep(s, t);
            && (s'.shutdown ==> !s'.alive) && (s'.alive ==> s.alive)
            && (t in s'.threads && s'.threads[t].ShutCleared? ==> !s'.alive)
  {
  }

  lemma AnswersStep(s: Pool, a: Action)
    requires AnswersOk(s)
    ensures AnswersOk(Do(s, a))
  {
    hide Do, Taken, AnswerOk;
    FlagsStep(s, a);
    OneAnswer(s, a);
    var s' := Do(s, a);
    if s'.answers == s.answers {
      OldAnswers(s, s');
    } else {
      var e :| Gives(s, s', e);
      OldAnswers(s, s');
      NewAnswer(s, s', e);
    }
  }

  lemma OldAnswers(s: Pool, s': Pool)
    requires AnswersOk(s) && s.accepted <= s'.accepted && (s'.alive ==> s.alive)
    ensures forall i | 0 <= i < |s.answers| :: AnswerOk(s', s.answers[i])
  {
    forall i | 0 <= i < |s.answers|
      ensures AnswerOk(s', s.answers[i])
    {
      assert AnswerOk(s, s.answers[i]);
    }
  }

  lemma NewAnswer(s: Pool, s': Pool, e: Answer)
    requires Taken(s.answers) == s.accepted && (s.shutdown ==> !s.alive) && (s'.alive ==> s.alive)
    requires s'.answers == s.answers + [e]
    requires if e.Took? then s'.accepted == s.accepted + [e.task] && e.k == |s.accepted|
             else s'.accepted == s.accepted && (s.shutdown || !s.alive)
    ensures Taken(s'.answers) == s'.accepted && AnswerOk(s', e)
  {
    assert s'.answers[..|s.answers|] == s.answers && s'.answers[|s.answers|] == e;
  }

  lemma {:induction false} AnswersRun(s: Pool, schedule: seq<Action>)
    requires AnswersOk(s)
    ensures AnswersOk(Run(s, schedule))
    decreases |schedule|
  {
    if schedule != [] {
      AnswersRun(s, schedule[..|schedule| - 1]);
      AnswersStep(Run(s, schedule[..|schedule| - 1]), schedule[|schedule| - 1]);
    }
  }

  // In every run the answers of submit tell the truth: those that were 0 are, one for one and in order, the
  // accepted tasks; a -1 means that the pool has been shut down.
  lemma {:induction false} SubmitAnswersHonest(n: nat, schedule: seq<Action>, i: nat)
    requires i < |Run(Created(n), schedule).answers|
    ensures var s := Run(Created(n), schedule);
            && Taken(s.answers) == s.accepted
            && match s.answers[i]
               case Took(_, task, k) => k < |s.accepted| && s.accepted[k] == task
               case Rejected(_, _) => !s.alive
  {
    AnswersRun(Created(n), schedule);
    var s := Run(Created(n), schedule);
    assert AnswerOk(s, s.answers[i]);
  }

  // A pool that nobody shuts down turns no submission away.
  lemma {:induction false} NeverRefusedWhileUp(n: nat, schedule: seq<Action>)
    requires forall i | 0 <= i < |schedule| :: !schedule[i].Shutdown?
    ensures var s := Run(Created(n), schedule);
            forall i | 0 <= i < |s.answers| :: s.answers[i].Took?
  {
    StaysUp(n, schedule);
    var s := Run(Created(n), schedule);
    forall i | 0 <= i < |s.answers|
      ensures s.answers[i].Took?
    {
      SubmitAnswersHonest(n, schedule, i);
    }
  }

  ghost predicate Up(s: Pool) {
    s.alive && forall t | t in s.threads :: !s.threads[t].ShutSawAlive?
  }

  lemma UpStep(s: Pool, a: Action)
    requires Up(s) && !a.Shutdown?
    ensures Up(Do(s, a))
  {
  }

  lemma {:induction false} StaysUp(n: nat, schedule: seq<Action>)
    requires forall i | 0 <= i < |schedule| :: !schedule[i].Shutdown?
    ensures Up(Run(Created(n), schedule))
    decreases |schedule|
  {
    if schedule != [] {
      StaysUp(n, schedule[..|schedule| - 1]);
      UpStep(Run(Created(n), schedule[..|schedule| - 1]), schedule[|schedule| - 1]);
    }
  }

  // ----- After the shutdown flag is set -----

  // A thread between its second test and its store.
  function AboutToStore(s: Pool): nat {
    if s.holder.HeldByThread? && PcOf(s, s.holder.t).PushStoring? then 1 else 0
  }

  lemma AfterShutdownStep(s: Pool, a: Action)
    requires ThreadsOk(s) && s.shutdown
    ensures var s' := Do(s, a);
            |s'.accepted| + AboutToStore(s') <= |s.accepted| + AboutToStore(s) && s'.shutdown
  {
    hide WorkerStep;
    match a
    case Proceed(t) =>
      if t in s.threads { assert ThreadOk(s, t, s.threads[t]); }
    case Work(i) =>
      if i < |s.workers| { WorkerLeaves(s, i); }
    case Submit(t, _) => if t in s.threads { assert ThreadOk(s, t, s.threads[t]); }
    case Shutdown(t) => if t in s.threads { assert ThreadOk(s, t, s.threads[t]); }
    case WaitIdle(t) => if t in s.threads { assert ThreadOk(s, t, s.threads[t]); }
  }

  lemma WorkerLeaves(s: Pool, i: nat)
    requires i < |s.workers|
    ensures var s' := WorkerStep(s, i);
            && s'.accepted == s.accepted && s'.threads == s.threads && s'.shutdown == s.shutdown
            && s'.alive == s.alive && s'.answers == s.answers
            && (s'.holder.HeldByThread? ==> s'.holder == s.holder)
  {
    hide WorkerStep;
    WorkerGivens(s, i);
    WorkerSpares(s, i);
    WorkerKeepsLock(s, i);
  }

  lemma WorkerSpares(s: Pool, i: nat)
    requires i < |s.workers|
    ensures var s' := WorkerStep(s, i);
            s'.threads == s.threads && s'.alive == s.alive && s'.answers == s.answers
  {
  }

  lemma WorkerKeepsLock(s: Pool, i: nat)
    requires i < |s.workers|
    ensures WorkerStep(s, i).holder.HeldByThread? ==> WorkerStep(s, i).holder == s.holder
  {
  }

  // Once the flag is set at most one more task is accepted, and none if no thread is past its second test.
  lemma {:induction false} OneMoreAfterShutdown(s: Pool, more: seq<Action>)
    requires Inv(s) && s.shutdown
    ensures var s' := Run(s, more);
            && |s'.accepted| + AboutToStore(s') <= |s.accepted| + AboutToStore(s) <= |s.accepted| + 1 && s'.shutdown
    decreases |more|
  {
    if more != [] {
      var before := more[..|more| - 1];
      OneMoreAfterShutdown(s, before);
      RunInv(s, before);
      AfterShutdownStep(Run(s, before), more[|more| - 1]);
    }
  }

  // Steps that worker i may still take, if nothing more is accepted.
  function StepsLeft(s: Pool, i: nat): nat
    requires i < |s.workers|
  {
    match s.workers[i]
    case WantLock => 8 * |s.queue| + 4
    case Testing => 8 * |s.queue| + 3
    case Guarding => 8 * |s.queue| + 2
    case Taking => 8 * |s.queue| + 1
    case Got(_, _) => 8 * |s.queue| + 7
    case Running(_, _) => 8 * |s.queue| + 6
    case Ran(_) => 8 * |s.queue| + 5
    case Exited => 0
  }

  // After shutdown every step of a worker that does not find the lock taken brings it nearer to its end.
  lemma WorkerNearsEnd(s: Pool, i: nat)
    requires Inv(s) && s.shutdown && i < |s.workers| && !s.workers[i].Exited?
    requires s.workers[i].WantLock? ==> s.holder.Free?
    ensures |WorkerStep(s, i).workers| == |s.workers| && StepsLeft(WorkerStep(s, i), i) < StepsLeft(s, i)
  {
    assert WorkerOk(s, i, s.workers[i]);
  }

  // No other step pushes it back, except by the task that it stores.
  lemma OthersDoNotDelay(s: Pool, a: Action, i: nat)
    requires i < |s.workers| && a != Work(i)
    ensures var s' := Do(s, a);
            && |s'.workers| == |s.workers|
            && StepsLeft(s', i) <= StepsLeft(s, i) + 8 * (|s'.accepted| - |s.accepted|)
  {
    hide Do;
    QueueGrows(s, a, i);
  }

  lemma QueueGrows(s: Pool, a: Action, i: nat)
    requires i < |s.workers| && a != Work(i)
    ensures var s' := Do(s, a);
            && |s'.workers| == |s.workers| && s'.workers[i] == s.workers[i] && |s.accepted| <= |s'.accepted|
            && |s'.queue| <= |s.queue| + (|s'.accepted| - |s.accepted|)
  {
    hide ThreadStep, WorkerStep;
    match a
    case Proceed(t) => ThreadGrows(s, t);
    case Work(j) => if j < |s.workers| { QueueShrinks(s, j); WorkerSeat(s, j, i); }
    case _ =>
  }

  lemma ThreadGrows(s: Pool, t: Tid)
    ensures var s' := ThreadStep(s, t);
            && s'.workers == s.workers && |s.accepted| <= |s'.accepted|
            && |s'.queue| == |s.queue| + (|s'.accepted| - |s.accepted|)
  {
  }

  lemma QueueShrinks(s: Pool, j: nat)
    requires j < |s.workers|
    ensures WorkerStep(s, j).accepted == s.accepted && |WorkerStep(s, j).queue| <= |s.queue|
  {
  }

  lemma WorkerSeat(s: Pool, j: nat, i: nat)
    requires i < |s.workers| && j < |s.workers| && i != j
    ensures |WorkerStep(s, j).workers| == |s.workers| && WorkerStep(s, j).workers[i] == s.workers[i]
  {
    hide WorkerStep;
    WorkerSeats(s, j);
  }
}
