// An actor: one thread draining a mailbox into a handler, while any threads send, close and stop.
module ActorSystem {
  import opened ChannelSpec
  import Pump

  const ACTOR_MAILBOX_CAP := 256

  datatype State = Init | Running | Stopped

  datatype Thread = NotStarted | Looping | Ended

  datatype Actor = Actor(pump: Pump.Pump, state: State, thread: Thread)

  // `SetStopped` and `Close` are the two critical sections of actor_stop; `Work` is a step of the actor's own thread.
  datatype Action = Send(v: int) | Close | SetStopped | Work

  function Spawned(): Actor {
    Actor(Pump.Start(CreateBuffered(ACTOR_MAILBOX_CAP), true), Init, NotStarted)
  }

  function WorkStep(a: Actor): Actor {
    match a.thread
    case NotStarted => a.(state := Running, thread := Looping)
    case Looping =>
      if a.pump.phase.Exited? then a.(state := Stopped, thread := Ended)
      else if a.pump.phase.Deliver? then a.(pump := Pump.PassOn(a.pump))
      else a.(pump := Pump.Step(a.pump, a.state.Stopped?))
    case Ended => a
  }

  function Do(a: Actor, act: Action): Actor {
    match act
    case Send(v) => a.(pump := Pump.Feed(a.pump, v))
    case Close => a.(pump := Pump.Shut(a.pump))
    case SetStopped => a.(state := Stopped)
    case Work => WorkStep(a)
  }

  function Run(a: Actor, schedule: seq<Action>): Actor
    decreases |schedule|
  {
    if schedule == [] then a else Do(Run(a, schedule[..|schedule| - 1]), schedule[|schedule| - 1])
  }

  ghost predicate Inv(a: Actor) {
    && Pump.Inv(a.pump)
    && (a.thread.NotStarted? ==> a.pump.phase.Top? && a.pump.delivered == [])
    && (a.thread.Ended? ==> a.pump.phase.Exited? && a.state.Stopped?)
  }

  lemma StepInv(a: Actor, act: Action)
    requires Inv(a)
    ensures Inv(Do(a, act))
    ensures a.pump.ch.closed ==> Do(a, act).pump.ch.closed
  {
    hide Pump.Inv, Pump.Step, Pump.Feed, Pump.PassOn;
    match act
    case Send(v) => Pump.FeedInv(a.pump, v); if a.pump.ch.closed { Pump.FeedClosed(a.pump, v); }
    case Close => Pump.ShutInv(a.pump);
    case SetStopped =>
    case Work =>
      Pump.StepInv(a.pump, a.state.Stopped?);
      if a.pump.ch.closed { Pump.StaysClosed(a.pump, a.state.Stopped?); }
      if a.pump.phase.Deliver? { Pump.PassOnInv(a.pump); }
  }

  lemma {:induction false} RunInv(a: Actor, schedule: seq<Action>)
    requires Inv(a)
    ensures Inv(Run(a, schedule))
    ensures a.pump.ch.closed ==> Run(a, schedule).pump.ch.closed
    decreases |schedule|
  {
    if schedule != [] {
      RunInv(a, schedule[..|schedule| - 1]);
      StepInv(Run(a, schedule[..|schedule| - 1]), schedule[|schedule| - 1]);
    }
  }

  // Under every schedule the handler has seen a prefix of the messages sent, and its next call, if it is
  // about to be made, is with the next message: the 0 that stands for "closed and empty" never gets there.
  lemma {:induction false} HandlerSeesPrefix(schedule: seq<Action>)
    ensures var p := Run(Spawned(), schedule).pump;
            && p.delivered <= p.accepted
            && (p.phase.Deliver? ==> |p.delivered| < |p.accepted| && p.phase.v == p.accepted[|p.delivered|])
  {
    RunInv(Spawned(), schedule);
    var p := Run(Spawned(), schedule).pump;
    Pump.DeliveredIsPrefix(p);
    if p.phase.Deliver? { Pump.PassOnInv(p); }
  }

  // An actor that ended without having read STOPPED inside its loop has handled everything, except perhaps a final 0.
  lemma {:induction false} HandledAllButFinalZero(schedule: seq<Action>)
    ensures var a := Run(Spawned(), schedule);
            a.thread.Ended? && !a.pump.sawStop ==>
              a.pump.accepted == a.pump.delivered || a.pump.accepted == a.pump.delivered + [0]
  {
    RunInv(Spawned(), schedule);
  }

  // Whatever was sent before it, a final 0 can go missing: received, then the mailbox closes before the loop
  // asks again.
  lemma {:induction false} FinalZeroCanBeLost(vs: seq<int>) returns (schedule: seq<Action>)
    ensures var a := Run(Spawned(), schedule);
            a.thread.Ended? && !a.pump.sawStop && a.pump.accepted == vs + [0] && a.pump.delivered == vs
  {
    hide Run, Do;
    var before := HandleAll(vs);
    LoseZero(vs);
    var last := [Work, Work, Send(0), Work, Close, Work, Work, Work, Work];
    RunNine(AllHandled(vs), last);
    RunConcat(Spawned(), before, last);
    schedule := before + last;
  }

  // For the senders: some run that was not stopped ends with one of these messages unhandled exactly when the
  // last of them is 0.
  lemma LossPossibleIff(vs: seq<int>)
    ensures (exists schedule :: LosesSome(schedule, vs)) <==> vs != [] && vs[|vs| - 1] == 0
  {
    if vs != [] && vs[|vs| - 1] == 0 {
      var schedule := FinalZeroCanBeLost(vs[..|vs| - 1]);
      assert vs[..|vs| - 1] + [0] == vs;
      assert LosesSome(schedule, vs);
    }
    forall schedule | LosesSome(schedule, vs) ensures vs != [] && vs[|vs| - 1] == 0 {
      HandledAllButFinalZero(schedule);
    }
  }

  ghost predicate LosesSome(schedule: seq<Action>, vs: seq<int>) {
    var a := Run(Spawned(), schedule);
    a.thread.Ended? && !a.pump.sawStop && a.pump.accepted == vs && a.pump.delivered != vs
  }

  // The actor at the top of its loop, with everything handled and the mailbox open.
  function AllHandled(vs: seq<int>): Actor {
    Actor(Pump.Pump(CreateBuffered(ACTOR_MAILBOX_CAP), true, vs, |vs|, vs, Pump.Top, false, |vs|), Running, Looping)
  }

  // Any messages can all be handled, one by one.
  lemma {:induction false} HandleAll(vs: seq<int>) returns (schedule: seq<Action>)
    ensures Run(Spawned(), schedule) == AllHandled(vs)
    decreases |vs|
  {
    hide Run, Do, AllHandled, Spawned;
    if vs == [] {
      StartsUp();
      schedule := [Work];
    } else {
      var n := |vs| - 1;
      var before := HandleAll(vs[..n]);
      HandleOne(vs[..n], vs[n]);
      var turn := [Work, Work, Send(vs[n]), Work, Work, Work, Work];
      RunSeven(AllHandled(vs[..n]), turn);
      RunConcat(Spawned(), before, turn);
      assert vs[..n] + [vs[n]] == vs;
      schedule := before + turn;
    }
  }

  lemma StartsUp()
    ensures Run(Spawned(), [Work]) == AllHandled([])
  {
    RunSnoc(Spawned(), [], Work);
    assert [] + [Work] == [Work];
  }

  lemma HandleOne(vs: seq<int>, v: int)
    ensures Do(Do(Do(Do(Do(Do(Do(AllHandled(vs), Work), Work), Send(v)), Work), Work), Work), Work)
         == AllHandled(vs + [v])
  {
    var a := AllHandled(vs);
    var b := Do(Do(Do(a, Work), Work), Send(v));
    assert b.pump == Pump.Pump(a.pump.ch.(items := [v]), true, vs + [v], |vs|, vs, Pump.Receive, false, |vs| + 1);
    var c := Do(Do(b, Work), Work);
    assert c.pump == Pump.Pump(a.pump.ch, true, vs + [v], |vs| + 1, vs, Pump.AskClosedAgain(v, true), false, |vs| + 1);
  }

  lemma LoseZero(vs: seq<int>)
    ensures var a := AllHandled(vs);
            var b := Do(Do(Do(Do(Do(a, Work), Work), Send(0)), Work), Close);
            var c := Do(Do(Do(Do(b, Work), Work), Work), Work);
            c.thread.Ended? && !c.pump.sawStop && c.pump.accepted == vs + [0] && c.pump.delivered == vs
  {
    var a := AllHandled(vs);
    var b := Do(Do(Do(a, Work), Work), Send(0));
    assert b.pump == Pump.Pump(a.pump.ch.(items := [0]), true, vs + [0], |vs|, vs, Pump.Receive, false, |vs| + 1);
    var c := Do(Do(b, Work), Close);
    assert c.pump
        == Pump.Pump(ClosePass(a.pump.ch), true, vs + [0], |vs| + 1, vs, Pump.Recheck(0, true), false, |vs| + 1);
    var d := Do(Do(Do(c, Work), Work), Work);
    assert d.pump.phase.Exited? && d.pump.delivered == vs && d.thread.Looping?;
  }

  lemma {:induction false} RunConcat(a: Actor, first: seq<Action>, second: seq<Action>)
    ensures Run(a, first + second) == Run(Run(a, first), second)
    decreases |second|
  {
    if second == [] {
      assert first + second == first;
    } else {
      var n := |second| - 1;
      RunConcat(a, first, second[..n]);
      assert (first + second)[..|first| + n] == first + second[..n];
    }
  }

  lemma RunSeven(a: Actor, s: seq<Action>)
    requires |s| == 7
    ensures Run(a, s) == Do(Do(Do(Do(Do(Do(Do(a, s[0]), s[1]), s[2]), s[3]), s[4]), s[5]), s[6])
  {
    hide Do;
    RunFour(a, s[..4]);
    RunConcat(a, s[..4], s[4..]);
    RunThree(Run(a, s[..4]), s[4..]);
    assert s[..4] + s[4..] == s;
  }

  lemma RunNine(a: Actor, s: seq<Action>)
    requires |s| == 9
    ensures Run(a, s) == Do(Do(Do(Do(Do(Do(Do(Do(Do(a, s[0]), s[1]), s[2]), s[3]), s[4]), s[5]), s[6]), s[7]), s[8])
  {
    hide Do;
    RunSeven(a, s[..7]);
    RunSnoc(a, s[..7], s[7]);
    RunSnoc(a, s[..7] + [s[7]], s[8]);
    assert s[..7] + [s[7]] + [s[8]] == s;
  }

  lemma RunThree(a: Actor, s: seq<Action>)
    requires |s| == 3
    ensures Run(a, s) == Do(Do(Do(a, s[0]), s[1]), s[2])
  {
    hide Do;
    RunSnoc(a, [], s[0]);
    RunSnoc(a, [] + [s[0]], s[1]);
    RunSnoc(a, [] + [s[0]] + [s[1]], s[2]);
    assert [] + [s[0]] + [s[1]] + [s[2]] == s;
  }

  lemma RunFour(a: Actor, s: seq<Action>)
    requires |s| == 4
    ensures Run(a, s) == Do(Do(Do(Do(a, s[0]), s[1]), s[2]), s[3])
  {
    hide Do;
    RunThree(a, s[..3]);
    RunSnoc(a, s[..3], s[3]);
    assert s[..3] + [s[3]] == s;
  }

  lemma {:induction false} RunSnoc(a: Actor, schedule: seq<Action>, act: Action)
    ensures Run(a, schedule + [act]) == Do(Run(a, schedule), act)
  {
    assert (schedule + [act])[..|schedule|] == schedule;
  }

  // ----- Ending -----

  // From the moment the mailbox is closed the loop starts at most one turn more than there are messages pending.
  lemma {:induction false} TurnsAfterClose(a: Actor, schedule: seq<Action>)
    requires Inv(a) && a.pump.ch.closed
    ensures Run(a, schedule).pump.turns <= a.pump.turns + |a.pump.ch.items| + 1
  {
    BoundAfterClose(a, schedule);
  }

  lemma {:induction false} BoundAfterClose(a: Actor, schedule: seq<Action>)
    requires Inv(a) && a.pump.ch.closed
    ensures Pump.TurnBound(Run(a, schedule).pump) <= Pump.TurnBound(a.pump)
    decreases |schedule|
  {
    if schedule != [] {
      var before, act := schedule[..|schedule| - 1], schedule[|schedule| - 1];
      BoundAfterClose(a, before);
      RunInv(a, before);
      Pump.TurnBoundKept(Run(a, before).pump, Run(a, before).state.Stopped?, if act.Send? then act.v else 0);
    }
  }

  // Steps the actor's thread can still take once the mailbox is closed.
  function StepsLeft(a: Actor): nat {
    match a.thread
    case NotStarted => Pump.Remaining(a.pump) + 2
    case Looping => Pump.Remaining(a.pump) + 1
    case Ended => 0
  }

  // With the mailbox closed the thread never waits: each of its steps brings the end nearer, and no other
  // step pushes it back.
  lemma ClosedActorEnds(a: Actor, act: Action)
    requires Inv(a) && a.pump.ch.closed
    ensures act.Work? && !a.thread.Ended? ==> StepsLeft(Do(a, act)) < StepsLeft(a)
    ensures StepsLeft(Do(a, act)) <= StepsLeft(a)
  {
    if act.Work? && a.thread.Looping? && !a.pump.phase.Exited? {
      Pump.ClosedLoopProgresses(a.pump, a.state.Stopped?);
    }
  }

  // What the callers' sections do, at any moment: a stop sets the word, a close closes the mailbox and keeps what is
  // in it, a send gets in exactly while the mailbox is open and holds fewer than 256 messages.
  lemma CallsTakeEffect(schedule: seq<Action>, v: int)
    ensures var a := Run(Spawned(), schedule);
            && Do(a, SetStopped).state.Stopped? && Do(a, SetStopped).pump == a.pump
            && Do(a, Close).pump.ch.closed && Do(a, Close).pump.ch.items == a.pump.ch.items
            && (Do(a, Send(v)).pump.accepted == a.pump.accepted + [v]
                <==> !a.pump.ch.closed && |a.pump.ch.items| < 256)
  {
    RunInv(Spawned(), schedule);
    MailboxKept(schedule);
    Pump.FeedStoresIff(Run(Spawned(), schedule).pump, v);
  }

  lemma {:induction false} MailboxKept(schedule: seq<Action>)
    ensures var ch := Run(Spawned(), schedule).pump.ch;
            ch.mode.Buffered? && ch.capacity == 256
    decreases |schedule|
  {
    hide Do;
    if schedule != [] {
      MailboxKept(schedule[..|schedule| - 1]);
      MailboxStep(Run(Spawned(), schedule[..|schedule| - 1]), schedule[|schedule| - 1]);
    }
  }

  lemma MailboxStep(a: Actor, act: Action)
    ensures Do(a, act).pump.ch.mode == a.pump.ch.mode && Do(a, act).pump.ch.capacity == a.pump.ch.capacity
  {
  }

  // ----- The state word -----

  // The state word is not monotone: a stop that comes before the thread's first step is overwritten.
  lemma {:induction false} StopCanBeOverwritten()
    ensures Run(Spawned(), [SetStopped]).state == Stopped
    ensures Run(Spawned(), [SetStopped] + [Work]).state == Running
  {
    RunSnoc(Spawned(), [], SetStopped);
    assert [] + [SetStopped] == [SetStopped];
    RunSnoc(Spawned(), [SetStopped], Work);
  }

  // STOPPED stays STOPPED over every continuation exactly when the thread has already taken its first step.
  lemma {:induction false} StopSticksIffStarted(schedule: seq<Action>)
    requires Run(Spawned(), schedule).state.Stopped?
    ensures (forall more: seq<Action> :: Run(Run(Spawned(), schedule), more).state.Stopped?)
            <==> !Run(Spawned(), schedule).thread.NotStarted?
  {
    var a := Run(Spawned(), schedule);
    if a.thread.NotStarted? {
      RunSnoc(a, [], Work);
      assert !Run(a, [] + [Work]).state.Stopped?;
    } else {
      forall more: seq<Action> ensures Run(a, more).state.Stopped? { StartedStaysStopped(a, more); }
    }
  }

  lemma {:induction false} StartedStaysStopped(a: Actor, more: seq<Action>)
    requires a.state.Stopped? && !a.thread.NotStarted?
    ensures Run(a, more).state.Stopped? && !Run(a, more).thread.NotStarted?
    decreases |more|
  {
    if more != [] { StartedStaysStopped(a, more[..|more| - 1]); }
  }

  // The handler's calls after a stop that came after the thread's first step: at most one more, and none at all
  // if the loop had not passed its second test when the flag was set.
  lemma StopEndsHandling(a: Actor, more: seq<Action>)
    requires a.state.Stopped? && !a.thread.NotStarted? && a.pump.rechecks
    ensures var ph := a.pump.phase;
            a.pump.delivered <= Run(a, more).pump.delivered
            && |Run(a, more).pump.delivered|
               <= |a.pump.delivered| + if ph.AskClosedAgain? || ph.AskCountAgain? || ph.Deliver? then 1 else 0
  {
    DueNeverGrows(a, more);
    DeliveredGrows(a, more);
  }

  lemma {:induction false} DueNeverGrows(a: Actor, more: seq<Action>)
    requires a.state.Stopped? && !a.thread.NotStarted?
    ensures |Run(a, more).pump.delivered| + Pump.Due(Run(a, more).pump) <= |a.pump.delivered| + Pump.Due(a.pump)
    decreases |more|
  {
    if more != [] {
      var before, act := more[..|more| - 1], more[|more| - 1];
      DueNeverGrows(a, before);
      StartedStaysStopped(a, before);
      StoppedActorStep(Run(a, before), act);
    }
  }

  // For every actor that was spawned: a stop after the first step lets the handler be called at most once more.
  lemma {:induction false} StopAllowsOneMore(schedule: seq<Action>, more: seq<Action>)
    requires !Run(Spawned(), schedule).thread.NotStarted?
    ensures var a := Run(Spawned(), schedule);
            |Run(Do(a, SetStopped), more).pump.delivered| <= |a.pump.delivered| + 1
  {
    AlwaysRechecks(schedule);
    StopEndsHandling(Do(Run(Spawned(), schedule), SetStopped), more);
  }

  lemma {:induction false} AlwaysRechecks(schedule: seq<Action>)
    ensures Run(Spawned(), schedule).pump.rechecks
    decreases |schedule|
  {
    hide Do;
    if schedule != [] {
      AlwaysRechecks(schedule[..|schedule| - 1]);
      StepFrame(Run(Spawned(), schedule[..|schedule| - 1]), schedule[|schedule| - 1]);
    }
  }

  lemma StoppedActorStep(a: Actor, act: Action)
    requires a.state.Stopped? && !a.thread.NotStarted?
    ensures |Do(a, act).pump.delivered| + Pump.Due(Do(a, act).pump) <= |a.pump.delivered| + Pump.Due(a.pump)
  {
    hide Pump.Step, Pump.PassOn, Pump.Feed, Pump.Shut, Pump.Due, Pump.StopRank;
    Pump.StoppedStep(a.pump);
    Pump.OthersAside(a.pump, if act.Send? then act.v else 0);
    SameDue(a.pump, Do(a, act).pump);
    if a.pump.phase.Deliver? { Pump.StoppedPassOn(a.pump); }
  }

  lemma SameDue(p: Pump.Pump, q: Pump.Pump)
    ensures q.delivered == p.delivered && q.phase == p.phase && q.rechecks == p.rechecks
            ==> |q.delivered| + Pump.Due(q) == |p.delivered| + Pump.Due(p)
  {
  }

  // Its own steps left after a stop.
  function StopDistance(a: Actor): nat
    requires !a.thread.NotStarted?
  {
    if a.thread.Ended? then 0 else Pump.StopRank(a.pump.phase) + 1
  }

  // A stopped actor ends: each of its own steps brings it nearer, unless it waits for a message of an open, empty
  // mailbox, and no other step pushes it back. A stop closes the mailbox, so it does not wait then.
  lemma StoppedActorEnds(a: Actor, act: Action)
    requires Inv(a) && a.state.Stopped? && !a.thread.NotStarted?
    ensures !Do(a, act).thread.NotStarted? && StopDistance(Do(a, act)) <= StopDistance(a) <= 9
    ensures act.Work? && !a.thread.Ended? && !(a.pump.phase.Receive? && !a.pump.ch.closed && a.pump.ch.items == [])
            ==> StopDistance(Do(a, act)) < StopDistance(a)
  {
    hide Pump.Inv, Pump.Step, Pump.PassOn, Pump.Feed, Pump.Shut;
    Pump.StoppedStep(a.pump);
    Pump.OthersAside(a.pump, if act.Send? then act.v else 0);
    if a.pump.phase.Deliver? { Pump.StoppedPassOn(a.pump); }
    else if !a.pump.phase.Exited? { Pump.LoopWaitsIff(a.pump, true); }
  }

  lemma StepFrame(a: Actor, act: Action)
    ensures a.pump.delivered <= Do(a, act).pump.delivered && Do(a, act).pump.rechecks == a.pump.rechecks
  {
    hide Pump.Step, Pump.PassOn, Pump.Feed, Pump.Shut;
    Pump.OthersAside(a.pump, if act.Send? then act.v else 0);
    Pump.StepFrame(a.pump, a.state.Stopped?);
  }

  lemma {:induction false} DeliveredGrows(a: Actor, more: seq<Action>)
    ensures a.pump.delivered <= Run(a, more).pump.delivered
    decreases |more|
  {
    hide Do;
    if more != [] {
      DeliveredGrows(a, more[..|more| - 1]);
      StepFrame(Run(a, more[..|more| - 1]), more[|more| - 1]);
    }
  }

  // If every stop comes before the thread's first step, the loop never sees one, so nothing but a final 0 can be lost.
  lemma {:induction false} EarlyStopLosesNothing(early: seq<Action>, late: seq<Action>)
    requires Work !in early && SetStopped !in late
    ensures var a := Run(Run(Spawned(), early + [Work]), late);
            && !a.pump.sawStop
            && (a.thread.Ended? ==> a.pump.accepted == a.pump.delivered || a.pump.accepted == a.pump.delivered + [0])
  {
    NotStartedYet(early);
    RunInv(Spawned(), early + [Work]);
    RunSnoc(Spawned(), early, Work);
    RunInv(Spawned(), early);
    NeverSawStop(Run(Spawned(), early + [Work]), late);
    RunInv(Run(Spawned(), early + [Work]), late);
  }

  lemma {:induction false} NotStartedYet(early: seq<Action>)
    requires Work !in early
    ensures Run(Spawned(), early).thread.NotStarted? && !Run(Spawned(), early).pump.sawStop
    decreases |early|
  {
    if early != [] {
      assert early[|early| - 1] in early;
      NotStartedYet(early[..|early| - 1]);
    }
  }

  lemma {:induction false} NeverSawStop(a: Actor, late: seq<Action>)
    requires SetStopped !in late && a.thread.Looping? && a.state.Running? && !a.pump.sawStop
    ensures var b := Run(a, late);
            !b.pump.sawStop && !b.thread.NotStarted? && (b.thread.Looping? ==> b.state.Running?)
    decreases |late|
  {
    if late != [] {
      assert late[|late| - 1] in late;
      NeverSawStop(a, late[..|late| - 1]);
    }
  }
}
