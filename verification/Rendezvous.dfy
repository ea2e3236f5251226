// What a sender on an unbuffered channel can make of the -1 that a blocking send returns after its value
// had been in the slot: the slot is read again after the lock was released, when it may hold another value.
module RendezvousReturns {
  import opened ChannelSpec
  import opened ChannelSystem

  // Every such -1 of the run was returned while the message was still undelivered.
  ghost predicate Honest(log: seq<Event>) {
    forall i | 0 <= i < |log| && log[i].SendDoubted? :: log[i].takenBefore <= log[i].k
  }

  // `t` is about to return such a -1.
  predicate Doubts(s: Sys, t: Tid) {
    PcOf(s, t).ReadSlot? && s.ch.items != []
  }

  // All sends of the schedule are made by threads of `senders`.
  predicate SendersIn(schedule: seq<Action>, senders: set<Tid>) {
    forall i | 0 <= i < |schedule| && (schedule[i].CallSend? || schedule[i].CallTrySend?) :: schedule[i].t in senders
  }

  // Seen from the whole history: the message is undelivered exactly when nothing was accepted after it.
  lemma {:induction false} FailedSendUndeliveredIff(ch: Chan, schedule: seq<Action>, t: Tid)
    requires WellFormed(ch) && ch.items == [] && Doubts(Run(Start(ch), schedule), t)
    ensures var s := Run(Start(ch), schedule);
            && Do(s, Proceed(t)).log == s.log + [SendDoubted(t, PcOf(s, t).v, PcOf(s, t).k, |s.received|, s.ch)]
            && (PcOf(s, t).k >= |s.received| <==> PcOf(s, t).k == |s.accepted| - 1)
  {
    RunInv(Start(ch), schedule);
    var s := Run(Start(ch), schedule);
    assert |Values(s.accepted)| == |s.received + s.ch.items|;
    assert PcOk(s, t, s.pcs[t]);
  }

  // Undelivered is not withdrawn: the message stays in the slot of the closed channel, and the next
  // receive hands it out although its send has failed.
  lemma {:induction false} FailedStaysDeliverable(ch: Chan, schedule: seq<Action>, t: Tid, u: Tid)
    requires WellFormed(ch) && ch.items == []
    requires var s := Run(Start(ch), schedule);
             Doubts(s, t) && PcOf(s, t).k >= |s.received| && (u == t || PcOf(s, u).Idle?)
    ensures var s := Run(Start(ch), schedule);
            var s' := Do(Do(s, Proceed(t)), CallTryRecv(u));
            && s'.received == s.received + [PcOf(s, t).v] && |s'.log| == |s.log| + 2
            && s'.log[|s.log|].SendDoubted? && s'.log[|s.log| + 1] == RecvGot(u, PcOf(s, t).v, PcOf(s, t).k)
  {
    RunInv(Start(ch), schedule);
    FailedSendUndeliveredIff(ch, schedule, t);
    var s := Run(Start(ch), schedule);
    assert PcOk(s, t, s.pcs[t]);
    var k := PcOf(s, t).k;
    assert |Values(s.accepted)| == |s.received + s.ch.items|;
    assert Values(s.accepted)[k] == (s.received + s.ch.items)[k] == s.ch.items[0];
    assert Values(s.accepted)[k] == s.accepted[k].value;
  }

  // --- One sending thread.

  // No other thread is inside a send, and the sender's own message is the last accepted.
  ghost predicate Sole(s: Sys, u: Tid) {
    && (forall t | t in s.pcs && t != u :: s.pcs[t].Idle? || s.pcs[t].Receiving?)
    && (Inside(PcOf(s, u)) ==> PcOf(s, u).k == |s.accepted| - 1)
    && Honest(s.log)
  }

  predicate Inside(pc: Pc) { pc.AwaitTaken? || pc.ReadClosed? || pc.ReadSlot? }

  // A thread that does not send only receives or closes.
  lemma OthersStep(s: Sys, a: Action)
    requires !a.CallSend? && !a.CallTrySend? && (PcOf(s, a.t).Idle? || PcOf(s, a.t).Receiving?)
    ensures var s' := Do(s, a);
            && s'.accepted == s.accepted && (PcOf(s', a.t).Idle? || PcOf(s', a.t).Receiving?)
            && (s'.log == s.log || exists e: Event :: s'.log == s.log + [e] && !e.SendDoubted?)
  {
  }

  lemma SenderPc(s: Sys, a: Action)
    requires Inside(PcOf(s, a.t)) ==> PcOf(s, a.t).k == |s.accepted| - 1
    ensures var s' := Do(s, a);
            Inside(PcOf(s', a.t)) ==> PcOf(s', a.t).k == |s'.accepted| - 1
  {
  }

  // The sender's own message is in the slot when it reads the slot as full.
  lemma SenderLog(s: Sys, a: Action)
    requires Values(s.accepted) == s.received + s.ch.items
    requires Inside(PcOf(s, a.t)) ==> PcOf(s, a.t).k == |s.accepted| - 1
    ensures var s' := Do(s, a);
            s'.log == s.log
            || exists e :: s'.log == s.log + [e] && (e.SendDoubted? ==> e.takenBefore <= e.k)
  {
    assert |Values(s.accepted)| == |s.received + s.ch.items|;
  }

  lemma SoleStep(s: Sys, a: Action, u: Tid)
    requires Inv(s) && Sole(s, u)
    requires a.CallSend? || a.CallTrySend? ==> a.t == u
    ensures Sole(Do(s, a), u)
  {
    hide Do, Inv;
    ConservedIn(s);
    if a.t == u {
      SenderPc(s, a);
      SenderLog(s, a);
    } else {
      OthersStep(s, a);
      OtherPcs(s, a, u);
    }
    forall t | t != a.t
      ensures (t in Do(s, a).pcs <==> t in s.pcs) && PcOf(Do(s, a), t) == PcOf(s, t)
    {
      OtherPcs(s, a, t);
    }
  }

  lemma ConservedIn(s: Sys)
    requires Inv(s)
    ensures Values(s.accepted) == s.received + s.ch.items
  {
  }

  lemma {:induction false} SoleRun(schedule: seq<Action>, u: Tid)
    requires SendersIn(schedule, {u})
    ensures Sole(Run(Start(CreateUnbuffered()), schedule), u)
    decreases |schedule|
  {
    hide Do, Inv, Sole;
    if schedule == [] {
      NothingSole(u);
    } else {
      var n := |schedule| - 1;
      SoleRun(schedule[..n], u);
      NothingInv();
      RunInv(Start(CreateUnbuffered()), schedule[..n]);
      SoleStep(Run(Start(CreateUnbuffered()), schedule[..n]), schedule[n], u);
    }
  }

  lemma NothingSole(u: Tid)
    ensures Sole(Start(CreateUnbuffered()), u)
  {
  }

  lemma NothingInv()
    ensures Inv(Start(CreateUnbuffered()))
  {
  }

  // --- Two sending threads.

  // For any two threads: the message of `t` is received by `u`, who refills the slot and closes the channel;
  // `t` wakes up and is told -1.
  lemma {:induction false} DeliveredYetFailed(t: Tid, u: Tid) returns (schedule: seq<Action>)
    requires t != u
    ensures SendersIn(schedule, {t, u})
    ensures var s := Run(Start(CreateUnbuffered()), schedule);
            s.received == [7] && s.accepted == [Msg(t, 7), Msg(u, 8)] && s.log != []
            && s.log[|s.log| - 1] == SendDoubted(t, 7, 0, 1, Chan(Unbuffered, 0, true, [8]))
  {
    hide Do, Run;
    var s0 := Start(CreateUnbuffered());
    SendThenReceive(t, u);
    RefillThenClose(t, u);
    WakeAndFail(t, u);
    var a := [CallSend(t, 7)];
    var b := a + [Proceed(t)];
    var c := b + [CallTryRecv(u)];
    var d := c + [CallTrySend(u, 8)];
    var e := d + [CallClose(u)];
    var f := e + [Proceed(t)];
    var g := f + [Proceed(t)];
    assert [] + a == a;
    NothingRun(s0);
    RunSnoc(s0, [], CallSend(t, 7));
    RunSnoc(s0, a, Proceed(t));
    RunSnoc(s0, b, CallTryRecv(u));
    RunSnoc(s0, c, CallTrySend(u, 8));
    RunSnoc(s0, d, CallClose(u));
    RunSnoc(s0, e, Proceed(t));
    RunSnoc(s0, f, Proceed(t));
    RunSnoc(s0, g, Proceed(t));
    schedule := g + [Proceed(t)];
  }

  // Three stations of that run: the value taken, the slot refilled and the channel closed, the sender back.
  function Taken(t: Tid, u: Tid): Sys {
    Sys(CreateUnbuffered(), map[t := AwaitTaken(7, 0), u := Idle], [Msg(t, 7)], [7], [RecvGot(u, 7, 0)])
  }

  function Refilled(t: Tid, u: Tid): Sys {
    Sys(Chan(Unbuffered, 0, true, [8]), map[t := AwaitTaken(7, 0), u := Idle], [Msg(t, 7), Msg(u, 8)], [7],
        [RecvGot(u, 7, 0), SendOk(u, 8, 1, 1)])
  }

  lemma SendThenReceive(t: Tid, u: Tid)
    requires t != u
    ensures Do(Do(Do(Start(CreateUnbuffered()), CallSend(t, 7)), Proceed(t)), CallTryRecv(u)) == Taken(t, u)
  {
    var s := Do(Do(Start(CreateUnbuffered()), CallSend(t, 7)), Proceed(t));
    assert s == Sys(Chan(Unbuffered, 0, false, [7]), map[t := AwaitTaken(7, 0)], [Msg(t, 7)], [], []);
  }

  lemma RefillThenClose(t: Tid, u: Tid)
    requires t != u
    ensures Do(Do(Taken(t, u), CallTrySend(u, 8)), CallClose(u)) == Refilled(t, u)
  {
  }

  lemma WakeAndFail(t: Tid, u: Tid)
    requires t != u
    ensures var s := Refilled(t, u);
            Do(Do(Do(s, Proceed(t)), Proceed(t)), Proceed(t)) ==
              s.(pcs := map[t := Idle, u := Idle],
                 log := s.log + [SendDoubted(t, 7, 0, 1, Chan(Unbuffered, 0, true, [8]))])
  {
    var s := Do(Do(Refilled(t, u), Proceed(t)), Proceed(t));
    assert s == Refilled(t, u).(pcs := map[t := ReadSlot(7, 0), u := Idle]);
  }

  lemma OnlyOne(senders: set<Tid>) returns (u: Tid)
    requires |senders| <= 1
    ensures senders <= {u}
  {
    if senders == {} {
      u := 0;
    } else {
      u :| u in senders;
      assert |senders - {u}| == |senders| - 1;
    }
  }

  // The exact condition: every -1 returned after storing a value means that the value is still undelivered,
  // in all runs whose sends are made by the given threads, if and only if at most one thread sends.
  lemma FailureHonestIff(senders: set<Tid>)
    ensures (forall schedule | SendersIn(schedule, senders) :: Honest(Run(Start(CreateUnbuffered()), schedule).log))
            <==> |senders| <= 1
  {
    hide Run;
    if |senders| <= 1 {
      var u := OnlyOne(senders);
      forall schedule | SendersIn(schedule, senders)
        ensures Honest(Run(Start(CreateUnbuffered()), schedule).log)
      {
        SoleRun(schedule, u);
      }
    } else {
      var t :| t in senders;
      assert |senders - {t}| == |senders| - 1;
      var u :| u in senders - {t};
      var schedule := DeliveredYetFailed(t, u);
      assert SendersIn(schedule, senders);
      var log := Run(Start(CreateUnbuffered()), schedule).log;
      assert !Honest(log);
    }
  }
}
