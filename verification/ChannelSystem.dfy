// Any number of threads calling send, try_send, recv, try_recv and close on one channel, in any
// interleaving. One step is one pass through a critical section; a step whose wait condition still
// holds changes nothing, which is also what a spurious wake-up does.
module ChannelSystem {
  import opened ChannelSpec

  type Tid = nat

  datatype Msg = Msg(sender: Tid, value: int)

  // Where a thread is inside a call. `k` is the place of the thread's own message among the accepted ones.
  datatype Pc =
    | Idle
    | Sending(v: int)
    | AwaitTaken(v: int, k: nat)   // value in the slot, waiting for it to be emptied
    | ReadClosed(v: int, k: nat)   // lock released, about to read `closed` for the return value
    | ReadSlot(v: int, k: nat)     // `closed` was read as true, about to read the slot flag
    | Receiving

  datatype Action =
    | CallSend(t: Tid, v: int)
    | CallTrySend(t: Tid, v: int)
    | CallRecv(t: Tid)
    | CallTryRecv(t: Tid)
    | CallClose(t: Tid)
    | Proceed(t: Tid)

  datatype Event =
    | SendOk(t: Tid, v: int, k: nat, takenBefore: nat)      // returned 0, with this many messages received by then
    | SendRefused(t: Tid, v: int, waits: bool, saw: Chan)   // returned -1 from `send` or `try_send`, storing nothing
    | SendDoubted(t: Tid, v: int, k: nat, takenBefore: nat, saw: Chan)  // returned -1 after filling the slot
    | RecvGot(t: Tid, v: int, k: nat)
    | RecvNothing(t: Tid, waits: bool, saw: Chan)           // returned 0 from `recv` or `try_recv` without a message

  datatype Sys = Sys(ch: Chan, pcs: map<Tid, Pc>, accepted: seq<Msg>, received: seq<int>, log: seq<Event>)

  function Start(ch: Chan): Sys { Sys(ch, map[], [], [], []) }

  function PcOf(s: Sys, t: Tid): Pc { if t in s.pcs then s.pcs[t] else Idle }

  function Go(s: Sys, t: Tid, pc: Pc): Sys { s.(pcs := s.pcs[t := pc]) }

  function Return(s: Sys, t: Tid, e: Event): Sys { s.(pcs := s.pcs[t := Idle], log := s.log + [e]) }

  // The message is accepted, and the call goes on with `pc`, or returns and is logged.
  function Accept(s: Sys, t: Tid, v: int, ch: Chan, pc: Pc, log: seq<Event>): Sys {
    s.(ch := ch, pcs := s.pcs[t := pc], accepted := s.accepted + [Msg(t, v)], log := log)
  }

  function SendStep(s: Sys, t: Tid, v: int): Sys {
    var (ch, outcome) := SendPass(s.ch, v);
    match outcome
    case Blocked => s
    case Refused => Return(s, t, SendRefused(t, v, true, s.ch))
    case Accepted => Accept(s, t, v, ch, Idle, s.log + [SendOk(t, v, |s.accepted|, |s.received|)])
    case Placed => Accept(s, t, v, ch, AwaitTaken(v, |s.accepted|), s.log)
  }

  function TrySendStep(s: Sys, t: Tid, v: int): Sys {
    var (ch, ok) := TrySendPass(s.ch, v);
    if ok then Accept(s, t, v, ch, Idle, s.log + [SendOk(t, v, |s.accepted|, |s.received|)])
    else Return(s, t, SendRefused(t, v, false, s.ch))
  }

  function RecvStep(s: Sys, t: Tid, waits: bool): Sys {
    var (ch, outcome) := RecvPass(s.ch);
    match outcome
    case Waiting => if waits then s else Return(s, t, RecvNothing(t, waits, s.ch))
    case Drained => Return(s, t, RecvNothing(t, waits, s.ch))
    case Value(v) =>
      s.(ch := ch, pcs := s.pcs[t := Idle], received := s.received + [v], log := s.log + [RecvGot(t, v, |s.received|)])
  }

  function ProceedStep(s: Sys, t: Tid): Sys {
    match PcOf(s, t)
    case Idle => s
    case Sending(v) => SendStep(s, t, v)
    case AwaitTaken(v, k) => if s.ch.items != [] && !s.ch.closed then s else Go(s, t, ReadClosed(v, k))
    case ReadClosed(v, k) =>
      if s.ch.closed then Go(s, t, ReadSlot(v, k)) else Return(s, t, SendOk(t, v, k, |s.received|))
    case ReadSlot(v, k) =>
      Return(s, t, if s.ch.items != [] then SendDoubted(t, v, k, |s.received|, s.ch) else SendOk(t, v, k, |s.received|))
    case Receiving => RecvStep(s, t, true)
  }

  function Do(s: Sys, a: Action): Sys {
    match a
    case Proceed(t) => ProceedStep(s, t)
    case CallSend(t, v) => if PcOf(s, t).Idle? then Go(s, t, Sending(v)) else s
    case CallTrySend(t, v) => if PcOf(s, t).Idle? then TrySendStep(s, t, v) else s
    case CallRecv(t) => if PcOf(s, t).Idle? then Go(s, t, Receiving) else s
    case CallTryRecv(t) => if PcOf(s, t).Idle? then RecvStep(s, t, false) else s
    case CallClose(t) => if PcOf(s, t).Idle? then s.(ch := ClosePass(s.ch)) else s
  }

  // The state after a schedule.
  function Run(s: Sys, schedule: seq<Action>): Sys
    decreases |schedule|
  {
    if schedule == [] then s else Do(Run(s, schedule[..|schedule| - 1]), schedule[|schedule| - 1])
  }

  function Values(ms: seq<Msg>): (r: seq<int>)
    ensures |r| == |ms|
  {
    seq(|ms|, i requires 0 <= i < |ms| => ms[i].value)
  }

  ghost predicate PcOk(s: Sys, t: Tid, pc: Pc) {
    match pc
    case AwaitTaken(v, k) => s.ch.mode.Unbuffered? && k < |s.accepted| && s.accepted[k] == Msg(t, v)
    case ReadClosed(v, k) =>
      && s.ch.mode.Unbuffered? && k < |s.accepted| && s.accepted[k] == Msg(t, v)
      && (s.ch.closed || k < |s.received|)
    case ReadSlot(v, k) =>
      s.ch.mode.Unbuffered? && k < |s.accepted| && s.accepted[k] == Msg(t, v) && s.ch.closed
    case _ => true
  }

  ghost predicate EventOk(s: Sys, e: Event) {
    match e
    case SendOk(t, v, k, takenBefore) => k < |s.accepted| && s.accepted[k] == Msg(t, v) && takenBefore <= |s.received|
    case RecvGot(t, v, k) => k < |s.received| && k < |s.accepted| && s.received[k] == v == s.accepted[k].value
    case SendRefused(_, _, waits, saw) =>
      saw.closed || (!waits && |saw.items| == if saw.mode.Unbuffered? then 1 else saw.capacity)
    case SendDoubted(t, v, k, takenBefore, saw) =>
      && saw.closed && saw.mode.Unbuffered? && saw.items != []
      && k < |s.accepted| && s.accepted[k] == Msg(t, v) && takenBefore <= |s.received|
    case RecvNothing(_, waits, saw) => saw.items == [] && (waits ==> saw.closed)
  }

  ghost predicate Inv(s: Sys) {
    && WellFormed(s.ch)
    && Values(s.accepted) == s.received + s.ch.items
    && (s.ch.mode.Oneshot? && s.accepted != [] ==> s.ch.closed)
    && (s.ch.mode.Oneshot? ==> |s.accepted| <= 1)
    && (forall t | t in s.pcs :: PcOk(s, t, s.pcs[t]))
    && (forall i | 0 <= i < |s.log| :: EventOk(s, s.log[i]))
  }

  // `s'` extends the histories of `s`, keeps its mode and never reopens.
  ghost predicate Later(s: Sys, s': Sys) {
    && s.accepted <= s'.accepted && s.received <= s'.received
    && s'.ch.mode == s.ch.mode && s'.ch.capacity == s.ch.capacity
    && (s.ch.closed ==> s'.ch.closed && s'.accepted == s.accepted)
  }

  lemma LaterKeeps(s: Sys, s': Sys)
    requires Later(s, s')
    ensures forall t, pc | PcOk(s, t, pc) :: PcOk(s', t, pc)
    ensures forall e | EventOk(s, e) :: EventOk(s', e)
  {
  }

  lemma StepLater(s: Sys, a: Action)
    requires WellFormed(s.ch)
    ensures WellFormed(Do(s, a).ch) && Later(s, Do(s, a))
  {
  }

  lemma StepFifo(s: Sys, a: Action)
    requires Values(s.accepted) == s.received + s.ch.items
    ensures var s' := Do(s, a);
            Values(s'.accepted) == s'.received + s'.ch.items
  {
    hide Do;
    StepMoves(s, a);
    var s' := Do(s, a);
    if s'.accepted != s.accepted {
      var m := s'.accepted[|s.accepted|];
      assert Values(s'.accepted) == Values(s.accepted) + [m.value];
    } else if s'.received != s.received {
      assert s.ch.items == [s.ch.items[0]] + s'.ch.items;
    }
  }

  // A step puts one message in, takes one out, or moves none.
  lemma StepMoves(s: Sys, a: Action)
    ensures var s' := Do(s, a);
            || (s'.accepted == s.accepted && s'.received == s.received && s'.ch.items == s.ch.items)
            || (|s'.accepted| == |s.accepted| + 1 && s'.accepted == s.accepted + [s'.accepted[|s.accepted|]]
                && s'.received == s.received && s'.ch.items == s.ch.items + [s'.accepted[|s.accepted|].value])
            || (s.ch.items != [] && s'.accepted == s.accepted
                && s'.received == s.received + [s.ch.items[0]] && s'.ch.items == s.ch.items[1..])
  {
  }

  lemma OtherPcs(s: Sys, a: Action, u: Tid)
    requires u != a.t
    ensures (u in Do(s, a).pcs <==> u in s.pcs) && PcOf(Do(s, a), u) == PcOf(s, u)
  {
  }

  lemma OwnPc(s: Sys, a: Action)
    requires Inv(s)
    ensures PcOk(Do(s, a), a.t, PcOf(Do(s, a), a.t))
  {
    assert |Values(s.accepted)| == |s.received + s.ch.items|;
    if a.t in s.pcs { assert PcOk(s, a.t, s.pcs[a.t]); }
  }

  // Facts at the step that each new program counter records.
  lemma StepPcs(s: Sys, a: Action)
    requires Inv(s)
    ensures var s' := Do(s, a);
            forall t | t in s'.pcs :: PcOk(s', t, s'.pcs[t])
  {
    hide Do, PcOk;
    StepLater(s, a);
    var s' := Do(s, a);
    forall t | t in s'.pcs ensures PcOk(s', t, s'.pcs[t]) {
      if t == a.t {
        OwnPc(s, a);
      } else {
        OtherPcs(s, a, t);
        assert PcOk(s, t, s.pcs[t]);
        LaterKeeps(s, s');
      }
    }
  }

  lemma StepLog(s: Sys, a: Action)
    requires Inv(s)
    ensures var s' := Do(s, a);
            s.log <= s'.log && forall i | 0 <= i < |s'.log| :: EventOk(s', s'.log[i])
  {
    StepLater(s, a);
    StepFifo(s, a);
    var s' := Do(s, a);
    LaterKeeps(s, s');
    if s'.log != s.log {
      assert s'.log == s.log + [s'.log[|s.log|]];
      assert EventOk(s', s'.log[|s.log|]) by { NewEvent(s, a); }
    }
  }

  lemma NewEvent(s: Sys, a: Action)
    requires Inv(s)
    requires |Do(s, a).log| == |s.log| + 1
    ensures EventOk(Do(s, a), Do(s, a).log[|s.log|])
  {
    if a.Proceed? {
      hide SendStep, RecvStep, Inv, EventOk;
      match PcOf(s, a.t)
      case Receiving => ReceiveEvent(s, a.t, true);
      case Sending(v) => SendEvent(s, a.t, v);
      case _ => WokenEvent(s, a.t);
    } else if a.CallTryRecv? {
      hide SendStep, RecvStep, Inv, EventOk;
      ReceiveEvent(s, a.t, false);
    }
  }

  lemma SendEvent(s: Sys, t: Tid, v: int)
    requires |SendStep(s, t, v).log| == |s.log| + 1
    ensures EventOk(SendStep(s, t, v), SendStep(s, t, v).log[|s.log|])
  {
  }

  lemma WokenEvent(s: Sys, t: Tid)
    requires Inv(s) && !PcOf(s, t).Receiving? && !PcOf(s, t).Sending?
    requires |ProceedStep(s, t).log| == |s.log| + 1
    ensures EventOk(ProceedStep(s, t), ProceedStep(s, t).log[|s.log|])
  {
    hide SendStep, RecvStep;
    assert PcOk(s, t, s.pcs[t]);
  }

  lemma ReceiveEvent(s: Sys, t: Tid, waits: bool)
    requires Inv(s) && |RecvStep(s, t, waits).log| == |s.log| + 1
    ensures EventOk(RecvStep(s, t, waits), RecvStep(s, t, waits).log[|s.log|])
  {
    if s.ch.items != [] {
      var k := |s.received|;
      assert (s.received + s.ch.items)[k] == s.ch.items[0];
      assert Values(s.accepted)[k] == s.accepted[k].value;
    }
  }

  lemma StepInv(s: Sys, a: Action)
    requires Inv(s)
    ensures Inv(Do(s, a)) && Later(s, Do(s, a))
  {
    StepLater(s, a);
    StepFifo(s, a);
    StepPcs(s, a);
    StepLog(s, a);
  }

  lemma {:induction false} RunInv(s: Sys, schedule: seq<Action>)
    requires Inv(s)
    ensures Inv(Run(s, schedule)) && Later(s, Run(s, schedule))
    decreases |schedule|
  {
    if schedule != [] {
      RunInv(s, schedule[..|schedule| - 1]);
      StepInv(Run(s, schedule[..|schedule| - 1]), schedule[|schedule| - 1]);
    }
  }

  // ----- What holds of every schedule -----

  // First in, first out, and nothing lost or made up: at every moment the accepted values are, in
  // order, the received ones followed by those still in the ring or the slot.
  lemma {:induction false} FifoConservation(ch: Chan, schedule: seq<Action>)
    requires WellFormed(ch) && ch.items == [] && !ch.closed
    ensures var s := Run(Start(ch), schedule);
            && Values(s.accepted) == s.received + s.ch.items
            && |s.ch.items| <= if ch.mode.Unbuffered? then 1 else ch.capacity
  {
    RunInv(Start(ch), schedule);
  }

  // Once closed, a channel stays closed and accepts nothing more, whatever is scheduled.
  lemma {:induction false} NothingAcceptedAfterClose(ch: Chan, before: seq<Action>, after: seq<Action>)
    requires WellFormed(ch) && ch.items == []
    requires Run(Start(ch), before).ch.closed
    ensures Run(Run(Start(ch), before), after).ch.closed
    ensures Run(Run(Start(ch), before), after).accepted == Run(Start(ch), before).accepted
  {
    RunInv(Start(ch), before);
    RunInv(Run(Start(ch), before), after);
  }

  // A oneshot channel accepts at most one value in its whole life.
  lemma {:induction false} OneshotAcceptsOnce(schedule: seq<Action>)
    ensures |Run(Start(CreateOneshot()), schedule).accepted| <= 1
  {
    RunInv(Start(CreateOneshot()), schedule);
  }

  // A blocking send on an unbuffered channel returns 0 only after its own message, and not one that
  // another thread put into the shared slot, has been handed to a receiver.
  lemma {:induction false} RendezvousReceipt(ch: Chan, schedule: seq<Action>, t: Tid, v: int, k: nat)
    requires WellFormed(ch) && ch.items == [] && ch.mode.Unbuffered?
    ensures var s := Run(Start(ch), schedule);
            var s' := Do(s, Proceed(t));
            s'.log != s.log && s'.log[|s.log|].SendOk? && s'.log[|s.log|].t == t && s'.log[|s.log|].k == k
            ==> && k < |s.received| == s'.log[|s.log|].takenBefore
                && k < |s.accepted| && s.accepted[k].sender == t
                && s.received[k] == s.accepted[k].value == s'.log[|s.log|].v
  {
    RunInv(Start(ch), schedule);
    var s := Run(Start(ch), schedule);
    assert Values(s.accepted) == s.received + s.ch.items;
    StepInv(s, Proceed(t));
    if k < |s.received| && k < |s.accepted| {
      assert Values(s.accepted)[k] == s.received[k];
    }
  }

  // Every return in the log means what it says. A receive that got a message got the one at its own place
  // in the accepted order; a send that returned 0 had its message accepted. A refused `send` saw the channel
  // closed, a refused `try_send` saw it closed or full; a 0 that is no message came from an empty channel,
  // and from `recv` only when that was closed too.
  lemma {:induction false} ReturnsAreHonest(ch: Chan, schedule: seq<Action>, i: nat)
    requires WellFormed(ch) && ch.items == []
    requires i < |Run(Start(ch), schedule).log|
    ensures EventOk(Run(Start(ch), schedule), Run(Start(ch), schedule).log[i])
  {
    RunInv(Start(ch), schedule);
  }

  // What a return logs as seen is the channel at that step, and a return without effect has none.
  lemma SawTheChannel(s: Sys, a: Action)
    requires |Do(s, a).log| > |s.log|
    ensures var s' := Do(s, a);
            var e := s'.log[|s.log|];
            (e.SendRefused? || e.SendDoubted? || e.RecvNothing?)
            ==> e.saw == s.ch == s'.ch && s'.accepted == s.accepted && s'.received == s.received
  {
  }

  // Any idle thread can begin any call, whatever the channel's state; closing takes effect at once and keeps
  // what is in flight.
  lemma CallsBegin(s: Sys, t: Tid, v: int)
    requires PcOf(s, t).Idle?
    ensures PcOf(Do(s, CallSend(t, v)), t) == Sending(v) && Do(s, CallSend(t, v)).ch == s.ch
    ensures PcOf(Do(s, CallRecv(t)), t) == Receiving && Do(s, CallRecv(t)).ch == s.ch
    ensures var s' := Do(s, CallClose(t));
            s'.ch.closed && s'.ch.items == s.ch.items && s'.pcs == s.pcs && s'.log == s.log
  {
  }

  // The calls that never wait answer at once: -1 exactly from a closed channel or one with as many values in
  // flight as it holds, and the 0 that is no message exactly from an empty one.
  lemma TryCallsAnswerIff(s: Sys, t: Tid, v: int)
    requires PcOf(s, t).Idle? && WellFormed(s.ch)
    ensures var s' := Do(s, CallTrySend(t, v));
            && |s'.log| == |s.log| + 1
            && (s'.log[|s.log|] == SendRefused(t, v, false, s.ch)
                <==> s.ch.closed || |s.ch.items| == if s.ch.mode.Unbuffered? then 1 else s.ch.capacity)
            && (s'.log[|s.log|].SendOk? <==> s'.accepted == s.accepted + [Msg(t, v)])
    ensures var s' := Do(s, CallTryRecv(t));
            && |s'.log| == |s.log| + 1
            && (s'.log[|s.log|] == RecvNothing(t, false, s.ch) <==> |s.ch.items| == 0)
            && (s'.log[|s.log|].RecvGot? <==> s'.received != s.received)
  {
    assert s.accepted + [Msg(t, v)] != s.accepted;
  }

  // The blocking calls: a receive comes back without a message exactly from a closed, empty channel, and waits
  // exactly on an open, empty one; a send is refused exactly by a closed channel, and waits exactly on an
  // open one with as many values in flight as it holds.
  lemma BlockingCallsAnswerIff(s: Sys, t: Tid)
    requires WellFormed(s.ch)
    ensures var s' := Do(s, Proceed(t));
            && (PcOf(s, t).Receiving? ==>
                  && (s'.log == s.log + [RecvNothing(t, true, s.ch)] <==> s.ch.closed && |s.ch.items| == 0)
                  && (s' == s <==> !s.ch.closed && |s.ch.items| == 0))
            && (PcOf(s, t).Sending? ==>
                  && (s'.log == s.log + [SendRefused(t, PcOf(s, t).v, true, s.ch)] <==> s.ch.closed)
                  && (s' == s
                      <==> !s.ch.closed && |s.ch.items| == if s.ch.mode.Unbuffered? then 1 else s.ch.capacity))
  {
    var s' := Do(s, Proceed(t));
    assert s'.log == s.log || (|s'.log| == |s.log| + 1 && s'.log == s.log + [s'.log[|s.log|]]);
    assert PcOf(s, t).Sending? && !s.ch.closed && HasRoom(s.ch) ==> |s'.accepted| == |s.accepted| + 1;
    assert forall e, f | s.log + [e] == s.log + [f] :: (s.log + [e])[|s.log|] == (s.log + [f])[|s.log|];
  }

  // A rendezvous send whose value is in the slot waits exactly while the slot is full and the channel open. Then
  // it answers 0 at once if the channel is open; from a closed one it answers -1 exactly if the slot is full.
  lemma RendezvousAnswersIff(s: Sys, t: Tid)
    ensures var s' := Do(s, Proceed(t));
            && (PcOf(s, t).AwaitTaken? ==>
                  && (s' == s <==> !s.ch.closed && |s.ch.items| > 0)
                  && (s' != s ==> PcOf(s', t) == ReadClosed(PcOf(s, t).v, PcOf(s, t).k)))
            && (PcOf(s, t).ReadClosed? ==>
                  && (s.ch.closed <==> PcOf(s', t) == ReadSlot(PcOf(s, t).v, PcOf(s, t).k))
                  && (!s.ch.closed <==> |s'.log| == |s.log| + 1 && s'.log[|s.log|].SendOk?))
            && (PcOf(s, t).ReadSlot? ==>
                  && |s'.log| == |s.log| + 1 && PcOf(s', t).Idle?
                  && (s'.log[|s.log|].SendDoubted? <==> |s.ch.items| > 0)
                  && (s'.log[|s.log|].SendOk? <==> |s.ch.items| == 0))
  {
    if t in s.pcs && PcOf(s, t).AwaitTaken? { assert s.pcs[t] != ReadClosed(PcOf(s, t).v, PcOf(s, t).k); }
  }

  // A blocking receive comes back without a message only from a closed, empty channel; a blocking send
  // fails only on a closed one; and a call goes on waiting only on an open channel that is empty, or full.
  lemma {:induction false} FailuresJustified(s: Sys, t: Tid)
    requires Inv(s)
    ensures var s' := Do(s, Proceed(t));
            && (|s'.log| > |s.log| && s'.log[|s.log|].RecvNothing? ==> s.ch.closed && s.ch.items == [])
            && (|s'.log| > |s.log| && (s'.log[|s.log|].SendRefused? || s'.log[|s.log|].SendDoubted?) ==> s.ch.closed)
            && (s' == s && PcOf(s, t).Receiving? ==> !s.ch.closed && s.ch.items == [])
            && (s' == s && (PcOf(s, t).Sending? || PcOf(s, t).AwaitTaken?) ==>
                  !s.ch.closed && |s.ch.items| == if s.ch.mode.Unbuffered? then 1 else s.ch.capacity)
  {
    if t in s.pcs {
      assert PcOk(s, t, s.pcs[t]);
      if s.pcs[t].AwaitTaken? && Do(s, Proceed(t)) == s { assert Do(s, Proceed(t)).pcs[t] == s.pcs[t]; }
    }
  }

  lemma {:induction false} RunSnoc(s: Sys, schedule: seq<Action>, a: Action)
    ensures Run(s, schedule + [a]) == Do(Run(s, schedule), a)
  {
    assert (schedule + [a])[..|schedule|] == schedule;
  }

  lemma NothingRun(s: Sys)
    ensures Run(s, []) == s
  {
  }
}
