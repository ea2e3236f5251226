// The receive loop shared by the actor, the fan-in and fan-out workers and the pipeline stage: ask
// whether the source is closed and empty, receive, ask again with the value in hand, pass it on.
// Everything between two critical sections of the source channel is a separate step, and any
// number of other threads may send to or close the source in between.
module Pump {
  import opened ChannelSpec

  // Where the loop is. `got` records whether the value in hand was received or is the 0 that
  // `recv` makes up for a closed and empty channel; the code itself cannot tell.
  datatype Phase =
    | Top                               // about to read the stop flag
    | AskClosed
    | AskCount                          // is_closed said yes
    | Receive
    | Recheck(v: int, got: bool)       // only in loops that read the stop flag again
    | AskClosedAgain(v: int, got: bool)
    | AskCountAgain(v: int, got: bool)
    | Deliver(v: int, got: bool)       // about to call the handler, or to send
    | Exited

  // A loop and its source. `accepted` is what the source held at first and all it took since, `delivered`
  // is what was passed on, `turns` counts the times round.
  datatype Pump = Pump(ch: Chan, rechecks: bool, accepted: seq<int>, received: nat,
                       delivered: seq<int>, phase: Phase, sawStop: bool, turns: nat)

  function Start(ch: Chan, rechecks: bool): Pump { Pump(ch, rechecks, ch.items, 0, [], Top, false, 0) }

  // ----- Other threads -----

  function Feed(p: Pump, v: int): Pump {
    var (ch, outcome) := SendPass(p.ch, v);
    if outcome.Accepted? || outcome.Placed? then p.(ch := ch, accepted := p.accepted + [v]) else p
  }

  function Shut(p: Pump): Pump { p.(ch := ClosePass(p.ch)) }

  // ----- The loop -----

  // One step of the loop other than passing the value on. `stop` is the flag as read now.
  function Step(p: Pump, stop: bool): Pump {
    match p.phase
    case Top =>
      if stop then p.(phase := Exited, sawStop := true) else p.(phase := AskClosed, turns := p.turns + 1)
    case AskClosed => p.(phase := if p.ch.closed then AskCount else Receive)
    case AskCount => p.(phase := if |p.ch.items| == 0 then Exited else Receive)
    case Receive =>
      (match RecvPass(p.ch)
       case (ch, Waiting) => p
       case (ch, Drained) => Hold(p, 0, false)
       case (ch, Value(v)) => Hold(p.(ch := ch, received := p.received + 1), v, true))
    case Recheck(v, got) =>
      if stop then p.(phase := Exited, sawStop := true) else p.(phase := AskClosedAgain(v, got))
    case AskClosedAgain(v, got) =>
      p.(phase := if p.ch.closed then AskCountAgain(v, got) else Deliver(v, got))
    case AskCountAgain(v, got) =>
      p.(phase := if |p.ch.items| == 0 && v == 0 then Exited else Deliver(v, got))
    case Deliver(_, _) => p
    case Exited => p
  }

  function Hold(p: Pump, v: int, got: bool): Pump {
    p.(phase := if p.rechecks then Recheck(v, got) else AskClosedAgain(v, got))
  }

  function PassOn(p: Pump): Pump
    requires p.phase.Deliver?
  {
    p.(delivered := p.delivered + [p.phase.v], phase := Top)
  }

  // ----- What every step keeps -----

  predicate Holding(ph: Phase) { ph.Recheck? || ph.AskClosedAgain? || ph.AskCountAgain? || ph.Deliver? }

  ghost predicate Inv(p: Pump) {
    && WellFormed(p.ch)
    && p.received <= |p.accepted|
    && p.accepted[p.received..] == p.ch.items
    && (p.phase.AskCount? || p.phase.AskCountAgain? ==> p.ch.closed)
    && (p.phase.Deliver? ==> p.phase.got)
    && (if Holding(p.phase) && p.phase.got then p.accepted[..p.received] == p.delivered + [p.phase.v]
        else if p.phase.Exited? then
          if p.sawStop then Short(p.delivered, p.accepted[..p.received])
          else p.ch.closed && p.ch.items == [] && (p.accepted == p.delivered || p.accepted == p.delivered + [0])
        else p.accepted[..p.received] == p.delivered)
    && (Holding(p.phase) && !p.phase.got ==> p.phase.v == 0 && p.ch.closed && p.ch.items == [])
    && (p.sawStop ==> p.phase.Exited?)
  }

  // `d` is all of `r`, or all but its last element.
  ghost predicate Short(d: seq<int>, r: seq<int>) {
    d == r || (r != [] && d == r[..|r| - 1])
  }

  lemma StartInv(ch: Chan, rechecks: bool)
    requires WellFormed(ch)
    ensures Inv(Start(ch, rechecks))
  {
  }

  lemma FeedInv(p: Pump, v: int)
    requires Inv(p)
    ensures Inv(Feed(p, v)) && p.accepted <= Feed(p, v).accepted
    ensures Feed(p, v).delivered == p.delivered && Feed(p, v).sawStop == p.sawStop && Feed(p, v).phase == p.phase
  {
    var q := Feed(p, v);
    if q != p {
      assert q.accepted[q.received..] == p.accepted[p.received..] + [v];
      assert q.accepted[..q.received] == p.accepted[..p.received];
    }
  }

  lemma ShutInv(p: Pump)
    requires Inv(p)
    ensures Inv(Shut(p))
    ensures Shut(p).delivered == p.delivered && Shut(p).sawStop == p.sawStop && Shut(p).phase == p.phase
  {
  }

  lemma ReceiveInv(p: Pump)
    requires Inv(p) && p.phase.Receive?
    ensures Inv(Step(p, false)) && Step(p, false).accepted == p.accepted
  {
    var q := Step(p, false);
    if p.ch.items != [] {
      assert p.accepted[p.received..][0] == p.ch.items[0];
      assert p.accepted[..q.received] == p.accepted[..p.received] + [p.ch.items[0]];
      assert q.accepted[q.received..] == p.accepted[p.received..][1..];
    }
  }

  lemma ExitInv(p: Pump, stop: bool)
    requires Inv(p) && !p.phase.Exited? && Step(p, stop).phase.Exited?
    ensures Inv(Step(p, stop))
  {
    var q := Step(p, stop);
    assert p.ch.items == [] ==> p.accepted[..p.received] == p.accepted;
    if q.sawStop && Holding(p.phase) && p.phase.got {
      assert (p.delivered + [p.phase.v])[..|p.delivered|] == p.delivered;
    }
  }

  lemma AskInv(p: Pump, stop: bool)
    requires Inv(p) && !p.phase.Receive? && !p.phase.Exited? && !Step(p, stop).phase.Exited?
    ensures Inv(Step(p, stop))
  {
  }

  lemma StepKeepsHistory(p: Pump, stop: bool)
    ensures Step(p, stop).accepted == p.accepted && Step(p, stop).delivered == p.delivered
    ensures p.phase.Receive? ==> Step(p, stop) == Step(p, false)
    ensures p.phase.Exited? ==> Step(p, stop) == p
  {
  }

  lemma StepInv(p: Pump, stop: bool)
    requires Inv(p)
    ensures Inv(Step(p, stop)) && Step(p, stop).accepted == p.accepted && Step(p, stop).delivered == p.delivered
  {
    hide Inv, Step;
    StepKeepsHistory(p, stop);
    if p.phase.Receive? {
      ReceiveInv(p);
    } else if !p.phase.Exited? {
      if Step(p, stop).phase.Exited? { ExitInv(p, stop); } else { AskInv(p, stop); }
    }
  }

  // Neither the loop nor a send reopens the source.
  lemma StaysClosed(p: Pump, stop: bool)
    requires p.ch.closed
    ensures Step(p, stop).ch.closed && (p.phase.Deliver? ==> PassOn(p).ch.closed)
  {
  }

  lemma FeedClosed(p: Pump, v: int)
    requires p.ch.closed
    ensures Feed(p, v).ch.closed
  {
  }

  // What a step means for the stop flag.
  lemma StepSawStop(p: Pump, stop: bool)
    ensures Step(p, stop).sawStop ==> p.sawStop || stop
  {
  }

  lemma PassOnInv(p: Pump)
    requires Inv(p) && p.phase.Deliver?
    ensures Inv(PassOn(p)) && PassOn(p).delivered <= PassOn(p).accepted
    ensures p.phase.got && |p.delivered| < |p.accepted| && p.phase.v == p.accepted[|p.delivered|]
    ensures PassOn(p).delivered == p.delivered + [p.phase.v]
    ensures !PassOn(p).phase.Exited? && PassOn(p).sawStop == p.sawStop
  {
    assert p.accepted[..p.received][|p.delivered|] == p.phase.v;
  }

  // No value is made up, lost in the middle or reordered: what was passed on begins what was accepted.
  lemma DeliveredIsPrefix(p: Pump)
    requires Inv(p)
    ensures p.delivered <= p.accepted
  {
    var r := p.accepted[..p.received];
    assert p.delivered <= r || p.delivered <= p.accepted;
  }

  // A loop that ends without having been told to stop leaves something behind exactly when it ends at the
  // second test with a received value in hand: a 0 that nothing follows, which the test that catches the
  // made-up 0 catches too. At the first test nothing is ever left.
  lemma FinalZeroLostIff(p: Pump, stop: bool)
    requires Inv(p) && !p.phase.Exited?
    requires Step(p, stop).phase.Exited? && !Step(p, stop).sawStop
    ensures Step(p, stop).delivered != Step(p, stop).accepted <==> p.phase.AskCountAgain? && p.phase.got
    ensures p.phase.AskCountAgain? ==> p.phase.v == 0 && p.received == |p.accepted|
  {
    assert |p.accepted[p.received..]| == |p.accepted| - p.received;
    assert p.received == |p.accepted| ==> p.accepted[..p.received] == p.accepted;
    if Holding(p.phase) && p.phase.got { assert |p.delivered + [p.phase.v]| == |p.delivered| + 1; }
  }

  // If the last value accepted is not 0, a loop that was not told to stop has passed everything on when it ends.
  lemma CompleteUnlessFinalZero(p: Pump)
    requires Inv(p) && p.phase.Exited? && !p.sawStop
    requires p.accepted == [] || p.accepted[|p.accepted| - 1] != 0
    ensures p.delivered == p.accepted
  {
    assert (p.delivered + [0])[|p.delivered|] == 0;
  }

  // ----- The loop ends -----

  // Steps left at most in the current turn, on a closed source.
  function Rank(ph: Phase): nat {
    match ph
    case Top => 7
    case AskClosed => 6
    case AskCount => 5
    case Receive => 4
    case Recheck(_, got) => if got then 11 else 3
    case AskClosedAgain(_, got) => if got then 10 else 2
    case AskCountAgain(_, got) => if got then 9 else 1
    case Deliver(_, _) => 8
    case Exited => 0
  }

  function Remaining(p: Pump): nat { 8 * |p.ch.items| + Rank(p.phase) }

  // On a closed source every step of the loop makes progress: it never waits, and it ends.
  lemma ClosedLoopProgresses(p: Pump, stop: bool)
    requires Inv(p) && p.ch.closed && !p.phase.Exited?
    ensures p.phase.Deliver? ==> Remaining(PassOn(p)) < Remaining(p)
    ensures !p.phase.Deliver? ==> Remaining(Step(p, stop)) < Remaining(p)
  {
  }

  // On an open source too: the loop waits exactly where it receives from an open, empty one, and every other
  // step brings the values there are nearer to being passed on.
  lemma LoopWaitsIff(p: Pump, stop: bool)
    requires Inv(p) && !p.phase.Exited? && !p.phase.Deliver?
    ensures Step(p, stop) == p <==> p.phase.Receive? && !p.ch.closed && |p.ch.items| == 0
    ensures Step(p, stop) != p ==> Remaining(Step(p, stop)) < Remaining(p)
  {
  }

  // A closed, empty source ends the loop at its first test, before it receives; with a value in hand the second test
  // ends it exactly if the value is 0.
  lemma TestsEndIff(p: Pump, stop: bool)
    ensures p.phase.AskClosed? ==> (Step(p, stop).phase.AskCount? <==> p.ch.closed)
    ensures p.phase.AskCount? ==> (Step(p, stop).phase.Exited? <==> |p.ch.items| == 0)
    ensures p.phase.AskClosedAgain? ==> (Step(p, stop).phase.AskCountAgain? <==> p.ch.closed)
    ensures p.phase.AskCountAgain? ==> (Step(p, stop).phase.Exited? <==> |p.ch.items| == 0 && p.phase.v == 0)
  {
  }

  // What the other threads can do: an open channel with room takes a value, and closing closes.
  lemma FeedStoresIff(p: Pump, v: int)
    requires WellFormed(p.ch)
    ensures var q := Feed(p, v);
            && (q.accepted == p.accepted + [v] <==>
                  !p.ch.closed && |p.ch.items| < if p.ch.mode.Unbuffered? then 1 else p.ch.capacity)
            && (q.accepted != p.accepted + [v] ==> q == p)
    ensures Shut(p).ch.closed && Shut(p).ch.items == p.ch.items
  {
    SendsInNumbers(p.ch, v);
    assert p.accepted != p.accepted + [v];
  }

  // ----- The stop flag -----

  // Values that may still be passed on once the flag is set: one, if the loop is past its last look at it.
  function Due(p: Pump): nat {
    match p.phase
    case Top => 0
    case AskClosed => if p.rechecks then 0 else 1
    case AskCount => if p.rechecks then 0 else 1
    case Receive => if p.rechecks then 0 else 1
    case Recheck(_, _) => 0
    case AskClosedAgain(_, _) => 1
    case AskCountAgain(_, _) => 1
    case Deliver(_, _) => 1
    case Exited => 0
  }

  // Steps to the end once the flag is set.
  function StopRank(ph: Phase): nat {
    match ph
    case AskClosed => 8
    case AskCount => 7
    case Receive => 6
    case Recheck(_, _) => 5
    case AskClosedAgain(_, _) => 5
    case AskCountAgain(_, _) => 4
    case Deliver(_, _) => 3
    case Top => 2
    case Exited => 0
  }

  // With the flag set nothing new becomes due, and the loop ends within eight steps of its own: at its next
  // test of the flag, unless it waits for a value of an open, empty source before that.
  lemma StoppedStep(p: Pump)
    ensures |Step(p, true).delivered| + Due(Step(p, true)) <= |p.delivered| + Due(p)
    ensures Step(p, true).rechecks == p.rechecks
    ensures !p.phase.Deliver? && Step(p, true) != p ==> StopRank(Step(p, true).phase) < StopRank(p.phase)
    ensures p.phase.Top? || p.phase.Recheck? ==> Step(p, true).phase.Exited? && Step(p, true).sawStop
  {
  }

  lemma StoppedPassOn(p: Pump)
    requires p.phase.Deliver?
    ensures |PassOn(p).delivered| + Due(PassOn(p)) <= |p.delivered| + Due(p) && PassOn(p).rechecks == p.rechecks
    ensures StopRank(PassOn(p).phase) < StopRank(p.phase)
  {
  }

  lemma StepFrame(p: Pump, stop: bool)
    ensures Step(p, stop).delivered == p.delivered && Step(p, stop).rechecks == p.rechecks
    ensures p.phase.Deliver? ==> PassOn(p).delivered == p.delivered + [p.phase.v] && PassOn(p).rechecks == p.rechecks
  {
  }

  lemma OthersAside(p: Pump, v: int)
    ensures var q := Feed(p, v);
            q.delivered == p.delivered && q.phase == p.phase && q.rechecks == p.rechecks
    ensures var q := Shut(p);
            q.delivered == p.delivered && q.phase == p.phase && q.rechecks == p.rechecks
  {
  }

  // Turns taken plus turns still to come on a closed source.
  function TurnBound(p: Pump): nat {
    p.turns + |p.ch.items| + if p.phase.Top? || (Holding(p.phase) && p.phase.got) then 1 else 0
  }

  lemma TurnBoundKept(p: Pump, stop: bool, v: int)
    requires Inv(p) && p.ch.closed
    ensures TurnBound(Step(p, stop)) <= TurnBound(p) && Step(p, stop).ch.closed
    ensures p.phase.Deliver? ==> TurnBound(PassOn(p)) <= TurnBound(p) && PassOn(p).ch.closed
    ensures Feed(p, v) == p && Shut(p) == p
  {
  }
}
