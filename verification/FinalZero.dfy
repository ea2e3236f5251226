// The final 0 that the receive loop drops, in the two loops with outputs: for which values can it happen?
module PumpTurns {
  import opened ChannelSpec
  import opened Pump

  // At the top of the loop, everything passed on, the source open.
  ghost predicate Resting(p: Pump) {
    && p.phase.Top? && !p.rechecks && !p.sawStop
    && WellFormed(p.ch) && p.ch.items == [] && !p.ch.closed && |p.delivered| == |p.accepted|
  }

  // The loop neither has a value to pass on nor is over.
  predicate Quiet(p: Pump) { !p.phase.Deliver? && !p.phase.Exited? }

  // Going round: a value arrives while the loop waits, and is taken in.
  lemma TakesIn(p: Pump, v: int)
    requires Resting(p) && !p.ch.mode.Oneshot?
    ensures var p1 := Step(p, false); var p2 := Step(p1, false); var p3 := Feed(p2, v); var p4 := Step(p3, false);
      && Quiet(p) && Quiet(p1) && Quiet(p3) && Quiet(p4)
      && Step(p4, false) == p.(accepted := p.accepted + [v], received := p.received + 1,
                               phase := Deliver(v, true), turns := p.turns + 1)
  {
    var p3 := Feed(Step(Step(p, false), false), v);
    assert p3 == p.(ch := p3.ch, accepted := p.accepted + [v], phase := Phase.Receive, turns := p.turns + 1);
    assert p3.ch == p.ch.(items := [v]) && [v][1..] == p.ch.items;
  }

  // A 0 arrives in the same way, but the source is closed before the loop asks again.
  lemma DropsZero(p: Pump)
    requires Resting(p)
    ensures var p1 := Step(p, false); var p2 := Step(p1, false); var p3 := Feed(p2, 0); var p4 := Step(p3, false);
      var p5 := Shut(p4); var p6 := Step(p5, false); var p7 := Step(p6, false);
      && Quiet(p) && Quiet(p1) && Quiet(p3) && Quiet(p5) && Quiet(p6)
      && p7.phase.Exited? && !p7.sawStop && p7.accepted == p.accepted + [0] && p7.delivered == p.delivered
  {
    var p3 := Feed(Step(Step(p, false), false), 0);
    assert p3 == p.(ch := p3.ch, accepted := p.accepted + [0], phase := Phase.Receive, turns := p.turns + 1);
    assert p3.ch.items == [0];
    var p5 := Shut(Step(p3, false));
    assert p5 == p3.(ch := p5.ch, received := p.received + 1, phase := AskClosedAgain(0, true));
    assert p5.ch.closed && p5.ch.items == [];
  }

  predicate EndsInZero(vs: seq<int>) { vs != [] && vs[|vs| - 1] == 0 }
}

module FanInLoss {
  import opened ChannelSpec
  import Pump
  import opened PumpTurns
  import opened FanInSystem

  ghost predicate Reaches(s: FanIn, s': FanIn) {
    exists schedule :: Run(s, schedule) == s'
  }

  lemma ReachesNext(s: FanIn, s': FanIn, a: Action)
    requires Reaches(s, s')
    ensures Reaches(s, Do(s', a))
  {
    hide Do;
    var schedule :| Run(s, schedule) == s';
    assert (schedule + [a])[..|schedule|] == schedule;
    assert Run(s, schedule + [a]) == Do(s', a);
  }

  lemma Stays(s: FanIn)
    ensures Reaches(s, s)
  {
    assert Run(s, []) == s;
  }

  lemma SetTwice(s: FanIn, i: nat, p: Pump.Pump, q: Pump.Pump)
    requires i < |s.workers|
    ensures SetPump(SetPump(s, i, p), i, q) == SetPump(s, i, q)
  {
    assert WithPump(WithPump(s.workers, i, p), i, q) == WithPump(s.workers, i, q);
  }

  // One more step of worker i inside its loop.
  lemma Stepped(s0: FanIn, s: FanIn, i: nat, p: Pump.Pump)
    requires i < |s.workers| && s.workers[i].tail.InLoop? && Quiet(p) && Reaches(s0, SetPump(s, i, p))
    ensures Reaches(s0, SetPump(s, i, Pump.Step(p, false)))
  {
    hide Pump.Step, Reaches;
    SetTwice(s, i, p, Pump.Step(p, false));
    ReachesNext(s0, SetPump(s, i, p), Work(i));
  }

  lemma Fed(s0: FanIn, s: FanIn, i: nat, p: Pump.Pump, v: int)
    requires i < |s.workers| && Reaches(s0, SetPump(s, i, p))
    ensures Reaches(s0, SetPump(s, i, Pump.Feed(p, v)))
  {
    hide Pump.Feed, Reaches;
    SetTwice(s, i, p, Pump.Feed(p, v));
    ReachesNext(s0, SetPump(s, i, p), Send(i, v));
  }

  lemma Closed(s0: FanIn, s: FanIn, i: nat, p: Pump.Pump)
    requires i < |s.workers| && Reaches(s0, SetPump(s, i, p))
    ensures Reaches(s0, SetPump(s, i, Pump.Shut(p)))
  {
    hide Pump.Shut, Reaches;
    SetTwice(s, i, p, Pump.Shut(p));
    ReachesNext(s0, SetPump(s, i, p), Close(i));
  }

  // Worker i has nothing in hand and the output is empty.
  ghost predicate Ready(s: FanIn, i: nat) {
    && i < |s.workers| && s.workers[i].tail.InLoop? && Resting(s.workers[i].pump)
    && s.out.mode.Buffered? && s.out.capacity >= 1 && s.out.items == [] && !s.out.closed
  }

  lemma Unmoved(s: FanIn, i: nat)
    requires i < |s.workers|
    ensures SetPump(s, i, s.workers[i].pump) == s
  {
  }

  // Worker i forwards one more value, which is received from the output at once.
  lemma PassOne(s0: FanIn, s: FanIn, i: nat, v: int) returns (s': FanIn)
    requires Reaches(s0, s) && Ready(s, i) && !s.workers[i].pump.ch.mode.Oneshot?
    ensures Reaches(s0, s') && Ready(s', i)
    ensures var p, p' := s.workers[i].pump, s'.workers[i].pump; p'.ch == p.ch && p'.accepted == p.accepted + [v]
  {
    hide Reaches, SetPump, Pump.Step, Pump.Feed, Do;
    var p := s.workers[i].pump;
    TakesIn(p, v);
    Unmoved(s, i);
    var p1 := Pump.Step(p, false);
    var p2 := Pump.Step(p1, false);
    var p3 := Pump.Feed(p2, v);
    var p4 := Pump.Step(p3, false);
    Stepped(s0, s, i, p);
    Stepped(s0, s, i, p1);
    Fed(s0, s, i, p2, v);
    Stepped(s0, s, i, p3);
    Stepped(s0, s, i, p4);
    var held := SetPump(s, i, Pump.Step(p4, false));
    ReachesNext(s0, held, Work(i));
    ReachesNext(s0, Do(held, Work(i)), Take);
    s' := Do(Do(held, Work(i)), Take);
    Forwarded(s, i, Pump.Step(p4, false));
  }

  lemma Forwarded(s: FanIn, i: nat, p: Pump.Pump)
    requires Ready(s, i) && p.phase.Deliver?
    ensures var s' := Do(Do(SetPump(s, i, p), Work(i)), Take);
      && s'.workers == WithPump(s.workers, i, Pump.PassOn(p))
      && s'.out == s.out
  {
    hide Pump.PassOn;
    var held := SetPump(s, i, p);
    var sent := Do(held, Work(i));
    assert sent.workers == WithPump(s.workers, i, Pump.PassOn(p));
    assert sent.out == s.out.(items := [p.phase.v]);
  }

  lemma {:induction false} PassAll(s0: FanIn, i: nat, vs: seq<int>) returns (s: FanIn)
    requires Ready(s0, i) && s0.workers[i].pump.accepted == [] && (vs == [] || !s0.workers[i].pump.ch.mode.Oneshot?)
    ensures Reaches(s0, s) && Ready(s, i) && s.workers[i].pump.accepted == vs
    ensures s.workers[i].pump.ch == s0.workers[i].pump.ch
  {
    hide Reaches;
    if vs == [] {
      Stays(s0);
      s := s0;
    } else {
      var n := |vs| - 1;
      var before := PassAll(s0, i, vs[..n]);
      s := PassOne(s0, before, i, vs[n]);
      assert vs[..n] + [vs[n]] == vs;
    }
  }

  lemma LoseZero(s0: FanIn, s: FanIn, i: nat) returns (s': FanIn)
    requires Reaches(s0, s) && Ready(s, i)
    ensures Reaches(s0, s') && |s'.workers| == |s.workers|
    ensures var p, p' := s.workers[i].pump, s'.workers[i].pump;
      p'.phase.Exited? && p'.accepted == p.accepted + [0] && p'.delivered == p.delivered
  {
    hide Reaches, Pump.Step, Pump.Feed, Pump.Shut;
    var p := s.workers[i].pump;
    DropsZero(p);
    Unmoved(s, i);
    var p1 := Pump.Step(p, false);
    var p2 := Pump.Step(p1, false);
    var p3 := Pump.Feed(p2, 0);
    var p4 := Pump.Step(p3, false);
    var p5 := Pump.Shut(p4);
    var p6 := Pump.Step(p5, false);
    Stepped(s0, s, i, p);
    Stepped(s0, s, i, p1);
    Fed(s0, s, i, p2, 0);
    Stepped(s0, s, i, p3);
    Closed(s0, s, i, p4);
    Stepped(s0, s, i, p5);
    Stepped(s0, s, i, p6);
    s' := SetPump(s, i, Pump.Step(p6, false));
  }

  // A worker that is done forwarded less than its input accepted.
  ghost predicate LosesSome(inputs: seq<Chan>, outCapacity: int, schedule: seq<Action>, i: nat, vs: seq<int>) {
    var s := Run(Created(inputs, outCapacity), schedule);
    i < |s.workers| && s.workers[i].pump.phase.Exited? && s.workers[i].pump.accepted == vs && From(s.log, i) != vs
  }

  // The exact condition: of the values an open, empty input accepts, some run leaves one unforwarded if and
  // only if the last of them is 0. (A oneshot input accepts one value only.)
  lemma LossPossibleIff(inputs: seq<Chan>, outCapacity: int, i: nat, vs: seq<int>)
    requires Inputs(inputs) && i < |inputs| && inputs[i].items == [] && !inputs[i].closed
    requires inputs[i].mode.Oneshot? ==> |vs| <= 1
    ensures (exists schedule :: LosesSome(inputs, outCapacity, schedule, i, vs)) <==> EndsInZero(vs)
  {
    hide Run;
    var s0 := Created(inputs, outCapacity);
    if EndsInZero(vs) {
      var n := |vs| - 1;
      var s := PassAll(s0, i, vs[..n]);
      var s' := LoseZero(s0, s, i);
      var schedule :| Run(s0, schedule) == s';
      assert vs[..n] + [0] == vs;
      CreatedInv(inputs, outCapacity);
      RunInv(s0, schedule);
      assert LosesSome(inputs, outCapacity, schedule, i, vs);
    }
    forall schedule | LosesSome(inputs, outCapacity, schedule, i, vs)
      ensures EndsInZero(vs)
    {
      EverythingForwarded(inputs, outCapacity, schedule, i);
    }
  }
}

module FanOutLoss {
  import opened ChannelSpec
  import Pump
  import opened PumpTurns
  import opened FanOutSystem

  ghost predicate Reaches(s: FanOut, s': FanOut) {
    exists schedule :: Run(s, schedule) == s'
  }

  lemma ReachesNext(s: FanOut, s': FanOut, a: Action)
    requires Reaches(s, s')
    ensures Reaches(s, Do(s', a))
  {
    hide Do;
    var schedule :| Run(s, schedule) == s';
    assert (schedule + [a])[..|schedule|] == schedule;
    assert Run(s, schedule + [a]) == Do(s', a);
  }

  lemma Stays(s: FanOut)
    ensures Reaches(s, s)
  {
    assert Run(s, []) == s;
  }

  // One more step inside the loop, which nobody has stopped.
  lemma Stepped(s0: FanOut, s: FanOut, p: Pump.Pump)
    requires s.tail.InLoop? && s.running && Quiet(p) && Reaches(s0, s.(pump := p))
    ensures Reaches(s0, s.(pump := Pump.Step(p, false)))
  {
    hide Pump.Step, Reaches;
    ReachesNext(s0, s.(pump := p), Work);
  }

  lemma Fed(s0: FanOut, s: FanOut, p: Pump.Pump, v: int)
    requires Reaches(s0, s.(pump := p))
    ensures Reaches(s0, s.(pump := Pump.Feed(p, v)))
  {
    hide Pump.Feed, Reaches;
    ReachesNext(s0, s.(pump := p), Send(v));
  }

  lemma Closed(s0: FanOut, s: FanOut, p: Pump.Pump)
    requires Reaches(s0, s.(pump := p))
    ensures Reaches(s0, s.(pump := Pump.Shut(p)))
  {
    hide Pump.Shut, Reaches;
    ReachesNext(s0, s.(pump := p), Close);
  }

  // The loop has nothing in hand and the outputs are empty.
  ghost predicate Ready(s: FanOut) {
    && s.tail.InLoop? && s.running && Resting(s.pump) && s.rr < |s.outs|
    && forall i | 0 <= i < |s.outs| :: Vacant(s.outs[i].ch)
  }

  predicate Vacant(ch: Chan) { ch.mode.Buffered? && ch.capacity >= 1 && ch.items == [] && !ch.closed }

  // The loop deals one more value, which is received from its output at once.
  lemma PassOne(s0: FanOut, s: FanOut, v: int) returns (s': FanOut)
    requires Reaches(s0, s) && Ready(s) && !s.pump.ch.mode.Oneshot?
    ensures Reaches(s0, s') && Ready(s')
    ensures s'.pump.ch == s.pump.ch && s'.pump.accepted == s.pump.accepted + [v]
  {
    hide Reaches, Pump.Step, Pump.Feed, Do;
    var p := s.pump;
    TakesIn(p, v);
    var p1 := Pump.Step(p, false);
    var p2 := Pump.Step(p1, false);
    var p3 := Pump.Feed(p2, v);
    var p4 := Pump.Step(p3, false);
    assert s.(pump := p) == s;
    Stepped(s0, s, p);
    Stepped(s0, s, p1);
    Fed(s0, s, p2, v);
    Stepped(s0, s, p3);
    Stepped(s0, s, p4);
    var held := s.(pump := Pump.Step(p4, false));
    ReachesNext(s0, held, Work);
    ReachesNext(s0, Do(held, Work), Take(s.rr));
    s' := Do(Do(held, Work), Take(s.rr));
    Dealt(s, Pump.Step(p4, false));
  }

  lemma Dealt(s: FanOut, p: Pump.Pump)
    requires Ready(s) && p.phase.Deliver?
    ensures var s' := Do(Do(s.(pump := p), Work), Take(s.rr));
      && s'.pump == Pump.PassOn(p) && s'.tail == s.tail && s'.running && s'.rr < |s'.outs|
      && forall i | 0 <= i < |s'.outs| :: Vacant(s'.outs[i].ch)
  {
    hide Pump.PassOn;
    var sent := Do(s.(pump := p), Work);
    assert Vacant(s.outs[s.rr].ch);
    assert sent.outs[s.rr].ch == s.outs[s.rr].ch.(items := [p.phase.v]);
    assert forall i | 0 <= i < |s.outs| && i != s.rr :: sent.outs[i] == s.outs[i];
  }

  lemma {:induction false} PassAll(s0: FanOut, vs: seq<int>) returns (s: FanOut)
    requires Ready(s0) && s0.pump.accepted == [] && (vs == [] || !s0.pump.ch.mode.Oneshot?)
    ensures Reaches(s0, s) && Ready(s) && s.pump.accepted == vs && s.pump.ch == s0.pump.ch
  {
    hide Reaches;
    if vs == [] {
      Stays(s0);
      s := s0;
    } else {
      var n := |vs| - 1;
      var before := PassAll(s0, vs[..n]);
      s := PassOne(s0, before, vs[n]);
      assert vs[..n] + [vs[n]] == vs;
    }
  }

  lemma LoseZero(s0: FanOut, s: FanOut) returns (s': FanOut)
    requires Reaches(s0, s) && Ready(s)
    ensures Reaches(s0, s')
    ensures var p, p' := s.pump, s'.pump;
      p'.phase.Exited? && !p'.sawStop && p'.accepted == p.accepted + [0] && p'.delivered == p.delivered
  {
    hide Reaches, Pump.Step, Pump.Feed, Pump.Shut;
    var p := s.pump;
    DropsZero(p);
    var p1 := Pump.Step(p, false);
    var p2 := Pump.Step(p1, false);
    var p3 := Pump.Feed(p2, 0);
    var p4 := Pump.Step(p3, false);
    var p5 := Pump.Shut(p4);
    var p6 := Pump.Step(p5, false);
    assert s.(pump := p) == s;
    Stepped(s0, s, p);
    Stepped(s0, s, p1);
    Fed(s0, s, p2, 0);
    Stepped(s0, s, p3);
    Closed(s0, s, p4);
    Stepped(s0, s, p5);
    Stepped(s0, s, p6);
    s' := s.(pump := Pump.Step(p6, false));
  }

  // A loop that is over without having been stopped dealt less than the input accepted.
  ghost predicate LosesSome(input: Chan, n: nat, outCapacity: int, schedule: seq<Action>, vs: seq<int>) {
    var s := Run(Created(input, n, outCapacity), schedule);
    s.pump.phase.Exited? && !s.pump.sawStop && s.pump.accepted == vs && s.pump.delivered != vs
  }

  // The exact condition: of the values an open, empty input accepts, some unstopped run leaves one undealt
  // if and only if the last of them is 0.
  lemma LossPossibleIff(input: Chan, n: nat, outCapacity: int, vs: seq<int>)
    requires WellFormed(input) && input.items == [] && !input.closed && n > 0
    requires input.mode.Oneshot? ==> |vs| <= 1
    ensures (exists schedule :: LosesSome(input, n, outCapacity, schedule, vs)) <==> EndsInZero(vs)
  {
    hide Run;
    var s0 := Created(input, n, outCapacity);
    if EndsInZero(vs) {
      var k := |vs| - 1;
      var s := PassAll(s0, vs[..k]);
      var s' := LoseZero(s0, s);
      var schedule :| Run(s0, schedule) == s';
      assert vs[..k] + [0] == vs;
      assert LosesSome(input, n, outCapacity, schedule, vs);
    }
    forall schedule | LosesSome(input, n, outCapacity, schedule, vs)
      ensures EndsInZero(vs)
    {
      CreatedInv(input, n, outCapacity);
      RunInv(s0, schedule);
    }
  }
}
