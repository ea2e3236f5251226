// Fan-out: one loop that deals the values of an input channel to n buffered outputs in turn, and
// closes them all when it ends.
module FanOutSystem {
  import opened ChannelSpec
  import Pump
  import Arith

  datatype Output = Output(ch: Chan, log: seq<int>, taken: seq<int>)

  // `ClosingAt(i)`: the loop is over and outputs below i have been closed.
  datatype Tail = InLoop | ClosingAt(i: nat) | Finished

  datatype FanOut = FanOut(pump: Pump.Pump, outs: seq<Output>, rr: nat, running: bool, tail: Tail, refused: nat)

  datatype Action =
    | Send(v: int) | Close     // other threads, on the input
    | Stop                     // destroy clears the running flag
    | Take(i: nat)             // some other thread receives from output i
    | Work

  function Created(input: Chan, n: nat, outCapacity: int): FanOut {
    FanOut(Pump.Start(input, false), seq(n, _ => Output(CreateBuffered(outCapacity), [], [])), 0, true, InLoop, 0)
  }

  function Forward(s: FanOut): FanOut
    requires s.pump.phase.Deliver? && s.rr < |s.outs|
  {
    var o := s.outs[s.rr];
    var v := s.pump.phase.v;
    match SendPass(o.ch, v)
    case (_, Blocked) => s
    case (ch, outcome) =>
      s.(pump := Pump.PassOn(s.pump),
         outs := if outcome.Refused? then s.outs else s.outs[s.rr := o.(ch := ch, log := o.log + [v])],
         refused := if outcome.Refused? then s.refused + 1 else s.refused,
         rr := (s.rr + 1) % |s.outs|)
  }

  function WorkStep(s: FanOut): FanOut {
    match s.tail
    case InLoop =>
      if s.pump.phase.Exited? then s.(tail := ClosingAt(0))
      else if s.pump.phase.Deliver? then (if s.rr < |s.outs| then Forward(s) else s)
      else s.(pump := Pump.Step(s.pump, !s.running))
    case ClosingAt(i) =>
      if i < |s.outs| then s.(outs := s.outs[i := s.outs[i].(ch := ClosePass(s.outs[i].ch))], tail := ClosingAt(i + 1))
      else s.(tail := Finished, running := false)
    case Finished => s
  }

  function Do(s: FanOut, a: Action): FanOut {
    match a
    case Send(v) => s.(pump := Pump.Feed(s.pump, v))
    case Close => s.(pump := Pump.Shut(s.pump))
    case Stop => s.(running := false)
    case Take(i) =>
      if i < |s.outs| && s.outs[i].ch.items != [] then
        var o := s.outs[i];
        s.(outs := s.outs[i := o.(ch := RecvPass(o.ch).0, taken := o.taken + [o.ch.items[0]])])
      else s
    case Work => WorkStep(s)
  }

  function Run(s: FanOut, schedule: seq<Action>): FanOut
    decreases |schedule|
  {
    if schedule == [] then s else Do(Run(s, schedule[..|schedule| - 1]), schedule[|schedule| - 1])
  }

  // ----- Dealing in turn -----

  // The elements of `d` at the positions that leave remainder i modulo n.
  function Dealt(d: seq<int>, n: nat, i: nat): seq<int>
    requires n > 0
  {
    if d == [] then []
    else Dealt(d[..|d| - 1], n, i) + if (|d| - 1) % n == i then [d[|d| - 1]] else []
  }

  lemma NextTurn(m: nat, n: nat)
    requires 0 < n
    ensures (m + 1) % n == if m % n + 1 == n then 0 else m % n + 1
    ensures (m + 1) / n == if m % n + 1 == n then m / n + 1 else m / n
  {
    var q, r := m / n, m % n;
    assert m == n * q + r;
    if r + 1 == n {
      assert m + 1 == n * (q + 1) + 0;
      Arith.QuotientUnique(m + 1, n, q + 1, 0);
    } else {
      Arith.QuotientUnique(m + 1, n, q, r + 1);
    }
  }

  // How many of the numbers below m leave remainder i modulo n.
  function Share(m: nat, n: nat, i: nat): nat
    requires i < n
  {
    m / n + if i < m % n then 1 else 0
  }

  lemma ShareStep(m: nat, n: nat, i: nat)
    requires i < n
    ensures Share(m + 1, n, i) == Share(m, n, i) + if m % n == i then 1 else 0
  {
    NextTurn(m, n);
  }

  lemma {:induction false} DealtLength(d: seq<int>, n: nat, i: nat)
    requires i < n
    ensures |Dealt(d, n, i)| == Share(|d|, n, i)
  {
    hide Share;
    if d == [] {
      NoShare(n, i);
    } else {
      DealtLength(d[..|d| - 1], n, i);
      ShareStep(|d| - 1, n, i);
    }
  }

  lemma NoShare(n: nat, i: nat)
    requires i < n
    ensures Share(0, n, i) == 0
  {
    Arith.QuotientUnique(0, n, 0, 0);
  }

  // The value dealt k-th is found at place k / n of output k % n.
  lemma {:induction false} DealtAt(d: seq<int>, n: nat, k: nat)
    requires 0 < n && k < |d|
    ensures var o := Dealt(d, n, k % n);
            k / n < |o| && o[k / n] == d[k]
  {
    var before := d[..|d| - 1];
    if k == |d| - 1 {
      DealtLength(before, n, k % n);
    } else {
      DealtAt(before, n, k);
    }
  }

  // ----- What every step keeps -----

  ghost predicate OutOk(o: Output, share: seq<int>) {
    WellFormed(o.ch) && o.ch.mode.Buffered? && o.log == share && o.log == o.taken + o.ch.items
  }

  ghost predicate Inv(s: FanOut) {
    && Pump.Inv(s.pump)
    && 0 < |s.outs| && s.rr == |s.pump.delivered| % |s.outs|
    && s.refused == 0
    && (forall i | 0 <= i < |s.outs| :: OutOk(s.outs[i], Dealt(s.pump.delivered, |s.outs|, i)))
    && (forall i | 0 <= i < |s.outs| ::
          s.outs[i].ch.closed <==> s.tail.Finished? || (s.tail.ClosingAt? && i < s.tail.i))
    && (s.pump.sawStop ==> !s.running)
    && (!s.tail.InLoop? ==> s.pump.phase.Exited?)
    && (s.tail.Finished? ==> !s.running)
  }

  lemma ForwardInv(s: FanOut)
    requires Inv(s) && s.tail.InLoop? && s.pump.phase.Deliver?
    ensures Inv(Forward(s))
  {
    hide Pump.Inv, Pump.PassOn, Dealt;
    var n := |s.outs|;
    assert OutOk(s.outs[s.rr], Dealt(s.pump.delivered, n, s.rr));
    if HasRoom(s.outs[s.rr].ch) {
      var s' := Forward(s);
      Pump.PassOnInv(s.pump);
      NextTurnAgain(|s.pump.delivered|, n);
      forall i | 0 <= i < n ensures OutOk(s'.outs[i], Dealt(s'.pump.delivered, n, i)) {
        assert OutOk(s.outs[i], Dealt(s.pump.delivered, n, i));
        DealtOneMore(s.pump.delivered, s.pump.phase.v, n, i);
      }
    }
  }

  lemma NextTurnAgain(m: nat, n: nat)
    requires 0 < n
    ensures m % n < n && (m + 1) % n == (m % n + 1) % n
  {
    NextTurn(m, n);
    NextTurn(m % n, n);
    Arith.QuotientUnique(m % n, n, 0, m % n);
  }

  lemma DealtOneMore(d: seq<int>, v: int, n: nat, i: nat)
    requires i < n
    ensures Dealt(d + [v], n, i) == Dealt(d, n, i) + if |d| % n == i then [v] else []
  {
    assert (d + [v])[..|d|] == d;
  }

  lemma WorkInv(s: FanOut)
    requires Inv(s)
    ensures Inv(WorkStep(s))
  {
    hide Pump.Inv, Pump.Step, Dealt, OutOk, Forward;
    if s.tail.ClosingAt? {
      CloseInv(s);
    } else if s.tail.InLoop? && s.pump.phase.Deliver? {
      ForwardInv(s);
    } else if s.tail.InLoop? && !s.pump.phase.Exited? {
      Pump.StepInv(s.pump, !s.running);
      Pump.StepSawStop(s.pump, !s.running);
    }
  }

  lemma CloseInv(s: FanOut)
    requires Inv(s) && s.tail.ClosingAt?
    ensures Inv(WorkStep(s))
  {
    hide Pump.Inv, Dealt;
    var s' := WorkStep(s);
    forall i | 0 <= i < |s.outs| ensures OutOk(s'.outs[i], Dealt(s.pump.delivered, |s.outs|, i)) {
      assert OutOk(s.outs[i], Dealt(s.pump.delivered, |s.outs|, i));
    }
  }

  lemma TakeInv(s: FanOut, i: nat)
    requires Inv(s)
    ensures Inv(Do(s, Take(i)))
  {
    hide Pump.Inv, Dealt;
    if i < |s.outs| && s.outs[i].ch.items != [] {
      var o := s.outs[i];
      assert OutOk(o, Dealt(s.pump.delivered, |s.outs|, i));
      assert o.ch.items == [o.ch.items[0]] + o.ch.items[1..];
    }
  }

  lemma StepInv(s: FanOut, a: Action)
    requires Inv(s)
    ensures Inv(Do(s, a)) && |Do(s, a).outs| == |s.outs|
  {
    hide Pump.Inv, Pump.Feed, Pump.Shut, Dealt, OutOk;
    match a
    case Send(v) => Pump.FeedInv(s.pump, v);
    case Close => Pump.ShutInv(s.pump);
    case Stop =>
    case Take(i) => TakeInv(s, i);
    case Work => WorkInv(s); SameOutputs(s);
  }

  lemma SameOutputs(s: FanOut)
    ensures |WorkStep(s).outs| == |s.outs|
  {
  }

  lemma {:induction false} RunInv(s: FanOut, schedule: seq<Action>)
    requires Inv(s)
    ensures Inv(Run(s, schedule)) && |Run(s, schedule).outs| == |s.outs|
    decreases |schedule|
  {
    if schedule != [] {
      RunInv(s, schedule[..|schedule| - 1]);
      StepInv(Run(s, schedule[..|schedule| - 1]), schedule[|schedule| - 1]);
    }
  }

  lemma CreatedInv(input: Chan, n: nat, outCapacity: int)
    requires WellFormed(input) && 0 < n
    ensures Inv(Created(input, n, outCapacity))
  {
    Pump.StartInv(input, false);
    Arith.QuotientUnique(0, n, 0, 0);
  }

  // ----- What holds of every schedule -----

  // Output i has accepted exactly the dealt values at positions i, i + n, i + 2n, ..., in order, and what
  // was dealt is a prefix of the input. No send to an output fails.
  lemma {:induction false} OutputsPartitionInput(input: Chan, n: nat, outCapacity: int, schedule: seq<Action>, i: nat)
    requires WellFormed(input) && i < n
    ensures var s := Run(Created(input, n, outCapacity), schedule);
            && |s.outs| == n
            && s.outs[i].log == Dealt(s.pump.delivered, n, i)
            && s.outs[i].log == s.outs[i].taken + s.outs[i].ch.items
            && s.pump.delivered <= s.pump.accepted
            && s.refused == 0
  {
    CreatedInv(input, n, outCapacity);
    RunInv(Created(input, n, outCapacity), schedule);
    var s := Run(Created(input, n, outCapacity), schedule);
    assert OutOk(s.outs[i], Dealt(s.pump.delivered, n, i));
    Pump.DeliveredIsPrefix(s.pump);
  }

  // Reading the outputs in turn gives the input back: value k is at place k / n of output k % n.
  lemma {:induction false} RoundRobinRebuilds(input: Chan, n: nat, outCapacity: int, schedule: seq<Action>, k: nat)
    requires WellFormed(input) && 0 < n
    ensures var s := Run(Created(input, n, outCapacity), schedule);
            && |s.outs| == n
            && (k < |s.pump.delivered| ==>
                  && k / n < |s.outs[k % n].log| && k < |s.pump.accepted|
                  && s.outs[k % n].log[k / n] == s.pump.delivered[k] == s.pump.accepted[k])
  {
    OutputsPartitionInput(input, n, outCapacity, schedule, k % n);
    var s := Run(Created(input, n, outCapacity), schedule);
    if k < |s.pump.delivered| { DealtAt(s.pump.delivered, n, k); }
  }

  // No output is ever more than one value ahead of another.
  lemma {:induction false} OutputsBalanced(input: Chan, n: nat, outCapacity: int, schedule: seq<Action>, i: nat, j: nat)
    requires WellFormed(input) && i < n && j < n
    ensures var s := Run(Created(input, n, outCapacity), schedule);
            |s.outs| == n && |s.outs[i].log| <= |s.outs[j].log| + 1
  {
    OutputsPartitionInput(input, n, outCapacity, schedule, i);
    OutputsPartitionInput(input, n, outCapacity, schedule, j);
    var s := Run(Created(input, n, outCapacity), schedule);
    DealtLength(s.pump.delivered, n, i);
    DealtLength(s.pump.delivered, n, j);
  }

  // When all outputs are closed and nobody stopped the fan-out, everything but perhaps a final 0 was dealt.
  lemma {:induction false} EverythingDealt(input: Chan, n: nat, outCapacity: int, schedule: seq<Action>)
    requires WellFormed(input) && 0 < n
    ensures var s := Run(Created(input, n, outCapacity), schedule);
            && (forall i | 0 <= i < |s.outs| :: s.tail.Finished? ==> s.outs[i].ch.closed)
            && (forall i | 0 <= i < |s.outs| :: s.outs[i].ch.closed ==> s.pump.phase.Exited?)
            && (s.tail.Finished? && !s.pump.sawStop ==>
                  s.pump.accepted == s.pump.delivered || s.pump.accepted == s.pump.delivered + [0])
  {
    CreatedInv(input, n, outCapacity);
    RunInv(Created(input, n, outCapacity), schedule);
  }

  // ----- Stopping and ending -----

  // Once `running` is false the loop deals at most one more value, and none if it is at the top or has ended.
  lemma {:induction false} StopEndsDealing(s: FanOut, more: seq<Action>)
    requires Inv(s) && !s.running
    ensures |Run(s, more).pump.delivered|
         <= |s.pump.delivered| + if s.pump.phase.Top? || s.pump.phase.Exited? then 0 else 1
  {
    DueNeverGrows(s, more);
  }

  // For every fan-out: a stop at any moment of any run lets at most one more value through.
  lemma StopAllowsOneMore(input: Chan, n: nat, outCapacity: int, schedule: seq<Action>, more: seq<Action>)
    requires WellFormed(input) && 0 < n
    ensures var s := Run(Created(input, n, outCapacity), schedule);
            |Run(Do(s, Stop), more).pump.delivered| <= |s.pump.delivered| + 1
  {
    CreatedInv(input, n, outCapacity);
    RunInv(Created(input, n, outCapacity), schedule);
    StepInv(Run(Created(input, n, outCapacity), schedule), Stop);
    StopEndsDealing(Do(Run(Created(input, n, outCapacity), schedule), Stop), more);
  }

  lemma {:induction false} DueNeverGrows(s: FanOut, more: seq<Action>)
    requires Inv(s) && !s.running
    ensures !Run(s, more).running
    ensures |Run(s, more).pump.delivered| + Pump.Due(Run(s, more).pump) <= |s.pump.delivered| + Pump.Due(s.pump)
    decreases |more|
  {
    if more != [] {
      var before, a := more[..|more| - 1], more[|more| - 1];
      DueNeverGrows(s, before);
      RunInv(s, before);
      StoppedFanOutStep(Run(s, before), a);
    }
  }

  lemma StoppedFanOutStep(s: FanOut, a: Action)
    requires Inv(s) && !s.running
    ensures !Do(s, a).running
    ensures |Do(s, a).pump.delivered| + Pump.Due(Do(s, a).pump) <= |s.pump.delivered| + Pump.Due(s.pump)
  {
    hide Pump.Step, Pump.PassOn, Pump.Feed, Pump.Shut, Pump.Due, Pump.Inv, Dealt, OutOk;
    Pump.StoppedStep(s.pump);
    Pump.OthersAside(s.pump, if a.Send? then a.v else 0);
    SameDue(s.pump, Do(s, a).pump);
    if s.pump.phase.Deliver? { Pump.StoppedPassOn(s.pump); }
  }

  lemma SameDue(p: Pump.Pump, q: Pump.Pump)
    ensures q.delivered == p.delivered && q.phase == p.phase && q.rechecks == p.rechecks
            ==> |q.delivered| + Pump.Due(q) == |p.delivered| + Pump.Due(p)
  {
  }

  // Steps of the worker to its end, after the values there are now.
  function Distance(s: FanOut): nat {
    match s.tail
    case InLoop => Pump.Remaining(s.pump) + |s.outs| + 3
    case ClosingAt(i) => if i <= |s.outs| then |s.outs| - i + 1 else 1
    case Finished => 0
  }

  // The worker waits in two places only: for a value of an open, empty input, and for room in the output whose
  // turn it is. Every other step brings it nearer to its end.
  lemma WorkWaitsIff(s: FanOut)
    requires Inv(s) && !s.tail.Finished?
    ensures WorkStep(s) == s <==>
              s.tail.InLoop?
              && ((s.pump.phase.Receive? && !s.pump.ch.closed && |s.pump.ch.items| == 0)
                  || (s.pump.phase.Deliver? && |s.outs[s.rr].ch.items| == s.outs[s.rr].ch.capacity))
    ensures WorkStep(s) != s ==> Distance(WorkStep(s)) < Distance(s)
  {
    if s.tail.InLoop? && !s.pump.phase.Exited? {
      if s.pump.phase.Deliver? { DealWaitsIff(s); } else { Pump.LoopWaitsIff(s.pump, !s.running); }
    }
  }

  lemma DealWaitsIff(s: FanOut)
    requires Inv(s) && s.tail.InLoop? && s.pump.phase.Deliver?
    ensures s.rr < |s.outs|
    ensures Forward(s) == s <==> |s.outs[s.rr].ch.items| == s.outs[s.rr].ch.capacity
    ensures Forward(s) != s ==> Distance(Forward(s)) < Distance(s)
  {
    hide Pump.Inv, Dealt;
    assert OutOk(s.outs[s.rr], Dealt(s.pump.delivered, |s.outs|, s.rr));
    SendsInNumbers(s.outs[s.rr].ch, s.pump.phase.v);
    assert Pump.PassOn(s.pump) != s.pump;
  }

  // What the others can do: the input takes a value exactly while it is open and has room; it is closed and the
  // flag cleared at any time; the oldest value of an output is received whenever it holds one, closed or not.
  lemma OthersCan(s: FanOut, i: nat, v: int)
    requires i < |s.outs| && WellFormed(s.pump.ch)
    ensures Do(s, Send(v)).pump.accepted == s.pump.accepted + [v]
            <==> !s.pump.ch.closed && |s.pump.ch.items| < if s.pump.ch.mode.Unbuffered? then 1 else s.pump.ch.capacity
    ensures !Do(s, Stop).running && Do(s, Stop).pump == s.pump
    ensures Do(s, Close).pump.ch.closed && Do(s, Close).pump.ch.items == s.pump.ch.items
    ensures var s' := Do(s, Take(i));
            && |s'.outs| == |s.outs|
            && if |s.outs[i].ch.items| > 0 then
                 && s'.outs[i].taken == s.outs[i].taken + [s.outs[i].ch.items[0]]
                 && s.outs[i].ch.items == [s.outs[i].ch.items[0]] + s'.outs[i].ch.items
               else s' == s
  {
    Pump.FeedStoresIff(s.pump, v);
  }

  // Every output is created with the capacity that was asked for, if that is between 1 and 1024.
  lemma CreatedOutputs(input: Chan, n: nat, outCapacity: int, i: nat)
    requires i < n
    ensures var s := Created(input, n, outCapacity);
            && |s.outs| == n && s.outs[i].ch.items == [] && !s.outs[i].ch.closed
            && s.outs[i].ch.capacity == if 1 <= outCapacity <= 1024 then outCapacity else 1024
  {
  }

  // Nobody else takes values away or reopens the input, and only a value sent to it puts the end off.
  lemma OthersDoNotDelay(s: FanOut, a: Action)
    requires Inv(s) && !a.Work?
    ensures Distance(Do(s, a)) <= Distance(s) + 8 * (|Do(s, a).pump.accepted| - |s.pump.accepted|)
  {
  }
}
