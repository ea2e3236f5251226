// Fan-in: n loops, one per input channel, all sending to one buffered output channel, which the
// last one to finish closes.
module FanInSystem {
  import opened ChannelSpec
  import Pump

  // What a worker does after its loop: count itself done, and close the output if it was the last.
  datatype Tail = InLoop | Closing | Finished

  datatype Worker = Worker(pump: Pump.Pump, tail: Tail)

  // `log` is every value the output accepted, with the worker that sent it; `taken` what was received
  // from the output; `refused` and `closes` count sends that failed and calls of close.
  datatype FanIn = FanIn(workers: seq<Worker>, out: Chan, log: seq<(nat, int)>, taken: seq<int>,
                         doneCount: nat, refused: nat, closes: nat)

  datatype Action =
    | Send(i: nat, v: int)     // some other thread sends to input i
    | Close(i: nat)            // some other thread closes input i
    | Take                     // some other thread receives from the output
    | Work(i: nat)             // one step of worker i

  // A fan-in over inputs of any modes, with whatever they already hold.
  function Created(inputs: seq<Chan>, outCapacity: int): FanIn {
    FanIn(seq(|inputs|, i requires 0 <= i < |inputs| => Worker(Pump.Start(inputs[i], false), InLoop)),
          CreateBuffered(outCapacity), [], [], 0, 0, 0)
  }

  function WithPump(ws: seq<Worker>, i: nat, p: Pump.Pump): (r: seq<Worker>)
    requires i < |ws|
    ensures |r| == |ws|
  {
    ws[i := ws[i].(pump := p)]
  }

  function WithTail(ws: seq<Worker>, i: nat, t: Tail): (r: seq<Worker>)
    requires i < |ws|
    ensures |r| == |ws|
  {
    ws[i := ws[i].(tail := t)]
  }

  function SetPump(s: FanIn, i: nat, p: Pump.Pump): FanIn
    requires i < |s.workers|
  {
    s.(workers := WithPump(s.workers, i, p))
  }

  // The result of the send is ignored: on a closed output the value would be lost.
  function Forward(s: FanIn, i: nat): FanIn
    requires i < |s.workers| && s.workers[i].pump.phase.Deliver?
  {
    var p := s.workers[i].pump;
    match SendPass(s.out, p.phase.v)
    case (_, Blocked) => s
    case (_, Refused) => s.(workers := WithPump(s.workers, i, Pump.PassOn(p)), refused := s.refused + 1)
    case (out, _) => s.(workers := WithPump(s.workers, i, Pump.PassOn(p)), out := out, log := s.log + [(i, p.phase.v)])
  }

  function WorkStep(s: FanIn, i: nat): FanIn
    requires i < |s.workers|
  {
    var w := s.workers[i];
    match w.tail
    case Finished => s
    case Closing =>
      s.(workers := WithTail(s.workers, i, Finished), out := ClosePass(s.out), closes := s.closes + 1)
    case InLoop =>
      if w.pump.phase.Exited? then
        s.(workers := WithTail(s.workers, i, if s.doneCount + 1 >= |s.workers| then Closing else Finished),
           doneCount := s.doneCount + 1)
      else if w.pump.phase.Deliver? then Forward(s, i)
      else SetPump(s, i, Pump.Step(w.pump, false))
  }

  function Do(s: FanIn, a: Action): FanIn {
    match a
    case Send(i, v) => if i < |s.workers| then SetPump(s, i, Pump.Feed(s.workers[i].pump, v)) else s
    case Close(i) => if i < |s.workers| then SetPump(s, i, Pump.Shut(s.workers[i].pump)) else s
    case Take => if s.out.items == [] then s else s.(out := RecvPass(s.out).0, taken := s.taken + [s.out.items[0]])
    case Work(i) => if i < |s.workers| then WorkStep(s, i) else s
  }

  function Run(s: FanIn, schedule: seq<Action>): FanIn
    decreases |schedule|
  {
    if schedule == [] then s else Do(Run(s, schedule[..|schedule| - 1]), schedule[|schedule| - 1])
  }

  // ----- What every step keeps -----

  // The values in `log` that came from worker i, in order.
  function From(log: seq<(nat, int)>, i: nat): seq<int> {
    if log == [] then []
    else From(log[..|log| - 1], i) + if log[|log| - 1].0 == i then [log[|log| - 1].1] else []
  }

  function Values(log: seq<(nat, int)>): (r: seq<int>)
    ensures |r| == |log|
  {
    seq(|log|, k requires 0 <= k < |log| => log[k].1)
  }

  function CountDone(ws: seq<Worker>): (n: nat)
    ensures n <= |ws|
  {
    if ws == [] then 0 else (if ws[0].tail.InLoop? then 0 else 1) + CountDone(ws[1..])
  }

  lemma {:induction false} CountDoneUpdate(ws: seq<Worker>, i: nat, w: Worker)
    requires i < |ws|
    ensures CountDone(ws[i := w])
         == CountDone(ws) - (if ws[i].tail.InLoop? then 0 else 1) + (if w.tail.InLoop? then 0 else 1)
  {
    if i == 0 {
      assert ws[i := w][1..] == ws[1..];
    } else {
      assert ws[i := w][1..] == ws[1..][i - 1 := w];
      CountDoneUpdate(ws[1..], i - 1, w);
    }
  }

  lemma {:induction false} CountDoneFull(ws: seq<Worker>)
    ensures CountDone(ws) == |ws| <==> forall i | 0 <= i < |ws| :: !ws[i].tail.InLoop?
  {
    if ws != [] {
      CountDoneFull(ws[1..]);
      assert forall i | 0 < i < |ws| :: ws[i] == ws[1..][i - 1];
      assert forall i | 0 <= i < |ws| - 1 :: ws[1..][i] == ws[i + 1];
    }
  }

  ghost predicate WorkerOk(w: Worker) {
    Pump.Inv(w.pump) && !w.pump.sawStop && (!w.tail.InLoop? ==> w.pump.phase.Exited?)
  }

  ghost predicate Inv(s: FanIn) {
    OutputOk(s) && WorkersOk(s) && SharesOk(s) && ClosingOk(s)
  }

  ghost predicate OutputOk(s: FanIn) {
    && WellFormed(s.out) && s.out.mode.Buffered?
    && s.refused == 0
    && (forall k | 0 <= k < |s.log| :: s.log[k].0 < |s.workers|)
    && Values(s.log) == s.taken + s.out.items
  }

  ghost predicate WorkersOk(s: FanIn) { forall i | 0 <= i < |s.workers| :: WorkerOk(s.workers[i]) }

  ghost predicate SharesOk(s: FanIn) {
    forall i | 0 <= i < |s.workers| :: From(s.log, i) == s.workers[i].pump.delivered
  }

  // The `done_count` rule. At most one worker ever gets to close, and only when all have left their loops.
  ghost predicate ClosingOk(s: FanIn) {
    && s.doneCount == CountDone(s.workers)
    && s.closes == (if s.out.closed then 1 else 0)
    && (s.out.closed ==> s.doneCount == |s.workers| && forall i | 0 <= i < |s.workers| :: s.workers[i].tail.Finished?)
    && (forall i | 0 <= i < |s.workers| && s.workers[i].tail.Closing? ::
          s.doneCount == |s.workers| && forall j | 0 <= j < |s.workers| && j != i :: s.workers[j].tail.Finished?)
    && (s.doneCount == |s.workers| > 0 && !s.out.closed ==>
          exists i :: 0 <= i < |s.workers| && s.workers[i].tail.Closing?)
  }

  // Replacing one worker's loop state, its place in the tail unchanged.
  lemma ClosingUntouched(s: FanIn, i: nat, s': FanIn)
    requires ClosingOk(s) && i < |s.workers| == |s'.workers|
    requires forall j | 0 <= j < |s.workers| && j != i :: s'.workers[j] == s.workers[j]
    requires s'.workers == s.workers[i := s'.workers[i]] && s'.workers[i].tail == s.workers[i].tail
    requires s'.doneCount == s.doneCount && s'.closes == s.closes && s'.out.closed == s.out.closed
    ensures ClosingOk(s')
  {
    CountDoneUpdate(s.workers, i, s'.workers[i]);
    if s.doneCount == |s.workers| > 0 && !s.out.closed {
      var j :| 0 <= j < |s.workers| && s.workers[j].tail.Closing?;
      assert s'.workers[j].tail.Closing?;
    }
  }

  lemma SetPumpKeeps(s: FanIn, i: nat, p: Pump.Pump)
    requires Inv(s) && i < |s.workers|
    requires WorkerOk(s.workers[i].(pump := p)) && p.delivered == s.workers[i].pump.delivered
    ensures Inv(SetPump(s, i, p))
  {
    hide WorkerOk, ClosingOk, From;
    ClosingUntouched(s, i, SetPump(s, i, p));
  }

  lemma ForwardKeeps(s: FanIn, i: nat)
    requires Inv(s) && i < |s.workers| && s.workers[i].pump.phase.Deliver?
    ensures Inv(Forward(s, i))
  {
    hide ClosingOk, From, Pump.Inv, Pump.PassOn, OutputOk, SharesOk;
    OpenForSender(s, i);
    if HasRoom(s.out) {
      var s' := Forward(s, i);
      var p := s.workers[i].pump;
      assert WorkerOk(s.workers[i]);
      Pump.PassOnInv(p);
      ClosingUntouched(s, i, s');
      ForwardLog(s, i);
      ForwardShares(s, i);
    }
  }

  // A worker that is still sending finds the output open.
  lemma OpenForSender(s: FanIn, i: nat)
    requires Inv(s) && i < |s.workers| && s.workers[i].pump.phase.Deliver?
    ensures s.workers[i].tail.InLoop? && !s.out.closed && s.out.mode.Buffered?
  {
    assert WorkerOk(s.workers[i]);
  }

  lemma ForwardLog(s: FanIn, i: nat)
    requires OutputOk(s) && i < |s.workers| && s.workers[i].pump.phase.Deliver? && !s.out.closed && HasRoom(s.out)
    ensures OutputOk(Forward(s, i))
  {
    hide Pump.PassOn;
    assert Values(Forward(s, i).log) == Values(s.log) + [s.workers[i].pump.phase.v];
  }

  lemma ForwardShares(s: FanIn, i: nat)
    requires SharesOk(s) && i < |s.workers| && s.workers[i].pump.phase.Deliver? && !s.out.closed && HasRoom(s.out)
    requires Pump.PassOn(s.workers[i].pump).delivered == s.workers[i].pump.delivered + [s.workers[i].pump.phase.v]
    ensures SharesOk(Forward(s, i))
  {
    hide Pump.PassOn;
    var s' := Forward(s, i);
    assert s'.log[..|s.log|] == s.log;
    forall j | 0 <= j < |s.workers| ensures From(s'.log, j) == s'.workers[j].pump.delivered {
      assert From(s.log, j) == s.workers[j].pump.delivered;
    }
  }

  lemma LeaveKeeps(s: FanIn, i: nat)
    requires Inv(s) && i < |s.workers| && s.workers[i].tail.InLoop? && s.workers[i].pump.phase.Exited?
    ensures Inv(WorkStep(s, i))
  {
    hide From, Pump.Inv;
    var s' := WorkStep(s, i);
    CountDoneUpdate(s.workers, i, s'.workers[i]);
    CountDoneFull(s.workers);
    assert s.doneCount < |s.workers|;
    CountDoneFull(s'.workers);
    assert forall j | 0 <= j < |s.workers| && j != i :: s'.workers[j] == s.workers[j];
    if s'.doneCount == |s.workers| {
      assert s'.workers[i].tail.Closing?;
      forall j | 0 <= j < |s.workers| && j != i ensures s'.workers[j].tail.Finished? {
        assert !s'.workers[j].tail.InLoop? && !s.workers[j].tail.Closing?;
      }
    }
  }

  lemma CloseKeeps(s: FanIn, i: nat)
    requires Inv(s) && i < |s.workers| && s.workers[i].tail.Closing?
    ensures Inv(WorkStep(s, i))
  {
    hide From, Pump.Inv;
    var s' := WorkStep(s, i);
    CountDoneUpdate(s.workers, i, s'.workers[i]);
    assert forall j | 0 <= j < |s.workers| && j != i :: s'.workers[j] == s.workers[j];
  }

  lemma WorkKeeps(s: FanIn, i: nat)
    requires Inv(s) && i < |s.workers|
    ensures Inv(WorkStep(s, i))
  {
    hide ClosingOk, SharesOk, OutputOk, Pump.Inv, Pump.Step, Forward;
    var w := s.workers[i];
    assert WorkerOk(w);
    if w.tail.Closing? {
      CloseKeeps(s, i);
    } else if w.tail.InLoop? {
      if w.pump.phase.Exited? {
        LeaveKeeps(s, i);
      } else if w.pump.phase.Deliver? {
        ForwardKeeps(s, i);
      } else {
        Pump.StepInv(w.pump, false);
        Pump.StepSawStop(w.pump, false);
        SetPumpKeeps(s, i, Pump.Step(w.pump, false));
      }
    }
  }

  lemma SameWorkers(s: FanIn, i: nat)
    requires i < |s.workers|
    ensures |WorkStep(s, i).workers| == |s.workers|
  {
  }

  lemma TakeKeeps(s: FanIn)
    requires Inv(s)
    ensures Inv(Do(s, Take))
  {
    hide From, Pump.Inv, WorkerOk;
    if s.out.items != [] { assert s.out.items == [s.out.items[0]] + s.out.items[1..]; }
  }

  lemma StepInv(s: FanIn, a: Action)
    requires Inv(s)
    ensures Inv(Do(s, a)) && |Do(s, a).workers| == |s.workers|
  {
    hide ClosingOk, SharesOk, OutputOk, Pump.Inv, WorkStep, Pump.Feed, Pump.Shut;
    match a
    case Send(i, v) =>
      if i < |s.workers| {
        assert WorkerOk(s.workers[i]);
        Pump.FeedInv(s.workers[i].pump, v);
        SetPumpKeeps(s, i, Pump.Feed(s.workers[i].pump, v));
      }
    case Close(i) =>
      if i < |s.workers| {
        assert WorkerOk(s.workers[i]);
        Pump.ShutInv(s.workers[i].pump);
        SetPumpKeeps(s, i, Pump.Shut(s.workers[i].pump));
      }
    case Take => TakeKeeps(s);
    case Work(i) =>
      if i < |s.workers| { WorkKeeps(s, i); SameWorkers(s, i); }
  }

  lemma {:induction false} RunInv(s: FanIn, schedule: seq<Action>)
    requires Inv(s)
    ensures Inv(Run(s, schedule)) && |Run(s, schedule).workers| == |s.workers|
    decreases |schedule|
  {
    if schedule != [] {
      RunInv(s, schedule[..|schedule| - 1]);
      StepInv(Run(s, schedule[..|schedule| - 1]), schedule[|schedule| - 1]);
    }
  }

  ghost predicate Inputs(inputs: seq<Chan>) {
    |inputs| > 0 && forall i | 0 <= i < |inputs| :: WellFormed(inputs[i])
  }

  lemma {:induction false} CreatedInv(inputs: seq<Chan>, outCapacity: int)
    requires Inputs(inputs)
    ensures Inv(Created(inputs, outCapacity))
  {
    var s := Created(inputs, outCapacity);
    forall i | 0 <= i < |inputs| ensures WorkerOk(s.workers[i]) { Pump.StartInv(inputs[i], false); }
    NoneDone(s.workers);
  }

  lemma {:induction false} NoneDone(ws: seq<Worker>)
    requires forall i | 0 <= i < |ws| :: ws[i].tail.InLoop?
    ensures CountDone(ws) == 0
  {
    if ws != [] { NoneDone(ws[1..]); }
  }

  // ----- What holds of every schedule -----

  // The output is a merge: its values are those received from it followed by those in its ring, each
  // came from one worker, and each worker's share of it is, in order, a prefix of its own input.
  lemma {:induction false} OutputIsMerge(inputs: seq<Chan>, outCapacity: int, schedule: seq<Action>, i: nat)
    requires Inputs(inputs) && i < |inputs|
    ensures var s := Run(Created(inputs, outCapacity), schedule);
            && Values(s.log) == s.taken + s.out.items
            && (forall k | 0 <= k < |s.log| :: s.log[k].0 < |inputs|)
            && |s.workers| == |inputs|
            && From(s.log, i) <= s.workers[i].pump.accepted
  {
    CreatedInv(inputs, outCapacity);
    RunInv(Created(inputs, outCapacity), schedule);
    var s := Run(Created(inputs, outCapacity), schedule);
    assert WorkerOk(s.workers[i]);
    Pump.DeliveredIsPrefix(s.workers[i].pump);
  }

  // No send to the output ever fails, close is called at most once, and the output is closed only
  // when every worker has finished, so after every worker's last send.
  lemma {:induction false} ClosedOnceAndLast(inputs: seq<Chan>, outCapacity: int, schedule: seq<Action>)
    requires Inputs(inputs)
    ensures var s := Run(Created(inputs, outCapacity), schedule);
            && s.refused == 0
            && s.closes <= 1
            && (s.out.closed <==> s.closes == 1)
            && (s.out.closed <==> forall i | 0 <= i < |s.workers| :: s.workers[i].tail.Finished?)
  {
    CreatedInv(inputs, outCapacity);
    RunInv(Created(inputs, outCapacity), schedule);
    var s := Run(Created(inputs, outCapacity), schedule);
    CountDoneFull(s.workers);
  }

  // A worker that has left its loop has forwarded its whole input, except perhaps a final 0; so by the time
  // the output is closed every input has been.
  lemma {:induction false} EverythingForwarded(inputs: seq<Chan>, outCapacity: int, schedule: seq<Action>, i: nat)
    requires Inputs(inputs) && i < |inputs|
    ensures var s := Run(Created(inputs, outCapacity), schedule);
            && |s.workers| == |inputs|
            && (s.workers[i].pump.phase.Exited? ==>
                  var a := s.workers[i].pump.accepted;
                  a == From(s.log, i) || a == From(s.log, i) + [0])
            && (s.out.closed ==> s.workers[i].pump.phase.Exited?)
  {
    CreatedInv(inputs, outCapacity);
    RunInv(Created(inputs, outCapacity), schedule);
    var s := Run(Created(inputs, outCapacity), schedule);
    assert WorkerOk(s.workers[i]);
    assert From(s.log, i) == s.workers[i].pump.delivered;
  }

  // ----- Ending -----

  // Steps of worker i to its end, after the values there are now.
  function Distance(w: Worker): nat {
    match w.tail
    case InLoop => Pump.Remaining(w.pump) + 3
    case Closing => 1
    case Finished => 0
  }

  // A worker waits in two places only: for a value of an open, empty input, and for room in the output. Every
  // other step brings it nearer to its end.
  lemma WorkWaitsIff(s: FanIn, i: nat)
    requires Inv(s) && i < |s.workers| && !s.workers[i].tail.Finished?
    ensures |WorkStep(s, i).workers| == |s.workers|
    ensures var w := s.workers[i];
            WorkStep(s, i).workers[i] == w <==>
              w.tail.InLoop?
              && ((w.pump.phase.Receive? && !w.pump.ch.closed && |w.pump.ch.items| == 0)
                  || (w.pump.phase.Deliver? && |s.out.items| == s.out.capacity))
    ensures WorkStep(s, i).workers[i] != s.workers[i] ==> Distance(WorkStep(s, i).workers[i]) < Distance(s.workers[i])
  {
    var w := s.workers[i];
    assert WorkerOk(w);
    if w.tail.InLoop? && !w.pump.phase.Exited? {
      if w.pump.phase.Deliver? { ForwardWaitsIff(s, i); } else { Pump.LoopWaitsIff(w.pump, false); }
    }
  }

  lemma ForwardWaitsIff(s: FanIn, i: nat)
    requires Inv(s) && i < |s.workers| && s.workers[i].tail.InLoop? && s.workers[i].pump.phase.Deliver?
    ensures var p, p' := s.workers[i].pump, Forward(s, i).workers[i].pump;
            && |Forward(s, i).workers| == |s.workers| && Forward(s, i).workers[i].tail.InLoop?
            && (p' == p <==> |s.out.items| == s.out.capacity)
            && (p' != p ==> Pump.Remaining(p') < Pump.Remaining(p))
  {
    hide Pump.Inv, From;
    OpenForSender(s, i);
    SendsInNumbers(s.out, s.workers[i].pump.phase.v);
    assert Pump.PassOn(s.workers[i].pump) != s.workers[i].pump;
  }

  // What the others can do: an input takes a value exactly while it is open and has room, and is closed at any time;
  // the oldest value of the output is received whenever it holds one, closed or not.
  lemma OthersCan(s: FanIn, i: nat, v: int)
    requires i < |s.workers| && WellFormed(s.workers[i].pump.ch)
    ensures var p, w := s.workers[i].pump, Do(s, Send(i, v)).workers;
            && |w| == |s.workers|
            && (w[i].pump.accepted == p.accepted + [v]
                <==> !p.ch.closed && |p.ch.items| < if p.ch.mode.Unbuffered? then 1 else p.ch.capacity)
    ensures var w := Do(s, Close(i)).workers;
            |w| == |s.workers| && w[i].pump.ch.closed && w[i].pump.ch.items == s.workers[i].pump.ch.items
    ensures var s' := Do(s, Take);
            if |s.out.items| > 0 then
              s'.taken == s.taken + [s.out.items[0]] && s.out.items == [s.out.items[0]] + s'.out.items
            else s' == s
  {
    Pump.FeedStoresIff(s.workers[i].pump, v);
  }

  // What the others do does not put a worker off, unless they send to its input.
  lemma OthersDoNotDelay(s: FanIn, a: Action, i: nat)
    requires i < |s.workers| && a != Work(i)
    ensures |Do(s, a).workers| == |s.workers|
    ensures var w, w' := s.workers[i], Do(s, a).workers[i];
            Distance(w') <= Distance(w) + 8 * (|w'.pump.accepted| - |w.pump.accepted|)
  {
  }
}
