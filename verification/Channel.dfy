// The MPMC channel, one critical section at a time, on values.
module ChannelSpec {

  const CHANNEL_BUF_SIZE := 1024

  datatype Mode = Buffered | Unbuffered | Oneshot

  // A channel as its lock holders see it. `items` are the values in flight, oldest first:
  // the ring contents in the ring modes, the occupied rendezvous slot in unbuffered mode.
  datatype Chan = Chan(mode: Mode, capacity: nat, closed: bool, items: seq<int>)

  // What one pass through a send's critical section does. `Placed` is the unbuffered case:
  // the value is in the slot, but the call goes on to wait until the slot is emptied.
  datatype SendOutcome = Blocked | Refused | Accepted | Placed

  datatype RecvOutcome = Waiting | Drained | Value(v: int)

  predicate WellFormed(c: Chan) {
    match c.mode
    case Buffered => 1 <= c.capacity <= CHANNEL_BUF_SIZE && |c.items| <= c.capacity
    case Unbuffered => c.capacity == 0 && |c.items| <= 1
    case Oneshot => c.capacity == 1 && |c.items| <= 1
  }

  function CreateBuffered(capacity: int): (c: Chan)
    ensures WellFormed(c) && c.mode.Buffered? && !c.closed && c.items == []
    ensures c.capacity == if 1 <= capacity <= CHANNEL_BUF_SIZE then capacity else CHANNEL_BUF_SIZE
  {
    Chan(Buffered, if capacity <= 0 || capacity > CHANNEL_BUF_SIZE then CHANNEL_BUF_SIZE else capacity, false, [])
  }

  function CreateUnbuffered(): Chan { Chan(Unbuffered, 0, false, []) }

  function CreateOneshot(): Chan { Chan(Oneshot, 1, false, []) }

  predicate HasRoom(c: Chan) {
    if c.mode.Unbuffered? then c.items == [] else |c.items| < c.capacity
  }

  // From taking the lock (or waking up) to the next wait or unlock of `send`.
  function SendPass(c: Chan, v: int): (r: (Chan, SendOutcome)) {
    if c.closed then (c, Refused)
    else if !HasRoom(c) then (c, Blocked)
    else (c.(items := c.items + [v], closed := c.mode.Oneshot?),
          if c.mode.Unbuffered? then Placed else Accepted)
  }

  // The whole of `try_send`.
  function TrySendPass(c: Chan, v: int): (r: (Chan, bool)) {
    if c.closed || !HasRoom(c) then (c, false)
    else (c.(items := c.items + [v], closed := c.mode.Oneshot?), true)
  }

  // From taking the lock (or waking up) to the next wait or unlock of `recv`.
  function RecvPass(c: Chan): (r: (Chan, RecvOutcome)) {
    if c.items != [] then (c.(items := c.items[1..]), Value(c.items[0]))
    else (c, if c.closed then Drained else Waiting)
  }

  function ClosePass(c: Chan): Chan { c.(closed := true) }

  // In numbers: an open channel stores a value at the end exactly while fewer are in flight than its capacity
  // (one, in the rendezvous slot); with that many a send waits and `try_send` refuses. Only a oneshot channel
  // is closed by a send.
  lemma SendsInNumbers(c: Chan, v: int)
    requires WellFormed(c)
    ensures var (c', outcome) := SendPass(c, v);
            && (outcome.Refused? <==> c.closed)
            && (outcome.Blocked? <==> !c.closed && |c.items| == if c.mode.Unbuffered? then 1 else c.capacity)
            && (outcome.Placed? <==> !c.closed && c.mode.Unbuffered? && |c.items| == 0)
            && (outcome.Accepted? <==> !c.closed && !c.mode.Unbuffered? && |c.items| < c.capacity)
            && (outcome.Refused? || outcome.Blocked? ==> c' == c)
            && (outcome.Placed? || outcome.Accepted? ==> Chan(c.mode, c.capacity, c.mode.Oneshot?, c.items + [v]) == c')
    ensures var (c', ok) := TrySendPass(c, v);
            && (ok <==> !c.closed && |c.items| < if c.mode.Unbuffered? then 1 else c.capacity)
            && c' == if ok then Chan(c.mode, c.capacity, c.mode.Oneshot?, c.items + [v]) else c
  {
  }

  // The values that `try_send` stores when it is called for each in turn.
  function Offered(c: Chan, vs: seq<int>): Chan
    decreases |vs|
  {
    if vs == [] then c else Offered(TrySendPass(c, vs[0]).0, vs[1..])
  }

  // With no receiver a buffered channel takes exactly as many values as its capacity, the first ones.
  lemma {:induction false} TakesItsCapacity(c: Chan, vs: seq<int>)
    requires WellFormed(c) && c.mode.Buffered? && !c.closed
    ensures var room := c.capacity - |c.items|;
            Offered(c, vs) == c.(items := c.items + if |vs| <= room then vs else vs[..room])
    decreases |vs|
  {
    var room := c.capacity - |c.items|;
    if vs != [] {
      SendsInNumbers(c, vs[0]);
      TakesItsCapacity(TrySendPass(c, vs[0]).0, vs[1..]);
      if room > 0 {
        var rest := vs[1..];
        assert vs == [vs[0]] + rest;
        if |vs| > room { assert vs[..room] == [vs[0]] + rest[..room - 1]; }
      }
    }
  }

  // A receive takes the oldest value whenever there is one, closed or not.
  lemma ReceivesInNumbers(c: Chan)
    ensures var (c', outcome) := RecvPass(c);
            && (outcome.Value? <==> |c.items| > 0)
            && (outcome.Value? ==> c.items == [outcome.v] + c'.items && c' == c.(items := c'.items))
            && (outcome.Drained? <==> c.closed && |c.items| == 0)
            && (outcome.Waiting? <==> !c.closed && |c.items| == 0)
            && (!outcome.Value? ==> c' == c)
  {
  }
}

// The channel as the C structure that holds it: a ring in a fixed buffer, and a rendezvous slot.
module ChannelRing {
  import opened ChannelSpec
  import Ring

  class LibcChannel {
    const buf: array<int>
    const capacity: nat
    const mode: Mode
    var count: nat
    var head: nat
    var tail: nat
    var closed: bool
    var hasRendezvousValue: bool
    var rendezvousValue: int

    ghost predicate Valid()
      reads this, buf
    {
      && buf.Length == CHANNEL_BUF_SIZE
      && (mode.Unbuffered? ==> capacity == 0 && count == head == tail == 0)
      && (!mode.Unbuffered? ==>
            && !hasRendezvousValue
            && 1 <= capacity <= CHANNEL_BUF_SIZE
            && head < capacity && count <= capacity
            && tail == (head + count) % capacity)
      && (mode.Oneshot? ==> capacity == 1)
    }

    ghost function Abs(): (c: Chan)
      requires Valid()
      reads this, buf
      ensures WellFormed(c)
    {
      Chan(mode, capacity, closed,
           if mode.Unbuffered? then (if hasRendezvousValue then [rendezvousValue] else [])
           else Ring.Contents(buf[..], head, count, capacity))
    }

    // The buffered half of both sends: store at `tail`, advance it, close a oneshot.
    method Enqueue(value: int)
      requires Valid() && !mode.Unbuffered? && count < capacity && !closed
      modifies this`tail, this`count, this`closed, buf
      ensures Valid()
      ensures Abs().items == old(Abs().items) + [value]
      ensures closed == mode.Oneshot?
    {
      ghost var before := buf[..];
      Ring.Push(before, head, count, capacity, value);
      buf[tail] := value;
      assert buf[..] == before[tail := value];
      tail := (tail + 1) % capacity;
      count := count + 1;
      if mode.Oneshot? { closed := true; }
    }

    // The buffered half of both receives: read at `head` and advance it.
    method Dequeue() returns (value: int)
      requires Valid() && !mode.Unbuffered? && count > 0
      modifies this`head, this`count
      ensures Valid()
      ensures old(Abs().items) == [value] + Abs().items
    {
      Ring.Pop(buf[..], head, count, capacity);
      value := buf[head];
      head := (head + 1) % capacity;
      count := count - 1;
    }

    constructor Buffered(requested: int)
      ensures Valid() && fresh(buf) && Abs() == CreateBuffered(requested)
    {
      buf := new int[CHANNEL_BUF_SIZE](_ => 0);
      capacity := if requested <= 0 || requested > CHANNEL_BUF_SIZE then CHANNEL_BUF_SIZE else requested;
      mode := Mode.Buffered;
      count, head, tail, closed, hasRendezvousValue, rendezvousValue := 0, 0, 0, false, false, 0;
    }

    constructor Unbuffered()
      ensures Valid() && fresh(buf) && Abs() == CreateUnbuffered()
    {
      buf := new int[CHANNEL_BUF_SIZE](_ => 0);
      capacity := 0;
      mode := Mode.Unbuffered;
      count, head, tail, closed, hasRendezvousValue, rendezvousValue := 0, 0, 0, false, false, 0;
    }

    constructor Oneshot()
      ensures Valid() && fresh(buf) && Abs() == CreateOneshot()
    {
      buf := new int[CHANNEL_BUF_SIZE](_ => 0);
      capacity := 1;
      mode := Mode.Oneshot;
      count, head, tail, closed, hasRendezvousValue, rendezvousValue := 0, 0, 0, false, false, 0;
    }

    method SendAttempt(value: int) returns (outcome: SendOutcome)
      requires Valid()
      modifies this, buf
      ensures Valid()
      ensures (Abs(), outcome) == SendPass(old(Abs()), value)
      ensures outcome.Refused? <==> old(closed)
      ensures outcome.Blocked?
        <==> !old(closed) && (if mode.Unbuffered? then old(hasRendezvousValue) else old(count) == capacity)
      ensures count == old(count) + if outcome.Accepted? then 1 else 0
    {
      if closed { return Refused; }
      if mode.Unbuffered? {
        if hasRendezvousValue { return Blocked; }
        rendezvousValue := value;
        hasRendezvousValue := true;
        assert Abs().items == old(Abs().items) + [value];
        return Placed;
      }
      if count >= capacity { return Blocked; }
      Enqueue(value);
      return Accepted;
    }

    method TrySend(value: int) returns (status: int)
      requires Valid()
      modifies this, buf
      ensures Valid()
      ensures (Abs(), status == 0) == TrySendPass(old(Abs()), value)
      ensures status == 0 || status == -1
      ensures status == 0
        <==> !old(closed) && (if mode.Unbuffered? then !old(hasRendezvousValue) else old(count) < capacity)
      ensures count == old(count) + if status == 0 && !mode.Unbuffered? then 1 else 0
    {
      if closed { return -1; }
      if mode.Unbuffered? {
        if hasRendezvousValue { return -1; }
        rendezvousValue := value;
        hasRendezvousValue := true;
        assert Abs().items == old(Abs().items) + [value];
        return 0;
      }
      if count >= capacity { return -1; }
      Enqueue(value);
      return 0;
    }

    method RecvAttempt() returns (outcome: RecvOutcome)
      requires Valid()
      modifies this
      ensures Valid()
      ensures (Abs(), outcome) == RecvPass(old(Abs()))
    {
      if mode.Unbuffered? {
        if !hasRendezvousValue && !closed { return Waiting; }
        if !hasRendezvousValue { return Drained; }
        hasRendezvousValue := false;
        assert old(Abs().items) == [rendezvousValue] + Abs().items;
        return Value(rendezvousValue);
      }
      if count == 0 && !closed { return Waiting; }
      if count == 0 { return Drained; }
      var value := Dequeue();
      return Value(value);
    }

    // `try_recv` answers 0 both for a received 0 and for "nothing there".
    method TryRecv() returns (value: int)
      requires Valid()
      modifies this
      ensures Valid()
      ensures Abs() == RecvPass(old(Abs())).0
      ensures value == if old(Abs()).items != [] then old(Abs()).items[0] else 0
    {
      if mode.Unbuffered? {
        if !hasRendezvousValue { return 0; }
        hasRendezvousValue := false;
        return rendezvousValue;
      }
      if count == 0 { return 0; }
      value := Dequeue();
    }

    method Count() returns (c: nat)
      requires Valid()
      ensures c == |Abs().items|
    {
      c := count;
      if mode.Unbuffered? && hasRendezvousValue { c := 1; }
    }

    method IsClosed() returns (c: bool)
      requires Valid()
      ensures c == Abs().closed
    {
      c := closed;
    }

    method Close()
      requires Valid()
      modifies this`closed
      ensures Valid() && Abs() == ClosePass(old(Abs()))
    {
      closed := true;
    }
  }
}
