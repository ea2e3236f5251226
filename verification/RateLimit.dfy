// The per-client token bucket: what one request does to the table of buckets,
// and what any run of requests can be granted.

module RateLimitSpec {
  import opened Arith

  const MAX_CLIENTS := 1024

  // Tokens, refill rate and elapsed seconds are whole numbers, so no rounding occurs.
  datatype Config = Config(max: nat, rate: nat)

  datatype Slot = Slot(key: string, tokens: int, lastRefill: int, active: bool)

  predicate Fits(s: Slot, key: string) {
    s.active && s.key == key
  }

  function FindFrom(s: seq<Slot>, key: string, i: nat): (r: nat)
    requires i <= |s|
    ensures i <= r <= |s|
    ensures r < |s| ==> Fits(s[r], key)
    ensures forall j :: i <= j < r ==> !Fits(s[j], key)
    decreases |s| - i
  {
    if i == |s| || Fits(s[i], key) then i else FindFrom(s, key, i + 1)
  }

  // Position of the key's bucket, or |s|.
  function Find(s: seq<Slot>, key: string): nat {
    FindFrom(s, key, 0)
  }

  function VacantFrom(s: seq<Slot>, i: nat): (r: nat)
    requires i <= |s|
    ensures i <= r <= |s|
    ensures r < |s| ==> !s[r].active
    ensures forall j :: i <= j < r ==> s[j].active
    decreases |s| - i
  {
    if i == |s| || !s[i].active then i else VacantFrom(s, i + 1)
  }

  // The least recently refilled of the first n buckets, the earliest among equals.
  function Oldest(s: seq<Slot>, n: nat): (r: nat)
    requires 0 < n <= |s|
    ensures r < n
    ensures forall j :: 0 <= j < n ==> s[r].lastRefill <= s[j].lastRefill
    ensures forall j :: 0 <= j < r ==> s[r].lastRefill < s[j].lastRefill
  {
    if n == 1 then 0
    else
      var o := Oldest(s, n - 1);
      if s[n - 1].lastRefill < s[o].lastRefill then n - 1 else o
  }

  // Where the key's bucket is or will be: found, vacant, new, or taken from the oldest.
  function Place(s: seq<Slot>, key: string): (i: nat)
    requires |s| <= MAX_CLIENTS
    ensures i <= |s| && (i == |s| ==> |s| < MAX_CLIENTS)
  {
    if Find(s, key) < |s| then Find(s, key)
    else if VacantFrom(s, 0) < |s| then VacantFrom(s, 0)
    else if |s| < MAX_CLIENTS then |s|
    else Oldest(s, |s|)
  }

  function Opened(c: Config, s: seq<Slot>, key: string, now: int): (r: seq<Slot>)
    requires |s| <= MAX_CLIENTS
    ensures |s| <= |r| <= MAX_CLIENTS && Place(s, key) < |r|
  {
    var slot := Slot(key, c.max, now, true);
    var i := Place(s, key);
    if Find(s, key) < |s| then s else if i == |s| then s + [slot] else s[i := slot]
  }

  // What the bucket would hold if looked at time t.
  function Level(c: Config, slot: Slot, t: int): int {
    if t > slot.lastRefill then
      var filled := slot.tokens + (t - slot.lastRefill) * c.rate;
      if filled > c.max then c.max else filled
    else slot.tokens
  }

  function Refilled(c: Config, slot: Slot, now: int): Slot {
    if now > slot.lastRefill then slot.(tokens := Level(c, slot, now), lastRefill := now) else slot
  }

  // A request charges some tokens or only looks. The clock is read twice: once while
  // the bucket is looked up and once while it is refilled.
  datatype Request = Charge(key: string, cost: int, arrived: int, now: int)
                   | Look(key: string, arrived: int, now: int)

  // A charge of nothing, or of a negative amount, is a charge of one.
  function Price(cost: int): (p: nat) {
    if cost > 0 then cost else 1
  }

  // The bucket after the request's refill.
  function Touched(c: Config, s: seq<Slot>, r: Request): Slot
    requires |s| <= MAX_CLIENTS
  {
    Refilled(c, Opened(c, s, r.key, r.arrived)[Place(s, r.key)], r.now)
  }

  // An empty key is let through and owns no bucket.
  predicate Granted(c: Config, s: seq<Slot>, r: Request)
    requires |s| <= MAX_CLIENTS
  {
    r.Charge? && (r.key == "" || Touched(c, s, r).tokens >= Price(r.cost))
  }

  function After(c: Config, s: seq<Slot>, r: Request): (s': seq<Slot>)
    requires |s| <= MAX_CLIENTS
    ensures |s'| <= MAX_CLIENTS
  {
    if r.key == "" then s
    else
      var slot := Touched(c, s, r);
      Opened(c, s, r.key, r.arrived)[Place(s, r.key) :=
        if Granted(c, s, r) then slot.(tokens := slot.tokens - Price(r.cost)) else slot]
  }

  // --- What one request keeps.

  ghost predicate Unique(s: seq<Slot>) {
    forall i, j :: 0 <= i < j < |s| && s[i].active && s[j].active ==> s[i].key != s[j].key
  }

  predicate InRange(c: Config, slot: Slot, now: int) {
    0 <= slot.tokens <= c.max && slot.lastRefill <= now
  }

  // At most one bucket a key, no more than 1024 in all, each between empty and full.
  ghost predicate Inv(c: Config, s: seq<Slot>, now: int) {
    && |s| <= MAX_CLIENTS
    && Unique(s)
    && forall i :: 0 <= i < |s| ==> InRange(c, s[i], now)
  }

  datatype Account = NoBucket | Bucket(slot: Slot)

  function AccountOf(s: seq<Slot>, key: string): Account {
    if Find(s, key) < |s| then Bucket(s[Find(s, key)]) else NoBucket
  }

  // Opening a bucket for one key takes away another key's.
  predicate Evicts(s: seq<Slot>, r: Request, key: string)
    requires |s| <= MAX_CLIENTS
  {
    && r.key != "" && r.key != key
    && Find(s, r.key) == |s|
    && Find(s, key) < |s| && Find(s, key) == Place(s, r.key)
  }

  lemma FoundAt(s: seq<Slot>, key: string, i: nat)
    requires Unique(s) && i < |s| && Fits(s[i], key)
    ensures Find(s, key) == i
  {}

  lemma NotFound(s: seq<Slot>, key: string)
    requires forall i :: 0 <= i < |s| ==> !Fits(s[i], key)
    ensures Find(s, key) == |s|
  {}

  lemma OnlyAt(s: seq<Slot>, key: string, i: nat)
    requires Unique(s) && i < |s| && Fits(s[i], key)
    ensures forall j :: 0 <= j < |s| && j != i ==> !Fits(s[j], key)
  {}

  // Writing a bucket of some key at a place no other bucket of that key stands.
  lemma AfterWrite(s: seq<Slot>, i: nat, slot: Slot, key: string)
    requires i <= |s| && Unique(s) && slot.active
    requires forall j :: 0 <= j < |s| && j != i ==> !Fits(s[j], slot.key)
    ensures var s' := if i == |s| then s + [slot] else s[i := slot];
            && Unique(s')
            && AccountOf(s', key) == if key == slot.key then Bucket(slot)
                                     else if Find(s, key) == i then NoBucket else AccountOf(s, key)
  {
    var s' := if i == |s| then s + [slot] else s[i := slot];
    assert forall j :: 0 <= j < |s| && j != i ==> s'[j] == s[j];
    if key == slot.key {
      FoundAt(s', key, i);
    } else {
      var f := Find(s, key);
      if f < |s| && f != i {
        FoundAt(s', key, f);
      } else {
        if f < |s| { OnlyAt(s, key, i); }
        NotFound(s', key);
      }
    }
  }

  // Every other key's bucket is left exactly as it was, unless it is evicted.
  lemma OthersUntouched(c: Config, s: seq<Slot>, r: Request, key: string, t: int)
    requires Inv(c, s, t) && key != r.key
    ensures AccountOf(After(c, s, r), key) == if Evicts(s, r, key) then NoBucket else AccountOf(s, key)
  {
    if r.key != "" {
      AfterOpen(c, s, r.key, r.arrived, key, t);
      var s1 := Opened(c, s, r.key, r.arrived);
      AfterOpen(c, s, r.key, r.arrived, r.key, t);
      var slot := After(c, s, r)[Place(s, r.key)];
      OnlyAt(s1, r.key, Place(s, r.key));
      AfterWrite(s1, Place(s, r.key), slot, key);
    }
  }

  lemma AfterOpen(c: Config, s: seq<Slot>, k: string, now: int, key: string, t: int)
    requires Inv(c, s, t)
    ensures var s1 := Opened(c, s, k, now);
            && Unique(s1) && Fits(s1[Place(s, k)], k)
            && AccountOf(s1, key) ==
                 if Find(s, k) < |s| then AccountOf(s, key)
                 else if key == k then Bucket(Slot(k, c.max, now, true))
                 else if Find(s, key) == Place(s, k) && Find(s, key) < |s| then NoBucket else AccountOf(s, key)
  {
    if Find(s, k) == |s| {
      AfterWrite(s, Place(s, k), Slot(k, c.max, now, true), key);
    }
  }

  // --- How much a key can spend at a time.

  // A key without a bucket will be given a full one.
  function Available(c: Config, a: Account, t: int): int {
    match a
    case NoBucket => c.max
    case Bucket(slot) => Level(c, slot, t)
  }

  predicate Holds(c: Config, a: Account, t: int) {
    a.Bucket? ==> InRange(c, a.slot, t)
  }

  lemma AccountInRange(c: Config, s: seq<Slot>, key: string, t: int)
    requires Inv(c, s, t)
    ensures Holds(c, AccountOf(s, key), t)
  {}

  // Waiting adds at most the refill rate for each second, and never overfills.
  lemma LevelGrowth(c: Config, slot: Slot, t: int, u: int)
    requires InRange(c, slot, t) && t <= u
    ensures Level(c, slot, t) <= Level(c, slot, u) <= Level(c, slot, t) + (u - t) * c.rate
    ensures 0 <= Level(c, slot, u) <= c.max
  {
    var r := c.rate;
    assert (u - slot.lastRefill) * r == (t - slot.lastRefill) * r + (u - t) * r;
    assert (u - t) * r >= 0;
    assert (t - slot.lastRefill) * r >= 0;
  }

  // Refilling early, and capping on the way, changes nothing that can be seen later.
  lemma RefillUnseen(c: Config, slot: Slot, now: int, t: int)
    requires InRange(c, slot, now) && now <= t
    ensures Level(c, Refilled(c, slot, now), t) == Level(c, slot, t)
    ensures InRange(c, Refilled(c, slot, now), now)
    ensures Refilled(c, slot, now).tokens == Level(c, slot, now)
    ensures Refilled(c, slot, now).lastRefill == now
  {
    var r := c.rate;
    assert (t - slot.lastRefill) * r == (now - slot.lastRefill) * r + (t - now) * r;
    assert (t - now) * r >= 0;
    assert (now - slot.lastRefill) * r >= 0;
  }

  // The bucket a request works on is the account's, or a full new one.
  lemma TouchedIs(c: Config, s: seq<Slot>, r: Request, t: int)
    requires Inv(c, s, t) && t <= r.arrived <= r.now && r.key != ""
    ensures var slot := Touched(c, s, r);
            && Fits(slot, r.key) && InRange(c, slot, r.now)
            && slot.tokens == Available(c, AccountOf(s, r.key), r.now)
            && slot.lastRefill == r.now
            && forall u :: u >= r.now ==> Level(c, slot, u) == Available(c, AccountOf(s, r.key), u)
  {
    hide Level, Place;
    AfterOpen(c, s, r.key, r.arrived, r.key, t);
    var s1 := Opened(c, s, r.key, r.arrived);
    FoundAt(s1, r.key, Place(s, r.key));
    var before := s1[Place(s, r.key)];
    assert Bucket(before) == AccountOf(s1, r.key);
    AccountInRange(c, s, r.key, t);
    RefillUnseen(c, before, r.now, r.now);
    forall u | u >= r.now
      ensures Level(c, Touched(c, s, r), u) == Available(c, AccountOf(s, r.key), u)
    {
      RefillUnseen(c, before, r.now, u);
      if Find(s, r.key) == |s| { NewIsFull(c, before, u); }
    }
    if Find(s, r.key) == |s| { NewIsFull(c, before, r.now); }
  }

  lemma NewIsFull(c: Config, slot: Slot, u: int)
    requires slot.tokens == c.max && slot.lastRefill <= u
    ensures Level(c, slot, u) == c.max
  {
    assert (u - slot.lastRefill) * c.rate >= 0;
  }

  // The exact law of one request: a charge is granted when the price is available, and
  // only then is anything taken; a refused charge or a look leaves no trace.
  lemma RequestLaw(c: Config, s: seq<Slot>, r: Request, t: int)
    requires Inv(c, s, t) && t <= r.arrived <= r.now && r.key != ""
    ensures r.Charge? ==> (Granted(c, s, r) <==> Available(c, AccountOf(s, r.key), r.now) >= Price(r.cost))
    ensures Granted(c, s, r) ==>
      Available(c, AccountOf(After(c, s, r), r.key), r.now)
        == Available(c, AccountOf(s, r.key), r.now) - Price(r.cost)
    ensures !Granted(c, s, r) ==> forall u :: u >= r.now ==>
      Available(c, AccountOf(After(c, s, r), r.key), u) == Available(c, AccountOf(s, r.key), u)
  {
    TouchedIs(c, s, r, t);
    OwnAccount(c, s, r, t);
    hide Level, Place, Opened;
    var slot := Touched(c, s, r);
    if Granted(c, s, r) {
      LevelNow(c, slot.(tokens := slot.tokens - Price(r.cost)));
    }
  }

  lemma LevelNow(c: Config, slot: Slot)
    ensures Level(c, slot, slot.lastRefill) == slot.tokens
  {}

  lemma OwnAccount(c: Config, s: seq<Slot>, r: Request, t: int)
    requires Inv(c, s, t) && t <= r.arrived <= r.now && r.key != ""
    ensures var slot := Touched(c, s, r);
            AccountOf(After(c, s, r), r.key)
              == Bucket(if Granted(c, s, r) then slot.(tokens := slot.tokens - Price(r.cost)) else slot)
    ensures Unique(After(c, s, r))
  {
    hide Level, Place;
    TouchedIs(c, s, r, t);
    AfterOpen(c, s, r.key, r.arrived, r.key, t);
    var s1 := Opened(c, s, r.key, r.arrived);
    OnlyAt(s1, r.key, Place(s, r.key));
    var slot := After(c, s, r)[Place(s, r.key)];
    AfterWrite(s1, Place(s, r.key), slot, r.key);
  }

  // Every request keeps the invariant, later by however long it took.
  lemma RequestKeepsInv(c: Config, s: seq<Slot>, r: Request, t: int)
    requires Inv(c, s, t) && t <= r.arrived <= r.now
    ensures Inv(c, After(c, s, r), r.now)
  {
    if r.key != "" {
      hide Level, Place;
      OwnAccount(c, s, r, t);
      TouchedIs(c, s, r, t);
      var s1 := Opened(c, s, r.key, r.arrived);
      forall i | 0 <= i < |s1|
        ensures i != Place(s, r.key) ==> InRange(c, s1[i], r.now)
      {
        if i < |s| && i != Place(s, r.key) { assert s1[i] == s[i] && InRange(c, s[i], t); }
      }
    }
  }

  // --- Whole runs.

  function Run(c: Config, s: seq<Slot>, rs: seq<Request>): (s': seq<Slot>)
    requires |s| <= MAX_CLIENTS
    ensures |s'| <= MAX_CLIENTS
  {
    if rs == [] then s else After(c, Run(c, s, rs[..|rs| - 1]), rs[|rs| - 1])
  }

  function EndTime(rs: seq<Request>, t0: int): int {
    if rs == [] then t0 else rs[|rs| - 1].now
  }

  // The clock never goes back.
  predicate Timed(rs: seq<Request>, t0: int) {
    rs == [] || (Timed(rs[..|rs| - 1], t0) && EndTime(rs[..|rs| - 1], t0) <= rs[|rs| - 1].arrived <= rs[|rs| - 1].now)
  }

  // Total price of the charges the key was granted.
  function Spent(c: Config, s: seq<Slot>, rs: seq<Request>, key: string): nat
    requires |s| <= MAX_CLIENTS
  {
    if rs == [] then 0
    else
      var r := rs[|rs| - 1];
      var before := Run(c, s, rs[..|rs| - 1]);
      Spent(c, s, rs[..|rs| - 1], key) + if r.key == key && Granted(c, before, r) then Price(r.cost) else 0
  }

  // How often the key's bucket was given to another key.
  function Evictions(c: Config, s: seq<Slot>, rs: seq<Request>, key: string): nat
    requires |s| <= MAX_CLIENTS
  {
    if rs == [] then 0
    else
      Evictions(c, s, rs[..|rs| - 1], key)
      + if Evicts(Run(c, s, rs[..|rs| - 1]), rs[|rs| - 1], key) then 1 else 0
  }

  lemma {:induction false} RunKeepsInv(c: Config, s: seq<Slot>, rs: seq<Request>, t0: int)
    requires Inv(c, s, t0) && Timed(rs, t0)
    ensures Inv(c, Run(c, s, rs), EndTime(rs, t0))
    ensures t0 <= EndTime(rs, t0)
  {
    if rs != [] {
      RunKeepsInv(c, s, rs[..|rs| - 1], t0);
      RequestKeepsInv(c, Run(c, s, rs[..|rs| - 1]), rs[|rs| - 1], EndTime(rs[..|rs| - 1], t0));
    }
  }

  // Tokens that flow in over some seconds.
  function Inflow(c: Config, secs: int): int {
    secs * c.rate
  }

  // Full buckets handed out again after evictions.
  function Renewed(c: Config, evictions: nat): int {
    evictions * c.max
  }

  lemma InflowSplits(c: Config, t0: int, t: int, u: int)
    ensures Inflow(c, u - t0) == Inflow(c, t - t0) + Inflow(c, u - t)
    ensures Inflow(c, 0) == 0
    ensures t <= u ==> Inflow(c, u - t) >= 0
  {}

  lemma RenewedOnce(c: Config, n: nat)
    ensures Renewed(c, n + 1) == Renewed(c, n) + c.max
    ensures Renewed(c, 0) == 0
  {}

  lemma AvailableGrowth(c: Config, s: seq<Slot>, key: string, t: int, u: int)
    requires Inv(c, s, t) && t <= u
    ensures 0 <= Available(c, AccountOf(s, key), t) <= c.max
    ensures Available(c, AccountOf(s, key), u) <= Available(c, AccountOf(s, key), t) + Inflow(c, u - t)
  {
    hide Level;
    InflowSplits(c, t, t, u);
    AccountInRange(c, s, key, t);
    match AccountOf(s, key)
    case Bucket(slot) =>
      LevelGrowth(c, slot, t, u);
      LevelGrowth(c, slot, t, t);
    case NoBucket =>
  }

  lemma InvSize(c: Config, s: seq<Slot>, t: int)
    requires Inv(c, s, t)
    ensures |s| <= MAX_CLIENTS
  {}

  lemma StepBound(c: Config, s: seq<Slot>, r: Request, t: int, key: string)
    requires Inv(c, s, t) && t <= r.arrived <= r.now && key != ""
    ensures (if r.key == key && Granted(c, s, r) then Price(r.cost) else 0)
            + Available(c, AccountOf(After(c, s, r), key), r.now)
         <= Available(c, AccountOf(s, key), t) + Inflow(c, r.now - t)
            + if Evicts(s, r, key) then c.max else 0
  {
    hide Level, Place, After, Inflow, Inv, Find, Granted, Price;
    AvailableGrowth(c, s, key, t, r.now);
    InflowSplits(c, t, t, r.now);
    if r.key == key {
      RequestLaw(c, s, r, t);
    } else {
      OthersUntouched(c, s, r, key, t);
    }
  }

  // The rate bound, over every run with a clock that never goes back: what a key is
  // granted, with what it could still spend, is covered by what it could spend at the
  // start, the refill over the elapsed time, and one full bucket for each eviction.
  lemma {:induction false} RateBound(c: Config, s: seq<Slot>, rs: seq<Request>, t0: int, key: string)
    requires Inv(c, s, t0) && Timed(rs, t0) && key != ""
    ensures Spent(c, s, rs, key) + Available(c, AccountOf(Run(c, s, rs), key), EndTime(rs, t0))
         <= Available(c, AccountOf(s, key), t0) + Inflow(c, EndTime(rs, t0) - t0)
            + Renewed(c, Evictions(c, s, rs, key))
  {
    hide Available, Inflow, Renewed, Inv, AccountOf, After, Evicts, Granted, Price;
    RenewedOnce(c, 0);
    InflowSplits(c, t0, t0, t0);
    if rs != [] {
      var first, r := rs[..|rs| - 1], rs[|rs| - 1];
      var t := EndTime(first, t0);
      RateBound(c, s, first, t0, key);
      RunKeepsInv(c, s, first, t0);
      InvSize(c, s, t0);
      StepBound(c, Run(c, s, first), r, t, key);
      InflowSplits(c, t0, t, r.now);
      RenewedOnce(c, Evictions(c, s, first, key));
    }
  }

  // Without eviction: a full bucket, and the refill rate for each second, and no more.
  lemma GrantedAtMost(c: Config, s: seq<Slot>, rs: seq<Request>, t0: int, key: string)
    requires Inv(c, s, t0) && Timed(rs, t0) && key != ""
    requires Evictions(c, s, rs, key) == 0
    ensures Spent(c, s, rs, key) <= c.max + (EndTime(rs, t0) - t0) * c.rate
  {
    hide Available, Inv, AccountOf, Spent;
    RateBound(c, s, rs, t0, key);
    RunKeepsInv(c, s, rs, t0);
    RenewedOnce(c, 0);
    InvSize(c, s, t0);
    AvailableGrowth(c, Run(c, s, rs), key, EndTime(rs, t0), EndTime(rs, t0));
    AvailableGrowth(c, s, key, t0, t0);
  }

  // No key is evicted while the table has a place left.
  lemma NoEvictionWithRoom(s: seq<Slot>, r: Request, key: string)
    requires |s| <= MAX_CLIENTS
    requires |s| < MAX_CLIENTS || exists i :: 0 <= i < |s| && !s[i].active
    ensures !Evicts(s, r, key)
  {
    if i :| 0 <= i < |s| && !s[i].active {
      assert VacantFrom(s, 0) < |s|;
    }
  }

  // --- Waiting.

  // Seconds until the next token, as computed: rounded down, plus one.
  function RetryAfter(c: Config, tokens: int): (secs: nat)
    requires c.rate > 0
  {
    if tokens >= 1 then 0 else (1 - tokens) / c.rate + 1
  }

  // Requests of other keys, refused charges and looks do not change what a key can spend.
  lemma {:induction false} UnspentRun(c: Config, s: seq<Slot>, rs: seq<Request>, t0: int, key: string, u: int)
    requires Inv(c, s, t0) && Timed(rs, t0) && key != "" && u >= EndTime(rs, t0)
    requires Evictions(c, s, rs, key) == 0 && Spent(c, s, rs, key) == 0
    ensures Available(c, AccountOf(Run(c, s, rs), key), u) == Available(c, AccountOf(s, key), u)
  {
    if rs != [] {
      var first, r := rs[..|rs| - 1], rs[|rs| - 1];
      UnspentRun(c, s, first, t0, key, u);
      RunKeepsInv(c, s, first, t0);
      if r.key == key {
        RequestLaw(c, Run(c, s, first), r, EndTime(first, t0));
      } else {
        OthersUntouched(c, Run(c, s, first), r, key, EndTime(first, t0));
      }
    }
  }

  // A check made at least the advised time later, with nothing granted to the key and no
  // eviction in between, succeeds.
  lemma RetrySucceeds(c: Config, s: seq<Slot>, rs: seq<Request>, t0: int, check: Request)
    requires Inv(c, s, t0) && Timed(rs, t0) && check.key != "" && c.max > 0 && c.rate > 0
    requires Evictions(c, s, rs, check.key) == 0 && Spent(c, s, rs, check.key) == 0
    requires check.Charge? && Price(check.cost) == 1
    requires EndTime(rs, t0) <= check.arrived <= check.now
    requires check.now >= t0 + RetryAfter(c, Available(c, AccountOf(s, check.key), t0))
    ensures Granted(c, Run(c, s, rs), check)
  {
    UnspentRun(c, s, rs, t0, check.key, check.now);
    RunKeepsInv(c, s, rs, t0);
    RequestLaw(c, Run(c, s, rs), check, EndTime(rs, t0));
    AccountInRange(c, s, check.key, t0);
    match AccountOf(s, check.key)
    case NoBucket =>
    case Bucket(slot) => WaitFills(c, slot, t0, check.now);
  }

  lemma WaitFills(c: Config, slot: Slot, t: int, u: int)
    requires InRange(c, slot, t) && c.max > 0 && c.rate > 0
    requires u >= t + RetryAfter(c, Level(c, slot, t))
    ensures Level(c, slot, u) >= 1
  {
    LevelGrowth(c, slot, t, t);
    if Level(c, slot, t) >= 1 {
      LevelGrowth(c, slot, t, u);
    } else {
      assert u - t >= 1;
      assert (u - slot.lastRefill) * c.rate == (t - slot.lastRefill) * c.rate + (u - t) * c.rate;
      assert (u - t) * c.rate >= c.rate;
      assert (t - slot.lastRefill) * c.rate >= 0;
    }
  }

  // The advice is exact unless tokens come one a second: then one second would do, but two
  // are advised.
  lemma RetryIsTightIff(c: Config, slot: Slot, t: int)
    requires InRange(c, slot, t) && slot.lastRefill == t && slot.tokens == 0
    requires c.max > 0 && c.rate > 0
    ensures (Level(c, slot, t + RetryAfter(c, slot.tokens) - 1) < 1) <==> c.rate != 1
  {
    if c.rate > 1 {
      QuotientUnique(1, c.rate, 0, 1);
    }
  }
}

module RateLimiting {
  import opened RateLimitSpec

  // The table of buckets; the clock readings are arguments.
  class Limiter {
    const buckets: array<Slot>
    var count: nat
    var max: nat
    var rate: nat

    ghost function Table(): seq<Slot>
      reads this, buckets
      requires count <= buckets.Length
    { buckets[..count] }

    function Conf(): Config
      reads this
    { Config(max, rate) }

    ghost predicate Sized()
      reads this
    { count <= buckets.Length == MAX_CLIENTS && max > 0 && rate > 0 }

    ghost predicate Valid(now: int)
      reads this, buckets
    { Sized() && Inv(Conf(), Table(), now) }

    constructor (maxTokens: int, refillPerSec: int)
      ensures fresh(buckets) && forall now :: Valid(now)
      ensures Table() == []
      ensures max == if maxTokens > 0 then maxTokens else 100
      ensures rate == if refillPerSec > 0 then refillPerSec else 10
    {
      buckets := new Slot[MAX_CLIENTS](_ => Slot("", 0, 0, false));
      count := 0;
      max := if maxTokens > 0 then maxTokens else 100;
      rate := if refillPerSec > 0 then refillPerSec else 10;
    }

    method Put(i: nat, slot: Slot)
      requires Sized() && i < count
      modifies buckets
      ensures Table() == old(Table())[i := slot]
    { buckets[i] := slot; }

    // Finds the key's bucket or makes one: a vacant place, a new place, or the oldest one's.
    method GetBucket(key: string, now: int) returns (i: nat)
      requires Sized()
      modifies this`count, buckets
      ensures Sized() && Table() == Opened(Conf(), old(Table()), key, now)
      ensures i == Place(old(Table()), key) && i < count
    {
      i := SearchKey(key);
      if i < count { return; }
      i := SearchVacant();
      if i < count {
        Put(i, Slot(key, max, now, true));
        return;
      }
      if count < MAX_CLIENTS {
        count := count + 1;
        Put(i, Slot(key, max, now, true));
        return;
      }
      i := SearchOldest();
      Put(i, Slot(key, max, now, true));
    }

    method SearchKey(key: string) returns (i: nat)
      requires Sized()
      ensures i == Find(Table(), key)
    {
      i := 0;
      while i < count
        invariant i <= count && FindFrom(Table(), key, 0) == FindFrom(Table(), key, i)
      {
        if buckets[i].active && buckets[i].key == key { return; }
        i := i + 1;
      }
    }

    method SearchVacant() returns (i: nat)
      requires Sized()
      ensures i == VacantFrom(Table(), 0)
    {
      i := 0;
      while i < count
        invariant i <= count && VacantFrom(Table(), 0) == VacantFrom(Table(), i)
      {
        if !buckets[i].active { return; }
        i := i + 1;
      }
    }

    method SearchOldest() returns (oldest: nat)
      requires Sized() && count > 0
      ensures oldest == Oldest(Table(), count)
    {
      oldest := 0;
      var i := 1;
      while i < count
        invariant 1 <= i <= count && oldest == Oldest(Table(), i)
      {
        if buckets[i].lastRefill < buckets[oldest].lastRefill { oldest := i; }
        i := i + 1;
      }
    }

    method Refill(i: nat, now: int)
      requires Sized() && i < count
      modifies buckets
      ensures Table() == old(Table())[i := Refilled(Conf(), old(buckets[i]), now)]
    {
      var b := buckets[i];
      var elapsed := now - b.lastRefill;
      if elapsed > 0 {
        var tokens := b.tokens + elapsed * rate;
        if tokens > max { tokens := max; }
        Put(i, b.(tokens := tokens, lastRefill := now));
      }
    }

    // Takes the price of the request if the bucket holds it.
    method CheckCost(key: string, cost: int, arrived: int, now: int) returns (allowed: int)
      requires Sized()
      modifies this`count, buckets
      ensures Sized()
      ensures Table() == After(Conf(), old(Table()), Charge(key, cost, arrived, now))
      ensures allowed == if Granted(Conf(), old(Table()), Charge(key, cost, arrived, now)) then 1 else 0
    {
      if key == "" { return 1; }
      var i := GetBucket(key, arrived);
      Refill(i, now);
      var c := if cost > 0 then cost else 1;
      if buckets[i].tokens >= c {
        Put(i, buckets[i].(tokens := buckets[i].tokens - c));
        return 1;
      }
      return 0;
    }

    method Check(key: string, arrived: int, now: int) returns (allowed: int)
      requires Sized()
      modifies this`count, buckets
      ensures Sized()
      ensures Table() == After(Conf(), old(Table()), Charge(key, 1, arrived, now))
      ensures allowed == if Granted(Conf(), old(Table()), Charge(key, 1, arrived, now)) then 1 else 0
    {
      if key == "" { return 1; }
      var i := GetBucket(key, arrived);
      Refill(i, now);
      if buckets[i].tokens >= 1 {
        Put(i, buckets[i].(tokens := buckets[i].tokens - 1));
        return 1;
      }
      return 0;
    }

    method Remaining(key: string, arrived: int, now: int) returns (tokens: int)
      requires Sized()
      modifies this`count, buckets
      ensures Sized()
      ensures Table() == After(Conf(), old(Table()), Look(key, arrived, now))
      ensures tokens == if key == "" then max else Touched(Conf(), old(Table()), Look(key, arrived, now)).tokens
    {
      if key == "" { return max; }
      var i := GetBucket(key, arrived);
      Refill(i, now);
      return buckets[i].tokens;
    }

    method RetrySeconds(key: string, arrived: int, now: int) returns (secs: int)
      requires Sized()
      modifies this`count, buckets
      ensures Sized()
      ensures Table() == After(Conf(), old(Table()), Look(key, arrived, now))
      ensures secs == if key == "" then 0
                      else RetryAfter(Conf(), Touched(Conf(), old(Table()), Look(key, arrived, now)).tokens)
    {
      if key == "" { return 0; }
      var i := GetBucket(key, arrived);
      Refill(i, now);
      if buckets[i].tokens >= 1 { return 0; }
      var needed := 1 - buckets[i].tokens;
      return needed / rate + 1;
    }
  }
}
