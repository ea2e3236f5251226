// What a key can spend, as a plain meter: a number that grows by the refill rate for each second, never above
// the maximum, and falls by each granted charge. The table of buckets does what these meters say.
module RateLimitMeter {
  import opened RateLimitSpec
  import opened RateLimitKeys

  // What becomes of n tokens in some seconds.
  function Grown(c: Config, n: int, secs: int): int {
    if n + secs * c.rate > c.max then c.max else n + secs * c.rate
  }

  // The tokens a charge asks for: one, if the amount is not positive.
  function Asking(r: Request): int
    requires r.Charge?
  {
    if r.cost <= 0 then 1 else r.cost
  }

  // The meter of one key at time u, from `start` tokens at t0; only the key's own granted charges matter.
  function Meter(c: Config, start: int, t0: int, rs: seq<Request>, key: string, u: int): int
    decreases |rs|
  {
    if rs == [] then Grown(c, start, u - t0)
    else
      var first, r := rs[..|rs| - 1], rs[|rs| - 1];
      if r.Charge? && r.key == key && Asking(r) <= Meter(c, start, t0, first, key, r.now) then
        Grown(c, Meter(c, start, t0, first, key, r.now) - Asking(r), u - r.now)
      else Meter(c, start, t0, first, key, u)
  }

  // Between requests: exactly the refill rate for each second, up to the maximum.
  lemma AvailableLater(c: Config, a: Account, t: int, u: int)
    requires Holds(c, a, t) && t <= u
    ensures var n := Available(c, a, t) + (u - t) * c.rate;
            Available(c, a, u) == if n > c.max then c.max else n
  {
    Never(u - t, c.rate);
    match a
    case NoBucket =>
    case Bucket(slot) =>
      Never(t - slot.lastRefill, c.rate);
      InTwo(slot.lastRefill, t, u, c.rate);
  }

  lemma Never(secs: int, rate: nat)
    requires secs >= 0
    ensures secs * rate >= 0
  {}

  lemma InTwo(s: int, t: int, u: int, rate: nat)
    ensures (u - s) * rate == (t - s) * rate + (u - t) * rate
  {}

  // With nothing granted to the key and no eviction since t0, a charge of n tokens is granted if and only if n is
  // at most what was there then plus the refill, up to the maximum.
  lemma ChargeGrantedIff(c: Config, s: seq<Slot>, rs: seq<Request>, t0: int, r: Request)
    requires Inv(c, s, t0) && Timed(rs, t0) && r.Charge? && r.key != "" && r.cost > 0
    requires EndTime(rs, t0) <= r.arrived <= r.now
    requires Evictions(c, s, rs, r.key) == 0 && Spent(c, s, rs, r.key) == 0
    ensures var n := Available(c, AccountOf(s, r.key), t0) + (r.now - t0) * c.rate;
            Granted(c, Run(c, s, rs), r) <==> r.cost <= if n > c.max then c.max else n
  {
    hide Available, AccountOf, Granted, Run, Spent, Evictions, Inv, Holds;
    InvSize(c, s, t0);
    RunKeepsInv(c, s, rs, t0);
    UnspentRun(c, s, rs, t0, r.key, r.now);
    RequestLaw(c, Run(c, s, rs), r, EndTime(rs, t0));
    AccountInRange(c, s, r.key, t0);
    AvailableLater(c, AccountOf(s, r.key), t0, r.now);
  }

  // Over every run: what a key that is not evicted can spend is what its meter shows.
  lemma {:induction false} Metered(c: Config, s: seq<Slot>, rs: seq<Request>, t0: int, key: string, u: int)
    requires Inv(c, s, t0) && Timed(rs, t0) && key != "" && u >= EndTime(rs, t0)
    requires Evictions(c, s, rs, key) == 0
    ensures Available(c, AccountOf(Run(c, s, rs), key), u)
         == Meter(c, Available(c, AccountOf(s, key), t0), t0, rs, key, u)
    decreases |rs|
  {
    hide Available, AccountOf, Inv, Holds, After, Granted;
    InvSize(c, s, t0);
    if rs == [] {
      AccountInRange(c, s, key, t0);
      AvailableLater(c, AccountOf(s, key), t0, u);
    } else {
      var first, r := rs[..|rs| - 1], rs[|rs| - 1];
      RunKeepsInv(c, s, first, t0);
      Metered(c, s, first, t0, key, u);
      Metered(c, s, first, t0, key, r.now);
      MeterStep(c, Run(c, s, first), r, EndTime(first, t0), key, u);
    }
  }

  lemma MeterStep(c: Config, s: seq<Slot>, r: Request, t: int, key: string, u: int)
    requires Inv(c, s, t) && t <= r.arrived <= r.now <= u && key != "" && !Evicts(s, r, key)
    ensures var b := Available(c, AccountOf(s, key), r.now);
            Available(c, AccountOf(After(c, s, r), key), u)
              == if r.Charge? && r.key == key && Asking(r) <= b then Grown(c, b - Asking(r), u - r.now)
                 else Available(c, AccountOf(s, key), u)
  {
    hide Available, AccountOf, Inv, Holds, After, Evicts;
    InvSize(c, s, t);
    if r.key == key {
      RequestLaw(c, s, r, t);
      RequestKeepsInv(c, s, r, t);
      AccountInRange(c, After(c, s, r), key, r.now);
      AvailableLater(c, AccountOf(After(c, s, r), key), r.now, u);
    } else {
      OthersUntouched(c, s, r, key, t);
    }
  }

  // For a caller: with at most 1024 keys in use, every charge of every run is granted exactly when the meter of its
  // key shows enough; an empty key is always let through.
  lemma GrantedByMeter(c: Config, s: seq<Slot>, rs: seq<Request>, t0: int, r: Request)
    requires Inv(c, s, t0) && Timed(rs, t0) && r.Charge? && EndTime(rs, t0) <= r.arrived <= r.now
    requires |KeysIn(s) + Asked(rs)| <= MAX_CLIENTS
    ensures |Run(c, s, rs)| <= MAX_CLIENTS
    ensures Granted(c, Run(c, s, rs), r)
            <==> r.key == "" || Asking(r) <= Meter(c, Available(c, AccountOf(s, r.key), t0), t0, rs, r.key, r.now)
  {
    hide Available, AccountOf, Inv, Holds, Meter, Run, KeysIn, Asked;
    InvSize(c, s, t0);
    if r.key != "" {
      FewKeysStay(c, s, rs, t0);
      RunKeepsInv(c, s, rs, t0);
      Metered(c, s, rs, t0, r.key, r.now);
      RequestLaw(c, Run(c, s, rs), r, EndTime(rs, t0));
    }
  }

  // A key without a bucket starts with the maximum.
  lemma StartsFull(c: Config, key: string, t: int)
    ensures Available(c, AccountOf([], key), t) == c.max
  {}

  // What `remaining` answers: the tokens that can be spent at that time.
  lemma RemainingIsAvailable(c: Config, s: seq<Slot>, r: Request, t: int)
    requires Inv(c, s, t) && t <= r.arrived <= r.now && r.key != ""
    ensures Touched(c, s, r).tokens == Available(c, AccountOf(s, r.key), r.now)
  {
    hide Available, AccountOf, Inv, Touched;
    TouchedIs(c, s, r, t);
  }

  // The bucket taken away is the one refilled longest ago.
  lemma EvictsOldest(c: Config, s: seq<Slot>, r: Request, t: int, key: string)
    requires Inv(c, s, t) && Evicts(s, r, key)
    ensures Find(s, key) < |s| == MAX_CLIENTS
    ensures forall i :: 0 <= i < |s| ==> s[i].active && s[Find(s, key)].lastRefill <= s[i].lastRefill
  {
    if |s| < MAX_CLIENTS || exists i :: 0 <= i < |s| && !s[i].active {
      NoEvictionWithRoom(s, r, key);
    }
  }
}
