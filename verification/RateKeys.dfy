// When the rate limit holds: it depends on how many keys are in use, because a full table
// takes a bucket away from the least recently refilled key.
module RateLimitKeys {
  import opened RateLimitSpec

  // The keys that own a bucket.
  function KeysIn(s: seq<Slot>): set<string> {
    if s == [] then {} else KeysIn(s[..|s| - 1]) + if s[|s| - 1].active then {s[|s| - 1].key} else {}
  }

  // The key of a request; the empty key asks for no bucket.
  function Own(r: Request): set<string> {
    if r.key == "" then {} else {r.key}
  }

  function Asked(rs: seq<Request>): set<string> {
    if rs == [] then {} else Asked(rs[..|rs| - 1]) + Own(rs[|rs| - 1])
  }

  lemma {:induction false} KeyFound(s: seq<Slot>, key: string)
    ensures key in KeysIn(s) <==> exists i :: 0 <= i < |s| && Fits(s[i], key)
  {
    if s != [] {
      var n := |s| - 1;
      KeyFound(s[..n], key);
      assert Fits(s[n], key) ==> exists i :: 0 <= i < |s| && Fits(s[i], key);
      if i :| 0 <= i < n && Fits(s[..n][i], key) { assert Fits(s[i], key); }
      if i :| 0 <= i < |s| && Fits(s[i], key) { assert i < n ==> Fits(s[..n][i], key); }
    }
  }

  lemma KeyHasBucket(s: seq<Slot>, key: string)
    ensures key in KeysIn(s) <==> Find(s, key) < |s|
    ensures key in KeysIn(s) <==> AccountOf(s, key).Bucket?
  {
    KeyFound(s, key);
  }

  // No more keys than buckets, and as many only if every bucket is in use.
  lemma {:induction false} KeyCount(s: seq<Slot>)
    requires Unique(s)
    ensures |KeysIn(s)| <= |s|
    ensures |KeysIn(s)| == |s| <==> forall i :: 0 <= i < |s| ==> s[i].active
  {
    if s != [] {
      hide KeysIn;
      var n := |s| - 1;
      KeyCount(s[..n]);
      LastKey(s);
      assert forall i :: 0 <= i < n ==> s[..n][i] == s[i];
    }
  }

  lemma LastKey(s: seq<Slot>)
    requires Unique(s) && s != []
    ensures |KeysIn(s)| == |KeysIn(s[..|s| - 1])| + if s[|s| - 1].active then 1 else 0
  {
    var n := |s| - 1;
    KeyFound(s[..n], s[n].key);
    assert forall i :: 0 <= i < n ==> s[..n][i] == s[i];
  }

  // --- One request.

  // The request asks for a bucket that is not there, and there is no place for one.
  predicate Crowded(s: seq<Slot>, r: Request) {
    r.key != "" && r.key !in KeysIn(s) && |KeysIn(s)| >= MAX_CLIENTS
  }

  // That is exactly when some key loses its bucket.
  lemma EvictsIffCrowded(c: Config, s: seq<Slot>, r: Request, t: int)
    requires Inv(c, s, t)
    ensures (exists key :: Evicts(s, r, key)) <==> Crowded(s, r)
  {
    hide KeysIn;
    KeyHasBucket(s, r.key);
    KeyCount(s);
    if Crowded(s, r) {
      var o := Oldest(s, |s|);
      assert s[o].active;
      FoundAt(s, s[o].key, o);
      assert VacantFrom(s, 0) == |s|;
      assert Evicts(s, r, s[o].key);
    } else if key :| Evicts(s, r, key) {
      NoEvictionWithRoom(s, r, key);
    }
  }

  lemma KeysAfter(c: Config, s: seq<Slot>, r: Request, t: int)
    requires Inv(c, s, t) && t <= r.arrived <= r.now
    requires !Crowded(s, r)
    ensures KeysIn(After(c, s, r)) == KeysIn(s) + Own(r)
  {
    hide KeysIn, Crowded, After, AccountOf, Inv;
    InvSize(c, s, t);
    forall key
      ensures key in KeysIn(After(c, s, r)) <==> key in KeysIn(s) + Own(r)
    {
      KeyAfter(c, s, r, t, key);
    }
  }

  lemma KeyAfter(c: Config, s: seq<Slot>, r: Request, t: int, key: string)
    requires Inv(c, s, t) && t <= r.arrived <= r.now
    requires !Crowded(s, r)
    ensures key in KeysIn(After(c, s, r)) <==> key in KeysIn(s) || key in Own(r)
  {
    hide KeysIn, AccountOf, Inv, Crowded, Evicts, Touched, Granted, Opened, Place;
    InvSize(c, s, t);
    KeyHasBucket(s, key);
    KeyHasBucket(After(c, s, r), key);
    if r.key != key {
      EvictsIffCrowded(c, s, r, t);
      OthersUntouched(c, s, r, key, t);
    } else if key != "" {
      OwnAccount(c, s, r, t);
    }
  }

  // --- Whole runs.

  ghost predicate NoneEvicted(c: Config, s: seq<Slot>, rs: seq<Request>)
    requires |s| <= MAX_CLIENTS
  {
    forall key :: Evictions(c, s, rs, key) == 0
  }

  lemma NoneEvictedStep(c: Config, s: seq<Slot>, rs: seq<Request>, t0: int)
    requires Inv(c, s, t0) && Timed(rs, t0) && rs != []
    ensures NoneEvicted(c, s, rs)
      <==> NoneEvicted(c, s, rs[..|rs| - 1]) && !Crowded(Run(c, s, rs[..|rs| - 1]), rs[|rs| - 1])
  {
    hide Crowded, Inv, Evicts;
    InvSize(c, s, t0);
    var first, r := rs[..|rs| - 1], rs[|rs| - 1];
    var u := Run(c, s, first);
    RunKeepsInv(c, s, first, t0);
    EvictsIffCrowded(c, u, r, EndTime(first, t0));
    assert forall key :: Evictions(c, s, rs, key) == Evictions(c, s, first, key) + if Evicts(u, r, key) then 1 else 0;
    if NoneEvicted(c, s, rs) {
      forall key
        ensures Evictions(c, s, first, key) == 0 && !Evicts(u, r, key)
      {
        assert Evictions(c, s, rs, key) == 0;
      }
    }
  }

  lemma {:induction false} KeysOfRun(c: Config, s: seq<Slot>, rs: seq<Request>, t0: int)
    requires Inv(c, s, t0) && Timed(rs, t0) && NoneEvicted(c, s, rs)
    ensures KeysIn(Run(c, s, rs)) == KeysIn(s) + Asked(rs)
  {
    hide KeysIn, Crowded, Inv, NoneEvicted, After;
    InvSize(c, s, t0);
    if rs != [] {
      var first, r := rs[..|rs| - 1], rs[|rs| - 1];
      NoneEvictedStep(c, s, rs, t0);
      KeysOfRun(c, s, first, t0);
      RunKeepsInv(c, s, first, t0);
      KeysAfter(c, Run(c, s, first), r, EndTime(first, t0));
    }
  }

  // No key ever loses its bucket if and only if the keys that have one at the start and
  // those that ask for one are together at most 1024.
  lemma {:induction false} NoneEvictedIff(c: Config, s: seq<Slot>, rs: seq<Request>, t0: int)
    requires Inv(c, s, t0) && Timed(rs, t0)
    ensures NoneEvicted(c, s, rs) <==> |KeysIn(s) + Asked(rs)| <= 1024
  {
    hide KeysIn, Inv, NoneEvicted;
    InvSize(c, s, t0);
    if NoneEvicted(c, s, rs) {
      KeysOfRun(c, s, rs, t0);
      RunKeepsInv(c, s, rs, t0);
      KeysFit(c, Run(c, s, rs), EndTime(rs, t0));
    }
    if |KeysIn(s) + Asked(rs)| <= MAX_CLIENTS {
      FewKeysStay(c, s, rs, t0);
    }
  }

  lemma KeysFit(c: Config, s: seq<Slot>, t: int)
    requires Inv(c, s, t)
    ensures |KeysIn(s)| <= MAX_CLIENTS
  {
    KeyCount(s);
  }

  lemma {:induction false} FewKeysStay(c: Config, s: seq<Slot>, rs: seq<Request>, t0: int)
    requires Inv(c, s, t0) && Timed(rs, t0)
    requires |KeysIn(s) + Asked(rs)| <= MAX_CLIENTS
    ensures NoneEvicted(c, s, rs)
  {
    hide KeysIn, Inv;
    InvSize(c, s, t0);
    if rs != [] {
      hide NoneEvicted;
      var first, r := rs[..|rs| - 1], rs[|rs| - 1];
      var all, fewer := KeysIn(s) + Asked(rs), KeysIn(s) + Asked(first);
      assert all == fewer + Own(r);
      NotMore(fewer, all);
      FewKeysStay(c, s, first, t0);
      KeysOfRun(c, s, first, t0);
      if r.key != "" && r.key !in fewer {
        assert fewer + {r.key} == all && |all| == |fewer| + 1;
      }
      NoneEvictedStep(c, s, rs, t0);
    }
  }

  lemma NotMore(a: set<string>, b: set<string>)
    requires a <= b
    ensures |a| <= |b|
  {
    assert b == a + (b - a);
  }

  // --- What a caller can rely on, counting the keys in use.

  // With at most 1024 keys every key is granted at most a full bucket and the refill.
  lemma FewKeysLimited(c: Config, s: seq<Slot>, rs: seq<Request>, t0: int, key: string)
    requires Inv(c, s, t0) && Timed(rs, t0) && key != ""
    requires |KeysIn(s) + Asked(rs)| <= MAX_CLIENTS
    ensures Spent(c, s, rs, key) <= c.max + (EndTime(rs, t0) - t0) * c.rate
  {
    hide Inv, Spent, KeysIn, Asked;
    InvSize(c, s, t0);
    FewKeysStay(c, s, rs, t0);
    GrantedAtMost(c, s, rs, t0, key);
  }

  // With at most 1024 keys a check made at least the advised time later, with nothing
  // granted to the key in between, succeeds.
  lemma FewKeysRetry(c: Config, s: seq<Slot>, rs: seq<Request>, t0: int, check: Request)
    requires Inv(c, s, t0) && Timed(rs, t0) && check.key != "" && c.max > 0 && c.rate > 0
    requires |KeysIn(s) + Asked(rs)| <= MAX_CLIENTS && Spent(c, s, rs, check.key) == 0
    requires check.Charge? && Price(check.cost) == 1
    requires EndTime(rs, t0) <= check.arrived <= check.now
    requires check.now >= t0 + RetryAfter(c, Available(c, AccountOf(s, check.key), t0))
    ensures Granted(c, Run(c, s, rs), check)
  {
    hide Inv, Spent, KeysIn, Asked, Available, RetryAfter, Granted;
    InvSize(c, s, t0);
    FewKeysStay(c, s, rs, t0);
    RetrySucceeds(c, s, rs, t0, check);
  }

  // --- With one key more the limit can be broken, whatever the keys are.

  ghost predicate Distinct(keys: seq<string>) {
    && (forall i :: 0 <= i < |keys| ==> keys[i] != "")
    && (forall i, j :: 0 <= i < j < |keys| ==> keys[i] != keys[j])
  }

  // At second 0: the first key spends a full bucket, the others only look.
  function Crowd(keys: seq<string>, max: nat, n: nat): seq<Request>
    requires n <= |keys|
  {
    if n == 0 then []
    else Crowd(keys, max, n - 1) + [Nth(keys, max, n)]
  }

  function CrowdTable(keys: seq<string>, max: nat, n: nat): (s: seq<Slot>)
    requires n <= |keys|
    ensures |s| == n
  {
    seq(n, i requires 0 <= i < n => Slot(keys[i], if i == 0 then 0 else max, 0, true))
  }

  lemma NewPlace(c: Config, keys: seq<string>, n: nat, k: string)
    requires n <= |keys| && n <= MAX_CLIENTS && k !in keys[..n]
    ensures var s := CrowdTable(keys, c.max, n);
      Find(s, k) == n && VacantFrom(s, 0) == n && (n == MAX_CLIENTS ==> Place(s, k) == 0)
      && (n < MAX_CLIENTS ==> Place(s, k) == n)
  {
    var s := CrowdTable(keys, c.max, n);
    forall i | 0 <= i < |s|
      ensures !Fits(s[i], k)
    {
      assert keys[..n][i] == keys[i];
    }
    NotFound(s, k);
  }

  // The n-th request of the crowd.
  function Nth(keys: seq<string>, max: nat, n: nat): Request
    requires 0 < n <= |keys|
  {
    if n == 1 then Charge(keys[0], max, 0, 0) else Look(keys[n - 1], 0, 0)
  }

  ghost function Firsts(keys: seq<string>, n: nat): set<string>
    requires n <= |keys|
  {
    set i | 0 <= i < n :: keys[i]
  }

  lemma {:induction false} CrowdRuns(c: Config, keys: seq<string>, n: nat)
    requires c.max > 0 && Distinct(keys) && n <= |keys| && n <= MAX_CLIENTS
    ensures Run(c, [], Crowd(keys, c.max, n)) == CrowdTable(keys, c.max, n)
    ensures n > 0 ==> Spent(c, [], Crowd(keys, c.max, n), keys[0]) == c.max
  {
    if n > 0 {
      hide Spent, Timed, EndTime, Asked, After, Granted, CrowdTable, Own, Nth, Run, Distinct;
      CrowdRuns(c, keys, n - 1);
      CrowdStep(c, keys, n);
      CrowdSpends(c, keys, n);
      OneMore(c, Crowd(keys, c.max, n - 1), Nth(keys, c.max, n), keys[0]);
    } else {
      NothingRun(c);
    }
  }

  lemma NothingRun(c: Config)
    ensures Run(c, [], []) == []
  {}

  lemma CrowdSpends(c: Config, keys: seq<string>, n: nat)
    requires c.max > 0 && Distinct(keys) && 0 < n <= |keys| && n <= MAX_CLIENTS
    requires Run(c, [], Crowd(keys, c.max, n - 1)) == CrowdTable(keys, c.max, n - 1)
    requires n > 1 ==> Spent(c, [], Crowd(keys, c.max, n - 1), keys[0]) == c.max
    ensures Spent(c, [], Crowd(keys, c.max, n), keys[0]) == c.max
  {
    hide Run, Spent, After, Granted, CrowdTable, Distinct, Asked, Own, Timed, EndTime;
    CrowdStep(c, keys, n);
    OneMore(c, Crowd(keys, c.max, n - 1), Nth(keys, c.max, n), keys[0]);
    if n == 1 {
      NothingSpent(c, keys[0]);
    }
  }

  lemma {:induction false} CrowdAsks(keys: seq<string>, max: nat, n: nat)
    requires n <= |keys| && "" !in keys
    ensures var rs := Crowd(keys, max, n); Timed(rs, 0) && EndTime(rs, 0) == 0 && Asked(rs) == Firsts(keys, n)
  {
    if n > 0 {
      CrowdAsks(keys, max, n - 1);
      TimedMore(Crowd(keys, max, n - 1), Nth(keys, max, n));
      FirstKeys(keys, n);
    }
  }

  lemma TimedMore(rs: seq<Request>, r: Request)
    ensures Timed(rs + [r], 0) <==> Timed(rs, 0) && EndTime(rs, 0) <= r.arrived <= r.now
    ensures EndTime(rs + [r], 0) == r.now
    ensures Asked(rs + [r]) == Asked(rs) + Own(r)
  {
    assert (rs + [r])[..|rs|] == rs;
  }

  lemma NothingSpent(c: Config, key: string)
    ensures Spent(c, [], [], key) == 0
  {}

  lemma FirstKeys(keys: seq<string>, n: nat)
    requires 0 < n <= |keys|
    ensures Firsts(keys, n) == Firsts(keys, n - 1) + {keys[n - 1]}
  {}

  lemma CrowdStep(c: Config, keys: seq<string>, n: nat)
    requires c.max > 0 && Distinct(keys) && 0 < n <= |keys| && n <= MAX_CLIENTS
    ensures var s := CrowdTable(keys, c.max, n - 1);
      var r := Nth(keys, c.max, n);
      && After(c, s, r) == CrowdTable(keys, c.max, n)
      && r.key == keys[n - 1] != "" && (n == 1 ==> Granted(c, s, r)) && (n > 1 ==> r.key != keys[0])
  {
    hide Find, Place;
    NewPlace(c, keys, n - 1, keys[n - 1]);
  }

  // One key more takes the first one's bucket, and the first key is given a full one again.
  lemma CrowdBreaks(c: Config, keys: seq<string>) returns (rs: seq<Request>)
    requires c.max > 0 && Distinct(keys) && |keys| == MAX_CLIENTS + 1
    ensures Timed(rs, 0) && EndTime(rs, 0) == 0 && Asked(rs) == Firsts(keys, |keys|)
    ensures Spent(c, [], rs, keys[0]) == 2 * c.max
  {
    hide Crowd, CrowdTable, Run, Spent, After, Granted, Timed, EndTime, Asked, Own, Distinct, Find, Place, Firsts;
    var a, b, full := keys[0], keys[MAX_CLIENTS], Crowd(keys, c.max, MAX_CLIENTS);
    DistinctEnds(keys);
    CrowdRuns(c, keys, MAX_CLIENTS);
    CrowdAsks(keys, c.max, MAX_CLIENTS);
    var look, again := Look(b, 0, 0), Charge(a, c.max, 0, 0);
    NewPlace(c, keys, MAX_CLIENTS, b);
    TakesFirst(c, keys);
    OneMore(c, full, look, a);
    TimedMore(full, look);
    OneMore(c, full + [look], again, a);
    TimedMore(full + [look], again);
    rs := full + [look] + [again];
    AskedAll(keys, full, look, again);
  }

  lemma DistinctEnds(keys: seq<string>)
    requires Distinct(keys) && |keys| == MAX_CLIENTS + 1
    ensures "" !in keys && keys[0] != "" && keys[MAX_CLIENTS] != "" && keys[0] != keys[MAX_CLIENTS]
    ensures keys[MAX_CLIENTS] !in keys[..MAX_CLIENTS]
  {}

  // The look takes place 0 from the first key, whose next charge finds a full bucket there.
  lemma TakesFirst(c: Config, keys: seq<string>)
    requires c.max > 0 && Distinct(keys) && |keys| == MAX_CLIENTS + 1
    ensures var s := CrowdTable(keys, c.max, MAX_CLIENTS);
      var u := After(c, s, Look(keys[MAX_CLIENTS], 0, 0));
      Granted(c, u, Charge(keys[0], c.max, 0, 0))
  {
    var s := CrowdTable(keys, c.max, MAX_CLIENTS);
    var b := keys[MAX_CLIENTS];
    NewPlace(c, keys, MAX_CLIENTS, b);
    var u := After(c, s, Look(b, 0, 0));
    assert u == s[0 := Slot(b, c.max, 0, true)];
    forall i | 0 <= i < |u|
      ensures !Fits(u[i], keys[0])
    {
      assert i > 0 ==> u[i].key == keys[i];
    }
    NotFound(u, keys[0]);
  }

  lemma OneMore(c: Config, rs: seq<Request>, r: Request, key: string)
    ensures Run(c, [], rs + [r]) == After(c, Run(c, [], rs), r)
    ensures Spent(c, [], rs + [r], key) == Spent(c, [], rs, key)
      + if r.key == key && Granted(c, Run(c, [], rs), r) then Price(r.cost) else 0
  {
    hide After, Granted, Price;
    assert (rs + [r])[..|rs|] == rs;
  }

  lemma AskedAll(keys: seq<string>, full: seq<Request>, look: Request, again: Request)
    requires Distinct(keys) && |keys| == MAX_CLIENTS + 1
    requires Asked(full) == Firsts(keys, MAX_CLIENTS)
    requires look.key == keys[MAX_CLIENTS] && again.key == keys[0]
    ensures Asked(full) + Own(look) + Own(again) == Firsts(keys, |keys|)
  {}

  // The limit as a caller sees it, on a table that starts empty.
  ghost predicate Limited(c: Config, rs: seq<Request>, t0: int, key: string) {
    Spent(c, [], rs, key) <= c.max + (EndTime(rs, t0) - t0) * c.rate
  }

  // The exact condition: the limit holds for every key of a set, in all runs that ask for
  // keys of the set, if and only if the set has at most 1024 keys.
  lemma LimitHoldsIff(c: Config, keys: set<string>)
    requires c.max > 0 && "" !in keys
    ensures (forall rs, t0, key :: Timed(rs, t0) && Asked(rs) <= keys && key in keys ==> Limited(c, rs, t0, key))
      <==> |keys| <= 1024
  {
    if |keys| <= MAX_CLIENTS {
      forall rs, t0, key | Timed(rs, t0) && Asked(rs) <= keys && key in keys
        ensures Limited(c, rs, t0, key)
      {
        NotMore(Asked(rs), keys);
        assert KeysIn([]) + Asked(rs) == Asked(rs);
        FewKeysLimited(c, [], rs, t0, key);
      }
    } else {
      var some := Listed(keys, MAX_CLIENTS + 1);
      var rs := CrowdBreaks(c, some);
      assert some[0] in keys;
      assert !Limited(c, rs, 0, some[0]);
    }
  }

  lemma {:induction false} Listed(keys: set<string>, n: nat) returns (s: seq<string>)
    requires n <= |keys| && "" !in keys
    ensures |s| == n && Distinct(s) && forall i :: 0 <= i < n ==> s[i] in keys
    decreases n
  {
    if n == 0 {
      s := [];
    } else {
      var k :| k in keys;
      var rest := Listed(keys - {k}, n - 1);
      assert forall i :: 0 <= i < n - 1 ==> rest[i] in keys && rest[i] != k;
      s := [k] + rest;
    }
  }
}
