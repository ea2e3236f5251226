// The array heap behind the priority queue: lower numbers come out first.

module HeapSpec {
  // One queued value; `priority` is the sort key, smallest first.
  datatype Entry = Entry(value: int, priority: int)

  // Index of the parent of a node other than the root.
  function Parent(k: nat): nat
    requires k > 0
  { (k - 1) / 2 }

  // The edge from k to its parent is in order.
  predicate EdgeOk(h: seq<Entry>, k: nat)
    requires 0 < k < |h|
  { h[Parent(k)].priority <= h[k].priority }

  predicate HeapOrdered(h: seq<Entry>) {
    forall k: nat :: 0 < k < |h| ==> EdgeOk(h, k)
  }

  // What removing node i must not break: its children are no smaller than its parent.
  predicate Bridged(h: seq<Entry>, i: nat)
    requires i < |h|
  {
    i == 0 || forall k: nat :: 0 < k < |h| && Parent(k) == i ==> h[Parent(i)].priority <= h[k].priority
  }

  // Ordered everywhere but possibly on the edge above i.
  predicate OrderedExceptAbove(h: seq<Entry>, i: nat)
    requires i < |h|
  {
    && Bridged(h, i)
    && forall k: nat :: 0 < k < |h| && k != i ==> EdgeOk(h, k)
  }

  // Ordered everywhere but possibly on the edges below i.
  predicate OrderedExceptBelow(h: seq<Entry>, i: nat)
    requires i < |h|
  {
    && Bridged(h, i)
    && forall k: nat :: 0 < k < |h| && Parent(k) != i ==> EdgeOk(h, k)
  }

  function Swapped(h: seq<Entry>, i: nat, j: nat): (r: seq<Entry>)
    requires i < |h| && j < |h|
    ensures |r| == |h|
  { h[i := h[j]][j := h[i]] }

  // The same entries, each as often, in some order.
  ghost predicate Permutes(s: seq<Entry>, t: seq<Entry>) {
    multiset(s) == multiset(t)
  }

  // s holds what h holds, with one occurrence of e gone.
  ghost predicate Lost(s: seq<Entry>, h: seq<Entry>, e: Entry) {
    multiset(s) == multiset(h) - multiset{e}
  }

  lemma SwapPermutes(h: seq<Entry>, i: nat, j: nat, first: seq<Entry>)
    requires i < |h| && j < |h| && Permutes(h, first)
    ensures Permutes(Swapped(h, i, j), first)
  {}

  // One round of sift_up moves the only possible violation to the parent.
  lemma UpStep(h: seq<Entry>, i: nat)
    requires 0 < i < |h|
    requires OrderedExceptAbove(h, i)
    requires !EdgeOk(h, i)
    ensures OrderedExceptAbove(Swapped(h, i, Parent(i)), Parent(i))
  {
    var p := Parent(i);
    var s := Swapped(h, i, p);
    forall k: nat | 0 < k < |s| && k != p
      ensures EdgeOk(s, k)
    {
      assert k != i ==> EdgeOk(h, k);
    }
    if p > 0 {
      assert EdgeOk(h, p);
      forall k: nat | 0 < k < |s| && Parent(k) == p
        ensures s[Parent(p)].priority <= s[k].priority
      {
        assert k != i ==> EdgeOk(h, k);
      }
    }
  }

  // One round of sift_down swaps a smallest child up and moves the violation below it.
  lemma DownStep(h: seq<Entry>, i: nat, c: nat)
    requires i < |h| && 0 < c < |h| && Parent(c) == i
    requires OrderedExceptBelow(h, i)
    requires h[c].priority < h[i].priority
    requires forall k: nat :: 0 < k < |h| && Parent(k) == i ==> h[c].priority <= h[k].priority
    ensures OrderedExceptBelow(Swapped(h, i, c), c)
  {
    var s := Swapped(h, i, c);
    forall k: nat | 0 < k < |s| && Parent(k) != c
      ensures EdgeOk(s, k)
    {
      assert Parent(k) != i ==> EdgeOk(h, k);
    }
    forall k: nat | 0 < k < |s| && Parent(k) == c
      ensures s[Parent(c)].priority <= s[k].priority
    {
      assert EdgeOk(h, k);
    }
  }

  // In heap order no entry is smaller than the root.
  lemma {:induction false} RootIsMinimum(h: seq<Entry>, k: nat)
    requires HeapOrdered(h)
    requires k < |h|
    ensures h[0].priority <= h[k].priority
  {
    if k > 0 {
      assert EdgeOk(h, k);
      RootIsMinimum(h, Parent(k));
    }
  }

  // x may be extracted from bag m: it is present and nothing is smaller.
  ghost predicate IsMinimum(x: Entry, m: multiset<Entry>) {
    && x in m
    && forall y :: y in m ==> x.priority <= y.priority
  }

  lemma RootIsMinimumOfBag(h: seq<Entry>)
    requires HeapOrdered(h)
    requires |h| > 0
    ensures IsMinimum(h[0], multiset(h))
  {
    forall y | y in multiset(h)
      ensures h[0].priority <= y.priority
    {
      assert y in h;
      var k: nat :| k < |h| && h[k] == y;
      RootIsMinimum(h, k);
    }
  }

  // Taking the last entry into the root's place leaves violations only below the root.
  lemma ReplaceRoot(h: seq<Entry>)
    requires HeapOrdered(h)
    requires |h| > 1
    ensures OrderedExceptBelow(h[..|h| - 1][0 := h[|h| - 1]], 0)
    ensures Lost(h[..|h| - 1][0 := h[|h| - 1]], h, h[0])
  {
    var n := |h| - 1;
    var s := h[..n][0 := h[n]];
    forall k: nat | 0 < k < |s| && Parent(k) != 0
      ensures EdgeOk(s, k)
    {
      assert EdgeOk(h, k);
    }
    assert h == h[..n] + [h[n]];
    assert multiset(s) == multiset(h[..n]) - multiset{h[0]} + multiset{h[n]};
  }

  // A new last entry can only violate the order above itself.
  lemma AppendLast(h: seq<Entry>, e: Entry)
    requires HeapOrdered(h)
    ensures OrderedExceptAbove(h + [e], |h|)
    ensures multiset(h + [e]) == multiset(h) + multiset{e}
  {
    var s := h + [e];
    forall k: nat | 0 < k < |s| && k != |h|
      ensures EdgeOk(s, k)
    {
      assert EdgeOk(h, k);
    }
  }

  lemma SliceAppend(s: seq<Entry>, n: nat, e: Entry)
    requires n < |s|
    ensures s[n := e][..n + 1] == s[..n] + [e]
  {}

  lemma SliceWrite(s: seq<Entry>, n: nat, e: Entry)
    requires 0 < n <= |s|
    ensures s[0 := e][..n] == s[..n][0 := e]
  {}

  lemma PermutesSelf(h: seq<Entry>)
    ensures Permutes(h, h)
  {}

  lemma BagOfPermutation(s: seq<Entry>, t: seq<Entry>)
    requires Permutes(s, t)
    ensures multiset(s) == multiset(t)
  {}

  lemma PermutedLoss(s: seq<Entry>, t: seq<Entry>, h: seq<Entry>, e: Entry)
    requires Permutes(s, t) && Lost(t, h, e)
    ensures Lost(s, h, e)
  {}

  lemma LossIs(s: seq<Entry>, h: seq<Entry>, e: Entry)
    requires Lost(s, h, e)
    ensures multiset(s) == multiset(h) - multiset{e}
  {}

  lemma ParentIs(k: nat)
    requires k > 0
    ensures Parent(k) == (k - 1) / 2
  {}

  lemma EdgeIs(h: seq<Entry>, k: nat)
    requires 0 < k < |h|
    ensures Parent(k) < k
    ensures EdgeOk(h, k) <==> h[Parent(k)].priority <= h[k].priority
  {}

  // A swap inside the first n entries is a swap of that prefix and leaves the rest alone.
  lemma SwapParts(s: seq<Entry>, i: nat, j: nat, n: nat)
    requires i < n <= |s| && j < n
    ensures Swapped(s, i, j)[..n] == Swapped(s[..n], i, j)
    ensures Swapped(s, i, j)[n..] == s[n..]
  {}

  lemma NothingAbove(h: seq<Entry>, i: nat)
    requires i < |h| && OrderedExceptAbove(h, i)
    requires i == 0 || EdgeOk(h, i)
    ensures HeapOrdered(h)
  {}

  lemma ChildrenOf(i: nat, k: nat)
    requires k > 0
    ensures Parent(k) == i <==> k == 2 * i + 1 || k == 2 * i + 2
  {}

  // The child picked by comparing both children that exist is a smallest one.
  lemma SmallestChild(h: seq<Entry>, i: nat, c: nat)
    requires i < |h| && c < |h|
    requires c == 2 * i + 1 || c == 2 * i + 2
    requires 2 * i + 1 < |h| ==> h[c].priority <= h[2 * i + 1].priority
    requires 2 * i + 2 < |h| ==> h[c].priority <= h[2 * i + 2].priority
    ensures Parent(c) == i
    ensures forall k: nat :: 0 < k < |h| && Parent(k) == i ==> h[c].priority <= h[k].priority
  {
    ChildrenOf(i, c);
    forall k: nat | 0 < k < |h| && Parent(k) == i
      ensures h[c].priority <= h[k].priority
    {
      ChildrenOf(i, k);
    }
  }

  lemma NothingBelow(h: seq<Entry>, i: nat)
    requires i < |h| && OrderedExceptBelow(h, i)
    requires 2 * i + 1 < |h| ==> h[i].priority <= h[2 * i + 1].priority
    requires 2 * i + 2 < |h| ==> h[i].priority <= h[2 * i + 2].priority
    ensures HeapOrdered(h)
  {
    forall k: nat | 0 < k < |h|
      ensures EdgeOk(h, k)
    {
      ChildrenOf(i, k);
    }
  }

  lemma LastExtracted(h: seq<Entry>, s: seq<Entry>)
    requires |h| == 1 && s == []
    ensures HeapOrdered(s)
    ensures Lost(s, h, h[0])
  {
    assert h == [h[0]];
  }

  // --- Whole runs, over any queue that honours the contracts of the class below.

  datatype Event = Inserted(e: Entry) | Extracted(e: Entry)

  // The bag after the events, if each extraction took a minimum of its time.
  ghost predicate Reaches(m: multiset<Entry>, events: seq<Event>, last: multiset<Entry>)
    decreases |events|
  {
    if events == [] then m == last
    else match events[0]
      case Inserted(e) => Reaches(m + multiset{e}, events[1..], last)
      case Extracted(e) => IsMinimum(e, m) && Reaches(m - multiset{e}, events[1..], last)
  }

  lemma {:induction false} ReachesOneMore(m: multiset<Entry>, events: seq<Event>, mid: multiset<Entry>, ev: Event)
    requires Reaches(m, events, mid)
    requires ev.Extracted? ==> IsMinimum(ev.e, mid)
    ensures Reaches(m, events + [ev], if ev.Inserted? then mid + multiset{ev.e} else mid - multiset{ev.e})
    decreases |events|
  {
    var all := events + [ev];
    if events == [] {
      assert all[1..] == [];
    } else {
      assert all[1..] == events[1..] + [ev];
      match events[0]
      case Inserted(e) => ReachesOneMore(m + multiset{e}, events[1..], mid, ev);
      case Extracted(e) => ReachesOneMore(m - multiset{e}, events[1..], mid, ev);
    }
  }

  function Ins(events: seq<Event>): multiset<Entry> {
    if events == [] then multiset{}
    else if events[0].Inserted? then multiset{events[0].e} + Ins(events[1..]) else Ins(events[1..])
  }

  function Outs(events: seq<Event>): seq<Entry> {
    if events == [] then []
    else if events[0].Extracted? then [events[0].e] + Outs(events[1..]) else Outs(events[1..])
  }

  lemma NothingYet(m: multiset<Entry>)
    ensures Reaches(m, [], m) && Outs([]) == []
  {}

  lemma {:induction false} OutsOneMore(events: seq<Event>, ev: Event)
    ensures Outs(events + [ev]) == Outs(events) + if ev.Extracted? then [ev.e] else []
  {
    if events == [] {
      assert (events + [ev])[1..] == [];
    } else {
      assert (events + [ev])[1..] == events[1..] + [ev];
      OutsOneMore(events[1..], ev);
    }
  }

  predicate Ascending(s: seq<Entry>) {
    forall i, j :: 0 <= i < j < |s| ==> s[i].priority <= s[j].priority
  }

  // Whatever the interleaving, entries are neither lost, invented nor duplicated.
  lemma {:induction false} EntriesConserved(m: multiset<Entry>, events: seq<Event>, last: multiset<Entry>, x: Entry)
    requires Reaches(m, events, last)
    ensures m[x] + Ins(events)[x] == multiset(Outs(events))[x] + last[x]
    decreases |events|
  {
    if events != [] {
      var e := events[0].e;
      var rest := events[1..];
      match events[0]
      case Inserted(_) =>
        EntriesConserved(m + multiset{e}, rest, last, x);
      case Extracted(_) =>
        EntriesConserved(m - multiset{e}, rest, last, x);
        CountOfCons(e, Outs(rest), x);
    }
  }

  lemma CountOfCons(e: Entry, s: seq<Entry>, x: Entry)
    ensures multiset([e] + s)[x] == (if e == x then 1 else 0) + multiset(s)[x]
  {}

  // Draining a queue to empty yields its entries by non-decreasing priority.
  lemma {:induction false} DrainIsSorted(m: multiset<Entry>, events: seq<Event>)
    requires Reaches(m, events, multiset{})
    requires forall k :: 0 <= k < |events| ==> events[k].Extracted?
    ensures Ascending(Outs(events))
    decreases |events|
  {
    if events != [] {
      var x := events[0].e;
      var rest := Outs(events[1..]);
      var left := m - multiset{x};
      DrainIsSorted(left, events[1..]);
      forall j: nat | j < |rest|
        ensures x.priority <= rest[j].priority
      {
        DrainedWerePresent(left, events[1..], j);
        assert rest[j] in m;
      }
    }
  }

  lemma {:induction false} DrainedWerePresent(m: multiset<Entry>, events: seq<Event>, j: nat)
    requires Reaches(m, events, multiset{})
    requires forall k :: 0 <= k < |events| ==> events[k].Extracted?
    requires j < |Outs(events)|
    ensures Outs(events)[j] in m
    decreases |events|
  {
    if j > 0 {
      DrainedWerePresent(m - multiset{events[0].e}, events[1..], j - 1);
    }
  }

  // Draining a queue to empty yields each of its entries, as often as it was queued.
  lemma DrainIsComplete(m: multiset<Entry>, events: seq<Event>, x: Entry)
    requires Reaches(m, events, multiset{})
    requires forall k :: 0 <= k < |events| ==> events[k].Extracted?
    ensures multiset(Outs(events))[x] == m[x]
  {
    EntriesConserved(m, events, multiset{}, x);
    OnlyExtractions(events);
  }

  lemma DrainIsAll(m: multiset<Entry>, events: seq<Event>)
    requires Reaches(m, events, multiset{})
    requires forall k :: 0 <= k < |events| ==> events[k].Extracted?
    ensures multiset(Outs(events)) == m
  {
    hide Reaches, Outs;
    forall x
      ensures multiset(Outs(events))[x] == m[x]
    {
      DrainIsComplete(m, events, x);
    }
  }

  lemma {:induction false} OnlyExtractions(events: seq<Event>)
    requires forall k :: 0 <= k < |events| ==> events[k].Extracted?
    ensures Ins(events) == multiset{}
  {
    if events != [] { OnlyExtractions(events[1..]); }
  }

  // What a caller asks of a queue, and what the queue makes of it: the event, if there is
  // one, and the answer.
  datatype Op = InsertOp(e: Entry) | ExtractOp

  predicate Answers(op: Op, held: int, capacity: nat, step: seq<Event>, answer: int) {
    match op
    case InsertOp(e) =>
      if held < capacity then step == [Inserted(e)] && answer == 1 else step == [] && answer == 0
    case ExtractOp =>
      if held == 0 then step == [] && answer == -1
      else |step| == 1 && step[0].Extracted? && answer == step[0].e.value
  }

  function Flattened(steps: seq<seq<Event>>): seq<Event> {
    if steps == [] then [] else Flattened(steps[..|steps| - 1]) + steps[|steps| - 1]
  }

  // Entries held after the events.
  function Held(events: seq<Event>): int {
    if events == [] then 0
    else Held(events[..|events| - 1]) + if events[|events| - 1].Inserted? then 1 else -1
  }

  lemma HeldOne(step: seq<Event>)
    requires |step| <= 1
    ensures Held(step) == if step == [] then 0 else if step[0].Inserted? then 1 else -1
  {
    if step != [] { assert step[..0] == []; }
  }

  // Two drains of the same bag give the same priorities in the same places,
  // however ties between equal priorities are broken.
  lemma DrainPrioritiesUnique(s: seq<Entry>, t: seq<Entry>, k: nat)
    requires Ascending(s) && Ascending(t)
    requires multiset(s) == multiset(t)
    requires k < |s|
    ensures |t| == |s| && s[k].priority == t[k].priority
  {
    assert |s| == |multiset(s)| && |t| == |multiset(t)|;
    NotBelow(s, t, k);
    NotBelow(t, s, k);
  }

  // Were t smaller at k, its first k+1 entries would not fit among the first k of s.
  lemma NotBelow(s: seq<Entry>, t: seq<Entry>, k: nat)
    requires Ascending(s) && Ascending(t)
    requires multiset(s) == multiset(t)
    requires k < |s| == |t|
    ensures s[k].priority <= t[k].priority
  {
    if t[k].priority < s[k].priority {
      forall x
        ensures multiset(t[..k + 1])[x] <= multiset(s[..k])[x]
      {
        LowFits(s, t, k, x);
      }
      var low, room := multiset(t[..k + 1]), multiset(s[..k]);
      assert |low| == k + 1 && |room| == k;
      SubBagNotLarger(low, room);
    }
  }

  lemma LowFits(s: seq<Entry>, t: seq<Entry>, k: nat, x: Entry)
    requires Ascending(s) && Ascending(t)
    requires multiset(s) == multiset(t)
    requires k < |s| == |t|
    requires t[k].priority < s[k].priority
    ensures multiset(t[..k + 1])[x] <= multiset(s[..k])[x]
  {
    SplitCount(s, k, x);
    SplitCount(t, k + 1, x);
    if x in multiset(t[..k + 1]) {
      assert x in t[..k + 1];
      assert x.priority <= t[k].priority;
      assert x !in s[k..];
    }
  }

  lemma SplitCount(s: seq<Entry>, k: nat, x: Entry)
    requires k <= |s|
    ensures multiset(s)[x] == multiset(s[..k])[x] + multiset(s[k..])[x]
  {
    assert s == s[..k] + s[k..];
  }

  lemma SubBagNotLarger(a: multiset<Entry>, b: multiset<Entry>)
    requires a <= b
    ensures |a| <= |b|
  {
    assert b == a + (b - a);
  }
}

module PriorityQueues {
  import opened HeapSpec

  class PriorityQueue {
    const data: array<Entry>
    var size: nat

    ghost function Heap(): seq<Entry>
      reads this, data
      requires size <= data.Length
    { data[..size] }

    ghost predicate Valid()
      reads this, data
    { size <= data.Length && HeapOrdered(Heap()) }

    ghost function Contents(): multiset<Entry>
      reads this, data
      requires size <= data.Length
    { multiset(Heap()) }

    constructor (capacity: nat)
      requires 0 < capacity <= 65536
      ensures Valid() && fresh(data)
      ensures size == 0 && data.Length == capacity && Contents() == multiset{}
    {
      data := new Entry[capacity](_ => Entry(0, 0));
      size := 0;
    }

    method Swap(i: nat, j: nat)
      requires i < data.Length && j < data.Length
      modifies data
      ensures data[..] == Swapped(old(data[..]), i, j)
    {
      data[i], data[j] := data[j], data[i];
    }

    // Restores heap order on data[..n] when only the edge above idx may be wrong.
    method SiftUp(idx: nat, ghost n: nat)
      requires idx < n <= data.Length
      requires OrderedExceptAbove(data[..n], idx)
      modifies data
      ensures HeapOrdered(data[..n])
      ensures Permutes(data[..n], old(data[..n]))
      ensures data[n..] == old(data[n..])
    {
      hide *;
      var at: nat := idx;
      ghost var first := data[..n];
      PermutesSelf(first);
      while at > 0
        invariant at < n
        invariant OrderedExceptAbove(data[..n], at)
        invariant Permutes(data[..n], first)
        invariant data[n..] == old(data[n..])
      {
        var parent := (at - 1) / 2;
        ghost var h := data[..n];
        ParentIs(at);
        EdgeIs(h, at);
        if data[at].priority < data[parent].priority {
          UpStep(h, at);
          SwapPermutes(h, at, parent, first);
          SwapParts(data[..], at, parent, n);
          Swap(at, parent);
          at := parent;
        } else {
          NothingAbove(h, at);
          return;
        }
      }
      NothingAbove(data[..n], at);
    }

    // Restores heap order on data[..size] when only the edges below idx may be wrong.
    method SiftDown(idx: nat)
      requires idx < size <= data.Length
      requires OrderedExceptBelow(data[..size], idx)
      modifies data
      ensures HeapOrdered(data[..size])
      ensures Permutes(data[..size], old(data[..size]))
      ensures data[size..] == old(data[size..])
    {
      hide *;
      var at: nat := idx;
      ghost var first := data[..size];
      PermutesSelf(first);
      while true
        invariant at < size
        invariant OrderedExceptBelow(data[..size], at)
        invariant Permutes(data[..size], first)
        invariant data[size..] == old(data[size..])
        decreases size - at
      {
        var smallest := at;
        var left := 2 * at + 1;
        var right := 2 * at + 2;
        if left < size && data[left].priority < data[smallest].priority { smallest := left; }
        if right < size && data[right].priority < data[smallest].priority { smallest := right; }
        ghost var h := data[..size];
        if smallest != at {
          SmallestChild(h, at, smallest);
          DownStep(h, at, smallest);
          SwapPermutes(h, at, smallest, first);
          SwapParts(data[..], at, smallest, size);
          Swap(at, smallest);
          at := smallest;
        } else {
          NothingBelow(h, at);
          return;
        }
      }
    }

    method Insert(value: int, priority: int) returns (ok: bool)
      requires Valid()
      modifies this`size, data
      ensures Valid()
      ensures ok <==> old(size) < data.Length
      ensures ok ==> size == old(size) + 1 && Contents() == old(Contents()) + multiset{Entry(value, priority)}
      ensures !ok ==> size == old(size) && data[..] == old(data[..]) && Contents() == old(Contents())
    {
      hide *;
      if size >= data.Length { return false; }
      ValidIs();
      ghost var h := data[..size];
      var e := Entry(value, priority);
      AppendLast(h, e);
      SliceAppend(data[..], size, e);
      Write(size, e);
      SiftUp(size, size + 1);
      BagOfPermutation(data[..size + 1], h + [e]);
      size := size + 1;
      IsValid();
      return true;
    }

    lemma ValidIs()
      requires Valid()
      ensures size <= data.Length && HeapOrdered(data[..size]) && Contents() == multiset(data[..size])
    {}

    lemma IsValid()
      requires size <= data.Length && HeapOrdered(data[..size])
      ensures Valid() && Contents() == multiset(data[..size])
    {}

    method Write(i: nat, e: Entry)
      requires i < data.Length
      modifies data
      ensures data[..] == old(data[..])[i := e]
    {
      data[i] := e;
    }

    // The last entry, already cut off by `size`, replaces the extracted root.
    method RefillRoot(ghost h: seq<Entry>)
      requires 0 < size < data.Length
      requires h == data[..size + 1] && HeapOrdered(h)
      modifies data
      ensures HeapOrdered(data[..size])
      ensures Lost(data[..size], h, h[0])
    {
      hide *;
      ReplaceRoot(h);
      SliceWrite(data[..], size, data[size]);
      assert h[..size] == data[..size] && h[size] == data[size];
      Write(0, data[size]);
      SiftDown(0);
      PermutedLoss(data[..size], h[..size][0 := h[size]], h, h[0]);
    }

    // The answer -1 stands for an empty queue, and for an entry that holds -1.
    method Extract() returns (value: int)
      requires Valid()
      modifies this`size, data
      ensures Valid()
      ensures old(size) == 0 ==>
        value == -1 && size == 0 && data[..] == old(data[..]) && Contents() == old(Contents())
      ensures old(size) > 0 ==>
        && IsMinimum(old(data[0]), old(Contents()))
        && value == old(data[0]).value
        && size == old(size) - 1
        && Contents() == old(Contents()) - multiset{old(data[0])}
    {
      hide HeapOrdered, OrderedExceptBelow, Permutes, IsMinimum, Lost;
      if size == 0 { return -1; }
      ghost var h := Heap();
      RootIsMinimumOfBag(h);
      value := data[0].value;
      size := size - 1;
      if size > 0 {
        RefillRoot(h);
      } else {
        LastExtracted(h, data[..size]);
      }
      LossIs(data[..size], h, h[0]);
    }

    // Peeking answers what the next extraction would, and changes nothing.
    method Peek() returns (value: int, priority: int)
      requires Valid()
      ensures size == 0 ==> value == -1 && priority == -1
      ensures size > 0 ==> IsMinimum(Entry(value, priority), Contents()) && data[0] == Entry(value, priority)
    {
      if size == 0 { return -1, -1; }
      RootIsMinimumOfBag(Heap());
      return data[0].value, data[0].priority;
    }

    // Extracting until nothing is left.
    method Drain() returns (out: seq<Entry>)
      requires Valid()
      modifies this`size, data
      ensures Valid() && size == 0
      ensures Ascending(out)
      ensures multiset(out) == old(Contents())
    {
      hide HeapOrdered, Reaches, IsMinimum, Contents, Outs, Ascending;
      out := [];
      ghost var events: seq<Event> := [];
      NothingYet(Contents());
      while size > 0
        invariant Valid()
        invariant Reaches(old(Contents()), events, Contents())
        invariant out == Outs(events) && forall k :: 0 <= k < |events| ==> events[k].Extracted?
        decreases size
      {
        var value, priority := Peek();
        var e := Entry(value, priority);
        ReachesOneMore(old(Contents()), events, Contents(), Extracted(e));
        OutsOneMore(events, Extracted(e));
        var _ := Extract();
        out := out + [e];
        events := events + [Extracted(e)];
      }
      EmptyNow(this);
      DrainIsSorted(old(Contents()), events);
      DrainIsAll(old(Contents()), events);
    }

    // One request, with the event that it is.
    method Perform(op: Op) returns (answer: int, ghost step: seq<Event>)
      requires Valid()
      modifies this`size, data
      ensures Valid() && Answers(op, old(size), data.Length, step, answer) && |step| <= 1
      ensures size == old(size) + Held(step)
      ensures forall events :: Reaches(multiset{}, events, old(Contents())) ==>
        Reaches(multiset{}, events + step, Contents())
    {
      hide Reaches, IsMinimum, Contents;
      step := [];
      ghost var before := Contents();
      match op {
        case InsertOp(e) =>
          var ok := Insert(e.value, e.priority);
          if ok { step := [Inserted(e)]; }
          answer := if ok then 1 else 0;
        case ExtractOp =>
          if size > 0 { step := [Extracted(data[0])]; }
          answer := Extract();
      }
      HeldOne(step);
      forall events | Reaches(multiset{}, events, before)
        ensures Reaches(multiset{}, events + step, Contents())
      {
        if step == [] {
          assert events + step == events;
        } else {
          ReachesOneMore(multiset{}, events, before, step[0]);
        }
      }
    }
  }

  lemma EmptyNow(q: PriorityQueue)
    requires q.Valid() && q.size == 0
    ensures q.Contents() == multiset{}
  {}

  // Each answer is the one that the events before it explain.
  ghost predicate AllAnswered(ops: seq<Op>, answers: seq<int>, steps: seq<seq<Event>>, capacity: nat) {
    && |answers| == |steps| <= |ops|
    && forall i :: 0 <= i < |steps| ==> Answers(ops[i], Held(Flattened(steps[..i])), capacity, steps[i], answers[i])
  }

  lemma OneMoreAnswered(ops: seq<Op>, answers: seq<int>, steps: seq<seq<Event>>, capacity: nat,
                        answer: int, step: seq<Event>)
    requires AllAnswered(ops, answers, steps, capacity) && |steps| < |ops|
    requires Answers(ops[|steps|], Held(Flattened(steps)), capacity, step, answer)
    ensures AllAnswered(ops, answers + [answer], steps + [step], capacity)
  {
    hide Answers, Flattened, Held;
    var all := steps + [step];
    assert forall i :: 0 <= i < |steps| ==> all[..i] == steps[..i];
    assert all[..|steps|] == steps;
  }

  // Any requests made of a new queue: every answer is the one that the events explain, and
  // the events are a run in which each extraction takes a minimum.
  method Replay(capacity: nat, ops: seq<Op>) returns (q: PriorityQueue, answers: seq<int>, ghost steps: seq<seq<Event>>)
    requires 0 < capacity <= 65536
    ensures q.Valid() && |steps| == |ops| && AllAnswered(ops, answers, steps, capacity)
    ensures Reaches(multiset{}, Flattened(steps), q.Contents())
  {
    q := new PriorityQueue(capacity);
    answers, steps := [], [];
    NothingYet(multiset{});
    for i := 0 to |ops|
      invariant fresh(q) && fresh(q.data) && q.data.Length == capacity
      invariant q.Valid() && |steps| == i && AllAnswered(ops, answers, steps, capacity)
      invariant q.size == Held(Flattened(steps))
      invariant Reaches(multiset{}, Flattened(steps), q.Contents())
    {
      hide PriorityQueue.Valid, AllAnswered, Answers, Reaches, PriorityQueue.Contents, Held, Flattened;
      var answer;
      ghost var step;
      answer, step := q.Perform(ops[i]);
      OneMoreAnswered(ops, answers, steps, capacity, answer, step);
      FlattenedOneMore(steps, step);
      HeldTogether(Flattened(steps), step);
      answers := answers + [answer];
      steps := steps + [step];
    }
  }

  lemma FlattenedOneMore(steps: seq<seq<Event>>, step: seq<Event>)
    ensures Flattened(steps + [step]) == Flattened(steps) + step
    ensures (steps + [step])[..|steps|] == steps
  {}

  lemma {:induction false} HeldTogether(a: seq<Event>, b: seq<Event>)
    requires |b| <= 1
    ensures Held(a + b) == Held(a) + Held(b)
  {
    if b == [] {
      assert a + b == a;
    } else {
      assert (a + b)[..|a|] == a && b[..0] == [];
    }
  }
}
