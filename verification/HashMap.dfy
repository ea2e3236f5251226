// The chained hash map: heap-linked entries, relinked in place when the table doubles.

module HashMaps {
  type Key = seq<bv8>

  // Keys never change once an entry exists; values and links do.
  class Entry {
    const key: Key
    var value: int
    var next: Entry?

    constructor (key: Key, value: int, next: Entry?)
      ensures this.key == key && this.value == value && this.next == next
    {
      this.key := key;
      this.value := value;
      this.next := next;
    }
  }

  // One round of 64-bit FNV-1a.
  function Mix(h: bv64, b: bv8): bv64 {
    (h ^ (b as bv64)) * 1099511628211
  }

  function Fnv(key: Key): bv64 {
    if key == [] then 14695981039346656037 else Mix(Fnv(key[..|key| - 1]), key[|key| - 1])
  }

  // The published values of the hash for "", "a" and "foobar".
  lemma FnvVectors()
    ensures Fnv([]) == 0xcbf29ce484222325
    ensures Fnv([0x61]) == 0xaf63dc4c8601ec8c
    ensures Fnv([0x66, 0x6f, 0x6f, 0x62, 0x61, 0x72]) == 0x85944171f73967e8
  {
    var key: Key := [0x66, 0x6f, 0x6f, 0x62, 0x61, 0x72];
    assert key[..5][..4] == key[..4] && key[..4][..3] == key[..3];
    assert key[..3][..2] == key[..2] && key[..2][..1] == key[..1] && key[..1][..0] == [];
    assert Fnv(key[..1]) == Mix(Fnv([]), 0x66);
    assert Fnv(key[..2]) == Mix(Fnv(key[..1]), 0x6f);
    assert Fnv(key[..3]) == Mix(Fnv(key[..2]), 0x6f);
    assert Fnv(key[..4]) == Mix(Fnv(key[..3]), 0x62);
    assert Fnv(key[..5]) == Mix(Fnv(key[..4]), 0x61);
  }

  // A byte above 127 counts as it is, not as a negative number.
  lemma HighByte()
    ensures Fnv([0xff]) == 0xaf64724c8602eb6e
  {
    var key: Key := [0xff];
    assert key[..0] == [];
    assert Fnv(key) == Mix(Fnv([]), 0xff);
  }

  method HashKey(key: Key) returns (h: bv64)
    ensures h == Fnv(key)
  {
    hide Mix;
    h := 14695981039346656037;
    for i := 0 to |key|
      invariant h == Fnv(key[..i])
    {
      assert key[..i + 1][..i] == key[..i];
      h := Mix(h, key[i]);
    }
    assert key[..|key|] == key;
  }

  function Index(key: Key, nb: nat): (i: nat)
    requires nb > 0
    ensures i < nb
  { (Fnv(key) as int) % nb }

  // --- Where the entries sit.

  ghost predicate AllHome(chains: seq<seq<Entry>>, nodes: set<Entry>)
    requires |chains| > 0
  {
    forall x :: x in nodes ==> x in chains[Index(x.key, |chains|)]
  }

  ghost predicate HomeOnly(chain: seq<Entry>, i: nat, nodes: set<Entry>, nb: nat)
    requires nb > 0
  {
    && (forall k :: 0 <= k < |chain| ==> chain[k] in nodes && Index(chain[k].key, nb) == i)
    && (forall j, k :: 0 <= j < k < |chain| ==> chain[j] != chain[k])
  }

  // The chains hold exactly these nodes, each once, in the bucket its key hashes to.
  ghost predicate Layout(chains: seq<seq<Entry>>, nodes: set<Entry>) {
    && |chains| > 0
    && AllHome(chains, nodes)
    && forall i: nat :: i < |chains| ==> HomeOnly(chains[i], i, nodes, |chains|)
  }

  ghost predicate KeysUnique(nodes: set<Entry>) {
    forall x, y :: x in nodes && y in nodes && x.key == y.key ==> x == y
  }

  lemma LayoutPrepend(chains: seq<seq<Entry>>, nodes: set<Entry>, e: Entry)
    requires Layout(chains, nodes)
    requires e !in nodes
    ensures var i := Index(e.key, |chains|);
            Layout(chains[i := [e] + chains[i]], nodes + {e})
  {
    var i := Index(e.key, |chains|);
    var chains' := chains[i := [e] + chains[i]];
    var nodes' := nodes + {e};
    assert HomeOnly(chains[i], i, nodes, |chains|);
    assert HomeOnly(chains'[i], i, nodes', |chains|);
    forall p: nat | p < |chains|
      ensures HomeOnly(chains'[p], p, nodes', |chains|)
    {
      assert HomeOnly(chains[p], p, nodes, |chains|);
    }
    forall x | x in nodes'
      ensures x in chains'[Index(x.key, |chains'|)]
    {
      if x == e { assert chains'[i][0] == e; }
    }
  }

  function Without<T>(s: seq<T>, k: nat): seq<T>
    requires k < |s|
  { s[..k] + s[k + 1..] }

  lemma LayoutRemove(chains: seq<seq<Entry>>, nodes: set<Entry>, i: nat, k: nat)
    requires Layout(chains, nodes)
    requires i < |chains| && k < |chains[i]|
    ensures chains[i][k] in nodes
    ensures Layout(chains[i := Without(chains[i], k)], nodes - {chains[i][k]})
  {
    var e := chains[i][k];
    var c := Without(chains[i], k);
    var chains' := chains[i := c];
    var nodes' := nodes - {e};
    assert HomeOnly(chains[i], i, nodes, |chains|);
    forall p: nat | p < |chains|
      ensures HomeOnly(chains'[p], p, nodes', |chains|)
    {
      assert HomeOnly(chains[p], p, nodes, |chains|);
    }
    forall x | x in nodes'
      ensures x in chains'[Index(x.key, |chains'|)]
    {
      var p := Index(x.key, |chains|);
      assert x in chains[p];
      if p == i {
        var q: nat :| q < |chains[i]| && chains[i][q] == x;
        assert x == if q < k then c[q] else c[q - 1];
      }
    }
  }

  lemma EmptyLayout(chains: seq<seq<Entry>>)
    requires |chains| > 0
    requires forall i :: 0 <= i < |chains| ==> chains[i] == []
    ensures Layout(chains, {})
  {}

  lemma NothingLaidOut(chains: seq<seq<Entry>>, nodes: set<Entry>)
    requires Layout(chains, nodes)
    requires forall i :: 0 <= i < |chains| ==> chains[i] == []
    ensures nodes == {}
  {
    forall x: Entry
      ensures x !in nodes
    {
      assert chains[Index(x.key, |chains|)] == [];
    }
  }

  // --- How they are linked. Heap links are read off as a map from entry to successor.

  // The k-th entry of a chain, or the null that ends it.
  function NodeAt(chain: seq<Entry>, k: nat): Entry? {
    if k < |chain| then chain[k] else null
  }

  ghost predicate Linked(chain: seq<Entry>, head: Entry?, links: map<Entry, Entry?>) {
    && head == NodeAt(chain, 0)
    && forall k: nat :: k < |chain| ==> chain[k] in links && links[chain[k]] == NodeAt(chain, k + 1)
  }

  // From bucket `first` on, each head starts the chain of its bucket.
  ghost predicate Table(heads: seq<Entry?>, links: map<Entry, Entry?>, first: nat,
                        chains: seq<seq<Entry>>, nodes: set<Entry>)
  {
    && |chains| == |heads|
    && Layout(chains, nodes)
    && forall p: nat :: first <= p < |heads| ==> Linked(chains[p], heads[p], links)
  }

  lemma LinkedElsewhere(chain: seq<Entry>, head: Entry?, links: map<Entry, Entry?>, e: Entry, x: Entry?)
    requires Linked(chain, head, links)
    requires e !in chain
    ensures Linked(chain, head, links[e := x])
  {}

  lemma LinkedTail(chain: seq<Entry>, head: Entry?, links: map<Entry, Entry?>)
    requires Linked(chain, head, links) && head != null
    ensures |chain| > 0 && chain[0] == head && head in links
    ensures Linked(chain[1..], links[head], links)
  {}

  lemma LinkedPrepend(chain: seq<Entry>, head: Entry?, links: map<Entry, Entry?>, e: Entry)
    requires Linked(chain, head, links)
    requires e !in chain
    ensures Linked([e] + chain, e, links[e := head])
  {
    var c := [e] + chain;
    forall k: nat | k < |c|
      ensures c[k] in links[e := head] && links[e := head][c[k]] == NodeAt(c, k + 1)
    {
      if k > 0 { assert c[k] == chain[k - 1] && NodeAt(c, k + 1) == NodeAt(chain, k); }
    }
  }

  // An entry outside the table goes to the front of its bucket.
  lemma TablePrepend(heads: seq<Entry?>, links: map<Entry, Entry?>,
                     chains: seq<seq<Entry>>, nodes: set<Entry>, e: Entry, i: nat)
    requires Table(heads, links, 0, chains, nodes)
    requires e !in nodes && i < |heads| && i == Index(e.key, |heads|)
    ensures Table(heads[i := e], links[e := heads[i]], 0, chains[i := [e] + chains[i]], nodes + {e})
  {
    LayoutPrepend(chains, nodes, e);
    var chains' := chains[i := [e] + chains[i]];
    forall p: nat | p < |heads|
      ensures Linked(chains'[p], heads[i := e][p], links[e := heads[i]])
    {
      assert HomeOnly(chains[p], p, nodes, |chains|);
      if p == i {
        LinkedPrepend(chains[i], heads[i], links, e);
      } else {
        LinkedElsewhere(chains[p], heads[p], links, e, heads[i]);
      }
    }
  }

  // The first entry still in bucket i leaves it and has its link overwritten.
  lemma TableDrop(heads: seq<Entry?>, links: map<Entry, Entry?>, i: nat,
                  chains: seq<seq<Entry>>, nodes: set<Entry>, e: Entry, x: Entry?)
    requires Table(heads, links, i + 1, chains, nodes)
    requires i < |heads| && Linked(chains[i], e, links)
    ensures |chains[i]| > 0 && chains[i][0] == e && e in nodes && e in links
    ensures Table(heads, links[e := x], i + 1, chains[i := chains[i][1..]], nodes - {e})
    ensures Linked(chains[i][1..], links[e], links[e := x])
  {
    LinkedTail(chains[i], e, links);
    LayoutRemove(chains, nodes, i, 0);
    assert Without(chains[i], 0) == chains[i][1..];
    assert HomeOnly(chains[i], i, nodes, |chains|);
    LinkedElsewhere(chains[i][1..], links[e], links, e, x);
    forall p: nat | i < p < |heads|
      ensures Linked(chains[p], heads[p], links[e := x])
    {
      assert HomeOnly(chains[p], p, nodes, |chains|);
      LinkedElsewhere(chains[p], heads[p], links, e, x);
    }
  }

  // The k-th entry of bucket i is bypassed, by its predecessor or by the bucket itself.
  lemma TableUnlink(heads: seq<Entry?>, links: map<Entry, Entry?>,
                    chains: seq<seq<Entry>>, nodes: set<Entry>, i: nat, k: nat)
    requires Table(heads, links, 0, chains, nodes)
    requires i < |heads| && k < |chains[i]|
    ensures var c := chains[i];
            c[k] in nodes && c[k] in links &&
            (if k == 0 then Table(heads[i := links[c[0]]], links, 0, chains[i := Without(c, 0)], nodes - {c[0]})
             else Table(heads, links[c[k - 1] := links[c[k]]], 0, chains[i := Without(c, k)], nodes - {c[k]}))
  {
    var c := chains[i];
    LayoutRemove(chains, nodes, i, k);
    assert HomeOnly(c, i, nodes, |chains|) && Linked(c, heads[i], links);
    if k == 0 {
      LinkedTail(c, heads[i], links);
      assert Without(c, 0) == c[1..];
    } else {
      LinkedBypass(c, heads[i], links, k);
      forall p: nat | p < |heads| && p != i
        ensures Linked(chains[p], heads[p], links[c[k - 1] := links[c[k]]])
      {
        assert HomeOnly(chains[p], p, nodes, |chains|);
        LinkedElsewhere(chains[p], heads[p], links, c[k - 1], links[c[k]]);
      }
    }
  }

  lemma LinkedBypass(c: seq<Entry>, head: Entry?, links: map<Entry, Entry?>, k: nat)
    requires Linked(c, head, links) && 0 < k < |c|
    requires forall j, l :: 0 <= j < l < |c| ==> c[j] != c[l]
    ensures Linked(Without(c, k), head, links[c[k - 1] := links[c[k]]])
  {
    var d := Without(c, k);
    var links' := links[c[k - 1] := links[c[k]]];
    forall j: nat | j < |d|
      ensures d[j] in links' && links'[d[j]] == NodeAt(d, j + 1)
    {
      if j < k - 1 {
        assert d[j] == c[j] && NodeAt(d, j + 1) == c[j + 1];
      } else if j == k - 1 {
        assert NodeAt(d, k) == NodeAt(c, k + 1);
      } else {
        assert d[j] == c[j + 1] && NodeAt(d, j + 1) == NodeAt(c, j + 2);
      }
    }
  }

  lemma ChainAt(heads: seq<Entry?>, links: map<Entry, Entry?>, chains: seq<seq<Entry>>, nodes: set<Entry>, i: nat)
    requires Table(heads, links, 0, chains, nodes) && i < |heads|
    ensures |chains| == |heads| && Layout(chains, nodes) && heads[i] == NodeAt(chains[i], 0)
    ensures forall k: nat :: k < |chains[i]| ==>
              var e := chains[i][k];
              e in nodes && e in links && links[e] == NodeAt(chains[i], k + 1)
  {
    assert HomeOnly(chains[i], i, nodes, |chains|);
  }

  lemma EmptyTable(heads: seq<Entry?>, links: map<Entry, Entry?>, chains: seq<seq<Entry>>)
    requires |chains| == |heads| > 0
    requires forall p: nat :: p < |heads| ==> heads[p] == null && chains[p] == []
    ensures Table(heads, links, 0, chains, {})
  {
    EmptyLayout(chains);
  }

  // --- What they mean.

  // The entries say exactly what the mathematical map says.
  ghost predicate Represents(values: map<Entry, int>, m: map<Key, int>) {
    && (forall x :: x in values ==> x.key in m && m[x.key] == values[x])
    && (forall k :: k in m ==> exists x :: x in values && x.key == k)
  }

  lemma ValueOf(values: map<Entry, int>, m: map<Key, int>, e: Entry)
    requires Represents(values, m) && e in values
    ensures e.key in m && m[e.key] == values[e]
  {}

  // In a full layout with unique keys, a key can only be found in its own chain.
  lemma FoundInChain(values: map<Entry, int>, m: map<Key, int>, chains: seq<seq<Entry>>, key: Key)
    requires Layout(chains, values.Keys) && Represents(values, m)
    ensures key in m <==> exists x :: x in chains[Index(key, |chains|)] && x.key == key
  {
    var i := Index(key, |chains|);
    assert HomeOnly(chains[i], i, values.Keys, |chains|);
    if key in m {
      var x :| x in values && x.key == key;
      assert x in values.Keys;
      assert x in chains[i];
    }
    if x :| x in chains[i] && x.key == key {
      assert x in values;
    }
  }

  lemma RepresentsSet(values: map<Entry, int>, m: map<Key, int>, e: Entry, v: int)
    requires Represents(values, m)
    requires e in values || e.key !in m
    requires KeysUnique(values.Keys)
    ensures Represents(values[e := v], m[e.key := v])
    ensures KeysUnique(values[e := v].Keys)
  {
    var m' := m[e.key := v];
    forall k | k in m'
      ensures exists x :: x in values[e := v] && x.key == k
    {
      if k == e.key {
        assert e in values[e := v];
      } else {
        var x :| x in values && x.key == k;
        assert x in values[e := v];
      }
    }
  }

  lemma RepresentsRemove(values: map<Entry, int>, m: map<Key, int>, e: Entry)
    requires Represents(values, m) && KeysUnique(values.Keys)
    requires e in values
    ensures Represents(values - {e}, m - {e.key})
    ensures KeysUnique((values - {e}).Keys)
  {
    var m' := m - {e.key};
    forall k | k in m'
      ensures exists x :: x in values - {e} && x.key == k
    {
      var x :| x in values && x.key == k;
      assert x in values - {e};
    }
  }

  // What the invariant reads off the heap, and the ghost record of the table.
  datatype View = View(heads: seq<Entry?>, links: map<Entry, Entry?>, values: map<Entry, int>,
                       chains: seq<seq<Entry>>, nodes: set<Entry>, model: map<Key, int>, count: nat)

  ghost predicate Structure(v: View) {
    && |v.heads| == |v.chains| > 0
    && Table(v.heads, v.links, 0, v.chains, v.nodes)
    && v.values.Keys == v.nodes
    && KeysUnique(v.nodes)
    && Represents(v.values, v.model)
    && v.count == |v.nodes| == |v.model|
  }

  // The view once e stands in front of bucket i.
  ghost function Inserted(v: View, e: Entry, x: int, i: nat): View
    requires i < |v.heads| == |v.chains|
  {
    View(v.heads[i := e], v.links[e := v.heads[i]], v.values[e := x],
         v.chains[i := [e] + v.chains[i]], v.nodes + {e}, v.model[e.key := x], v.count + 1)
  }

  ghost function Overwritten(v: View, e: Entry, x: int): View {
    v.(values := v.values[e := x], model := v.model[e.key := x])
  }

  // The view once the k-th entry of bucket i is bypassed.
  ghost function Removed(v: View, i: nat, k: nat): View
    requires i < |v.heads| == |v.chains| && k < |v.chains[i]| && v.count > 0
    requires v.chains[i][k] in v.links
  {
    var c := v.chains[i];
    var e := c[k];
    View(if k == 0 then v.heads[i := v.links[e]] else v.heads,
         (if k == 0 then v.links else v.links[c[k - 1] := v.links[e]]) - {e}, v.values - {e},
         v.chains[i := Without(c, k)], v.nodes - {e}, v.model - {e.key}, v.count - 1)
  }

  ghost function Emptied(v: View): View {
    View(seq(|v.heads|, _ => null), map[], map[], seq(|v.heads|, _ => []), {}, map[], 0)
  }

  lemma SizeAfterSet(m: map<Key, int>, k: Key, v: int)
    ensures |m[k := v]| == |m| + if k in m then 0 else 1
  {
    assert m[k := v].Keys == m.Keys + {k};
    assert |m[k := v]| == |m[k := v].Keys| && |m| == |m.Keys|;
  }

  lemma SizeAfterRemove(m: map<Key, int>, k: Key)
    requires k in m
    ensures |m - {k}| == |m| - 1
  {
    assert (m - {k}).Keys == m.Keys - {k};
    assert |m - {k}| == |(m - {k}).Keys| && |m| == |m.Keys|;
  }

  lemma StructureInsert(v: View, e: Entry, x: int, i: nat)
    requires Structure(v)
    requires e !in v.nodes && e.key !in v.model && i == Index(e.key, |v.heads|)
    ensures Structure(Inserted(v, e, x, i))
  {
    hide Table, Represents, KeysUnique;
    TablePrepend(v.heads, v.links, v.chains, v.nodes, e, i);
    RepresentsSet(v.values, v.model, e, x);
    SizeAfterSet(v.model, e.key, x);
    assert v.values[e := x].Keys == v.nodes + {e};
  }

  lemma StructureOverwrite(v: View, e: Entry, x: int)
    requires Structure(v) && e in v.nodes
    ensures Structure(Overwritten(v, e, x))
  {
    hide Table, Represents, KeysUnique;
    ValueOf(v.values, v.model, e);
    RepresentsSet(v.values, v.model, e, x);
    SizeAfterSet(v.model, e.key, x);
    assert v.values[e := x].Keys == v.nodes;
  }

  lemma StructureRemove(v: View, i: nat, k: nat)
    requires Structure(v)
    requires i < |v.heads| && k < |v.chains[i]|
    ensures v.count > 0 && v.chains[i][k] in v.nodes && v.chains[i][k] in v.links
    ensures Structure(Removed(v, i, k))
  {
    hide Table, Represents, KeysUnique;
    var e := v.chains[i][k];
    TableUnlink(v.heads, v.links, v.chains, v.nodes, i, k);
    ValueOf(v.values, v.model, e);
    RepresentsRemove(v.values, v.model, e);
    SizeAfterRemove(v.model, e.key);
    assert (v.values - {e}).Keys == v.nodes - {e};
    if k == 0 {
      TableRestrict(v.heads[i := v.links[e]], v.links, 0, v.chains[i := Without(v.chains[i], k)], v.nodes, e);
    } else {
      TableRestrict(v.heads, v.links[v.chains[i][k - 1] := v.links[e]], 0,
        v.chains[i := Without(v.chains[i], k)], v.nodes, e);
    }
  }

  lemma StructureClear(v: View)
    requires Structure(v)
    ensures Structure(Emptied(v))
  {
    EmptyTable(Emptied(v).heads, map[], Emptied(v).chains);
  }

  lemma StructureRehash(v: View, heads: seq<Entry?>, links: map<Entry, Entry?>, chains: seq<seq<Entry>>)
    requires Structure(v)
    requires Table(heads, links, 0, chains, v.nodes)
    ensures Structure(v.(heads := heads, links := links, chains := chains))
  {}

  // What only concerns other entries' links survives dropping the removed one's.
  lemma TableRestrict(heads: seq<Entry?>, links: map<Entry, Entry?>, first: nat,
                      chains: seq<seq<Entry>>, nodes: set<Entry>, e: Entry)
    requires Table(heads, links, first, chains, nodes - {e})
    ensures Table(heads, links - {e}, first, chains, nodes - {e})
  {
    forall p: nat | first <= p < |heads|
      ensures Linked(chains[p], heads[p], links - {e})
    {
      assert HomeOnly(chains[p], p, nodes - {e}, |chains|);
    }
  }

  ghost function Links(nodes: set<Entry>): map<Entry, Entry?>
    reads nodes`next
  { map x | x in nodes :: x.next }

  ghost function Values(nodes: set<Entry>): map<Entry, int>
    reads nodes`value
  { map x | x in nodes :: x.value }

  class HashMap {
    var buckets: array<Entry?>
    var numBuckets: nat
    var count: nat

    ghost var chains: seq<seq<Entry>>
    ghost var nodes: set<Entry>
    ghost var model: map<Key, int>

    ghost function Seen(): View
      reads this, buckets, nodes
    { View(buckets[..], Links(nodes), Values(nodes), chains, nodes, model, count) }

    // Sound, and sized: at least the initial 64 buckets.
    ghost predicate Sound()
      reads this, buckets, nodes
    { numBuckets == buckets.Length >= 64 && Structure(Seen()) }

    // Every operation ends with the table at most three quarters full.
    ghost predicate Valid()
      reads this, buckets, nodes
    { Sound() && 4 * count <= 3 * numBuckets }

    constructor ()
      ensures Valid() && fresh(buckets) && nodes == {} && model == map[]
    {
      buckets := new Entry?[64](_ => null);
      numBuckets := 64;
      count := 0;
      chains := seq(64, _ => []);
      nodes := {};
      model := map[];
      new;
      EmptyTable(buckets[..], Links(nodes), chains);
    }

    // Follows one chain; answers the entry that holds the key, or null.
    method Find(key: Key) returns (e: Entry?)
      requires Valid()
      ensures e != null <==> key in model
      ensures e != null ==> e in nodes && e.key == key && e.value == model[key]
    {
      hide Valid;
      var h := HashKey(key);
      BucketOf(this, key);
      IndexOf(key, numBuckets);
      var idx := (h as int) % numBuckets;
      ghost var chain := chains[idx];
      e := buckets[idx];
      ghost var k: nat := 0;
      while e != null
        invariant k <= |chain| && e == NodeAt(chain, k)
        invariant forall j :: 0 <= j < k ==> chain[j].key != key
        decreases |chain| - k
      {
        if e.key == key { return; }
        e := e.next;
        k := k + 1;
      }
    }

    method Get(key: Key, default: int) returns (r: int)
      requires Valid()
      ensures r == if key in model then model[key] else default
    {
      var e := Find(key);
      return if e != null then e.value else default;
    }

    method Has(key: Key) returns (r: int)
      requires Valid()
      ensures r == if key in model then 1 else 0
    {
      var e := Find(key);
      return if e != null then 1 else 0;
    }

    method Length() returns (r: int)
      requires Valid()
      ensures r == |model|
    { return count; }

    lemma CountIs()
      requires Sound()
      ensures count == |model|
    {}

    // The table doubles exactly when a new key makes it more than three quarters full.
    method Set(key: Key, value: int)
      requires Valid()
      modifies this, buckets, nodes
      ensures Valid() && fresh(nodes - old(nodes)) && (buckets == old(buckets) || fresh(buckets))
      ensures model == old(model)[key := value]
      ensures numBuckets == old(numBuckets)
        * (if key !in old(model) && 4 * |model| > 3 * old(numBuckets) then 2 else 1)
    {
      hide Structure, Seen;
      var e := Find(key);
      if e != null {
        Overwrite(e, value);
      } else {
        InsertNew(key, value);
        CountIs();
        if count * 4 > numBuckets * 3 {
          Rehash();
        }
      }
    }

    method Overwrite(e: Entry, value: int)
      requires Valid() && e in nodes
      modifies this`model, e`value
      ensures Valid()
      ensures model == old(model)[e.key := value]
    {
      hide Structure;
      StructureOverwrite(Seen(), e, value);
      WriteValue(e, value, nodes);
      model := model[e.key := value];
    }

    // Everything but the load factor is kept; the caller sees to that.
    method InsertNew(key: Key, value: int)
      requires Valid() && key !in model
      modifies this, buckets
      ensures Sound() && buckets == old(buckets) && numBuckets == old(numBuckets) && count == old(count) + 1
      ensures fresh(nodes - old(nodes))
      ensures model == old(model)[key := value]
    {
      hide Structure, Table, Layout, Represents, KeysUnique, Links, Values;
      ghost var v := Seen();
      SizesOf(v);
      var h := HashKey(key);
      IndexOf(key, numBuckets);
      var idx := (h as int) % numBuckets;
      var ne := LinkNew(key, value, idx);
      StructureInsert(v, ne, value, idx);
    }

    // A new entry in front of bucket i.
    method LinkNew(key: Key, value: int, i: nat) returns (e: Entry)
      requires i < buckets.Length == |chains|
      modifies this`count, this`chains, this`nodes, this`model, buckets
      ensures fresh(e) && e.key == key
      ensures Seen() == Inserted(old(Seen()), e, value, i)
    {
      e := new Entry(key, value, buckets[i]);
      buckets[i] := e;
      count := count + 1;
      chains := chains[i := [e] + chains[i]];
      nodes := nodes + {e};
      model := model[key := value];
      assert Links(nodes) == old(Links(nodes))[e := old(buckets[i])];
      assert Values(nodes) == old(Values(nodes))[e := value];
    }

    // Doubles the table. No entry is created or dropped: only links change.
    method Rehash()
      requires Sound()
      modifies this`buckets, this`numBuckets, this`chains, nodes`next
      ensures Sound() && fresh(buckets) && numBuckets == 2 * old(numBuckets)
    {
      hide Structure, Table, Links, Values;
      ghost var v := Seen();
      SizesOf(v);
      var newNb := numBuckets * 2;
      var newBuckets := new Entry?[newNb](_ => null);
      ghost var grown := RelinkAll(newBuckets);
      StructureRehash(v, newBuckets[..], Links(nodes), grown);
      buckets := newBuckets;
      numBuckets := newNb;
      chains := grown;
      assert Seen() == v.(heads := buckets[..], links := Links(nodes), chains := chains);
    }

    // Walks every old chain and moves its entries over one at a time.
    method RelinkAll(newBuckets: array<Entry?>) returns (ghost grown: seq<seq<Entry>>)
      requires buckets.Length == numBuckets && newBuckets.Length > 0 && newBuckets != buckets
      requires forall p: nat :: p < newBuckets.Length ==> newBuckets[p] == null
      requires Table(buckets[..], Links(nodes), 0, chains, nodes)
      modifies nodes`next, newBuckets
      ensures Table(newBuckets[..], Links(nodes), 0, grown, nodes)
    {
      hide *;
      ghost var rest, left := chains, nodes;
      ghost var moved: set<Entry> := {};
      grown := seq(newBuckets.Length, _ => []);
      EmptyTable(newBuckets[..], Links(nodes), grown);
      TableSize(buckets[..], Links(nodes), 0, rest, left);
      var i: nat := 0;
      while i < numBuckets
        invariant i <= numBuckets == |rest|
        invariant Table(buckets[..], Links(nodes), i, rest, left)
        invariant forall p: nat :: p < i ==> rest[p] == []
        invariant Table(newBuckets[..], Links(nodes), 0, grown, moved)
        invariant |grown| == newBuckets.Length && left !! moved && left + moved == nodes
      {
        TableEnter(buckets[..], Links(nodes), i, rest, left);
        var e := buckets[i];
        while e != null
          invariant |rest| == numBuckets
          invariant Table(buckets[..], Links(nodes), i + 1, rest, left) && Linked(rest[i], e, Links(nodes))
          invariant forall p: nat :: p < i ==> rest[p] == []
          invariant Table(newBuckets[..], Links(nodes), 0, grown, moved)
          invariant |grown| == newBuckets.Length && left !! moved && left + moved == nodes
          decreases |rest[i]|
        {
          ghost var idx;
          ghost var first := e;
          e, idx := RelinkFirst(newBuckets, e, i, rest, left, grown, moved);
          rest := rest[i := rest[i][1..]];
          grown := grown[idx := [first] + grown[idx]];
          left := left - {first};
          moved := moved + {first};
        }
        ChainDone(rest[i], Links(nodes));
        i := i + 1;
      }
      TableDone(buckets[..], Links(nodes), i, rest, left);
      assert moved == nodes;
    }

    // Moves the first entry still in old bucket i to the front of its new bucket.
    method RelinkFirst(newBuckets: array<Entry?>, e: Entry, i: nat,
        ghost rest: seq<seq<Entry>>, ghost left: set<Entry>,
        ghost grown: seq<seq<Entry>>, ghost moved: set<Entry>)
      returns (next: Entry?, ghost idx: nat)
      requires newBuckets != buckets && newBuckets.Length == |grown| > 0
      requires i < |rest| == buckets.Length
      requires Table(buckets[..], Links(nodes), i + 1, rest, left)
      requires Linked(rest[i], e, Links(nodes))
      requires Table(newBuckets[..], Links(nodes), 0, grown, moved)
      requires left !! moved && left + moved == nodes
      modifies nodes`next, newBuckets
      ensures |rest[i]| > 0 && e in left && idx < |grown|
      ensures Table(buckets[..], Links(nodes), i + 1, rest[i := rest[i][1..]], left - {e})
      ensures Linked(rest[i][1..], next, Links(nodes))
      ensures Table(newBuckets[..], Links(nodes), 0, grown[idx := [e] + grown[idx]], moved + {e})
    {
      hide *;
      ghost var links := Links(nodes);
      TableDrop(buckets[..], links, i, rest, left, e, newBuckets[0]);
      next := Next(e, nodes);
      var h := HashKey(e.key);
      IndexOf(e.key, newBuckets.Length);
      var to := (h as int) % newBuckets.Length;
      idx := to;
      TableDrop(buckets[..], links, i, rest, left, e, newBuckets[to]);
      TablePrepend(newBuckets[..], links, grown, moved, e, to);
      WriteNext(e, newBuckets[to], nodes);
      WriteHead(newBuckets, to, e);
    }

    // Unlinks the entry that holds the key; answers whether there was one.
    method Remove(key: Key) returns (r: int)
      requires Valid()
      modifies this, buckets, nodes`next
      ensures Valid() && nodes <= old(nodes) && buckets == old(buckets)
      ensures r == if key in old(model) then 1 else 0
      ensures model == old(model) - {key}
    {
      hide Valid;
      var h := HashKey(key);
      BucketOf(this, key);
      IndexOf(key, numBuckets);
      var idx := (h as int) % numBuckets;
      var prev: Entry? := null;
      var e := buckets[idx];
      ghost var chain := chains[idx];
      ghost var k: nat := 0;
      while e != null
        invariant k <= |chain| && e == NodeAt(chain, k)
        invariant prev == if k == 0 then null else chain[k - 1]
        invariant forall j :: 0 <= j < k ==> chain[j].key != key
        decreases |chain| - k
      {
        if e.key == key {
          Unlink(idx, prev, e, k);
          return 1;
        }
        prev := e;
        e := e.next;
        k := k + 1;
      }
      return 0;
    }

    method Unlink(idx: nat, prev: Entry?, e: Entry, ghost k: nat)
      requires Valid()
      requires idx < |chains| && k < |chains[idx]|
      requires e == chains[idx][k] && prev == if k == 0 then null else chains[idx][k - 1]
      modifies this, buckets, nodes`next
      ensures Valid() && nodes == old(nodes) - {e} && buckets == old(buckets)
      ensures model == old(model) - {e.key}
    {
      hide Structure, Seen, Removed, Links, Values;
      UnlinkReady(this, idx, k);
      Bypass(idx, prev, e, k);
    }

    method Bypass(idx: nat, prev: Entry?, e: Entry, ghost k: nat)
      requires idx < |chains| == buckets.Length && k < |chains[idx]| && count > 0
      requires e == chains[idx][k] && prev == if k == 0 then null else chains[idx][k - 1]
      requires e in nodes && (prev != null ==> prev in nodes)
      modifies this`count, this`chains, this`nodes, this`model, buckets, nodes`next
      ensures Seen() == Removed(old(Seen()), idx, k)
      ensures count == old(count) - 1 && nodes == old(nodes) - {e} && model == old(model) - {e.key}
    {
      hide Links, Values;
      LinksCover(nodes);
      Redirect(idx, prev, e, nodes);
      LinksWithout(nodes, e);
      Forget(e, idx, k);
    }

    // The pointer that led to e now skips it.
    method Redirect(idx: nat, prev: Entry?, e: Entry, ghost among: set<Entry>)
      requires idx < buckets.Length && e in among && (prev != null ==> prev in among)
      modifies buckets, among`next
      ensures Values(among) == old(Values(among))
      ensures prev == null ==> buckets[..] == old(buckets[..][idx := e.next]) && Links(among) == old(Links(among))
      ensures prev != null ==> buckets[..] == old(buckets[..]) && Links(among) == old(Links(among)[prev := e.next])
    {
      if prev == null {
        buckets[idx] := e.next;
      } else {
        prev.next := e.next;
      }
    }

    // The bookkeeping of a removal.
    method Forget(ghost e: Entry, ghost i: nat, ghost k: nat)
      requires i < |chains| && k < |chains[i]| && count > 0
      modifies this`chains, this`nodes, this`model, this`count
      ensures chains == old(chains)[i := Without(old(chains)[i], k)] && nodes == old(nodes) - {e}
      ensures model == old(model) - {e.key} && count == old(count) - 1
    {
      chains := chains[i := Without(chains[i], k)];
      nodes := nodes - {e};
      model := model - {e.key};
      count := count - 1;
    }

    // Releasing the entries is not modelled: every bucket is emptied.
    method Clear()
      requires Valid()
      modifies this, buckets
      ensures Valid() && nodes == {} && buckets == old(buckets) && numBuckets == old(numBuckets)
      ensures model == map[]
    {
      hide Structure;
      StructureClear(Seen());
      ghost var v := Seen();
      EmptyBuckets();
      count := 0;
      chains := seq(numBuckets, _ => []);
      nodes := {};
      model := map[];
      assert Seen() == Emptied(v);
    }

    method EmptyBuckets()
      requires buckets.Length == numBuckets
      modifies buckets
      ensures forall p: nat :: p < numBuckets ==> buckets[p] == null
    {
      for i := 0 to numBuckets
        invariant forall p: nat :: p < i ==> buckets[p] == null
      {
        buckets[i] := null;
      }
    }
  }

  method Next(e: Entry, ghost among: set<Entry>) returns (n: Entry?)
    requires e in among
    ensures n == Links(among)[e]
  { n := e.next; }

  method WriteHead(bs: array<Entry?>, i: nat, e: Entry?)
    requires i < bs.Length
    modifies bs
    ensures bs[..] == old(bs[..])[i := e]
  { bs[i] := e; }

  method WriteNext(e: Entry, n: Entry?, ghost among: set<Entry>)
    requires e in among
    modifies e`next
    ensures Links(among) == old(Links(among))[e := n]
  { e.next := n; }

  method WriteValue(e: Entry, v: int, ghost among: set<Entry>)
    requires e in among
    modifies e`value
    ensures Values(among) == old(Values(among))[e := v]
  { e.value := v; }

  lemma SizesOf(v: View)
    requires Structure(v)
    ensures |v.heads| == |v.chains| > 0
    ensures Table(v.heads, v.links, 0, v.chains, v.nodes)
  {}

  lemma TableSize(heads: seq<Entry?>, links: map<Entry, Entry?>, first: nat, chains: seq<seq<Entry>>, nodes: set<Entry>)
    requires Table(heads, links, first, chains, nodes)
    ensures |chains| == |heads|
  {}

  lemma TableEnter(heads: seq<Entry?>, links: map<Entry, Entry?>, i: nat, chains: seq<seq<Entry>>, nodes: set<Entry>)
    requires Table(heads, links, i, chains, nodes) && i < |heads|
    ensures Table(heads, links, i + 1, chains, nodes)
    ensures |chains| == |heads| && Linked(chains[i], heads[i], links)
  {}

  lemma ChainDone(chain: seq<Entry>, links: map<Entry, Entry?>)
    requires Linked(chain, null, links)
    ensures chain == []
  {}

  lemma TableDone(heads: seq<Entry?>, links: map<Entry, Entry?>, i: nat, chains: seq<seq<Entry>>, nodes: set<Entry>)
    requires Table(heads, links, i, chains, nodes)
    requires forall p: nat :: p < |chains| ==> chains[p] == []
    ensures nodes == {}
  {
    NothingLaidOut(chains, nodes);
  }

  lemma LinksCover(nodes: set<Entry>)
    ensures Links(nodes).Keys == nodes
    ensures forall x :: x in nodes ==> Links(nodes)[x] == x.next
  {}

  lemma LinksWithout(nodes: set<Entry>, e: Entry)
    ensures Links(nodes - {e}) == Links(nodes) - {e}
    ensures Values(nodes - {e}) == Values(nodes) - {e}
  {}

  // An entry of a sound table can be bypassed, and what is left is sound.
  lemma UnlinkReady(h: HashMap, i: nat, k: nat)
    requires h.Valid()
    requires i < |h.chains| && k < |h.chains[i]|
    ensures |h.chains| == h.buckets.Length && h.count > 0
    ensures h.chains[i][k] in h.nodes && (k > 0 ==> h.chains[i][k - 1] in h.nodes)
    ensures h.chains[i][k] in h.Seen().links && Structure(Removed(h.Seen(), i, k))
  {
    hide Table;
    StructureRemove(h.Seen(), i, k);
    ChainAt(h.buckets[..], Links(h.nodes), h.chains, h.nodes, i);
  }

  lemma IndexOf(key: Key, nb: nat)
    requires nb > 0
    ensures (Fnv(key) as int) % nb == Index(key, nb)
  {}

  // All that following one chain relies on.
  ghost predicate Searchable(chain: seq<Entry>, head: Entry?, nodes: set<Entry>, m: map<Key, int>, key: Key)
    reads nodes
  {
    && head == NodeAt(chain, 0)
    && (forall k: nat :: k < |chain| ==> chain[k] in nodes && chain[k].next == NodeAt(chain, k + 1))
    && (forall k: nat :: k < |chain| && chain[k].key == key ==>
          key in m && chain[k] in nodes && m[key] == chain[k].value)
    && (key in m ==> exists k: nat :: k < |chain| && chain[k].key == key)
  }

  lemma BucketOf(h: HashMap, key: Key)
    requires h.Valid()
    ensures |h.chains| == h.buckets.Length == h.numBuckets > 0
    ensures var i := Index(key, h.numBuckets);
            Searchable(h.chains[i], h.buckets[i], h.nodes, h.model, key)
  {
    hide Table, Layout, Represents, KeysUnique;
    var idx := Index(key, h.numBuckets);
    ChainAt(h.buckets[..], Links(h.nodes), h.chains, h.nodes, idx);
    var chain := h.chains[idx];
    FoundInChain(Values(h.nodes), h.model, h.chains, key);
    forall k: nat | k < |chain| && chain[k].key == key
      ensures key in h.model && chain[k] in h.nodes && h.model[key] == chain[k].value
    {
      ValueOf(Values(h.nodes), h.model, chain[k]);
    }
  }

  // --- Whole runs.

  datatype Op = SetOp(key: Key, value: int) | GetOp(key: Key, default: int) | HasOp(key: Key)
              | RemoveOp(key: Key) | LengthOp | ClearOp

  // What one operation does to the mathematical map.
  function Step(m: map<Key, int>, op: Op): map<Key, int> {
    match op
    case SetOp(k, v) => m[k := v]
    case RemoveOp(k) => m - {k}
    case ClearOp => map[]
    case _ => m
  }

  function After(ops: seq<Op>): map<Key, int> {
    if ops == [] then map[] else Step(After(ops[..|ops| - 1]), ops[|ops| - 1])
  }

  function Answer(m: map<Key, int>, op: Op): int {
    match op
    case SetOp(_, _) => 0
    case GetOp(k, d) => if k in m then m[k] else d
    case HasOp(k) => if k in m then 1 else 0
    case RemoveOp(k) => if k in m then 1 else 0
    case LengthOp => |m|
    case ClearOp => 0
  }

  // What a reader of the log alone would expect: the last write to k that still stands.
  datatype Written = Nothing | Value(v: int)

  function LastWrite(ops: seq<Op>, k: Key): Written {
    if ops == [] then Nothing
    else
      match ops[|ops| - 1]
      case SetOp(key, v) => if key == k then Value(v) else LastWrite(ops[..|ops| - 1], k)
      case RemoveOp(key) => if key == k then Nothing else LastWrite(ops[..|ops| - 1], k)
      case ClearOp => Nothing
      case _ => LastWrite(ops[..|ops| - 1], k)
  }

  lemma {:induction false} LookupIsLastWrite(ops: seq<Op>, k: Key, default: int)
    ensures Answer(After(ops), HasOp(k)) == 1 <==> LastWrite(ops, k).Value?
    ensures Answer(After(ops), GetOp(k, default))
         == match LastWrite(ops, k) case Nothing => default case Value(v) => v
  {
    if ops != [] {
      LookupIsLastWrite(ops[..|ops| - 1], k, default);
    }
  }

  // The table answers any run of operations exactly as the mathematical map does.
  method Replay(ops: seq<Op>) returns (h: HashMap, answers: seq<int>)
    ensures h.Valid() && h.model == After(ops)
    ensures |answers| == |ops|
    ensures forall i :: 0 <= i < |ops| ==> answers[i] == Answer(After(ops[..i]), ops[i])
  {
    hide HashMap.Valid, Step, Answer;
    h := new HashMap();
    answers := [];
    for i := 0 to |ops|
      invariant fresh(h) && fresh(h.buckets) && fresh(h.nodes)
      invariant h.Valid() && h.model == After(ops[..i])
      invariant |answers| == i
      invariant forall j :: 0 <= j < i ==> answers[j] == Answer(After(ops[..j]), ops[j])
    {
      assert ops[..i + 1][..i] == ops[..i];
      var r := Perform(h, ops[i]);
      answers := answers + [r];
    }
    assert ops[..|ops|] == ops;
  }

  method Perform(h: HashMap, op: Op) returns (r: int)
    requires h.Valid()
    modifies h, h.buckets, h.nodes
    ensures h.Valid() && fresh(h.nodes - old(h.nodes)) && (h.buckets == old(h.buckets) || fresh(h.buckets))
    ensures r == Answer(old(h.model), op)
    ensures h.model == Step(old(h.model), op)
  {
    hide HashMap.Valid;
    r := 0;
    match op {
      case SetOp(k, v) => h.Set(k, v);
      case GetOp(k, d) => r := h.Get(k, d);
      case HasOp(k) => r := h.Has(k);
      case RemoveOp(k) => r := h.Remove(k);
      case LengthOp => r := h.Length();
      case ClearOp => h.Clear();
    }
  }
}
