// Circular-buffer arithmetic shared by the channel ring and the pool's task queue.
module Ring {

  // The `count` cells that follow `head` in a ring made of the first `cap` cells of `cells`, oldest first.
  function Contents<T>(cells: seq<T>, head: nat, count: nat, cap: nat): (r: seq<T>)
    requires head < cap <= |cells| && count <= cap
    ensures |r| == count
  {
    seq(count, i requires 0 <= i < count => cells[(head + i) % cap])
  }

  lemma WrapAround(x: nat, cap: nat)
    requires 0 < cap && x < 2 * cap
    ensures x % cap == if x < cap then x else x - cap
  {
  }

  // Storing at `tail` and advancing it appends one element.
  lemma Push<T>(cells: seq<T>, head: nat, count: nat, cap: nat, x: T)
    requires head < cap <= |cells| && count < cap
    ensures (head + count) % cap < cap
    ensures ((head + count) % cap + 1) % cap == (head + count + 1) % cap
    ensures Contents(cells[(head + count) % cap := x], head, count + 1, cap) == Contents(cells, head, count, cap) + [x]
  {
    WrapAround(head + count, cap);
    WrapAround(head + count + 1, cap);
    WrapAround((head + count) % cap + 1, cap);
    var after := cells[(head + count) % cap := x];
    forall i | 0 <= i < count + 1
      ensures Contents(after, head, count + 1, cap)[i] == (Contents(cells, head, count, cap) + [x])[i]
    {
      WrapAround(head + i, cap);
    }
  }

  // Advancing `head` drops the oldest element.
  lemma Pop<T>(cells: seq<T>, head: nat, count: nat, cap: nat)
    requires head < cap <= |cells| && 0 < count <= cap
    ensures (head + 1) % cap < cap
    ensures ((head + 1) % cap + (count - 1)) % cap == (head + count) % cap
    ensures Contents(cells, head, count, cap) == [cells[head]] + Contents(cells, (head + 1) % cap, count - 1, cap)
  {
    WrapAround(head + 1, cap);
    WrapAround(head + count, cap);
    WrapAround((head + 1) % cap + (count - 1), cap);
    forall i | 0 <= i < count
      ensures Contents(cells, head, count, cap)[i]
           == ([cells[head]] + Contents(cells, (head + 1) % cap, count - 1, cap))[i]
    {
      WrapAround(head + i, cap);
      if i > 0 { WrapAround((head + 1) % cap + (i - 1), cap); }
    }
  }
}
