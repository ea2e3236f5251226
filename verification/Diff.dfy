// Line diffs: what a script means, and how short one can be.
module DiffSpec {

  type Line = string

  datatype Tag = Context | Added | Removed

  // One line of any diff script, with its text.
  datatype Edit = Edit(tag: Tag, text: Line)

  // The text before the change: context and removed lines.
  function OldSide(es: seq<Edit>): seq<Line> {
    if es == [] then [] else (if es[0].tag.Added? then [] else [es[0].text]) + OldSide(es[1..])
  }

  // The text after the change: context and added lines.
  function NewSide(es: seq<Edit>): seq<Line> {
    if es == [] then [] else (if es[0].tag.Removed? then [] else [es[0].text]) + NewSide(es[1..])
  }

  function CountTag(es: seq<Edit>, tag: Tag): nat {
    if es == [] then 0 else (if es[0].tag == tag then 1 else 0) + CountTag(es[1..], tag)
  }

  lemma {:induction false} CountTagSnoc(es: seq<Edit>, e: Edit, tag: Tag)
    ensures CountTag(es + [e], tag) == CountTag(es, tag) + if e.tag == tag then 1 else 0
  {
    if es == [] {
      assert [] + [e] == [e];
    } else {
      assert (es + [e])[1..] == es[1..] + [e];
      CountTagSnoc(es[1..], e, tag);
    }
  }

  function Changes(es: seq<Edit>): nat { CountTag(es, Added) + CountTag(es, Removed) }

  predicate Turns(es: seq<Edit>, a: seq<Line>, b: seq<Line>) { OldSide(es) == a && NewSide(es) == b }

  // c[..p] can be had from a[..i] by leaving lines out.
  predicate SubsequenceOf(c: seq<Line>, p: nat, a: seq<Line>, i: nat)
    requires p <= |c| && i <= |a|
    decreases i
  {
    p == 0 || (i > 0 && ((c[p - 1] == a[i - 1] && SubsequenceOf(c, p - 1, a, i - 1)) || SubsequenceOf(c, p, a, i - 1)))
  }

  // The recurrence of the table: greatest number of lines a[..i] and b[..j] have in common, in order.
  function Lcs(a: seq<Line>, b: seq<Line>, i: nat, j: nat): nat
    requires i <= |a| && j <= |b|
  {
    if i == 0 || j == 0 then 0
    else if a[i - 1] == b[j - 1] then Lcs(a, b, i - 1, j - 1) + 1
    else if Lcs(a, b, i - 1, j) > Lcs(a, b, i, j - 1) then Lcs(a, b, i - 1, j)
    else Lcs(a, b, i, j - 1)
  }

  lemma LcsCell(a: seq<Line>, b: seq<Line>, i: nat, j: nat)
    requires 0 < i <= |a| && 0 < j <= |b|
    ensures Lcs(a, b, i, j)
         == if a[i - 1] == b[j - 1] then Lcs(a, b, i - 1, j - 1) + 1
            else if Lcs(a, b, i - 1, j) > Lcs(a, b, i, j - 1) then Lcs(a, b, i - 1, j) else Lcs(a, b, i, j - 1)
  {
  }

  // Dropping the last line of both keeps a subsequence one.
  lemma {:induction false} DropBoth(c: seq<Line>, p: nat, a: seq<Line>, i: nat)
    requires 0 < p <= |c| && 0 < i <= |a| && SubsequenceOf(c, p, a, i)
    ensures SubsequenceOf(c, p - 1, a, i - 1)
    decreases i
  {
    if !(c[p - 1] == a[i - 1] && SubsequenceOf(c, p - 1, a, i - 1)) {
      if i > 1 { DropBoth(c, p, a, i - 1); }
      Widen(c, p - 1, a, i - 2);
    }
  }

  lemma Widen(c: seq<Line>, p: nat, a: seq<Line>, i: int)
    requires p <= |c| && -1 <= i < |a|
    requires i == -1 ==> p == 0
    requires i >= 0 ==> SubsequenceOf(c, p, a, i)
    ensures SubsequenceOf(c, p, a, i + 1)
  {
  }

  // No common subsequence is longer than the table says. When the last lines are equal, taking them
  // without looking at the table is as good as any other choice.
  lemma {:induction false} LcsIsUpperBound(c: seq<Line>, p: nat, a: seq<Line>, i: nat, b: seq<Line>, j: nat)
    requires p <= |c| && i <= |a| && j <= |b|
    requires SubsequenceOf(c, p, a, i) && SubsequenceOf(c, p, b, j)
    ensures p <= Lcs(a, b, i, j)
    decreases i + j
  {
    if p > 0 {
      if a[i - 1] == b[j - 1] {
        DropBoth(c, p, a, i);
        DropBoth(c, p, b, j);
        LcsIsUpperBound(c, p - 1, a, i - 1, b, j - 1);
      } else if SubsequenceOf(c, p, a, i - 1) {
        LcsIsUpperBound(c, p, a, i - 1, b, j);
      } else {
        LcsIsUpperBound(c, p, a, i, b, j - 1);
      }
    }
  }

  // The context lines of a script.
  function Kept(es: seq<Edit>): seq<Line> {
    if es == [] then [] else (if es[0].tag.Context? then [es[0].text] else []) + Kept(es[1..])
  }

  lemma {:induction false} SubsequenceCons(c: seq<Line>, p: nat, a: seq<Line>, i: nat, x: Line)
    requires p <= |c| && i <= |a| && SubsequenceOf(c, p, a, i)
    ensures SubsequenceOf([x] + c, p + 1, [x] + a, i + 1)
    decreases i
  {
    if p == 0 {
      OneOf([x] + c, [x] + a, i + 1);
    } else if c[p - 1] == a[i - 1] && SubsequenceOf(c, p - 1, a, i - 1) {
      SubsequenceCons(c, p - 1, a, i - 1, x);
    } else {
      SubsequenceCons(c, p, a, i - 1, x);
    }
  }

  lemma {:induction false} OneOf(c: seq<Line>, a: seq<Line>, i: nat)
    requires c != [] && 0 < i <= |a| && c[0] == a[0]
    ensures SubsequenceOf(c, 1, a, i)
    decreases i
  {
    if i > 1 { OneOf(c, a, i - 1); }
  }

  lemma {:induction false} SubsequenceSkip(c: seq<Line>, p: nat, a: seq<Line>, i: nat, x: Line)
    requires p <= |c| && i <= |a| && SubsequenceOf(c, p, a, i)
    ensures SubsequenceOf(c, p, [x] + a, i + 1)
    decreases i
  {
    if p > 0 {
      if c[p - 1] == a[i - 1] && SubsequenceOf(c, p - 1, a, i - 1) {
        SubsequenceSkip(c, p - 1, a, i - 1, x);
      } else {
        SubsequenceSkip(c, p, a, i - 1, x);
      }
    }
  }

  lemma {:induction false} TagsBalance(es: seq<Edit>)
    ensures |Kept(es)| == CountTag(es, Context)
    ensures |OldSide(es)| == CountTag(es, Context) + CountTag(es, Removed)
    ensures |NewSide(es)| == CountTag(es, Context) + CountTag(es, Added)
  {
    if es != [] { TagsBalance(es[1..]); }
  }

  // What one more edit in front does to the two sides and to the context lines.
  lemma ConsEdit(e: Edit, es: seq<Edit>)
    ensures OldSide([e] + es) == if e.tag.Added? then OldSide(es) else [e.text] + OldSide(es)
    ensures NewSide([e] + es) == if e.tag.Removed? then NewSide(es) else [e.text] + NewSide(es)
    ensures Kept([e] + es) == if e.tag.Context? then [e.text] + Kept(es) else Kept(es)
    ensures forall tag :: CountTag([e] + es, tag) == CountTag(es, tag) + if e.tag == tag then 1 else 0
  {
    assert ([e] + es)[1..] == es;
  }

  lemma NothingKept()
    ensures Kept([]) == OldSide([]) == NewSide([]) == [] && SubsequenceOf([], 0, [], 0)
  {
  }

  // The context lines of any script are a common subsequence of its two sides.
  lemma {:induction false} KeptInOld(es: seq<Edit>)
    ensures SubsequenceOf(Kept(es), |Kept(es)|, OldSide(es), |OldSide(es)|)
  {
    hide Kept, OldSide, NewSide, CountTag, SubsequenceOf;
    if es == [] {
      NothingKept();
    } else {
      var e, rest := es[0], es[1..];
      KeptInOld(rest);
      assert es == [e] + rest;
      ConsEdit(e, rest);
      if e.tag.Context? { SubsequenceCons(Kept(rest), |Kept(rest)|, OldSide(rest), |OldSide(rest)|, e.text); }
      if e.tag.Removed? { SubsequenceSkip(Kept(rest), |Kept(rest)|, OldSide(rest), |OldSide(rest)|, e.text); }
    }
  }

  lemma {:induction false} KeptInNew(es: seq<Edit>)
    ensures SubsequenceOf(Kept(es), |Kept(es)|, NewSide(es), |NewSide(es)|)
  {
    hide Kept, OldSide, NewSide, CountTag, SubsequenceOf;
    if es == [] {
      NothingKept();
    } else {
      var e, rest := es[0], es[1..];
      KeptInNew(rest);
      assert es == [e] + rest;
      ConsEdit(e, rest);
      if e.tag.Context? { SubsequenceCons(Kept(rest), |Kept(rest)|, NewSide(rest), |NewSide(rest)|, e.text); }
      if e.tag.Added? { SubsequenceSkip(Kept(rest), |Kept(rest)|, NewSide(rest), |NewSide(rest)|, e.text); }
    }
  }

  // Any script from a to b keeps at most Lcs lines, so it changes at least the other ones; one that
  // keeps exactly Lcs lines is as short as a script can be.
  lemma {:induction false} ScriptLowerBound(es: seq<Edit>, a: seq<Line>, b: seq<Line>)
    requires Turns(es, a, b)
    ensures CountTag(es, Context) <= Lcs(a, b, |a|, |b|)
    ensures Changes(es) == |a| + |b| - 2 * CountTag(es, Context)
    ensures Changes(es) >= |a| + |b| - 2 * Lcs(a, b, |a|, |b|)
  {
    TagsBalance(es);
    KeptInOld(es);
    KeptInNew(es);
    LcsIsUpperBound(Kept(es), |Kept(es)|, a, |a|, b, |b|);
  }

  lemma {:induction false} Minimal(es: seq<Edit>, a: seq<Line>, b: seq<Line>)
    requires Turns(es, a, b) && CountTag(es, Context) == Lcs(a, b, |a|, |b|)
    ensures forall es': seq<Edit> | Turns(es', a, b) :: Changes(es) <= Changes(es')
  {
    ScriptLowerBound(es, a, b);
    forall es': seq<Edit> | Turns(es', a, b) ensures Changes(es) <= Changes(es') {
      ScriptLowerBound(es', a, b);
    }
  }

  // ----- The backtrack -----

  // The edits turn the rest of A from line i into the rest of B from line j, and together with the best
  // that can be kept before them they keep as much as can be kept in all.
  ghost predicate Completes(es: seq<Edit>, a: seq<Line>, b: seq<Line>, i: nat, j: nat)
    requires i <= |a| && j <= |b|
  {
    && Turns(es, a[i..], b[j..])
    && Lcs(a, b, i, j) + CountTag(es, Context) == Lcs(a, b, |a|, |b|)
  }

  lemma NothingYet(a: seq<Line>, b: seq<Line>)
    ensures Completes([], a, b, |a|, |b|)
  {
  }

  // One turn of the backtrack from (i, j): equal last lines are kept without looking at the table.
  lemma BackContext(es: seq<Edit>, a: seq<Line>, b: seq<Line>, i: nat, j: nat)
    requires 0 < i <= |a| && 0 < j <= |b| && a[i - 1] == b[j - 1] && Completes(es, a, b, i, j)
    ensures Completes([Edit(Context, a[i - 1])] + es, a, b, i - 1, j - 1)
  {
    hide Lcs, Turns, CountTag;
    LcsMatch(a, b, i, j);
    TailFrom(a, i);
    TailFrom(b, j);
    TurnsCons(Edit(Context, a[i - 1]), es, a[i..], b[j..]);
  }

  lemma LcsMatch(a: seq<Line>, b: seq<Line>, i: nat, j: nat)
    requires 0 < i <= |a| && 0 < j <= |b| && a[i - 1] == b[j - 1]
    ensures Lcs(a, b, i, j) == Lcs(a, b, i - 1, j - 1) + 1
  {
  }

  lemma TailFrom(x: seq<Line>, i: nat)
    requires 0 < i <= |x|
    ensures x[i - 1..] == [x[i - 1]] + x[i..]
  {
  }

  // One edit more in front.
  lemma TurnsCons(e: Edit, es: seq<Edit>, x: seq<Line>, y: seq<Line>)
    requires Turns(es, x, y)
    ensures Turns([e] + es, if e.tag.Added? then x else [e.text] + x, if e.tag.Removed? then y else [e.text] + y)
    ensures CountTag([e] + es, Context) == CountTag(es, Context) + if e.tag.Context? then 1 else 0
  {
    hide OldSide, NewSide, CountTag, Kept;
    ConsEdit(e, es);
  }

  // ... and otherwise the table decides.
  lemma BackAdded(es: seq<Edit>, a: seq<Line>, b: seq<Line>, i: nat, j: nat)
    requires i <= |a| && 0 < j <= |b| && Completes(es, a, b, i, j)
    requires i > 0 ==> a[i - 1] != b[j - 1] && Lcs(a, b, i, j - 1) >= Lcs(a, b, i - 1, j)
    ensures Completes([Edit(Added, b[j - 1])] + es, a, b, i, j - 1)
  {
    LcsSame(a, b, i, j, i, j - 1);
    hide Lcs, Turns, CountTag;
    TailFrom(b, j);
    TurnsCons(Edit(Added, b[j - 1]), es, a[i..], b[j..]);
  }

  lemma BackRemoved(es: seq<Edit>, a: seq<Line>, b: seq<Line>, i: nat, j: nat)
    requires 0 < i <= |a| && j <= |b| && Completes(es, a, b, i, j)
    requires j > 0 ==> a[i - 1] != b[j - 1] && Lcs(a, b, i, j - 1) < Lcs(a, b, i - 1, j)
    ensures Completes([Edit(Removed, a[i - 1])] + es, a, b, i - 1, j)
  {
    LcsSame(a, b, i, j, i - 1, j);
    hide Lcs, Turns, CountTag;
    TailFrom(a, i);
    TurnsCons(Edit(Removed, a[i - 1]), es, a[i..], b[j..]);
  }

  // The value of a cell is that of the neighbour the backtrack moves to.
  lemma LcsSame(a: seq<Line>, b: seq<Line>, i: nat, j: nat, i': nat, j': nat)
    requires i <= |a| && j <= |b| && i' <= i && j' <= j
    requires i > 0 && j > 0 ==> a[i - 1] != b[j - 1]
    requires || (j' + 1 == j && i' == i && (i > 0 ==> Lcs(a, b, i, j - 1) >= Lcs(a, b, i - 1, j)))
             || (i' + 1 == i && j' == j && (j > 0 ==> Lcs(a, b, i, j - 1) < Lcs(a, b, i - 1, j)))
    ensures Lcs(a, b, i', j') == Lcs(a, b, i, j)
  {
  }

  lemma BackDone(es: seq<Edit>, a: seq<Line>, b: seq<Line>)
    requires Completes(es, a, b, 0, 0)
    ensures Turns(es, a, b) && CountTag(es, Context) == Lcs(a, b, |a|, |b|)
  {
    assert a[0..] == a && b[0..] == b;
  }
}

// The diff engine: its table, its result, and its counters.
module DiffEngine {
  import opened DiffSpec
  import opened DiffText

  const MAX_HUNKS := 2048

  datatype DiffEntry = DiffEntry(tag: Tag, index: nat)

  predicate InRange(e: DiffEntry, a: seq<Line>, b: seq<Line>) {
    e.index < if e.tag.Added? then |b| else |a|
  }

  predicate AllInRange(es: seq<DiffEntry>, a: seq<Line>, b: seq<Line>) {
    forall k | 0 <= k < |es| :: InRange(es[k], a, b)
  }

  function Resolve(e: DiffEntry, a: seq<Line>, b: seq<Line>): Edit
    requires InRange(e, a, b)
  {
    Edit(e.tag, if e.tag.Added? then b[e.index] else a[e.index])
  }

  function Resolved(es: seq<DiffEntry>, a: seq<Line>, b: seq<Line>): (r: seq<Edit>)
    requires AllInRange(es, a, b)
    ensures |r| == |es|
  {
    seq(|es|, k requires 0 <= k < |es| => Resolve(es[k], a, b))
  }

  class Diff {
    var linesA: seq<Line>
    var linesB: seq<Line>
    const lcs: array2<nat>
    const diff: array<DiffEntry>
    var diffCount: nat

    ghost predicate Valid()
      reads this, diff
    {
      && lcs.Length0 == lcs.Length1 == MAX_LINES + 1
      && diff.Length == MAX_HUNKS
      && diffCount <= MAX_HUNKS
      && AllInRange(diff[..diffCount], linesA, linesB)
      && Tabled(linesA) && Tabled(linesB)
    }

    ghost function Script(): seq<Edit>
      requires Valid()
      reads this, diff
    {
      Resolved(diff[..diffCount], linesA, linesB)
    }

    constructor ()
      ensures Valid() && fresh(lcs) && fresh(diff) && diffCount == 0
    {
      linesA, linesB, diffCount := [], [], 0;
      lcs := new nat[MAX_LINES + 1, MAX_LINES + 1]((_, _) => 0);
      diff := new DiffEntry[MAX_HUNKS](_ => DiffEntry(Context, 0));
    }

    ghost predicate RowsFilled(rows: nat)
      requires rows <= |linesA| + 1 && |linesA| <= MAX_LINES && |linesB| <= MAX_LINES
      requires lcs.Length0 == lcs.Length1 == MAX_LINES + 1
      reads this, lcs
    {
      forall x, y | 0 <= x < rows && 0 <= y <= |linesB| :: lcs[x, y] == Lcs(linesA, linesB, x, y)
    }

    method FillTable()
      requires Valid() && |linesA| <= MAX_LINES && |linesB| <= MAX_LINES
      modifies lcs
      ensures RowsFilled(|linesA| + 1)
    {
      var m, n := |linesA|, |linesB|;
      for i := 0 to m + 1
        invariant forall x | 0 <= x < i :: lcs[x, 0] == 0
      {
        lcs[i, 0] := 0;
      }
      for j := 0 to n + 1
        invariant forall x | 0 <= x <= m :: lcs[x, 0] == 0
        invariant forall y | 0 <= y < j :: lcs[0, y] == 0
      {
        lcs[0, j] := 0;
      }
      for i := 1 to m + 1
        invariant FirstColumn() && RowsFilled(i)
      {
        FillRow(i);
      }
    }

    // The first cells of row i.
    ghost predicate CellsFilled(i: nat, cells: nat)
      requires i <= |linesA| <= MAX_LINES && cells <= |linesB| + 1 && |linesB| <= MAX_LINES
      requires lcs.Length0 == lcs.Length1 == MAX_LINES + 1
      reads this, lcs
    {
      forall y | 0 <= y < cells :: lcs[i, y] == Lcs(linesA, linesB, i, y)
    }

    ghost predicate FirstColumn()
      requires |linesA| <= MAX_LINES && lcs.Length0 == lcs.Length1 == MAX_LINES + 1
      reads this, lcs
    {
      forall x | 0 <= x <= |linesA| :: lcs[x, 0] == 0
    }

    method FillRow(i: nat)
      requires Valid() && |linesA| <= MAX_LINES && |linesB| <= MAX_LINES
      requires 0 < i <= |linesA| && RowsFilled(i) && FirstColumn()
      modifies lcs
      ensures RowsFilled(i + 1) && FirstColumn()
    {
      assert CellsFilled(i, 1);
      assert Valid();
      hide RowsFilled, CellsFilled, FirstColumn, AllInRange, Tabled;
      for j := 1 to |linesB| + 1
        invariant FirstColumn() && RowsFilled(i) && CellsFilled(i, j)
      {
        FillCell(i, j);
      }
      RowDone(i);
    }

    lemma RowDone(i: nat)
      requires |linesA| <= MAX_LINES && |linesB| <= MAX_LINES && lcs.Length0 == lcs.Length1 == MAX_LINES + 1
      requires i <= |linesA| && RowsFilled(i) && CellsFilled(i, |linesB| + 1)
      ensures RowsFilled(i + 1)
    {
    }

    // One cell, from its three neighbours above and to the left.
    method FillCell(i: nat, j: nat)
      requires Valid() && |linesA| <= MAX_LINES && |linesB| <= MAX_LINES
      requires 0 < i <= |linesA| && 0 < j <= |linesB|
      requires RowsFilled(i) && CellsFilled(i, j) && FirstColumn()
      modifies lcs
      ensures RowsFilled(i) && CellsFilled(i, j + 1) && FirstColumn()
    {
      hide Lcs, AllInRange, Tabled;
      LcsCell(linesA, linesB, i, j);
      assert lcs[i - 1, j - 1] == Lcs(linesA, linesB, i - 1, j - 1);
      assert lcs[i - 1, j] == Lcs(linesA, linesB, i - 1, j);
      if linesA[i - 1] == linesB[j - 1] {
        lcs[i, j] := lcs[i - 1, j - 1] + 1;
      } else {
        lcs[i, j] := if lcs[i - 1, j] > lcs[i, j - 1] then lcs[i - 1, j] else lcs[i, j - 1];
      }
    }

    // One turn of the backtrack: which entry, and where to go on.
    method Choose(i: nat, j: nat, ghost edits: seq<Edit>) returns (entry: DiffEntry, i': nat, j': nat)
      requires Valid() && |linesA| <= MAX_LINES && |linesB| <= MAX_LINES && RowsFilled(|linesA| + 1)
      requires i <= |linesA| && j <= |linesB| && i + j > 0
      requires Completes(edits, linesA, linesB, i, j)
      ensures i' <= i && j' <= j && i' + j' < i + j
      ensures InRange(entry, linesA, linesB)
      ensures Completes([Resolve(entry, linesA, linesB)] + edits, linesA, linesB, i', j')
    {
      hide Completes, AllInRange;
      if i > 0 && j > 0 && linesA[i - 1] == linesB[j - 1] {
        BackContext(edits, linesA, linesB, i, j);
        return DiffEntry(Context, i - 1), i - 1, j - 1;
      } else if j > 0 && (i == 0 || lcs[i, j - 1] >= lcs[i - 1, j]) {
        BackAdded(edits, linesA, linesB, i, j);
        return DiffEntry(Added, j - 1), i, j - 1;
      } else {
        BackRemoved(edits, linesA, linesB, i, j);
        return DiffEntry(Removed, i - 1), i - 1, j;
      }
    }

    // The backtrack, last line first. The bound on `rcount` never stops it early.
    method Backtrack() returns (rev: array<DiffEntry>, rcount: nat, ghost script: seq<DiffEntry>)
      requires Valid() && |linesA| <= MAX_LINES && |linesB| <= MAX_LINES && RowsFilled(|linesA| + 1)
      ensures fresh(rev) && rev.Length == MAX_HUNKS
      ensures Mirrors(rev, rcount, script)
      ensures AllInRange(script, linesA, linesB)
      ensures Completes(Resolved(script, linesA, linesB), linesA, linesB, 0, 0)
    {
      rev := new DiffEntry[MAX_HUNKS](_ => DiffEntry(Context, 0));
      rcount := 0;
      script := [];
      var i, j := |linesA|, |linesB|;
      NothingYet(linesA, linesB);
      assert AllInRange(script, linesA, linesB) && Resolved(script, linesA, linesB) == [];
      assert Valid() && Mirrors(rev, rcount, script);
      hide *;
      while i > 0 || j > 0
        invariant 0 <= i <= |linesA| && 0 <= j <= |linesB|
        invariant rcount <= |linesA| - i + |linesB| - j
        invariant Mirrors(rev, rcount, script)
        invariant AllInRange(script, linesA, linesB)
        invariant Completes(Resolved(script, linesA, linesB), linesA, linesB, i, j)
        decreases i + j
      {
        if rcount >= MAX_HUNKS { break; }
        var entry;
        entry, i, j := Choose(i, j, Resolved(script, linesA, linesB));
        ExtendResolved(entry, script, linesA, linesB);
        PutNext(rev, rcount, entry, script);
        rcount := rcount + 1;
        script := [entry] + script;
      }
    }

    method StoreReversed(rev: array<DiffEntry>, rcount: nat, ghost script: seq<DiffEntry>)
      requires diff.Length == MAX_HUNKS && rev != diff
      requires rev.Length == MAX_HUNKS && Mirrors(rev, rcount, script)
      modifies diff, this`diffCount
      ensures diffCount == rcount && diff[..diffCount] == script
    {
      diffCount := rcount;
      for k := 0 to rcount
        invariant diffCount == rcount
        invariant forall x | 0 <= x < k :: diff[x] == rev[rcount - 1 - x]
      {
        diff[k] := rev[rcount - 1 - k];
      }
    }

    // The whole computation: the result turns the lines of A into those of B, keeps as many lines as any two
    // orders of them have in common, and so changes as few as possible.
    method Compute(textA: string, textB: string) returns (entries: nat)
      requires Valid()
      modifies this, lcs, diff
      ensures Valid() && linesA == Stored(textA) && linesB == Stored(textB)
      ensures entries == diffCount == |Script()|
      ensures Turns(Script(), Stored(textA), Stored(textB))
      ensures CountTag(Script(), Context) == Lcs(linesA, linesB, |linesA|, |linesB|)
      ensures forall es: seq<Edit> | Turns(es, Stored(textA), Stored(textB)) :: Changes(Script()) <= Changes(es)
      ensures Changes(Script()) == 0 <==> Stored(textA) == Stored(textB)
    {
      var a := SplitLines(textA);
      var b := SplitLines(textB);
      entries := ComputeLines(a, b);
      UnchangedIff(Script(), a, b);
    }

    method ComputeLines(a: seq<Line>, b: seq<Line>) returns (entries: nat)
      requires Valid() && Tabled(a) && Tabled(b) && |a| <= MAX_LINES && |b| <= MAX_LINES
      modifies this, lcs, diff
      ensures Valid() && linesA == a && linesB == b
      ensures entries == diffCount == |Script()|
      ensures Turns(Script(), a, b)
      ensures CountTag(Script(), Context) == Lcs(a, b, |a|, |b|)
      ensures forall es: seq<Edit> | Turns(es, a, b) :: Changes(Script()) <= Changes(es)
    {
      diffCount := 0;
      linesA, linesB := a, b;
      FillTable();
      var rev, rcount;
      ghost var script;
      rev, rcount, script := Backtrack();
      BackDone(Resolved(script, a, b), a, b);
      StoreReversed(rev, rcount, script);
      hide Completes, Lcs, Turns, CountTag, Changes, RowsFilled;
      entries := diffCount;
      Minimal(Script(), a, b);
    }

    method GetLine(idx: int) returns (line: Line)
      requires Valid()
      ensures line == if 0 <= idx < |Script()| then Script()[idx].text else ""
    {
      if idx < 0 || idx >= diffCount { return ""; }
      var e := diff[idx];
      assert diff[..diffCount][idx] == e;
      if e.tag.Added? { return linesB[e.index]; } else { return linesA[e.index]; }
    }

    method CountOf(tag: Tag) returns (count: nat)
      requires Valid()
      ensures count == CountTag(Script(), tag)
    {
      count := 0;
      for i := 0 to diffCount
        invariant count == CountTag(Script()[..i], tag)
      {
        assert Script()[..i + 1] == Script()[..i] + [Script()[i]];
        CountTagSnoc(Script()[..i], Script()[i], tag);
        assert diff[..diffCount][i] == diff[i];
        if diff[i].tag == tag { count := count + 1; }
      }
      assert Script()[..diffCount] == Script();
    }

    // The script as a text, one signed line for each entry. It stops early when the buffer has no room
    // for a longest line, so what is written is never cut within a line.
    method WriteUnified() returns (out: string)
      requires Valid()
      ensures |out| < MAX_OUTPUT
      ensures exists k | 0 <= k <= |Script()| :: out == Unified(Script()[..k]) && (k < |Script()| ==> |out| >= ALMOST)
      ensures out == Unified(Script()) <==> AllFit(Script())
      ensures AllFit(Script()) ==>
                Side(Lines(out), '+') == OldSide(Script()) && Side(Lines(out), '-') == NewSide(Script())
      ensures AllFit(Script()) && Turns(Script(), linesA, linesB) ==>
                Side(Lines(out), '+') == linesA && Side(Lines(out), '-') == linesB
    {
      out := "";
      var i := 0;
      NothingUnified(Script());
      while i < diffCount && |out| < ALMOST
        invariant i <= diffCount && out == Unified(Script()[..i]) && |out| < MAX_OUTPUT
        invariant i > 0 ==> |Unified(Script()[..i - 1])| < ALMOST
      {
        var line := GetLine(i);
        InTable(i);
        UnifiedMore(Script(), i);
        assert diff[..diffCount][i] == diff[i];
        out := out + ([Sign(diff[i].tag)] + line + "\n");
        i := i + 1;
      }
      WholeIff(Script(), i);
      forall k | 0 <= k < |Script()|
        ensures '\n' !in Script()[k].text
      {
        InTable(k);
      }
      UnifiedTellsSides(Script());
    }

    lemma InTable(i: nat)
      requires Valid() && i < |Script()|
      ensures |Script()[i].text| < MAX_LINE_LEN && '\n' !in Script()[i].text
    {
      var e := diff[..diffCount][i];
      assert InRange(e, linesA, linesB);
    }
  }

  // The first `count` cells hold the script back to front.
  ghost predicate Mirrors(rev: array<DiffEntry>, count: nat, script: seq<DiffEntry>)
    reads rev
  {
    count == |script| <= rev.Length && forall k | 0 <= k < count :: script[k] == rev[count - 1 - k]
  }

  method PutNext(rev: array<DiffEntry>, count: nat, entry: DiffEntry, ghost script: seq<DiffEntry>)
    requires count < rev.Length && Mirrors(rev, count, script)
    modifies rev
    ensures Mirrors(rev, count + 1, [entry] + script)
  {
    rev[count] := entry;
  }

  lemma ExtendResolved(e: DiffEntry, es: seq<DiffEntry>, a: seq<Line>, b: seq<Line>)
    requires AllInRange(es, a, b) && InRange(e, a, b)
    ensures AllInRange([e] + es, a, b)
    ensures Resolved([e] + es, a, b) == [Resolve(e, a, b)] + Resolved(es, a, b)
  {
  }
}
