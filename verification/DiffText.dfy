// Texts and their lines: how a diff cuts a text up, what the cut loses, and the text of a script.
module DiffText {
  import opened DiffSpec

  const MAX_LINES := 1024
  const MAX_LINE_LEN := 512
  const MAX_OUTPUT := 65536
  const ALMOST := MAX_OUTPUT - MAX_LINE_LEN - 4

  // The first line break of `text` from p on, or the end.
  function BreakFrom(text: string, p: nat): (k: nat)
    requires p <= |text|
    ensures p <= k <= |text| && (forall i | p <= i < k :: text[i] != '\n') && (k < |text| ==> text[k] == '\n')
    decreases |text| - p
  {
    if p == |text| || text[p] == '\n' then p else BreakFrom(text, p + 1)
  }

  // The lines of the text from p on. A break at the very end starts no further line.
  function LinesFrom(text: string, p: nat): seq<Line>
    requires p <= |text|
    decreases |text| - p
  {
    var k := BreakFrom(text, p);
    if p == |text| then [] else [text[p..k]] + if k < |text| then LinesFrom(text, k + 1) else []
  }

  function Lines(text: string): seq<Line> { LinesFrom(text, 0) }

  // A line as the fixed-size table holds it.
  function Clipped(line: Line): Line { if |line| >= MAX_LINE_LEN then line[..MAX_LINE_LEN - 1] else line }

  function AllClipped(ls: seq<Line>): (r: seq<Line>)
    ensures |r| == |ls|
  {
    seq(|ls|, i requires 0 <= i < |ls| => Clipped(ls[i]))
  }

  // The lines that take part in a diff.
  function Stored(text: string): (r: seq<Line>)
    ensures |r| <= MAX_LINES
  {
    var ls := Lines(text);
    AllClipped(if |ls| > MAX_LINES then ls[..MAX_LINES] else ls)
  }

  // What is stored: the first 1024 lines, of each its first 511 bytes.
  lemma StoredLines(text: string)
    ensures |Stored(text)| == if |Lines(text)| <= 1024 then |Lines(text)| else 1024
    ensures forall i | 0 <= i < |Stored(text)| ::
              Stored(text)[i] <= Lines(text)[i]
              && |Stored(text)[i]| == if |Lines(text)[i]| <= 511 then |Lines(text)[i]| else 511
  {
  }

  predicate Tabled(ls: seq<Line>) { forall i | 0 <= i < |ls| :: |ls[i]| < MAX_LINE_LEN && '\n' !in ls[i] }

  lemma StoredTabled(text: string)
    ensures Tabled(Stored(text))
  {
    LinesKeepText(text);
    var ls := Lines(text);
    forall i | 0 <= i < |Stored(text)|
      ensures |Stored(text)[i]| < MAX_LINE_LEN && '\n' !in Stored(text)[i]
    {
      assert Stored(text)[i] == Clipped(ls[i]) && '\n' !in ls[i];
      assert forall c | c in Clipped(ls[i]) :: c in ls[i];
    }
  }

  // The loop that cuts a text up: it stops at the end, or when the table of lines is full.
  method SplitLines(text: string) returns (lines: seq<Line>)
    ensures lines == Stored(text) && Tabled(lines)
  {
    lines := [];
    var p := 0;
    ghost var done: seq<Line>, rest := [], Lines(text);
    hide *;
    NoneClipped();
    assert rest == LinesFrom(text, p) && done + rest == Lines(text) by { NoneCut(text); }
    while p < |text| && |lines| < MAX_LINES
      invariant p <= |text| && rest == LinesFrom(text, p)
      invariant lines == AllClipped(done) && |done| <= MAX_LINES && done + rest == Lines(text)
    {
      var k := BreakFrom(text, p);
      CutOne(text, p);
      OneMoreClipped(done, text[p..k]);
      lines := lines + [Clipped(text[p..k])];
      done, rest := done + [text[p..k]], if k < |text| then LinesFrom(text, k + 1) else [];
      if k < |text| { p := k + 1; } else { break; }
    }
    NothingLeft(text);
    CutDone(text, done, rest);
    StoredTabled(text);
  }

  lemma NoneClipped()
    ensures AllClipped([]) == [] && 0 < MAX_LINES
  {
  }

  lemma NoneCut(text: string)
    ensures LinesFrom(text, 0) == [] + LinesFrom(text, 0) == Lines(text)
  {
  }

  lemma NothingLeft(text: string)
    ensures LinesFrom(text, |text|) == []
  {
  }

  lemma CutOne(text: string, p: nat)
    requires p < |text|
    ensures var k := BreakFrom(text, p);
      LinesFrom(text, p) == [text[p..k]] + if k < |text| then LinesFrom(text, k + 1) else []
  {
  }

  lemma OneMoreClipped(ls: seq<Line>, line: Line)
    ensures AllClipped(ls + [line]) == AllClipped(ls) + [Clipped(line)]
  {
  }

  lemma CutDone(text: string, done: seq<Line>, rest: seq<Line>)
    requires done + rest == Lines(text) && |done| <= MAX_LINES && (|done| == MAX_LINES || rest == [])
    ensures AllClipped(done) == Stored(text)
  {
    var ls := Lines(text);
    assert done == if |ls| > MAX_LINES then ls[..MAX_LINES] else ls;
  }

  // ----- Cutting loses only a missing last line break -----

  function Unlines(ls: seq<Line>): string { if ls == [] then "" else ls[0] + "\n" + Unlines(ls[1..]) }

  predicate Plain(ls: seq<Line>) { forall i | 0 <= i < |ls| :: '\n' !in ls[i] }

  // The text with its last line ended.
  function Ended(text: string): string {
    if text == "" || text[|text| - 1] == '\n' then text else text + "\n"
  }

  lemma {:induction false} LinesFromKeep(text: string, p: nat)
    requires p <= |text|
    ensures Plain(LinesFrom(text, p)) && Unlines(LinesFrom(text, p)) == Ended(text[p..])
    decreases |text| - p
  {
    hide LinesFrom, Unlines, Ended;
    var k := BreakFrom(text, p);
    if p == |text| {
      NoneKept(text);
    } else if k < |text| {
      CutOne(text, p);
      LinesFromKeep(text, k + 1);
      assert text[p..] == text[p..k] + "\n" + text[k + 1..];
      EndedBehind(text[p..k] + "\n", text[k + 1..]);
      LineInFront(text[p..k], LinesFrom(text, k + 1));
    } else {
      CutOne(text, p);
      assert text[p..k] == text[p..] && '\n' !in text[p..];
      assert [text[p..]] + [] == [text[p..]];
      OneLine(text[p..]);
    }
  }

  lemma NoneKept(text: string)
    ensures LinesFrom(text, |text|) == [] && Unlines([]) == "" == Ended(text[|text|..])
  {
  }

  lemma LineInFront(line: Line, ls: seq<Line>)
    requires '\n' !in line && Plain(ls)
    ensures Plain([line] + ls) && Unlines([line] + ls) == line + "\n" + Unlines(ls)
  {
    assert ([line] + ls)[1..] == ls;
  }

  lemma EndedBehind(x: string, y: string)
    requires x != "" && x[|x| - 1] == '\n'
    ensures Ended(x + y) == x + Ended(y)
  {
    if y == "" {
      assert x + y == x;
    } else {
      assert (x + y)[|x + y| - 1] == y[|y| - 1];
    }
  }

  lemma OneLine(x: string)
    requires x != "" && '\n' !in x
    ensures Plain([x]) && Unlines([x]) == Ended(x) == x + "\n"
  {
    assert x[|x| - 1] in x;
    assert [x][1..] == [] && x + "\n" + "" == x + "\n";
  }

  // Every list of lines without breaks is the cut of its own text.
  lemma {:induction false} LinesOfUnlines(before: string, ls: seq<Line>)
    requires Plain(ls)
    ensures LinesFrom(before + Unlines(ls), |before|) == ls
    decreases |ls|
  {
    hide LinesFrom, Unlines;
    if ls == [] {
      NoLines(before);
    } else {
      LinesOfUnlines(before + (ls[0] + "\n"), ls[1..]);
      FirstLine(before, ls[0], Unlines(ls[1..]));
      UnlinesFirst(before, ls);
    }
  }

  lemma NoLines(before: string)
    ensures LinesFrom(before + Unlines([]), |before|) == []
  {
  }

  lemma UnlinesFirst(before: string, ls: seq<Line>)
    requires ls != []
    ensures before + Unlines(ls) == before + (ls[0] + "\n") + Unlines(ls[1..])
    ensures [ls[0]] + ls[1..] == ls
  {
    hide Unlines;
    assert Unlines(ls) == ls[0] + "\n" + Unlines(ls[1..]) by { UnlinesMore(ls); }
  }

  lemma UnlinesMore(ls: seq<Line>)
    requires ls != []
    ensures Unlines(ls) == ls[0] + "\n" + Unlines(ls[1..])
  {
  }

  lemma FirstLine(before: string, line: Line, after: string)
    requires '\n' !in line
    ensures var further := before + (line + "\n");
      LinesFrom(further + after, |before|) == [line] + LinesFrom(further + after, |further|)
  {
    var p, text := |before|, before + (line + "\n") + after;
    hide LinesFrom;
    BreakAt(before, line, after);
    CutOne(text, p);
    assert text[p..p + |line|] == line;
  }

  lemma BreakAt(before: string, line: Line, after: string)
    requires '\n' !in line
    ensures BreakFrom(before + (line + "\n") + after, |before|) == |before| + |line|
  {
    var p, text := |before|, before + (line + "\n") + after;
    var k := p + |line|;
    assert text[k] == '\n';
    forall i | p <= i < k
      ensures text[i] != '\n'
    {
      assert text[i] == line[i - p];
    }
    BreakIs(text, p, k);
  }

  lemma BreakIs(text: string, p: nat, k: nat)
    requires p <= k < |text| && text[k] == '\n' && forall i | p <= i < k :: text[i] != '\n'
    ensures BreakFrom(text, p) == k
  {
  }

  // Two texts have the same lines if and only if they differ by a last line break at most.
  lemma SameLinesIff(a: string, b: string)
    ensures Lines(a) == Lines(b) <==> Ended(a) == Ended(b)
  {
    LinesKeepText(a);
    LinesKeepText(b);
    LinesOfText(Lines(a));
    LinesOfText(Lines(b));
  }

  lemma LinesKeepText(text: string)
    ensures Plain(Lines(text)) && Unlines(Lines(text)) == Ended(text)
  {
    LinesFromKeep(text, 0);
    assert text[0..] == text;
  }

  lemma LinesOfText(ls: seq<Line>)
    requires Plain(ls)
    ensures Lines(Unlines(ls)) == ls
  {
    LinesOfUnlines("", ls);
    assert "" + Unlines(ls) == Unlines(ls);
  }

  // ----- What a diff cannot see -----

  // Room to spare: fewer than 1024 lines, each shorter than 511 bytes.
  predicate Roomy(text: string) {
    var ls := Lines(text);
    |ls| < MAX_LINES && forall i | 0 <= i < |ls| :: |ls[i]| < MAX_LINE_LEN - 1
  }

  lemma RoomySeen(a: string, b: string)
    requires Roomy(a) && Stored(a) == Stored(b)
    ensures Lines(a) == Lines(b)
  {
    var x, y := Lines(a), Lines(b);
    assert |x| == |y|;
    forall i | 0 <= i < |x|
      ensures x[i] == y[i]
    {
      assert Stored(a)[i] == Clipped(x[i]) == x[i];
      assert Stored(b)[i] == Clipped(y[i]);
    }
  }

  // Beyond the limits there is another text that looks the same: one line more, or one byte more.
  lemma Blind(a: string) returns (b: string)
    requires !Roomy(a)
    ensures Stored(b) == Stored(a) && Lines(b) != Lines(a)
  {
    var x := Lines(a);
    LinesKeepText(a);
    if |x| >= MAX_LINES {
      var y := x + ["+"];
      LinesOfText(y);
      b := Unlines(y);
      assert y[..MAX_LINES] == x[..MAX_LINES];
    } else {
      var i :| 0 <= i < |x| && |x[i]| >= MAX_LINE_LEN - 1;
      var longer := x[i] + "+";
      var y := x[i := longer];
      LinesOfText(y);
      b := Unlines(y);
      assert longer[..MAX_LINE_LEN - 1] == x[i][..MAX_LINE_LEN - 1];
      assert Clipped(longer) == Clipped(x[i]);
      assert y[i] != x[i];
      assert AllClipped(x) == AllClipped(y);
    }
  }

  // The exact condition: a diff against `a` tells apart every text that differs from `a` by more than a last
  // line break, if and only if `a` stays below both limits.
  lemma ChangesSeenIff(a: string)
    ensures (forall b :: Stored(a) == Stored(b) ==> Ended(a) == Ended(b)) <==> Roomy(a)
  {
    if Roomy(a) {
      forall b | Stored(a) == Stored(b)
        ensures Ended(a) == Ended(b)
      {
        RoomySeen(a, b);
        SameLinesIff(a, b);
      }
    } else {
      var b := Blind(a);
      SameLinesIff(a, b);
    }
  }

  // A shortest script has no changes if and only if the two lists of lines are equal.
  lemma UnchangedIff(es: seq<Edit>, a: seq<Line>, b: seq<Line>)
    requires Turns(es, a, b) && CountTag(es, Context) == Lcs(a, b, |a|, |b|)
    ensures Changes(es) == 0 <==> a == b
  {
    if a == b {
      LcsOfSame(a, |a|);
      ScriptLowerBound(es, a, b);
    }
    if Changes(es) == 0 { AllContext(es); }
  }

  lemma {:induction false} LcsOfSame(a: seq<Line>, n: nat)
    requires n <= |a|
    ensures Lcs(a, a, n, n) == n
  {
    if n > 0 { LcsOfSame(a, n - 1); }
  }

  lemma {:induction false} AllContext(es: seq<Edit>)
    requires Changes(es) == 0
    ensures OldSide(es) == NewSide(es)
  {
    if es != [] { AllContext(es[1..]); }
  }

  // ----- The text of a script -----

  function Sign(tag: Tag): char {
    match tag
    case Context => ' '
    case Added => '+'
    case Removed => '-'
  }

  function Signed(e: Edit): Line { [Sign(e.tag)] + e.text }

  function SignedAll(es: seq<Edit>): (r: seq<Line>)
    ensures |r| == |es|
  {
    seq(|es|, i requires 0 <= i < |es| => Signed(es[i]))
  }

  function Unified(es: seq<Edit>): string { Unlines(SignedAll(es)) }

  // The lines that do not start with `sign`, without their first character.
  function Side(ls: seq<Line>, sign: char): seq<Line> {
    if ls == [] then []
    else (if ls[0] == "" || ls[0][0] == sign then [] else [ls[0][1..]]) + Side(ls[1..], sign)
  }

  // Reading the text of a script back: leaving out the lines with a plus gives the text before, leaving out those
  // with a minus the text after.
  lemma UnifiedTellsSides(es: seq<Edit>)
    requires forall i | 0 <= i < |es| :: '\n' !in es[i].text
    ensures Side(Lines(Unified(es)), '+') == OldSide(es)
    ensures Side(Lines(Unified(es)), '-') == NewSide(es)
  {
    SignedArePlain(es);
    hide SignedAll, Unlines, Side, OldSide, NewSide, Plain;
    LinesOfText(SignedAll(es));
    SidesOfSigned(es);
  }

  lemma SignedArePlain(es: seq<Edit>)
    requires forall i | 0 <= i < |es| :: '\n' !in es[i].text
    ensures Plain(SignedAll(es)) && Unified(es) == Unlines(SignedAll(es))
  {
    forall i | 0 <= i < |es|
      ensures '\n' !in SignedAll(es)[i]
    {
      assert SignedAll(es)[i] == [Sign(es[i].tag)] + es[i].text;
    }
  }

  lemma {:induction false} SidesOfSigned(es: seq<Edit>)
    ensures Side(SignedAll(es), '+') == OldSide(es)
    ensures Side(SignedAll(es), '-') == NewSide(es)
  {
    if es != [] {
      assert SignedAll(es)[1..] == SignedAll(es[1..]);
      assert Signed(es[0])[1..] == es[0].text;
      SidesOfSigned(es[1..]);
    }
  }

  // Every entry finds room for a longest line after the entries before it.
  predicate AllFit(es: seq<Edit>) { es == [] || |Unified(es[..|es| - 1])| < ALMOST }

  lemma NothingUnified(es: seq<Edit>)
    ensures Unified(es[..0]) == ""
  {
  }

  lemma UnifiedMore(es: seq<Edit>, i: nat)
    requires i < |es|
    ensures Unified(es[..i + 1]) == Unified(es[..i]) + (Signed(es[i]) + "\n")
  {
    assert SignedAll(es[..i + 1]) == SignedAll(es[..i]) + [Signed(es[i])];
    UnlinesSnoc(SignedAll(es[..i]), Signed(es[i]));
  }

  lemma {:induction false} UnlinesSnoc(ls: seq<Line>, line: Line)
    ensures Unlines(ls + [line]) == Unlines(ls) + (line + "\n")
  {
    if ls == [] {
      assert [] + [line] == [line] && [line][1..] == [];
    } else {
      assert (ls + [line])[1..] == ls[1..] + [line];
      UnlinesSnoc(ls[1..], line);
    }
  }

  lemma {:induction false} Longer(es: seq<Edit>, i: nat, j: nat)
    requires i < j <= |es|
    ensures |Unified(es[..i])| < |Unified(es[..j])|
    decreases j
  {
    hide Unified;
    UnifiedMore(es, j - 1);
    if i < j - 1 { Longer(es, i, j - 1); }
  }

  // Writing that stopped after i entries, at the end or for want of room, wrote all if and only if all fit.
  lemma WholeIff(es: seq<Edit>, i: nat)
    requires i <= |es| && (i < |es| ==> |Unified(es[..i])| >= ALMOST)
    requires i > 0 ==> |Unified(es[..i - 1])| < ALMOST
    ensures Unified(es[..i]) == Unified(es) <==> AllFit(es)
    ensures AllFit(es) <==> es == [] || |Unified(es[..|es| - 1])| < 65020
  {
    hide Unified;
    assert es[..|es|] == es;
    if i < |es| {
      Longer(es, i, |es|);
      if i < |es| - 1 { Longer(es, i, |es| - 1); }
    }
  }

  // Different scripts have different texts.
  lemma UnifiedInjective(es: seq<Edit>, es': seq<Edit>)
    requires forall i | 0 <= i < |es| :: '\n' !in es[i].text
    requires forall i | 0 <= i < |es'| :: '\n' !in es'[i].text
    ensures Unified(es) == Unified(es') <==> es == es'
  {
    if Unified(es) == Unified(es') {
      LinesOfText(SignedAll(es));
      LinesOfText(SignedAll(es'));
      forall i | 0 <= i < |es|
        ensures es[i] == es'[i]
      {
        assert SignedAll(es)[i] == SignedAll(es')[i];
        assert Signed(es[i])[0] == Signed(es'[i])[0];
        assert Signed(es[i])[1..] == es[i].text && Signed(es'[i])[1..] == es'[i].text;
      }
    }
  }
}
