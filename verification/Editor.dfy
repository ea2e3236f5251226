// The line editor: an array of lines that stands for one flat text.

module EditorSpec {
  import opened Arith

  // --- Lines and text.

  function Heads(u: seq<string>): string {
    if u == [] then "" else u[0] + "\n" + Heads(u[1..])
  }

  function Tails(u: seq<string>): string {
    if u == [] then "" else "\n" + u[0] + Tails(u[1..])
  }

  // The text the lines stand for: lines joined by line breaks.
  function Flat(t: seq<string>): string
    requires |t| > 0
  {
    if |t| == 1 then t[0] else t[0] + "\n" + Flat(t[1..])
  }

  predicate OneLine(s: string) {
    forall i :: 0 <= i < |s| ==> s[i] != '\n'
  }

  // At least one line, and no line break inside a line.
  predicate WellFormed(t: seq<string>) {
    |t| > 0 && forall i :: 0 <= i < |t| ==> OneLine(t[i])
  }

  // Position of the first line break at or after i, or |s|.
  function NextBreak(s: string, i: nat): (r: nat)
    requires i <= |s|
    ensures i <= r <= |s|
    ensures r < |s| ==> s[r] == '\n'
    ensures forall j :: i <= j < r ==> s[j] != '\n'
    decreases |s| - i
  {
    if i == |s| || s[i] == '\n' then i else NextBreak(s, i + 1)
  }

  function Lines(s: string): (t: seq<string>)
    ensures |t| > 0
    decreases |s|
  {
    var n := NextBreak(s, 0);
    if n == |s| then [s] else [s[..n]] + Lines(s[n + 1..])
  }

  // Offset in the text of a position given by row and column.
  function Offset(t: seq<string>, row: nat, col: nat): nat
    requires row < |t|
  {
    |Heads(t[..row])| + col
  }

  // Loading loses nothing: the lines stand for exactly the text they were cut from.
  lemma {:induction false} LoadKeepsText(s: string)
    ensures Flat(Lines(s)) == s
    ensures WellFormed(Lines(s))
    decreases |s|
  {
    var n := NextBreak(s, 0);
    assert s[0..n] == s[..n];
    if n < |s| {
      LoadKeepsText(s[n + 1..]);
      var rest := Lines(s[n + 1..]);
      var t := [s[..n]] + rest;
      assert t[1..] == rest;
      assert s == s[..n] + "\n" + s[n + 1..];
    } else {
      assert s[..n] == s;
    }
  }

  // Text determines lines: cutting the joined text gives the same lines again.
  lemma {:induction false} LinesOfFlat(t: seq<string>)
    requires WellFormed(t)
    ensures Lines(Flat(t)) == t
    decreases |t|
  {
    hide NextBreak;
    if |t| == 1 {
      BreakIsAt(t[0], 0, |t[0]|);
    } else {
      FirstBreak(t[0], Flat(t[1..]));
      LinesOfFlat(t[1..]);
    }
  }

  lemma FirstBreak(x: string, rest: string)
    requires OneLine(x)
    ensures var s := x + "\n" + rest;
      NextBreak(s, 0) == |x| && s[..|x|] == x && s[|x| + 1..] == rest
  {
    hide NextBreak;
    var s := x + "\n" + rest;
    assert forall i :: 0 <= i < |x| ==> s[i] == x[i];
    BreakIsAt(s, 0, |x|);
  }

  lemma BreakIsAt(s: string, i: nat, n: nat)
    requires i <= n <= |s|
    requires forall j :: i <= j < n ==> s[j] != '\n'
    requires n < |s| ==> s[n] == '\n'
    ensures NextBreak(s, i) == n
  {}

  // The text around one line.
  lemma {:induction false} FlatAround(a: seq<string>, x: string, b: seq<string>)
    ensures Flat(a + [x] + b) == Heads(a) + x + Tails(b)
    decreases |a| + |b|
  {
    var t := a + [x] + b;
    if a != [] {
      FlatAround(a[1..], x, b);
      assert t[1..] == a[1..] + [x] + b;
      Concat(a[0] + "\n", Heads(a[1..]) + x, Tails(b));
      Concat(a[0] + "\n", Heads(a[1..]), x);
    } else if b != [] {
      FlatAround([], b[0], b[1..]);
      assert t == [x] + b && t[1..] == b == [] + [b[0]] + b[1..];
      FirstLine(x, b[0], Tails(b[1..]));
    } else {
      assert t == [x];
      assert "" + x + "" == x;
    }
  }

  lemma Concat(a: string, b: string, c: string)
    ensures a + (b + c) == a + b + c
  {}

  lemma FirstLine(x: string, y: string, rest: string)
    ensures x + "\n" + ("" + y + rest) == "" + x + ("\n" + y + rest)
  {
    Concat(x, "\n", y + rest);
    Concat("\n", y, rest);
    assert "" + y == y && "" + x == x;
  }

  // --- The edits on lines.

  // The nearest place there is.
  function Clamp(x: int, hi: nat): (r: nat)
    ensures r <= hi
    ensures 0 <= x <= hi ==> r == x
    ensures x < 0 ==> r == 0
    ensures x > hi ==> r == hi
  { if x < 0 then 0 else if x > hi then hi else x }

  function SetLine(t: seq<string>, i: int, text: string): seq<string> {
    if 0 <= i < |t| then t[i := text] else t
  }

  function InsertLine(t: seq<string>, i: int, text: string): seq<string> {
    t[..Clamp(i, |t|)] + [text] + t[Clamp(i, |t|)..]
  }

  // The last remaining line is emptied, not removed.
  function DeleteLine(t: seq<string>, i: int): seq<string> {
    if 0 <= i < |t| then (if |t| == 1 then [""] else t[..i] + t[i + 1..]) else t
  }

  // A null character ends the line it is put into.
  function InsertChar(t: seq<string>, row: int, col: int, ch: char): seq<string> {
    if 0 <= row < |t| then
      var c := Clamp(col, |t[row]|);
      t[row := if ch == '\0' then t[row][..c] else t[row][..c] + [ch] + t[row][c..]]
    else t
  }

  function DeleteChar(t: seq<string>, row: int, col: int): seq<string> {
    if 0 <= row < |t| && 0 <= col < |t[row]| then t[row := t[row][..col] + t[row][col + 1..]] else t
  }

  function SplitLine(t: seq<string>, row: int, col: int): seq<string> {
    if 0 <= row < |t| then
      var c := Clamp(col, |t[row]|);
      t[..row] + [t[row][..c], t[row][c..]] + t[row + 1..]
    else t
  }

  function JoinLines(t: seq<string>, row: int): seq<string> {
    if 0 <= row < |t| - 1 then t[..row] + [t[row] + t[row + 1]] + t[row + 2..] else t
  }

  function ToString(t: seq<string>): string {
    Heads(t)
  }

  // --- The edits on text.

  function Inserted(s: string, at: nat, what: string): string
    requires at <= |s|
  { s[..at] + what + s[at..] }

  function Erased(s: string, at: nat, n: nat): string
    requires at + n <= |s|
  { s[..at] + s[at + n..] }

  lemma Around(t: seq<string>, row: nat)
    requires row < |t|
    ensures t[..row] + [t[row]] + t[row + 1..] == t
  {}

  // A line stands in the text at its offset.
  lemma LineInText(t: seq<string>, row: nat)
    requires row < |t|
    ensures Flat(t) == Heads(t[..row]) + t[row] + Tails(t[row + 1..])
  {
    hide *;
    Around(t, row);
    FlatAround(t[..row], t[row], t[row + 1..]);
  }

  // Rewriting one line rewrites just its stretch of the text.
  lemma Rewrite(t: seq<string>, row: nat, x: string)
    requires row < |t|
    ensures Flat(t[row := x]) == Heads(t[..row]) + x + Tails(t[row + 1..])
  {
    hide *;
    var u := t[row := x];
    LineInText(u, row);
    assert u[..row] == t[..row] && u[row + 1..] == t[row + 1..];
  }

  lemma InsertInside(a: string, x: string, b: string, c: nat, what: string)
    requires c <= |x|
    ensures Inserted(a + x + b, |a| + c, what) == a + (x[..c] + what + x[c..]) + b
  {
    assert (a + x + b)[..|a| + c] == a + x[..c];
    assert (a + x + b)[|a| + c..] == x[c..] + b;
  }

  lemma EraseInside(a: string, x: string, b: string, c: nat, n: nat)
    requires c + n <= |x|
    ensures Erased(a + x + b, |a| + c, n) == a + (x[..c] + x[c + n..]) + b
  {
    assert (a + x + b)[..|a| + c] == a + x[..c];
    assert (a + x + b)[|a| + c + n..] == x[c + n..] + b;
  }

  // Typing a character inserts it into the text at the cursor, unless it is null, which
  // cuts off the rest of the line.
  lemma InsertCharInText(t: seq<string>, row: nat, col: int, ch: char)
    requires row < |t|
    ensures var c := Clamp(col, |t[row]|);
      && Offset(t, row, c) + |t[row]| - c <= |Flat(t)|
      && Flat(InsertChar(t, row, col, ch)) ==
           if ch == '\0' then Erased(Flat(t), Offset(t, row, c), |t[row]| - c)
           else Inserted(Flat(t), Offset(t, row, c), [ch])
  {
    hide Flat, Heads, Tails, Inserted, Erased;
    var c := Clamp(col, |t[row]|);
    var x := t[row];
    LineInText(t, row);
    if ch == '\0' {
      Rewrite(t, row, x[..c]);
      EraseInside(Heads(t[..row]), x, Tails(t[row + 1..]), c, |x| - c);
      assert x[..c] + x[|x|..] == x[..c];
    } else {
      Rewrite(t, row, x[..c] + [ch] + x[c..]);
      InsertInside(Heads(t[..row]), x, Tails(t[row + 1..]), c, [ch]);
    }
  }

  lemma DeleteCharInText(t: seq<string>, row: nat, col: nat)
    requires row < |t| && col < |t[row]|
    ensures Offset(t, row, col) < |Flat(t)|
    ensures Flat(DeleteChar(t, row, col)) == Erased(Flat(t), Offset(t, row, col), 1)
  {
    hide Flat, Heads, Tails, Erased;
    LineInText(t, row);
    Rewrite(t, row, t[row][..col] + t[row][col + 1..]);
    EraseInside(Heads(t[..row]), t[row], Tails(t[row + 1..]), col, 1);
  }

  // Splitting a line inserts a line break into the text.
  lemma SplitInText(t: seq<string>, row: nat, col: int)
    requires row < |t|
    ensures var c := Clamp(col, |t[row]|);
      && Offset(t, row, c) <= |Flat(t)|
      && Flat(SplitLine(t, row, col)) == Inserted(Flat(t), Offset(t, row, c), "\n")
  {
    hide Flat, Heads, Tails, Inserted, SplitLine;
    var c := Clamp(col, |t[row]|);
    var x, b := t[row], t[row + 1..];
    LineInText(t, row);
    SplitIs(t, row, col);
    FlatAround(t[..row], x[..c], [x[c..]] + b);
    TailsCons(x[c..], b);
    InsertBreak(Heads(t[..row]), x, Tails(b), c);
  }

  lemma SplitIs(t: seq<string>, row: nat, col: int)
    requires row < |t|
    ensures var c := Clamp(col, |t[row]|);
      SplitLine(t, row, col) == t[..row] + [t[row][..c]] + ([t[row][c..]] + t[row + 1..])
  {}

  lemma InsertBreak(a: string, x: string, b: string, c: nat)
    requires c <= |x|
    ensures Inserted(a + x + b, |a| + c, "\n") == a + x[..c] + ("\n" + x[c..] + b)
  {
    assert (a + x + b)[..|a| + c] == a + x[..c];
    assert (a + x + b)[|a| + c..] == x[c..] + b;
    Concat(a + x[..c] + "\n", x[c..], b);
    Concat(a + x[..c], "\n" + x[c..], b);
    Concat(a + x[..c], "\n", x[c..]);
  }

  lemma TailsCons(x: string, b: seq<string>)
    ensures Tails([x] + b) == "\n" + x + Tails(b)
  {
    assert ([x] + b)[1..] == b;
  }

  // Joining two lines erases the line break between them.
  lemma JoinInText(t: seq<string>, row: nat)
    requires row < |t| - 1
    ensures Offset(t, row, |t[row]|) < |Flat(t)|
    ensures Flat(t)[Offset(t, row, |t[row]|)] == '\n'
    ensures Flat(JoinLines(t, row)) == Erased(Flat(t), Offset(t, row, |t[row]|), 1)
  {
    hide Flat, Heads, Tails, Inserted, Erased, SplitLine, JoinLines;
    var u := JoinLines(t, row);
    JoinThenSplit(t, row);
    SplitInText(u, row, |t[row]|);
    EraseInserted(Flat(u), Offset(t, row, |t[row]|), "\n");
  }

  lemma EraseInserted(s: string, at: nat, what: string)
    requires at <= |s|
    ensures |Inserted(s, at, what)| == |s| + |what|
    ensures Inserted(s, at, what)[at..at + |what|] == what
    ensures Erased(Inserted(s, at, what), at, |what|) == s
  {
    assert s[..at] + s[at..] == s;
    assert (s[..at] + what + s[at..])[at + |what|..] == s[at..];
  }

  // Joining undoes splitting.
  lemma SplitThenJoin(t: seq<string>, row: nat, col: int)
    requires row < |t|
    ensures JoinLines(SplitLine(t, row, col), row) == t
  {
    var c := Clamp(col, |t[row]|);
    var u := SplitLine(t, row, col);
    assert u[..row] == t[..row] && u[row + 2..] == t[row + 1..];
    assert u[row] + u[row + 1] == t[row];
  }

  // Splitting where two lines were joined undoes the joining.
  lemma JoinThenSplit(t: seq<string>, row: nat)
    requires row < |t| - 1
    ensures |JoinLines(t, row)| == |t| - 1 && JoinLines(t, row)[row] == t[row] + t[row + 1]
    ensures JoinLines(t, row)[..row] == t[..row]
    ensures SplitLine(JoinLines(t, row), row, |t[row]|) == t
  {
    var u := JoinLines(t, row);
    assert u[row] == t[row] + t[row + 1];
    assert u[..row] == t[..row] && u[row + 1..] == t[row + 2..];
    assert u[row][..|t[row]|] == t[row] && u[row][|t[row]|..] == t[row + 1];
  }

  lemma SetLineInText(t: seq<string>, row: nat, text: string)
    requires row < |t|
    ensures Offset(t, row, 0) + |t[row]| <= |Flat(t)|
    ensures Flat(SetLine(t, row, text))
         == Inserted(Erased(Flat(t), Offset(t, row, 0), |t[row]|), Offset(t, row, 0), text)
  {
    hide Flat, Heads, Tails, Inserted, Erased;
    LineInText(t, row);
    Rewrite(t, row, text);
    var a, x, b := Heads(t[..row]), t[row], Tails(t[row + 1..]);
    EraseInside(a, x, b, 0, |x|);
    assert x[..0] + x[|x|..] == "";
    InsertInside(a, "", b, 0, text);
    assert ""[..0] + text + ""[0..] == text;
  }

  // A line inserted before another brings its line break after it; a line put at the end
  // brings it in front.
  lemma InsertLineInText(t: seq<string>, i: int, text: string)
    requires |t| > 0
    ensures var k := Clamp(i, |t|);
      && (k < |t| ==> Offset(t, k, 0) <= |Flat(t)|)
      && Flat(InsertLine(t, i, text)) ==
           if k < |t| then Inserted(Flat(t), Offset(t, k, 0), text + "\n") else Flat(t) + "\n" + text
  {
    var k := Clamp(i, |t|);
    if k < |t| {
      InsertInnerLine(t, k, text);
    } else {
      AppendLine(t, text);
    }
  }

  lemma InsertInnerLine(t: seq<string>, k: nat, text: string)
    requires k < |t|
    ensures Offset(t, k, 0) <= |Flat(t)|
    ensures Flat(InsertLine(t, k, text)) == Inserted(Flat(t), Offset(t, k, 0), text + "\n")
  {
    hide Flat, Heads, Tails, Inserted;
    FlatAround(t[..k], text, t[k..]);
    LineInText(t, k);
    assert t[k..] == [t[k]] + t[k + 1..];
    TailsCons(t[k], t[k + 1..]);
    InsertLineBreak(Heads(t[..k]), text, t[k], Tails(t[k + 1..]));
  }

  lemma AppendLine(t: seq<string>, text: string)
    requires |t| > 0
    ensures Flat(InsertLine(t, |t|, text)) == Flat(t) + "\n" + text
  {
    hide Flat, Heads, Tails;
    FlatAround(t, text, []);
    assert t[..|t|] == t && t[|t|..] == [];
    HeadsIsFlat(t);
    NoTails();
    assert Flat(t) + "\n" + text + "" == Flat(t) + "\n" + text;
  }

  lemma NoTails()
    ensures Tails([]) == ""
  {}

  lemma InsertLineBreak(a: string, text: string, x: string, b: string)
    ensures Inserted(a + x + b, |a|, text + "\n") == a + text + ("\n" + x + b)
  {
    assert (a + x + b)[..|a|] == a && (a + x + b)[|a|..] == x + b;
    Concat(a, text, "\n");
    Concat(a + text, "\n", x + b);
    Concat("\n", x, b);
  }

  // Deleting a line takes one line break with it, the one after it if there is one.
  lemma DeleteLineInText(t: seq<string>, i: nat)
    requires i < |t|
    ensures i < |t| - 1 ==>
      && Offset(t, i, 0) + |t[i]| + 1 <= |Flat(t)|
      && Flat(DeleteLine(t, i)) == Erased(Flat(t), Offset(t, i, 0), |t[i]| + 1)
    ensures 0 < i == |t| - 1 ==>
      && |Flat(t)| >= |t[i]| + 1
      && Flat(DeleteLine(t, i)) == Flat(t)[..|Flat(t)| - |t[i]| - 1]
    ensures |t| == 1 ==> Flat(DeleteLine(t, i)) == ""
  {
    if i < |t| - 1 {
      DeleteInnerLine(t, i);
    } else if i > 0 {
      DeleteLastLine(t);
    }
  }

  lemma DeleteInnerLine(t: seq<string>, i: nat)
    requires i < |t| - 1
    ensures Offset(t, i, 0) + |t[i]| + 1 <= |Flat(t)|
    ensures Flat(DeleteLine(t, i)) == Erased(Flat(t), Offset(t, i, 0), |t[i]| + 1)
  {
    hide Flat, Heads, Tails, Erased;
    var y, b := t[i + 1], t[i + 2..];
    LineInText(t, i);
    assert t[i + 1..] == [y] + b;
    TailsCons(y, b);
    FlatAround(t[..i], y, b);
    assert t[..i] + [y] + b == DeleteLine(t, i);
    EraseBreak(Heads(t[..i]), t[i], y, Tails(b));
  }

  lemma DeleteLastLine(t: seq<string>)
    requires |t| > 1
    ensures |Flat(t)| >= |t[|t| - 1]| + 1
    ensures Flat(DeleteLine(t, |t| - 1)) == Flat(t)[..|Flat(t)| - |t[|t| - 1]| - 1]
  {
    hide Flat, Heads, Tails;
    var i := |t| - 1;
    LineInText(t, i);
    NoTails();
    assert t[i + 1..] == [];
    HeadsIsFlat(t[..i]);
    assert DeleteLine(t, i) == t[..i];
    var s := Flat(t[..i]);
    assert s + "\n" + t[i] + "" == s + ("\n" + t[i]);
  }

  lemma EraseBreak(a: string, x: string, y: string, b: string)
    ensures Erased(a + x + ("\n" + y + b), |a|, |x| + 1) == a + y + b
  {
    hide Erased;
    Concat(a + x, "\n", y + b);
    Concat("\n", y, b);
    Concat(a, x, "\n");
    EraseInside(a, x + "\n", y + b, 0, |x| + 1);
    assert (x + "\n")[..0] + (x + "\n")[|x| + 1..] == "";
    Concat(a, y, b);
    assert a + "" == a;
  }

  // --- Saving.

  // Saving writes a line break after every line, the last one included.
  lemma {:induction false} HeadsIsFlat(t: seq<string>)
    requires |t| > 0
    ensures ToString(t) == Flat(t) + "\n"
  {
    if |t| > 1 {
      HeadsIsFlat(t[1..]);
      assert t[0] + "\n" + (Flat(t[1..]) + "\n") == t[0] + "\n" + Flat(t[1..]) + "\n";
    } else {
      assert Heads(t[1..]) == "";
      assert t[0] + "\n" + "" == t[0] + "\n";
    }
  }

  lemma SavedText(s: string)
    ensures ToString(Lines(s)) == s + "\n"
  {
    HeadsIsFlat(Lines(s));
    LoadKeepsText(s);
  }

  // So each round of saving and loading adds one empty line at the end.
  lemma SaveThenLoadGrows(t: seq<string>)
    requires WellFormed(t)
    ensures Lines(ToString(t)) == t + [""]
  {
    HeadsIsFlat(t);
    var u := t + [""];
    FlatAround(t, "", []);
    assert t + [""] + [] == u;
    assert Heads(t) + "" + "" == Heads(t);
    LinesOfFlat(u);
  }

  // --- Well-formedness over edits.

  lemma EditsKeepForm(t: seq<string>, row: int, col: int)
    requires WellFormed(t)
    ensures WellFormed(DeleteChar(t, row, col)) && WellFormed(SplitLine(t, row, col))
    ensures WellFormed(JoinLines(t, row)) && WellFormed(DeleteLine(t, row))
  {
    DeleteCharKeepsForm(t, row, col);
    SplitKeepsForm(t, row, col);
  }

  lemma DeleteCharKeepsForm(t: seq<string>, row: int, col: int)
    requires WellFormed(t)
    ensures WellFormed(DeleteChar(t, row, col))
  {
    if 0 <= row < |t| && 0 <= col < |t[row]| {
      assert OneLine(t[row][..col] + t[row][col + 1..]);
    }
  }

  lemma SplitKeepsForm(t: seq<string>, row: int, col: int)
    requires WellFormed(t)
    ensures WellFormed(SplitLine(t, row, col))
  {
    if 0 <= row < |t| {
      var c := Clamp(col, |t[row]|);
      var u := SplitLine(t, row, col);
      assert OneLine(t[row][..c]) && OneLine(t[row][c..]);
      forall i: nat | i < |u|
        ensures OneLine(u[i])
      {
        assert u[i] == if i < row then t[i] else if i == row then t[row][..c]
                       else if i == row + 1 then t[row][c..] else t[i - 1];
      }
    }
  }

  // Typing a line break into a line is the one way a character breaks the form.
  lemma InsertCharKeepsFormIff(t: seq<string>, row: nat, col: int, ch: char)
    requires WellFormed(t) && row < |t|
    ensures WellFormed(InsertChar(t, row, col, ch)) <==> ch != '\n'
  {
    var c := Clamp(col, |t[row]|);
    var u := InsertChar(t, row, col, ch);
    if ch == '\n' {
      assert u[row][c] == '\n';
    } else {
      assert OneLine(u[row]);
      assert forall i :: 0 <= i < |t| && i != row ==> u[i] == t[i];
    }
  }

  // The same goes for whole lines handed in.
  lemma WholeLineKeepsFormIff(t: seq<string>, i: int, text: string)
    requires WellFormed(t)
    ensures WellFormed(InsertLine(t, i, text)) <==> OneLine(text)
    ensures 0 <= i < |t| ==> (WellFormed(SetLine(t, i, text)) <==> OneLine(text))
  {
    var k := Clamp(i, |t|);
    var u := InsertLine(t, i, text);
    assert u[k] == text;
    assert forall j: nat :: j < |u| && j != k ==> u[j] == if j < k then t[j] else t[j - 1];
    if 0 <= i < |t| {
      var w := SetLine(t, i, text);
      assert w[i] == text;
      assert forall j: nat :: j < |w| && j != i ==> w[j] == t[j];
    }
  }

  // --- Whole editing sessions.

  datatype Edit = Type(row: int, col: int, ch: char) | Rub(row: int, col: int)
                | Break(row: int, col: int) | Join(row: int)
                | Replace(row: int, text: string) | Add(row: int, text: string) | Remove(row: int)

  function Edited(t: seq<string>, e: Edit): seq<string> {
    match e
    case Type(row, col, ch) => InsertChar(t, row, col, ch)
    case Rub(row, col) => DeleteChar(t, row, col)
    case Break(row, col) => SplitLine(t, row, col)
    case Join(row) => JoinLines(t, row)
    case Replace(row, text) => SetLine(t, row, text)
    case Add(row, text) => InsertLine(t, row, text)
    case Remove(row) => DeleteLine(t, row)
  }

  // Line breaks come in through splitting, not as characters.
  predicate Plain(e: Edit) {
    match e
    case Type(_, _, ch) => ch != '\n'
    case Replace(_, text) => OneLine(text)
    case Add(_, text) => OneLine(text)
    case _ => true
  }

  // The same edit on the text of the lines: one insertion, one deletion, or one of each, at
  // the offset that row and column have in it.
  function EditedAt(t: seq<string>, e: Edit): string
    requires |t| > 0
  {
    var s := Flat(t);
    match e
    case Type(row, col, ch) =>
      if 0 <= row < |t| then
        var c := Clamp(col, |t[row]|);
        InsertCharInText(t, row, col, ch);
        if ch == '\0' then Erased(s, Offset(t, row, c), |t[row]| - c) else Inserted(s, Offset(t, row, c), [ch])
      else s
    case Rub(row, col) =>
      if 0 <= row < |t| && 0 <= col < |t[row]| then
        DeleteCharInText(t, row, col);
        Erased(s, Offset(t, row, col), 1)
      else s
    case Break(row, col) =>
      if 0 <= row < |t| then
        SplitInText(t, row, col);
        Inserted(s, Offset(t, row, Clamp(col, |t[row]|)), "\n")
      else s
    case Join(row) =>
      if 0 <= row < |t| - 1 then
        JoinInText(t, row);
        Erased(s, Offset(t, row, |t[row]|), 1)
      else s
    case Replace(row, text) =>
      if 0 <= row < |t| then
        SetLineInText(t, row, text);
        Inserted(Erased(s, Offset(t, row, 0), |t[row]|), Offset(t, row, 0), text)
      else s
    case Add(row, text) =>
      InsertLineInText(t, row, text);
      var k := Clamp(row, |t|);
      if k < |t| then Inserted(s, Offset(t, k, 0), text + "\n") else s + "\n" + text
    case Remove(row) =>
      if !(0 <= row < |t|) then s
      else
        DeleteLineInText(t, row);
        if row < |t| - 1 then Erased(s, Offset(t, row, 0), |t[row]| + 1)
        else if row > 0 then s[..|s| - |t[row]| - 1]
        else ""
  }

  // The same edit with row and column read off the text alone.
  function TextEdited(s: string, e: Edit): string {
    EditedAt(Lines(s), e)
  }

  // Every edit of any lines is that edit of their text.
  lemma EditInText(t: seq<string>, e: Edit)
    requires |t| > 0
    ensures |Edited(t, e)| > 0
    ensures Flat(Edited(t, e)) == EditedAt(t, e)
  {
    hide Flat, Inserted, Erased, Offset;
    match e
    case Type(row, col, ch) => if 0 <= row < |t| { InsertCharInText(t, row, col, ch); }
    case Rub(row, col) => if 0 <= row < |t| && 0 <= col < |t[row]| { DeleteCharInText(t, row, col); }
    case Break(row, col) => if 0 <= row < |t| { SplitInText(t, row, col); }
    case Join(row) => if 0 <= row < |t| - 1 { JoinInText(t, row); }
    case Replace(row, text) => if 0 <= row < |t| { SetLineInText(t, row, text); }
    case Add(row, text) => InsertLineInText(t, row, text);
    case Remove(row) => if 0 <= row < |t| { DeleteLineInText(t, row); }
  }

  lemma PlainKeepsForm(t: seq<string>, e: Edit)
    requires WellFormed(t) && Plain(e)
    ensures WellFormed(Edited(t, e))
  {
    hide WellFormed;
    FormIsSome(t);
    match e
    case Type(row, col, ch) => if 0 <= row < |t| { InsertCharKeepsFormIff(t, row, col, ch); }
    case Rub(row, col) => EditsKeepForm(t, row, col);
    case Break(row, col) => EditsKeepForm(t, row, col);
    case Join(row) => EditsKeepForm(t, row, 0);
    case Replace(row, text) => WholeLineKeepsFormIff(t, row, text);
    case Add(row, text) => WholeLineKeepsFormIff(t, row, text);
    case Remove(row) => EditsKeepForm(t, row, 0);
  }

  // On well-formed lines row and column can be read off the text, whatever is edited; and a
  // plain edit leaves them well formed.
  lemma EditRefines(t: seq<string>, e: Edit)
    requires WellFormed(t)
    ensures |Edited(t, e)| > 0 && Flat(Edited(t, e)) == TextEdited(Flat(t), e)
    ensures Plain(e) ==> WellFormed(Edited(t, e))
  {
    hide Flat, Edited, EditedAt, WellFormed, Lines, Plain;
    FormIsSome(t);
    LinesOfFlat(t);
    EditInText(t, e);
    if Plain(e) { PlainKeepsForm(t, e); }
  }

  lemma FormIsSome(t: seq<string>)
    requires WellFormed(t)
    ensures |t| > 0
  {}

  function EditedAll(t: seq<string>, es: seq<Edit>): seq<string>
    decreases |es|
  {
    if es == [] then t else EditedAll(Edited(t, es[0]), es[1..])
  }

  function TextEditedAll(s: string, es: seq<Edit>): string
    decreases |es|
  {
    if es == [] then s else TextEditedAll(TextEdited(s, es[0]), es[1..])
  }

  lemma {:induction false} EditedOneMore(t: seq<string>, es: seq<Edit>, e: Edit)
    ensures EditedAll(t, es + [e]) == Edited(EditedAll(t, es), e)
    decreases |es|
  {
    hide Edited;
    if es == [] {
      OneEdit(t, e);
      assert [] + [e] == [e];
    } else {
      assert (es + [e])[1..] == es[1..] + [e];
      EditedOneMore(Edited(t, es[0]), es[1..], e);
    }
  }

  lemma {:induction false} SomeLineLeft(t: seq<string>, es: seq<Edit>)
    requires |t| > 0
    ensures |EditedAll(t, es)| > 0
    decreases |es|
  {
    hide Edited;
    if es != [] {
      EditInText(t, es[0]);
      SomeLineLeft(Edited(t, es[0]), es[1..]);
    }
  }

  // In any session, each step is that edit of the text, at the offset its row and column
  // have in the lines so far; and saving writes the text and one line break.
  lemma SessionInText(t: seq<string>, es: seq<Edit>, i: nat)
    requires |t| > 0 && i < |es|
    ensures |EditedAll(t, es[..i])| > 0 && |EditedAll(t, es[..i + 1])| > 0
    ensures Flat(EditedAll(t, es[..i + 1])) == EditedAt(EditedAll(t, es[..i]), es[i])
    ensures ToString(EditedAll(t, es[..i + 1])) == EditedAt(EditedAll(t, es[..i]), es[i]) + "\n"
  {
    hide Flat, Edited, EditedAt, ToString, EditedAll;
    SomeLineLeft(t, es[..i]);
    EditedOneMore(t, es[..i], es[i]);
    assert es[..i + 1] == es[..i] + [es[i]];
    EditInText(EditedAll(t, es[..i]), es[i]);
    HeadsIsFlat(EditedAll(t, es[..i + 1]));
  }

  // Refinement over a session in which only the last edit may put line breaks into a line:
  // editing lines comes to the same as editing the text alone.
  lemma {:induction false} SessionRefines(t: seq<string>, es: seq<Edit>)
    requires WellFormed(t)
    requires forall i :: 0 <= i < |es| - 1 ==> Plain(es[i])
    ensures |EditedAll(t, es)| > 0
    ensures Flat(EditedAll(t, es)) == TextEditedAll(Flat(t), es)
    ensures ToString(EditedAll(t, es)) == TextEditedAll(Flat(t), es) + "\n"
    ensures (es != [] ==> Plain(es[|es| - 1])) ==> WellFormed(EditedAll(t, es))
    decreases |es|
  {
    hide Flat, Edited, TextEdited, Plain, ToString, WellFormed;
    FormIsSome(t);
    if es == [] {
      HeadsIsFlat(t);
    } else {
      EditRefines(t, es[0]);
      if |es| == 1 {
        HeadsIsFlat(Edited(t, es[0]));
        OneEdit(t, es[0]);
        assert es == [es[0]];
      } else {
        FormIsSome(Edited(t, es[0]));
        SessionRefines(Edited(t, es[0]), es[1..]);
        assert es[1..][|es| - 2] == es[|es| - 1];
      }
    }
  }

  lemma OneEdit(t: seq<string>, e: Edit)
    ensures EditedAll(t, [e]) == Edited(t, e)
    ensures |t| > 0 ==> TextEditedAll(Flat(t), [e]) == TextEdited(Flat(t), e)
  {
    hide Edited, TextEdited;
    assert [e][1..] == [];
  }

  // Why only the last: after a typed line break the text has a row more than the lines, and
  // an edit of that row, which the text would show, is ignored.
  lemma TypedBreakHidesRow()
    ensures WellFormed(["ab"])
    ensures EditedAll(["ab"], [Type(0, 1, '\n'), Rub(1, 0)]) == ["a\nb"]
    ensures Flat(["a\nb"]) == "a\nb" && TextEdited("a\nb", Rub(1, 0)) == "a\n"
  {
    hide TextEdited, Lines, Flat;
    TypedBreak();
    EditedOneMore(["ab"], [Type(0, 1, '\n')], Rub(1, 0));
    OneEdit(["ab"], Type(0, 1, '\n'));
    assert [Type(0, 1, '\n')] + [Rub(1, 0)] == [Type(0, 1, '\n'), Rub(1, 0)];
    RowSeen();
  }

  lemma TypedBreak()
    ensures Edited(["ab"], Type(0, 1, '\n')) == ["a\nb"] && Edited(["a\nb"], Rub(1, 0)) == ["a\nb"]
    ensures Flat(["a\nb"]) == "a\nb"
  {
    assert "ab"[..1] + ['\n'] + "ab"[1..] == "a\nb";
  }

  lemma RowSeen()
    ensures TextEdited("a\nb", Rub(1, 0)) == "a\n"
  {
    hide Lines, Flat;
    var t := ["a", "b"];
    assert Flat(t) == "a\nb" && Flat(["a", ""]) == "a\n" by { TwoLines("a", "b"); TwoLines("a", ""); }
    assert "b"[..0] + "b"[1..] == "";
    assert Edited(t, Rub(1, 0)) == t[1 := ""] == ["a", ""];
    EditRefines(t, Rub(1, 0));
  }

  lemma TwoLines(x: string, y: string)
    ensures Flat([x, y]) == x + "\n" + y
  {
    assert [x, y][1..] == [y];
  }

  // --- Searching.

  predicate MatchAt(line: string, c: int, needle: string) {
    0 <= c <= |line| - |needle| && line[c..c + |needle|] == needle
  }

  // First column from c on where the needle stands in the line, or -1.
  function ScanLine(line: string, needle: string, c: nat): (r: int)
    ensures r == -1 || (r >= c && MatchAt(line, r, needle))
    ensures forall k :: c <= k && (r == -1 || k < r) ==> !MatchAt(line, k, needle)
    decreases |line| - c
  {
    if c > |line| - |needle| then -1
    else if MatchAt(line, c, needle) then c
    else ScanLine(line, needle, c + 1)
  }

  // Rows are visited in circular order; only the first is entered at a column.
  function RowAt(t: seq<string>, fromRow: nat, i: nat): (r: nat)
    requires |t| > 0
    ensures r < |t|
  { (fromRow + i) % |t| }

  function StartCol(fromCol: nat, i: nat): nat {
    if i == 0 then fromCol else 0
  }

  predicate Eligible(t: seq<string>, needle: string, fromRow: nat, fromCol: nat, i: nat, c: int)
    requires |t| > 0
  {
    i < |t| && c >= StartCol(fromCol, i) && MatchAt(t[RowAt(t, fromRow, i)], c, needle)
  }

  // A match by the number of rows passed to reach it.
  datatype Found = NotFound | After(rows: nat, col: nat)

  function FindFrom(t: seq<string>, needle: string, fromRow: nat, fromCol: nat, i: nat): (f: Found)
    requires |t| > 0 && i <= |t|
    ensures f.After? ==> i <= f.rows && Eligible(t, needle, fromRow, fromCol, f.rows, f.col)
    ensures forall j: nat, c :: i <= j && Eligible(t, needle, fromRow, fromCol, j, c) ==>
      f.After? && (f.rows < j || (f.rows == j && f.col <= c))
    decreases |t| - i
  {
    if i == |t| then NotFound
    else
      var c := ScanLine(t[RowAt(t, fromRow, i)], needle, StartCol(fromCol, i));
      if c >= 0 then After(i, c) else FindFrom(t, needle, fromRow, fromCol, i + 1)
  }

  // The answer given to the caller: row and column packed in one number, or -1.
  function FindAnswer(t: seq<string>, needle: string, fromRow: nat, fromCol: nat): int
    requires |t| > 0
  {
    if needle == "" then -1
    else
      match FindFrom(t, needle, fromRow, fromCol, 0)
      case NotFound => -1
      case After(i, c) => RowAt(t, fromRow, i) * 0x1_0000_0000 + c
  }

  // How many rows a search passes before it reaches row r.
  lemma RowReached(t: seq<string>, fromRow: nat, r: nat)
    requires r < |t|
    ensures var i := (r - fromRow) % |t|; 0 <= i < |t| && RowAt(t, fromRow, i) == r
  {
    var n := |t|;
    var q, i := (r - fromRow) / n, (r - fromRow) % n;
    assert fromRow + i == r + n * -q;
    SameResidue(r, n, -q);
  }

  lemma SameResidue(r: int, n: nat, q: int)
    requires 0 <= r < n
    ensures (r + n * q) % n == r
  {
    QuotientUnique(r + n * q, n, q, r);
  }

  // The search comes back empty-handed exactly when every occurrence lies in the starting
  // row before the starting column: the wrap-around does not return there.
  lemma FindMissesIff(t: seq<string>, needle: string, fromRow: nat, fromCol: nat)
    requires |t| > 0 && needle != ""
    ensures FindAnswer(t, needle, fromRow, fromCol) == -1
      <==> forall r: nat, c: nat :: r < |t| && MatchAt(t[r], c, needle) ==>
             r == fromRow % |t| && c < fromCol
  {
    var f := FindFrom(t, needle, fromRow, fromCol, 0);
    if f.After? {
      var r := RowAt(t, fromRow, f.rows);
      assert MatchAt(t[r], f.col, needle);
      RowDistinct(t, fromRow, f.rows);
    } else {
      forall r: nat, c: nat | r < |t| && MatchAt(t[r], c, needle)
        ensures r == fromRow % |t| && c < fromCol
      {
        RowReached(t, fromRow, r);
        assert !Eligible(t, needle, fromRow, fromCol, (r - fromRow) % |t|, c);
      }
    }
  }

  // The smallest case: searching "ab" for "a" from column 1 finds nothing.
  lemma FindMissesStart()
    ensures MatchAt(["ab"][0], 0, "a") && FindAnswer(["ab"], "a", 0, 1) == -1
  {
    var t := ["ab"];
    assert "ab"[0..1] == "a" && "ab"[1..2] == "b" && "b"[0] != "a"[0];
    assert forall r: nat, c: nat :: r < |t| && MatchAt(t[r], c, "a") ==> r == 0 && c < 1;
    FindMissesIff(t, "a", 0, 1);
  }

  // Rows passed on the way are not the starting row again.
  lemma RowDistinct(t: seq<string>, fromRow: nat, i: nat)
    requires i < |t|
    ensures RowAt(t, fromRow, i) == fromRow % |t| <==> i == 0
  {
    StepResidue(fromRow, |t|, i);
  }

  lemma StepResidue(x: nat, n: nat, i: nat)
    requires i < n
    ensures (x + i) % n == if x % n + i < n then x % n + i else x % n + i - n
  {
    var q, r := x / n, x % n;
    assert x == n * q + r;
    if r + i < n {
      QuotientUnique(x + i, n, q, r + i);
    } else {
      assert n * (q + 1) == n * q + n;
      QuotientUnique(x + i, n, q + 1, r + i - n);
    }
  }

  // A reported match is one, and no eligible match comes before it on the way round.
  lemma FindIsNearest(t: seq<string>, needle: string, fromRow: nat, fromCol: nat, r: nat, c: nat)
    requires |t| > 0 && needle != ""
    requires r < |t| && MatchAt(t[r], c, needle) && (r == fromRow % |t| ==> c >= fromCol)
    ensures var f := FindFrom(t, needle, fromRow, fromCol, 0);
      && f.After? && MatchAt(t[RowAt(t, fromRow, f.rows)], f.col, needle)
      && (f.rows < (r - fromRow) % |t| || (f.rows == (r - fromRow) % |t| && f.col <= c))
  {
    RowReached(t, fromRow, r);
    var i := (r - fromRow) % |t|;
    RowDistinct(t, fromRow, i);
    assert Eligible(t, needle, fromRow, fromCol, i, c);
  }

  // The answer itself: row and column of a match, at or after the starting column if it is in the starting row,
  // and on the way round from there no other match comes before it.
  lemma FindAnswerIsNearest(t: seq<string>, needle: string, fromRow: nat, fromCol: nat)
    requires |t| > 0 && needle != "" && forall i :: 0 <= i < |t| ==> |t[i]| < 0x8000_0000
    requires FindAnswer(t, needle, fromRow, fromCol) != -1
    ensures var a := FindAnswer(t, needle, fromRow, fromCol);
      var r, c := a / 0x1_0000_0000, a % 0x1_0000_0000;
      && 0 <= r < |t| && 0 <= c && c + |needle| <= |t[r]| && t[r][c..c + |needle|] == needle
      && (r == fromRow % |t| ==> c >= fromCol)
      && forall r': nat, c': nat ::
           r' < |t| && MatchAt(t[r'], c', needle) && (r' == fromRow % |t| ==> c' >= fromCol) ==>
             (r - fromRow) % |t| < (r' - fromRow) % |t|
             || ((r - fromRow) % |t| == (r' - fromRow) % |t| && c <= c')
  {
    hide FindFrom, MatchAt, RowAt, StartCol;
    var f := FindFrom(t, needle, fromRow, fromCol, 0);
    AnswerHolds(t, needle, fromRow, fromCol, f);
    var r, c := RowAt(t, fromRow, f.rows), f.col;
    PackedApart(r, c);
    RowsPassed(t, fromRow, f.rows);
    forall r': nat, c': nat
      | r' < |t| && MatchAt(t[r'], c', needle) && (r' == fromRow % |t| ==> c' >= fromCol)
      ensures (r - fromRow) % |t| < (r' - fromRow) % |t|
              || ((r - fromRow) % |t| == (r' - fromRow) % |t| && c <= c')
    {
      FindIsNearest(t, needle, fromRow, fromCol, r', c');
    }
  }

  lemma AnswerHolds(t: seq<string>, needle: string, fromRow: nat, fromCol: nat, f: Found)
    requires |t| > 0 && needle != "" && f == FindFrom(t, needle, fromRow, fromCol, 0)
    requires forall i :: 0 <= i < |t| ==> |t[i]| < 0x8000_0000
    requires FindAnswer(t, needle, fromRow, fromCol) != -1
    ensures f.After? && f.rows < |t| && f.col < 0x8000_0000
    ensures var r := RowAt(t, fromRow, f.rows);
      && FindAnswer(t, needle, fromRow, fromCol) == r * 0x1_0000_0000 + f.col
      && f.col + |needle| <= |t[r]| && t[r][f.col..f.col + |needle|] == needle
      && (r == fromRow % |t| ==> f.col >= fromCol)
  {
    RowDistinct(t, fromRow, f.rows);
  }

  lemma RowsPassed(t: seq<string>, fromRow: nat, i: nat)
    requires i < |t|
    ensures (RowAt(t, fromRow, i) - fromRow) % |t| == i
  {
    var n := |t|;
    var q := (fromRow + i) / n;
    assert (fromRow + i) % n - fromRow == i + n * -q;
    SameResidue(i, n, -q);
  }

  // Both halves of the packed answer come back out.
  lemma PackedApart(r: nat, c: nat)
    requires c < 0x8000_0000
    ensures (r * 0x1_0000_0000 + c) / 0x1_0000_0000 == r
    ensures (r * 0x1_0000_0000 + c) % 0x1_0000_0000 == c
  {}
}

module Editors {
  import opened EditorSpec

  class Editor {
    var slots: array<string>
    var lineCount: nat
    var dirty: bool

    ghost predicate Valid()
      reads this`slots, this`lineCount
    { 0 < lineCount <= slots.Length }

    ghost function Contents(): seq<string>
      reads this`slots, this`lineCount, slots
      requires lineCount <= slots.Length
    { slots[..lineCount] }

    constructor ()
      ensures Valid() && fresh(slots) && Contents() == [""] && !dirty
    {
      slots := new string[64](_ => "");
      lineCount := 1;
      dirty := false;
    }

    // Doubles the array until it is large enough.
    method EnsureCapacity(need: nat)
      requires lineCount <= slots.Length
      modifies this`slots
      ensures slots.Length >= need && lineCount <= slots.Length
      ensures slots == old(slots) || fresh(slots)
      ensures Contents() == old(Contents())
    {
      if need <= slots.Length { return; }
      var newCap := if slots.Length > 0 then slots.Length * 2 else 64;
      while newCap < need
        invariant newCap > 0 && newCap >= slots.Length
      {
        newCap := newCap * 2;
      }
      var bigger := new string[newCap](_ => "");
      forall i | 0 <= i < lineCount {
        bigger[i] := slots[i];
      }
      slots := bigger;
    }

    // Moves the lines from idx on one place down and fills the gap.
    method OpenGap(idx: nat, text: string)
      requires idx <= lineCount < slots.Length
      modifies this`lineCount, slots
      ensures lineCount == old(lineCount) + 1
      ensures Contents() == old(Contents()[..idx]) + [text] + old(Contents()[idx..])
    {
      ghost var before := slots[..];
      forall i | idx <= i < lineCount {
        slots[i + 1] := slots[i];
      }
      slots[idx] := text;
      lineCount := lineCount + 1;
      GapOpened(before, slots[..], idx, lineCount - 1, text);
    }

    lemma GapOpened(s: seq<string>, r: seq<string>, idx: nat, n: nat, text: string)
      requires idx <= n < |s| == |r|
      requires forall i :: 0 <= i < idx ==> r[i] == s[i]
      requires r[idx] == text
      requires forall i :: idx < i <= n ==> r[i] == s[i - 1]
      ensures r[..n + 1] == s[..n][..idx] + [text] + s[..n][idx..]
    {}

    method CloseGap(idx: nat)
      requires idx < lineCount <= slots.Length
      modifies this`lineCount, slots
      ensures lineCount == old(lineCount) - 1
      ensures Contents() == old(Contents()[..idx]) + old(Contents()[idx + 1..])
    {
      ghost var before := slots[..];
      forall i | idx <= i < lineCount - 1 {
        slots[i] := slots[i + 1];
      }
      lineCount := lineCount - 1;
      GapClosed(before, slots[..], idx, lineCount + 1);
    }

    lemma GapClosed(s: seq<string>, r: seq<string>, idx: nat, n: nat)
      requires idx < n <= |s| == |r|
      requires forall i :: 0 <= i < idx ==> r[i] == s[i]
      requires forall i :: idx <= i < n - 1 ==> r[i] == s[i + 1]
      ensures r[..n - 1] == s[..n][..idx] + s[..n][idx + 1..]
    {}

    method Put(idx: nat, text: string)
      requires idx < lineCount <= slots.Length
      modifies slots
      ensures Contents() == old(Contents())[idx := text]
    { slots[idx] := text; }

    method Append(text: string)
      requires lineCount <= slots.Length
      modifies this`slots, this`lineCount, slots
      ensures lineCount == old(lineCount) + 1 && lineCount <= slots.Length
      ensures slots == old(slots) || fresh(slots)
      ensures Contents() == old(Contents()) + [text]
    {
      EnsureCapacity(lineCount + 1);
      slots[lineCount] := text;
      lineCount := lineCount + 1;
    }

    method Load(content: string)
      requires Valid()
      modifies this, slots
      ensures Valid() && Contents() == Lines(content) && !dirty
      ensures slots == old(slots) || fresh(slots)
    {
      hide Lines, NextBreak;
      lineCount := 0;
      dirty := false;
      LinesOfEmpty();
      if content == "" {
        Append("");
        return;
      }
      var p: nat := 0;
      assert content[0..] == content;
      while p < |content|
        invariant p <= |content| && lineCount <= slots.Length && !dirty
        invariant slots == old(slots) || fresh(slots)
        invariant Contents() + Lines(content[p..]) == Lines(content)
        invariant p > 0 ==> content[p - 1] == '\n'
        invariant p == |content| ==> p > 0
      {
        var nl := FindBreak(content, p);
        LinesFrom(content, p);
        ghost var before := Contents();
        Append(content[p..nl]);
        if nl < |content| {
          Grouped(before, content[p..nl], Lines(content[nl + 1..]));
          p := nl + 1;
        } else {
          LastOfTail(content, p);
          return;
        }
      }
      assert content[p..] == "";
      Append("");
    }

    method FindBreak(s: string, start: nat) returns (p: nat)
      requires start <= |s|
      ensures p == NextBreak(s, start)
    {
      p := start;
      while p < |s| && s[p] != '\n'
        invariant start <= p <= |s| && NextBreak(s, p) == NextBreak(s, start)
      {
        p := p + 1;
      }
    }

    method Set(idx: int, text: string)
      requires Valid()
      modifies this`dirty, slots
      ensures Valid() && Contents() == SetLine(old(Contents()), idx, text)
      ensures dirty == (old(dirty) || 0 <= idx < lineCount)
    {
      if idx < 0 || idx >= lineCount { return; }
      Put(idx, text);
      dirty := true;
    }

    method Insert(idx: int, text: string)
      requires Valid()
      modifies this, slots
      ensures Valid() && Contents() == InsertLine(old(Contents()), idx, text) && dirty
      ensures slots == old(slots) || fresh(slots)
    {
      var i := idx;
      if i < 0 { i := 0; }
      if i > lineCount { i := lineCount; }
      EnsureCapacity(lineCount + 1);
      OpenGap(i, text);
      dirty := true;
    }

    method Delete(idx: int)
      requires Valid()
      modifies this, slots
      ensures Valid() && Contents() == DeleteLine(old(Contents()), idx)
      ensures dirty == (old(dirty) || 0 <= idx < old(lineCount))
      ensures slots == old(slots) || fresh(slots)
    {
      if idx < 0 || idx >= lineCount { return; }
      CloseGap(idx);
      if lineCount == 0 { Append(""); }
      dirty := true;
    }

    method TypeChar(row: int, col: int, ch: char)
      requires Valid()
      modifies this`dirty, slots
      ensures Valid() && Contents() == InsertChar(old(Contents()), row, col, ch)
      ensures dirty == (old(dirty) || 0 <= row < lineCount)
    {
      if row < 0 || row >= lineCount { return; }
      var line := slots[row];
      var c := col;
      if c < 0 { c := 0; }
      if c > |line| { c := |line|; }
      Put(row, if ch == '\0' then line[..c] else line[..c] + [ch] + line[c..]);
      dirty := true;
    }

    method EraseChar(row: int, col: int)
      requires Valid()
      modifies this`dirty, slots
      ensures Valid() && Contents() == DeleteChar(old(Contents()), row, col)
      ensures dirty == (old(dirty) || (0 <= row < lineCount && 0 <= col < |old(Contents())[row]|))
    {
      if row < 0 || row >= lineCount { return; }
      var line := slots[row];
      if col < 0 || col >= |line| { return; }
      Put(row, line[..col] + line[col + 1..]);
      dirty := true;
    }

    method Split(row: int, col: int)
      requires Valid()
      modifies this, slots
      ensures Valid() && Contents() == SplitLine(old(Contents()), row, col)
      ensures dirty == (old(dirty) || 0 <= row < old(lineCount))
      ensures slots == old(slots) || fresh(slots)
    {
      if row < 0 || row >= lineCount { return; }
      var line := slots[row];
      var c := col;
      if c < 0 { c := 0; }
      if c > |line| { c := |line|; }
      Put(row, line[..c]);
      Insert(row + 1, line[c..]);
    }

    method Join(row: int)
      requires Valid()
      modifies this`dirty, this`lineCount, slots
      ensures Valid() && Contents() == JoinLines(old(Contents()), row)
      ensures dirty == (old(dirty) || 0 <= row < old(lineCount) - 1)
    {
      if row < 0 || row >= lineCount - 1 { return; }
      Put(row, slots[row] + slots[row + 1]);
      CloseGap(row + 1);
      dirty := true;
    }

    method ToText() returns (text: string)
      requires Valid()
      ensures text == ToString(Contents())
    {
      text := "";
      var i: nat := 0;
      assert Contents()[..0] == [];
      while i < lineCount
        invariant i <= lineCount && text == Heads(Contents()[..i])
      {
        HeadsSnoc(Contents()[..i], slots[i]);
        assert Contents()[..i + 1] == Contents()[..i] + [slots[i]];
        text := text + slots[i] + "\n";
        i := i + 1;
      }
      assert Contents()[..i] == Contents();
    }

    // The caller's position must not be negative; a row past the end wraps around.
    method Find(needle: string, fromRow: nat, fromCol: nat) returns (packed: int)
      requires Valid()
      ensures packed == FindAnswer(Contents(), needle, fromRow, fromCol)
    {
      if needle == "" { return -1; }
      var i: nat := 0;
      while i < lineCount
        invariant i <= lineCount
        invariant FindFrom(Contents(), needle, fromRow, fromCol, 0) == FindFrom(Contents(), needle, fromRow, fromCol, i)
      {
        var r := (fromRow + i) % lineCount;
        var c := FindInLine(slots[r], needle, if i == 0 then fromCol else 0);
        if c >= 0 { return r * 0x1_0000_0000 + c; }
        i := i + 1;
      }
      return -1;
    }
  }

  lemma LinesFrom(s: string, p: nat)
    requires p <= |s|
    ensures var n := NextBreak(s, p);
      Lines(s[p..]) == if n == |s| then [s[p..]] else [s[p..n]] + Lines(s[n + 1..])
  {
    var n := NextBreak(s, p);
    BreakIsAt(s[p..], 0, n - p);
    assert n < |s| ==> s[p..][n - p + 1..] == s[n + 1..] && s[p..][..n - p] == s[p..n];
  }

  lemma LinesOfEmpty()
    ensures Lines("") == [""]
  {}

  lemma Grouped(a: seq<string>, x: string, b: seq<string>)
    ensures a + ([x] + b) == a + [x] + b
  {}

  lemma LastOfTail(s: string, p: nat)
    requires p <= |s|
    ensures s[p..|s|] == s[p..]
  {}

  lemma {:induction false} HeadsSnoc(t: seq<string>, x: string)
    ensures Heads(t + [x]) == Heads(t) + x + "\n"
  {
    if t == [] {
      assert ([] + [x])[1..] == [];
      assert Heads([x]) == x + "\n" + "";
    } else {
      assert (t + [x])[1..] == t[1..] + [x];
      HeadsSnoc(t[1..], x);
      Concat(t[0] + "\n", Heads(t[1..]) + x, "\n");
      Concat(t[0] + "\n", Heads(t[1..]), x);
    }
  }

  method FindInLine(line: string, needle: string, start: nat) returns (c: int)
    ensures c == ScanLine(line, needle, start)
  {
    c := start;
    while c <= |line| - |needle|
      invariant c >= start && ScanLine(line, needle, c) == ScanLine(line, needle, start)
    {
      if line[c..c + |needle|] == needle { return; }
      c := c + 1;
    }
    return -1;
  }
}
