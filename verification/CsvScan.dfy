// Rows and open ends of a text, read off character by character, without parsing fields.

module CsvScan {
  import opened CsvSpec

  // Where a reader stands: at the start of a row (after a CR, a LF may still belong to it),
  // after a comma, in a plain field, in a quoted field, or after a quote that may close it.
  datatype Place = Fresh | Cr | Open | Plain | Inside | Quote

  function Next(p: Place, c: char): Place {
    if p == Inside then (if c == '"' then Quote else Inside)
    else if c == '"' then (if p == Plain then Plain else Inside)
    else if c == ',' then Open
    else if c == '\r' then Cr
    else if c == '\n' then Fresh
    else Plain
  }

  // The character ends a row; the LF of a CR LF does not end another.
  predicate EndsRow(p: Place, c: char) {
    p != Inside && (c == '\r' || (c == '\n' && p != Cr))
  }

  function Last(p: Place, t: string): Place
    decreases |t|
  {
    if t == "" then p else Last(Next(p, t[0]), t[1..])
  }

  function Breaks(p: Place, t: string): nat
    decreases |t|
  {
    if t == "" then 0 else (if EndsRow(p, t[0]) then 1 else 0) + Breaks(Next(p, t[0]), t[1..])
  }

  predicate Unfinished(p: Place) {
    p == Plain || p == Inside || p == Quote
  }

  function RowsFrom(p: Place, t: string): nat {
    Breaks(p, t) + if Unfinished(Last(p, t)) then 1 else 0
  }

  // The rows of a text: one for each row end, and one for what follows the last, unless
  // that is nothing, or ends in a comma.
  function RowCount(text: string): nat {
    RowsFrom(Fresh, text)
  }

  // The text ends in a comma that lies outside quoted fields.
  predicate EndsOpen(text: string) {
    Last(Fresh, text) == Open
  }

  // --- Fields.

  // Two places from which the same text gives the same rows and the same end.
  ghost predicate Alike(p: Place, t: string, q: Place, u: string) {
    Breaks(p, t) == Breaks(q, u) && Last(p, t) == Last(q, u)
  }

  lemma AlikeNext(p: Place, q: Place, t: string)
    requires t != "" && Next(p, t[0]) == Next(q, t[0]) && (EndsRow(p, t[0]) <==> EndsRow(q, t[0]))
    ensures Alike(p, t, q, t)
  {}

  lemma TwoSteps(p: Place, t: string)
    requires |t| > 1
    ensures var q := Next(p, t[0]);
      && Last(p, t) == Last(Next(q, t[1]), t[2..])
      && Breaks(p, t) == (if EndsRow(p, t[0]) then 1 else 0) + (if EndsRow(q, t[1]) then 1 else 0)
                         + Breaks(Next(q, t[1]), t[2..])
  {
    var u := t[1..];
    assert u[0] == t[1] && u[1..] == t[2..];
  }

  lemma {:induction false} PlainScanned(t: string, field: string)
    ensures var r := Unquoted(t, field).rest;
      if r == "" then Last(Plain, t) == Plain && Breaks(Plain, t) == 0 else Alike(Plain, t, Plain, r)
  {
    hide Kept;
    if t != "" && !Ends(t[0]) {
      PlainScanned(t[1..], Kept(field, t[0]));
    }
  }

  lemma {:induction false} QuotedScanned(t: string, field: string)
    ensures var r := Quoted(t, field).rest;
      if r == "" then Unfinished(Last(Inside, t)) && Breaks(Inside, t) == 0
      else r[0] != '"' && Alike(Inside, t, Quote, r)
    decreases |t|
  {
    hide Kept;
    if t != "" {
      var u := t[1..];
      if t[0] != '"' {
        QuotedScanned(u, Kept(field, t[0]));
      } else if |t| > 1 && t[1] == '"' {
        QuotedScanned(t[2..], field + ['"']);
        TwoSteps(Inside, t);
      } else {
        assert u != "" ==> u[0] == t[1];
      }
    }
  }

  // A field is followed by its end, or by characters that start another field.
  lemma FieldScanned(t: string, p: Place)
    requires t != "" && (p == Fresh || p == Open)
    ensures var r := NextField(t).rest;
      if r == "" then Unfinished(Last(p, t)) && Breaks(p, t) == 0
      else Alike(p, t, Fresh, r)
  {
    hide Quoted, Unquoted;
    var r := NextField(t).rest;
    if t[0] == '"' {
      QuotedScanned(t[1..], "");
      if r != "" { AlikeNext(Quote, Fresh, r); }
    } else if Ends(t[0]) {
      EmptyField(t);
      AlikeNext(p, Fresh, t);
    } else {
      FirstPlain(t);
      PlainScanned(t[1..], Kept("", t[0]));
      if r != "" { AlikeNext(Plain, Fresh, r); }
    }
  }

  lemma EmptyField(t: string)
    requires t != "" && Ends(t[0])
    ensures Unquoted(t, "").rest == t
  {}

  lemma FirstPlain(t: string)
    requires t != "" && !Ends(t[0])
    ensures Unquoted(t, "") == Unquoted(t[1..], Kept("", t[0]))
  {}

  lemma BreakScanned(t: string)
    requires t != "" && (t[0] == '\n' || t[0] == '\r')
    ensures RowsFrom(Fresh, t) == 1 + RowsFrom(Fresh, AfterBreak(t))
    ensures Last(Fresh, t) == Open <==> Last(Fresh, AfterBreak(t)) == Open
  {
    hide Last, Breaks;
    var u := t[1..];
    OneStep(Fresh, t);
    if t[0] == '\r' {
      if u == "" {
        NoText(Cr);
        NoText(Fresh);
      } else if u[0] == '\n' {
        OneStep(Cr, u);
        assert u[1..] == t[2..];
      } else {
        OneStep(Cr, u);
        OneStep(Fresh, u);
      }
    }
  }

  lemma OneStep(p: Place, t: string)
    requires t != ""
    ensures Last(p, t) == Last(Next(p, t[0]), t[1..])
    ensures Breaks(p, t) == (if EndsRow(p, t[0]) then 1 else 0) + Breaks(Next(p, t[0]), t[1..])
  {}

  lemma NoText(p: Place)
    ensures Last(p, "") == p && Breaks(p, "") == 0
  {}

  // --- Whole texts.

  // The parser's rows and its open row are those of the scan, as far as there is room.
  lemma {:induction false} ParseScanned(t: string, p: Place, current: seq<string>, room: nat)
    requires p == Fresh || p == Open
    requires room == 0 ==> current == []
    requires t == "" ==> (current != [] <==> p == Open)
    ensures var r := Parse(t, current, room);
      && |r.rows| == (if RowsFrom(p, t) < room then RowsFrom(p, t) else room)
      && (r.pending != [] <==> RowsFrom(p, t) < room && Last(p, t) == Open)
    decreases |t|
  {
    hide NextField, AfterBreak;
    if t != "" && room > 0 {
      var f := NextField(t);
      var cells := current + [f.field];
      FieldScanned(t, p);
      if f.rest == "" {
        NothingAfter(room - 1);
      } else if f.rest[0] == ',' {
        ParseScanned(f.rest[1..], Open, cells, room);
      } else if f.rest[0] == '\n' || f.rest[0] == '\r' {
        BreakScanned(f.rest);
        ParseScanned(AfterBreak(f.rest), Fresh, [], room - 1);
      } else {
        ParseScanned(f.rest, Fresh, cells, room);
      }
    }
  }

  lemma NothingAfter(room: nat)
    ensures AfterBreak("") == "" && Parse("", [], room) == Parsed([], [])
  {}

  // How many rows a text gives, and when it leaves fields behind that belong to none:
  // exactly when it ends in a comma outside quoted fields and its rows have not filled
  // the table.
  lemma LeftOverIff(text: string)
    ensures var p := Parse(text, [], MAX_ROWS);
      && |p.rows| == (if RowCount(text) < MAX_ROWS then RowCount(text) else MAX_ROWS)
      && (p.pending != [] <==> EndsOpen(text) && RowCount(text) < MAX_ROWS)
  {
    ParseScanned(text, Fresh, [], MAX_ROWS);
  }

  // An open end is a comma, and without quotes every final comma is one.
  lemma {:induction false} OpenEndIsComma(t: string, p: Place)
    requires t != ""
    ensures Last(p, t) == Open ==> t[|t| - 1] == ','
    ensures '"' !in t && p != Inside ==> (Last(p, t) == Open <==> t[|t| - 1] == ',')
  {
    if |t| > 1 {
      var u := t[1..];
      OpenEndIsComma(u, Next(p, t[0]));
      assert u[|u| - 1] == t[|t| - 1];
    } else {
      assert t[1..] == "" && Last(p, t) == Next(p, t[0]);
    }
  }

  // The smallest case: the row of "a," is not counted and its field is left behind.
  lemma OpenRowLost()
    ensures EndsOpen("a,")
    ensures Parse("a,", [], MAX_ROWS) == Parsed([], ["a"])
  {
    hide Parse;
    RowOfTwo();
    LastRowUnbroken(["a", ""], [], MAX_ROWS);
    assert [] + ["a", ""][..1] == ["a"];
    assert "a,"[1..] == "," && ","[1..] == "";
  }

  // The same row comes back whole when a line break follows it.
  lemma BrokenRowKept()
    ensures TableText([["a", ""]]) == "a,\n"
    ensures Parse("a,\n", [], MAX_ROWS) == Parsed([["a", ""]], [])
  {
    hide Parse, RowText;
    RowOfTwo();
    var table := [["a", ""]];
    assert table[1..] == [];
    assert TableText(table) == "a," + "\n" + "" == "a,\n";
    TableReadsBack(table, MAX_ROWS);
  }

  lemma RowOfTwo()
    ensures RowText(["a", ""]) == "a,"
  {
    assert FieldText("a") == "a" && FieldText("") == "";
    assert ["a", ""][1..] == [""];
    assert RowText([""]) == "" + "" == "";
    assert RowText(["a", ""]) == "a" + ("," + "");
  }
}
