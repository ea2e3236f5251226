// Comma-separated tables (RFC 4180): what the writer emits, what the parser makes of it.

module CsvSpec {
  const MAX_ROWS: nat := 4096
  const MAX_COLS: nat := 256
  const MAX_FIELD: nat := 8192

  // --- Parsing, as a function of the text still unread.

  datatype Scan = Scan(field: string, rest: string)

  // The field buffer keeps a last byte free; what does not fit is dropped.
  function Kept(field: string, c: char): string {
    if |field| < MAX_FIELD - 1 then field + [c] else field
  }

  predicate Ends(c: char) {
    c == ',' || c == '\n' || c == '\r'
  }

  // After an opening quote: a doubled quote stands for one, a single quote closes.
  function Quoted(t: string, field: string): (r: Scan)
    ensures |r.rest| <= |t|
    decreases |t|
  {
    if t == "" then Scan(field, "")
    else if t[0] != '"' then Quoted(t[1..], Kept(field, t[0]))
    else if |t| > 1 && t[1] == '"' then Quoted(t[2..], field + ['"'])
    else Scan(field, t[1..])
  }

  function Unquoted(t: string, field: string): (r: Scan)
    ensures |r.rest| <= |t|
    ensures r.rest == "" || Ends(r.rest[0])
  {
    if t == "" || Ends(t[0]) then Scan(field, t) else Unquoted(t[1..], Kept(field, t[0]))
  }

  function NextField(t: string): (r: Scan)
    requires t != ""
    ensures |r.rest| <= |t|
    ensures |r.rest| == |t| ==> Ends(r.rest[0])
  {
    if t[0] == '"' then Quoted(t[1..], "") else Unquoted(t, "")
  }

  // CR, LF, CR LF and the end of the text all end a row.
  function AfterBreak(t: string): (r: string)
    requires t == "" || t[0] == '\n' || t[0] == '\r'
    ensures |r| <= |t| && (t != "" ==> |r| < |t|)
  {
    if t == "" then ""
    else if t[0] == '\r' && |t| > 1 && t[1] == '\n' then t[2..]
    else t[1..]
  }

  // Completed rows, and the fields of a row that was never completed.
  datatype Parsed = Parsed(rows: seq<seq<string>>, pending: seq<string>)

  // A row ends at a break or at the end of the text, but not after a final comma.
  function Parse(t: string, current: seq<string>, room: nat): (r: Parsed)
    ensures |r.rows| <= room
    decreases |t|
  {
    if t == "" || room == 0 then Parsed([], current)
    else
      var f := NextField(t);
      var cells := current + [f.field];
      if f.rest != "" && f.rest[0] == ',' then Parse(f.rest[1..], cells, room)
      else if f.rest == "" || f.rest[0] == '\n' || f.rest[0] == '\r' then
        var p := Parse(AfterBreak(f.rest), [], room - 1);
        Parsed([cells] + p.rows, p.pending)
      else Parse(f.rest, cells, room)
  }

  // --- Writing.

  predicate NeedsQuote(v: string) {
    exists i :: 0 <= i < |v| && (Ends(v[i]) || v[i] == '"')
  }

  function EscapedChar(c: char): string {
    if c == '"' then "\"\"" else [c]
  }

  function Escaped(v: string): string {
    if v == "" then "" else EscapedChar(v[0]) + Escaped(v[1..])
  }

  function FieldText(v: string): string {
    if NeedsQuote(v) then "\"" + Escaped(v) + "\"" else v
  }

  function RowText(row: seq<string>): string {
    if row == [] then ""
    else FieldText(row[0]) + if |row| == 1 then "" else "," + RowText(row[1..])
  }

  function TableText(table: seq<seq<string>>): string {
    if table == [] then "" else RowText(table[0]) + "\n" + TableText(table[1..])
  }

  // The writer's calls, its output and the column it stands at.
  datatype Call = WriteField(value: string) | WriteRowEnd
  datatype Writer = Writer(out: string, col: nat)

  function Wrote(w: Writer, c: Call): Writer {
    match c
    case WriteField(v) => Writer(w.out + (if w.col > 0 then "," else "") + FieldText(v), w.col + 1)
    case WriteRowEnd => Writer(w.out + "\n", 0)
  }

  function WroteAll(w: Writer, calls: seq<Call>): Writer
    decreases |calls|
  {
    if calls == [] then w else WroteAll(Wrote(w, calls[0]), calls[1..])
  }

  function RowCalls(row: seq<string>): seq<Call> {
    if row == [] then [WriteRowEnd] else [WriteField(row[0])] + RowCalls(row[1..])
  }

  function TableCalls(table: seq<seq<string>>): seq<Call> {
    if table == [] then [] else RowCalls(table[0]) + TableCalls(table[1..])
  }

  // --- What the calls produce.

  lemma {:induction false} CallsInTurn(w: Writer, a: seq<Call>, b: seq<Call>)
    ensures WroteAll(w, a + b) == WroteAll(WroteAll(w, a), b)
    decreases |a|
  {
    if a == [] {
      assert a + b == b;
    } else {
      assert (a + b)[1..] == a[1..] + b;
      CallsInTurn(Wrote(w, a[0]), a[1..], b);
    }
  }

  lemma {:induction false} RowWritten(w: Writer, row: seq<string>)
    ensures WroteAll(w, RowCalls(row))
         == Writer(w.out + (if w.col > 0 && row != [] then "," else "") + RowText(row) + "\n", 0)
    decreases |row|
  {
    hide FieldText;
    if row == [] {
      assert WroteAll(w, [WriteRowEnd]) == WroteAll(Wrote(w, WriteRowEnd), []);
      assert w.out + "" + "" + "\n" == w.out + "\n";
    } else {
      var w1 := Wrote(w, WriteField(row[0]));
      var calls := RowCalls(row);
      assert calls[0] == WriteField(row[0]) && calls[1..] == RowCalls(row[1..]);
      RowWritten(w1, row[1..]);
      RowTextJoin(w, row);
    }
  }

  lemma RowTextJoin(w: Writer, row: seq<string>)
    requires row != []
    ensures var comma := if w.col > 0 then "," else "";
            (w.out + comma + FieldText(row[0])) + (if row[1..] != [] then "," else "") + RowText(row[1..])
              == w.out + comma + RowText(row)
  {
    hide FieldText;
    var comma := if w.col > 0 then "," else "";
    var f, more := FieldText(row[0]), RowText(row[1..]);
    if |row| == 1 {
      assert RowText(row) == f + "";
      assert more == "";
    } else {
      assert RowText(row) == f + ("," + more);
    }
  }

  // Writing a table row by row emits exactly its text.
  lemma {:induction false} TableWritten(w: Writer, table: seq<seq<string>>)
    requires w.col == 0
    ensures WroteAll(w, TableCalls(table)) == Writer(w.out + TableText(table), 0)
    decreases |table|
  {
    hide RowText, RowCalls;
    if table == [] {
      assert w.out + "" == w.out;
    } else {
      CallsInTurn(w, RowCalls(table[0]), TableCalls(table[1..]));
      RowWritten(w, table[0]);
      var w1 := WroteAll(w, RowCalls(table[0]));
      TableWritten(w1, table[1..]);
      assert w.out + "" + RowText(table[0]) + "\n" + TableText(table[1..])
          == w.out + (RowText(table[0]) + "\n" + TableText(table[1..]));
    }
  }

  // --- Parsing what was written.

  lemma {:induction false} UnquotedReadsBack(v: string, field: string, rest: string)
    requires !NeedsQuote(v)
    requires |field| + |v| < MAX_FIELD
    requires rest == "" || Ends(rest[0])
    ensures Unquoted(v + rest, field) == Scan(field + v, rest)
    decreases |v|
  {
    if v == "" {
      assert v + rest == rest && field + v == field;
    } else {
      assert !Ends(v[0]) && v[0] != '"';
      assert forall i :: 0 <= i < |v| - 1 ==> v[1..][i] == v[i + 1];
      assert (v + rest)[1..] == v[1..] + rest;
      UnquotedReadsBack(v[1..], field + [v[0]], rest);
      assert field + [v[0]] + v[1..] == field + v;
    }
  }

  lemma QuotedChar(c: char, more: string, field: string)
    ensures Quoted(EscapedChar(c) + more, field) == Quoted(more, if c == '"' then field + [c] else Kept(field, c))
  {
    var t := EscapedChar(c) + more;
    if c == '"' { assert t[2..] == more; } else { assert t[1..] == more; }
  }

  lemma {:induction false} QuotedReadsBack(v: string, field: string, rest: string)
    requires |field| + |v| < MAX_FIELD
    requires rest == "" || rest[0] != '"'
    ensures Quoted(Escaped(v) + "\"" + rest, field) == Scan(field + v, rest)
    decreases |v|
  {
    if v == "" {
      ClosingQuote(rest, field);
      assert Escaped("") + "\"" + rest == "\"" + rest;
      assert field + v == field;
    } else {
      hide Quoted, EscapedChar;
      var more := Escaped(v[1..]) + "\"" + rest;
      assert Escaped(v) + "\"" + rest == EscapedChar(v[0]) + more;
      QuotedChar(v[0], more, field);
      QuotedReadsBack(v[1..], field + [v[0]], rest);
      assert field + [v[0]] + v[1..] == field + v;
    }
  }

  lemma ClosingQuote(rest: string, field: string)
    requires rest == "" || rest[0] != '"'
    ensures Quoted("\"" + rest, field) == Scan(field, rest)
  {
    assert ("\"" + rest)[1..] == rest;
  }

  lemma Regroup(a: string, b: string, c: string, d: string)
    ensures a + b + c + d == a + (b + c + d)
  {
    assert a + b + c == a + (b + c);
    assert a + (b + c) + d == a + ((b + c) + d);
  }

  lemma QuotedFieldReadsBack(v: string, rest: string)
    requires |v| < MAX_FIELD
    requires rest == "" || rest[0] != '"'
    ensures NextField("\"" + Escaped(v) + "\"" + rest) == Scan(v, rest)
  {
    hide *;
    var body := Escaped(v) + "\"" + rest;
    Regroup("\"", Escaped(v), "\"", rest);
    QuotedReadsBack(v, "", rest);
    QuoteOpens(body);
    assert "" + v == v;
  }

  lemma QuoteOpens(t: string)
    ensures NextField("\"" + t) == Quoted(t, "")
  {
    hide Quoted, Unquoted;
    assert ("\"" + t)[1..] == t;
  }

  lemma PlainFieldReadsBack(v: string, rest: string)
    requires |v| < MAX_FIELD && !NeedsQuote(v)
    requires rest == "" || Ends(rest[0])
    requires v + rest != ""
    ensures NextField(v + rest) == Scan(v, rest)
  {
    hide Quoted, Unquoted;
    if v != "" { assert v[0] != '"'; }
    UnquotedReadsBack(v, "", rest);
    assert "" + v == v;
  }

  // Every field reads back, whether it holds commas, quotes, breaks or nothing.
  lemma FieldReadsBack(v: string, rest: string)
    requires |v| < MAX_FIELD
    requires rest == "" || Ends(rest[0])
    requires FieldText(v) + rest != ""
    ensures NextField(FieldText(v) + rest) == Scan(v, rest)
  {
    hide NextField, NeedsQuote, Escaped;
    if NeedsQuote(v) {
      QuotedFieldReadsBack(v, rest);
    } else {
      PlainFieldReadsBack(v, rest);
    }
  }

  ghost predicate RowFits(row: seq<string>) {
    && 0 < |row| <= MAX_COLS
    && forall i :: 0 <= i < |row| ==> |row[i]| < MAX_FIELD
  }

  ghost predicate TableFits(table: seq<seq<string>>) {
    && |table| <= MAX_ROWS
    && forall i :: 0 <= i < |table| ==> RowFits(table[i])
  }

  ghost predicate Short(row: seq<string>) {
    forall i :: 0 <= i < |row| ==> |row[i]| < MAX_FIELD
  }

  lemma {:induction false} RowReadsBack(row: seq<string>, current: seq<string>, rest: string, room: nat)
    requires row != [] && Short(row) && room > 0
    ensures var p := Parse(rest, [], room - 1);
            Parse(RowText(row) + "\n" + rest, current, room) == Parsed([current + row] + p.rows, p.pending)
    decreases |row|
  {
    hide FieldText, NextField;
    var f := FieldText(row[0]);
    if |row| == 1 {
      assert RowText(row) + "\n" + rest == f + ("\n" + rest);
      FieldReadsBack(row[0], "\n" + rest);
      assert AfterBreak("\n" + rest) == rest;
      assert current + [row[0]] == current + row;
    } else {
      hide Parse;
      var more := RowText(row[1..]) + "\n" + rest;
      assert RowText(row) + "\n" + rest == f + ("," + more);
      FieldThenComma(row[0], more, current, room);
      RowReadsBack(row[1..], current + [row[0]], rest, room);
      assert current + [row[0]] + row[1..] == current + row;
    }
  }

  lemma FieldThenComma(v: string, more: string, current: seq<string>, room: nat)
    requires |v| < MAX_FIELD && room > 0
    ensures Parse(FieldText(v) + ("," + more), current, room) == Parse(more, current + [v], room)
  {
    hide FieldText, NextField;
    FieldReadsBack(v, "," + more);
    assert ("," + more)[1..] == more;
  }

  // Round trip: the parser gives back exactly the rows and fields that were written.
  lemma {:induction false} TableReadsBack(table: seq<seq<string>>, room: nat)
    requires |table| <= room
    requires forall i :: 0 <= i < |table| ==> RowFits(table[i])
    ensures Parse(TableText(table), [], room) == Parsed(table, [])
  {
    hide RowText;
    if table != [] {
      assert RowFits(table[0]);
      RowReadsBack(table[0], [], TableText(table[1..]), room);
      TableReadsBack(table[1..], room - 1);
      assert [] + table[0] == table[0];
    }
  }

  // --- RFC 4180 lets the last line break be left out. Then a last field that is empty
  // is not seen, and its whole row is lost.

  lemma {:induction false} LastRowUnbroken(row: seq<string>, current: seq<string>, room: nat)
    requires row != [] && Short(row) && room > 0
    ensures Parse(RowText(row), current, room)
         == if row[|row| - 1] == "" then Parsed([], current + row[..|row| - 1]) else Parsed([current + row], [])
    decreases |row|
  {
    hide Parse, FieldText;
    if |row| == 1 {
      LastFieldUnbroken(row[0], current, room);
      assert RowText(row) == FieldText(row[0]) + "" == FieldText(row[0]);
      assert row == [row[0]];
      assert current + row[..0] == current;
    } else {
      var more := RowText(row[1..]);
      assert RowText(row) == FieldText(row[0]) + ("," + more);
      FieldThenComma(row[0], more, current, room);
      LastRowUnbroken(row[1..], current + [row[0]], room);
      assert current + [row[0]] + row[1..] == current + row;
      assert current + [row[0]] + row[1..][..|row| - 2] == current + row[..|row| - 1];
    }
  }

  lemma LastFieldUnbroken(v: string, current: seq<string>, room: nat)
    requires |v| < MAX_FIELD && room > 0
    ensures Parse(FieldText(v), current, room)
         == if v == "" then Parsed([], current) else Parsed([current + [v]], [])
  {
    hide NextField, Escaped;
    assert FieldText("") == "";
    assert FieldText(v) + "" == FieldText(v);
    if v != "" {
      FieldReadsBack(v, "");
      assert Parse("", [], room - 1) == Parsed([], []);
    }
  }

  lemma {:induction false} UnbrokenTable(table: seq<seq<string>>, last: seq<string>, room: nat)
    requires |table| < room && RowFits(last)
    requires forall i :: 0 <= i < |table| ==> RowFits(table[i])
    ensures Parse(TableText(table) + RowText(last), [], room)
         == if last[|last| - 1] == "" then Parsed(table, last[..|last| - 1]) else Parsed(table + [last], [])
    decreases |table|
  {
    hide RowText;
    if table == [] {
      assert TableText(table) + RowText(last) == RowText(last);
      LastRowUnbroken(last, [], room);
      assert [] + last == last && [] + last[..|last| - 1] == last[..|last| - 1];
    } else {
      assert RowFits(table[0]);
      var rest := TableText(table[1..]) + RowText(last);
      assert TableText(table) + RowText(last) == RowText(table[0]) + "\n" + rest;
      RowReadsBack(table[0], [], rest, room);
      UnbrokenTable(table[1..], last, room - 1);
      assert [] + table[0] == table[0];
      assert [table[0]] + (table[1..] + [last]) == table + [last];
    }
  }

  // Without the final line break the table comes back exactly if its last field is not empty.
  lemma FinalBreakOptionalIff(table: seq<seq<string>>, last: seq<string>)
    requires TableFits(table + [last])
    ensures RowFits(last)
    ensures TableText(table + [last]) == TableText(table) + RowText(last) + "\n"
    ensures Parse(TableText(table) + RowText(last), [], MAX_ROWS) == Parsed(table + [last], [])
            <==> last[|last| - 1] != ""
  {
    assert (table + [last])[|table|] == last;
    assert forall i :: 0 <= i < |table| ==> (table + [last])[i] == table[i];
    UnbrokenTable(table, last, MAX_ROWS);
    TableTextSnoc(table, last);
  }

  lemma {:induction false} TableTextSnoc(table: seq<seq<string>>, last: seq<string>)
    ensures TableText(table + [last]) == TableText(table) + RowText(last) + "\n"
  {
    hide RowText;
    if table == [] {
      assert (table + [last])[1..] == [];
    } else {
      assert (table + [last])[1..] == table[1..] + [last];
      TableTextSnoc(table[1..], last);
    }
  }
}

module CsvTables {
  import opened CsvSpec
  import opened CsvScan

  // A cell of the grid: absent, or a field.
  datatype Cell = Null | Field(value: string)

  // The cell at (r, c) after completed rows and a pending one were stored over `base`.
  function CellOf(rows: seq<seq<string>>, pending: seq<string>, r: nat, c: nat, base: Cell): Cell {
    if r < |rows| && c < |rows[r]| then Field(rows[r][c])
    else if r == |rows| && c < |pending| then Field(pending[c])
    else base
  }

  // What reading a cell answers: absent cells read as empty fields.
  function Shown(cell: Cell): string {
    if cell.Field? then cell.value else ""
  }

  function Joined(done: seq<seq<string>>, p: Parsed): Parsed {
    Parsed(done + p.rows, p.pending)
  }

  lemma FromStart(text: string, room: nat)
    ensures Joined([], CsvSpec.Parse(text[0..], [], room)) == CsvSpec.Parse(text, [], room)
  {
    assert text[0..] == text;
  }

  // One field taken off the text, and what its end means for the row.
  lemma ParseStep(t: string, current: seq<string>, room: nat, done: seq<seq<string>>)
    requires t != "" && room > 0
    ensures var f := NextField(t);
            var cells := current + [f.field];
            Joined(done, CsvSpec.Parse(t, current, room)) ==
              if f.rest != "" && f.rest[0] == ',' then Joined(done, CsvSpec.Parse(f.rest[1..], cells, room))
              else if f.rest == "" || f.rest[0] == '\n' || f.rest[0] == '\r' then
                Joined(done + [cells], CsvSpec.Parse(AfterBreak(f.rest), [], room - 1))
              else Joined(done, CsvSpec.Parse(f.rest, cells, room))
  {
    hide NextField;
    var f := NextField(t);
    if f.rest == "" || f.rest[0] == '\n' || f.rest[0] == '\r' {
      var p := CsvSpec.Parse(AfterBreak(f.rest), [], room - 1);
      assert done + ([current + [f.field]] + p.rows) == done + [current + [f.field]] + p.rows;
    }
  }

  lemma ParseEnds(t: string, current: seq<string>, room: nat, done: seq<seq<string>>)
    requires t == "" || room == 0
    ensures Joined(done, CsvSpec.Parse(t, current, room)) == Parsed(done, current)
  {
    assert done + [] == done;
  }

  lemma EmptyText(room: nat)
    ensures CsvSpec.Parse("", [], room) == Parsed([], [])
  {}

  lemma NothingStored()
    ensures forall r: nat, c: nat, base :: CellOf([], [], r, c, base) == base
  {}

  lemma StoredCell(done: seq<seq<string>>, current: seq<string>, field: string)
    ensures forall r: nat, c: nat, base :: CellOf(done, current + [field], r, c, base) == (
              if r == |done| && c == |current| then Field(field) else CellOf(done, current, r, c, base))
  {}

  lemma RowDone(done: seq<seq<string>>, current: seq<string>)
    ensures forall r: nat, c: nat, base :: CellOf(done + [current], [], r, c, base) == CellOf(done, current, r, c, base)
  {}

  // The loops over one field, from position p to where it ends.
  method ScanQuoted(text: string, start: nat) returns (field: string, p: nat)
    requires start <= |text|
    ensures start <= p <= |text|
    ensures Scan(field, text[p..]) == Quoted(text[start..], "")
  {
    hide Kept;
    field, p := "", start;
    while p < |text|
      invariant start <= p <= |text|
      invariant Quoted(text[p..], field) == Quoted(text[start..], "")
    {
      ghost var t := text[p..];
      assert t[0] == text[p] && t[1..] == text[p + 1..];
      if text[p] == '"' {
        if p + 1 < |text| && text[p + 1] == '"' {
          assert t[2..] == text[p + 2..];
          field := field + ['"'];
          p := p + 2;
        } else {
          p := p + 1;
          return;
        }
      } else {
        field := Kept(field, text[p]);
        p := p + 1;
      }
    }
  }

  method ScanUnquoted(text: string, start: nat) returns (field: string, p: nat)
    requires start <= |text|
    ensures start <= p <= |text|
    ensures Scan(field, text[p..]) == Unquoted(text[start..], "")
  {
    hide Kept;
    field, p := "", start;
    while p < |text| && text[p] != ',' && text[p] != '\n' && text[p] != '\r'
      invariant start <= p <= |text|
      invariant Unquoted(text[p..], field) == Unquoted(text[start..], "")
    {
      assert text[p..][1..] == text[p + 1..];
      field := Kept(field, text[p]);
      p := p + 1;
    }
  }

  method ScanField(text: string, start: nat) returns (field: string, p: nat)
    requires start < |text|
    ensures start <= p <= |text|
    ensures p == start ==> Ends(text[p])
    ensures Scan(field, text[p..]) == NextField(text[start..])
  {
    hide Quoted, Unquoted;
    if text[start] == '"' {
      field, p := ScanQuoted(text, start + 1);
      assert text[start..][1..] == text[start + 1..];
    } else {
      field, p := ScanUnquoted(text, start);
    }
  }

  method SkipBreak(text: string, start: nat) returns (p: nat)
    requires start <= |text|
    requires start == |text| || text[start] == '\n' || text[start] == '\r'
    ensures start <= p <= |text| && (start < |text| ==> start < p)
    ensures text[p..] == AfterBreak(text[start..])
  {
    p := start;
    if p < |text| {
      if text[p] == '\r' {
        p := p + 1;
        if p < |text| && text[p] == '\n' { p := p + 1; }
      } else {
        p := p + 1;
      }
    }
  }

  class CsvReader {
    const grid: array2<Cell>
    var numRows: nat
    var numCols: nat

    ghost predicate Valid()
      reads this
    { grid.Length0 == MAX_ROWS && grid.Length1 == MAX_COLS && numRows <= MAX_ROWS }

    // Nothing is left over below the last row.
    ghost predicate Clean()
      reads this, grid
      requires Valid()
    {
      forall r: nat, c: nat :: numRows <= r < MAX_ROWS && c < MAX_COLS ==> grid[r, c] == Null
    }

    constructor ()
      ensures Valid() && Clean() && fresh(grid) && numRows == 0
      ensures grid.Length0 == 4096 && grid.Length1 == 256
    {
      grid := new Cell[MAX_ROWS, MAX_COLS]((_, _) => Null);
      numRows := 0;
      numCols := 0;
    }

    method GridClear()
      requires Valid()
      modifies this`numRows, this`numCols, grid
      ensures Valid() && numRows == 0 && numCols == 0
      ensures forall r: nat, c: nat :: r < MAX_ROWS && c < MAX_COLS ==>
        grid[r, c] == if r < old(numRows) then Null else old(grid[r, c])
    {
      for r: nat := 0 to numRows
        invariant Valid() && numRows == old(numRows)
        invariant forall i: nat, j: nat :: i < MAX_ROWS && j < MAX_COLS ==>
          grid[i, j] == if i < r then Null else old(grid[i, j])
      {
        for c: nat := 0 to MAX_COLS
          invariant Valid() && numRows == old(numRows)
          invariant forall i: nat, j: nat :: i < MAX_ROWS && j < MAX_COLS ==>
            grid[i, j] == if i < r || (i == r && j < c) then Null else old(grid[i, j])
        {
          grid[r, c] := Null;
        }
      }
      numRows := 0;
      numCols := 0;
    }

    // Fields beyond the last column are counted but not kept.
    method Store(row: nat, col: nat, field: string)
      requires Valid() && row < MAX_ROWS
      modifies grid
      ensures forall r: nat, c: nat :: r < MAX_ROWS && c < MAX_COLS ==>
        grid[r, c] == if r == row && c == col then Field(field) else old(grid[r, c])
    {
      if col < MAX_COLS { grid[row, col] := Field(field); }
    }

    // The rows of the text, cell by cell; a row that a final comma left open stays in the
    // grid below the last counted row.
    method Parse(text: string) returns (n: int)
      requires Valid()
      modifies this`numRows, this`numCols, grid
      ensures Valid()
      ensures var p := CsvSpec.Parse(text, [], MAX_ROWS);
        && n == numRows == |p.rows|
        && numCols == (if p.rows == [] then 0 else |p.rows[0]|)
        && forall r: nat, c: nat :: r < MAX_ROWS && c < MAX_COLS ==>
             grid[r, c] == CellOf(p.rows, p.pending, r, c, if r < old(numRows) then Null else old(grid[r, c]))
      ensures n == if RowCount(text) < MAX_ROWS then RowCount(text) else MAX_ROWS
      ensures old(Clean()) ==> (Clean() <==> !(EndsOpen(text) && RowCount(text) < MAX_ROWS))
    {
      hide CsvSpec.Parse, NextField, CellOf, Joined, AfterBreak, EndsOpen, RowCount;
      LeftOverIff(text);
      GridClear();
      NothingStored();
      if text == "" {
        EmptyText(MAX_ROWS);
        if old(Clean()) { CleanIff(this, Parsed([], [])); }
        return 0;
      }
      label Cleared:
      var p: nat, row: nat, col: nat := 0, 0, 0;
      ghost var done: seq<seq<string>>, current: seq<string> := [], [];
      ghost var all := CsvSpec.Parse(text, [], MAX_ROWS);
      FromStart(text, MAX_ROWS);
      while p < |text| && row < MAX_ROWS
        invariant p <= |text| && row <= MAX_ROWS
        invariant row == |done| && col == |current|
        invariant all == Joined(done, CsvSpec.Parse(text[p..], current, MAX_ROWS - row))
        invariant Valid() && numCols == if done == [] then 0 else |done[0]|
        invariant forall r: nat, c: nat :: r < MAX_ROWS && c < MAX_COLS ==>
          grid[r, c] == CellOf(done, current, r, c, old@Cleared(grid[r, c]))
        decreases |text| - p
      {
        ghost var t := text[p..];
        var field: string;
        field, p := ScanField(text, p);
        ParseStep(t, current, MAX_ROWS - row, done);
        Store(row, col, field);
        StoredCell(done, current, field);
        col := col + 1;
        current := current + [field];
        if p < |text| && text[p] == ',' {
          p := p + 1;
        } else if p >= |text| || text[p] == '\n' || text[p] == '\r' {
          p := SkipBreak(text, p);
          if row == 0 { numCols := col; }
          RowDone(done, current);
          done := done + [current];
          current := [];
          row := row + 1;
          col := 0;
        }
      }
      ParseEnds(text[p..], current, MAX_ROWS - row, done);
      numRows := row;
      PendingHasRoom(text, [], MAX_ROWS);
      if old(Clean()) { CleanIff(this, all); }
      return row;
    }

    method Get(row: int, col: int) returns (v: string)
      requires Valid()
      ensures v == if 0 <= row < numRows && 0 <= col < MAX_COLS then Shown(grid[row, col]) else ""
    {
      if row < 0 || row >= numRows || col < 0 || col >= MAX_COLS { return ""; }
      return if grid[row, col].Field? then grid[row, col].value else "";
    }
  }

  // An open row can only be left while there is room for one more.
  lemma {:induction false} PendingHasRoom(t: string, current: seq<string>, room: nat)
    requires room == 0 ==> current == []
    ensures var p := CsvSpec.Parse(t, current, room); p.pending != [] ==> |p.rows| < room
    decreases |t|
  {
    hide NextField;
    if t != "" && room > 0 {
      var f := NextField(t);
      var cells := current + [f.field];
      if f.rest != "" && f.rest[0] == ',' {
        PendingHasRoom(f.rest[1..], cells, room);
      } else if f.rest == "" || f.rest[0] == '\n' || f.rest[0] == '\r' {
        PendingHasRoom(AfterBreak(f.rest), [], room - 1);
      } else {
        PendingHasRoom(f.rest, cells, room);
      }
    }
  }

  // Parsing leaves fields behind below the last row exactly when a row was left open.
  lemma CleanIff(g: CsvReader, p: Parsed)
    requires g.Valid() && g.numRows == |p.rows|
    requires p.pending != [] ==> |p.rows| < MAX_ROWS
    requires forall r: nat, c: nat :: r < MAX_ROWS && c < MAX_COLS ==>
      g.grid[r, c] == CellOf(p.rows, p.pending, r, c, Null)
    ensures g.Clean() <==> p.pending == []
  {
    if p.pending != [] {
      assert g.grid[|p.rows|, 0] == CellOf(p.rows, p.pending, |p.rows|, 0, Null);
    }
  }

  // Read from a clean grid, a written table shows the same field in every cell, and
  // empty fields everywhere else.
  lemma TableShows(table: seq<seq<string>>, r: nat, c: nat)
    requires TableFits(table)
    ensures var p := CsvSpec.Parse(TableText(table), [], MAX_ROWS);
      && |p.rows| == |table| && p.pending == []
      && Shown(CellOf(p.rows, p.pending, r, c, Null))
           == if r < |table| && c < |table[r]| then table[r][c] else ""
  {
    TableReadsBack(table, MAX_ROWS);
  }

  lemma EscapedAt(value: string, i: nat)
    requires i < |value|
    ensures Escaped(value[i..]) == EscapedChar(value[i]) + Escaped(value[i + 1..])
  {
    assert value[i..][1..] == value[i + 1..];
  }

  lemma NothingToEscape(value: string)
    requires value == ""
    ensures Escaped(value) == ""
  {}

  lemma Concat3(a: string, b: string, c: string)
    ensures a + (b + c) == a + b + c
  {}

  class CsvWriter {
    var out: string
    var col: nat

    function State(): Writer
      reads this
    { Writer(out, col) }

    constructor ()
      ensures State() == Writer("", 0)
    {
      out := "";
      col := 0;
    }

    method WriteField(value: string)
      modifies this
      ensures State() == Wrote(old(State()), CsvSpec.WriteField(value))
    {
      if col > 0 { out := out + ","; }
      var needsQuote := false;
      var i := 0;
      while i < |value|
        invariant i <= |value| && !needsQuote
        invariant forall j :: 0 <= j < i ==> !Ends(value[j]) && value[j] != '"'
      {
        if Ends(value[i]) || value[i] == '"' {
          needsQuote := true;
          break;
        }
        i := i + 1;
      }
      assert needsQuote <==> NeedsQuote(value);
      if needsQuote {
        WriteQuoted(value);
      } else {
        out := out + value;
      }
      col := col + 1;
      if old(col) == 0 { assert old(out) + "" == old(out); }
    }

    method WriteQuoted(value: string)
      modifies this`out
      ensures out == old(out) + ("\"" + Escaped(value) + "\"")
    {
      hide *;
      out := out + "\"";
      var i := 0;
      assert value[0..] == value;
      while i < |value|
        invariant i <= |value|
        invariant out + Escaped(value[i..]) == old(out) + "\"" + Escaped(value)
      {
        EscapedAt(value, i);
        Concat3(out, EscapedChar(value[i]), Escaped(value[i + 1..]));
        PutEscaped(value[i]);
        i := i + 1;
      }
      NothingToEscape(value[i..]);
      assert out + "" == out;
      out := out + "\"";
      Regroup(old(out), "\"", Escaped(value), "\"");
    }

    method PutEscaped(c: char)
      modifies this`out
      ensures out == old(out) + EscapedChar(c)
    {
      if c == '"' {
        out := out + "\"\"";
      } else {
        out := out + [c];
      }
    }

    method WriteRowEnd()
      modifies this
      ensures State() == Wrote(old(State()), CsvSpec.WriteRowEnd)
    {
      out := out + "\n";
      col := 0;
    }
  }
}
