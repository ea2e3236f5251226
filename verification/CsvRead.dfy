// Reading a table character by character: a machine that needs no view of a whole field. The parser gives the
// same rows and fields for every text, well formed or not.
module CsvRead {
  import opened CsvSpec
  import opened CsvScan

  // The field and row in progress, and the rows completed so far.
  datatype Reader = Reader(place: Place, field: string, row: seq<string>, rows: seq<seq<string>>)

  function Start(row: seq<string>, place: Place): Reader { Reader(place, "", row, []) }

  function EndField(r: Reader): seq<string> { r.row + [r.field] }

  // A quote opens a field only where one begins; inside a plain field it is a character like others. After a closing
  // quote, a character that is no comma and no break begins the next field.
  function Read(r: Reader, c: char): Reader {
    match r.place
    case Inside => if c == '"' then r.(place := Quote) else r.(field := Kept(r.field, c))
    case Plain => if Ends(c) then ReadEnd(r, c) else r.(field := Kept(r.field, c))
    case Quote =>
      if c == '"' then r.(place := Inside, field := r.field + ['"'])
      else if Ends(c) then ReadEnd(r, c)
      else Reader(Plain, [c], EndField(r), r.rows)
    case _ =>
      if c == '\n' && r.place == Cr then r.(place := Fresh)
      else if Ends(c) then ReadEnd(r, c)
      else if c == '"' then r.(place := Inside)
      else r.(place := Plain, field := [c])
  }

  // A comma ends a field, CR and LF a row.
  function ReadEnd(r: Reader, c: char): Reader
    requires Ends(c)
  {
    if c == ',' then Reader(Open, "", EndField(r), r.rows)
    else Reader(if c == '\r' then Cr else Fresh, "", [], r.rows + [EndField(r)])
  }

  function ReadAll(r: Reader, t: string): Reader
    decreases |t|
  {
    if t == "" then r else ReadAll(Read(r, t[0]), t[1..])
  }

  // At the end of the text a field in progress completes its row; after a comma the row stays open.
  function Finished(r: Reader): Parsed {
    if Unfinished(r.place) then Parsed(r.rows + [EndField(r)], []) else Parsed(r.rows, r.row)
  }

  // As much as the table has room for.
  function Fitting(p: Parsed, room: nat): Parsed {
    if |p.rows| < room then p else Parsed(p.rows[..room], [])
  }

  // ----- Fields -----

  lemma {:induction false} PlainRead(t: string, r: Reader)
    requires r.place == Plain
    ensures var s := Unquoted(t, r.field);
      ReadAll(r, t) == ReadAll(r.(field := s.field), s.rest)
    decreases |t|
  {
    hide Kept;
    if t != "" && !Ends(t[0]) { PlainRead(t[1..], Read(r, t[0])); }
  }

  lemma {:induction false} QuotedRead(t: string, r: Reader)
    requires r.place == Inside
    ensures var s := Quoted(t, r.field);
      if s.rest == "" then
        var e := ReadAll(r, t);
        Unfinished(e.place) && e == Reader(e.place, s.field, r.row, r.rows)
      else s.rest[0] != '"' && ReadAll(r, t) == ReadAll(r.(place := Quote, field := s.field), s.rest)
    decreases |t|
  {
    hide Kept;
    if t != "" {
      var u := t[1..];
      if t[0] != '"' {
        QuotedRead(u, Read(r, t[0]));
      } else if |t| > 1 && t[1] == '"' {
        assert u[0] == t[1] && u[1..] == t[2..];
        QuotedRead(t[2..], r.(field := r.field + ['"']));
      } else {
        assert u != "" ==> u[0] == t[1];
      }
    }
  }

  // What follows a field: the end of the text, an end character, or the first character of the next field.
  lemma AfterField(e: Reader, t: string)
    requires t != "" && (e.place == Plain ==> Ends(t[0])) && (e.place == Quote ==> t[0] != '"')
    requires e.place == Plain || e.place == Quote
    ensures ReadAll(e, t) ==
      if Ends(t[0]) then ReadAll(ReadEnd(e, t[0]), t[1..])
      else ReadAll(Reader(Fresh, "", EndField(e), e.rows), t)
  {
  }

  // One field from a place where one begins.
  lemma FieldRead(t: string, r: Reader)
    requires t != "" && (r.place == Fresh || r.place == Open) && r.field == ""
    ensures var s := NextField(t);
      var e := r.(field := s.field);
      if s.rest == "" then
        var z := ReadAll(r, t);
        Unfinished(z.place) && z == e.(place := z.place)
      else if Ends(s.rest[0]) then ReadAll(r, t) == ReadAll(ReadEnd(e, s.rest[0]), s.rest[1..])
      else ReadAll(r, t) == ReadAll(Reader(Fresh, "", EndField(e), r.rows), s.rest)
  {
    hide Quoted, Unquoted, Kept;
    var s := NextField(t);
    if t[0] == '"' {
      QuotedRead(t[1..], r.(place := Inside));
      if s.rest != "" { AfterField(r.(place := Quote, field := s.field), s.rest); }
    } else if Ends(t[0]) {
      EmptyField(t);
      NothingKept(t);
    } else {
      FirstPlain(t);
      KeptFirst(t[0]);
      PlainRead(t[1..], r.(place := Plain, field := [t[0]]));
      if s.rest != "" { AfterField(r.(place := Plain, field := s.field), s.rest); }
    }
  }

  lemma NothingKept(t: string)
    requires t != "" && Ends(t[0])
    ensures Unquoted(t, "").field == ""
  {}

  lemma KeptFirst(c: char)
    ensures Kept("", c) == [c]
  {
    assert "" + [c] == [c];
  }

  // ----- Whole texts -----

  // Rows completed before do not matter.
  lemma {:induction false} RowsBefore(r: Reader, t: string, before: seq<seq<string>>)
    ensures ReadAll(r.(rows := before + r.rows), t)
         == ReadAll(r, t).(rows := before + ReadAll(r, t).rows)
    decreases |t|
  {
    if t != "" {
      RowsBeforeOne(r, t[0], before);
      RowsBefore(Read(r, t[0]), t[1..], before);
    }
  }

  lemma RowsBeforeOne(r: Reader, c: char, before: seq<seq<string>>)
    ensures Read(r.(rows := before + r.rows), c) == Read(r, c).(rows := before + Read(r, c).rows)
  {
    assert before + (r.rows + [EndField(r)]) == before + r.rows + [EndField(r)];
  }

  // After a break the next row begins; the LF of a CR LF belongs to it.
  lemma BreakRead(e: Reader, t: string)
    requires t != "" && (t[0] == '\n' || t[0] == '\r')
    ensures Finished(ReadAll(ReadEnd(e, t[0]), t[1..]))
         == Finished(ReadAll(Reader(Fresh, "", [], e.rows + [EndField(e)]), AfterBreak(t)))
  {
    var u := t[1..];
    if t[0] == '\r' && u != "" {
      assert u[0] == t[1];
      if u[0] == '\n' {
        assert u[1..] == t[2..];
      } else {
        CrIsFresh(Reader(Cr, "", [], e.rows + [EndField(e)]), u[0]);
      }
    }
  }

  lemma CrIsFresh(r: Reader, c: char)
    requires r.place == Cr && c != '\n'
    ensures Read(r, c) == Read(r.(place := Fresh), c)
  {}

  // The parser and the machine agree, as far as there is room.
  lemma {:induction false} ParseReads(t: string, r: Reader, room: nat)
    requires (r.place == Fresh || r.place == Open) && r.field == "" && r.rows == []
    requires room == 0 ==> r.row == []
    ensures Parse(t, r.row, room) == Fitting(Finished(ReadAll(r, t)), room)
    decreases |t|
  {
    hide NextField, AfterBreak, Read, Finished, ReadAll;
    if room == 0 {
      NoRoom(t, r);
    } else if t == "" {
      NoneLeft(r, room);
    } else {
      var s := NextField(t);
      var e := r.(field := s.field);
      FieldRead(t, r);
      if s.rest == "" {
        LastField(ReadAll(r, t), room);
      } else if s.rest[0] == ',' {
        ParseReads(s.rest[1..], ReadEnd(e, ','), room);
      } else if s.rest[0] == '\n' || s.rest[0] == '\r' {
        ParseReads(AfterBreak(s.rest), Reader(Fresh, "", [], []), room - 1);
        RowRead(e, s.rest, room);
      } else {
        ParseReads(s.rest, Reader(Fresh, "", EndField(e), []), room);
      }
    }
  }

  // A completed row, and the rest of the text.
  lemma RowRead(e: Reader, t: string, room: nat)
    requires t != "" && (t[0] == '\n' || t[0] == '\r') && e.rows == [] && room > 0
    requires Parse(AfterBreak(t), [], room - 1)
          == Fitting(Finished(ReadAll(Reader(Fresh, "", [], []), AfterBreak(t))), room - 1)
    ensures var p := Parse(AfterBreak(t), [], room - 1);
      Parsed([EndField(e)] + p.rows, p.pending) == Fitting(Finished(ReadAll(ReadEnd(e, t[0]), t[1..])), room)
  {
    hide AfterBreak, Read, ReadAll, Parse;
    BreakRead(e, t);
    var first := [EndField(e)];
    var rest := Reader(Fresh, "", [], []);
    assert [] + first == first && first + [] == first;
    RowsBefore(rest, AfterBreak(t), first);
    var z := ReadAll(rest, AfterBreak(t));
    assert first + (z.rows + [EndField(z)]) == first + z.rows + [EndField(z)];
    var q, all := Finished(z), Finished(z.(rows := first + z.rows));
    assert all == Parsed(first + q.rows, q.pending);
    if |q.rows| >= room - 1 { assert (first + q.rows)[..room] == first + q.rows[..room - 1]; }
  }

  lemma NoRoom(t: string, r: Reader)
    requires r.row == []
    ensures Parse(t, r.row, 0) == Fitting(Finished(ReadAll(r, t)), 0)
  {}

  lemma NoneLeft(r: Reader, room: nat)
    requires room > 0 && (r.place == Fresh || r.place == Open) && r.rows == []
    ensures Parse("", r.row, room) == Fitting(Finished(ReadAll(r, "")), room)
  {}

  lemma LastField(z: Reader, room: nat)
    requires room > 0 && Unfinished(z.place) && z.rows == []
    ensures AfterBreak("") == "" && Parse("", [], room - 1) == Parsed([], [])
    ensures Fitting(Finished(z), room) == Parsed([EndField(z)], [])
  {}

  // For every text: the rows and fields that the parser gives are those of the machine, the first 4096 of them; a
  // row that a final comma left open is pending if there was room for it.
  lemma ParseIsReading(text: string)
    ensures Parse(text, [], MAX_ROWS) == Fitting(Finished(ReadAll(Start([], Fresh), text)), 4096)
  {
    ParseReads(text, Start([], Fresh), MAX_ROWS);
  }

  // ----- What the machine says of texts that are not as the writer writes them -----

  // Characters of a plain field: no commas, no breaks, and no quote in front. The field is all of them, quotes
  // included, up to 8191.
  lemma {:induction false} PlainKept(x: string, r: Reader)
    requires r.place == Plain && forall i :: 0 <= i < |x| ==> !Ends(x[i])
    requires |r.field| < MAX_FIELD
    ensures ReadAll(r, x) == r.(field := Cut(r.field + x))
    decreases |x|
  {
    if x == "" {
      assert r.field + x == r.field;
    } else {
      PlainKept(x[1..], Read(r, x[0]));
      KeptCut(r.field, x);
    }
  }

  // The first 8191 characters.
  function Cut(s: string): string { if |s| < MAX_FIELD then s else s[..MAX_FIELD - 1] }

  lemma KeptCut(field: string, x: string)
    requires x != "" && |field| < MAX_FIELD
    ensures Cut(Kept(field, x[0]) + x[1..]) == Cut(field + x)
  {
    if |field| < MAX_FIELD - 1 {
      assert field + [x[0]] + x[1..] == field + x;
    } else {
      assert (field + x[1..])[..MAX_FIELD - 1] == field == (field + x)[..MAX_FIELD - 1];
    }
  }

  // A text of one plain field, whatever quotes it holds after its first character.
  lemma OnePlainField(x: string)
    requires x != "" && x[0] != '"' && forall i :: 0 <= i < |x| ==> !Ends(x[i])
    ensures Parse(x, [], MAX_ROWS) == Parsed([[if |x| <= 8191 then x else x[..8191]]], [])
  {
    ParseIsReading(x);
    var r := Reader(Plain, [x[0]], [], []);
    PlainKept(x[1..], r);
    assert [x[0]] + x[1..] == x;
    assert [] + [Cut(x)] == [Cut(x)];
  }

  // A quote inside a plain field is kept as it is.
  lemma QuoteInsidePlain()
    ensures Parse("12\" pipe,3", [], MAX_ROWS) == Parsed([["12\" pipe", "3"]], [])
  {
    var x, t := "12\" pipe", "12\" pipe,3";
    hide Parse, Fitting, ReadAll, Read, Finished;
    ParseIsReading(t);
    assert t == x + ",3";
    PlainThen(x, ",3");
    EndOfPipe(x);
    FitsOne(Parsed([[x, "3"]], []));
  }

  // A plain field at the start of a text.
  lemma PlainThen(x: string, rest: string)
    requires 0 < |x| < MAX_FIELD && x[0] != '"' && forall i :: 0 <= i < |x| ==> !Ends(x[i])
    ensures ReadAll(Start([], Fresh), x + rest) == ReadAll(Reader(Plain, x, [], []), rest)
  {
    var r := Reader(Plain, [x[0]], [], []);
    hide ReadAll, Cut;
    PlainKept(x[1..], r);
    assert [x[0]] + x[1..] == x;
    ReadInTurn(r, x[1..], rest);
    assert (x + rest)[0] == x[0] && (x + rest)[1..] == x[1..] + rest;
    OneRead(Start([], Fresh), x + rest);
    Uncut(x);
  }

  lemma Uncut(x: string)
    requires |x| < MAX_FIELD
    ensures Cut(x) == x
  {}

  lemma EndOfPipe(x: string)
    ensures Finished(ReadAll(Reader(Plain, x, [], []), ",3")) == Parsed([[x, "3"]], [])
  {
    var r := Reader(Plain, x, [], []);
    assert ",3"[1..] == "3" && "3"[1..] == "";
    assert Read(r, ',') == Reader(Open, "", [x], []);
    assert [x] + ["3"] == [x, "3"];
  }

  lemma FitsOne(p: Parsed)
    requires |p.rows| == 1
    ensures Fitting(p, MAX_ROWS) == p
  {}

  lemma {:induction false} ReadInTurn(r: Reader, a: string, b: string)
    ensures ReadAll(r, a + b) == ReadAll(ReadAll(r, a), b)
    decreases |a|
  {
    if a == "" {
      assert a + b == b;
    } else {
      assert (a + b)[1..] == a[1..] + b;
      ReadInTurn(Read(r, a[0]), a[1..], b);
    }
  }

  // Outside quotes a CR LF is one break, as a LF or a CR alone is.
  lemma OneBreak(r: Reader, t: string)
    requires r.place != Inside && r.place != Cr
    ensures ReadAll(r, "\r\n" + t) == ReadAll(r, "\n" + t)
    ensures t == "" || t[0] != '\n' ==> Finished(ReadAll(r, "\r" + t)) == Finished(ReadAll(r, "\n" + t))
  {
    hide *;
    CrLf(t);
    TwoReads(r, t);
    OneRead(r, "\n" + t);
    OneRead(r, "\r" + t);
    SameBreak(r, t);
  }

  lemma CrLf(t: string)
    ensures ("\r\n" + t)[0] == '\r' && ("\r\n" + t)[1..] == "\n" + t
    ensures ("\n" + t)[0] == '\n' && ("\n" + t)[1..] == t
    ensures ("\r" + t)[0] == '\r' && ("\r" + t)[1..] == t
  {}

  lemma OneRead(r: Reader, t: string)
    requires t != ""
    ensures ReadAll(r, t) == ReadAll(Read(r, t[0]), t[1..])
  {}

  lemma TwoReads(r: Reader, t: string)
    requires r.place != Inside && r.place != Cr
    ensures ReadAll(r, "\r\n" + t) == ReadAll(Read(r, '\n'), t)
  {
    CrLf(t);
    OneRead(r, "\r\n" + t);
    OneRead(Read(r, '\r'), "\n" + t);
    hide ReadAll;
    assert Read(Read(r, '\r'), '\n') == Read(r, '\n');
  }

  lemma SameBreak(r: Reader, t: string)
    requires r.place != Inside && r.place != Cr
    ensures t == "" || t[0] != '\n' ==>
      Finished(ReadAll(Read(r, '\r'), t)) == Finished(ReadAll(Read(r, '\n'), t))
  {
    assert Read(r, '\r') == Read(r, '\n').(place := Cr);
    if t != "" && t[0] != '\n' { CrIsFresh(Read(r, '\r'), t[0]); }
  }
}
