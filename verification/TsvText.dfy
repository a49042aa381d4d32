module TsvText {
  // What pasted text means, said of the fields and separators it is put together from.

  import opened Wrappers
  import opened Quoting
  import opened Tsv

  datatype Field = Bare(text: string) | Quoted(text: string)

  datatype Separator = Tab | Lf | CrLf | Cr

  /** A field and what ends it. */
  datatype Piece = Piece(field: Field, end: Separator)

  function FieldText(f: Field): string {
    if f.Bare? then f.text else "\"" + Escape(f.text) + "\""
  }

  function SeparatorText(e: Separator): string {
    match e case Tab => "\t" case Lf => "\n" case CrLf => "\r\n" case Cr => "\r"
  }

  /** The pieces and then what is left. */
  function Text(pieces: seq<Piece>, last: string): string {
    if pieces == [] then last
    else FieldText(pieces[0].field) + (SeparatorText(pieces[0].end) + Text(pieces[1..], last))
  }

  predicate Begins(s: string, c: char) {
    s != "" && s[0] == c
  }

  /** No tab, line break or quote stands in a field that is not quoted. */
  predicate GoodField(f: Field) {
    f.Bare? ==> forall i :: 0 <= i < |f.text| ==> f.text[i] != '\t' && f.text[i] != '\n' && f.text[i] != '\r' && f.text[i] != '"'
  }

  predicate Good(pieces: seq<Piece>, last: string) {
    pieces == [] || (
      && GoodField(pieces[0].field) && Good(pieces[1..], last)
      && (pieces[0].end.Cr? ==> !Begins(Text(pieces[1..], last), '\n')))
  }

  /** The rows; nothing after the last line break is no row. */
  function Grid(pieces: seq<Piece>, current: seq<Field>, last: Field): seq<seq<Field>> {
    if pieces == [] then if current == [] && last == Bare("") then [] else [current + [last]]
    else if pieces[0].end.Tab? then Grid(pieces[1..], current + [pieces[0].field], last)
    else [current + [pieces[0].field]] + Grid(pieces[1..], [], last)
  }

  function Cells(grid: seq<seq<Field>>): nat {
    if grid == [] then 0 else |grid[0]| + Cells(grid[1..])
  }

  function Words(row: seq<Field>): seq<string> {
    seq(|row|, i requires 0 <= i < |row| => row[i].text)
  }

  function Marks(row: seq<Field>): seq<bool> {
    seq(|row|, i requires 0 <= i < |row| => row[i].Quoted?)
  }

  function AllWords(grid: seq<seq<Field>>): seq<seq<string>> {
    seq(|grid|, i requires 0 <= i < |grid| => Words(grid[i]))
  }

  function AllMarks(grid: seq<seq<Field>>): seq<seq<bool>> {
    seq(|grid|, i requires 0 <= i < |grid| => Marks(grid[i]))
  }

  // ---- reading what is well formed ----

  predicate Between(s: State, current: seq<Field>) {
    && s.field == "" && !s.wasQuoted && !s.inQuotes
    && s.row == Words(current) && s.rowQuoted == Marks(current) && |current| <= s.cells
  }

  lemma {:induction false} Stuck(s: State, text: string)
    requires LimitError(s).Some?
    ensures Parse(s, text).Err?
  {
  }

  lemma {:induction false} GridHolds(pieces: seq<Piece>, current: seq<Field>, last: Field)
    ensures Cells(Grid(pieces, current, last)) >= |current|
    decreases |pieces|
  {
    if pieces != [] {
      GridHolds(pieces[1..], if pieces[0].end.Tab? then current + [pieces[0].field] else [], last);
    }
  }

  lemma OpensQuotes(s: State, rest: string)
    requires Ready(s)
    ensures Parse(s, "\"" + rest) == Parse(s.(inQuotes := true, wasQuoted := true), rest)
  {
    assert ("\"" + rest)[1..] == rest;
  }

  /** One field is read up to the break after it. */
  lemma ReadsField(s: State, f: Field, rest: string)
    requires Ready(s) && AtBreak(rest) && GoodField(f)
    ensures Parse(s, FieldText(f) + rest) == Parse(s.(field := f.text, wasQuoted := f.Quoted?), rest)
  {
    hide Parse, Escape;
    assert "" + f.text == f.text;
    if f.Quoted? {
      assert FieldText(f) + rest == "\"" + (Escape(f.text) + "\"" + rest);
      OpensQuotes(s, Escape(f.text) + "\"" + rest);
      ParseEscaped(s.(inQuotes := true, wasQuoted := true), f.text, rest);
    } else {
      ParsePlain(s, f.text, rest);
    }
  }

  /** And what ends it ends the field, or the row. */
  lemma ReadsSeparator(s: State, e: Separator, rest: string)
    requires !s.inQuotes && LimitError(s).None? && (e.Cr? ==> !Begins(rest, '\n'))
    ensures Parse(s, SeparatorText(e) + rest) == Parse(if e.Tab? then EndField(s) else EndRow(s), rest)
  {
    var text := SeparatorText(e) + rest;
    var width := if e.CrLf? then 2 else 1;
    assert text[width..] == rest;
    assert e.CrLf? ==> text[1] == '\n';
    assert e.Cr? && rest != "" ==> text[1] == rest[0];
    assert Scan(s, text[0], Peek(text)) == Move(if e.Tab? then EndField(s) else EndRow(s), width);
  }

  lemma ReadsPiece(s: State, p: Piece, rest: string)
    requires Ready(s) && GoodField(p.field) && (p.end.Cr? ==> !Begins(rest, '\n'))
    ensures var open := s.(field := p.field.text, wasQuoted := p.field.Quoted?);
      Parse(s, FieldText(p.field) + (SeparatorText(p.end) + rest))
      == Parse(if p.end.Tab? then EndField(open) else EndRow(open), rest)
  {
    hide Parse;
    ReadsField(s, p.field, SeparatorText(p.end) + rest);
    ReadsSeparator(s.(field := p.field.text, wasQuoted := p.field.Quoted?), p.end, rest);
  }

  lemma RowSnoc(row: seq<Field>, f: Field)
    ensures Words(row + [f]) == Words(row) + [f.text] && Marks(row + [f]) == Marks(row) + [f.Quoted?]
  {
  }

  lemma GridCons(row: seq<Field>, rest: seq<seq<Field>>, words: seq<seq<string>>, marks: seq<seq<bool>>)
    ensures words + [Words(row)] + AllWords(rest) == words + AllWords([row] + rest)
    ensures marks + [Marks(row)] + AllMarks(rest) == marks + AllMarks([row] + rest)
    ensures Cells([row] + rest) == |row| + Cells(rest)
  {
    assert ([row] + rest)[1..] == rest;
    assert AllWords([row] + rest) == [Words(row)] + AllWords(rest);
    assert AllMarks([row] + rest) == [Marks(row)] + AllMarks(rest);
  }

  lemma ReadsLast(s: State, current: seq<Field>, last: Field)
    requires Between(s, current) && LimitError(s).None? && GoodField(last)
    ensures var grid, r := Grid([], current, last), Parse(s, FieldText(last));
      && (r.Ok? <==> s.cells - |current| + Cells(grid) <= 10_000 && |s.rows| + |grid| <= 500)
      && (r.Ok? ==> r.value == Parsed(s.rows + AllWords(grid), s.quoted + AllMarks(grid)))
  {
    hide Words, Marks;
    ReadsField(s, last, "");
    assert FieldText(last) + "" == FieldText(last);
    RowSnoc(current, last);
    assert Words([]) == [] by { NoFields(); }
    WordsLength(current);
    if current == [] && last == Bare("") {
      assert s.rows + AllWords([]) == s.rows && s.quoted + AllMarks([]) == s.quoted;
    } else {
      GridCons(current + [last], [], s.rows, s.quoted);
      assert [current + [last]] + [] == [current + [last]];
      assert s.rows + [Words(current + [last])] + AllWords([]) == s.rows + [Words(current + [last])];
      assert s.quoted + [Marks(current + [last])] + AllMarks([]) == s.quoted + [Marks(current + [last])];
    }
  }

  lemma NoFields()
    ensures Words([]) == [] && Marks([]) == []
  {
  }

  lemma WordsLength(row: seq<Field>)
    ensures |Words(row)| == |row|
  {
  }

  /** Well-formed text is accepted exactly within the limits, and is read as its rows. */
  lemma {:induction false} ReadsGrid(s: State, pieces: seq<Piece>, current: seq<Field>, last: Field)
    requires Between(s, current) && Good(pieces, FieldText(last)) && GoodField(last)
    ensures var grid, r := Grid(pieces, current, last), Parse(s, Text(pieces, FieldText(last)));
      && (r.Ok? <==> s.cells - |current| + Cells(grid) <= 10_000 && |s.rows| + |grid| <= 500)
      && (r.Ok? ==> r.value == Parsed(s.rows + AllWords(grid), s.quoted + AllMarks(grid)))
    decreases |pieces|
  {
    GridHolds(pieces, current, last);
    if LimitError(s).Some? {
      Stuck(s, Text(pieces, FieldText(last)));
    } else if pieces == [] {
      ReadsLast(s, current, last);
    } else {
      hide Parse, Words, Marks, FieldText, Text;
      var p := pieces[0];
      TextCons(pieces, FieldText(last));
      ReadsPiece(s, p, Text(pieces[1..], FieldText(last)));
      RowSnoc(current, p.field);
      var open := s.(field := p.field.text, wasQuoted := p.field.Quoted?);
      if p.end.Tab? {
        ReadsGrid(EndField(open), pieces[1..], current + [p.field], last);
      } else {
        NoFields();
        ReadsGrid(EndRow(open), pieces[1..], [], last);
        GridCons(current + [p.field], Grid(pieces[1..], [], last), s.rows, s.quoted);
      }
    }
  }

  lemma TextCons(pieces: seq<Piece>, last: string)
    requires pieces != []
    ensures Text(pieces, last) == FieldText(pieces[0].field) + (SeparatorText(pieces[0].end) + Text(pieces[1..], last))
  {
  }

  // ---- and what is not ----

  /** A quote that is never closed, a closed one with more text after it, or one inside bare text. */
  ghost predicate BadQuotes(last: string) {
    || (exists t :: last == Unclosed(t))
    || (exists t, c, more :: last == Trailed(t, c, more) && c != '\t' && c != '\n' && c != '\r' && c != '"')
    || (exists t, more :: last == Inside(t, more) && t != "" && GoodField(Bare(t)))
  }

  function Unclosed(t: string): string {
    "\"" + Escape(t)
  }

  function Trailed(t: string, c: char, more: string): string {
    "\"" + Escape(t) + "\"" + ([c] + more)
  }

  function Inside(t: string, more: string): string {
    t + ("\"" + more)
  }

  lemma {:induction false} NeverCloses(s: State, t: string)
    requires s.inQuotes && LimitError(s).None?
    ensures Parse(s, Escape(t)).Err?
    decreases |t|
  {
    if t != "" {
      var tail := Escape(t[1..]);
      ParseQuoted(s, t[0], tail);
      NeverCloses(s.(field := s.field + [t[0]]), t[1..]);
    }
  }

  lemma {:induction false} ClosesEarly(s: State, t: string, c: char, more: string)
    requires s.inQuotes && s.wasQuoted && LimitError(s).None? && c != '\t' && c != '\n' && c != '\r' && c != '"'
    ensures Parse(s, Escape(t) + "\"" + ([c] + more)).Err?
    decreases |t|
  {
    EscapedText(t, [c] + more);
    if t == "" {
      var text := "\"" + ([c] + more);
      assert text[1..] == [c] + more && text[1] == c;
      assert Parse(s, text) == Parse(s.(inQuotes := false), [c] + more);
    } else {
      var tail := Escape(t[1..]) + "\"" + ([c] + more);
      ParseQuoted(s, t[0], tail);
      ClosesEarly(s.(field := s.field + [t[0]]), t[1..], c, more);
    }
  }

  lemma BadQuotesFail(s: State, last: string)
    requires Ready(s) && BadQuotes(last)
    ensures Parse(s, last).Err?
  {
    hide Parse, Escape, Unclosed, Trailed, Inside;
    if t :| last == Unclosed(t) {
      UnclosedFails(s, t);
    } else if t, c, more :| last == Trailed(t, c, more) && c != '\t' && c != '\n' && c != '\r' && c != '"' {
      TrailedFails(s, t, c, more);
    } else {
      var t, more :| last == Inside(t, more) && t != "" && GoodField(Bare(t));
      InsideFails(s, t, more);
    }
  }

  lemma UnclosedFails(s: State, t: string)
    requires Ready(s)
    ensures Parse(s, Unclosed(t)).Err?
  {
    OpensQuotes(s, Escape(t));
    NeverCloses(s.(inQuotes := true, wasQuoted := true), t);
  }

  lemma TrailedFails(s: State, t: string, c: char, more: string)
    requires Ready(s) && c != '\t' && c != '\n' && c != '\r' && c != '"'
    ensures Parse(s, Trailed(t, c, more)).Err?
  {
    var rest := Escape(t) + "\"" + ([c] + more);
    assert Trailed(t, c, more) == "\"" + rest;
    OpensQuotes(s, rest);
    ClosesEarly(s.(inQuotes := true, wasQuoted := true), t, c, more);
  }

  lemma InsideFails(s: State, t: string, more: string)
    requires Ready(s) && t != "" && GoodField(Bare(t))
    ensures Parse(s, Inside(t, more)).Err?
  {
    ParsePlain(s, t, "\"" + more);
    assert s.field + t != "";
  }

  lemma {:induction false} BadTextFails(s: State, pieces: seq<Piece>, current: seq<Field>, last: string)
    requires Between(s, current) && Good(pieces, last) && BadQuotes(last)
    ensures Parse(s, Text(pieces, last)).Err?
    decreases |pieces|
  {
    if LimitError(s).Some? {
      Stuck(s, Text(pieces, last));
    } else if pieces == [] {
      BadQuotesFail(s, last);
    } else {
      hide Parse, Words, Marks, FieldText, Text, BadQuotes;
      var p := pieces[0];
      TextCons(pieces, last);
      ReadsPiece(s, p, Text(pieces[1..], last));
      RowSnoc(current, p.field);
      NoFields();
      var open := s.(field := p.field.text, wasQuoted := p.field.Quoted?);
      BadTextFails(if p.end.Tab? then EndField(open) else EndRow(open), pieces[1..],
        if p.end.Tab? then current + [p.field] else [], last);
    }
  }

  // ---- every text is one or the other ----

  lemma {:induction false} ReadEscaped(x: string) returns (t: string, closed: bool, after: string)
    ensures x == Escape(t) + (if closed then "\"" else "") + after
    ensures if closed then !Begins(after, '"') else after == ""
    decreases |x|
  {
    if x == "" {
      t, closed, after := "", false, "";
    } else if x[0] != '"' {
      t, closed, after := ReadEscaped(x[1..]);
      EscapeCons(x[0], t);
      t := [x[0]] + t;
    } else if Begins(x[1..], '"') {
      t, closed, after := ReadEscaped(x[2..]);
      EscapeCons('"', t);
      t := "\"" + t;
      assert x == "\"\"" + x[2..];
    } else {
      t, closed, after := "", true, x[1..];
    }
  }

  lemma EscapeCons(c: char, t: string)
    ensures Escape([c] + t) == (if c == '"' then "\"\"" else [c]) + Escape(t)
  {
    assert ([c] + t)[1..] == t;
  }

  lemma {:induction false} ReadBare(x: string) returns (t: string, after: string)
    ensures x == t + after && GoodField(Bare(t)) && (AtBreak(after) || after[0] == '"')
    ensures x != "" && x[0] != '"' && Begins(after, '"') ==> t != ""
    decreases |x|
  {
    if AtBreak(x) || x[0] == '"' {
      t, after := "", x;
    } else {
      t, after := ReadBare(x[1..]);
      t := [x[0]] + t;
    }
  }

  lemma ReadField(x: string) returns (f: Field, ok: bool, after: string)
    ensures ok ==> x == FieldText(f) + after && GoodField(f) && AtBreak(after)
    ensures !ok ==> BadQuotes(x)
  {
    hide Escape;
    if Begins(x, '"') {
      var t, closed, a := ReadEscaped(x[1..]);
      f, ok, after := Quoted(t), closed && AtBreak(a), a;
      if !closed {
        assert x == Unclosed(t);
      } else if !ok {
        assert x == Trailed(t, a[0], a[1..]);
      }
    } else {
      var t, a := ReadBare(x);
      f, ok, after := Bare(t), AtBreak(a), a;
      if !ok {
        assert x == Inside(t, a[1..]);
      }
    }
  }

  lemma ReadSeparator(x: string) returns (e: Separator, after: string)
    requires AtBreak(x) && x != ""
    ensures x == SeparatorText(e) + after && (e.Cr? ==> !Begins(after, '\n'))
  {
    if x[0] == '\t' {
      e, after := Tab, x[1..];
    } else if x[0] == '\n' {
      e, after := Lf, x[1..];
    } else if Begins(x[1..], '\n') {
      e, after := CrLf, x[2..];
    } else {
      e, after := Cr, x[1..];
    }
  }

  lemma PieceCons(p: Piece, pieces: seq<Piece>, last: string)
    requires GoodField(p.field) && Good(pieces, last) && (p.end.Cr? ==> !Begins(Text(pieces, last), '\n'))
    ensures Good([p] + pieces, last)
    ensures Text([p] + pieces, last) == FieldText(p.field) + (SeparatorText(p.end) + Text(pieces, last))
  {
    assert ([p] + pieces)[1..] == pieces;
  }

  /** Any text at all is pieces and a last field, or pieces and then bad quotes. */
  lemma {:induction false} EveryTextHasPieces(x: string) returns (pieces: seq<Piece>, last: Field, ok: bool, bad: string)
    ensures ok ==> x == Text(pieces, FieldText(last)) && Good(pieces, FieldText(last)) && GoodField(last)
    ensures !ok ==> x == Text(pieces, bad) && Good(pieces, bad) && BadQuotes(bad)
    decreases |x|
  {
    hide BadQuotes, FieldText;
    var f, good, after := ReadField(x);
    if !good {
      pieces, last, ok, bad := [], Bare(""), false, x;
    } else if after == "" {
      pieces, last, ok, bad := [], f, true, "";
      assert FieldText(f) + "" == FieldText(f);
    } else {
      var e, rest := ReadSeparator(after);
      assert |SeparatorText(e)| > 0;
      pieces, last, ok, bad := EveryTextHasPieces(rest);
      PieceCons(Piece(f, e), pieces, if ok then FieldText(last) else bad);
      pieces := [Piece(f, e)] + pieces;
    }
  }

  /**
   * Any paste: it is accepted exactly when its quotes are good, it has at most 10485760 bytes, its
   * rows have at most 10000 fields and are at most 500; and then it is those rows, each field with
   * its text and whether it was quoted.
   */
  lemma PasteIff(text: string) returns (pieces: seq<Piece>, last: Field, good: bool, bad: string)
    ensures good ==> text == Text(pieces, FieldText(last)) && Good(pieces, FieldText(last)) && GoodField(last)
    ensures !good ==> text == Text(pieces, bad) && Good(pieces, bad) && BadQuotes(bad)
    ensures var grid, r := Grid(pieces, [], last), Paste(text);
      && (r.Ok? <==> good && Utf8Length(text) <= 10_485_760 && Cells(grid) <= 10_000 && |grid| <= 500)
      && (r.Ok? ==> r.value == Parsed(AllWords(grid), AllMarks(grid)))
  {
    hide Utf8Length, Parse, Text, Good, BadQuotes, FieldText, GoodField, Grid, AllWords, AllMarks;
    pieces, last, good, bad := EveryTextHasPieces(text);
    NoFields();
    if good {
      ReadsGrid(Begin, pieces, [], last);
      var grid := Grid(pieces, [], last);
      assert [] + AllWords(grid) == AllWords(grid) && [] + AllMarks(grid) == AllMarks(grid);
    } else {
      BadTextFails(Begin, pieces, [], bad);
    }
  }

  /** Only the bare words NULL and DEFAULT stand for anything but their text. */
  lemma MarkersAreBare(f: Field)
    ensures InterpretMarker(f.text, f.Quoted?) ==
      if f == Bare("NULL") then NullMarker else if f == Bare("DEFAULT") then DefaultMarker else Value(f.text)
  {
  }

  /** A cell is quoted only where it must be: NULL is bare, and so is text that reads as itself. */
  lemma CellWording(c: Cell)
    ensures TsvCell(c) == FieldText(
      if c.Null? then Bare("NULL")
      else if GoodField(Bare(c.text)) && c.text != "" && c.text != "NULL" && c.text != "DEFAULT" then Bare(c.text)
      else Quoted(c.text))
  {
  }

  // ---- the header of a copied grid ----

  function HeaderField(name: string): Field {
    if NeedsQuotes(name, false) then Quoted(name) else Bare(name)
  }

  function HeaderFields(names: seq<string>): seq<Field> {
    seq(|names|, i requires 0 <= i < |names| => HeaderField(names[i]))
  }

  lemma HeaderFieldText(name: string)
    ensures FieldText(HeaderField(name)) == TsvField(name, false) && GoodField(HeaderField(name))
    ensures HeaderField(name).text == name
  {
  }

  lemma HeaderCons(names: seq<string>)
    requires |names| > 0
    ensures HeaderFields(names) == [HeaderField(names[0])] + HeaderFields(names[1..])
    ensures Header(names) == TsvField(names[0], false) + (if |names| > 1 then "\t" + Header(names[1..]) else "")
  {
    hide TsvField, HeaderField;
    var parts := seq(|names|, i requires 0 <= i < |names| => TsvField(names[i], false));
    assert parts[1..] == seq(|names[1..]|, i requires 0 <= i < |names[1..]| => TsvField(names[1..][i], false));
    assert Header(names) == Join(parts, "\t");
    assert TsvField(names[0], false) + "" == TsvField(names[0], false);
  }

  lemma JoinsOn(a: string, b: string, c: string)
    ensures (a + ("\t" + b)) + c == a + ("\t" + (b + c)) && (a + "") + c == a + c
  {
  }

  lemma {:induction false} ReadsHeader(s: State, current: seq<Field>, names: seq<string>, rest: string)
    requires Between(s, current) && |names| > 0 && s.cells + |names| <= 10_000 && |s.rows| <= 500
    ensures var row := current + HeaderFields(names);
      Parse(s, Header(names) + ("\n" + rest))
      == Parse(State(s.rows + [Words(row)], s.quoted + [Marks(row)], [], [], "", false, false, s.cells + |names|), rest)
    decreases |names|
  {
    hide Parse, Words, Marks, Header, HeaderField, TsvField, FieldText, GoodField, HeaderFields;
    var f := HeaderField(names[0]);
    HeaderFieldText(names[0]);
    HeaderCons(names);
    RowSnoc(current, f);
    JoinsOn(FieldText(f), if |names| > 1 then Header(names[1..]) else "", "\n" + rest);
    if |names| > 1 {
      var after := Header(names[1..]) + ("\n" + rest);
      ReadsPiece(s, Piece(f, Tab), after);
      ReadsHeader(EndField(s.(field := f.text, wasQuoted := f.Quoted?)), current + [f], names[1..], rest);
      assert current + [f] + HeaderFields(names[1..]) == current + HeaderFields(names);
    } else {
      ReadsPiece(s, Piece(f, Lf), rest);
      NoHeader(names[1..]);
      assert current + HeaderFields(names) == current + [f];
    }
  }

  lemma NoHeader(names: seq<string>)
    requires names == []
    ensures HeaderFields(names) == []
  {
  }

  lemma HeaderWords(names: seq<string>)
    ensures Words(HeaderFields(names)) == names
  {
  }

  /** A grid copied with its header pastes as the names and then the cells. */
  lemma HeaderReadsBack(names: seq<string>, grid: seq<seq<Cell>>)
    requires |names| > 0 && |grid| > 0 && forall i :: 0 <= i < |grid| ==> |grid[i]| > 0
    requires |names| + CellCount(grid) <= 10_000 && 1 + |grid| <= 500
    requires Utf8Length(Join([Header(names)] + Lines(grid), "\n")) <= 10_485_760
    ensures var r := Paste(Join([Header(names)] + Lines(grid), "\n"));
      r.Ok? && r.value.rows == [names] + AllTexts(grid)
  {
    hide Parse, Words, Marks, Header, HeaderFields, Line, AllTexts, AllQuotes, Utf8Length;
    var text := Join([Header(names)] + Lines(grid), "\n");
    assert ([Header(names)] + Lines(grid))[1..] == Lines(grid);
    assert text == Header(names) + ("\n" + ToTsvText(grid)) by { NewlineBetween(Header(names), ToTsvText(grid)); }
    NoFields();
    ReadsHeader(Begin, [], names, ToTsvText(grid));
    assert [] + HeaderFields(names) == HeaderFields(names);
    HeaderWords(names);
    var row := HeaderFields(names);
    ParseGrid(State([] + [Words(row)], [] + [Marks(row)], [], [], "", false, false, |names|), grid);
  }

  lemma NewlineBetween(a: string, b: string)
    ensures a + "\n" + b == a + ("\n" + b)
  {
  }
}
