module Tsv {
  // Clipboard text: toTsv of exporters.ts printed, parseTsv and interpretMarker of tsv.ts read
  // back.

  import opened Wrappers
  import opened Sums
  import opened Quoting

  const MAX_PASTE_CELLS: nat := 10_000
  const MAX_PASTE_ROWS: nat := 500
  const MAX_PASTE_BYTES: nat := 10 * 1024 * 1024

  datatype ParseError = TooManyBytes | TooManyCells | TooManyRows | BadQuote | UnclosedQuote

  datatype Parsed = Parsed(rows: seq<seq<string>>, quoted: seq<seq<bool>>)

  /** The parser's locals. */
  datatype State = State(
    rows: seq<seq<string>>, quoted: seq<seq<bool>>, row: seq<string>, rowQuoted: seq<bool>,
    field: string, wasQuoted: bool, inQuotes: bool, cells: nat)

  const Begin: State := State([], [], [], [], "", false, false, 0)

  /** Bytes of one character in UTF-8. */
  function Utf8(c: char): nat {
    if c as int < 0x80 then 1 else if c as int < 0x800 then 2 else if c as int < 0x1_0000 then 3 else 4
  }

  function Utf8Length(s: string): nat {
    SumSeq(seq(|s|, i requires 0 <= i < |s| => Utf8(s[i])))
  }

  function EndField(s: State): State {
    s.(row := s.row + [s.field], rowQuoted := s.rowQuoted + [s.wasQuoted], cells := s.cells + 1,
       field := "", wasQuoted := false)
  }

  function EndRow(s: State): State {
    var t := EndField(s);
    t.(rows := t.rows + [t.row], quoted := t.quoted + [t.rowQuoted], row := [], rowQuoted := [])
  }

  function LimitError(s: State): Option<ParseError> {
    if s.cells > MAX_PASTE_CELLS then Some(TooManyCells)
    else if |s.rows| > MAX_PASTE_ROWS then Some(TooManyRows)
    else None
  }

  datatype Step = Move(state: State, width: nat) | Stop

  /** One turn of the scanning loop: the next state and how far it moved, or Stop at a bad quote. */
  function Scan(s: State, c: char, next: Option<char>): (step: Step)
    ensures step.Move? ==> 1 <= step.width <= (if next.Some? then 2 else 1)
  {
    if s.inQuotes then
      if c == '"' then
        if next == Some('"') then Move(s.(field := s.field + "\""), 2) else Move(s.(inQuotes := false), 1)
      else Move(s.(field := s.field + [c]), 1)
    else if c == '"' && s.field == "" && !s.wasQuoted then Move(s.(inQuotes := true, wasQuoted := true), 1)
    else if c == '\t' then Move(EndField(s), 1)
    else if c == '\n' then Move(EndRow(s), 1)
    else if c == '\r' then Move(EndRow(s), if next == Some('\n') then 2 else 1)
    else if s.wasQuoted || c == '"' then Stop
    else Move(s.(field := s.field + [c]), 1)
  }

  function Peek(rest: string): Option<char> {
    if |rest| > 1 then Some(rest[1]) else None
  }

  function Finish(s: State): Result<Parsed, ParseError> {
    if s.inQuotes then Err(UnclosedQuote)
    else
      var t := if s.field != "" || s.row != [] || s.wasQuoted then EndRow(s) else s;
      if LimitError(t).Some? then Err(LimitError(t).value) else Ok(Parsed(t.rows, t.quoted))
  }

  /** What scanning the rest of the text from a state comes to. */
  function Parse(s: State, rest: string): Result<Parsed, ParseError>
    decreases |rest|
  {
    if rest == "" then Finish(s)
    else if LimitError(s).Some? then Err(LimitError(s).value)
    else
      var step := Scan(s, rest[0], Peek(rest));
      if step.Stop? then Err(BadQuote) else Parse(step.state, rest[step.width..])
  }

  /** What pasting a text comes to. */
  function Paste(text: string): Result<Parsed, ParseError> {
    if Utf8Length(text) > MAX_PASTE_BYTES then Err(TooManyBytes) else Parse(Begin, text)
  }

  lemma ParseUnfold(s: State, text: string, i: nat)
    requires i < |text|
    ensures LimitError(s).Some? ==> Parse(s, text[i..]) == Err(LimitError(s).value)
    ensures LimitError(s).None? ==>
      var step := Scan(s, text[i], if i + 1 < |text| then Some(text[i + 1]) else None);
      Parse(s, text[i..]) == if step.Stop? then Err(BadQuote) else Parse(step.state, text[i + step.width..])
  {
    var rest := text[i..];
    assert Peek(rest) == if i + 1 < |text| then Some(text[i + 1]) else None;
    var step := Scan(s, rest[0], Peek(rest));
    if step.Move? {
      assert rest[step.width..] == text[i + step.width..];
    }
  }

  lemma ParseEnd(s: State)
    ensures Parse(s, "") == Finish(s)
  {
  }

  method ParseTsv(text: string) returns (r: Result<Parsed, ParseError>)
    ensures r == Paste(text)
  {
    hide Parse, Utf8Length;
    if Utf8Length(text) > MAX_PASTE_BYTES {
      return Err(TooManyBytes);
    }
    var rows: seq<seq<string>>, quoted: seq<seq<bool>> := [], [];
    var row: seq<string>, rowQuoted: seq<bool> := [], [];
    var field := "";
    var inQuotes, wasQuoted := false, false;
    var cells, i := 0, 0;
    ghost var s := Begin;
    while i < |text|
      invariant 0 <= i <= |text|
      invariant s == State(rows, quoted, row, rowQuoted, field, wasQuoted, inQuotes, cells)
      invariant Paste(text) == Parse(s, text[i..])
      decreases |text| - i
    {
      ParseUnfold(s, text, i);
      if cells > MAX_PASTE_CELLS { return Err(TooManyCells); }
      if |rows| > MAX_PASTE_ROWS { return Err(TooManyRows); }
      var c := text[i];
      var next := if i + 1 < |text| then Some(text[i + 1]) else None;
      ghost var step := Scan(s, c, next);
      ghost var at := i;
      if inQuotes {
        if c == '"' {
          if next == Some('"') {
            field := field + "\"";
            i := i + 2;
          } else {
            inQuotes := false;
            i := i + 1;
          }
        } else {
          field := field + [c];
          i := i + 1;
        }
      } else if c == '"' && field == "" && !wasQuoted {
        inQuotes, wasQuoted := true, true;
        i := i + 1;
      } else if c == '\t' {
        row, rowQuoted, cells := row + [field], rowQuoted + [wasQuoted], cells + 1;
        field, wasQuoted := "", false;
        i := i + 1;
      } else if c == '\n' || c == '\r' {
        rows, quoted, cells := rows + [row + [field]], quoted + [rowQuoted + [wasQuoted]], cells + 1;
        row, rowQuoted, field, wasQuoted := [], [], "", false;
        i := i + (if c == '\r' && next == Some('\n') then 2 else 1);
      } else {
        if wasQuoted || c == '"' {
          return Err(BadQuote);
        }
        field := field + [c];
        i := i + 1;
      }
      s := State(rows, quoted, row, rowQuoted, field, wasQuoted, inQuotes, cells);
      assert step == Move(s, i - at);
    }
    assert text[i..] == "";
    ParseEnd(s);
    if inQuotes {
      return Err(UnclosedQuote);
    }
    if field != "" || row != [] || wasQuoted {
      rows, quoted, cells := rows + [row + [field]], quoted + [rowQuoted + [wasQuoted]], cells + 1;
    }
    if cells > MAX_PASTE_CELLS { return Err(TooManyCells); }
    if |rows| > MAX_PASTE_ROWS { return Err(TooManyRows); }
    r := Ok(Parsed(rows, quoted));
  }

  datatype Marker = Value(text: string) | NullMarker | DefaultMarker

  /** The words NULL and DEFAULT stand for markers only where they were not quoted. */
  function InterpretMarker(field: string, wasQuoted: bool): Marker {
    if !wasQuoted && field == "NULL" then NullMarker
    else if !wasQuoted && field == "DEFAULT" then DefaultMarker
    else Value(field)
  }

  // ---- printing ----

  /** A grid cell as exported: SQL NULL, or the text of a value. */
  datatype Cell = Null | Text(text: string)

  predicate Special(c: char) {
    c == '\t' || c == '\n' || c == '\r' || c == '"'
  }

  predicate Plain(s: string) {
    forall i :: 0 <= i < |s| ==> !Special(s[i])
  }

  predicate NeedsQuotes(s: string, literal: bool) {
    !Plain(s) || (literal && (s == "" || s == "NULL" || s == "DEFAULT"))
  }

  function TsvField(s: string, literal: bool): string {
    if NeedsQuotes(s, literal) then "\"" + Escape(s) + "\"" else s
  }

  function CellText(c: Cell): string {
    if c.Null? then "NULL" else c.text
  }

  function TsvCell(c: Cell): string {
    TsvField(CellText(c), !c.Null?)
  }

  function Line(row: seq<Cell>): string {
    Join(seq(|row|, i requires 0 <= i < |row| => TsvCell(row[i])), "\t")
  }

  function Lines(grid: seq<seq<Cell>>): seq<string> {
    seq(|grid|, i requires 0 <= i < |grid| => Line(grid[i]))
  }

  function Header(names: seq<string>): string {
    Join(seq(|names|, i requires 0 <= i < |names| => TsvField(names[i], false)), "\t")
  }

  function ToTsvText(grid: seq<seq<Cell>>): string {
    Join(Lines(grid), "\n")
  }

  lemma NoLines(head: seq<string>, grid: seq<seq<Cell>>)
    ensures head + Lines(grid[..0]) == head
  {
  }

  lemma LinesNext(head: seq<string>, grid: seq<seq<Cell>>, i: nat)
    requires i < |grid|
    ensures head + Lines(grid[..i + 1]) == head + Lines(grid[..i]) + [Line(grid[i])]
  {
    hide Line;
    assert Lines(grid[..i + 1]) == Lines(grid[..i]) + [Line(grid[i])];
  }

  method ToTsv(names: seq<string>, grid: seq<seq<Cell>>, includeHeader: bool) returns (text: string)
    ensures !includeHeader ==> text == ToTsvText(grid)
    ensures includeHeader ==> text == Join([Header(names)] + Lines(grid), "\n")
  {
    hide Line, Join, Header, Lines;
    var lines: seq<string> := [];
    if includeHeader {
      lines := [Header(names)];
    }
    NoLines(lines, grid);
    var i := 0;
    while i < |grid|
      invariant 0 <= i <= |grid|
      invariant lines == (if includeHeader then [Header(names)] else []) + Lines(grid[..i])
    {
      LinesNext(if includeHeader then [Header(names)] else [], grid, i);
      lines := lines + [Line(grid[i])];
      i := i + 1;
    }
    text := Join(lines, "\n");
    assert grid[..i] == grid && [] + Lines(grid) == Lines(grid);
  }

  // ---- the round trip ----

  /** A state between fields, within the limits. */
  predicate Ready(s: State) {
    s.field == "" && !s.wasQuoted && !s.inQuotes && LimitError(s).None?
  }

  predicate AtBreak(rest: string) {
    rest == "" || rest[0] == '\t' || rest[0] == '\n' || rest[0] == '\r'
  }

  lemma {:induction false} ParsePlain(s: State, f: string, rest: string)
    requires !s.inQuotes && !s.wasQuoted && LimitError(s).None? && Plain(f)
    ensures Parse(s, f + rest) == Parse(s.(field := s.field + f), rest)
    decreases |f|
  {
    if f == "" {
      assert f + rest == rest && s.field + f == s.field;
    } else {
      assert (f + rest)[1..] == f[1..] + rest;
      assert s.field + [f[0]] + f[1..] == s.field + f;
      assert Plain(f[1..]);
      ParsePlain(s.(field := s.field + [f[0]]), f[1..], rest);
    }
  }

  /** One printed character inside quotes is read back, and the closing quote ends them. */
  lemma ParseQuoted(s: State, c: char, tail: string)
    requires s.inQuotes && LimitError(s).None?
    ensures c != '"' ==> Parse(s, [c] + tail) == Parse(s.(field := s.field + [c]), tail)
    ensures c == '"' ==> Parse(s, "\"\"" + tail) == Parse(s.(field := s.field + [c]), tail)
    ensures AtBreak(tail) ==> Parse(s, "\"" + tail) == Parse(s.(inQuotes := false), tail)
  {
    assert ([c] + tail)[1..] == tail && ("\"" + tail)[1..] == tail;
    assert ("\"\"" + tail)[2..] == tail && (c == '"' ==> [c] == "\"");
  }

  lemma {:induction false} ParseEscaped(s: State, f: string, rest: string)
    requires s.inQuotes && LimitError(s).None? && AtBreak(rest)
    ensures Parse(s, Escape(f) + "\"" + rest) == Parse(s.(field := s.field + f, inQuotes := false), rest)
    decreases |f|
  {
    EscapedText(f, rest);
    hide Parse, Escape;
    if f == "" {
      ParseQuoted(s, ' ', rest);
      assert s.field + f == s.field;
    } else {
      var tail := Escape(f[1..]) + "\"" + rest;
      ParseQuoted(s, f[0], tail);
      ParseEscaped(s.(field := s.field + [f[0]]), f[1..], rest);
      assert s.field + [f[0]] + f[1..] == s.field + f;
    }
  }

  lemma EscapedText(f: string, rest: string)
    ensures f == "" ==> Escape(f) + "\"" + rest == "\"" + rest
    ensures f != "" ==>
      Escape(f) + "\"" + rest == (if f[0] == '"' then "\"\"" else [f[0]]) + (Escape(f[1..]) + "\"" + rest)
  {
  }

  /** One printed field, read up to the break after it. */
  lemma ParseField(s: State, f: string, literal: bool, rest: string)
    requires Ready(s) && AtBreak(rest)
    ensures Parse(s, TsvField(f, literal) + rest) == Parse(s.(field := f, wasQuoted := NeedsQuotes(f, literal)), rest)
  {
    assert "" + f == f;
    if NeedsQuotes(f, literal) {
      var text := TsvField(f, literal) + rest;
      assert text == "\"" + (Escape(f) + "\"" + rest);
      assert text[1..] == Escape(f) + "\"" + rest;
      ParseEscaped(s.(inQuotes := true, wasQuoted := true), f, rest);
    } else {
      ParsePlain(s, f, rest);
    }
  }

  function CellQuoted(c: Cell): bool {
    NeedsQuotes(CellText(c), !c.Null?)
  }

  function Texts(row: seq<Cell>): seq<string> {
    seq(|row|, i requires 0 <= i < |row| => CellText(row[i]))
  }

  function Quotes(row: seq<Cell>): seq<bool> {
    seq(|row|, i requires 0 <= i < |row| => CellQuoted(row[i]))
  }

  /** The state once a whole row has been read and ended. */
  function RowRead(s: State, row: seq<Cell>): State {
    State(s.rows + [s.row + Texts(row)], s.quoted + [s.rowQuoted + Quotes(row)], [], [], "", false, false,
          s.cells + |row|)
  }

  lemma LineCons(row: seq<Cell>)
    requires |row| > 1
    ensures Line(row) == TsvCell(row[0]) + "\t" + Line(row[1..])
  {
    hide TsvCell;
    var parts := seq(|row|, i requires 0 <= i < |row| => TsvCell(row[i]));
    assert parts[1..] == seq(|row[1..]|, i requires 0 <= i < |row[1..]| => TsvCell(row[1..][i]));
  }

  lemma LineOne(row: seq<Cell>)
    requires |row| == 1
    ensures Line(row) == TsvCell(row[0])
  {
  }

  /** The state just after a row's last field, with the fields before it already ended. */
  function LastOpen(s: State, row: seq<Cell>): State
    requires |row| > 0
  {
    var n := |row| - 1;
    State(s.rows, s.quoted, s.row + Texts(row)[..n], s.rowQuoted + Quotes(row)[..n], CellText(row[n]),
          CellQuoted(row[n]), false, s.cells + n)
  }

  lemma EndLastOpen(s: State, row: seq<Cell>)
    requires |row| > 0
    ensures EndRow(LastOpen(s, row)) == RowRead(s, row)
    ensures LastOpen(s, row).field != "" || LastOpen(s, row).wasQuoted
  {
    var n := |row| - 1;
    assert s.row + Texts(row)[..n] + [CellText(row[n])] == s.row + Texts(row);
    assert s.rowQuoted + Quotes(row)[..n] + [CellQuoted(row[n])] == s.rowQuoted + Quotes(row);
  }

  lemma LastOpenOne(s: State, c: Cell)
    requires Ready(s)
    ensures LastOpen(s, [c]) == s.(field := CellText(c), wasQuoted := CellQuoted(c))
  {
    assert Texts([c])[..0] == [] && Quotes([c])[..0] == [];
    assert s.row + [] == s.row && s.rowQuoted + [] == s.rowQuoted;
  }

  lemma LastOpenCons(s: State, row: seq<Cell>)
    requires Ready(s) && |row| > 1
    ensures LastOpen(EndField(LastOpen(s, row[..1])), row[1..]) == LastOpen(s, row)
  {
    assert row[..1] == [row[0]];
    LastOpenOne(s, row[0]);
    var n := |row| - 1;
    assert s.row + [CellText(row[0])] + Texts(row[1..])[..n - 1] == s.row + Texts(row)[..n];
    assert s.rowQuoted + [CellQuoted(row[0])] + Quotes(row[1..])[..n - 1] == s.rowQuoted + Quotes(row)[..n];
  }

  lemma ParseTab(s: State, rest: string)
    requires !s.inQuotes && LimitError(s).None?
    ensures Parse(s, "\t" + rest) == Parse(EndField(s), rest)
  {
    var text := "\t" + rest;
    assert text[1..] == rest;
    assert Scan(s, text[0], Peek(text)) == Move(EndField(s), 1);
  }

  lemma ParseNewline(s: State, rest: string)
    requires !s.inQuotes && LimitError(s).None?
    ensures Parse(s, "\n" + rest) == Parse(EndRow(s), rest)
  {
    var text := "\n" + rest;
    assert text[1..] == rest;
    assert Scan(s, text[0], Peek(text)) == Move(EndRow(s), 1);
  }

  lemma ParseCell(s: State, c: Cell, rest: string)
    requires Ready(s) && AtBreak(rest)
    ensures Parse(s, TsvCell(c) + rest) == Parse(LastOpen(s, [c]), rest)
  {
    ParseField(s, CellText(c), !c.Null?, rest);
    LastOpenOne(s, c);
  }

  lemma ParseFirstCell(s: State, row: seq<Cell>, rest: string)
    requires Ready(s) && |row| > 1
    ensures Parse(s, Line(row) + rest) == Parse(EndField(LastOpen(s, row[..1])), Line(row[1..]) + rest)
  {
    LineCons(row);
    var after := Line(row[1..]) + rest;
    assert Line(row) + rest == TsvCell(row[0]) + ("\t" + after);
    ParseCell(s, row[0], "\t" + after);
    assert row[..1] == [row[0]];
    ParseTab(LastOpen(s, row[..1]), after);
  }

  /** Reading a line leaves the row's last field open, with the others already ended. */
  lemma {:induction false} ParseLine(s: State, row: seq<Cell>, rest: string)
    requires Ready(s) && |row| > 0 && s.cells + |row| <= MAX_PASTE_CELLS
    requires rest == "" || rest[0] == '\n'
    ensures Parse(s, Line(row) + rest) == Parse(LastOpen(s, row), rest)
    decreases |row|
  {
    if |row| == 1 {
      LineOne(row);
      assert row == [row[0]];
      ParseCell(s, row[0], rest);
    } else {
      ParseFirstCell(s, row, rest);
      ParseLine(EndField(LastOpen(s, row[..1])), row[1..], rest);
      LastOpenCons(s, row);
    }
  }

  function CellCount(grid: seq<seq<Cell>>): nat {
    if |grid| == 0 then 0 else |grid[0]| + CellCount(grid[1..])
  }

  function AllTexts(grid: seq<seq<Cell>>): seq<seq<string>> {
    seq(|grid|, i requires 0 <= i < |grid| => Texts(grid[i]))
  }

  function AllQuotes(grid: seq<seq<Cell>>): seq<seq<bool>> {
    seq(|grid|, i requires 0 <= i < |grid| => Quotes(grid[i]))
  }

  lemma TextCons(grid: seq<seq<Cell>>)
    requires |grid| > 0
    ensures ToTsvText(grid) == Line(grid[0]) + (if |grid| == 1 then "" else "\n" + ToTsvText(grid[1..]))
  {
    assert Lines(grid)[1..] == Lines(grid[1..]);
    assert Line(grid[0]) + "" == Line(grid[0]);
  }

  lemma LastRowRead(s: State, row: seq<Cell>)
    requires Ready(s) && s.row == [] && s.rowQuoted == [] && |row| > 0
    requires s.cells + |row| <= MAX_PASTE_CELLS && |s.rows| + 1 <= MAX_PASTE_ROWS
    ensures Parse(LastOpen(s, row), "") == Ok(Parsed(s.rows + [Texts(row)], s.quoted + [Quotes(row)]))
  {
    hide Texts, Quotes, LastOpen;
    EndLastOpen(s, row);
    assert [] + Texts(row) == Texts(row) && [] + Quotes(row) == Quotes(row);
    OpenState(s, row);
    ParseEnd(LastOpen(s, row));
  }

  lemma OpenState(s: State, row: seq<Cell>)
    requires |row| > 0
    ensures !LastOpen(s, row).inQuotes && LastOpen(s, row).cells == s.cells + |row| - 1
    ensures LastOpen(s, row).rows == s.rows
  {
  }

  lemma {:induction false} ParseGrid(s: State, grid: seq<seq<Cell>>)
    requires Ready(s) && s.row == [] && s.rowQuoted == [] && |grid| > 0
    requires forall i :: 0 <= i < |grid| ==> |grid[i]| > 0
    requires s.cells + CellCount(grid) <= MAX_PASTE_CELLS && |s.rows| + |grid| <= MAX_PASTE_ROWS
    ensures Parse(s, ToTsvText(grid)) == Ok(Parsed(s.rows + AllTexts(grid), s.quoted + AllQuotes(grid)))
    decreases |grid|
  {
    hide Parse, ToTsvText, Line, Texts, Quotes, LastOpen;
    TextCons(grid);
    var row := grid[0];
    var rest := if |grid| == 1 then "" else "\n" + ToTsvText(grid[1..]);
    ParseLine(s, row, rest);
    EndLastOpen(s, row);
    OpenState(s, row);
    assert [] + Texts(row) == Texts(row) && [] + Quotes(row) == Quotes(row);
    if |grid| == 1 {
      LastRowRead(s, row);
      assert AllTexts(grid) == [Texts(row)] && AllQuotes(grid) == [Quotes(row)];
    } else {
      ParseNewline(LastOpen(s, row), ToTsvText(grid[1..]));
      ParseGrid(RowRead(s, row), grid[1..]);
      assert s.rows + [Texts(row)] + AllTexts(grid[1..]) == s.rows + AllTexts(grid);
      assert s.quoted + [Quotes(row)] + AllQuotes(grid[1..]) == s.quoted + AllQuotes(grid);
    }
  }

  function Meaning(c: Cell): Marker {
    if c.Null? then NullMarker else Value(c.text)
  }

  lemma CellMeaning(c: Cell)
    ensures InterpretMarker(CellText(c), CellQuoted(c)) == Meaning(c)
  {
  }

  /**
   * Copying a grid and pasting it back gives the same cells: NULL, the empty string, the words
   * NULL and DEFAULT, and text with tabs, quotes or line breaks all come back as they were.
   */
  lemma TsvRoundTrip(grid: seq<seq<Cell>>)
    requires |grid| > 0 && forall i :: 0 <= i < |grid| ==> |grid[i]| > 0
    requires CellCount(grid) <= MAX_PASTE_CELLS && |grid| <= MAX_PASTE_ROWS
    requires Utf8Length(ToTsvText(grid)) <= MAX_PASTE_BYTES
    ensures var r := Paste(ToTsvText(grid));
      && r.Ok? && |r.value.rows| == |r.value.quoted| == |grid|
      && forall i :: 0 <= i < |grid| ==>
           && |r.value.rows[i]| == |r.value.quoted[i]| == |grid[i]|
           && forall j :: 0 <= j < |grid[i]| ==>
                InterpretMarker(r.value.rows[i][j], r.value.quoted[i][j]) == Meaning(grid[i][j])
  {
    ParseGrid(Begin, grid);
    hide Parse, ToTsvText, CellText, CellQuoted, InterpretMarker, Meaning, CellCount, Utf8Length;
    assert [] + AllTexts(grid) == AllTexts(grid) && [] + AllQuotes(grid) == AllQuotes(grid);
    forall i, j | 0 <= i < |grid| && 0 <= j < |grid[i]|
      ensures InterpretMarker(AllTexts(grid)[i][j], AllQuotes(grid)[i][j]) == Meaning(grid[i][j])
    {
      CellMeaning(grid[i][j]);
    }
  }

  // ---- what any accepted paste is like ----

  function RowSizes(rows: seq<seq<string>>): seq<nat> {
    seq(|rows|, i requires 0 <= i < |rows| => |rows[i]|)
  }

  ghost predicate Counts(s: State) {
    && s.cells == SumSeq(RowSizes(s.rows)) + |s.row|
    && |s.rows| == |s.quoted| && |s.row| == |s.rowQuoted|
    && forall i :: 0 <= i < |s.rows| ==> |s.rows[i]| == |s.quoted[i]|
  }

  lemma EndRowCounts(s: State)
    requires Counts(s)
    ensures Counts(EndRow(s)) && Counts(EndField(s))
  {
    var rows := s.rows + [s.row + [s.field]];
    assert RowSizes(rows)[..|s.rows|] == RowSizes(s.rows);
  }

  lemma {:induction false} ParseCounts(s: State, rest: string)
    requires Counts(s)
    ensures var r := Parse(s, rest);
      r.Ok? ==>
        && |r.value.rows| <= MAX_PASTE_ROWS && SumSeq(RowSizes(r.value.rows)) <= MAX_PASTE_CELLS
        && |r.value.rows| == |r.value.quoted|
        && forall i :: 0 <= i < |r.value.rows| ==> |r.value.rows[i]| == |r.value.quoted[i]|
    decreases |rest|
  {
    EndRowCounts(s);
    if rest != "" && LimitError(s).None? {
      var step := Scan(s, rest[0], Peek(rest));
      if step.Move? {
        ParseCounts(step.state, rest[step.width..]);
      }
    }
  }

  /** Whatever text is pasted, an accepted grid is inside both limits and flags every field. */
  lemma AcceptedPasteIsBounded(text: string)
    ensures var r := Paste(text);
      r.Ok? ==>
        && |r.value.rows| <= MAX_PASTE_ROWS && SumSeq(RowSizes(r.value.rows)) <= MAX_PASTE_CELLS
        && |r.value.rows| == |r.value.quoted|
        && forall i :: 0 <= i < |r.value.rows| ==> |r.value.rows[i]| == |r.value.quoted[i]|
  {
    ParseCounts(Begin, text);
  }
}
