module Csv {
  // toCsv of exporters.ts, against a reader of section 2 of RFC 4180 that knows nothing of the
  // printer.

  import opened Wrappers
  import opened Quoting

  // ---- the reader: section 2 of RFC 4180 ----

  datatype Field = Field(text: string, quoted: bool)
  datatype FieldAt = FieldAt(field: Field, rest: string)
  datatype RecordAt = RecordAt(fields: seq<Field>, rest: string)

  predicate Delimiter(c: char) {
    c == ',' || c == '"' || c == '\r' || c == '\n'
  }

  /** Length of the text before the first character an unquoted field may not hold. */
  function PlainLength(s: string): (n: nat)
    ensures n <= |s|
  {
    if s == "" || Delimiter(s[0]) then 0 else 1 + PlainLength(s[1..])
  }

  /** A quoted field, from just after its opening quote. */
  function ReadQuoted(s: string): (r: Option<FieldAt>)
    ensures r.Some? ==> |r.value.rest| < |s|
    decreases |s|
  {
    if s == "" then None
    else if s[0] != '"' then Prepend(s[0], ReadQuoted(s[1..]))
    else if |s| > 1 && s[1] == '"' then Prepend('"', ReadQuoted(s[2..]))
    else Some(FieldAt(Field("", true), s[1..]))
  }

  function Prepend(c: char, r: Option<FieldAt>): Option<FieldAt> {
    if r.None? then None else Some(FieldAt(Field([c] + r.value.field.text, true), r.value.rest))
  }

  function ReadField(s: string): (r: Option<FieldAt>)
    ensures r.Some? ==> |r.value.rest| <= |s|
  {
    if s != "" && s[0] == '"' then ReadQuoted(s[1..])
    else Some(FieldAt(Field(s[..PlainLength(s)], false), s[PlainLength(s)..]))
  }

  function ReadRecord(s: string): (r: Option<RecordAt>)
    ensures r.Some? ==> |r.value.rest| <= |s|
    decreases |s|
  {
    var f := ReadField(s);
    if f.None? then None
    else if f.value.rest == "" || f.value.rest[0] != ',' then Some(RecordAt([f.value.field], f.value.rest))
    else
      var more := ReadRecord(f.value.rest[1..]);
      if more.None? then None else Some(RecordAt([f.value.field] + more.value.fields, more.value.rest))
  }

  /** Records ended by CR LF; the last one's may be missing. */
  function ReadFile(s: string): Option<seq<seq<Field>>>
    decreases |s|
  {
    if s == "" then Some([])
    else
      var r := ReadRecord(s);
      if r.None? then None
      else if r.value.rest == "" then Some([r.value.fields])
      else if r.value.rest[0] != '\r' || |r.value.rest| == 1 || r.value.rest[1] != '\n' then None
      else
        var more := ReadFile(r.value.rest[2..]);
        if more.None? then None else Some([r.value.fields] + more.value)
  }

  // ---- the printer ----

  /** A result value as exported. Numbers and bytea are literal: they are never guarded. */
  datatype Cell = Null | Text(text: string, literal: bool)

  predicate Formula(s: string) {
    s != "" && s[0] in "=+-@"
  }

  function Guarded(s: string, formulaDefense: bool): string {
    if formulaDefense && Formula(s) then "'" + s else s
  }

  predicate Plain(s: string) {
    forall i :: 0 <= i < |s| ==> !Delimiter(s[i])
  }

  function CsvField(s: string, formulaDefense: bool): string {
    var guarded := Guarded(s, formulaDefense);
    if Plain(guarded) then guarded else "\"" + Escape(guarded) + "\""
  }

  function CsvCell(c: Cell, formulaDefense: bool): string {
    if c.Null? then ""
    else if c.text == "" then "\"\""
    else CsvField(c.text, formulaDefense && !c.literal)
  }

  function Header(names: seq<string>, formulaDefense: bool): seq<string> {
    seq(|names|, i requires 0 <= i < |names| => CsvField(names[i], formulaDefense))
  }

  function Record(row: seq<Cell>, formulaDefense: bool): seq<string> {
    seq(|row|, i requires 0 <= i < |row| => CsvCell(row[i], formulaDefense))
  }

  function Lines(names: seq<string>, grid: seq<seq<Cell>>, formulaDefense: bool): seq<string> {
    [Join(Header(names, formulaDefense), ",")]
    + seq(|grid|, i requires 0 <= i < |grid| => Join(Record(grid[i], formulaDefense), ","))
  }

  method ToCsv(names: seq<string>, grid: seq<seq<Cell>>, formulaDefense: bool) returns (text: string)
    ensures text == Join(Lines(names, grid, formulaDefense), "\r\n") + "\r\n"
  {
    var lines := [Join(Header(names, formulaDefense), ",")];
    var i := 0;
    while i < |grid|
      invariant 0 <= i <= |grid|
      invariant lines == Lines(names, grid, formulaDefense)[..i + 1]
    {
      lines := lines + [Join(Record(grid[i], formulaDefense), ",")];
      i := i + 1;
    }
    assert lines == Lines(names, grid, formulaDefense);
    text := Join(lines, "\r\n") + "\r\n";
  }

  // ---- reading back what was printed ----

  /** What the reader makes of one printed piece. */
  ghost predicate ReadsAs(printed: string, field: Field) {
    forall rest: string | rest == "" || rest[0] == ',' || rest[0] == '\r' ::
      ReadField(printed + rest) == Some(FieldAt(field, rest))
  }

  lemma {:induction false} PlainReads(f: string, rest: string)
    requires Plain(f) && (rest == "" || Delimiter(rest[0]))
    ensures PlainLength(f + rest) == |f|
    decreases |f|
  {
    if f == "" {
      assert f + rest == rest;
    } else {
      assert (f + rest)[1..] == f[1..] + rest && Plain(f[1..]);
      PlainReads(f[1..], rest);
    }
  }

  lemma ReadOne(c: char, tail: string)
    ensures c != '"' ==> ReadQuoted([c] + tail) == Prepend(c, ReadQuoted(tail))
    ensures ReadQuoted("\"\"" + tail) == Prepend('"', ReadQuoted(tail))
  {
    assert ([c] + tail)[1..] == tail && ("\"\"" + tail)[2..] == tail;
  }

  lemma ReadClosing(rest: string)
    requires rest == "" || rest[0] != '"'
    ensures ReadQuoted("\"" + rest) == Some(FieldAt(Field("", true), rest))
  {
    assert ("\"" + rest)[1..] == rest;
  }

  lemma {:induction false} EscapedReads(f: string, rest: string)
    requires rest == "" || rest[0] != '"'
    ensures ReadQuoted(Escape(f) + "\"" + rest) == Some(FieldAt(Field(f, true), rest))
    decreases |f|
  {
    var text := Escape(f) + "\"" + rest;
    hide ReadQuoted;
    if f == "" {
      ReadClosing(rest);
      assert text == "\"" + rest;
    } else {
      EscapedReads(f[1..], rest);
      var tail := Escape(f[1..]) + "\"" + rest;
      ReadOne(f[0], tail);
      assert [f[0]] + f[1..] == f;
      assert text == (if f[0] == '"' then "\"\"" else [f[0]]) + tail;
    }
  }

  /** With the defence on, text that starts like a formula has an apostrophe before it. */
  function Defended(s: string, formulaDefense: bool): string {
    if formulaDefense && s != "" && (s[0] == '=' || s[0] == '+' || s[0] == '-' || s[0] == '@') then "'" + s else s
  }

  /** The field a text comes back as. */
  function FieldOf(s: string, formulaDefense: bool): Field {
    var text := Defended(s, formulaDefense);
    Field(text, !Plain(text))
  }

  lemma GuardedIsDefended(s: string, formulaDefense: bool)
    ensures Guarded(s, formulaDefense) == Defended(s, formulaDefense)
    ensures Formula(s) <==> s != "" && (s[0] == '=' || s[0] == '+' || s[0] == '-' || s[0] == '@')
  {
  }

  lemma FieldReads(s: string, formulaDefense: bool)
    ensures ReadsAs(CsvField(s, formulaDefense), FieldOf(s, formulaDefense))
  {
    GuardedIsDefended(s, formulaDefense);
    hide Guarded, Defended;
    var g, printed := Guarded(s, formulaDefense), CsvField(s, formulaDefense);
    forall rest: string | rest == "" || rest[0] == ',' || rest[0] == '\r'
      ensures ReadField(printed + rest) == Some(FieldAt(Field(g, !Plain(g)), rest))
    {
      var text := printed + rest;
      if Plain(g) {
        PlainReads(g, rest);
        assert text[..|g|] == g && text[|g|..] == rest;
        assert text != "" ==> text[0] != '"' by {
          assert g != "" ==> text[0] == g[0];
        }
      } else {
        assert text == "\"" + (Escape(g) + "\"" + rest);
        assert text[1..] == Escape(g) + "\"" + rest;
        EscapedReads(g, rest);
      }
    }
  }

  /** The field a cell comes back as: NULL unquoted and empty, the empty string quoted. */
  function CellField(c: Cell, formulaDefense: bool): Field {
    if c.Null? then Field("", false)
    else if c.text == "" then Field("", true)
    else FieldOf(c.text, formulaDefense && !c.literal)
  }

  lemma CellReads(c: Cell, formulaDefense: bool)
    ensures ReadsAs(CsvCell(c, formulaDefense), CellField(c, formulaDefense))
  {
    if c.Null? {
      FieldReads("", false);
    } else if c.text == "" {
      forall rest: string | rest == "" || rest[0] == ',' || rest[0] == '\r'
        ensures ReadField("\"\"" + rest) == Some(FieldAt(Field("", true), rest))
      {
        var text := "\"\"" + rest;
        assert text[1..] == "\"" + rest && text[1..][1..] == rest;
      }
    } else {
      FieldReads(c.text, formulaDefense && !c.literal);
    }
  }

  ghost predicate AllReadAs(printed: seq<string>, fields: seq<Field>) {
    |printed| == |fields| && forall i :: 0 <= i < |printed| ==> ReadsAs(printed[i], fields[i])
  }

  lemma RecordStep(first: string, field: Field, more: string, got: RecordAt)
    requires ReadsAs(first, field) && ReadRecord(more) == Some(got)
    ensures ReadRecord(first + ("," + more)) == Some(RecordAt([field] + got.fields, got.rest))
  {
    var tail := "," + more;
    assert ReadField(first + tail) == Some(FieldAt(field, tail));
    assert tail[1..] == more;
  }

  lemma RecordEnd(first: string, field: Field, rest: string)
    requires ReadsAs(first, field) && (rest == "" || rest[0] == '\r')
    ensures ReadRecord(first + rest) == Some(RecordAt([field], rest))
  {
    assert ReadField(first + rest) == Some(FieldAt(field, rest));
  }

  lemma {:induction false} RecordReads(printed: seq<string>, fields: seq<Field>, rest: string)
    requires |printed| > 0 && AllReadAs(printed, fields) && (rest == "" || rest[0] == '\r')
    ensures ReadRecord(Join(printed, ",") + rest) == Some(RecordAt(fields, rest))
    decreases |printed|
  {
    hide ReadRecord, ReadsAs;
    if |printed| == 1 {
      RecordEnd(printed[0], fields[0], rest);
      assert fields == [fields[0]];
    } else {
      var more := Join(printed[1..], ",") + rest;
      assert Join(printed, ",") + rest == printed[0] + ("," + more);
      RecordReads(printed[1..], fields[1..], rest);
      RecordStep(printed[0], fields[0], more, RecordAt(fields[1..], rest));
      assert [fields[0]] + fields[1..] == fields;
    }
  }

  /** A printed line, as one of the records a file is made of. */
  ghost predicate LineReadsAs(line: string, fields: seq<Field>) {
    forall rest: string | rest == "" || rest[0] == '\r' ::
      ReadRecord(line + rest) == Some(RecordAt(fields, rest))
  }

  lemma FileStep(line: string, fields: seq<Field>, more: string, got: seq<seq<Field>>)
    requires LineReadsAs(line, fields) && ReadFile(more) == Some(got)
    ensures ReadFile(line + ("\r\n" + more)) == Some([fields] + got)
  {
    var tail := "\r\n" + more;
    assert ReadRecord(line + tail) == Some(RecordAt(fields, tail));
    assert tail[2..] == more;
    assert line + tail != "";
  }

  lemma NoRecords()
    ensures ReadFile("") == Some([])
  {
  }

  lemma {:induction false} FileReads(lines: seq<string>, records: seq<seq<Field>>)
    requires |lines| == |records| > 0
    requires forall i :: 0 <= i < |lines| ==> LineReadsAs(lines[i], records[i])
    ensures ReadFile(Join(lines, "\r\n") + "\r\n") == Some(records)
    decreases |lines|
  {
    hide ReadFile, LineReadsAs;
    var text := Join(lines, "\r\n") + "\r\n";
    if |lines| == 1 {
      assert text == lines[0] + ("\r\n" + "");
      NoRecords();
      FileStep(lines[0], records[0], "", []);
      assert records == [records[0]] + [];
    } else {
      var tail := Join(lines[1..], "\r\n") + "\r\n";
      assert text == lines[0] + ("\r\n" + tail);
      FileReads(lines[1..], records[1..]);
      FileStep(lines[0], records[0], tail, records[1..]);
      assert [records[0]] + records[1..] == records;
    }
  }

  function HeaderFields(names: seq<string>, formulaDefense: bool): seq<Field> {
    seq(|names|, i requires 0 <= i < |names| => FieldOf(names[i], formulaDefense))
  }

  function RowFields(row: seq<Cell>, formulaDefense: bool): seq<Field> {
    seq(|row|, i requires 0 <= i < |row| => CellField(row[i], formulaDefense))
  }

  function FileFields(names: seq<string>, grid: seq<seq<Cell>>, formulaDefense: bool): seq<seq<Field>> {
    [HeaderFields(names, formulaDefense)]
    + seq(|grid|, i requires 0 <= i < |grid| => RowFields(grid[i], formulaDefense))
  }

  predicate Rectangular(names: seq<string>, grid: seq<seq<Cell>>) {
    |names| > 0 && forall i :: 0 <= i < |grid| ==> |grid[i]| == |names|
  }

  lemma HeaderLineReads(names: seq<string>, formulaDefense: bool)
    requires |names| > 0
    ensures LineReadsAs(Join(Header(names, formulaDefense), ","), HeaderFields(names, formulaDefense))
  {
    var printed, fields := Header(names, formulaDefense), HeaderFields(names, formulaDefense);
    forall i | 0 <= i < |printed| ensures ReadsAs(printed[i], fields[i]) {
      FieldReads(names[i], formulaDefense);
    }
    forall rest: string | rest == "" || rest[0] == '\r'
      ensures ReadRecord(Join(printed, ",") + rest) == Some(RecordAt(fields, rest))
    {
      RecordReads(printed, fields, rest);
    }
  }

  lemma RowLineReads(row: seq<Cell>, formulaDefense: bool)
    requires |row| > 0
    ensures LineReadsAs(Join(Record(row, formulaDefense), ","), RowFields(row, formulaDefense))
  {
    var printed, fields := Record(row, formulaDefense), RowFields(row, formulaDefense);
    forall i | 0 <= i < |printed| ensures ReadsAs(printed[i], fields[i]) {
      CellReads(row[i], formulaDefense);
    }
    forall rest: string | rest == "" || rest[0] == '\r'
      ensures ReadRecord(Join(printed, ",") + rest) == Some(RecordAt(fields, rest))
    {
      RecordReads(printed, fields, rest);
    }
  }

  /** An RFC 4180 reader finds in the file exactly the header and the rows, field for field. */
  lemma CsvReadsBack(names: seq<string>, grid: seq<seq<Cell>>, formulaDefense: bool)
    requires Rectangular(names, grid)
    ensures ReadFile(Join(Lines(names, grid, formulaDefense), "\r\n") + "\r\n")
      == Some(FileFields(names, grid, formulaDefense))
  {
    hide ReadFile, LineReadsAs, Header, Record, HeaderFields, RowFields, Join;
    var lines, records := Lines(names, grid, formulaDefense), FileFields(names, grid, formulaDefense);
    forall i | 0 <= i < |lines| ensures LineReadsAs(lines[i], records[i]) {
      if i == 0 {
        HeaderLineReads(names, formulaDefense);
      } else {
        RowLineReads(grid[i - 1], formulaDefense);
      }
    }
    FileReads(lines, records);
  }

  // ---- what the fields mean ----

  /** NULL is the unquoted empty field; anything else is text. */
  function Meaning(f: Field): Option<string> {
    if !f.quoted && f.text == "" then None else Some(f.text)
  }

  function CellMeaning(c: Cell): Option<string> {
    if c.Null? then None else Some(c.text)
  }

  ghost predicate SameData(names: seq<string>, grid: seq<seq<Cell>>, records: seq<seq<Field>>) {
    && |records| == |grid| + 1 && |records[0]| == |names|
    && (forall j :: 0 <= j < |names| ==> records[0][j].text == names[j])
    && forall i :: 0 <= i < |grid| ==>
         && |records[i + 1]| == |grid[i]|
         && forall j :: 0 <= j < |grid[i]| ==> Meaning(records[i + 1][j]) == CellMeaning(grid[i][j])
  }

  predicate CellGuarded(c: Cell) {
    c.Text? && !c.literal && Formula(c.text)
  }

  predicate NoneGuarded(names: seq<string>, grid: seq<seq<Cell>>) {
    && (forall j :: 0 <= j < |names| ==> !Formula(names[j]))
    && forall i, j :: 0 <= i < |grid| && 0 <= j < |grid[i]| ==> !CellGuarded(grid[i][j])
  }

  lemma CellKept(c: Cell, formulaDefense: bool)
    ensures Meaning(CellField(c, formulaDefense)) == CellMeaning(c) <==> !(formulaDefense && CellGuarded(c))
  {
    if c.Text? && c.text != "" {
      GuardedIsDefended(c.text, formulaDefense && !c.literal);
      assert |Defended(c.text, formulaDefense && !c.literal)| > |c.text| <==> formulaDefense && CellGuarded(c);
    }
  }

  /**
   * The exported file reads back as the same names and cells, NULL and '' apart, exactly when the
   * formula defence is off or has nothing to guard.
   */
  lemma CsvRoundTripIff(names: seq<string>, grid: seq<seq<Cell>>, formulaDefense: bool)
    requires Rectangular(names, grid)
    ensures var r := ReadFile(Join(Lines(names, grid, formulaDefense), "\r\n") + "\r\n");
      r.Some? && (SameData(names, grid, r.value) <==> !formulaDefense || NoneGuarded(names, grid))
  {
    hide ReadFile, Join, Lines, CellField, CellMeaning;
    CsvReadsBack(names, grid, formulaDefense);
    var records := FileFields(names, grid, formulaDefense);
    forall i: nat, j: nat | i < |grid| && j < |grid[i]|
      ensures records[i + 1][j] == CellField(grid[i][j], formulaDefense)
      ensures Meaning(records[i + 1][j]) == CellMeaning(grid[i][j]) <==> !(formulaDefense && CellGuarded(grid[i][j]))
    {
      CellKept(grid[i][j], formulaDefense);
    }
    forall j | 0 <= j < |names|
      ensures records[0][j].text == names[j] <==> !(formulaDefense && Formula(names[j]))
    {
      GuardedIsDefended(names[j], formulaDefense);
      assert |Defended(names[j], formulaDefense)| > |names[j]| <==> formulaDefense && Formula(names[j]);
    }
  }

  ghost predicate NoFormula(grid: seq<seq<Cell>>, records: seq<seq<Field>>) {
    && |records| == |grid| + 1
    && (forall j :: 0 <= j < |records[0]| ==> !Formula(records[0][j].text))
    && forall i :: 0 <= i < |grid| ==>
         && |records[i + 1]| == |grid[i]|
         && forall j :: 0 <= j < |grid[i]| ==>
              Formula(records[i + 1][j].text) ==> grid[i][j].Text? && grid[i][j].literal
  }

  lemma CellNoFormula(c: Cell)
    ensures Formula(CellField(c, true).text) ==> c.Text? && c.literal
  {
  }

  /** With the defence on, a spreadsheet finds no formula: only numbers and bytea may start with one of = + - @. */
  lemma DefenceLeavesNoFormula(names: seq<string>, grid: seq<seq<Cell>>)
    requires Rectangular(names, grid)
    ensures var r := ReadFile(Join(Lines(names, grid, true), "\r\n") + "\r\n");
      r.Some? && NoFormula(grid, r.value)
  {
    hide Lines, ReadFile, Join, Formula, CellField;
    CsvReadsBack(names, grid, true);
    var records: seq<seq<Field>> := FileFields(names, grid, true);
    forall i: nat, j: nat | i < |grid| && j < |grid[i]|
      ensures Formula(records[i + 1][j].text) ==> grid[i][j].Text? && grid[i][j].literal
    {
      CellNoFormula(grid[i][j]);
    }
    HeaderNoFormula(names);
  }

  lemma HeaderNoFormula(names: seq<string>)
    ensures forall j :: 0 <= j < |HeaderFields(names, true)| ==> !Formula(HeaderFields(names, true)[j].text)
  {
  }
}
