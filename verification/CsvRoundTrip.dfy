/** The console's CSV writer (format.ts, csvCell and recordsToCsv) and what the loader reads back from it. Cells are
    the formatted texts; every character the writer looks at is ASCII, so a text stands for its encoded bytes. */
module CsvRoundTrip {
  import opened Lists
  import opened CsvReader

  // ---------- the writer ----------

  predicate IsSpecial(c: char) {
    c == '"' || c == ',' || c == '\r' || c == '\n'
  }

  predicate NeedsQuotes(text: string) {
    exists i :: 0 <= i < |text| && IsSpecial(text[i])
  }

  /** Every quote doubled. */
  function Escape(text: string): string {
    if text == "" then "" else (if text[0] == '"' then "\"\"" else [text[0]]) + Escape(text[1..])
  }

  function CsvCell(text: string): string {
    if NeedsQuotes(text) then "\"" + Escape(text) + "\"" else text
  }

  function CsvCells(cells: seq<string>): (texts: seq<string>)
    ensures |texts| == |cells|
  {
    seq(|cells|, i requires 0 <= i < |cells| => CsvCell(cells[i]))
  }

  function CsvLine(cells: seq<string>): string {
    Join(CsvCells(cells), ",")
  }

  /** Every line is closed by a line feed. */
  function CsvText(rows: seq<seq<string>>): string {
    if rows == [] then "" else CsvLine(rows[0]) + "\n" + CsvText(rows[1..])
  }

  /** The cells of a record, column by column. */
  function CellsOf(columns: seq<string>, record: map<string, string>): (cells: seq<string>)
    requires forall i | 0 <= i < |columns| :: columns[i] in record
    ensures |cells| == |columns|
  {
    seq(|columns|, i requires 0 <= i < |columns| => record[columns[i]])
  }

  predicate HasColumns(columns: seq<string>, records: seq<map<string, string>>) {
    forall i, j | 0 <= i < |records| && 0 <= j < |columns| :: columns[j] in records[i]
  }

  function Rows(columns: seq<string>, records: seq<map<string, string>>): (rows: seq<seq<string>>)
    requires HasColumns(columns, records)
    ensures |rows| == |records| && forall i | 0 <= i < |rows| :: |rows[i]| == |columns|
  {
    seq(|records|, i requires 0 <= i < |records| => CellsOf(columns, records[i]))
  }

  method RecordsToCsv(columns: seq<string>, records: seq<map<string, string>>) returns (text: string)
    requires HasColumns(columns, records)
    ensures text == CsvText([columns] + Rows(columns, records))
  {
    hide CsvLine, CsvText, Join;
    ghost var rows := [columns] + Rows(columns, records);
    var lines := [CsvLine(columns)];
    for i := 0 to |records|
      invariant |lines| == i + 1 && forall j | 0 <= j <= i :: lines[j] == CsvLine(rows[j])
    {
      lines := lines + [CsvLine(CellsOf(columns, records[i]))];
    }
    JoinedLines(lines, rows);
    text := Join(lines, "\n") + "\n";
  }

  lemma {:induction false} JoinedLines(lines: seq<string>, rows: seq<seq<string>>)
    requires |lines| == |rows| >= 1 && forall j | 0 <= j < |lines| :: lines[j] == CsvLine(rows[j])
    ensures Join(lines, "\n") + "\n" == CsvText(rows)
    decreases |lines|
  {
    hide CsvLine;
    if |lines| == 1 {
      assert CsvText(rows[1..]) == "";
    } else {
      JoinedLines(lines[1..], rows[1..]);
      assert Join(lines, "\n") + "\n" == lines[0] + "\n" + (Join(lines[1..], "\n") + "\n");
    }
  }

  lemma CsvLineHead(cells: seq<string>)
    requires |cells| > 1
    ensures CsvLine(cells) == CsvCell(cells[0]) + "," + CsvLine(cells[1..])
  {
    assert CsvCells(cells)[1..] == CsvCells(cells[1..]);
  }

  /** The row that prints as an empty line. */
  predicate IsBlank(cells: seq<string>) {
    cells == [] || cells == [""]
  }

  lemma BlankLine(cells: seq<string>)
    ensures CsvLine(cells) == "" <==> IsBlank(cells)
  {
    if |cells| > 1 {
      CsvLineHead(cells);
    } else if |cells| == 1 {
      assert CsvCells(cells) == [CsvCell(cells[0])];
    }
  }

  // ---------- reading it back ----------

  predicate Comma(d: Dialect) {
    d.delimiter == "," && d.quote == '"'
  }

  function Newlines(text: string): nat {
    if text == "" then 0 else (if text[0] == '\n' then 1 else 0) + Newlines(text[1..])
  }

  function NewlinesOf(cells: seq<string>): nat {
    if cells == [] then 0 else Newlines(cells[0]) + NewlinesOf(cells[1..])
  }

  lemma {:induction false} PlainCell(d: Dialect, s: Scanner, cell: string, rest: string) returns (s': Scanner)
    requires Comma(d) && !s.inQuotes && !NeedsQuotes(cell)
    ensures Split(d, s, cell + rest) == Split(d, s', rest)
    ensures s' == s.(field := s.field + cell, fieldStarted := s'.fieldStarted, rowStarted := s.rowStarted || cell != "")
    ensures Newlines(cell) == 0
    decreases |cell|
  {
    if cell == "" {
      assert cell + rest == rest && s.field + cell == s.field;
      s' := s;
    } else {
      var text, tail := cell + rest, cell[1..];
      assert text[0] == cell[0] && text[1..] == tail + rest;
      assert forall i | 0 <= i < |tail| :: tail[i] == cell[i + 1];
      assert !IsSpecial(cell[0]);
      var next := s.(field := s.field + [cell[0]], fieldStarted := true, rowStarted := true);
      assert Scan(d, s, text) == Round(None, next, 1);
      s' := PlainCell(d, next, tail, rest);
      assert s.field + [cell[0]] + tail == s.field + cell;
    }
  }

  lemma QuotedChar(d: Dialect, s: Scanner, c: char, rest: string)
    requires Comma(d) && s.inQuotes
    ensures Split(d, s, (if c == '"' then "\"\"" else [c]) + rest)
         == Split(d, s.(field := s.field + [c], line := if c == '\n' then s.line + 1 else s.line), rest)
  {
    var text := (if c == '"' then "\"\"" else [c]) + rest;
    assert text[if c == '"' then 2 else 1..] == rest;
  }

  lemma ClosingQuote(d: Dialect, s: Scanner, rest: string)
    requires Comma(d) && s.inQuotes && rest != "" && rest[0] != '"'
    ensures Split(d, s, "\"" + rest) == Split(d, s.(inQuotes := false), rest)
  {
    assert ("\"" + rest)[1..] == rest;
  }

  /** Inside quotes the escaped text gives back the text, and the closing quote ends it. */
  lemma {:induction false} QuotedCell(d: Dialect, s: Scanner, cell: string, rest: string)
    requires Comma(d) && s.inQuotes && rest != "" && rest[0] != '"'
    ensures Split(d, s, Escape(cell) + "\"" + rest)
         == Split(d, s.(field := s.field + cell, inQuotes := false, line := s.line + Newlines(cell)), rest)
    decreases |cell|
  {
    hide Split;
    if cell == "" {
      assert Escape(cell) + "\"" + rest == "\"" + rest;
      ClosingQuote(d, s, rest);
      assert s.field + cell == s.field;
    } else {
      var c, tail := cell[0], cell[1..];
      var more := Escape(tail) + "\"" + rest;
      assert Escape(cell) + "\"" + rest == (if c == '"' then "\"\"" else [c]) + more;
      QuotedChar(d, s, c, more);
      var next := s.(field := s.field + [c], line := if c == '\n' then s.line + 1 else s.line);
      QuotedCell(d, next, tail, rest);
      assert s.field + [c] + tail == s.field + cell;
    }
  }

  predicate EndsCell(rest: string) {
    rest != "" && (rest[0] == ',' || rest[0] == '\n')
  }

  lemma WrappedCell(d: Dialect, s: Scanner, cell: string, rest: string)
    requires Comma(d) && !s.inQuotes && s.field == "" && !s.fieldStarted && rest != "" && rest[0] != '"'
    ensures Split(d, s, "\"" + Escape(cell) + "\"" + rest)
         == Split(d, s.(field := cell, fieldStarted := true, rowStarted := true, line := s.line + Newlines(cell)), rest)
  {
    hide Split, Escape, Newlines;
    var inner := Escape(cell) + "\"" + rest;
    assert "\"" + Escape(cell) + "\"" + rest == "\"" + inner;
    OpeningQuote(d, s, inner);
    QuotedCell(d, s.(inQuotes := true, fieldStarted := true, rowStarted := true), cell, rest);
    assert s.field + cell == cell;
  }

  lemma CellReadBack(d: Dialect, s: Scanner, cell: string, rest: string) returns (s': Scanner)
    requires Comma(d) && !s.inQuotes && s.field == "" && !s.fieldStarted && EndsCell(rest)
    ensures Split(d, s, CsvCell(cell) + rest) == Split(d, s', rest)
    ensures s' == s.(field := cell, fieldStarted := s'.fieldStarted, rowStarted := s.rowStarted || cell != "",
                     line := s.line + Newlines(cell))
  {
    hide Split, Escape, Newlines;
    if NeedsQuotes(cell) {
      WrappedCell(d, s, cell, rest);
      s' := s.(field := cell, fieldStarted := true, rowStarted := true, line := s.line + Newlines(cell));
    } else {
      s' := PlainCell(d, s, cell, rest);
      assert s.field + cell == cell;
    }
  }

  lemma OpeningQuote(d: Dialect, s: Scanner, rest: string)
    requires Comma(d) && !s.inQuotes && !s.fieldStarted
    ensures Split(d, s, "\"" + rest) == Split(d, s.(inQuotes := true, fieldStarted := true, rowStarted := true), rest)
  {
    assert ("\"" + rest)[1..] == rest;
  }

  lemma CommaEndsCell(d: Dialect, s: Scanner, rest: string)
    requires Comma(d) && !s.inQuotes
    ensures Split(d, s, "," + rest)
         == Split(d, s.(fields := s.fields + [s.field], field := "", fieldStarted := false, rowStarted := true), rest)
  {
    assert ("," + rest)[1..] == rest;
  }

  lemma LineFeedEndsRow(d: Dialect, s: Scanner, rest: string)
    requires Comma(d) && !s.inQuotes
    ensures var records := Split(d, LineStart(s.line + 1), rest);
            Split(d, s, "\n" + rest) == if s.rowStarted then Before(Row(s.fields + [s.field], s.rowLine), records) else records
  {
    assert ("\n" + rest)[1..] == rest;
  }

  /** A printed row is read as its cells; the blank one is skipped. */
  lemma {:induction false} RowReadBack(d: Dialect, s: Scanner, cells: seq<string>, rest: string)
    requires Comma(d) && !s.inQuotes && s.field == "" && !s.fieldStarted && cells != []
    ensures var records := Split(d, LineStart(s.line + NewlinesOf(cells) + 1), rest);
            Split(d, s, CsvLine(cells) + "\n" + rest)
            == if s.rowStarted || !IsBlank(cells) then Before(Row(s.fields + cells, s.rowLine), records) else records
    decreases |cells|
  {
    hide Split, CsvCell, Newlines, CsvLine;
    var cell := cells[0];
    if |cells| == 1 {
      OneCell(cell);
      assert cells == [cell];
      var s' := CellReadBack(d, s, cell, "\n" + rest);
      LineFeedEndsRow(d, s', rest);
      assert CsvLine(cells) + "\n" + rest == CsvCell(cell) + ("\n" + rest);
      assert NewlinesOf(cells) == Newlines(cell) + NewlinesOf(cells[1..]);
    } else {
      var more := CsvLine(cells[1..]) + "\n" + rest;
      CsvLineHead(cells);
      assert CsvLine(cells) + "\n" + rest == CsvCell(cell) + ("," + more);
      var s' := CellReadBack(d, s, cell, "," + more);
      CommaEndsCell(d, s', more);
      var next := s'.(fields := s'.fields + [s'.field], field := "", fieldStarted := false, rowStarted := true);
      RowReadBack(d, next, cells[1..], rest);
      assert s.fields + [cell] + cells[1..] == s.fields + cells;
    }
  }

  lemma OneCell(cell: string)
    ensures CsvLine([cell]) == CsvCell(cell)
  {
    assert CsvCells([cell]) == [CsvCell(cell)];
  }

  /** The records that printed rows are read as: the blank ones are missing, and each has its physical line. */
  function ReadRows(rows: seq<seq<string>>, line: int): seq<Row> {
    if rows == [] then []
    else (if IsBlank(rows[0]) then [] else [Row(rows[0], line)]) + ReadRows(rows[1..], line + NewlinesOf(rows[0]) + 1)
  }

  lemma {:induction false} TextReadBack(d: Dialect, rows: seq<seq<string>>, line: int)
    requires Comma(d)
    ensures Split(d, LineStart(line), CsvText(rows)) == Records(ReadRows(rows, line), None)
    decreases |rows|
  {
    hide Split, CsvLine;
    if rows == [] {
      SplitNothing(d, LineStart(line));
    } else {
      var rest := CsvText(rows[1..]);
      TextReadBack(d, rows[1..], line + NewlinesOf(rows[0]) + 1);
      if rows[0] == [] {
        BlankLine([]);
        assert CsvLine([]) + "\n" + rest == "\n" + rest;
        LineFeedEndsRow(d, LineStart(line), rest);
      } else {
        RowReadBack(d, LineStart(line), rows[0], rest);
        assert [] + rows[0] == rows[0];
      }
    }
  }

  // ---------- exactly what survives ----------

  function CellsOfRows(rows: seq<Row>): (cells: seq<seq<string>>)
    ensures |cells| == |rows|
  {
    if rows == [] then [] else [rows[0].fields] + CellsOfRows(rows[1..])
  }

  /** The parser returns the very header and rows that were printed. */
  predicate ReadsBack(d: Dialect, header: seq<string>, rows: seq<seq<string>>) {
    var outcome := Parse(d, CsvText([header] + rows));
    outcome.Done? && outcome.value.header == header && CellsOfRows(outcome.value.rows) == rows
  }

  predicate Table(header: seq<string>, rows: seq<seq<string>>) {
    forall i | 0 <= i < |rows| :: |rows[i]| == |header|
  }

  predicate SomeBlank(rows: seq<seq<string>>) {
    exists i :: 0 <= i < |rows| && IsBlank(rows[i])
  }

  lemma {:induction false} ReadRowsAll(rows: seq<seq<string>>, line: int)
    ensures |ReadRows(rows, line)| <= |rows|
    ensures |ReadRows(rows, line)| == |rows| <==> !SomeBlank(rows)
    ensures !SomeBlank(rows) ==> CellsOfRows(ReadRows(rows, line)) == rows
    decreases |rows|
  {
    hide IsBlank;
    if rows != [] {
      var tail := rows[1..];
      ReadRowsAll(tail, line + NewlinesOf(rows[0]) + 1);
      assert forall i | 0 <= i < |tail| :: tail[i] == rows[i + 1];
      if SomeBlank(rows) && !IsBlank(rows[0]) {
        var i :| 0 <= i < |rows| && IsBlank(rows[i]);
        assert IsBlank(tail[i - 1]);
      }
      if SomeBlank(tail) {
        var i :| 0 <= i < |tail| && IsBlank(tail[i]);
        assert IsBlank(rows[i + 1]);
      }
    }
  }

  lemma {:induction false} DeliverTable(header: seq<string>, done: seq<Row>, records: Records)
    requires records.unterminated.None?
    ensures var outcome := Deliver(header, done, records);
            outcome.Done? ==> outcome.value == CsvFile(header, done + records.rows)
    ensures (forall i | 0 <= i < |records.rows| :: |records.rows[i].fields| == |header|)
        ==> Deliver(header, done, records).Done?
    decreases |records.rows|
  {
    if records.rows == [] {
      assert done + records.rows == done;
    } else {
      var tail := records.(rows := records.rows[1..]);
      DeliverTable(header, done + [records.rows[0]], tail);
      assert done + [records.rows[0]] + tail.rows == done + records.rows;
    }
  }

  lemma SomeBlankHead(head: seq<string>, rows: seq<seq<string>>)
    ensures SomeBlank([head] + rows) <==> IsBlank(head) || SomeBlank(rows)
  {
    hide IsBlank;
    var all := [head] + rows;
    assert all[0] == head;
    assert forall i | 0 <= i < |rows| :: all[i + 1] == rows[i];
  }

  lemma ReadRowsHead(head: seq<string>, rows: seq<seq<string>>)
    ensures ReadRows([head] + rows, 1)
         == (if IsBlank(head) then [] else [Row(head, 1)]) + ReadRows(rows, 2 + NewlinesOf(head))
  {
    assert ([head] + rows)[1..] == rows;
  }

  lemma {:induction false} CellsOfRowsAt(rows: seq<Row>, i: nat)
    requires i < |rows|
    ensures CellsOfRows(rows)[i] == rows[i].fields
    decreases |rows|
  {
    if i > 0 {
      CellsOfRowsAt(rows[1..], i - 1);
    }
  }

  /** Without a blank row the table comes back, every row with the number of its first physical line. */
  lemma TableReadBack(d: Dialect, header: seq<string>, rows: seq<seq<string>>)
    requires Comma(d) && Table(header, rows) && !SomeBlank([header] + rows)
    requires d.stripBom ==> !(BOM <= CsvText([header] + rows))
    ensures Parse(d, CsvText([header] + rows)) == Done(CsvFile(header, ReadRows(rows, 2 + NewlinesOf(header))))
    ensures CellsOfRows(ReadRows(rows, 2 + NewlinesOf(header))) == rows
  {
    hide Split, Deliver, CsvText, NewlinesOf, IsBlank, SomeBlank, ReadRows, CellsOfRows;
    TextReadBack(d, [header] + rows, 1);
    SomeBlankHead(header, rows);
    ReadRowsHead(header, rows);
    var read := ReadRows(rows, 2 + NewlinesOf(header));
    ReadRowsAll(rows, 2 + NewlinesOf(header));
    forall i | 0 <= i < |read|
      ensures |read[i].fields| == |header|
    {
      CellsOfRowsAt(read, i);
    }
    DeliverTable(header, [], Records(read, None));
    assert [] + read == read;
    assert ([Row(header, 1)] + read)[1..] == read;
  }

  /** A header cell that the writer leaves unquoted loses a leading byte order mark. */
  predicate LosesBom(d: Dialect, header: seq<string>) {
    d.stripBom && header != [] && BOM <= CsvCell(header[0])
  }

  lemma FirstCell(header: seq<string>, rows: seq<seq<string>>) returns (more: string)
    requires header != []
    ensures CsvText([header] + rows) == CsvCell(header[0]) + more && more != "" && more[0] in {',', '\n'}
  {
    hide CsvCell;
    var rest := "\n" + CsvText(rows);
    assert ([header] + rows)[1..] == rows;
    if |header| == 1 {
      OneCell(header[0]);
      assert header == [header[0]];
      more := rest;
    } else {
      CsvLineHead(header);
      more := "," + CsvLine(header[1..]) + rest;
    }
  }

  lemma BomOfText(header: seq<string>, rows: seq<seq<string>>)
    ensures BOM <= CsvText([header] + rows) <==> header != [] && BOM <= CsvCell(header[0])
  {
    hide CsvCell;
    if header == [] {
      BlankLine(header);
      assert CsvText([header] + rows)[0] == '\n';
    } else {
      var more := FirstCell(header, rows);
      BomInCell(CsvCell(header[0]), more);
    }
  }

  lemma BomInCell(cell: string, more: string)
    requires more != "" && (more[0] == ',' || more[0] == '\n')
    ensures BOM <= cell + more <==> BOM <= cell
  {
    var text := cell + more;
    assert |cell| < 3 ==> text[|cell|] == more[0];
    assert forall i | 0 <= i < |cell| :: text[i] == cell[i];
  }

  lemma FewerRecords(d: Dialect, data: string, records: Records, header: seq<string>, rows: seq<seq<string>>)
    requires data == CsvText([header] + rows)
    requires records.unterminated.None? && Parse(d, data) == DeliverAll(records)
    requires |records.rows| <= |rows| || records.rows[0].fields != header
    ensures !ReadsBack(d, header, rows)
  {
    hide Parse, CsvText, Deliver;
    if records.rows != [] {
      DeliverTable(records.rows[0].fields, [], records.(rows := records.rows[1..]));
      assert [] + records.rows[1..] == records.rows[1..];
    }
  }

  /** Writing and reading is the identity exactly when no printed line is empty (so: there are two columns, or one
      column without an empty cell) and no byte order mark is taken off the header. */
  lemma ReadsBackExactly(d: Dialect, header: seq<string>, rows: seq<seq<string>>)
    requires Comma(d) && Table(header, rows)
    ensures ReadsBack(d, header, rows) <==> !SomeBlank([header] + rows) && !LosesBom(d, header)
  {
    hide Split, Deliver, CsvText, CsvCell, NewlinesOf, SomeBlank, ReadRows, CellsOfRows;
    var data := CsvText([header] + rows);
    BomOfText(header, rows);
    SomeBlankHead(header, rows);
    if LosesBom(d, header) {
      StrippedText(header, rows);
      var header' := header[0 := header[0][3..]];
      TextReadBack(d, [header'] + rows, 1);
      ReadRowsHead(header', rows);
      ReadRowsAll(rows, 2 + NewlinesOf(header'));
      FewerRecords(d, data, Split(d, LineStart(1), WithoutBom(data)), header, rows);
    } else {
      TextReadBack(d, [header] + rows, 1);
      if SomeBlank([header] + rows) {
        ReadRowsAll([header] + rows, 1);
        FewerRecords(d, data, Split(d, LineStart(1), data), header, rows);
      } else {
        TableReadBack(d, header, rows);
      }
    }
  }

  /** One column with one empty cell: the line is blank, and the row is lost. */
  lemma EmptyCellIsLost(d: Dialect)
    requires Comma(d)
    ensures !ReadsBack(d, ["a"], [[""]])
  {
    hide ReadsBack;
    var rows := [["a"]] + [[""]];
    assert IsBlank(rows[1]);
    ReadsBackExactly(d, ["a"], [[""]]);
  }

  lemma StrippedText(header: seq<string>, rows: seq<seq<string>>)
    requires header != [] && BOM <= CsvCell(header[0])
    ensures |header[0]| >= 3
    ensures WithoutBom(CsvText([header] + rows)) == CsvText([header[0 := header[0][3..]]] + rows)
  {
    var cell := header[0];
    assert CsvCell(cell) == cell by {
      assert CsvCell(cell)[0] == BOM[0] != '"';
    }
    var header' := header[0 := cell[3..]];
    assert !NeedsQuotes(cell[3..]) by {
      assert forall i | 0 <= i < |cell| - 3 :: cell[3..][i] == cell[i + 3];
    }
    assert ([header] + rows)[1..] == rows && ([header'] + rows)[1..] == rows;
    if |header| == 1 {
      assert header == [cell] && header' == [cell[3..]];
      OneCell(cell);
      OneCell(cell[3..]);
    } else {
      CsvLineHead(header);
      CsvLineHead(header');
      assert header[1..] == header'[1..];
    }
    assert CsvLine(header') == CsvLine(header)[3..];
    BomOfText(header, rows);
  }

  /** What the condition means for a table: two columns are always enough. */
  lemma BlankTables(header: seq<string>, rows: seq<seq<string>>)
    requires Table(header, rows)
    ensures SomeBlank([header] + rows)
       <==> |header| == 0 || (|header| == 1 && (header[0] == "" || exists i :: 0 <= i < |rows| && rows[i][0] == ""))
  {
    SomeBlankHead(header, rows);
    if |header| == 1 {
      forall i | 0 <= i < |rows|
        ensures IsBlank(rows[i]) <==> rows[i][0] == ""
      {
        assert rows[i] == [rows[i][0]];
      }
      assert header == [header[0]];
    }
  }
}
