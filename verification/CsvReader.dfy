/** The CSV record splitter and its fast counting twin (csv_reader.cpp). A file is the string of its bytes. */
module CsvReader {
  import opened Lists

  /** CsvDialect: the quote '\0' turns quoting off. */
  datatype Dialect = Dialect(delimiter: string, quote: char, stripBom: bool)

  datatype Row = Row(fields: seq<string>, line: int)

  datatype CsvFile = CsvFile(header: seq<string>, rows: seq<Row>)

  datatype Error = FieldCountMismatch(line: int, expected: nat, actual: nat) | UnterminatedQuote(line: int) | NoHeader

  datatype Outcome<+T> = Done(value: T) | Failed(error: Error)

  const BOM := "\U{EF}\U{BB}\U{BF}"

  predicate Quoting(d: Dialect) {
    d.quote != '\0'
  }

  function Delimiter(d: Dialect): (delim: string)
    ensures delim != ""
  {
    if d.delimiter == "" then "|" else d.delimiter
  }

  /** What a delimiter must not hold, which resolveDelimiter makes sure of. */
  predicate InsideLine(delim: string) {
    '\n' !in delim && '\r' !in delim
  }

  /** resolveDelimiter: the written forms of a delimiter; what it accepts never clashes with lines or quotes. */
  function ResolveDelimiter(raw: string): (r: Option<string>)
    ensures r.Some? ==> r.value != "" && InsideLine(r.value) && '"' !in r.value
    ensures r.None? <==> raw != "\t" && ((forall c | c in raw :: c in " \r\n\t") || !InsideLine(raw) || '"' in raw)
  {
    if raw == "\\t" || raw == "tab" then
      assert raw[0] in raw;
      Some("\t")
    else if raw == "" then None
    else if raw == "\t" then Some("\t")
    else if forall i | 0 <= i < |raw| :: raw[i] in " \r\n\t" then None
    else if '"' in raw || '\n' in raw || '\r' in raw then None
    else Some(raw)
  }

  function WithoutBom(data: string): string {
    if BOM <= data then data[3..] else data
  }

  // ---------- splitting into records ----------

  /** The variables of the character loop, without the sinks. */
  datatype Scanner = Scanner(
    inQuotes: bool, fieldStarted: bool, rowStarted: bool, fields: seq<string>, field: string, line: int, rowLine: int)

  function LineStart(line: int): Scanner {
    Scanner(false, false, false, [], "", line, line)
  }

  /** The records of a text, and the line of a record that an unterminated quote leaves open. */
  datatype Records = Records(rows: seq<Row>, unterminated: Option<int>)

  function Before(row: Row, records: Records): Records {
    records.(rows := [row] + records.rows)
  }

  /** One round of the loop: the record it completes, the state it leaves, and the characters it consumes. */
  datatype Round = Round(row: Option<Row>, next: Scanner, width: nat)

  function Scan(d: Dialect, s: Scanner, text: string): (r: Round)
    requires text != ""
    ensures 1 <= r.width <= |text|
  {
    var c := text[0];
    if s.inQuotes then
      if c != d.quote then
        Round(None, s.(field := s.field + [c], line := if c == '\n' then s.line + 1 else s.line), 1)
      else if Quoting(d) && |text| > 1 && text[1] == d.quote then Round(None, s.(field := s.field + [c]), 2)
      else Round(None, s.(inQuotes := false), 1)
    else if Quoting(d) && c == d.quote && !s.fieldStarted then
      Round(None, s.(inQuotes := true, fieldStarted := true, rowStarted := true), 1)
    else if Delimiter(d) <= text then
      Round(None, s.(fields := s.fields + [s.field], field := "", fieldStarted := false, rowStarted := true),
            |Delimiter(d)|)
    else if c == '\n' then
      Round(if s.rowStarted then Some(Row(s.fields + [s.field], s.rowLine)) else None, LineStart(s.line + 1), 1)
    else if c == '\r' && |text| > 1 && text[1] == '\n' then Round(None, s, 1)
    else Round(None, s.(field := s.field + [c], fieldStarted := true, rowStarted := true), 1)
  }

  /** The records that the rest of a text yields. */
  function Split(d: Dialect, s: Scanner, text: string): Records
    decreases |text|
  {
    if text == "" then
      if s.inQuotes then Records([], Some(s.rowLine))
      else Records(if s.rowStarted then [Row(s.fields + [s.field], s.rowLine)] else [], None)
    else
      var round := Scan(d, s, text);
      var rest := Split(d, round.next, text[round.width..]);
      if round.row.Some? then Before(round.row.value, rest) else rest
  }

  /** Every record must have as many fields as the header; the first that has not decides. */
  function Deliver(header: seq<string>, done: seq<Row>, records: Records): Outcome<CsvFile>
    decreases |records.rows|
  {
    if records.rows == [] then
      if records.unterminated.Some? then Failed(UnterminatedQuote(records.unterminated.value))
      else Done(CsvFile(header, done))
    else
      var row := records.rows[0];
      if |row.fields| != |header| then Failed(FieldCountMismatch(row.line, |header|, |row.fields|))
      else Deliver(header, done + [row], records.(rows := records.rows[1..]))
  }

  /** The first record is the header. */
  function DeliverAll(records: Records): Outcome<CsvFile> {
    if records.rows != [] then Deliver(records.rows[0].fields, [], records.(rows := records.rows[1..]))
    else if records.unterminated.Some? then Failed(UnterminatedQuote(records.unterminated.value))
    else Failed(NoHeader)
  }

  function Parse(d: Dialect, data: string): Outcome<CsvFile> {
    DeliverAll(Split(d, LineStart(1), if d.stripBom then WithoutBom(data) else data))
  }

  /** What the loop still has to deliver. */
  function Remaining(haveHeader: bool, header: seq<string>, rows: seq<Row>, records: Records): Outcome<CsvFile> {
    if haveHeader then Deliver(header, rows, records) else DeliverAll(records)
  }

  /** end_row: the sinks see the record, unless its field count is wrong. */
  method EndRow(haveHeader: bool, header: seq<string>, rows: seq<Row>, fields: seq<string>, rowLine: int)
    returns (failure: Option<Error>, header': seq<string>, rows': seq<Row>)
    ensures forall records ::
      Remaining(haveHeader, header, rows, Before(Row(fields, rowLine), records))
      == if failure.Some? then Failed(failure.value) else Remaining(true, header', rows', records)
  {
    failure, header', rows' := None, header, rows;
    assert forall records :: Before(Row(fields, rowLine), records).rows[1..] == records.rows;
    if !haveHeader {
      header', rows' := fields, [];
    } else if |fields| != |header| {
      failure := Some(FieldCountMismatch(rowLine, |header|, |fields|));
    } else {
      rows' := rows + [Row(fields, rowLine)];
    }
  }

  method ParseCsv(d: Dialect, data: string) returns (outcome: Outcome<CsvFile>)
    ensures outcome == Parse(d, data)
  {
    hide Deliver, DeliverAll, Remaining, Split, Before, Parse, Delimiter;
    var text := if d.stripBom then WithoutBom(data) else data;
    var delim := Delimiter(d);
    var fields: seq<string>, field := [], "";
    var inQuotes, fieldStarted, rowStarted, haveHeader := false, false, false, false;
    var header: seq<string>, rows: seq<Row> := [], [];
    var line, rowLine := 1, 1;
    var i := 0;
    StartsWithNothing(d, data, text);
    while i < |text|
      invariant 0 <= i <= |text|
      invariant field != "" || fields != [] || fieldStarted || inQuotes ==> rowStarted
      invariant !rowStarted ==> rowLine == line
      invariant Parse(d, data) == Remaining(haveHeader, header, rows,
        Split(d, Scanner(inQuotes, fieldStarted, rowStarted, fields, field, line, rowLine), text[i..]))
    {
      var c := text[i];
      ghost var s, start := Scanner(inQuotes, fieldStarted, rowStarted, fields, field, line, rowLine), i;
      ghost var round := Scan(d, s, text[i..]);
      SplitRound(d, s, text, i);
      if inQuotes {
        if c == d.quote {
          if Quoting(d) && i + 1 < |text| && text[i + 1] == d.quote {
            field := field + [d.quote];
            i := i + 1;
          } else {
            inQuotes := false;
          }
        } else {
          if c == '\n' { line := line + 1; }
          field := field + [c];
        }
      } else if Quoting(d) && c == d.quote && !fieldStarted {
        inQuotes, fieldStarted, rowStarted := true, true, true;
      } else if i + |delim| <= |text| && text[i..i + |delim|] == delim {
        assert Delimiter(d) <= text[i..];
        i := i + |delim| - 1;
        fields, field, fieldStarted := fields + [field], "", false;
        rowStarted := true;
      } else {
        assert !(Delimiter(d) <= text[i..]) by { NoMatch(text, i, delim); }
        if c == '\n' {
          if rowStarted || field != "" || fields != [] {
            var failure;
            failure, header, rows := EndRow(haveHeader, header, rows, fields + [field], rowLine);
            if failure.Some? {
              return Failed(failure.value);
            }
            haveHeader := true;
            fields, field, fieldStarted, rowStarted := [], "", false, false;
          }
          line := line + 1;
          rowLine := line;
        } else if c == '\r' && i + 1 < |text| && text[i + 1] == '\n' {
          // the line feed that follows ends the row
        } else {
          field := field + [c];
          fieldStarted := true;
          rowStarted := true;
        }
      }
      i := i + 1;
      assert i == start + round.width;
      assert round.next == Scanner(inQuotes, fieldStarted, rowStarted, fields, field, line, rowLine);
    }
    assert text[i..] == "";
    SplitNothing(d, Scanner(inQuotes, fieldStarted, rowStarted, fields, field, line, rowLine));
    if inQuotes {
      NothingLeft(haveHeader, header, rows, Some(rowLine));
      return Failed(UnterminatedQuote(rowLine));
    }
    NothingLeft(haveHeader, header, rows, None);
    if rowStarted || field != "" || fields != [] {
      ghost var last := Row(fields + [field], rowLine);
      LastRow(last);
      var failure;
      failure, header, rows := EndRow(haveHeader, header, rows, fields + [field], rowLine);
      if failure.Some? {
        return Failed(failure.value);
      }
      haveHeader := true;
      NothingLeft(haveHeader, header, rows, None);
    }
    outcome := if haveHeader then Done(CsvFile(header, rows)) else Failed(NoHeader);
  }

  lemma SplitRound(d: Dialect, s: Scanner, text: string, i: nat)
    requires i < |text|
    ensures var round := Scan(d, s, text[i..]);
            var rest := Split(d, round.next, text[i + round.width..]);
            Split(d, s, text[i..]) == if round.row.Some? then Before(round.row.value, rest) else rest
  {
    var round := Scan(d, s, text[i..]);
    assert text[i..][round.width..] == text[i + round.width..];
  }

  lemma NoMatch(text: string, i: nat, delim: string)
    requires i <= |text| && !(i + |delim| <= |text| && text[i..i + |delim|] == delim)
    ensures !(delim <= text[i..])
  {
  }

  lemma StartsWithNothing(d: Dialect, data: string, text: string)
    requires text == if d.stripBom then WithoutBom(data) else data
    ensures Parse(d, data) == Remaining(false, [], [], Split(d, LineStart(1), text[0..]))
  {
    assert text[0..] == text;
  }

  lemma SplitNothing(d: Dialect, s: Scanner)
    ensures Split(d, s, "") == if s.inQuotes then Records([], Some(s.rowLine))
      else Records(if s.rowStarted then [Row(s.fields + [s.field], s.rowLine)] else [], None)
  {
  }

  lemma LastRow(row: Row)
    ensures Before(row, Records([], None)) == Records([row], None)
  {
  }

  lemma NothingLeft(haveHeader: bool, header: seq<string>, rows: seq<Row>, unterminated: Option<int>)
    ensures Remaining(haveHeader, header, rows, Records([], unterminated))
         == if unterminated.Some? then Failed(UnterminatedQuote(unterminated.value))
            else if haveHeader then Done(CsvFile(header, rows)) else Failed(NoHeader)
  {
  }
}
