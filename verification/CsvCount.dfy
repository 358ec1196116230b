/** Counting records by physical lines, and when that agrees with parsing (csv_reader.cpp). */
module CsvCount {
  import opened Lists
  import opened CsvReader

  // ---------- io::LineReader ----------

  /** The physical lines: what a line feed or the end of the text closes. */
  function Lines(text: string): (lines: seq<string>)
    ensures lines == [] <==> text == ""
    decreases |text|
  {
    if text == "" then []
    else
      var n := LineLength(text);
      [text[..n]] + (if n == |text| then [] else Lines(text[n + 1..]))
  }

  function LineLength(text: string): (n: nat)
    ensures n <= |text| && '\n' !in text[..n]
    ensures n < |text| ==> text[n] == '\n'
  {
    if text == "" || text[0] == '\n' then 0 else 1 + LineLength(text[1..])
  }

  /** One carriage return before the end of the line goes away. */
  function Chomp(line: string): string {
    if line != "" && line[|line| - 1] == '\r' then line[..|line| - 1] else line
  }

  /** The reader hands out a C string, which a NUL byte ends. */
  function CString(line: string): string {
    if line == "" || line[0] == '\0' then "" else [line[0]] + CString(line[1..])
  }

  function Visible(line: string): string {
    CString(Chomp(line))
  }

  // ---------- counting ----------

  /** One more than the number of delimiters, matched from the left without overlap. */
  function FieldCount(delim: string, line: string): (n: nat)
    requires delim != ""
    ensures n >= 1
    decreases |line|
  {
    if line == "" then 1
    else if delim <= line then 1 + FieldCount(delim, line[|delim|..])
    else FieldCount(delim, line[1..])
  }

  /** std::string_view::find of a string, from a position. */
  function FindFrom(delim: string, line: string, from: nat): (pos: Option<nat>)
    requires delim != ""
    ensures pos.Some? ==> from <= pos.value && pos.value + |delim| <= |line|
    decreases |line| - from
  {
    if from >= |line| then None
    else if delim <= line[from..] then Some(from)
    else FindFrom(delim, line, from + 1)
  }

  lemma {:induction false} CountToNext(delim: string, line: string, from: nat)
    requires delim != "" && from <= |line|
    ensures var pos := FindFrom(delim, line, from);
            FieldCount(delim, line[from..])
            == if pos.None? then 1 else 1 + FieldCount(delim, line[pos.value + |delim|..])
    decreases |line| - from
  {
    if from < |line| {
      if delim <= line[from..] {
        assert line[from..][|delim|..] == line[from + |delim|..];
      } else {
        assert line[from..][1..] == line[from + 1..];
        CountToNext(delim, line, from + 1);
      }
    }
  }

  method CountFields(delim: string, line: string) returns (fields: nat)
    requires delim != ""
    ensures fields == FieldCount(delim, line)
  {
    hide FieldCount, FindFrom;
    fields := 1;
    CountToNext(delim, line, 0);
    assert line[0..] == line;
    var pos := FindFrom(delim, line, 0);
    while pos.Some?
      invariant pos.Some? ==> pos.value + |delim| <= |line|
      invariant FieldCount(delim, line)
             == fields + if pos.Some? then FieldCount(delim, line[pos.value + |delim|..]) else 0
      decreases if pos.Some? then |line| - pos.value else -1
    {
      fields := fields + 1;
      CountToNext(delim, line, pos.value + |delim|);
      pos := FindFrom(delim, line, pos.value + |delim|);
    }
  }

  /** A line that the fast path does not count: too long for the reader's buffer, or with a quote. */
  predicate GivesUp(d: Dialect, limit: nat, line: string) {
    |line| + 1 > limit || (Quoting(d) && d.quote in Visible(line))
  }

  /** The lines after the header. */
  function CountBody(d: Dialect, limit: nat, header: nat, lines: seq<string>, number: int, records: nat):
    Option<Outcome<nat>>
  {
    if lines == [] then Some(Done(records))
    else
      var line := Visible(lines[0]);
      if GivesUp(d, limit, lines[0]) then None
      else if line == "" then CountBody(d, limit, header, lines[1..], number + 1, records)
      else if FieldCount(Delimiter(d), line) != header then
        Some(Failed(FieldCountMismatch(number, header, FieldCount(Delimiter(d), line))))
      else CountBody(d, limit, header, lines[1..], number + 1, records + 1)
  }

  function FastCount(d: Dialect, limit: nat, lines: seq<string>): Option<Outcome<nat>> {
    if lines == [] then Some(Failed(NoHeader))
    else if GivesUp(d, limit, lines[0]) then None
    else CountBody(d, limit, FieldCount(Delimiter(d), Visible(lines[0])), lines[1..], 2, 0)
  }

  method TryCountByPhysicalLines(d: Dialect, limit: nat, data: string) returns (fast: Option<Outcome<nat>>)
    ensures fast == FastCount(d, limit, Lines(WithoutBom(data)))
  {
    hide FieldCount, GivesUp, Visible, Lines;
    var lines := Lines(WithoutBom(data));
    var records, headerFields, lineNumber, headerSeen := 0, 0, 0, false;
    while lineNumber < |lines|
      invariant 0 <= lineNumber <= |lines|
      invariant if headerSeen then lineNumber > 0 else lineNumber == records == 0
      invariant !headerSeen || FastCount(d, limit, lines)
             == CountBody(d, limit, headerFields, lines[lineNumber..], lineNumber + 1, records)
    {
      var line := Visible(lines[lineNumber]);
      ghost var rest := lines[lineNumber..];
      assert rest[0] == lines[lineNumber] && rest[1..] == lines[lineNumber + 1..];
      if GivesUp(d, limit, lines[lineNumber]) {
        return None;
      }
      lineNumber := lineNumber + 1;
      if !headerSeen {
        headerSeen := true;
        headerFields := CountFields(Delimiter(d), line);
        continue;
      }
      if line == "" {
        continue;
      }
      var fields := CountFields(Delimiter(d), line);
      if fields != headerFields {
        return Some(Failed(FieldCountMismatch(lineNumber, headerFields, fields)));
      }
      records := records + 1;
    }
    fast := Some(if headerSeen then Done(records) else Failed(NoHeader));
  }

  function CountOf(outcome: Outcome<CsvFile>): Outcome<nat> {
    match outcome
    case Done(file) => Done(|file.rows|)
    case Failed(error) => Failed(error)
  }

  // ---------- a line without quotes is one record ----------

  /** Text that follows the content of a line. */
  predicate EndsLine(rest: string) {
    rest == "" || rest[0] == '\n' || (|rest| > 1 && rest[0] == '\r' && rest[1] == '\n')
  }

  predicate PlainContent(d: Dialect, content: string) {
    '\n' !in content && (Quoting(d) ==> d.quote !in content)
  }

  lemma PrefixReaches(delim: string, content: string, rest: string)
    requires delim <= content + rest && |delim| > |content|
    ensures rest != "" && rest[0] in delim
  {
    assert delim[|content|] == (content + rest)[|content|];
  }

  /** Neither the delimiter nor the quote is a line end. */
  predicate LineDialect(d: Dialect) {
    InsideLine(Delimiter(d)) && d.quote != '\n' && d.quote != '\r'
  }

  lemma DelimiterStaysInside(delim: string, content: string, rest: string)
    requires InsideLine(delim) && EndsLine(rest)
    ensures delim <= content + rest <==> delim <= content
  {
    var text := content + rest;
    if delim <= text && |delim| > |content| {
      PrefixReaches(delim, content, rest);
    }
    if delim <= text && |delim| <= |content| {
      assert text[..|delim|] == content[..|delim|];
    }
    if delim <= content {
      assert text[..|delim|] == content[..|delim|];
    }
  }

  /** Outside quotes the splitter cuts the content of a line into as many fields as FieldCount says. */
  lemma {:induction false} ScanContent(d: Dialect, s: Scanner, content: string, rest: string) returns (s': Scanner)
    requires !s.inQuotes && InsideLine(Delimiter(d)) && PlainContent(d, content) && EndsLine(rest)
    requires content != "" && content[|content| - 1] == '\r' ==> rest == "" || rest[0] != '\n'
    ensures Split(d, s, content + rest) == Split(d, s', rest)
    ensures !s'.inQuotes && s'.line == s.line && s'.rowLine == s.rowLine
    ensures s'.rowStarted == (s.rowStarted || content != "")
    ensures |s'.fields| + 1 == |s.fields| + FieldCount(Delimiter(d), content)
    decreases |content|
  {
    if content == "" {
      assert content + rest == rest;
      s' := s;
    } else {
      var text, delim := content + rest, Delimiter(d);
      DelimiterStaysInside(delim, content, rest);
      var round := Scan(d, s, text);
      assert content[0] in content;
      assert text[0] == content[0];
      var tail := if delim <= content then content[|delim|..] else content[1..];
      assert text[round.width..] == tail + rest;
      assert forall c | c in tail :: c in content;
      s' := ScanContent(d, round.next, tail, rest);
    }
  }

  predicate NulFree(text: string) {
    '\0' !in text
  }

  lemma {:induction false} CStringIsWhole(line: string)
    requires NulFree(line)
    ensures CString(line) == line
    decreases |line|
  {
    if line != "" {
      assert line[0] in line;
      CStringIsWhole(line[1..]);
      assert [line[0]] + line[1..] == line;
    }
  }

  /** Splits a text behind its first physical line. */
  lemma FirstLine(text: string) returns (line: string, rest: string)
    requires text != ""
    ensures '\n' !in line && |rest| < |text|
    ensures text == line + "\n" + rest || (text == line && rest == "")
    ensures Lines(text) == [line] + Lines(rest)
  {
    var n := LineLength(text);
    line := text[..n];
    rest := if n == |text| then "" else text[n + 1..];
    if n < |text| {
      assert text == line + "\n" + rest;
    }
  }

  /** The first line of a text, when it is not a last line that is a bare carriage return: a line without quotes
      is skipped if it is empty and is one record with as many fields as FieldCount says otherwise. */
  lemma FirstLineSplits(d: Dialect, text: string, line: string, rest: string, number: int) returns (row: Row)
    requires LineDialect(d) && PlainContent(d, line)
    requires text == line + "\n" + rest || (text == line && rest == "" && line != "" && line != "\r")
    ensures row.line == number && |row.fields| == FieldCount(Delimiter(d), Chomp(line))
    ensures var records := Split(d, LineStart(number + 1), rest);
            Split(d, LineStart(number), text) == if Chomp(line) == "" then records else Before(row, records)
  {
    hide Split, FieldCount, Scan, Delimiter;
    var delim, content := Delimiter(d), Chomp(line);
    assert forall c | c in content :: c in line;
    if text == line + "\n" + rest {
      var chomped := if content == line then "\n" + rest else "\r\n" + rest;
      assert text == content + chomped;
      var s := ScanContent(d, LineStart(number), content, chomped);
      row := Row(s.fields + [s.field], number);
      EndOfLine(d, s, content == line, rest);
    } else {
      assert line + "" == line;
      var s := ScanContent(d, LineStart(number), line, "");
      row := Row(s.fields + [s.field], number);
      EndOfText(d, s);
      EndOfText(d, LineStart(number + 1));
      ChompKeepsCount(delim, line);
      LastRow(row);
    }
  }

  lemma EndOfText(d: Dialect, s: Scanner)
    requires !s.inQuotes
    ensures Split(d, s, "") == Records(if s.rowStarted then [Row(s.fields + [s.field], s.rowLine)] else [], None)
  {
  }

  lemma EndOfLine(d: Dialect, s: Scanner, bare: bool, rest: string)
    requires !s.inQuotes && LineDialect(d)
    ensures var records := Split(d, LineStart(s.line + 1), rest);
            Split(d, s, (if bare then "\n" else "\r\n") + rest)
            == if s.rowStarted then Before(Row(s.fields + [s.field], s.rowLine), records) else records
  {
    var text := "\n" + rest;
    assert Delimiter(d)[0] in Delimiter(d);
    assert text[1..] == rest;
    if !bare {
      assert ("\r\n" + rest)[1..] == text;
    }
  }

  /** A delimiter has no carriage return, so the one at the end of a line is no part of a match. */
  lemma {:induction false} ChompKeepsCount(delim: string, line: string)
    requires delim != "" && InsideLine(delim)
    ensures line != "" && line[|line| - 1] == '\r' ==> FieldCount(delim, line) == FieldCount(delim, line[..|line| - 1])
    decreases |line|
  {
    if line != "" && line[|line| - 1] == '\r' {
      var content := line[..|line| - 1];
      assert delim <= line ==> delim[|delim| - 1] in delim;
      if delim <= line {
        assert delim <= content;
        assert line[|delim|..][..|line| - |delim| - 1] == content[|delim|..];
        ChompKeepsCount(delim, line[|delim|..]);
      } else if |line| > 1 {
        assert !(delim <= content);
        assert line[1..][..|line| - 2] == content[1..];
        ChompKeepsCount(delim, line[1..]);
      }
    }
  }

  // ---------- the fast count is the parser's ----------

  /** The count that Deliver arrives at. */
  function Tally(header: nat, n: nat, records: Records): Outcome<nat>
    decreases |records.rows|
  {
    if records.rows == [] then
      if records.unterminated.Some? then Failed(UnterminatedQuote(records.unterminated.value)) else Done(n)
    else
      var row := records.rows[0];
      if |row.fields| != header then Failed(FieldCountMismatch(row.line, header, |row.fields|))
      else Tally(header, n + 1, records.(rows := records.rows[1..]))
  }

  lemma {:induction false} DeliverCounts(header: seq<string>, done: seq<Row>, records: Records)
    ensures CountOf(Deliver(header, done, records)) == Tally(|header|, |done|, records)
    decreases |records.rows|
  {
    if records.rows != [] {
      DeliverCounts(header, done + [records.rows[0]], records.(rows := records.rows[1..]));
    }
  }

  lemma TallyRow(header: nat, n: nat, row: Row, records: Records)
    ensures Tally(header, n, Before(row, records))
         == if |row.fields| != header then Failed(FieldCountMismatch(row.line, header, |row.fields|))
            else Tally(header, n + 1, records)
  {
    assert Before(row, records).rows[1..] == records.rows;
  }

  /** The last physical line is a bare carriage return: the reader sees an empty line, the parser a field. */
  predicate EndsBare(text: string) {
    text != "" && text[|text| - 1] == '\r' && (|text| > 1 ==> text[|text| - 2] == '\n')
  }

  /** The reader sees an empty first line, and takes it as the header; the parser skips it. */
  predicate StartsBlank(text: string) {
    "\n" <= text || "\r\n" <= text || text == "\r"
  }

  /** Cutting a line at its first NUL byte changes neither whether it is blank nor its field count. */
  predicate CutHarmless(d: Dialect, line: string) {
    && (Visible(line) == "" <==> Chomp(line) == "")
    && FieldCount(Delimiter(d), Visible(line)) == FieldCount(Delimiter(d), Chomp(line))
  }

  /** Nor does it hide a quote. */
  predicate Harmless(d: Dialect, line: string) {
    CutHarmless(d, line) && (Quoting(d) && d.quote in Chomp(line) ==> d.quote in Visible(line))
  }

  lemma NulFreeLine(d: Dialect, line: string)
    requires NulFree(line)
    ensures Visible(line) == Chomp(line) && Harmless(d, line)
  {
    assert forall c | c in Chomp(line) :: c in line;
    CStringIsWhole(Chomp(line));
  }

  /** A line the fast path counts is free of quotes. */
  lemma CountedLine(d: Dialect, limit: nat, line: string)
    requires LineDialect(d) && '\n' !in line && !GivesUp(d, limit, line)
    requires Quoting(d) && d.quote in Chomp(line) ==> d.quote in Visible(line)
    ensures PlainContent(d, line)
  {
    assert line == Chomp(line) || line == Chomp(line) + "\r";
    assert forall c | c in line :: c in Chomp(line) || c == '\r';
  }

  lemma {:induction false} BodyAgrees(d: Dialect, limit: nat, header: nat, text: string, number: int, n: nat)
    requires LineDialect(d) && !EndsBare(text) && forall i | 0 <= i < |Lines(text)| :: Harmless(d, Lines(text)[i])
    ensures var fast := CountBody(d, limit, header, Lines(text), number, n);
            fast.Some? ==> fast.value == Tally(header, n, Split(d, LineStart(number), text))
    decreases |text|
  {
    hide Split, FieldCount, Lines, GivesUp, Tally, Visible, Chomp, PlainContent, Before;
    if text == "" {
      EndOfText(d, LineStart(number));
      TallyNothing(header, n);
      NoLines();
    } else {
      var line, rest := FirstLine(text);
      RestOf(text, line, rest);
      assert Lines(text)[0] == line && Lines(text)[1..] == Lines(rest);
      assert forall i | 0 <= i < |Lines(rest)| :: Lines(rest)[i] == Lines(text)[i + 1];
      if !GivesUp(d, limit, line) {
        CountedLine(d, limit, line);
        var row := FirstLineSplits(d, text, line, rest, number);
        TallyRow(header, n, row, Split(d, LineStart(number + 1), rest));
        BodyAgrees(d, limit, header, rest, number + 1, if Chomp(line) == "" then n else n + 1);
      }
    }
  }

  lemma NoLines()
    ensures Lines("") == []
  {
  }

  lemma TallyNothing(header: nat, n: nat)
    ensures Tally(header, n, Records([], None)) == Done(n)
  {
  }

  lemma RestOf(text: string, line: string, rest: string)
    requires text == line + "\n" + rest || (text == line && rest == "" && line != "")
    ensures NulFree(text) ==> NulFree(line) && NulFree(rest)
    ensures rest != "" ==> EndsBare(text) == EndsBare(rest)
    ensures !EndsBare(text) && '\n' !in line ==> !EndsBare(rest) && (text == line ==> line != "\r")
  {
    assert forall c | c in line || c in rest :: c in text;
    if rest != "" {
      assert text[|text| - 1] == rest[|rest| - 1];
      assert |rest| > 1 ==> text[|text| - 2] == rest[|rest| - 2];
      assert |rest| == 1 ==> text[|text| - 2] == '\n';
    }
  }

  /** What the parser reads: it keeps the byte order mark if the dialect says so. */
  function ParserText(d: Dialect, data: string): string {
    if d.stripBom then WithoutBom(data) else data
  }

  /** The first line is a header for both: not blank to the parser, with the field count that the fast path finds in
      its view, and with no quote hidden from that view. The views differ by a NUL cut and a kept byte order mark. */
  predicate SameHeader(d: Dialect, data: string) {
    var fast, parsed := Lines(WithoutBom(data)), Lines(ParserText(d, data));
    if fast == [] then parsed == []
    else
      parsed != []
      && var visible, content := Visible(fast[0]), Chomp(parsed[0]);
         && content != "" && FieldCount(Delimiter(d), visible) == FieldCount(Delimiter(d), content)
         && (Quoting(d) && d.quote in content ==> d.quote in visible)
  }

  /** The parser's text starts with the reader's first line, behind a byte order mark if that is kept. */
  lemma ParserFirstLine(d: Dialect, data: string, line: string, rest: string) returns (first: string)
    requires WithoutBom(data) != "" && '\n' !in line && Lines(WithoutBom(data)) == [line] + Lines(rest)
    requires var text := WithoutBom(data); text == line + "\n" + rest || (text == line && rest == "")
    ensures '\n' !in first && (first == line || (!d.stripBom && first == BOM + line))
    ensures var text := ParserText(d, data);
            Lines(text) == [first] + Lines(rest) && (text == first + "\n" + rest || (text == first && rest == ""))
  {
    hide Lines;
    var text, short := ParserText(d, data), WithoutBom(data);
    if text == short {
      first := line;
    } else {
      first := BOM + line;
      KeptBom(data);
      AfterBom(line, rest, short, text);
      LineOf(first, rest, text);
    }
  }

  lemma KeptBom(data: string)
    ensures WithoutBom(data) != data ==> data == BOM + WithoutBom(data)
  {
  }

  lemma AfterBom(line: string, rest: string, short: string, text: string)
    requires text == BOM + short && '\n' !in line
    requires short == line + "\n" + rest || (short == line && rest == "")
    ensures '\n' !in BOM + line && (text == BOM + line + "\n" + rest || (text == BOM + line && rest == ""))
  {
    assert short == line + "\n" + rest ==> text == BOM + line + "\n" + rest;
  }

  lemma {:induction false} LengthOfLine(line: string, more: string)
    requires '\n' !in line && (more == "" || more[0] == '\n')
    ensures LineLength(line + more) == |line|
    decreases |line|
  {
    if line == "" {
      assert line + more == more;
    } else {
      assert line[0] in line;
      assert (line + more)[1..] == line[1..] + more;
      LengthOfLine(line[1..], more);
    }
  }

  lemma LineOf(line: string, rest: string, text: string)
    requires '\n' !in line && text != "" && (text == line + "\n" + rest || (text == line && rest == ""))
    ensures Lines(text) == [line] + Lines(rest)
  {
    var n := LineLength(text);
    if text == line {
      assert line + "" == line;
      LengthOfLine(line, "");
    } else {
      assert text == line + ("\n" + rest);
      LengthOfLine(line, "\n" + rest);
    }
    assert text[..n] == line;
    if n < |text| {
      assert text[n + 1..] == rest;
    }
  }

  /** Both ways of counting see one header with one field count, every further line survives the cut at a NUL byte,
      and the last line is no bare carriage return. */
  predicate Countable(d: Dialect, data: string) {
    && LineDialect(d) && SameHeader(d, data) && !EndsBare(ParserText(d, data))
    && forall i | 0 < i < |Lines(WithoutBom(data))| :: Harmless(d, Lines(WithoutBom(data))[i])
  }

  /** countCsvRecords counts what readCsvFile reads: the same number of rows, or the same error at the same line. */
  lemma CountIsParse(d: Dialect, limit: nat, data: string)
    requires Countable(d, data)
    ensures var fast := FastCount(d, limit, Lines(WithoutBom(data)));
            fast.Some? ==> fast.value == CountOf(Parse(d, data))
  {
    hide Split, FieldCount, Lines, GivesUp, Tally, Visible, PlainContent, Harmless, Chomp;
    var text, parsed := WithoutBom(data), ParserText(d, data);
    if text == "" {
      NoLines();
      EndOfText(d, LineStart(1));
      NoParsedLines(parsed);
    } else {
      var line, rest := FirstLine(text);
      var first := ParserFirstLine(d, data, line, rest);
      HeaderThenBody(d, limit, line, rest, parsed, first);
    }
  }

  /** countCsvRecords. Where the two ways of counting are known to agree, it is the number of records that the parser
      delivers, or its error. */
  method CountCsvRecords(d: Dialect, limit: nat, data: string) returns (count: Outcome<nat>)
    ensures Countable(d, data) ==> count == CountOf(Parse(d, data))
    ensures var fast := FastCount(d, limit, Lines(WithoutBom(data)));
            count == if fast.Some? then fast.value else CountOf(Parse(d, data))
  {
    hide Countable;
    if Countable(d, data) {
      CountIsParse(d, limit, data);
    }
    var fast := TryCountByPhysicalLines(d, limit, data);
    if fast.Some? {
      return fast.value;
    }
    var outcome := ParseCsv(d, data);
    count := CountOf(outcome);
  }

  lemma NoParsedLines(text: string)
    requires Lines(text) == []
    ensures text == ""
  {
  }

  lemma HeaderThenBody(d: Dialect, limit: nat, line: string, rest: string, parsed: string, first: string)
    requires LineDialect(d) && !EndsBare(parsed) && '\n' !in line && '\n' !in first
    requires parsed == first + "\n" + rest || (parsed == first && rest == "")
    requires Chomp(first) != "" && FieldCount(Delimiter(d), Visible(line)) == FieldCount(Delimiter(d), Chomp(first))
    requires Quoting(d) && d.quote in Chomp(first) ==> d.quote in Visible(line)
    requires forall i | 0 < i < |[line] + Lines(rest)| :: Harmless(d, ([line] + Lines(rest))[i])
    ensures var fast := FastCount(d, limit, [line] + Lines(rest));
            fast.Some? ==> fast.value == CountOf(DeliverAll(Split(d, LineStart(1), parsed)))
  {
    hide Split, FieldCount, Lines, GivesUp, Tally, Visible, PlainContent, Harmless, Chomp, LineDialect;
    var lines := [line] + Lines(rest);
    assert lines[0] == line && lines[1..] == Lines(rest);
    assert forall i | 0 <= i < |Lines(rest)| :: Lines(rest)[i] == lines[i + 1];
    if !GivesUp(d, limit, line) {
      PlainHeader(d, limit, line, first);
      assert first != "" && first != "\r" by { BlankChomps(); }
      RestOf(parsed, first, rest);
      var row := FirstLineSplits(d, parsed, first, rest, 1);
      var records := Split(d, LineStart(2), rest);
      BodyAgrees(d, limit, |row.fields|, rest, 2, 0);
      DeliverCounts(row.fields, [], records);
      assert Before(row, records).(rows := Before(row, records).rows[1..]) == records;
    }
  }

  lemma BlankChomps()
    ensures Chomp("") == "" && Chomp("\r") == ""
  {
  }

  lemma PlainHeader(d: Dialect, limit: nat, line: string, first: string)
    requires LineDialect(d) && '\n' !in first && !GivesUp(d, limit, line)
    requires Quoting(d) && d.quote in Chomp(first) ==> d.quote in Visible(line)
    ensures PlainContent(d, first)
  {
    assert first == Chomp(first) || first == Chomp(first) + "\r";
    assert forall c | c in first :: c in Chomp(first) || c == '\r';
  }

  lemma FirstLineBlank(text: string, line: string, rest: string)
    requires '\n' !in line && (text == line + "\n" + rest || (text == line && rest == "" && line != ""))
    ensures StartsBlank(text) <==> Chomp(line) == ""
  {
    if Chomp(line) == "" {
      assert line == "" || line == "\r";
    }
    assert line != "" ==> line[0] in line && text[0] == line[0];
    assert |line| > 1 ==> line[1] in line && text[1] == line[1];
  }

  /** In particular: every text without NUL bytes whose byte order mark is stripped, with a first line that is not
      blank and a last that is no bare carriage return. */
  lemma CountIsParseWithoutNul(d: Dialect, limit: nat, data: string)
    requires LineDialect(d) && NulFree(data) && (BOM <= data ==> d.stripBom)
    requires !StartsBlank(WithoutBom(data)) && !EndsBare(WithoutBom(data))
    ensures var fast := FastCount(d, limit, Lines(WithoutBom(data)));
            fast.Some? ==> fast.value == CountOf(Parse(d, data))
  {
    hide Split, FieldCount, Lines, GivesUp, Tally, Visible, PlainContent, Harmless, Chomp, StartsBlank, EndsBare;
    var text := WithoutBom(data);
    assert NulFree(text);
    LinesNulFree(text);
    forall i | 0 <= i < |Lines(text)|
      ensures Visible(Lines(text)[i]) == Chomp(Lines(text)[i]) && Harmless(d, Lines(text)[i])
    {
      NulFreeLine(d, Lines(text)[i]);
    }
    if text == "" {
      NoLines();
    } else {
      var line, rest := FirstLine(text);
      FirstLineBlank(text, line, rest);
    }
    CountIsParse(d, limit, data);
  }

  lemma {:induction false} LinesNulFree(text: string)
    requires NulFree(text)
    ensures forall i | 0 <= i < |Lines(text)| :: NulFree(Lines(text)[i])
    decreases |text|
  {
    if text != "" {
      var line, rest := FirstLine(text);
      assert forall c | c in line || c in rest :: c in text;
      LinesNulFree(rest);
    }
  }
}
