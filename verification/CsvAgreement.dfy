/** Exactly when the fast count of CSV records agrees with the parser (csv_reader.cpp). Both are seen through shapes:
    the line number and the field count of what is counted. */
module CsvAgreement {
  import opened Lists
  import opened CsvReader
  import opened CsvCount

  // ---------- shapes ----------

  /** A line or record by its number and its field count. */
  datatype Shape = Shape(line: int, fields: nat)

  /** What is seen of a line: the fast path's C string, or the whole content. */
  function View(cut: bool, line: string): string {
    if cut then Visible(line) else Chomp(line)
  }

  /** The lines that are not blank, as seen. */
  function Shapes(d: Dialect, cut: bool, lines: seq<string>, number: int): seq<Shape> {
    if lines == [] then []
    else
      var line := View(cut, lines[0]);
      (if line == "" then [] else [Shape(number, FieldCount(Delimiter(d), line))])
      + Shapes(d, cut, lines[1..], number + 1)
  }

  /** No line suffers from the cut at a NUL byte. */
  predicate CutsHarmless(d: Dialect, lines: seq<string>) {
    forall i | 0 <= i < |lines| :: CutHarmless(d, lines[i])
  }

  lemma CutsHarmlessHead(d: Dialect, lines: seq<string>)
    requires lines != []
    ensures CutsHarmless(d, lines) <==> CutHarmless(d, lines[0]) && CutsHarmless(d, lines[1..])
  {
    hide CutHarmless;
    assert forall i | 0 <= i < |lines| - 1 :: lines[1..][i] == lines[i + 1];
  }

  /** The two views of some lines coincide exactly if no cut matters. */
  lemma {:induction false} ShapesCoincide(d: Dialect, lines: seq<string>, number: int)
    ensures Shapes(d, true, lines, number) == Shapes(d, false, lines, number) <==> CutsHarmless(d, lines)
    decreases |lines|
  {
    hide FieldCount, Visible, Chomp, CutsHarmless;
    if lines != [] {
      ShapesCoincide(d, lines[1..], number + 1);
      CutsHarmlessHead(d, lines);
      ShapesStartLater(d, true, lines[1..], number + 1);
      ShapesStartLater(d, false, lines[1..], number + 1);
      EmptyLineFields(Delimiter(d));
      var x, y := Shapes(d, true, lines, number), Shapes(d, false, lines, number);
      var x', y' := Shapes(d, true, lines[1..], number + 1), Shapes(d, false, lines[1..], number + 1);
      if Visible(lines[0]) == "" {
        assert x == x';
      } else {
        assert x[0].line == number && x[1..] == x';
      }
      if Chomp(lines[0]) == "" {
        assert y == y';
      } else {
        assert y[0].line == number && y[1..] == y';
      }
    } else {
      assert CutsHarmless(d, lines) by { NoCuts(d); }
    }
  }

  lemma NoCuts(d: Dialect)
    ensures CutsHarmless(d, [])
  {
  }

  lemma {:induction false} ShapesStartLater(d: Dialect, cut: bool, lines: seq<string>, number: int)
    ensures Shapes(d, cut, lines, number) != [] ==> Shapes(d, cut, lines, number)[0].line >= number
    decreases |lines|
  {
    if lines != [] {
      ShapesStartLater(d, cut, lines[1..], number + 1);
    }
  }

  function RowShapes(rows: seq<Row>): (shapes: seq<Shape>)
    ensures |shapes| == |rows|
  {
    if rows == [] then [] else [Shape(rows[0].line, |rows[0].fields|)] + RowShapes(rows[1..])
  }

  function Check(header: nat, n: nat, shapes: seq<Shape>): Outcome<nat>
    decreases |shapes|
  {
    if shapes == [] then Done(n)
    else if shapes[0].fields != header then Failed(FieldCountMismatch(shapes[0].line, header, shapes[0].fields))
    else Check(header, n + 1, shapes[1..])
  }

  predicate Uniform(header: nat, shapes: seq<Shape>) {
    forall i | 0 <= i < |shapes| :: shapes[i].fields == header
  }

  lemma {:induction false} CheckUniform(header: nat, n: nat, shapes: seq<Shape>)
    ensures if Uniform(header, shapes) then Check(header, n, shapes) == Done(n + |shapes|)
            else Check(header, n, shapes).Failed?
    decreases |shapes|
  {
    if shapes != [] {
      CheckUniform(header, n + 1, shapes[1..]);
      assert Uniform(header, shapes) <==> shapes[0].fields == header && Uniform(header, shapes[1..]);
    }
  }

  lemma {:induction false} CheckAppend(header: nat, n: nat, m: nat, a: seq<Shape>, b: seq<Shape>)
    ensures Uniform(header, a) ==> Check(header, n, a + b) == Check(header, n + |a|, b)
    ensures !Uniform(header, a) ==> Check(header, n, a + b) == Check(header, m, a)
    decreases |a|
  {
    if a == [] {
      assert a + b == b;
    } else {
      assert (a + b)[1..] == a[1..] + b;
      CheckAppend(header, n + 1, m + 1, a[1..], b);
      assert Uniform(header, a) <==> a[0].fields == header && Uniform(header, a[1..]);
    }
  }

  lemma {:induction false} TallyIsCheck(header: nat, n: nat, records: Records)
    requires records.unterminated.None?
    ensures Tally(header, n, records) == Check(header, n, RowShapes(records.rows))
    decreases |records.rows|
  {
    if records.rows != [] {
      TallyIsCheck(header, n + 1, records.(rows := records.rows[1..]));
    }
  }

  // ---------- both counts as a check of shapes ----------

  predicate NoQuote(d: Dialect, text: string) {
    Quoting(d) ==> d.quote !in text
  }

  /** No line is too long for the reader's buffer. */
  predicate Short(limit: nat, lines: seq<string>) {
    forall i | 0 <= i < |lines| :: |lines[i]| + 1 <= limit
  }

  lemma {:induction false} CStringIsPrefix(line: string)
    ensures CString(line) <= line
    decreases |line|
  {
    if line != "" && line[0] != '\0' {
      CStringIsPrefix(line[1..]);
      assert line == [line[0]] + line[1..];
    }
  }

  lemma QuoteFreeLine(d: Dialect, limit: nat, line: string)
    requires NoQuote(d, line) && |line| + 1 <= limit
    ensures !GivesUp(d, limit, line)
  {
    CStringIsPrefix(Chomp(line));
    assert forall c | c in Visible(line) :: c in Chomp(line);
    assert forall c | c in Chomp(line) :: c in line;
  }

  lemma {:induction false} LinesQuoteFree(d: Dialect, text: string)
    requires NoQuote(d, text)
    ensures forall i | 0 <= i < |Lines(text)| :: NoQuote(d, Lines(text)[i])
    decreases |text|
  {
    if text != "" {
      var line, rest := FirstLine(text);
      assert forall c | c in line || c in rest :: c in text;
      LinesQuoteFree(d, rest);
    }
  }

  lemma {:induction false} BodyIsCheck(d: Dialect, limit: nat, header: nat, lines: seq<string>, number: int, n: nat)
    requires Short(limit, lines) && forall i | 0 <= i < |lines| :: NoQuote(d, lines[i])
    ensures CountBody(d, limit, header, lines, number, n) == Some(Check(header, n, Shapes(d, true, lines, number)))
    decreases |lines|
  {
    hide FieldCount, Visible, GivesUp, NoQuote;
    if lines != [] {
      QuoteFreeLine(d, limit, lines[0]);
      var fields := FieldCount(Delimiter(d), Visible(lines[0]));
      BodyIsCheck(d, limit, header, lines[1..], number + 1, if Visible(lines[0]) == "" then n else n + 1);
      var tail := Shapes(d, true, lines[1..], number + 1);
      CheckHead(header, n, Shape(number, fields), tail);
      assert Visible(lines[0]) == "" ==> Shapes(d, true, lines, number) == tail;
    }
  }

  lemma CheckHead(header: nat, n: nat, head: Shape, tail: seq<Shape>)
    ensures Check(header, n, [head] + tail)
         == if head.fields != header then Failed(FieldCountMismatch(head.line, header, head.fields))
            else Check(header, n + 1, tail)
  {
  }

  /** What the parser sees in a bare carriage return at the end. */
  function BareEnd(text: string, number: int): seq<Shape> {
    if EndsBare(text) then [Shape(number + |Lines(text)| - 1, 1)] else []
  }

  lemma BareLine(d: Dialect, number: int)
    requires LineDialect(d)
    ensures Split(d, LineStart(number), "\r") == Records([Row(["\r"], number)], None)
    ensures Lines("\r") == ["\r"] && Chomp("\r") == ""
  {
    assert Delimiter(d)[0] in Delimiter(d);
    var s := LineStart(number);
    var next := s.(field := "\r", fieldStarted := true, rowStarted := true);
    assert Scan(d, s, "\r") == Round(None, next, 1);
    assert "\r"[1..] == "";
    EndOfText(d, next);
    assert Split(d, s, "\r") == Split(d, next, "");
    assert next.fields + [next.field] == ["\r"];
    assert LineLength("\r") == 1;
    assert "\r"[..1] == "\r";
  }

  /** On a text without quotes the parser's records are its non-blank lines, and the bare end. */
  lemma {:induction false} SplitPlain(d: Dialect, text: string, number: int)
    requires LineDialect(d) && NoQuote(d, text)
    ensures var records := Split(d, LineStart(number), text);
            records.unterminated.None?
            && RowShapes(records.rows) == Shapes(d, false, Lines(text), number) + BareEnd(text, number)
    decreases |text|
  {
    hide Split, FieldCount, Chomp, Lines;
    if text == "" {
      EndOfText(d, LineStart(number));
      NoLines();
    } else if text == "\r" {
      BareLine(d, number);
    } else {
      var line, rest := FirstLine(text);
      assert Lines(text)[0] == line && Lines(text)[1..] == Lines(rest);
      RestOf(text, line, rest);
      assert forall c | c in line || c in rest :: c in text;
      BareEndOfRest(text, line, rest);
      var row := FirstLineSplits(d, text, line, rest, number);
      SplitPlain(d, rest, number + 1);
      var records := Split(d, LineStart(number + 1), rest);
      assert Before(row, records).rows[1..] == records.rows;
    }
  }

  lemma BareEndOfRest(text: string, line: string, rest: string)
    requires text == line + "\n" + rest || (text == line && rest == "" && line != "")
    requires text != "\r" && '\n' !in line && (rest != "" ==> EndsBare(text) == EndsBare(rest))
    ensures EndsBare(text) == EndsBare(rest)
  {
    if rest == "" && text == line && |line| > 1 {
      assert line[|line| - 2] in line;
    }
  }

  /** The first shape stands for the header. */
  function CheckAll(shapes: seq<Shape>): Outcome<nat> {
    if shapes == [] then Failed(NoHeader) else Check(shapes[0].fields, 0, shapes[1..])
  }

  /** What the parser counts. */
  function ParsedShapes(d: Dialect, data: string): seq<Shape> {
    var text := ParserText(d, data);
    Shapes(d, false, Lines(text), 1) + BareEnd(text, 1)
  }

  lemma ParsedCount(d: Dialect, data: string)
    requires LineDialect(d) && NoQuote(d, data)
    ensures CountOf(Parse(d, data)) == CheckAll(ParsedShapes(d, data))
  {
    hide Split, FieldCount, Lines, Tally, Chomp, Check, Shapes;
    var text := ParserText(d, data);
    assert forall c | c in text :: c in data;
    var records := Split(d, LineStart(1), text);
    SplitPlain(d, text, 1);
    if records.rows != [] {
      var rest := records.(rows := records.rows[1..]);
      DeliverCounts(records.rows[0].fields, [], rest);
      TallyIsCheck(|records.rows[0].fields|, 0, rest);
    }
  }

  lemma FastChecks(d: Dialect, limit: nat, lines: seq<string>)
    requires lines != [] && Short(limit, lines) && forall i | 0 <= i < |lines| :: NoQuote(d, lines[i])
    ensures FastCount(d, limit, lines)
         == Some(Check(FieldCount(Delimiter(d), Visible(lines[0])), 0, Shapes(d, true, lines[1..], 2)))
  {
    hide FieldCount, Visible, GivesUp, NoQuote, Shapes, Check;
    QuoteFreeLine(d, limit, lines[0]);
    BodyIsCheck(d, limit, FieldCount(Delimiter(d), Visible(lines[0])), lines[1..], 2, 0);
  }

  // ---------- exactly when ----------

  /** The first shape with another field count than the header, or the length. */
  function FirstBad(header: nat, shapes: seq<Shape>): (k: nat)
    ensures k <= |shapes| && (k == |shapes| <==> Uniform(header, shapes))
    ensures forall i | 0 <= i < k :: shapes[i].fields == header
    ensures k < |shapes| ==> shapes[k].fields != header
  {
    if shapes == [] || shapes[0].fields != header then 0
    else
      var k := 1 + FirstBad(header, shapes[1..]);
      assert forall i | 0 < i < |shapes| :: shapes[i] == shapes[1..][i - 1];
      k
  }

  /** Two checks come out the same: both lists fit their headers and are equally long, or neither does and the first
      misfits are the same line with the same field counts. */
  predicate SameOutcome(h: nat, x: seq<Shape>, k: nat, y: seq<Shape>) {
    if Uniform(h, x) || Uniform(k, y) then Uniform(h, x) && Uniform(k, y) && |x| == |y|
    else h == k && x[FirstBad(h, x)] == y[FirstBad(k, y)]
  }

  lemma {:induction false} CheckOutcome(header: nat, n: nat, shapes: seq<Shape>)
    ensures var k := FirstBad(header, shapes);
            Check(header, n, shapes)
            == if k == |shapes| then Done(n + |shapes|)
               else Failed(FieldCountMismatch(shapes[k].line, header, shapes[k].fields))
    decreases |shapes|
  {
    if shapes != [] && shapes[0].fields == header {
      CheckOutcome(header, n + 1, shapes[1..]);
    }
  }

  /** The fast count and the parser agree on a text without quotes exactly under this condition: on their headers and
      on the two lists of lines as each of them sees it, the one cut at NUL bytes and without the byte order mark, the
      other whole and with a bare carriage return at the end as a record. */
  lemma AgreesExactly(d: Dialect, limit: nat, data: string)
    requires LineDialect(d) && NoQuote(d, data) && Short(limit, Lines(WithoutBom(data)))
    ensures var lines, rows := Lines(WithoutBom(data)), ParsedShapes(d, data);
            FastCount(d, limit, lines) == Some(CountOf(Parse(d, data))) <==>
              if lines == [] || rows == [] then lines == [] && rows == []
              else SameOutcome(FieldCount(Delimiter(d), Visible(lines[0])), Shapes(d, true, lines[1..], 2),
                               rows[0].fields, rows[1..])
  {
    hide FieldCount, Lines, GivesUp, Visible, Check, Shapes, ParsedShapes, Uniform, NoQuote, FirstBad, BOM, Parse;
    var text := WithoutBom(data);
    var lines, rows := Lines(text), ParsedShapes(d, data);
    QuoteFreeText(d, data);
    LinesQuoteFree(d, text);
    ParsedCount(d, data);
    if rows != [] {
      CheckOutcome(rows[0].fields, 0, rows[1..]);
    }
    if lines != [] {
      FastChecks(d, limit, lines);
      CheckOutcome(FieldCount(Delimiter(d), Visible(lines[0])), 0, Shapes(d, true, lines[1..], 2));
    }
  }

  lemma QuoteFreeText(d: Dialect, data: string)
    requires NoQuote(d, data)
    ensures NoQuote(d, WithoutBom(data))
  {
    assert forall c | c in WithoutBom(data) :: c in data;
  }

  // ---------- the condition when no cut matters ----------

  lemma HeaderAgrees(head: Shape, body: seq<Shape>, bare: seq<Shape>)
    requires bare == [] || (|bare| == 1 && bare[0].fields == 1)
    ensures Check(head.fields, 0, body) == CheckAll([head] + body + bare)
       <==> bare == [] || !Uniform(head.fields, body)
  {
    assert ([head] + body + bare)[1..] == body + bare;
    CheckAppend(head.fields, 0, 0, body, bare);
    CheckUniform(head.fields, 0, body);
    CheckUniform(head.fields, |body|, bare);
    assert bare == [] ==> body + bare == body;
  }

  lemma NoHeaderAgrees(body: seq<Shape>, bare: seq<Shape>)
    requires bare == [] || (|bare| == 1 && bare[0].fields == 1)
    ensures Check(1, 0, body) == CheckAll(body + bare)
       <==> if body == [] then bare != [] else body[0].fields == 1 && (bare != [] || !Uniform(1, body))
  {
    if body == [] {
      assert body + bare == bare;
      assert bare != [] ==> bare[1..] == [];
    } else {
      assert body == [body[0]] + body[1..];
      if body[0].fields == 1 {
        BlankThenOneField(body[0], body[1..], bare);
      } else {
        assert (body + bare)[1..] == body[1..] + bare;
        CheckExpects(body[0].fields, 0, body[1..] + bare);
      }
    }
  }

  lemma BlankThenOneField(head: Shape, rest: seq<Shape>, bare: seq<Shape>)
    requires bare == [] || (|bare| == 1 && bare[0].fields == 1)
    requires head.fields == 1
    ensures Check(1, 0, [head] + rest) == CheckAll([head] + rest + bare)
       <==> bare != [] || !Uniform(1, [head] + rest)
  {
    hide Check;
    assert ([head] + rest + bare)[1..] == rest + bare;
    assert Uniform(1, [head] + rest) <==> Uniform(1, rest) by {
      assert forall i | 0 <= i < |rest| :: ([head] + rest)[i + 1] == rest[i];
    }
    CheckHead(1, 0, head, rest);
    CheckAppend(1, 0, 1, rest, bare);
    CheckUniform(1, 1, rest);
    CheckUniform(1, |rest|, bare);
    assert bare == [] ==> rest + bare == rest;
    CheckUniform(1, 0, rest);
  }

  /** A field count error names the header's count. */
  lemma {:induction false} CheckExpects(header: nat, n: nat, shapes: seq<Shape>)
    ensures var r := Check(header, n, shapes); r.Failed? ==> r.error.FieldCountMismatch? && r.error.expected == header
    decreases |shapes|
  {
    if shapes != [] {
      CheckExpects(header, n + 1, shapes[1..]);
    }
  }

  lemma EmptyLineFields(delim: string)
    requires delim != ""
    ensures FieldCount(delim, "") == 1
  {
  }

  lemma FirstShape(d: Dialect, cut: bool, lines: seq<string>)
    requires lines != []
    ensures var line := View(cut, lines[0]);
            Shapes(d, cut, lines, 1)
            == (if line == "" then [] else [Shape(1, FieldCount(Delimiter(d), line))]) + Shapes(d, cut, lines[1..], 2)
  {
  }

  /** If no line suffers from the cut at a NUL byte and both read the same text, only the first and the last line
      matter. With a header line that is not blank they agree unless the text ends in a bare carriage return with no
      wrong line before it. With a blank first line, which only the fast path takes as a header of one field, they
      agree only by accident. */
  lemma AgreesOnHarmlessLines(d: Dialect, limit: nat, data: string)
    requires LineDialect(d) && NoQuote(d, data) && Short(limit, Lines(WithoutBom(data)))
    requires BOM <= data ==> d.stripBom
    requires CutsHarmless(d, Lines(WithoutBom(data)))
    ensures var text := WithoutBom(data);
            var lines := Lines(text);
            var header := if lines == [] then 0 else FieldCount(Delimiter(d), Visible(lines[0]));
            var body := if lines == [] then [] else Shapes(d, true, lines[1..], 2);
            FastCount(d, limit, lines) == Some(CountOf(Parse(d, data))) <==>
              if text == "" then true
              else if !StartsBlank(text) then !EndsBare(text) || !Uniform(header, body)
              else if body == [] then EndsBare(text)
              else body[0].fields == 1 && (EndsBare(text) || !Uniform(1, body))
  {
    hide FieldCount, Lines, GivesUp, Visible, Chomp, Check, Shapes, EndsBare, StartsBlank, Uniform, NoQuote, Parse;
    var text := WithoutBom(data);
    var lines := Lines(text);
    QuoteFreeText(d, data);
    LinesQuoteFree(d, text);
    ParsedCount(d, data);
    if text == "" {
      NoLines();
      NothingParsed(d);
    } else {
      var line, rest := FirstLine(text);
      FirstLineBlank(text, line, rest);
      var header := FieldCount(Delimiter(d), Visible(line));
      var body, bare := Shapes(d, true, lines[1..], 2), BareEnd(text, 1);
      FastChecks(d, limit, lines);
      ShapesCoincide(d, lines, 1);
      FirstShape(d, true, lines);
      if Visible(line) != "" {
        assert ParsedShapes(d, data) == [Shape(1, header)] + body + bare;
        HeaderAgrees(Shape(1, header), body, bare);
      } else {
        EmptyLineFields(Delimiter(d));
        assert ParsedShapes(d, data) == body + bare;
        NoHeaderAgrees(body, bare);
      }
      assert bare != [] <==> EndsBare(text);
    }
  }

  lemma NothingParsed(d: Dialect)
    ensures Shapes(d, false, [], 1) == [] && !EndsBare("")
  {
  }

  // ---------- inputs outside the agreement ----------

  /** A bare carriage return at the end is a record for the parser only. */
  lemma BareReturnDiffers(d: Dialect, limit: nat, data: string)
    requires d == Dialect(",", '"', true) && limit > 2 && data == "a\n\r"
    ensures FastCount(d, limit, Lines(WithoutBom(data))) != Some(CountOf(Parse(d, data)))
  {
    hide FieldCount, Lines, CString, LineLength, Parse, Shapes, FastCount;
    assert data[0] != BOM[0];
    assert "a" + "\n" + "\r" == data;
    LineOf("a", "\r", data);
    LineOf("\r", "", "\r");
    NoLines();
    NulFreeLine(d, "a");
    NulFreeLine(d, "\r");
    var lines := Lines(data);
    assert lines == ["a", "\r"] && lines[1..] == ["\r"];
    BlankShapes(d, "\r", [], 2);
    NoShapes(d, 3);
    AgreesOnHarmlessLines(d, limit, data);
  }

  lemma BlankShapes(d: Dialect, line: string, rest: seq<string>, number: int)
    requires Visible(line) == ""
    ensures Shapes(d, true, [line] + rest, number) == Shapes(d, true, rest, number + 1)
  {
    assert ([line] + rest)[1..] == rest;
  }

  lemma NoShapes(d: Dialect, number: int)
    ensures Shapes(d, true, [], number) == []
  {
  }

  /** A blank first line is a header for the fast path only. */
  lemma BlankFirstLineDiffers(d: Dialect, limit: nat, data: string)
    requires d == Dialect(",", '"', true) && limit > 2 && data == "\na"
    ensures FastCount(d, limit, Lines(WithoutBom(data))) != Some(CountOf(Parse(d, data)))
  {
    hide FieldCount, Lines, CString, LineLength, Parse, Shapes, FastCount;
    assert data[0] != BOM[0];
    assert "" + "\n" + "a" == data;
    LineOf("", "a", data);
    LineOf("a", "", "a");
    NoLines();
    NulFreeLine(d, "");
    NulFreeLine(d, "a");
    var lines := Lines(data);
    assert lines == ["", "a"] && lines[1..] == ["a"];
    OneShape(d);
    AgreesOnHarmlessLines(d, limit, data);
  }

  lemma OneShape(d: Dialect)
    requires Delimiter(d) == ","
    ensures Shapes(d, true, ["a"], 2) == [Shape(2, 1)]
  {
    CStringIsWhole("a");
    assert FieldCount(",", "a") == FieldCount(",", "a"[1..]) == 1;
    assert ["a"][1..] == [];
  }

  /** A NUL byte hides the rest of its line from the fast path: here it hides a record. */
  lemma NulHidesRecord(d: Dialect, limit: nat, data: string)
    requires d == Dialect(",", '"', true) && limit > 2 && data == "a\n\0"
    ensures FastCount(d, limit, Lines(WithoutBom(data))) == Some(Done(0))
    ensures CountOf(Parse(d, data)) == Done(1)
  {
    hide FieldCount, Lines, CString, LineLength, Split;
    assert data[0] != BOM[0];
    NulLines(data);
    NulRecords(d, data);
    var records := Split(d, LineStart(1), data);
    var rest := records.(rows := records.rows[1..]);
    DeliverCounts(records.rows[0].fields, [], rest);
    assert rest.rows == [records.rows[1]] && rest.rows[1..] == [];
    var lines := Lines(data);
    assert lines[1..] == ["\0"] && ["\0"][1..] == [];
    assert !GivesUp(d, limit, "a") && !GivesUp(d, limit, "\0");
    assert CountBody(d, limit, FieldCount(",", "a"), [], 3, 0) == Some(Done(0));
  }

  lemma NulLines(data: string)
    requires data == "a\n\0"
    ensures Lines(data) == ["a", "\0"] && CString("a") == "a" && CString("\0") == ""
  {
    var row := "\0";
    assert data[1..][0] == '\n';
    assert LineLength(data) == 1 + LineLength(data[1..]) == 1;
    assert LineLength(row) == 1 + LineLength("");
    assert data[..1] == "a" && data[2..] == row && row[..1] == row;
  }

  lemma NulRecords(d: Dialect, data: string)
    requires d == Dialect(",", '"', true) && data == "a\n\0"
    ensures Split(d, LineStart(1), data).unterminated.None? && |Split(d, LineStart(1), data).rows| == 2
    ensures var rows := Split(d, LineStart(1), data).rows; |rows[0].fields| == |rows[1].fields|
  {
    var s := LineStart(1).(field := "a", fieldStarted := true, rowStarted := true);
    var t := LineStart(2).(field := "\0", fieldStarted := true, rowStarted := true);
    var last, row := "\n\0", "\0";
    assert data[1..] == last && last[1..] == row && row[1..] == "";
    assert Scan(d, LineStart(2), row) == Round(None, t, 1);
    assert Split(d, LineStart(2), row) == Split(d, t, "");
    assert Scan(d, s, last) == Round(Some(Row(s.fields + [s.field], 1)), LineStart(2), 1);
    assert Split(d, s, last) == Before(Row(s.fields + [s.field], 1), Split(d, LineStart(2), row));
    assert Scan(d, LineStart(1), data) == Round(None, s, 1);
    assert Split(d, LineStart(1), data) == Split(d, s, last);
  }
}
