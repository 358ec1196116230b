/** Splitting a Cypher script at its top-level semicolons (meta.ts, splitStatements). */
module StatementSplitter {
  import opened Lists

  /** What the scanner is inside of. `BlockEnd` is the point between the two characters that close a block
      comment; the code consumes both at once. */
  datatype Mode = Code | Quoted(quote: char, escaped: bool) | LineComment | BlockComment | BlockEnd

  predicate IsQuote(c: char) {
    c == '\'' || c == '"' || c == '`'
  }

  predicate NextIs(text: string, c: char) {
    |text| > 1 && text[1] == c
  }

  /** The mode after the first character of `text`, which the scanner reads with one character of lookahead. */
  function Step(mode: Mode, text: string): Mode
    requires text != ""
  {
    var c := text[0];
    match mode
    case LineComment => if c == '\n' then Code else LineComment
    case BlockComment => if c == '*' && NextIs(text, '/') then BlockEnd else BlockComment
    case BlockEnd => Code
    case Quoted(q, escaped) =>
      if escaped then Quoted(q, false)
      else if c == '\\' && q != '`' then Quoted(q, true)
      else if c == q then Code
      else mode
    case Code =>
      if c == '/' && NextIs(text, '/') then LineComment
      else if c == '/' && NextIs(text, '*') then BlockComment
      else if IsQuote(c) then Quoted(c, false)
      else Code
  }

  /** The mode at the end of `text`. */
  function End(mode: Mode, text: string): Mode
    decreases |text|
  {
    if text == "" then mode else End(Step(mode, text), text[1..])
  }

  /** A semicolon at top level, read in `mode`, at the head of `text`. */
  predicate Breaks(mode: Mode, text: string) {
    mode == Code && text != "" && text[0] == ';'
  }

  /** `text`, read from `mode`, has no top-level semicolon. */
  predicate Unbroken(mode: Mode, text: string)
    decreases |text|
  {
    text != "" ==> !Breaks(mode, text) && Unbroken(Step(mode, text), text[1..])
  }

  /** The text cut at every top-level semicolon. */
  function Pieces(mode: Mode, text: string): (pieces: seq<string>)
    ensures pieces != []
    decreases |text|
  {
    if text == "" then [""]
    else if Breaks(mode, text) then [""] + Pieces(Code, text[1..])
    else Prepend([text[0]], Pieces(Step(mode, text), text[1..]))
  }

  function Prepend(front: string, pieces: seq<string>): (r: seq<string>)
    requires pieces != []
    ensures r != []
  {
    [front + pieces[0]] + pieces[1..]
  }

  // ---------- String.trim ----------

  /** WhiteSpace and LineTerminator of ECMAScript. */
  predicate IsSpace(c: char) {
    || '\t' <= c <= '\r' || c == ' ' || c == '\U{A0}' || c == '\U{1680}' || '\U{2000}' <= c <= '\U{200A}'
    || c == '\U{2028}' || c == '\U{2029}' || c == '\U{202F}' || c == '\U{205F}' || c == '\U{3000}' || c == '\U{FEFF}'
  }

  predicate Blank(text: string) {
    forall i | 0 <= i < |text| :: IsSpace(text[i])
  }

  function TrimStart(text: string): (r: string)
    ensures |r| <= |text| && r == text[|text| - |r|..] && Blank(text[..|text| - |r|])
    ensures r != "" ==> !IsSpace(r[0])
  {
    if text != "" && IsSpace(text[0]) then TrimStart(text[1..]) else text
  }

  function TrimEnd(text: string): (r: string)
    ensures r <= text && Blank(text[|r|..])
    ensures r != "" ==> !IsSpace(r[|r| - 1])
  {
    if text != "" && IsSpace(text[|text| - 1]) then TrimEnd(text[..|text| - 1]) else text
  }

  function Trim(text: string): string {
    TrimEnd(TrimStart(text))
  }

  predicate IsTrimmed(text: string) {
    text != "" && !IsSpace(text[0]) && !IsSpace(text[|text| - 1])
  }

  /** The pieces that are not blank, trimmed. */
  function Kept(pieces: seq<string>): seq<string> {
    if pieces == [] then []
    else (if Trim(pieces[0]) != "" then [Trim(pieces[0])] else []) + Kept(pieces[1..])
  }

  function Statements(input: string): seq<string> {
    Kept(Pieces(Code, input))
  }

  // ---------- the loop ----------

  /** The scanner's four variables as one mode. */
  function ModeOf(quote: Option<char>, escaped: bool, lineComment: bool, blockComment: bool): Mode {
    if lineComment then LineComment
    else if blockComment then BlockComment
    else if quote.Some? then Quoted(quote.value, escaped)
    else Code
  }

  lemma {:induction false} PrependTwice(a: string, b: string, pieces: seq<string>)
    requires pieces != []
    ensures Prepend(a, Prepend(b, pieces)) == Prepend(a + b, pieces)
  {
    assert a + (b + pieces[0]) == (a + b) + pieces[0];
  }

  /** What the loop still has to deliver once it has consumed one character that is no break. */
  lemma ConsumeOne(mode: Mode, current: string, text: string)
    requires text != "" && !Breaks(mode, text)
    ensures Prepend(current, Pieces(mode, text)) == Prepend(current + [text[0]], Pieces(Step(mode, text), text[1..]))
  {
    PrependTwice(current, [text[0]], Pieces(Step(mode, text), text[1..]));
  }

  lemma ConsumeBreak(mode: Mode, current: string, text: string)
    requires Breaks(mode, text)
    ensures Kept(Prepend(current, Pieces(mode, text)))
         == (if Trim(current) != "" then [Trim(current)] else []) + Kept(Prepend("", Pieces(Code, text[1..])))
  {
    var rest := Pieces(Code, text[1..]);
    assert Prepend("", rest) == rest by {
      assert "" + rest[0] == rest[0];
    }
    var all := Prepend(current, Pieces(mode, text));
    assert Pieces(mode, text)[1..] == rest;
    assert all[0] == current && all[1..] == rest;
  }

  method SplitStatements(input: string) returns (statements: seq<string>)
    ensures statements == Statements(input)
  {
    hide Pieces, Prepend, Kept, Trim;
    statements := [];
    var current := "";
    var quote: Option<char>, escaped, lineComment, blockComment := None, false, false, false;
    var index := 0;
    assert Prepend("", Pieces(Code, input)) == Pieces(Code, input) by {
      NothingToPrepend(Pieces(Code, input));
    }
    assert input[0..] == input;
    while index < |input|
      invariant 0 <= index <= |input|
      invariant quote.None? ==> !escaped
      invariant lineComment ==> !blockComment && quote.None?
      invariant blockComment ==> quote.None?
      invariant Statements(input)
             == statements + Kept(Prepend(current, Pieces(ModeOf(quote, escaped, lineComment, blockComment), input[index..])))
    {
      var c := input[index];
      var next := if index + 1 < |input| then Some(input[index + 1]) else None;
      ghost var mode, text := ModeOf(quote, escaped, lineComment, blockComment), input[index..];
      assert text[1..] == input[index + 1..];
      if !Breaks(mode, text) {
        ConsumeOne(mode, current, text);
      }
      if lineComment {
        current := current + [c];
        if c == '\n' { lineComment := false; }
      } else if blockComment {
        current := current + [c];
        if c == '*' && next == Some('/') {
          ConsumeOne(BlockEnd, current, text[1..]);
          assert text[1..][1..] == input[index + 2..];
          current := current + [next.value];
          index := index + 1;
          blockComment := false;
        }
      } else if quote.Some? {
        current := current + [c];
        if escaped {
          escaped := false;
        } else if c == '\\' && quote != Some('`') {
          escaped := true;
        } else if quote == Some(c) {
          quote := None;
        }
      } else if c == '/' && next == Some('/') {
        lineComment := true;
        current := current + [c];
      } else if c == '/' && next == Some('*') {
        blockComment := true;
        current := current + [c];
      } else if IsQuote(c) {
        quote := Some(c);
        current := current + [c];
      } else if c == ';' {
        ConsumeBreak(mode, current, text);
        var statement := Trim(current);
        if statement != "" { statements := statements + [statement]; }
        current := "";
      } else {
        current := current + [c];
      }
      index := index + 1;
    }
    assert input[index..] == "";
    LastPiece(current, ModeOf(quote, escaped, lineComment, blockComment));
    var tail := Trim(current);
    if tail != "" { statements := statements + [tail]; }
  }

  lemma NothingToPrepend(pieces: seq<string>)
    requires pieces != []
    ensures Prepend("", pieces) == pieces
  {
    assert "" + pieces[0] == pieces[0];
  }

  lemma LastPiece(current: string, mode: Mode)
    ensures Kept(Prepend(current, Pieces(mode, ""))) == if Trim(current) != "" then [Trim(current)] else []
  {
    assert current + "" == current;
  }

  // ---------- pieces and texts correspond ----------

  /** The pieces a text can be cut into: none has a break, and all but the last end at top level. */
  ghost predicate ArePieces(mode: Mode, pieces: seq<string>)
    decreases |pieces|
  {
    && pieces != []
    && Unbroken(mode, pieces[0])
    && (|pieces| > 1 ==> End(mode, pieces[0]) == Code && ArePieces(Code, pieces[1..]))
  }

  /** Nothing is lost: the untrimmed pieces, joined by semicolons, are the input; and no piece has a break. */
  lemma {:induction false} PiecesRejoin(mode: Mode, text: string)
    ensures Join(Pieces(mode, text), ";") == text
    ensures ArePieces(mode, Pieces(mode, text))
    decreases |text|
  {
    if text != "" {
      var pieces := Pieces(mode, text);
      if Breaks(mode, text) {
        PiecesRejoin(Code, text[1..]);
        assert pieces[1..] == Pieces(Code, text[1..]);
        assert text == ";" + text[1..];
      } else {
        var rest := Pieces(Step(mode, text), text[1..]);
        PiecesRejoin(Step(mode, text), text[1..]);
        assert pieces[1..] == rest[1..];
        assert Join(pieces, ";") == [text[0]] + Join(rest, ";");
        assert text == [text[0]] + text[1..];
        FirstPieceLooksAhead(mode, text);
      }
    }
  }

  /** The first piece starts as the text does, so the scanner sees the same characters. */
  lemma FirstPieceLooksAhead(mode: Mode, text: string)
    requires text != "" && !Breaks(mode, text)
    ensures var first := Pieces(mode, text)[0];
            first != "" && first[0] == text[0] && first[1..] == Pieces(Step(mode, text), text[1..])[0]
            && Step(mode, first) == Step(mode, text)
  {
    var first, rest := Pieces(mode, text)[0], Pieces(Step(mode, text), text[1..]);
    assert first == [text[0]] + rest[0];
    if |text| > 1 {
      if Breaks(Step(mode, text), text[1..]) {
        assert rest[0] == "";
      } else {
        assert rest[0][0] == text[1];
      }
    }
  }

  /** Reading `head` before a text that starts with neither `/` nor `*` is the same as reading it alone. */
  predicate Inert(text: string) {
    text != "" ==> text[0] != '/' && text[0] != '*'
  }

  lemma {:induction false} ReadThrough(mode: Mode, head: string, tail: string)
    requires Inert(tail)
    ensures End(mode, head + tail) == End(End(mode, head), tail)
    ensures Unbroken(mode, head + tail) <==> Unbroken(mode, head) && Unbroken(End(mode, head), tail)
    decreases |head|
  {
    if head == "" {
      assert head + tail == tail;
    } else {
      ReadThrough(Step(mode, head), head[1..], tail);
      assert (head + tail)[1..] == head[1..] + tail;
      assert Step(mode, head + tail) == Step(mode, head);
    }
  }

  lemma {:induction false} UnbrokenIsOnePiece(mode: Mode, text: string)
    requires Unbroken(mode, text)
    ensures Pieces(mode, text) == [text]
    decreases |text|
  {
    if text != "" {
      UnbrokenIsOnePiece(Step(mode, text), text[1..]);
      assert [text[0]] + text[1..] == text;
    }
  }

  lemma {:induction false} CutAtBreak(mode: Mode, head: string, tail: string)
    requires Unbroken(mode, head) && End(mode, head) == Code
    ensures Pieces(mode, head + ";" + tail) == [head] + Pieces(Code, tail)
    decreases |head|
  {
    var text := head + ";" + tail;
    if head == "" {
      assert text[1..] == tail;
    } else {
      assert text[1..] == head[1..] + ";" + tail;
      assert Step(mode, text) == Step(mode, head);
      CutAtBreak(Step(mode, head), head[1..], tail);
      assert [text[0]] + head[1..] == head;
    }
  }

  /** Every list of pieces is the cutting of the text it joins to: texts and such lists correspond one to one. */
  lemma {:induction false} JoinedPiecesSplit(mode: Mode, pieces: seq<string>)
    requires ArePieces(mode, pieces)
    ensures Pieces(mode, Join(pieces, ";")) == pieces
    decreases |pieces|
  {
    if |pieces| == 1 {
      UnbrokenIsOnePiece(mode, pieces[0]);
    } else {
      JoinedPiecesSplit(Code, pieces[1..]);
      CutAtBreak(mode, pieces[0], Join(pieces[1..], ";"));
    }
  }

  // ---------- statements ----------

  /** After a statement the scanner is at top level or in a line comment, which a newline ends. */
  predicate EndsStatement(text: string) {
    End(Code, text) == Code || End(Code, text) == LineComment
  }

  /** The lists splitStatements can return. */
  ghost predicate AreStatements(statements: seq<string>) {
    && (forall i | 0 <= i < |statements| :: IsTrimmed(statements[i]) && Unbroken(Code, statements[i]))
    && (forall i | 0 <= i < |statements| - 1 :: EndsStatement(statements[i]))
  }

  lemma {:induction false} SkipBlank(lead: string, text: string)
    requires Blank(lead)
    ensures End(Code, lead + text) == End(Code, text)
    ensures Unbroken(Code, lead + text) == Unbroken(Code, text)
    decreases |lead|
  {
    if lead == "" {
      assert lead + text == text;
    } else {
      assert IsSpace(lead[0]);
      assert (lead + text)[1..] == lead[1..] + text;
      SkipBlank(lead[1..], text);
    }
  }

  /** The modes the scanner can be in between two rounds of the loop. */
  predicate Reachable(mode: Mode) {
    mode != BlockEnd && (mode.Quoted? ==> IsQuote(mode.quote))
  }

  lemma {:induction false} EndIsReachable(mode: Mode, text: string)
    requires Reachable(mode) || (mode == BlockEnd && text != "")
    ensures Reachable(End(mode, text))
    decreases |text|
  {
    if text != "" {
      EndIsReachable(Step(mode, text), text[1..]);
    }
  }

  /** White space closes nothing but a line comment. */
  lemma {:induction false} BlankCloses(mode: Mode, text: string)
    requires Blank(text) && Reachable(mode) && End(mode, text) == Code
    ensures mode == Code || mode == LineComment
    decreases |text|
  {
    if text != "" && !mode.LineComment? {
      assert IsSpace(text[0]);
      BlankCloses(Step(mode, text), text[1..]);
    }
  }

  /** Trimming takes white space off both ends and nothing else. */
  lemma TrimShape(text: string) returns (lead: string, trail: string)
    ensures text == lead + Trim(text) + trail && Blank(lead) && Blank(trail)
    ensures Trim(text) != "" ==> IsTrimmed(Trim(text))
  {
    hide TrimStart, TrimEnd, IsSpace, Blank;
    var rest := TrimStart(text);
    lead := text[..|text| - |rest|];
    trail := rest[|TrimEnd(rest)|..];
    assert text == lead + rest;
    assert rest == TrimEnd(rest) + trail;
  }

  lemma TrimmedPiece(piece: string)
    requires Unbroken(Code, piece)
    ensures Unbroken(Code, Trim(piece))
    ensures Trim(piece) != "" ==> IsTrimmed(Trim(piece))
    ensures End(Code, piece) == Code ==> EndsStatement(Trim(piece))
  {
    hide Trim, Unbroken, End, Blank;
    var lead, trail := TrimShape(piece);
    var statement := Trim(piece);
    assert piece == lead + (statement + trail);
    SkipBlank(lead, statement + trail);
    BlankIsInert(trail);
    ReadThrough(Code, statement, trail);
    EndIsReachable(Code, statement);
    if End(Code, piece) == Code {
      BlankCloses(End(Code, statement), trail);
    }
  }

  lemma BlankIsInert(text: string)
    requires Blank(text)
    ensures Inert(text)
  {
    assert text != "" ==> IsSpace(text[0]);
  }

  lemma KeptOne(piece: string)
    ensures Kept([piece]) == if Trim(piece) != "" then [Trim(piece)] else []
  {
  }

  lemma {:induction false} KeptAreStatements(pieces: seq<string>)
    requires ArePieces(Code, pieces)
    ensures AreStatements(Kept(pieces))
    decreases |pieces|
  {
    hide Trim, Unbroken, End;
    var head := Trim(pieces[0]);
    TrimmedPiece(pieces[0]);
    var rest := Kept(pieces[1..]);
    if |pieces| == 1 {
      assert rest == [];
    } else {
      KeptAreStatements(pieces[1..]);
      assert forall i | 0 < i < |rest| + 1 :: ([head] + rest)[i] == rest[i - 1];
    }
  }

  lemma TrimTrimmed(text: string)
    requires IsTrimmed(text)
    ensures Trim(text) == text && Trim(text + "\n") == text
  {
    assert TrimStart(text + "\n") == text + "\n";
    assert (text + "\n")[..|text|] == text;
    assert TrimEnd(text + "\n") == TrimEnd(text);
  }

  lemma TrimEmpty()
    ensures Trim("") == ""
  {
  }

  lemma {:induction false} JoinedStatementsSplit(statements: seq<string>)
    requires AreStatements(statements)
    ensures Statements(Join(statements, "\n;")) == statements
    decreases |statements|
  {
    hide Unbroken, End, Trim, Inert;
    if statements == [] {
      TrimEmpty();
      KeptOne("");
    } else {
      var head := statements[0];
      TrimTrimmed(head);
      if |statements| == 1 {
        UnbrokenIsOnePiece(Code, head);
        KeptOne(head);
      } else {
        var rest := Join(statements[1..], "\n;");
        JoinedStatementsSplit(statements[1..]);
        NewlineEndsStatement(head);
        CutAtBreak(Code, head + "\n", rest);
        assert Join(statements, "\n;") == head + "\n" + ";" + rest;
        assert ([head + "\n"] + Pieces(Code, rest))[1..] == Pieces(Code, rest);
      }
    }
  }

  lemma NewlineEndsStatement(text: string)
    requires Unbroken(Code, text) && EndsStatement(text)
    ensures Unbroken(Code, text + "\n") && End(Code, text + "\n") == Code
  {
    ReadThrough(Code, text, "\n");
  }

  /** Joining the statements with newline-semicolon and splitting again gives the same statements, whatever the
      input was. */
  lemma SplitJoinIdentity(input: string)
    ensures Statements(Join(Statements(input), "\n;")) == Statements(input)
  {
    PiecesRejoin(Code, input);
    KeptAreStatements(Pieces(Code, input));
    JoinedStatementsSplit(Statements(input));
  }

  /** Exactly which lists are results of splitting. */
  lemma ResultsOfSplitting(statements: seq<string>)
    ensures AreStatements(statements) <==> exists input :: Statements(input) == statements
  {
    if AreStatements(statements) {
      JoinedStatementsSplit(statements);
    }
    if input :| Statements(input) == statements {
      PiecesRejoin(Code, input);
      KeptAreStatements(Pieces(Code, input));
    }
  }

  /** A statement has no semicolon of its own: split alone, it stays whole. */
  lemma StatementStaysWhole(input: string, i: nat)
    requires i < |Statements(input)|
    ensures Statements(Statements(input)[i]) == [Statements(input)[i]]
  {
    hide Trim, Unbroken, End;
    PiecesRejoin(Code, input);
    KeptAreStatements(Pieces(Code, input));
    var statement := Statements(input)[i];
    UnbrokenIsOnePiece(Code, statement);
    TrimTrimmed(statement);
    KeptOne(statement);
  }

  // ---------- why the separator needs its newline ----------

  lemma {:induction false} CommentSwallows(mode: Mode, head: string, tail: string)
    requires Unbroken(mode, head) && End(mode, head) == LineComment
    ensures head + ";" <= Pieces(mode, head + ";" + tail)[0]
    decreases |head|
  {
    var text := head + ";" + tail;
    if head == "" {
      assert text[0] == ';';
    } else {
      assert text[1..] == head[1..] + ";" + tail;
      assert Step(mode, text) == Step(mode, head);
      CommentSwallows(Step(mode, head), head[1..], tail);
      assert head + ";" == [text[0]] + (head[1..] + ";");
    }
  }

  lemma TrimKeepsSemicolon(head: string, piece: string)
    requires IsTrimmed(head) && head + ";" <= piece
    ensures Trim(piece) != "" && Trim(piece) != head
  {
    hide TrimStart, TrimEnd, IsSpace;
    assert piece[0] == head[0] && piece[|head|] == ';';
    NothingAtStart(piece);
    SemicolonIsNoSpace();
    var kept := TrimEnd(piece);
    assert |kept| > |head|;
  }

  lemma NothingAtStart(text: string)
    requires text != "" && !IsSpace(text[0])
    ensures TrimStart(text) == text
  {
  }

  lemma SemicolonIsNoSpace()
    ensures !IsSpace(';')
  {
  }

  lemma FirstStatement(piece: string, pieces: seq<string>)
    requires pieces != [] && pieces[0] == piece && Trim(piece) != ""
    ensures Kept(pieces) == [Trim(piece)] + Kept(pieces[1..])
  {
  }

  /** Joined with a bare semicolon the statements come back exactly when no statement but the last ends in a line
      comment: the comment would swallow the separator. */
  lemma {:induction false} BareSemicolonJoin(statements: seq<string>)
    requires AreStatements(statements)
    ensures Statements(Join(statements, ";")) == statements
       <==> forall i | 0 <= i < |statements| - 1 :: End(Code, statements[i]) == Code
    decreases |statements|
  {
    hide Unbroken, End, Trim, Kept;
    if |statements| <= 1 {
      JoinedStatementsSplit(statements);
    } else {
      var head, others := statements[0], statements[1..];
      var rest := Join(others, ";");
      var text := head + ";" + rest;
      assert forall i | 0 <= i < |others| :: others[i] == statements[i + 1];
      TrimTrimmed(head);
      if End(Code, head) == Code {
        CutAtBreak(Code, head, rest);
        assert Pieces(Code, text)[1..] == Pieces(Code, rest);
        FirstStatement(head, Pieces(Code, text));
        BareSemicolonJoin(others);
        assert statements == [head] + others;
        assert Statements(text) == [head] + Statements(rest);
        if Statements(text) == statements {
          assert Statements(text)[1..] == Statements(rest);
        }
        assert (forall i | 0 <= i < |others| - 1 :: End(Code, others[i]) == Code)
          ==> forall i | 1 <= i < |statements| - 1 :: End(Code, statements[i]) == Code by {
          assert forall i | 1 <= i < |statements| - 1 :: others[i - 1] == statements[i];
        }
      } else {
        CommentSwallows(Code, head, rest);
        TrimKeepsSemicolon(head, Pieces(Code, text)[0]);
        FirstStatement(Pieces(Code, text)[0], Pieces(Code, text));
        assert Statements(text)[0] != statements[0];
      }
    }
  }

  /** A comment and a statement, joined with a bare semicolon, come back as one comment. */
  lemma CommentTakesSemicolon(statements: seq<string>)
    requires statements == ["//", "x"]
    ensures AreStatements(statements) && End(Code, statements[0]) == LineComment
    ensures Statements(Join(statements, ";")) == ["//;x"]
  {
    hide Trim, IsSpace;
    LineCommentRuns("//;x");
    LineCommentRuns("//");
    var joined := "//;x";
    assert Join(statements, ";") == joined by {
      assert statements[1..] == ["x"];
      assert "//" + ";" + "x" == joined;
    }
    PlainText();
    UnbrokenIsOnePiece(Code, joined);
    TrimTrimmed(joined);
    KeptOne(joined);
  }

  lemma PlainText()
    ensures IsTrimmed("//") && IsTrimmed("x") && IsTrimmed("//;x")
    ensures Unbroken(Code, "x")
  {
    assert Unbroken(Step(Code, "x"), "x"[1..]);
  }

  lemma LineCommentRuns(text: string)
    requires text in {"//", "//;x"}
    ensures Unbroken(Code, text) && End(Code, text) == LineComment
  {
    assert text[0] == text[1] == '/';
    assert Step(Code, text) == LineComment;
    InLineComment(text[1..]);
  }

  lemma {:induction false} InLineComment(text: string)
    requires '\n' !in text
    ensures Unbroken(LineComment, text) && End(LineComment, text) == LineComment
    decreases |text|
  {
    if text != "" {
      InLineComment(text[1..]);
    }
  }
}
