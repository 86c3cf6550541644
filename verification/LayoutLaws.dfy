/**
  What a styled document looks like, told without the layout function: an automaton that reads the
  document byte by byte and knows only which brackets are open and what it has just passed.
*/
module LayoutLaws {
  import opened Bytes
  import opened Values
  import opened Strings
  import opened Numbers
  import opened Lexer
  import opened Texts
  import opened Output
  import opened Layouts

  /** An open bracket: an object, an array with an element to a line, an array on one line. */
  datatype Bracket = Braces | Rows | Line

  /** What was passed last. */
  datatype Where =
    | Begin                // nothing yet
    | Behind(c: byte)      // an opening bracket, a comma or a colon
    | Spaced(c: byte)      // one of these, or a value, and a blank
    | BehindValue
    | SpacedValue
    | Row(n: nat)          // a line feed behind an opening bracket or a comma, and n blanks
    | LastRow(n: nat)      // a line feed behind a value, and n blanks
    | InString
    | InEscape             // behind a backslash in a string

  datatype Scan = Scan(open: seq<Bracket>, at: Where)

  const START: Scan := Scan([], Begin)

  /** The indentation: three blanks for each open bracket. */
  function Indentation(s: Scan): nat { 3 * |s.open| }

  function Inner(s: Scan): Bracket
    requires s.open != []
  {
    s.open[|s.open| - 1]
  }

  predicate Inside(s: Scan, b: Bracket) { s.open != [] && Inner(s) == b }

  /** Inside an array on one line only empty brackets may stand. */
  predicate InsideLine(s: Scan) { Inside(s, Line) || (|s.open| > 1 && s.open[|s.open| - 2] == Line) }

  /** A value, which may be missing because it is a null string, stands here. */
  predicate ValuePlace(s: Scan) {
    match s.at
    case Begin => s.open == []
    case Row(n) => Inside(s, Rows) && n == Indentation(s)
    case Spaced(c) => (Inside(s, Braces) && c == COLON) || Inside(s, Line)
    case _ => false
  }

  /** A name stands here: on a line of its own. */
  predicate NamePlace(s: Scan) { Inside(s, Braces) && s.at == Row(Indentation(s)) }

  /** A value, or nothing for a null string, has just ended. */
  predicate AfterValue(s: Scan) { s.at.BehindValue? || ValuePlace(s) }

  /** May this byte come next? */
  predicate Permits(s: Scan, c: byte) {
    if s.at.InString? || s.at.InEscape? then c != LF
    else if c == QUOTE then ValuePlace(s) || NamePlace(s)
    else if c == LBRACE || c == LBRACKET then ValuePlace(s)
    else if c == COMMA then s.open != [] && AfterValue(s)
    else if c == COLON then Inside(s, Braces) && s.at == SpacedValue
    else if c == RBRACE then
      Inside(s, Braces) && (s.at == Behind(LBRACE) || s.at == Spaced(COLON) || s.at == LastRow(Indentation(s) - 3))
    else if c == RBRACKET then
      (Inside(s, Rows) && (s.at == Behind(LBRACKET) || s.at == Row(Indentation(s)) || s.at == LastRow(Indentation(s) - 3))) ||
      (Inside(s, Line) && s.at == SpacedValue)
    else if c == LF then
      // behind every opening bracket and comma, and before a closing bracket, unless on one line
      if s.at.Behind? then s.at.c != COLON && !InsideLine(s)
      else (s.at.BehindValue? || (s.open == [] && s.at.Begin?)) && !InsideLine(s)
    else if c == SPACE then
      match s.at
      case Behind(b) => b == COLON || (b == LBRACKET && !InsideLine(s)) || (b == COMMA && Inside(s, Line))
      case BehindValue => Inside(s, Line) || Inside(s, Braces)
      case Spaced(_) => Inside(s, Line)
      case Row(n) => n < Indentation(s)
      case LastRow(n) => n + 3 < Indentation(s)
      case _ => false
    else s.at.BehindValue? || ValuePlace(s)
  }

  function Next(s: Scan, c: byte): Scan {
    if s.at.InEscape? then s.(at := InString)
    else if s.at.InString? then (if c == BACKSLASH then s.(at := InEscape) else if c == QUOTE then s.(at := BehindValue) else s)
    else if c == QUOTE then s.(at := InString)
    else if c == LBRACE then Scan(s.open + [Braces], Behind(c))
    else if c == LBRACKET then Scan(s.open + [Rows], Behind(c))
    else if c == COMMA || c == COLON then s.(at := Behind(c))
    else if c == RBRACE || c == RBRACKET then (if s.open == [] then s else Scan(s.open[..|s.open| - 1], BehindValue))
    else if c == LF then s.(at := if s.at.Behind? then Row(0) else LastRow(0))
    else if c == SPACE then
      match s.at
      case Behind(b) =>
        // a blank behind an opening bracket tells that the array is on one line
        if b == LBRACKET && s.open != [] then Scan(s.open[..|s.open| - 1] + [Line], Spaced(b)) else s.(at := Spaced(b))
      case Row(n) => s.(at := Row(n + 1))
      case LastRow(n) => s.(at := LastRow(n + 1))
      case _ => s.(at := SpacedValue)
    else s.(at := BehindValue)
  }

  /** The automaton reads the text to its end. */
  predicate Reads(s: Scan, text: bytes)
    decreases |text|
  {
    text == [] || (Permits(s, text[0]) && Reads(Next(s, text[0]), text[1..]))
  }

  function After(s: Scan, text: bytes): Scan
    decreases |text|
  {
    if text == [] then s else After(Next(s, text[0]), text[1..])
  }

  /** A styled document: a laid-out value and a line feed. */
  predicate WellLaid(text: bytes) { Reads(START, text) && After(START, text) == Scan([], LastRow(0)) }

  lemma {:induction false} ReadsConcat(s: Scan, a: bytes, b: bytes)
    ensures Reads(s, a + b) <==> Reads(s, a) && Reads(After(s, a), b)
    ensures After(s, a + b) == After(After(s, a), b)
    decreases |a|
  {
    if a == [] {
      assert a + b == b;
    } else {
      assert (a + b)[1..] == a[1..] + b;
      ReadsConcat(Next(s, a[0]), a[1..], b);
    }
  }

  /** The automaton goes from s over the text to t. */
  predicate Goes(s: Scan, text: bytes, t: Scan) { Reads(s, text) && After(s, text) == t }

  lemma GoesOn(s: Scan, a: bytes, t: Scan, b: bytes, u: Scan)
    requires Goes(s, a, t) && Goes(t, b, u)
    ensures Goes(s, a + b, u)
  {
    ReadsConcat(s, a, b);
  }

  lemma GoesByte(s: Scan, c: byte)
    requires Permits(s, c)
    ensures Goes(s, [c], Next(s, c))
  {
    assert Reads(Next(s, c), []);
  }

  // ----- Values on one line -----

  /** A byte of a number or a word. */
  predicate IsPlain(c: byte) {
    c != QUOTE && c != LBRACE && c != RBRACE && c != LBRACKET && c != RBRACKET && c != COMMA && c != COLON &&
    c != LF && c != SPACE
  }

  lemma {:induction false} PlainGoes(s: Scan, text: bytes)
    requires text != [] && (forall c :: c in text ==> IsPlain(c))
    requires s.at.BehindValue? || ValuePlace(s)
    ensures Goes(s, text, s.(at := BehindValue))
    decreases |text|
  {
    assert text[0] in text;
    var t := s.(at := BehindValue);
    assert Permits(s, text[0]) && Next(s, text[0]) == t;
    if |text| > 1 {
      assert forall c :: c in text[1..] ==> c in text;
      PlainGoes(t, text[1..]);
    } else {
      assert text[1..] == [];
    }
  }

  lemma {:induction false} DigitsArePlain(doc: bytes, pos: nat)
    requires pos <= |doc|
    ensures forall i :: pos <= i < DigitsEnd(doc, pos) ==> IsPlain(doc[i])
    decreases |doc| - pos
  {
    if pos < |doc| && IsDigit(doc[pos]) { DigitsArePlain(doc, pos + 1); }
  }

  lemma NumberIsPlain(text: bytes)
    requires IsNumberToken(text)
    ensures forall c :: c in text ==> IsPlain(c)
  {
    var whole := DigitsEnd(text, 1);
    var fraction := FractionEnd(text, whole);
    DigitsArePlain(text, 1);
    if At(text, whole) == DOT { DigitsArePlain(text, whole + 1); }
    if At(text, fraction) == LOWER_E || At(text, fraction) == UPPER_E {
      DigitsArePlain(text, fraction + 1);
      if fraction + 2 <= |text| { DigitsArePlain(text, fraction + 2); }
    }
    assert forall i :: 0 <= i < |text| ==> IsPlain(text[i]);
  }

  lemma IntIsPlain(i: int)
    ensures IntText(i) != [] && forall c :: c in IntText(i) ==> IsPlain(c)
  {
    var n := if i < 0 then -i else i;
    DecimalReads(n);
    assert forall k :: 0 <= k < |Decimal(n)| ==> IsPlain(Decimal(n)[k]);
  }

  /** A piece of a string that the writer prints. */
  lemma PieceGoes(s: Scan, c: byte)
    requires s.at == InString
    ensures Goes(s, PieceText(PieceOf(c)), s)
  {
    var text := PieceText(PieceOf(c));
    if |text| == 1 {
      GoesByte(s, c);
    } else {
      var t := s.(at := InEscape);
      GoesByte(s, BACKSLASH);
      GoesByte(t, text[1]);
      GoesOn(s, [BACKSLASH], t, [text[1]], s);
      assert [BACKSLASH] + [text[1]] == text[..2];
      if |text| > 2 {
        HexGoes(s, text[2..]);
        GoesOn(s, text[..2], s, text[2..], s);
        assert text[..2] + text[2..] == text;
      } else {
        assert text[..2] == text;
      }
    }
  }

  lemma {:induction false} HexGoes(s: Scan, d: bytes)
    requires s.at == InString && forall i :: 0 <= i < |d| ==> d[i] != LF && d[i] != BACKSLASH && d[i] != QUOTE
    ensures Goes(s, d, s)
  {
    if d != [] { HexGoes(s, d[1..]); }
  }

  lemma {:induction false} EscapedGoes(s: Scan, text: bytes)
    requires s.at == InString
    ensures Goes(s, Spell(PiecesOf(text)), s)
  {
    if text != [] {
      PieceGoes(s, text[0]);
      EscapedGoes(s, text[1..]);
      assert PiecesOf(text)[1..] == PiecesOf(text[1..]);
      GoesOn(s, PieceText(PieceOf(text[0])), s, Spell(PiecesOf(text[1..])), s);
    }
  }

  /** A string, as a value or as a name. */
  lemma QuotedGoes(s: Scan, text: bytes)
    requires ValuePlace(s) || NamePlace(s)
    ensures Goes(s, Quoted(text), s.(at := BehindValue))
  {
    var t, u := s.(at := InString), s.(at := BehindValue);
    var body := Spell(PiecesOf(text));
    GoesByte(s, QUOTE);
    EscapedGoes(t, text);
    GoesByte(t, QUOTE);
    GoesOn(s, [QUOTE], t, body, t);
    GoesOn(s, [QUOTE] + body, t, [QUOTE], u);
  }

  /** Where the automaton is behind a value: a null string leaves it where it was. */
  function ValueEnd(s: Scan, j: Json): Scan { if j.NullStr? then s else s.(at := BehindValue) }

  lemma EmptyGoes(s: Scan, open: byte, close: byte)
    requires ValuePlace(s) && ((open == LBRACE && close == RBRACE) || (open == LBRACKET && close == RBRACKET))
    ensures Goes(s, [open, close], s.(at := BehindValue))
  {
    var t := Next(s, open);
    GoesByte(s, open);
    assert t.open[..|t.open| - 1] == s.open;
    GoesByte(t, close);
    GoesOn(s, [open], t, [close], s.(at := BehindValue));
    assert [open] + [close] == [open, close];
  }

  lemma ValueTextGoes(s: Scan, j: Json, realText: RealText)
    requires !IsNested(j) && ValuePlace(s)
    ensures Goes(s, ValueText(j, realText), ValueEnd(s, j))
  {
    hide Permits, Next, ValuePlace, Goes;
    match j
    case Null => PlainGoes(s, NULL_TEXT);
    case Int(i) =>
      IntIsPlain(i);
      PlainGoes(s, IntText(i));
    case UInt(u) =>
      IntIsPlain(u);
      PlainGoes(s, IntText(u));
    case Real(r) =>
      NumberIsPlain(realText(r));
      PlainGoes(s, realText(r));
    case NullStr => NothingGoes(s);
    case Str(text) => QuotedGoes(s, text);
    case Bool(b) => PlainGoes(s, if b then TRUE_TEXT else FALSE_TEXT);
    case Array(_) => EmptyGoes(s, LBRACKET, RBRACKET);
    case Object(_) => EmptyGoes(s, LBRACE, RBRACE);
  }

  lemma NothingGoes(s: Scan)
    ensures Goes(s, [], s)
  {}

  // ----- Arrays on one line -----

  /** Behind n elements of the line. */
  function LineAt(open: seq<Bracket>, ms: Members, n: nat): Scan {
    Scan(open + [Line],
         if n == 0 then Spaced(LBRACKET)
         else if !Fetch(ms, Index(n - 1)).json.NullStr? then BehindValue
         else if n == 1 then Spaced(LBRACKET)
         else Spaced(COMMA))
  }

  lemma {:induction false} JoinedGoes(open: seq<Bracket>, ms: Members, n: nat, realText: RealText)
    requires IsFlat(ms) && n <= ArraySize(ms)
    ensures Goes(LineAt(open, ms, 0), Joined(ms, n, realText), LineAt(open, ms, n))
  {
    if n > 0 {
      var j := Fetch(ms, Index(n - 1)).json;
      var s, t := LineAt(open, ms, n - 1), Scan(open + [Line], if n == 1 then Spaced(LBRACKET) else Spaced(COMMA));
      JoinedGoes(open, ms, n - 1, realText);
      SeparatorGoes(s, n - 1, t);
      GoesOn(LineAt(open, ms, 0), Joined(ms, n - 1, realText), s, Separator(n - 1), t);
      ValueTextGoes(t, j, realText);
      GoesOn(LineAt(open, ms, 0), Joined(ms, n - 1, realText) + Separator(n - 1), t, ValueText(j, realText), ValueEnd(t, j));
    } else {
      NothingGoes(LineAt(open, ms, 0));
    }
  }

  lemma SeparatorGoes(s: Scan, n: nat, t: Scan)
    requires Inside(s, Line) && AfterValue(s)
    requires t == if n == 0 then s else s.(at := Spaced(COMMA))
    ensures Goes(s, Separator(n), t)
  {
    if n > 0 {
      var u := s.(at := Behind(COMMA));
      GoesByte(s, COMMA);
      GoesByte(u, SPACE);
      GoesOn(s, [COMMA], u, [SPACE], t);
      assert [COMMA] + [SPACE] == [COMMA, SPACE];
    } else {
      NothingGoes(s);
    }
  }

  lemma OneLineGoes(s: Scan, ms: Members, realText: RealText)
    requires IsFlat(ms) && ValuePlace(s) && !InsideLine(s)
    ensures Goes(s, OneLine(ms, realText), s.(at := BehindValue))
  {
    var n := ArraySize(ms);
    var (t, u) := (LineAt(s.open, ms, 0), LineAt(s.open, ms, n));
    LineOpens(s, t);
    JoinedGoes(s.open, ms, n, realText);
    LineCloses(u, s.(at := BehindValue));
    GoesOn(s, [LBRACKET, SPACE], t, Joined(ms, n, realText), u);
    GoesOn(s, [LBRACKET, SPACE] + Joined(ms, n, realText), u, [SPACE, RBRACKET], s.(at := BehindValue));
  }

  lemma LineOpens(s: Scan, t: Scan)
    requires ValuePlace(s) && !InsideLine(s) && t == Scan(s.open + [Line], Spaced(LBRACKET))
    ensures Goes(s, [LBRACKET, SPACE], t)
  {
    var u := Next(s, LBRACKET);
    GoesByte(s, LBRACKET);
    assert u.open[..|u.open| - 1] == s.open;
    assert !InsideLine(u);
    GoesByte(u, SPACE);
    GoesOn(s, [LBRACKET], u, [SPACE], t);
    assert [LBRACKET] + [SPACE] == [LBRACKET, SPACE];
  }

  lemma LineCloses(s: Scan, t: Scan)
    requires Inside(s, Line) && (s.at.BehindValue? || s.at.Spaced?)
    requires t == Scan(s.open[..|s.open| - 1], BehindValue)
    ensures Goes(s, [SPACE, RBRACKET], t)
  {
    var u := s.(at := SpacedValue);
    GoesByte(s, SPACE);
    GoesByte(u, RBRACKET);
    GoesOn(s, [SPACE], u, [RBRACKET], t);
    assert [SPACE] + [RBRACKET] == [SPACE, RBRACKET];
  }

  // ----- Rows -----

  predicate Blank(ind: bytes) { forall i :: 0 <= i < |ind| ==> ind[i] == SPACE }

  lemma {:induction false} BlanksGo(s: Scan, ind: bytes)
    requires Blank(ind)
    requires (s.at.Row? && s.at.n + |ind| <= Indentation(s)) || (s.at.LastRow? && s.at.n + |ind| + 3 <= Indentation(s))
    ensures Goes(s, ind, s.(at := if s.at.Row? then Row(s.at.n + |ind|) else LastRow(s.at.n + |ind|)))
    decreases |ind|
  {
    if ind != [] { BlanksGo(Next(s, SPACE), ind[1..]); }
  }

  /** A new line: behind an opening bracket or a comma, or before a closing bracket. */
  lemma NewLineGoes(s: Scan, ind: bytes)
    requires Blank(ind) && !InsideLine(s) && s.open != []
    requires (s.at.Behind? && s.at.c != COLON && |ind| == Indentation(s)) ||
             (s.at.BehindValue? && |ind| + 3 == Indentation(s))
    ensures Goes(s, [LF] + ind, s.(at := if s.at.Behind? then Row(|ind|) else LastRow(|ind|)))
  {
    var t := Next(s, LF);
    GoesByte(s, LF);
    BlanksGo(t, ind);
    GoesOn(s, [LF], t, ind, s.(at := if s.at.Behind? then Row(|ind|) else LastRow(|ind|)));
  }

  /** The last byte that was read. */
  lemma LastByteTells(s: Scan, text: bytes, t: Scan)
    requires Goes(s, text, t) && text != []
    ensures t.at.BehindValue? ==> text[|text| - 1] != SPACE && text[|text| - 1] != LF
    ensures t.at.Spaced? || (t.at.Row? && t.at.n > 0) ==> text[|text| - 1] == SPACE
  {
    var n := |text| - 1;
    ReadsConcat(s, text[..n], [text[n]]);
    assert text[..n] + [text[n]] == text;
    assert After(After(s, text[..n]), [text[n]]) == Next(After(s, text[..n]), text[n]) by {
      assert After(Next(After(s, text[..n]), text[n]), []) == Next(After(s, text[..n]), text[n]);
    }
  }

  /** Behind the rows of an array or an object. */
  predicate RowsEnd(s: Scan) {
    s.at.BehindValue? || (Inside(s, Rows) && s.at == Row(Indentation(s))) || (Inside(s, Braces) && s.at == Spaced(COLON))
  }

  /** The closing bracket, on its own line unless a null string comes before it. */
  lemma ClosingGoes(s: Scan, rows: bytes, t: Scan, close: byte, ind: bytes)
    requires Goes(s, rows, t) && rows != [] && RowsEnd(t) && t.open != [] && !InsideLine(t)
    requires Blank(ind) && |ind| + 3 == Indentation(t)
    requires (close == RBRACE && Inner(t) == Braces) || (close == RBRACKET && Inner(t) == Rows)
    ensures Goes(t, Closing(rows, close, ind), Scan(t.open[..|t.open| - 1], BehindValue))
  {
    var end := Scan(t.open[..|t.open| - 1], BehindValue);
    LastByteTells(s, rows, t);
    if t.at.BehindValue? {
      var u := t.(at := LastRow(|ind|));
      NewLineGoes(t, ind);
      GoesByte(u, close);
      GoesOn(t, [LF] + ind, u, [close], end);
    } else {
      GoesByte(t, close);
      assert Closing(rows, close, ind) == [close];
    }
  }

  // ----- The layout -----

  /** For every value and place, the automaton reads the layout, and is then behind the value. */
  lemma {:induction false} LaidGoes(j: Json, ind: bytes, s: Scan, realText: RealText)
    requires ValuePlace(s) && !InsideLine(s) && Blank(ind) && |ind| == Indentation(s)
    ensures Goes(s, Laid(j, ind, realText), ValueEnd(s, j))
    decreases Weight(j), 1, 0
  {
    hide Permits, Next, Goes, Layouts.Rows, MemberRows, ValueText, Joined;
    if !IsNested(j) {
      ValueTextGoes(s, j, realText);
    } else if j.Array? {
      if FitsOneLine(j.ms, realText) { OneLineGoes(s, j.ms, realText); } else { ArrayGoes(j.ms, ind, s, realText); }
    } else {
      ObjectGoes(j.ms, ind, s, realText);
    }
  }

  lemma {:induction false} ArrayGoes(ms: Members, ind: bytes, s: Scan, realText: RealText)
    requires ValuePlace(s) && !InsideLine(s) && Blank(ind) && |ind| == Indentation(s) && ArraySize(ms) > 0
    ensures var rows := Layouts.Rows(ms, 0, ind + INDENT, realText);
            Goes(s, [LBRACKET] + rows + Closing(rows, RBRACKET, ind), s.(at := BehindValue))
    decreases MembersWeight(ms), 3, 0
  {
    hide Goes, Layouts.Rows, Closing;
    var rows := Layouts.Rows(ms, 0, ind + INDENT, realText);
    var t := Scan(s.open + [Rows], Behind(LBRACKET));
    assert Next(s, LBRACKET) == t;
    GoesByte(s, LBRACKET);
    var u := RowsGo(ms, 0, ind + INDENT, t, realText);
    assert u.open[..|u.open| - 1] == s.open;
    ClosingGoes(t, rows, u, RBRACKET, ind);
    GoesOn(s, [LBRACKET], t, rows, u);
    GoesOn(s, [LBRACKET] + rows, u, Closing(rows, RBRACKET, ind), s.(at := BehindValue));
  }

  lemma {:induction false} RowsGo(ms: Members, i: nat, ind: bytes, s: Scan, realText: RealText) returns (t: Scan)
    requires i < ArraySize(ms) && Inside(s, Rows) && !InsideLine(s) && (s.at == Behind(LBRACKET) || s.at == Behind(COMMA))
    requires Blank(ind) && |ind| == Indentation(s)
    ensures Goes(s, Layouts.Rows(ms, i, ind, realText), t) && t.open == s.open && RowsEnd(t)
    decreases MembersWeight(ms), 2, ArraySize(ms) - i
  {
    hide Goes, Permits, Next, Laid, Layouts.Rows;
    FetchWeight(ms, Index(i));
    var j := Fetch(ms, Index(i)).json;
    var r := s.(at := Row(|ind|));
    var line := [LF] + ind + Laid(j, ind, realText);
    NewLineGoes(s, ind);
    LaidGoes(j, ind, r, realText);
    t := ValueEnd(r, j);
    GoesOn(s, [LF] + ind, r, Laid(j, ind, realText), t);
    RowsAre(ms, i, ind, realText);
    if i + 1 < ArraySize(ms) {
      t := RowsGoOn(s, line, t);
      var u := RowsGo(ms, i + 1, ind, t, realText);
      GoesOn(s, line + [COMMA], t, Layouts.Rows(ms, i + 1, ind, realText), u);
      t := u;
    }
  }

  lemma RowsAre(ms: Members, i: nat, ind: bytes, realText: RealText)
    requires i < ArraySize(ms)
    ensures var line := [LF] + ind + Laid(Fetch(ms, Index(i)).json, ind, realText);
            Layouts.Rows(ms, i, ind, realText) ==
            if i + 1 == ArraySize(ms) then line else line + [COMMA] + Layouts.Rows(ms, i + 1, ind, realText)
  {
    hide Laid;
    var line := [LF] + ind + Laid(Fetch(ms, Index(i)).json, ind, realText);
    if i + 1 < ArraySize(ms) {
      assert line + ([COMMA] + Layouts.Rows(ms, i + 1, ind, realText)) == line + [COMMA] + Layouts.Rows(ms, i + 1, ind, realText);
    } else {
      assert line + [] == line;
    }
  }

  /** The comma behind a row. */
  lemma RowsGoOn(s: Scan, line: bytes, t: Scan) returns (u: Scan)
    requires Goes(s, line, t) && t.open != [] && AfterValue(t)
    ensures u == t.(at := Behind(COMMA)) && Goes(s, line + [COMMA], u)
  {
    u := t.(at := Behind(COMMA));
    GoesByte(t, COMMA);
    GoesOn(s, line, t, [COMMA], u);
  }

  lemma {:induction false} ObjectGoes(ms: Members, ind: bytes, s: Scan, realText: RealText)
    requires ValuePlace(s) && !InsideLine(s) && Blank(ind) && |ind| == Indentation(s) && ms.Cons?
    ensures var rows := MemberRows(ms, ind + INDENT, realText);
            Goes(s, [LBRACE] + rows + Closing(rows, RBRACE, ind), s.(at := BehindValue))
    decreases MembersWeight(ms), 3, 0
  {
    hide Goes, MemberRows, Closing;
    var rows := MemberRows(ms, ind + INDENT, realText);
    var t := Scan(s.open + [Braces], Behind(LBRACE));
    assert Next(s, LBRACE) == t;
    GoesByte(s, LBRACE);
    var u := MemberRowsGo(ms, ind + INDENT, t, realText);
    assert u.open[..|u.open| - 1] == s.open;
    ClosingGoes(t, rows, u, RBRACE, ind);
    GoesOn(s, [LBRACE], t, rows, u);
    GoesOn(s, [LBRACE] + rows, u, Closing(rows, RBRACE, ind), s.(at := BehindValue));
  }

  lemma {:induction false} MemberRowsGo(ms: Members, ind: bytes, s: Scan, realText: RealText) returns (t: Scan)
    requires ms.Cons? && Inside(s, Braces) && !InsideLine(s) && (s.at == Behind(LBRACE) || s.at == Behind(COMMA))
    requires Blank(ind) && |ind| == Indentation(s)
    ensures Goes(s, MemberRows(ms, ind, realText), t) && t.open == s.open && RowsEnd(t)
    decreases MembersWeight(ms), 2, 0
  {
    hide Goes, Permits, Next, Laid, MemberRows, KeyText;
    var j := ms.value.json;
    var v := s.(at := Spaced(COLON));
    var named := [LF] + ind + KeyText(ms.key, true).text + [SPACE, COLON, SPACE];
    NameGoes(ms.key, ind, s);
    LaidGoes(j, ind, v, realText);
    t := ValueEnd(v, j);
    GoesOn(s, named, v, Laid(j, ind, realText), t);
    MemberRowsAre(ms, ind, realText);
    if ms.tail.Cons? {
      t := RowsGoOn(s, named + Laid(j, ind, realText), t);
      var u := MemberRowsGo(ms.tail, ind, t, realText);
      GoesOn(s, named + Laid(j, ind, realText) + [COMMA], t, MemberRows(ms.tail, ind, realText), u);
      t := u;
    }
  }

  lemma MemberRowsAre(ms: Members, ind: bytes, realText: RealText)
    requires ms.Cons?
    ensures var line := [LF] + ind + KeyText(ms.key, true).text + [SPACE, COLON, SPACE] + Laid(ms.value.json, ind, realText);
            MemberRows(ms, ind, realText) ==
            if ms.tail.Nil? then line else line + [COMMA] + MemberRows(ms.tail, ind, realText)
  {
    hide Laid, KeyText;
    var line := [LF] + ind + KeyText(ms.key, true).text + [SPACE, COLON, SPACE] + Laid(ms.value.json, ind, realText);
    if ms.tail.Cons? {
      assert line + ([COMMA] + MemberRows(ms.tail, ind, realText)) == line + [COMMA] + MemberRows(ms.tail, ind, realText);
    } else {
      assert line + [] == line;
    }
  }

  /** A name on a new line, and a colon between two blanks. */
  lemma NameGoes(key: Key, ind: bytes, s: Scan)
    requires Inside(s, Braces) && !InsideLine(s) && (s.at == Behind(LBRACE) || s.at == Behind(COMMA))
    requires Blank(ind) && |ind| == Indentation(s)
    ensures Goes(s, [LF] + ind + KeyText(key, true).text + [SPACE, COLON, SPACE], s.(at := Spaced(COLON)))
  {
    var r, t := s.(at := Row(|ind|)), s.(at := BehindValue);
    var (u, v, w) := (s.(at := SpacedValue), s.(at := Behind(COLON)), s.(at := Spaced(COLON)));
    NewLineGoes(s, ind);
    QuotedGoes(r, CString(if key.Name? then key.name else []));
    GoesByte(t, SPACE);
    GoesByte(u, COLON);
    GoesByte(v, SPACE);
    hide Goes, Permits, Next, Quoted, CString;
    GoesOn(t, [SPACE], u, [COLON], v);
    GoesOn(t, [SPACE] + [COLON], v, [SPACE], w);
    assert [SPACE] + [COLON] + [SPACE] == [SPACE, COLON, SPACE];
    GoesOn(s, [LF] + ind, r, KeyText(key, true).text, t);
    GoesOn(s, [LF] + ind + KeyText(key, true).text, t, [SPACE, COLON, SPACE], w);
  }

  /** Every document that StyledWriter writes is well laid out. */
  lemma DocumentIsWellLaid(root: Json, realText: RealText)
    ensures WellLaid(Laid(root, [], realText) + [LF])
  {
    var t := ValueEnd(START, root);
    LaidGoes(root, [], START, realText);
    GoesByte(t, LF);
    GoesOn(START, Laid(root, [], realText), t, [LF], Scan([], LastRow(0)));
  }

  // ----- In plain words -----

  predicate InText(s: Scan) { !s.at.InString? && !s.at.InEscape? }

  lemma {:induction false} ReadsUpTo(s: Scan, text: bytes, i: nat)
    requires Reads(s, text) && i < |text|
    ensures Permits(After(s, text[..i]), text[i])
    ensures After(s, text[..i + 1]) == Next(After(s, text[..i]), text[i])
    ensures Reads(After(s, text[..i]), text[i..])
  {
    assert text == text[..i] + text[i..];
    assert text[..i + 1] == text[..i] + [text[i]];
    ReadsConcat(s, text[..i], text[i..]);
    ReadsConcat(s, text[..i], [text[i]]);
    var r := After(s, text[..i]);
    assert After(Next(r, text[i]), []) == Next(r, text[i]);
  }

  lemma {:induction false} BlanksCounted(s: Scan, text: bytes, n: nat)
    requires Reads(s, text) && n <= |text| && Blank(text[..n]) && (s.at.Row? || s.at.LastRow?)
    ensures After(s, text[..n]) == s.(at := if s.at.Row? then Row(s.at.n + n) else LastRow(s.at.n + n))
    decreases n
  {
    if n > 0 {
      assert text[..n][0] == SPACE && text[..n][1..] == text[1..][..n - 1];
      BlanksCounted(Next(s, SPACE), text[1..], n - 1);
    }
  }

  /**
    Behind every line feed but the last there are three blanks for each open bracket, or one step
    less if a closing bracket follows that stands behind a value.
  */
  lemma LinesAreIndented(text: bytes, i: nat, n: nat)
    requires WellLaid(text) && i + 1 + n < |text| && text[i] == LF
    requires Blank(text[i + 1..i + 1 + n]) && text[i + 1 + n] != SPACE
    ensures var (s, c) := (After(START, text[..i]), text[i + 1 + n]);
            InText(s) &&
            if (c == RBRACE || c == RBRACKET) && s.at.BehindValue? then n + 3 == 3 * |s.open| else n == 3 * |s.open|
  {
    var k := i + 1 + n;
    var s, t := After(START, text[..i]), After(START, text[..i + 1]);
    ReadsUpTo(START, text, i);
    ReadsUpTo(START, text, i + 1);
    ReadsUpTo(START, text, k);
    assert text[i + 1..][..n] == text[i + 1..k];
    BlanksCounted(t, text[i + 1..], n);
    ReadsConcat(START, text[..i + 1], text[i + 1..k]);
    assert text[..i + 1] + text[i + 1..k] == text[..k];
  }

  /** Members, and elements of an array that is not on one line, begin lines: a comma or an opening bracket comes before. */
  lemma RowsBeginLines(text: bytes, i: nat)
    requires WellLaid(text) && i + 1 < |text| && InText(After(START, text[..i]))
    ensures text[i] == COMMA ==> text[i + 1] == if Inside(After(START, text[..i]), Line) then SPACE else LF
    ensures text[i] == LBRACE ==> text[i + 1] == LF || text[i + 1] == RBRACE
    ensures text[i] == LBRACKET ==> text[i + 1] == LF || text[i + 1] == RBRACKET || text[i + 1] == SPACE
    ensures text[i] == COLON ==> text[i + 1] == SPACE && i > 0 && text[i - 1] == SPACE
  {
    ReadsUpTo(START, text, i);
    ReadsUpTo(START, text, i + 1);
    assert text[..0] == [];
    if i > 0 { ReadsUpTo(START, text, i - 1); }
  }

  // ----- One line or many -----

  /** The length of the first n elements without white space, and two bytes between any two. */
  function LineWidth(ms: Members, n: nat, realText: RealText): nat
    requires n <= ArraySize(ms)
  {
    if n == 0 then 0
    else
      LineWidth(ms, n - 1, realText) + (if n > 1 then 2 else 0) +
      |Flat(Tokens(Fetch(ms, Index(n - 1)).json, End, true, realText))|
  }

  predicate NoNullStrings(ms: Members) { forall i :: 0 <= i < ArraySize(ms) ==> !Fetch(ms, Index(i)).json.NullStr? }

  lemma {:induction false} JoinedWidth(ms: Members, n: nat, realText: RealText)
    requires IsFlat(ms) && n <= ArraySize(ms)
    ensures |Joined(ms, n, realText)| == LineWidth(ms, n, realText)
    ensures NoNullStrings(ms) && n > 0 ==> LineWidth(ms, n, realText) >= 3 * n - 2
  {
    if n > 0 {
      JoinedWidth(ms, n - 1, realText);
      var j := Fetch(ms, Index(n - 1)).json;
      ValueTextIsFlat(j, realText);
    }
  }

  lemma ValueTextIsFlat(j: Json, realText: RealText)
    requires !IsNested(j)
    ensures ValueText(j, realText) == Flat(Tokens(j, End, true, realText))
    ensures !j.NullStr? ==> ValueText(j, realText) != []
  {
    match j
    case Int(i) => IntIsPlain(i);
    case UInt(u) => IntIsPlain(u);
    case Array(ms) => assert Flat(More(CLOSE_ARRAY, End)) == [RBRACKET];
    case Object(ms) => assert Flat(More(CLOSE_OBJECT, End)) == [RBRACE];
    case _ =>
  }

  /**
    An array is printed without a line feed if and only if no element is nested and its line,
    brackets and blanks included, is shorter than 74. Lines of 2^32 bytes wrap, and null strings,
    which have no length, let arrays of 25 and more elements be taken for too long.
  */
  lemma OneLineExactly(ms: Members, ind: bytes, realText: RealText)
    requires ArraySize(ms) > 0 && ArraySize(ms) * 3 < TWO_TO_THE_32
    requires LineWidth(ms, ArraySize(ms), realText) + 4 < TWO_TO_THE_32
    ensures LF !in Laid(Array(ms), ind, realText) <==>
            IsFlat(ms) && LineWidth(ms, ArraySize(ms), realText) + 4 < 74 && ArraySize(ms) < 25
    ensures NoNullStrings(ms) ==>
              (LF !in Laid(Array(ms), ind, realText) <==> IsFlat(ms) && LineWidth(ms, ArraySize(ms), realText) + 4 < 74)
  {
    hide Layouts.Rows, Joined, LineWidth, Fetch;
    if IsFlat(ms) { JoinedWidth(ms, ArraySize(ms), realText); }
    if FitsOneLine(ms, realText) {
      OneLineHasNoLineFeed(ms, realText);
    } else {
      RowsBeginWithLineFeed(ms, ind + INDENT, realText);
      var rows := Layouts.Rows(ms, 0, ind + INDENT, realText);
      assert ([LBRACKET] + rows + Closing(rows, RBRACKET, ind))[1] == LF;
    }
  }

  lemma RowsBeginWithLineFeed(ms: Members, ind: bytes, realText: RealText)
    requires ArraySize(ms) > 0
    ensures Layouts.Rows(ms, 0, ind, realText)[0] == LF
  {
    hide Laid;
    RowsAre(ms, 0, ind, realText);
  }

  lemma OneLineHasNoLineFeed(ms: Members, realText: RealText)
    requires IsFlat(ms)
    ensures LF !in OneLine(ms, realText)
  {
    JoinedHasNoLineFeed(ms, ArraySize(ms), realText);
  }

  lemma {:induction false} JoinedHasNoLineFeed(ms: Members, n: nat, realText: RealText)
    requires IsFlat(ms) && n <= ArraySize(ms)
    ensures LF !in Joined(ms, n, realText)
  {
    hide ValueText;
    if n > 0 {
      JoinedHasNoLineFeed(ms, n - 1, realText);
      ValueTextHasNoLineFeed(Fetch(ms, Index(n - 1)).json, realText);
    }
  }

  lemma ValueTextHasNoLineFeed(j: Json, realText: RealText)
    requires !IsNested(j)
    ensures LF !in ValueText(j, realText)
  {
    match j
    case Int(i) => IntIsPlain(i);
    case UInt(u) => IntIsPlain(u);
    case Real(r) => NumberIsPlain(realText(r));
    case Str(s) => EscapedHasNoLineFeed(s);
    case _ =>
  }

  lemma {:induction false} EscapedHasNoLineFeed(s: bytes)
    ensures LF !in Spell(PiecesOf(s))
  {
    if s != [] {
      EscapedHasNoLineFeed(s[1..]);
      assert PiecesOf(s)[1..] == PiecesOf(s[1..]);
      var text := PieceText(PieceOf(s[0]));
      assert LF !in text;
      assert Spell(PiecesOf(s)) == text + Spell(PiecesOf(s[1..]));
    }
  }
}
