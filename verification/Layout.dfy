/**
  The layout of styled documents without comments, as a function of the value and the
  indentation alone, and the proof that it spells the tokens of the value.
*/
module Layouts {
  import opened Bytes
  import opened Values
  import opened Strings
  import opened Numbers
  import opened Texts
  import opened Output

  const RIGHT_MARGIN: nat := 74
  const INDENT: bytes := [SPACE, SPACE, SPACE]

  /** isArray() or isObject(), with size() > 0. */
  predicate IsNested(j: Json) {
    match j
    case Array(ms) => ArraySize(ms) > 0
    case Object(ms) => ms.Cons?
    case _ => false
  }

  /** What pushValue is given for a value that is not nested. */
  function ValueText(j: Json, realText: RealText): bytes
    requires !IsNested(j)
  {
    match j
    case Null => NULL_TEXT
    case Int(i) => IntText(i)
    case UInt(u) => IntText(u)
    case Real(r) => realText(r)
    case NullStr => []
    case Str(s) => Quoted(s)
    case Bool(b) => if b then TRUE_TEXT else FALSE_TEXT
    case Array(_) => [LBRACKET, RBRACKET]
    case Object(_) => [LBRACE, RBRACE]
  }

  // ----- Arrays on one line -----

  /** No element is a container with something in it. */
  predicate IsFlat(ms: Members) {
    forall i :: 0 <= i < ArraySize(ms) ==> !IsNested(Fetch(ms, Index(i)).json)
  }

  function Separator(n: nat): bytes { if n > 0 then [COMMA, SPACE] else [] }

  /** The first n elements with a comma and a space between them. */
  function Joined(ms: Members, n: nat, realText: RealText): bytes
    requires IsFlat(ms) && n <= ArraySize(ms)
  {
    if n == 0 then []
    else Joined(ms, n - 1, realText) + Separator(n - 1) + ValueText(Fetch(ms, Index(n - 1)).json, realText)
  }

  /** The whole array on one line. */
  function OneLine(ms: Members, realText: RealText): bytes
    requires IsFlat(ms)
  {
    [LBRACKET, SPACE] + Joined(ms, ArraySize(ms), realText) + [SPACE, RBRACKET]
  }

  /**
    An array goes on one line if its line is shorter than the margin. Lengths are 32-bit, and
    arrays that would be too long with one byte for each element are not measured.
  */
  predicate FitsOneLine(ms: Members, realText: RealText) {
    ArraySize(ms) * 3 % TWO_TO_THE_32 < RIGHT_MARGIN && IsFlat(ms) &&
    |OneLine(ms, realText)| % TWO_TO_THE_32 < RIGHT_MARGIN
  }

  // ----- The layout -----

  /** The text of a value that begins behind an indentation or a space, on lines indented by ind. */
  function Laid(j: Json, ind: bytes, realText: RealText): bytes
    decreases Weight(j), 1, 0
  {
    if !IsNested(j) then ValueText(j, realText)
    else match j
      case Array(ms) =>
        if FitsOneLine(ms, realText) then OneLine(ms, realText)
        else [LBRACKET] + Rows(ms, 0, ind + INDENT, realText) + Closing(Rows(ms, 0, ind + INDENT, realText), RBRACKET, ind)
      case Object(ms) =>
        [LBRACE] + MemberRows(ms, ind + INDENT, realText) + Closing(MemberRows(ms, ind + INDENT, realText), RBRACE, ind)
  }

  /** The elements from i on, each on lines of its own. */
  function Rows(ms: Members, i: nat, ind: bytes, realText: RealText): (rows: bytes)
    requires i < ArraySize(ms)
    ensures rows != []
    decreases MembersWeight(ms), 2, ArraySize(ms) - i
  {
    FetchWeight(ms, Index(i));
    [LF] + ind + Laid(Fetch(ms, Index(i)).json, ind, realText) +
    if i + 1 == ArraySize(ms) then [] else [COMMA] + Rows(ms, i + 1, ind, realText)
  }

  /** Members, each on lines of its own. */
  function MemberRows(ms: Members, ind: bytes, realText: RealText): (rows: bytes)
    requires ms.Cons?
    ensures rows != []
    decreases MembersWeight(ms), 2, 0
  {
    [LF] + ind + KeyText(ms.key, true).text + [SPACE, COLON, SPACE] + Laid(ms.value.json, ind, realText) +
    if ms.tail.Nil? then [] else [COMMA] + MemberRows(ms.tail, ind, realText)
  }

  /** writeIndent: no new line behind a space, and not another one behind a line feed. */
  function Break(written: bytes, ind: bytes): bytes {
    if written == [] then ind
    else
      var last := written[|written| - 1];
      if last == SPACE then [] else if last == LF then ind else [LF] + ind
  }

  /** The closing bracket stands on its own line, except behind a null string, which prints nothing. */
  function Closing(rows: bytes, bracket: byte, ind: bytes): bytes { Break(rows, ind) + [bracket] }

  // ----- What it spells -----

  /** The tokens as StyledWriter prints them: keys are cut at their first NUL. */
  function Shown(j: Json, realText: RealText): Lexemes { Tokens(j, End, true, realText) }

  lemma ValueTextSpells(j: Json, realText: RealText)
    requires !IsNested(j)
    ensures Solid(Shown(j, realText)) && Spells(ValueText(j, realText), Shown(j, realText))
  {
    TokensSolid(j, End, true, realText);
    FlatSpells(Shown(j, realText));
    assert Flat(Shown(j, realText)) == ValueText(j, realText) by {
      match j
      case Array(ms) => assert Flat(More(CLOSE_ARRAY, End)) == [RBRACKET];
      case Object(ms) => assert Flat(More(CLOSE_OBJECT, End)) == [RBRACE];
      case _ => assert ValueText(j, realText) + [] == ValueText(j, realText);
    }
  }

  /** White space, then a text. */
  lemma SpacesThen(spaces: bytes, text: bytes, ls: Lexemes)
    requires AllSpaces(spaces) && Spells(text, ls)
    ensures Spells(spaces + text, ls)
  {
    SpacesSpell(spaces, 0);
    SpellsConcat(spaces, 0, End, text, ls);
  }

  /** One lexeme, then a text. */
  lemma LexemeThen(l: Lexeme, text: bytes, ls: Lexemes)
    requires Solid(More(l, End)) && Spells(text, ls)
    ensures Spells(l.text + text, More(l, ls))
  {
    LexemeSpells(l);
    SpellsConcat(l.text, 0, More(l, End), text, ls);
    assert Then(More(l, End), ls) == More(l, ls);
  }

  /** A value's text, then a text. */
  lemma ValueThen(valueText: bytes, j: Json, text: bytes, ls: Lexemes, realText: RealText)
    requires Spells(valueText, Shown(j, realText)) && Spells(text, ls)
    ensures Spells(valueText + text, Tokens(j, ls, true, realText))
  {
    TokensSolid(j, End, true, realText);
    TokensThen(j, ls, true, realText);
    SpellsConcat(valueText, 0, Shown(j, realText), text, ls);
  }

  lemma ClosingSpells(rows: bytes, l: Lexeme, ind: bytes)
    requires AllSpaces(ind) && Solid(More(l, End)) && |l.text| == 1
    ensures Spells(Closing(rows, l.text[0], ind), More(l, End))
  {
    LexemeSpells(l);
    assert l.text == [l.text[0]];
    SpacesThen(Break(rows, ind), l.text, More(l, End));
  }

  /** Element i and the rest of the array, without the comma before it. */
  function FromItem(ms: Members, i: nat, realText: RealText): Lexemes
    requires i < ArraySize(ms)
  {
    Tokens(Fetch(ms, Index(i)).json, ItemTokens(ms, i + 1, End, true, realText), true, realText)
  }

  lemma ArrayShown(ms: Members, realText: RealText)
    requires ArraySize(ms) > 0
    ensures Shown(Array(ms), realText) == More(OPEN_ARRAY, FromItem(ms, 0, realText))
  {
    assert ItemTokens(ms, 0, End, true, realText) == FromItem(ms, 0, realText);
  }

  /** Whatever the layout, it spells the tokens of the value. */
  lemma {:induction false} LaidSpells(j: Json, ind: bytes, realText: RealText)
    requires AllSpaces(ind)
    ensures Spells(Laid(j, ind, realText), Shown(j, realText))
    decreases Weight(j), 1, 0
  {
    hide Spells, Tokens, ValueText, Break, Rows, MemberRows;
    if !IsNested(j) {
      ValueTextSpells(j, realText);
    } else if j.Array? {
      if FitsOneLine(j.ms, realText) {
        OneLineSpells(j.ms, realText);
      } else {
        ArrayLaidSpells(j.ms, ind, realText);
      }
    } else {
      ObjectLaidSpells(j.ms, ind, realText);
    }
  }

  /** The document that StyledWriter writes spells the tokens of the root. */
  lemma DocumentSpells(root: Json, realText: RealText)
    ensures Spells(Laid(root, [], realText) + [LF], Shown(root, realText))
  {
    LaidSpells(root, [], realText);
    SpacesSpell([LF], 0);
    TokensSolid(root, End, true, realText);
    SpellsConcat(Laid(root, [], realText), 0, Shown(root, realText), [LF], End);
    ThenEnd(Shown(root, realText));
  }

  lemma {:induction false} ArrayLaidSpells(ms: Members, ind: bytes, realText: RealText)
    requires ArraySize(ms) > 0 && AllSpaces(ind)
    ensures var rows := Rows(ms, 0, ind + INDENT, realText);
            Spells([LBRACKET] + rows + Closing(rows, RBRACKET, ind), Shown(Array(ms), realText))
    decreases MembersWeight(ms), 3, 0
  {
    var rows := Rows(ms, 0, ind + INDENT, realText);
    var close := Closing(rows, RBRACKET, ind);
    ClosingSpells(rows, CLOSE_ARRAY, ind);
    RowsSpell(ms, 0, ind + INDENT, close, realText);
    ArrayShown(ms, realText);
    hide Spells, Rows, Closing, Shown;
    LexemeThen(OPEN_ARRAY, rows + close, FromItem(ms, 0, realText));
    assert [LBRACKET] + rows + close == OPEN_ARRAY.text + (rows + close);
  }

  lemma {:induction false} ObjectLaidSpells(ms: Members, ind: bytes, realText: RealText)
    requires ms.Cons? && AllSpaces(ind)
    ensures var rows := MemberRows(ms, ind + INDENT, realText);
            Spells([LBRACE] + rows + Closing(rows, RBRACE, ind), Shown(Object(ms), realText))
    decreases MembersWeight(ms), 3, 0
  {
    var rows := MemberRows(ms, ind + INDENT, realText);
    var close := Closing(rows, RBRACE, ind);
    ClosingSpells(rows, CLOSE_OBJECT, ind);
    MemberRowsSpell(ms, ind + INDENT, close, realText);
    hide Spells, MemberRows, Closing;
    LexemeThen(OPEN_OBJECT, rows + close, MemberTokens(ms, true, End, true, realText));
    assert [LBRACE] + rows + close == OPEN_OBJECT.text + (rows + close);
  }

  lemma {:induction false} RowsSpell(ms: Members, i: nat, ind: bytes, close: bytes, realText: RealText)
    requires i < ArraySize(ms) && AllSpaces(ind) && Spells(close, More(CLOSE_ARRAY, End))
    ensures Spells(Rows(ms, i, ind, realText) + close, FromItem(ms, i, realText))
    decreases MembersWeight(ms), 2, ArraySize(ms) - i
  {
    hide Spells, Tokens, Laid;
    var j := Fetch(ms, Index(i)).json;
    var laid := Laid(j, ind, realText);
    var rest := ItemTokens(ms, i + 1, End, true, realText);
    var after := close;
    FetchWeight(ms, Index(i));
    LaidSpells(j, ind, realText);
    if i + 1 < ArraySize(ms) {
      var rows := Rows(ms, i + 1, ind, realText);
      RowsSpell(ms, i + 1, ind, close, realText);
      LexemeThen(COMMA_LEXEME, rows + close, FromItem(ms, i + 1, realText));
      after := [COMMA] + (rows + close);
    }
    ValueThen(laid, j, after, rest, realText);
    SpacesThen([LF] + ind, laid + after, FromItem(ms, i, realText));
    assert Rows(ms, i, ind, realText) + close == ([LF] + ind) + (laid + after);
  }

  lemma {:induction false} MemberRowsSpell(ms: Members, ind: bytes, close: bytes, realText: RealText)
    requires ms.Cons? && AllSpaces(ind) && Spells(close, More(CLOSE_OBJECT, End))
    ensures Spells(MemberRows(ms, ind, realText) + close, MemberTokens(ms, true, End, true, realText))
    decreases MembersWeight(ms), 2, 0
  {
    hide Spells, Tokens, Laid, KeyText;
    var j := ms.value.json;
    var laid := Laid(j, ind, realText);
    var rest := MemberTokens(ms.tail, false, End, true, realText);
    var after := close;
    LaidSpells(j, ind, realText);
    if ms.tail.Cons? {
      var rows := MemberRows(ms.tail, ind, realText);
      MemberRowsSpell(ms.tail, ind, close, realText);
      LexemeThen(COMMA_LEXEME, rows + close, MemberTokens(ms.tail, true, End, true, realText));
      after := [COMMA] + (rows + close);
    }
    ValueThen(laid, j, after, rest, realText);
    var value := Tokens(j, rest, true, realText);
    NamedSpells(ms.key, ind, laid + after, value);
    assert MemberRows(ms, ind, realText) + close ==
           [LF] + ind + KeyText(ms.key, true).text + [SPACE, COLON, SPACE] + (laid + after);
  }

  /** A name on a new line, a colon with its spaces, and what follows. */
  lemma NamedSpells(key: Key, ind: bytes, text: bytes, ls: Lexemes)
    requires AllSpaces(ind) && Spells(text, ls)
    ensures Spells([LF] + ind + KeyText(key, true).text + [SPACE, COLON, SPACE] + text,
                   More(KeyText(key, true), More(COLON_LEXEME, ls)))
  {
    hide Spells;
    var name := KeyText(key, true);
    assert Solid(More(name, End));
    hide KeyText;
    SpacesThen([SPACE], text, ls);
    LexemeThen(COLON_LEXEME, [SPACE] + text, ls);
    SpacesThen([SPACE], [COLON] + ([SPACE] + text), More(COLON_LEXEME, ls));
    var colon := [SPACE] + ([COLON] + ([SPACE] + text));
    LexemeThen(name, colon, More(COLON_LEXEME, ls));
    SpacesThen([LF] + ind, name.text + colon, More(name, More(COLON_LEXEME, ls)));
    assert [LF] + ind + name.text + [SPACE, COLON, SPACE] + text == ([LF] + ind) + (name.text + colon);
  }

  lemma OneLineSpells(ms: Members, realText: RealText)
    requires ArraySize(ms) > 0 && IsFlat(ms)
    ensures Spells(OneLine(ms, realText), Shown(Array(ms), realText))
  {
    hide Spells;
    EndOfLineSpells();
    JoinedSpells(ms, ArraySize(ms), [SPACE, RBRACKET], realText);
    ArrayShown(ms, realText);
    LineInBrackets(Joined(ms, ArraySize(ms), realText), FromItem(ms, 0, realText));
  }

  lemma LineInBrackets(line: bytes, items: Lexemes)
    requires Spells(line + [SPACE, RBRACKET], items)
    ensures Spells([LBRACKET, SPACE] + line + [SPACE, RBRACKET], More(OPEN_ARRAY, items))
  {
    hide Spells;
    var rest := line + [SPACE, RBRACKET];
    SpacesThen([SPACE], rest, items);
    LexemeThen(OPEN_ARRAY, [SPACE] + rest, items);
    assert [LBRACKET, SPACE] + line + [SPACE, RBRACKET] == [LBRACKET] + ([SPACE] + rest);
  }

  lemma EndOfLineSpells()
    ensures Spells([SPACE, RBRACKET], More(CLOSE_ARRAY, End))
  {
    LexemeSpells(CLOSE_ARRAY);
    SpacesThen([SPACE], [RBRACKET], More(CLOSE_ARRAY, End));
    assert [SPACE] + [RBRACKET] == [SPACE, RBRACKET];
  }

  /** The first n elements on a line, then the text of the rest. */
  lemma {:induction false} JoinedSpells(ms: Members, n: nat, text: bytes, realText: RealText)
    requires IsFlat(ms) && 0 < n <= ArraySize(ms) && Spells(text, ItemTokens(ms, n, End, true, realText))
    ensures Spells(Joined(ms, n, realText) + text, FromItem(ms, 0, realText))
  {
    hide Spells, Tokens, ValueText;
    var j := Fetch(ms, Index(n - 1)).json;
    var value := ValueText(j, realText);
    ValueTextSpells(j, realText);
    ValueThen(value, j, text, ItemTokens(ms, n, End, true, realText), realText);
    if n > 1 {
      SpacesThen([SPACE], value + text, FromItem(ms, n - 1, realText));
      LexemeThen(COMMA_LEXEME, [SPACE] + (value + text), FromItem(ms, n - 1, realText));
      var separated := [COMMA] + ([SPACE] + (value + text));
      JoinedSpells(ms, n - 1, separated, realText);
      assert Joined(ms, n, realText) + text == Joined(ms, n - 1, realText) + separated;
    } else {
      assert Joined(ms, 1, realText) + text == value + text;
    }
  }
}
