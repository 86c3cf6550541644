/** The tokens that both writers print for a value, and how texts that spell tokens are put together. */
module Output {
  import opened Bytes
  import opened Values
  import opened Strings
  import opened Numbers
  import opened Lexer
  import opened Texts

  /** valueToString(double): some number, with a digit in it. */
  type RealText = f: real -> bytes | forall r :: IsNumberToken(f(r)) && Unsigned(f(r)) != []
    witness (r => [ZERO])

  /** A key as the writer sees it: as a whole, or up to its first NUL. */
  function KeyText(k: Key, asCString: bool): Lexeme {
    var name := if k.Name? then k.name else [];
    Lexeme(StringToken, Quoted(if asCString then CString(name) else name))
  }

  /** The tokens of a value, followed by k. A null string prints nothing at all. */
  function Tokens(j: Json, k: Lexemes, asCString: bool, realText: RealText): Lexemes
    decreases Weight(j), 1, 0
  {
    match j
    case Null => More(Lexeme(NullToken, NULL_TEXT), k)
    case Int(i) => More(Lexeme(Number, IntText(i)), k)
    case UInt(u) => More(Lexeme(Number, IntText(u)), k)
    case Real(r) => More(Lexeme(Number, realText(r)), k)
    case NullStr => k
    case Str(s) => More(Lexeme(StringToken, Quoted(s)), k)
    case Bool(b) => More(if b then Lexeme(True, TRUE_TEXT) else Lexeme(False, FALSE_TEXT), k)
    case Array(ms) => More(OPEN_ARRAY, ItemTokens(ms, 0, k, asCString, realText))
    case Object(ms) => More(OPEN_OBJECT, MemberTokens(ms, true, k, asCString, realText))
  }

  /** An array from element i on: holes print as null. */
  function ItemTokens(ms: Members, i: nat, k: Lexemes, asCString: bool, realText: RealText): Lexemes
    requires i <= ArraySize(ms)
    decreases MembersWeight(ms), 2, ArraySize(ms) - i
  {
    if i == ArraySize(ms) then More(CLOSE_ARRAY, k)
    else
      FetchWeight(ms, Index(i));
      var item := Tokens(Fetch(ms, Index(i)).json, ItemTokens(ms, i + 1, k, asCString, realText), asCString, realText);
      if i == 0 then item else More(COMMA_LEXEME, item)
  }

  /** The rest of an object, from its first or a later member. */
  function MemberTokens(ms: Members, first: bool, k: Lexemes, asCString: bool, realText: RealText): Lexemes
    decreases MembersWeight(ms), 2, 0
  {
    match ms
    case Nil => More(CLOSE_OBJECT, k)
    case Cons(key, v, t) =>
      var member := More(KeyText(key, asCString), More(COLON_LEXEME,
        Tokens(v.json, MemberTokens(t, false, k, asCString, realText), asCString, realText)));
      if first then member else More(COMMA_LEXEME, member)
  }

  // ----- Lists of lexemes -----

  function Then(ls: Lexemes, ms: Lexemes): Lexemes {
    match ls
    case End => ms
    case More(l, t) => More(l, Then(t, ms))
  }

  function Flat(ls: Lexemes): bytes {
    match ls
    case End => []
    case More(l, t) => l.text + Flat(t)
  }

  lemma ThenAssociative(a: Lexemes, b: Lexemes, c: Lexemes)
    ensures Then(Then(a, b), c) == Then(a, Then(b, c))
  {}

  lemma ThenEnd(a: Lexemes)
    ensures Then(a, End) == a
  {}

  lemma {:induction false} FlatThen(a: Lexemes, b: Lexemes)
    ensures Flat(Then(a, b)) == Flat(a) + Flat(b)
  {
    if a.More? { FlatThen(a.tail, b); }
  }

  lemma {:induction false} TokensThen(j: Json, k: Lexemes, asCString: bool, realText: RealText)
    ensures Tokens(j, k, asCString, realText) == Then(Tokens(j, End, asCString, realText), k)
    decreases Weight(j), 1, 0
  {
    match j
    case Array(ms) => ItemTokensThen(ms, 0, End, k, asCString, realText);
    case Object(ms) => MemberTokensThen(ms, true, End, k, asCString, realText);
    case _ =>
  }

  lemma {:induction false} ItemTokensThen(ms: Members, i: nat, k: Lexemes, k': Lexemes, asCString: bool, realText: RealText)
    requires i <= ArraySize(ms)
    ensures Then(ItemTokens(ms, i, k, asCString, realText), k') == ItemTokens(ms, i, Then(k, k'), asCString, realText)
    decreases MembersWeight(ms), 2, ArraySize(ms) - i
  {
    if i < ArraySize(ms) {
      FetchWeight(ms, Index(i));
      var j := Fetch(ms, Index(i)).json;
      var rest, rest' := ItemTokens(ms, i + 1, k, asCString, realText), ItemTokens(ms, i + 1, Then(k, k'), asCString, realText);
      ItemTokensThen(ms, i + 1, k, k', asCString, realText);
      TokensThen(j, rest, asCString, realText);
      TokensThen(j, rest', asCString, realText);
      ThenAssociative(Tokens(j, End, asCString, realText), rest, k');
    }
  }

  lemma {:induction false} MemberTokensThen(ms: Members, first: bool, k: Lexemes, k': Lexemes, asCString: bool, realText: RealText)
    ensures Then(MemberTokens(ms, first, k, asCString, realText), k') == MemberTokens(ms, first, Then(k, k'), asCString, realText)
    decreases MembersWeight(ms), 2, 0
  {
    if ms.Cons? {
      var j := ms.value.json;
      var rest := MemberTokens(ms.tail, false, k, asCString, realText);
      var rest' := MemberTokens(ms.tail, false, Then(k, k'), asCString, realText);
      MemberTokensThen(ms.tail, false, k, k', asCString, realText);
      TokensThen(j, rest, asCString, realText);
      TokensThen(j, rest', asCString, realText);
      ThenAssociative(Tokens(j, End, asCString, realText), rest, k');
      var value := Tokens(j, rest, asCString, realText);
      assert Then(More(COLON_LEXEME, value), k') == More(COLON_LEXEME, Then(value, k'));
    }
  }

  // ----- Spelling -----

  /** Lexemes can be told from the white space around them. */
  predicate Solid(ls: Lexemes) {
    match ls
    case End => true
    case More(l, t) => l.text != [] && !IsSpace(l.text[0]) && Solid(t)
  }

  lemma IntTextSolid(i: int)
    ensures IntText(i) != [] && !IsSpace(IntText(i)[0])
  {
    if i < 0 { DecimalReads(-i); } else {
      DecimalReads(i);
      assert IsDigit(Decimal(i)[0]);
    }
  }

  lemma {:induction false} TokensSolid(j: Json, k: Lexemes, asCString: bool, realText: RealText)
    requires Solid(k)
    ensures Solid(Tokens(j, k, asCString, realText))
    decreases Weight(j), 1, 0
  {
    match j
    case Int(i) => IntTextSolid(i);
    case UInt(u) => IntTextSolid(u);
    case Real(r) => assert IsNumberToken(realText(r));
    case Array(ms) => ItemTokensSolid(ms, 0, k, asCString, realText);
    case Object(ms) => MemberTokensSolid(ms, true, k, asCString, realText);
    case _ =>
  }

  lemma {:induction false} ItemTokensSolid(ms: Members, i: nat, k: Lexemes, asCString: bool, realText: RealText)
    requires Solid(k) && i <= ArraySize(ms)
    ensures Solid(ItemTokens(ms, i, k, asCString, realText))
    decreases MembersWeight(ms), 2, ArraySize(ms) - i
  {
    if i < ArraySize(ms) {
      FetchWeight(ms, Index(i));
      ItemTokensSolid(ms, i + 1, k, asCString, realText);
      TokensSolid(Fetch(ms, Index(i)).json, ItemTokens(ms, i + 1, k, asCString, realText), asCString, realText);
    }
  }

  lemma {:induction false} MemberTokensSolid(ms: Members, first: bool, k: Lexemes, asCString: bool, realText: RealText)
    requires Solid(k)
    ensures Solid(MemberTokens(ms, first, k, asCString, realText))
    decreases MembersWeight(ms), 2, 0
  {
    if ms.Cons? {
      MemberTokensSolid(ms.tail, false, k, asCString, realText);
      TokensSolid(ms.value.json, MemberTokens(ms.tail, false, k, asCString, realText), asCString, realText);
    }
  }

  /** The whole text spells these lexemes. */
  predicate Spells(text: bytes, ls: Lexemes) { SpellsAt(text, 0, ls) }

  lemma {:induction false} SpellsBehind(x: bytes, y: bytes, pos: nat, ls: Lexemes)
    requires pos <= |y| && SpellsAt(y, pos, ls)
    ensures SpellsAt(x + y, |x| + pos, ls)
    decreases |y| - pos, ls
  {
    var doc := x + y;
    if pos < |y| { assert doc[|x| + pos] == y[pos]; }
    if pos < |y| && IsSpace(y[pos]) {
      SpellsBehind(x, y, pos + 1, ls);
    } else if ls.More? {
      var n := |ls.head.text|;
      assert doc[|x| + pos..|x| + pos + n] == y[pos..pos + n];
      SpellsBehind(x, y, pos + n, ls.tail);
    }
  }

  /** Texts that spell something may be joined: white space and whole lexemes stay apart. */
  lemma {:induction false} SpellsConcat(x: bytes, pos: nat, ls: Lexemes, y: bytes, ms: Lexemes)
    requires Solid(ls) && pos <= |x| && SpellsAt(x, pos, ls) && Spells(y, ms)
    ensures SpellsAt(x + y, pos, Then(ls, ms))
    decreases |x| - pos, ls
  {
    var doc := x + y;
    if pos < |x| { assert doc[pos] == x[pos]; }
    if pos < |x| && IsSpace(x[pos]) {
      SpellsConcat(x, pos + 1, ls, y, ms);
    } else if ls.More? {
      var n := |ls.head.text|;
      assert doc[pos..pos + n] == x[pos..pos + n];
      assert x[pos] == ls.head.text[0];
      SpellsConcat(x, pos + n, ls.tail, y, ms);
    } else {
      SpellsBehind(x, y, 0, ms);
    }
  }

  lemma {:induction false} FlatSpells(ls: Lexemes)
    requires Solid(ls)
    ensures Spells(Flat(ls), ls)
  {
    if ls.More? {
      FlatSpells(ls.tail);
      LexemeSpells(ls.head);
      SpellsConcat(ls.head.text, 0, More(ls.head, End), Flat(ls.tail), ls.tail);
      assert Then(More(ls.head, End), ls.tail) == ls;
    }
  }

  lemma LexemeSpells(l: Lexeme)
    requires Solid(More(l, End))
    ensures Spells(l.text, More(l, End))
  {
    assert l.text[0..|l.text|] == l.text;
    assert SpellsAt(l.text, |l.text|, End);
  }

  predicate AllSpaces(s: bytes) { forall i :: 0 <= i < |s| ==> IsSpace(s[i]) }

  lemma SpacesSpell(s: bytes, pos: nat)
    requires AllSpaces(s) && pos <= |s|
    ensures SpellsAt(s, pos, End)
    decreases |s| - pos
  {
    if pos < |s| { SpacesSpell(s, pos + 1); }
  }
}
