/** What the writers print is read back: the reader inverts both writers, up to canonical form. */
module RoundTrip {
  import opened Bytes
  import opened Values
  import opened Strings
  import opened Numbers
  import opened Lexer
  import opened Syntax
  import opened Texts
  import opened Acceptance
  import opened Spellings
  import opened Output
  import opened FastWriters
  import opened Layouts
  import opened StyledWriters
  import opened Readers

  /** No null strings, and reals whose printed text is read as some number, at any depth. */
  predicate Printable(j: Json, realText: RealText, toDouble: ToDouble) {
    match j
    case Real(r) => DecodeNumber(realText(r), toDouble).Some?
    case NullStr => false
    case Array(ms) => PrintableMembers(ms, realText, toDouble)
    case Object(ms) => PrintableMembers(ms, realText, toDouble)
    case _ => true
  }

  predicate PrintableMembers(ms: Members, realText: RealText, toDouble: ToDouble) {
    match ms
    case Nil => true
    case Cons(_, v, t) => Printable(v.json, realText, toDouble) && PrintableMembers(t, realText, toDouble)
  }

  lemma FetchPrintable(ms: Members, k: Key, realText: RealText, toDouble: ToDouble)
    requires PrintableMembers(ms, realText, toDouble)
    ensures Printable(Fetch(ms, k).json, realText, toDouble)
  {
    if ms.Cons? && ms.key != k { FetchPrintable(ms.tail, k, realText, toDouble); }
  }

  // ----- Canonical form -----

  /**
    The value that reading gives back: integers typed by their size, reals as their printed text
    is decoded, array holes filled with null, source offsets forgotten.
  */
  function Canon(j: Json, realText: RealText, toDouble: ToDouble): Value
    decreases Weight(j), 1, 0
  {
    var json := match j
      case Int(i) => if i <= MAX_INT then Int(i) else UInt(i)
      case UInt(u) => if u <= MAX_INT then Int(u) else UInt(u)
      case Real(r) => (match DecodeNumber(realText(r), toDouble) case Some(k) => k case None => j)
      case Array(ms) => Array(CanonItems(ms, 0, realText, toDouble))
      case Object(ms) => Object(CanonMembers(ms, realText, toDouble))
      case _ => j;
    Value(json, 0, 0)
  }

  function CanonItems(ms: Members, i: nat, realText: RealText, toDouble: ToDouble): Members
    requires i <= ArraySize(ms)
    decreases MembersWeight(ms), 2, ArraySize(ms) - i
  {
    if i == ArraySize(ms) then Nil
    else
      FetchWeight(ms, Index(i));
      Cons(Index(i), Canon(Fetch(ms, Index(i)).json, realText, toDouble), CanonItems(ms, i + 1, realText, toDouble))
  }

  function CanonMembers(ms: Members, realText: RealText, toDouble: ToDouble): Members
    decreases MembersWeight(ms), 2, 0
  {
    match ms
    case Nil => Nil
    case Cons(k, v, t) => Cons(k, Canon(v.json, realText, toDouble), CanonMembers(t, realText, toDouble))
  }

  // ----- The text of a value -----

  function NumberText(text: bytes): Text {
    if IsInt64Text(text) then IntegerText(IsNegative(text), Unsigned(text)) else DecimalText(text)
  }

  lemma NumberTextIsValid(text: bytes, k: Lexemes, toDouble: ToDouble)
    requires IsNumberToken(text) && Unsigned(text) != []
    ensures Emit(NumberText(text), k) == More(Lexeme(Number, text), k)
    ensures DecodeNumber(text, toDouble).Some? ==>
              ValidText(NumberText(text), toDouble) &&
              Denote(NumberText(text), toDouble) == Value(DecodeNumber(text, toDouble).value, 0, 0)
  {
    assert IsNegative(text) ==> text == [MINUS] + text[1..];
  }

  function TextOf(j: Json, realText: RealText, toDouble: ToDouble): (t: Text)
    requires Printable(j, realText, toDouble)
    decreases Weight(j), 1, 0
  {
    match j
    case Null => NullText
    case Int(i) => IntegerText(i < 0, Decimal(if i < 0 then -i else i))
    case UInt(u) => IntegerText(u < 0, Decimal(if u < 0 then -u else u))
    case Real(r) => NumberText(realText(r))
    case Str(s) => StringText(PiecesOf(s))
    case Bool(b) => if b then TrueText else FalseText
    case Array(ms) => ArrayText(ItemsOf(ms, 0, realText, toDouble))
    case Object(ms) => ObjectText(FieldsOf(ms, realText, toDouble))
  }

  function ItemsOf(ms: Members, i: nat, realText: RealText, toDouble: ToDouble): Items
    requires PrintableMembers(ms, realText, toDouble) && i <= ArraySize(ms)
    decreases MembersWeight(ms), 2, ArraySize(ms) - i
  {
    if i == ArraySize(ms) then NoItems
    else
      FetchWeight(ms, Index(i));
      FetchPrintable(ms, Index(i), realText, toDouble);
      Item(TextOf(Fetch(ms, Index(i)).json, realText, toDouble), ItemsOf(ms, i + 1, realText, toDouble))
  }

  function FieldsOf(ms: Members, realText: RealText, toDouble: ToDouble): Fields
    requires PrintableMembers(ms, realText, toDouble)
    decreases MembersWeight(ms), 2, 0
  {
    match ms
    case Nil => NoFields
    case Cons(k, v, t) => Field(PiecesOf(if k.Name? then k.name else []), TextOf(v.json, realText, toDouble), FieldsOf(t, realText, toDouble))
  }

  /** The containers around the deepest value that is written. */
  function Nesting(j: Json, realText: RealText, toDouble: ToDouble): nat
    requires Printable(j, realText, toDouble)
  {
    Height(TextOf(j, realText, toDouble))
  }

  // ----- The text is valid and denotes the canonical form -----

  lemma {:induction false} TextIsValid(j: Json, realText: RealText, toDouble: ToDouble)
    requires Printable(j, realText, toDouble) && WellFormed(j)
    ensures ValidText(TextOf(j, realText, toDouble), toDouble) && Denote(TextOf(j, realText, toDouble), toDouble) == Canon(j, realText, toDouble)
    decreases Weight(j), 1, 0
  {
    match j
    case Int(i) => DecimalReads(if i < 0 then -i else i);
    case UInt(u) => DecimalReads(u);
    case Real(r) => NumberTextIsValid(realText(r), End, toDouble);
    case Str(s) => PiecesOfMeaning(s);
    case Array(ms) => ItemsAreValid(ms, 0, realText, toDouble);
    case Object(ms) => FieldsAreValid(ms, Nil, realText, toDouble);
    case _ =>
  }

  lemma {:induction false} ItemsAreValid(ms: Members, i: nat, realText: RealText, toDouble: ToDouble)
    requires PrintableMembers(ms, realText, toDouble) && WellFormedMembers(ms) && i <= ArraySize(ms)
    ensures ValidItems(ItemsOf(ms, i, realText, toDouble), toDouble) && DenoteItems(ItemsOf(ms, i, realText, toDouble), i, toDouble) == CanonItems(ms, i, realText, toDouble)
    decreases MembersWeight(ms), 2, ArraySize(ms) - i
  {
    if i < ArraySize(ms) {
      FetchWeight(ms, Index(i));
      FetchPrintable(ms, Index(i), realText, toDouble);
      FetchWellFormed(ms, Index(i));
      TextIsValid(Fetch(ms, Index(i)).json, realText, toDouble);
      ItemsAreValid(ms, i + 1, realText, toDouble);
    }
  }

  lemma {:induction false} FieldsAreValid(ms: Members, before: Members, realText: RealText, toDouble: ToDouble)
    requires PrintableMembers(ms, realText, toDouble) && WellFormedMembers(ms) && NameKeys(ms) && Sorted(ms)
    requires ms.Cons? ==> Below(before, ms.key)
    ensures ValidFields(FieldsOf(ms, realText, toDouble), toDouble)
    ensures DenoteFields(FieldsOf(ms, realText, toDouble), before, toDouble) == Concat(before, CanonMembers(ms, realText, toDouble))
    decreases MembersWeight(ms), 2, 0
  {
    match ms
    case Nil => ConcatNil(before);
    case Cons(k, v, t) =>
      PiecesOfMeaning(k.name);
      NameKeyIsName(k.name);
      TextIsValid(v.json, realText, toDouble);
      var w := Canon(v.json, realText, toDouble);
      PutBelow(before, k, w);
      if t.Cons? { BelowMore(before, k, w, t.key); }
      FieldsAreValid(t, Put(before, k, w), realText, toDouble);
      ConcatAssociative(before, Cons(k, w, Nil), CanonMembers(t, realText, toDouble));
  }

  // ----- The writers print the text -----

  lemma {:induction false} TokensAreLexemes(j: Json, k: Lexemes, realText: RealText, toDouble: ToDouble)
    requires Printable(j, realText, toDouble) && WellFormed(j)
    ensures Tokens(j, k, false, realText) == Emit(TextOf(j, realText, toDouble), k)
    decreases Weight(j), 1, 0
  {
    hide IsNumberToken, DecodeNumber, Sorted, IndexKeys, NumberText;
    match j
    case Array(ms) =>
      if ArraySize(ms) > 0 { ItemTokensAreLexemes(ms, 0, k, realText, toDouble); }
    case Real(r) => NumberTextIsValid(realText(r), k, toDouble);
    case Object(ms) =>
      if ms.Cons? { MemberTokensAreLexemes(ms, k, realText, toDouble); }
    case _ =>
  }

  lemma {:induction false} ItemTokensAreLexemes(ms: Members, i: nat, k: Lexemes, realText: RealText, toDouble: ToDouble)
    requires PrintableMembers(ms, realText, toDouble) && WellFormedMembers(ms) && i < ArraySize(ms)
    ensures var item := Emit(ItemsOf(ms, i, realText, toDouble).head, EmitItems(ItemsOf(ms, i, realText, toDouble).tail, k));
            ItemTokens(ms, i, k, false, realText) == if i == 0 then item else More(COMMA_LEXEME, item)
    decreases MembersWeight(ms), 2, ArraySize(ms) - i
  {
    FetchWeight(ms, Index(i));
    FetchPrintable(ms, Index(i), realText, toDouble);
    FetchWellFormed(ms, Index(i));
    if i + 1 < ArraySize(ms) { ItemTokensAreLexemes(ms, i + 1, k, realText, toDouble); }
    TokensAreLexemes(Fetch(ms, Index(i)).json, ItemTokens(ms, i + 1, k, false, realText), realText, toDouble);
  }

  lemma {:induction false} MemberTokensAreLexemes(ms: Members, k: Lexemes, realText: RealText, toDouble: ToDouble)
    requires ms.Cons? && PrintableMembers(ms, realText, toDouble) && WellFormedMembers(ms) && NameKeys(ms)
    ensures var Field(n, v, t) := FieldsOf(ms, realText, toDouble);
            var member := More(StringLexemeOf(n), More(COLON_LEXEME, Emit(v, EmitFields(t, k))));
            MemberTokens(ms, true, k, false, realText) == member &&
            MemberTokens(ms, false, k, false, realText) == More(COMMA_LEXEME, member)
    decreases MembersWeight(ms), 2, 0
  {
    var rest := MemberTokens(ms.tail, false, k, false, realText);
    if ms.tail.Cons? { MemberTokensAreLexemes(ms.tail, k, realText, toDouble); }
    assert rest == EmitFields(FieldsOf(ms.tail, realText, toDouble), k);
    TokensAreLexemes(ms.value.json, rest, realText, toDouble);
  }

  /** A document that spells the tokens of a value is read as the value's canonical form. */
  lemma SpelledValueIsRead(doc: bytes, j: Json, root: Value, toDouble: ToDouble, realText: RealText)
    requires Printable(j, realText, toDouble) && WellFormed(j)
    requires Spells(doc, Tokens(j, End, false, realText))
    ensures var r := Parse(doc, root, toDouble);
            if Nesting(j, realText, toDouble) >= STACK_LIMIT then r.Threw? else r.Ok? && Bare(r.value) == Canon(j, realText, toDouble)
  {
    TextIsValid(j, realText, toDouble);
    TokensAreLexemes(j, End, realText, toDouble);
    JsonTextsAreAccepted(doc, TextOf(j, realText, toDouble), root, toDouble);
  }

  /** The document that FastWriter writes spells the tokens of the root. */
  lemma FastDocumentSpells(j: Json, realText: RealText)
    ensures Spells(Flat(Tokens(j, End, false, realText)) + [LF], Tokens(j, End, false, realText))
  {
    var ls := Tokens(j, End, false, realText);
    TokensSolid(j, End, false, realText);
    FlatSpells(ls);
    SpacesSpell([LF], 0);
    SpellsConcat(Flat(ls), 0, ls, [LF], End);
    ThenEnd(ls);
  }

  /** FastWriter::write and then Reader::parse. */
  lemma FastRoundTrip(j: Json, root: Value, toDouble: ToDouble, realText: RealText)
    requires Printable(j, realText, toDouble) && WellFormed(j)
    ensures var r := Parse(Flat(Tokens(j, End, false, realText)) + [LF], root, toDouble);
            if Nesting(j, realText, toDouble) >= STACK_LIMIT then r.Threw? else r.Ok? && Bare(r.value) == Canon(j, realText, toDouble)
  {
    FastDocumentSpells(j, realText);
    SpelledValueIsRead(Flat(Tokens(j, End, false, realText)) + [LF], j, root, toDouble, realText);
  }

  // ----- The two writers agree -----

  /** No name in the value has a NUL byte. */
  predicate NulFreeKeys(j: Json)
    decreases Weight(j), 1, 0
  {
    match j
    case Array(ms) => NulFreeItems(ms, 0)
    case Object(ms) => NulFreeMembers(ms)
    case _ => true
  }

  predicate NulFreeItems(ms: Members, i: nat)
    requires i <= ArraySize(ms)
    decreases MembersWeight(ms), 2, ArraySize(ms) - i
  {
    i == ArraySize(ms) ||
    (FetchWeight(ms, Index(i)); NulFreeKeys(Fetch(ms, Index(i)).json) && NulFreeItems(ms, i + 1))
  }

  predicate NulFreeMembers(ms: Members)
    decreases MembersWeight(ms), 2, 0
  {
    match ms
    case Nil => true
    case Cons(k, v, t) => (k.Name? ==> NUL !in k.name) && NulFreeKeys(v.json) && NulFreeMembers(t)
  }

  /** Both writers print the same tokens exactly when no key has a NUL: StyledWriter cuts keys there. */
  lemma WritersAgree(j: Json, realText: RealText)
    ensures Tokens(j, End, true, realText) == Tokens(j, End, false, realText) <==> NulFreeKeys(j)
  {
    TokensAgree(j, End, End, realText);
  }

  lemma {:induction false} TokensAgree(j: Json, k: Lexemes, k': Lexemes, realText: RealText)
    ensures Tokens(j, k, true, realText) == Tokens(j, k', false, realText) <==> NulFreeKeys(j) && k == k'
    decreases Weight(j), 1, 0
  {
    match j
    case Array(ms) => ItemTokensAgree(ms, 0, k, k', realText);
    case Object(ms) => MemberTokensAgree(ms, true, k, k', realText);
    case _ =>
  }

  lemma {:induction false} ItemTokensAgree(ms: Members, i: nat, k: Lexemes, k': Lexemes, realText: RealText)
    requires i <= ArraySize(ms)
    ensures ItemTokens(ms, i, k, true, realText) == ItemTokens(ms, i, k', false, realText) <==>
            NulFreeItems(ms, i) && k == k'
    decreases MembersWeight(ms), 2, ArraySize(ms) - i
  {
    if i < ArraySize(ms) {
      FetchWeight(ms, Index(i));
      ItemTokensAgree(ms, i + 1, k, k', realText);
      TokensAgree(Fetch(ms, Index(i)).json, ItemTokens(ms, i + 1, k, true, realText),
                  ItemTokens(ms, i + 1, k', false, realText), realText);
    }
  }

  lemma {:induction false} MemberTokensAgree(ms: Members, first: bool, k: Lexemes, k': Lexemes, realText: RealText)
    ensures MemberTokens(ms, first, k, true, realText) == MemberTokens(ms, first, k', false, realText) <==>
            NulFreeMembers(ms) && k == k'
    decreases MembersWeight(ms), 2, 0
  {
    if ms.Cons? {
      KeysAgree(ms.key);
      MemberTokensAgree(ms.tail, false, k, k', realText);
      TokensAgree(ms.value.json, MemberTokens(ms.tail, false, k, true, realText),
                  MemberTokens(ms.tail, false, k', false, realText), realText);
    }
  }

  lemma KeysAgree(k: Key)
    ensures KeyText(k, true) == KeyText(k, false) <==> (k.Name? ==> NUL !in k.name)
  {
    var name := if k.Name? then k.name else [];
    CStringWhole(name);
    if Quoted(CString(name)) == Quoted(name) { QuotedInjective(CString(name), name); }
  }

  // ----- The two layouts are read alike -----

  lemma IntTextIsNumber(i: int)
    ensures IsNumberToken(IntText(i))
  {
    DecimalReads(if i < 0 then -i else i);
    NumberLexeme(i < 0, Decimal(if i < 0 then -i else i));
  }

  lemma KeyIsLexeme(k: Key, asCString: bool)
    ensures KeyText(k, asCString).kind.StringToken? && IsStringToken(KeyText(k, asCString).text)
  {
    var name := if k.Name? then k.name else [];
    QuotedRoundTrip(if asCString then CString(name) else name);
  }

  /** Whatever is printed is a row of lexemes, also where a null string leaves a gap. */
  lemma {:induction false} TokensAreLexical(j: Json, k: Lexemes, asCString: bool, realText: RealText)
    requires Lexical(k) && Delimiter(k)
    ensures Lexical(Tokens(j, k, asCString, realText))
    decreases Weight(j), 1, 0
  {
    hide ItemTokens, MemberTokens;
    match j
    case Array(ms) => ItemTokensAreLexical(ms, 0, k, asCString, realText);
    case Object(ms) => MemberTokensAreLexical(ms, true, k, asCString, realText);
    case NullStr =>
    case _ => ScalarIsLexical(j, k, asCString, realText);
  }

  lemma ScalarIsLexical(j: Json, k: Lexemes, asCString: bool, realText: RealText)
    requires !j.Array? && !j.Object? && !j.NullStr?
    requires Lexical(k) && Delimiter(k)
    ensures Lexical(Tokens(j, k, asCString, realText))
  {
    hide IsStringToken, IsNumberToken, Quoted, IntText, Lexical;
    var l := Tokens(j, k, asCString, realText).head;
    match j {
      case Int(i) => IntTextIsNumber(i);
      case UInt(u) => IntTextIsNumber(u);
      case Real(r) => assert IsNumberToken(realText(r));
      case Str(s) => QuotedRoundTrip(s);
      case _ =>
    }
    LexicalMore(l, k);
  }

  lemma LexicalMore(l: Lexeme, k: Lexemes)
    requires ValidLexeme(l) && Lexical(k) && Delimiter(k)
    ensures Lexical(More(l, k))
  {}

  lemma {:induction false} ItemTokensAreLexical(ms: Members, i: nat, k: Lexemes, asCString: bool, realText: RealText)
    requires Lexical(k) && Delimiter(k) && i <= ArraySize(ms)
    ensures Lexical(ItemTokens(ms, i, k, asCString, realText))
    ensures i > 0 ==> Delimiter(ItemTokens(ms, i, k, asCString, realText))
    decreases MembersWeight(ms), 2, ArraySize(ms) - i
  {
    if i < ArraySize(ms) {
      FetchWeight(ms, Index(i));
      ItemTokensAreLexical(ms, i + 1, k, asCString, realText);
      TokensAreLexical(Fetch(ms, Index(i)).json, ItemTokens(ms, i + 1, k, asCString, realText), asCString, realText);
    }
  }

  lemma {:induction false} MemberTokensAreLexical(ms: Members, first: bool, k: Lexemes, asCString: bool, realText: RealText)
    requires Lexical(k) && Delimiter(k)
    ensures Lexical(MemberTokens(ms, first, k, asCString, realText))
    ensures !first ==> Delimiter(MemberTokens(ms, first, k, asCString, realText))
    decreases MembersWeight(ms), 2, 0
  {
    hide IsStringToken, IsNumberToken, Tokens, KeyText;
    if ms.Cons? {
      KeyIsLexeme(ms.key, asCString);
      MemberTokensAreLexical(ms.tail, false, k, asCString, realText);
      var rest := MemberTokens(ms.tail, false, k, asCString, realText);
      TokensAreLexical(ms.value.json, rest, asCString, realText);
      var named := More(COLON_LEXEME, Tokens(ms.value.json, rest, asCString, realText));
      assert Lexical(named);
      assert Lexical(More(KeyText(ms.key, asCString), named));
    }
  }

  /**
    Layout does not change meaning. Of every value with NUL-free keys, null strings and reals
    included, the documents of the two writers are read alike: as the same tree, with the same
    error, or with the same exception.
  */
  lemma WritersAreReadAlike(j: Json, root: Value, toDouble: ToDouble, realText: RealText)
    requires NulFreeKeys(j)
    ensures Alike(Parse(Flat(Tokens(j, End, false, realText)) + [LF], root, toDouble),
                  Parse(Laid(j, [], realText) + [LF], root, toDouble))
  {
    var ls := Tokens(j, End, false, realText);
    TokensAreLexical(j, End, false, realText);
    WritersAgree(j, realText);
    DocumentSpells(j, realText);
    FastDocumentSpells(j, realText);
    LayoutDoesNotMatter(Flat(ls) + [LF], Laid(j, [], realText) + [LF], ls, root, root, toDouble);
  }

  /** A null string prints nothing, so an array that holds only one is read back as an empty array. */
  lemma NullStringsAreLost(v: Value, root: Value, toDouble: ToDouble, realText: RealText)
    requires v.json == NullStr
    ensures var doc := Flat(Tokens(Array(Cons(Index(0), v, Nil)), End, false, realText));
            doc == [LBRACKET, RBRACKET] && Parse(doc, root, toDouble).Ok? &&
            Bare(Parse(doc, root, toDouble).value).json == Array(Nil)
  {
    var ms := Cons(Index(0), v, Nil);
    assert Fetch(ms, Index(0)) == v && ArraySize(ms) == 1;
    assert ItemTokens(ms, 1, End, false, realText) == More(CLOSE_ARRAY, End);
    assert ItemTokens(ms, 0, End, false, realText) == More(CLOSE_ARRAY, End);
    var doc := Flat(Tokens(Array(ms), End, false, realText));
    assert Flat(More(CLOSE_ARRAY, End)) == [RBRACKET];
    assert doc == [LBRACKET, RBRACKET];
    assert SpellsAt(doc, 2, End);
    assert doc[1..2] == [RBRACKET] && doc[0..1] == [LBRACKET];
    assert SpellsAt(doc, 1, More(CLOSE_ARRAY, End));
    JsonTextsAreAccepted(doc, ArrayText(NoItems), root, toDouble);
  }

  // ----- The classes together -----

  /** A value written by FastWriter and read by Reader. */
  method WriteAndRead(j: Json, writer: FastWriter, reader: Reader) returns (s: Status)
    requires Printable(j, writer.realText, reader.toDouble) && WellFormed(j)
    modifies writer, reader
    ensures if Nesting(j, writer.realText, reader.toDouble) >= STACK_LIMIT then s.Exception?
            else s == Returned(true) && Bare(reader.root) == Canon(j, writer.realText, reader.toDouble) && reader.errors == []
  {
    var text := writer.Write(j);
    s := reader.Parse(text, NULL_VALUE);
    FastRoundTrip(j, NULL_VALUE, reader.toDouble, writer.realText);
  }

  /** The styled document of a value with NUL-free keys is read as the same tree. */
  method WriteStyledAndRead(j: Json, writer: StyledWriter, reader: Reader) returns (s: Status)
    requires Printable(j, writer.realText, reader.toDouble) && WellFormed(j) && NulFreeKeys(j)
    modifies writer, reader
    ensures if Nesting(j, writer.realText, reader.toDouble) >= STACK_LIMIT then s.Exception?
            else s == Returned(true) && Bare(reader.root) == Canon(j, writer.realText, reader.toDouble) && reader.errors == []
  {
    var text := writer.Write(j);
    DocumentSpells(j, writer.realText);
    WritersAgree(j, writer.realText);
    SpelledValueIsRead(text, j, NULL_VALUE, reader.toDouble, writer.realText);
    s := reader.Parse(text, NULL_VALUE);
  }

  /** Any value with NUL-free keys, written by both writers and read back twice. */
  method WriteBothAndRead(j: Json, fast: FastWriter, styled: StyledWriter, reader: Reader)
    returns (s: Status, fromFast: Value, t: Status, fromStyled: Value)
    requires WellFormed(j) && NulFreeKeys(j) && fast.realText == styled.realText
    modifies fast, styled, reader
    ensures s == t && (s.Returned? ==> Bare(fromFast) == Bare(fromStyled))
  {
    var text := fast.Write(j);
    s := reader.Parse(text, NULL_VALUE);
    fromFast := reader.root;
    text := styled.Write(j);
    t := reader.Parse(text, NULL_VALUE);
    fromStyled := reader.root;
    WritersAreReadAlike(j, NULL_VALUE, reader.toDouble, fast.realText);
  }
}
