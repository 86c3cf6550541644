/**
  JSON texts by the grammar of RFC 8259 (sections 2 and 4 to 7): their lexemes, the documents
  that spell them and the values they denote. What a number that is no 64-bit integer denotes
  is left to the conversion of reals.
*/
module Texts {
  import opened Bytes
  import opened Values
  import opened Strings
  import opened Numbers
  import opened Lexer

  datatype Text =
    | TrueText
    | FalseText
    | NullText
    | IntegerText(negative: bool, digits: bytes)
    | DecimalText(text: bytes)
    | StringText(ps: seq<Piece>)
    | ArrayText(items: Items)
    | ObjectText(fields: Fields)

  datatype Items = NoItems | Item(head: Text, tail: Items)

  datatype Fields = NoFields | Field(name: seq<Piece>, value: Text, tail: Fields)

  predicate ValidText(t: Text, toDouble: ToDouble) {
    match t
    case IntegerText(negative, digits) =>
      digits != [] && AllDigits(digits) && Magnitude(digits) <= IntegerLimit(negative)
    case DecimalText(text) => IsNumberToken(text) && !IsInt64Text(text) && toDouble(text).Some?
    case StringText(ps) => ReadablePieces(ps) && |Meaning(ps)| <= STRING_LIMIT
    case ArrayText(items) => ValidItems(items, toDouble)
    case ObjectText(fields) => ValidFields(fields, toDouble)
    case _ => true
  }

  predicate ValidItems(items: Items, toDouble: ToDouble) {
    match items
    case NoItems => true
    case Item(h, t) => ValidText(h, toDouble) && ValidItems(t, toDouble)
  }

  predicate ValidFields(fields: Fields, toDouble: ToDouble) {
    match fields
    case NoFields => true
    case Field(n, v, t) => ReadablePieces(n) && ValidText(v, toDouble) && ValidFields(t, toDouble)
  }

  // ----- Denotation -----

  /** The value of a text: arrays by position, objects by name, where the last of equal names wins. */
  function Denote(t: Text, toDouble: ToDouble): Value
    requires ValidText(t, toDouble)
  {
    match t
    case TrueText => Value(Bool(true), 0, 0)
    case FalseText => Value(Bool(false), 0, 0)
    case NullText => Value(Null, 0, 0)
    case IntegerText(negative, digits) => Value(Retype(negative, Magnitude(digits)), 0, 0)
    case DecimalText(text) => Value(Real(toDouble(text).value), 0, 0)
    case StringText(ps) => Value(Str(Meaning(ps)), 0, 0)
    case ArrayText(items) => Value(Array(DenoteItems(items, 0, toDouble)), 0, 0)
    case ObjectText(fields) => Value(Object(DenoteFields(fields, Nil, toDouble)), 0, 0)
  }

  function DenoteItems(items: Items, i: nat, toDouble: ToDouble): Members
    requires ValidItems(items, toDouble)
  {
    match items
    case NoItems => Nil
    case Item(h, t) => Cons(Index(i), Denote(h, toDouble), DenoteItems(t, i + 1, toDouble))
  }

  function DenoteFields(fields: Fields, before: Members, toDouble: ToDouble): Members
    requires ValidFields(fields, toDouble)
  {
    match fields
    case NoFields => before
    case Field(n, v, t) => DenoteFields(t, Put(before, NameKey(Meaning(n)), Denote(v, toDouble)), toDouble)
  }

  /** The value of the last field whose name makes the key. */
  function LastField(fields: Fields, key: Key, toDouble: ToDouble): Option<Value>
    requires ValidFields(fields, toDouble)
  {
    match fields
    case NoFields => None
    case Field(n, v, t) =>
      var later := LastField(t, key, toDouble);
      if later.Some? || NameKey(Meaning(n)) != key then later else Some(Denote(v, toDouble))
  }

  lemma {:induction false} LastOfEqualNamesWins(fields: Fields, before: Members, key: Key, toDouble: ToDouble)
    requires ValidFields(fields, toDouble) && Sorted(before)
    ensures Sorted(DenoteFields(fields, before, toDouble))
    ensures Find(DenoteFields(fields, before, toDouble), key) ==
            if LastField(fields, key, toDouble).Some? then LastField(fields, key, toDouble) else Find(before, key)
    decreases fields
  {
    match fields
    case NoFields =>
    case Field(n, v, t) =>
      var k := NameKey(Meaning(n));
      SortedPut(before, k, Denote(v, toDouble));
      FindPut(before, k, Denote(v, toDouble), key);
      LastOfEqualNamesWins(t, Put(before, k, Denote(v, toDouble)), key, toDouble);
  }

  /** How many containers enclose the deepest value inside a text. */
  function Height(t: Text): nat {
    match t
    case ArrayText(items) => ItemsHeight(items)
    case ObjectText(fields) => FieldsHeight(fields)
    case _ => 0
  }

  function Max(a: nat, b: nat): nat { if a > b then a else b }

  /** Zero for no items, so that an empty container is no deeper than a scalar. */
  function ItemsHeight(items: Items): nat {
    match items
    case NoItems => 0
    case Item(h, t) => Max(Height(h) + 1, ItemsHeight(t))
  }

  function FieldsHeight(fields: Fields): nat {
    match fields
    case NoFields => 0
    case Field(_, v, t) => Max(Height(v) + 1, FieldsHeight(t))
  }

  // ----- Lexemes -----

  datatype Lexeme = Lexeme(kind: Kind, text: bytes)

  datatype Lexemes = End | More(head: Lexeme, tail: Lexemes)

  const OPEN_ARRAY: Lexeme := Lexeme(ArrayBegin, [LBRACKET])
  const CLOSE_ARRAY: Lexeme := Lexeme(ArrayEnd, [RBRACKET])
  const OPEN_OBJECT: Lexeme := Lexeme(ObjectBegin, [LBRACE])
  const CLOSE_OBJECT: Lexeme := Lexeme(ObjectEnd, [RBRACE])
  const COMMA_LEXEME: Lexeme := Lexeme(ArraySeparator, [COMMA])
  const COLON_LEXEME: Lexeme := Lexeme(MemberSeparator, [COLON])

  function IntegerLexeme(negative: bool, digits: bytes): Lexeme {
    Lexeme(Number, if negative then [MINUS] + digits else digits)
  }

  function StringLexemeOf(ps: seq<Piece>): Lexeme { Lexeme(StringToken, StringLexeme(ps)) }

  /** The lexemes of a text, followed by k. */
  function Emit(t: Text, k: Lexemes): (ls: Lexemes)
    ensures ls.More?
  {
    match t
    case TrueText => More(Lexeme(True, TRUE_TEXT), k)
    case FalseText => More(Lexeme(False, FALSE_TEXT), k)
    case NullText => More(Lexeme(NullToken, NULL_TEXT), k)
    case IntegerText(negative, digits) => More(IntegerLexeme(negative, digits), k)
    case DecimalText(text) => More(Lexeme(Number, text), k)
    case StringText(ps) => More(StringLexemeOf(ps), k)
    case ArrayText(NoItems) => More(OPEN_ARRAY, More(CLOSE_ARRAY, k))
    case ArrayText(Item(h, t)) => More(OPEN_ARRAY, Emit(h, EmitItems(t, k)))
    case ObjectText(NoFields) => More(OPEN_OBJECT, More(CLOSE_OBJECT, k))
    case ObjectText(Field(n, v, t)) =>
      More(OPEN_OBJECT, More(StringLexemeOf(n), More(COLON_LEXEME, Emit(v, EmitFields(t, k)))))
  }

  /** The rest of an array after an element. */
  function EmitItems(items: Items, k: Lexemes): Lexemes {
    match items
    case NoItems => More(CLOSE_ARRAY, k)
    case Item(h, t) => More(COMMA_LEXEME, Emit(h, EmitItems(t, k)))
  }

  /** The rest of an object after a member. */
  function EmitFields(fields: Fields, k: Lexemes): Lexemes {
    match fields
    case NoFields => More(CLOSE_OBJECT, k)
    case Field(n, v, t) =>
      More(COMMA_LEXEME, More(StringLexemeOf(n), More(COLON_LEXEME, Emit(v, EmitFields(t, k)))))
  }

  /** From pos to its end the document is these lexemes, with any white space before and after each. */
  predicate SpellsAt(doc: bytes, pos: nat, ls: Lexemes)
    requires pos <= |doc|
    decreases |doc| - pos, ls
  {
    if pos < |doc| && IsSpace(doc[pos]) then SpellsAt(doc, pos + 1, ls)
    else match ls
      case End => pos == |doc|
      case More(l, tail) => StandsAt(doc, pos, l.text) && SpellsAt(doc, pos + |l.text|, tail)
  }

  /** The document is one JSON text. */
  predicate IsTextOf(doc: bytes, t: Text) { SpellsAt(doc, 0, Emit(t, End)) }

  // ----- One lexeme -----

  predicate ValidLexeme(l: Lexeme) {
    match l.kind
    case ObjectBegin => l.text == [LBRACE]
    case ObjectEnd => l.text == [RBRACE]
    case ArrayBegin => l.text == [LBRACKET]
    case ArrayEnd => l.text == [RBRACKET]
    case ArraySeparator => l.text == [COMMA]
    case MemberSeparator => l.text == [COLON]
    case True => l.text == TRUE_TEXT
    case False => l.text == FALSE_TEXT
    case NullToken => l.text == NULL_TEXT
    case StringToken => IsStringToken(l.text)
    case Number => IsNumberToken(l.text)
    case _ => false
  }

  /** What may follow a value: nothing, a comma or a closing bracket, but nothing that a number swallows. */
  predicate Delimiter(k: Lexemes) {
    k.More? ==> k.head == COMMA_LEXEME || k.head == CLOSE_ARRAY || k.head == CLOSE_OBJECT
  }

  /** What may follow a number: nothing, or anything but another number. */
  predicate EndsNumber(k: Lexemes) { k.More? ==> ValidLexeme(k.head) && !k.head.kind.Number? }

  lemma {:induction false} SpellsAfterSpace(doc: bytes, pos: nat, ls: Lexemes)
    requires pos <= |doc| && SpellsAt(doc, pos, ls)
    ensures SpellsAt(doc, SpaceEnd(doc, pos), ls)
    decreases |doc| - pos
  {
    if pos < |doc| && IsSpace(doc[pos]) { SpellsAfterSpace(doc, pos + 1, ls); }
  }

  lemma {:induction false} DigitRun(doc: bytes, pos: nat, n: nat)
    requires pos + n <= |doc| && AllDigits(doc[pos..pos + n])
    requires !IsDigit(At(doc, pos + n))
    ensures DigitsEnd(doc, pos) == pos + n
    decreases n
  {
    if n > 0 {
      assert doc[pos] == doc[pos..pos + n][0];
      assert doc[pos + 1..pos + n] == doc[pos..pos + n][1..];
      DigitRun(doc, pos + 1, n - 1);
    }
  }

  /** The byte does not go on with a number. */
  predicate EndsNumberByte(c: byte) {
    !IsDigit(c) && c != DOT && c != LOWER_E && c != UPPER_E && c != PLUS && c != MINUS
  }

  lemma ByteAfterNumber(doc: bytes, pos: nat, k: Lexemes)
    requires pos <= |doc| && SpellsAt(doc, pos, k) && EndsNumber(k)
    ensures EndsNumberByte(At(doc, pos))
  {
    if pos < |doc| && !IsSpace(doc[pos]) {
      assert doc[pos] == doc[pos..pos + |k.head.text|][0];
    }
  }

  /** A lexeme with no white space before it is the next token. */
  lemma LexemeHere(doc: bytes, pos: nat, l: Lexeme)
    requires ValidLexeme(l) && StandsAt(doc, pos, l.text)
    requires l.kind.Number? ==> EndsNumberByte(At(doc, pos + |l.text|))
    ensures l.text != [] && doc[pos] == l.text[0] && !IsSpace(doc[pos]) && doc[pos] != SLASH
    ensures KindAndEnd(doc, pos) == (l.kind, pos + |l.text|)
  {
    hide StringEnd, NumberEnd, CommentEnd, EndsNumberByte;
    assert doc[pos] == doc[pos..pos + |l.text|][0];
    if l.kind.StringToken? {
      StringEndInside(doc, pos, l.text, 1);
    } else if l.kind.Number? {
      NumberInside(doc, pos, l.text);
    } else if l.kind.True? || l.kind.False? || l.kind.NullToken? {
      assert doc[pos + 1..pos + |l.text|] == doc[pos..pos + |l.text|][1..];
    }
  }

  lemma {:induction false} DigitsInside(doc: bytes, start: nat, text: bytes, pos: nat)
    requires StandsAt(doc, start, text) && pos <= |text| && EndsNumberByte(At(doc, start + |text|))
    ensures DigitsEnd(doc, start + pos) == start + DigitsEnd(text, pos)
    decreases |text| - pos
  {
    if pos < |text| {
      SameByte(doc, start, text, pos);
      if IsDigit(text[pos]) { DigitsInside(doc, start, text, pos + 1); }
    }
  }

  lemma SameByte(doc: bytes, start: nat, text: bytes, pos: nat)
    requires StandsAt(doc, start, text) && pos < |text|
    ensures doc[start + pos] == text[pos]
  {
    assert doc[start..start + |text|][pos] == doc[start + pos];
  }

  /** A number that stands in a document, before a byte that ends it, is read as by itself. */
  lemma NumberInside(doc: bytes, start: nat, text: bytes)
    requires StandsAt(doc, start, text) && IsNumberToken(text) && EndsNumberByte(At(doc, start + |text|))
    ensures NumberEnd(doc, start + 1) == start + |text|
  {
    hide StandsAt, DigitsEnd, FractionEnd, ExponentEnd;
    DigitsInside(doc, start, text, 1);
    FractionInside(doc, start, text, DigitsEnd(text, 1));
    ExponentInside(doc, start, text, FractionEnd(text, DigitsEnd(text, 1)));
  }

  lemma FractionInside(doc: bytes, start: nat, text: bytes, pos: nat)
    requires StandsAt(doc, start, text) && pos <= |text| && EndsNumberByte(At(doc, start + |text|))
    ensures FractionEnd(doc, start + pos) == start + FractionEnd(text, pos)
  {
    hide StandsAt;
    if pos < |text| {
      SameByte(doc, start, text, pos);
      DigitsInside(doc, start, text, pos + 1);
    }
  }

  lemma ExponentInside(doc: bytes, start: nat, text: bytes, pos: nat)
    requires StandsAt(doc, start, text) && pos <= |text| && EndsNumberByte(At(doc, start + |text|))
    ensures ExponentEnd(doc, start + pos) == start + ExponentEnd(text, pos)
  {
    hide StandsAt;
    if pos < |text| {
      SameByte(doc, start, text, pos);
      DigitsInside(doc, start, text, pos + 1);
      if pos + 1 < |text| {
        SameByte(doc, start, text, pos + 1);
        DigitsInside(doc, start, text, pos + 2);
      }
    }
  }

  /** A fraction as section 6 of RFC 8259 writes it; empty if there is none. */
  function FractionText(digits: bytes): bytes { if digits == [] then [] else [DOT] + digits }

  function ExponentText(e: byte, sign: bytes, digits: bytes): bytes { if digits == [] then [] else [e] + sign + digits }

  /** The numbers of that section are tokens: an optional minus, digits, a fraction, an exponent. */
  lemma RfcNumbersAreTokens(minus: bool, whole: bytes, fraction: bytes, e: byte, sign: bytes, exponent: bytes)
    requires whole != [] && AllDigits(whole) && AllDigits(fraction) && AllDigits(exponent)
    requires (e == LOWER_E || e == UPPER_E) && (sign == [] || sign == [PLUS] || sign == [MINUS])
    ensures IsNumberToken(IntegerLexeme(minus, whole).text + FractionText(fraction) + ExponentText(e, sign, exponent))
  {
    var row, part, power := IntegerLexeme(minus, whole).text, FractionText(fraction), ExponentText(e, sign, exponent);
    var text := row + part + power;
    var a, b := |row|, |row| + |part|;
    assert text[..a] == row && text[a..b] == part && text[b..] == power;
    assert text[0] == row[0];
    assert text[1..1 + (a - 1)] == row[1..];
    assert minus ==> row[1..] == whole;
    assert At(text, b) == if power == [] then NUL else e;
    assert At(text, a) == if part == [] then At(text, b) else DOT;
    hide IntegerLexeme, ExponentText;
    DigitRun(text, 1, a - 1);
    FractionRead(text, a, fraction);
    ExponentRead(text, b, e, sign, exponent);
  }

  lemma FractionRead(text: bytes, pos: nat, digits: bytes)
    requires AllDigits(digits) && StandsAt(text, pos, FractionText(digits))
    requires var c := At(text, pos + |FractionText(digits)|); !IsDigit(c) && c != DOT
    ensures FractionEnd(text, pos) == pos + |FractionText(digits)|
  {
    if digits != [] {
      SameByte(text, pos, FractionText(digits), 0);
      assert text[pos + 1..pos + 1 + |digits|] == text[pos..pos + 1 + |digits|][1..] == digits;
      DigitRun(text, pos + 1, |digits|);
    }
  }

  lemma ExponentRead(text: bytes, pos: nat, e: byte, sign: bytes, digits: bytes)
    requires AllDigits(digits) && pos <= |text| && text[pos..] == ExponentText(e, sign, digits)
    requires (e == LOWER_E || e == UPPER_E) && (sign == [] || sign == [PLUS] || sign == [MINUS])
    ensures ExponentEnd(text, pos) == |text|
  {
    if digits != [] {
      var n := pos + 1 + |sign|;
      assert text[pos] == text[pos..][0];
      assert text[pos + 1] == text[pos..][1];
      assert text[n..n + |digits|] == text[pos..][1 + |sign|..] == digits;
      DigitRun(text, n, |digits|);
    }
  }

  /** Reading a document that spells a lexeme first reads this lexeme. */
  lemma NextLexeme(doc: bytes, pos: nat, l: Lexeme, k: Lexemes) returns (t: Token)
    requires pos <= |doc| && SpellsAt(doc, pos, More(l, k)) && ValidLexeme(l)
    requires l.kind.Number? ==> EndsNumber(k)
    ensures Lex(doc, pos) == t && SkipComments(doc, pos) == t
    ensures t.kind == l.kind && Inside(t, doc) && Lexer.Text(doc, t) == l.text
    ensures t.start == SpaceEnd(doc, pos) && At(doc, t.start) == l.text[0]
    ensures SpellsAt(doc, t.end, k)
  {
    SpellsAfterSpace(doc, pos, More(l, k));
    var start := SpaceEnd(doc, pos);
    assert start < |doc| ==> !IsSpace(doc[start]);
    if l.kind.Number? { ByteAfterNumber(doc, start + |l.text|, k); }
    LexemeHere(doc, start, l);
    t := Lex(doc, pos);
  }
}
