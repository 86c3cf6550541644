/**
  Every JSON text is read as what it denotes, or exceeds the nesting limit, also if it has
  comments where the reader allows them.
*/
module Acceptance {
  import opened Bytes
  import opened Values
  import opened Strings
  import opened Numbers
  import opened Lexer
  import opened Syntax
  import opened Texts
  import opened Comments

  /** Reading has stopped where k begins, with a value whose offset-free form is v. */
  ghost predicate ReadsAs(r: Outcome<Value>, v: Value, doc: bytes, k: Lexemes) {
    r.Ok? && Bare(r.value) == v && r.pos <= |doc| && Remarked(doc, r.pos, k, true)
  }

  ghost predicate MembersReadAs(r: Outcome<Members>, ms: Members, doc: bytes, k: Lexemes) {
    r.Ok? && BareMembers(r.value) == ms && r.pos <= |doc| && Remarked(doc, r.pos, k, true)
  }

  lemma PutAtEnd(ms: Members, i: nat, v: Value, ns: Members)
    requires Below(ms, Index(i))
    ensures Below(Put(ms, Index(i), v), Index(i + 1))
    ensures Concat(BareMembers(Put(ms, Index(i), v)), ns) == Concat(BareMembers(ms), Cons(Index(i), Bare(v), ns))
  {
    PutBelow(ms, Index(i), v);
    BelowMore(ms, Index(i), v, Index(i + 1));
    BarePut(ms, Index(i), v);
    BareBelow(ms, Index(i));
    PutBelow(BareMembers(ms), Index(i), Bare(v));
    ConcatAssociative(BareMembers(ms), Cons(Index(i), Bare(v), Nil), ns);
  }

  lemma BareBelow(ms: Members, k: Key)
    requires Below(ms, k)
    ensures Below(BareMembers(ms), k)
  {}

  /** The first lexeme of a value is no closing bracket. */
  lemma ValueOpens(t: Text, k: Lexemes, toDouble: ToDouble)
    requires ValidText(t, toDouble)
    ensures ValidLexeme(Emit(t, k).head)
    ensures Emit(t, k).head.text[0] != RBRACKET && Emit(t, k).head != COLON_LEXEME
  {
    match t
    case StringText(ps) => StringsAreAccepted(ps);
    case IntegerText(negative, digits) => NumberLexeme(negative, digits);
    case _ =>
  }

  lemma NumberLexeme(negative: bool, digits: bytes)
    requires digits != [] && AllDigits(digits)
    ensures ValidLexeme(IntegerLexeme(negative, digits))
    ensures Unsigned(IntegerLexeme(negative, digits).text) == digits
    ensures IsNegative(IntegerLexeme(negative, digits).text) == negative
  {
    assert IsDigit(digits[0]);
    var text := IntegerLexeme(negative, digits).text;
    assert text[1..1 + (|text| - 1)] == if negative then digits else digits[1..];
    DigitRun(text, 1, |text| - 1);
    if negative {
      assert ([MINUS] + digits)[1..] == digits;
    }
  }

  lemma {:induction false} ScalarIsRead(doc: bytes, pos: nat, depth: nat, before: Value, t: Text, k: Lexemes, toDouble: ToDouble)
    requires ValidText(t, toDouble) && !t.ArrayText? && !t.ObjectText? && Delimiter(k) && depth < STACK_LIMIT
    requires pos <= |doc| && Remarked(doc, pos, Emit(t, k), true)
    ensures ReadsAs(ParseValue(doc, pos, depth, before, toDouble), Denote(t, toDouble), doc, k)
  {
    hide Remarked, Lex, SkipComments, IsStringToken, StringLexeme, DecodeString, NumberEnd;
    ValueOpens(t, k, toDouble);
    var token := NextRemarked(doc, pos, Emit(t, k).head, k, true);
    match t
    case StringText(ps) => StringsAreAccepted(ps);
    case IntegerText(negative, digits) => NumberLexeme(negative, digits);
    case _ =>
  }

  /** A value is read as what it denotes, and throws exactly when it nests beyond the limit. */
  lemma {:induction false} TextIsRead(doc: bytes, pos: nat, depth: nat, before: Value, t: Text, k: Lexemes, toDouble: ToDouble)
    requires ValidText(t, toDouble) && Delimiter(k)
    requires pos <= |doc| && Remarked(doc, pos, Emit(t, k), true)
    ensures var r := ParseValue(doc, pos, depth, before, toDouble);
            if depth + Height(t) >= STACK_LIMIT then r.Threw? else ReadsAs(r, Denote(t, toDouble), doc, k)
    decreases t
  {
    if depth < STACK_LIMIT {
      match t
      case ArrayText(items) => ArrayIsRead(doc, pos, depth, before, items, k, toDouble);
      case ObjectText(fields) => ObjectIsRead(doc, pos, depth, before, fields, k, toDouble);
      case _ => ScalarIsRead(doc, pos, depth, before, t, k, toDouble);
    }
  }

  /** A value whose first token is an opening bracket. */
  lemma ContainerOpens(doc: bytes, pos: nat, depth: nat, before: Value, toDouble: ToDouble)
    requires pos <= |doc| && depth < STACK_LIMIT
    ensures var (t, r) := (SkipComments(doc, pos), ParseValue(doc, pos, depth, before, toDouble));
            (t.kind.ArrayBegin? ==> r == AsArray(ParseArray(doc, t.end, depth + 1, toDouble), t.start)) &&
            (t.kind.ObjectBegin? ==> r == AsObject(ParseMembers(doc, t.end, depth + 1, [], Nil, toDouble), t.start))
  {
    hide ParseArray, ParseMembers, ParseScalar, SkipComments;
  }

  /** The members of a container make the container. */
  lemma ContainerReadsAs(r: Outcome<Members>, start: nat, ms: Members, doc: bytes, k: Lexemes)
    ensures r.Threw? ==> AsArray(r, start).Threw? && AsObject(r, start).Threw?
    ensures MembersReadAs(r, ms, doc, k) ==>
              ReadsAs(AsArray(r, start), Value(Array(ms), 0, 0), doc, k) &&
              ReadsAs(AsObject(r, start), Value(Object(ms), 0, 0), doc, k)
  {}

  /** What follows the opening bracket. */
  function AfterBracket(items: Items, k: Lexemes): Lexemes { Emit(ArrayText(items), k).tail }

  function AfterBrace(fields: Fields, k: Lexemes): Lexemes { Emit(ObjectText(fields), k).tail }

  lemma ArrayOpens(doc: bytes, pos: nat, items: Items, k: Lexemes, toDouble: ToDouble) returns (open: Token)
    requires ValidItems(items, toDouble)
    requires pos <= |doc| && Remarked(doc, pos, Emit(ArrayText(items), k), true)
    ensures SkipComments(doc, pos) == open && open.kind.ArrayBegin?
    ensures open.end <= |doc| && Remarked(doc, open.end, AfterBracket(items, k), items.Item?)
  {
    if items.Item? { ValueOpens(items.head, EmitItems(items.tail, k), toDouble); }
    open := NextRemarked(doc, pos, OPEN_ARRAY, AfterBracket(items, k), true);
  }

  lemma ObjectOpens(doc: bytes, pos: nat, fields: Fields, k: Lexemes) returns (open: Token)
    requires pos <= |doc| && Remarked(doc, pos, Emit(ObjectText(fields), k), true)
    ensures SkipComments(doc, pos) == open && open.kind.ObjectBegin?
    ensures open.end <= |doc| && Remarked(doc, open.end, AfterBrace(fields, k), true)
  {
    open := NextRemarked(doc, pos, OPEN_OBJECT, AfterBrace(fields, k), true);
  }

  lemma {:induction false} ArrayIsRead(doc: bytes, pos: nat, depth: nat, before: Value, items: Items, k: Lexemes, toDouble: ToDouble)
    requires ValidItems(items, toDouble) && Delimiter(k) && depth < STACK_LIMIT
    requires pos <= |doc| && Remarked(doc, pos, Emit(ArrayText(items), k), true)
    ensures var r := ParseValue(doc, pos, depth, before, toDouble);
            if depth + ItemsHeight(items) >= STACK_LIMIT then r.Threw?
            else ReadsAs(r, Value(Array(DenoteItems(items, 0, toDouble)), 0, 0), doc, k)
    decreases items, 3
  {
    hide *;
    var open := ArrayOpens(doc, pos, items, k, toDouble);
    ContainerOpens(doc, pos, depth, before, toDouble);
    ArrayBodyIsRead(doc, open.end, depth + 1, items, k, toDouble);
    ContainerReadsAs(ParseArray(doc, open.end, depth + 1, toDouble), open.start, DenoteItems(items, 0, toDouble), doc, k);
  }

  lemma {:induction false} ArrayBodyIsRead(doc: bytes, pos: nat, depth: nat, items: Items, k: Lexemes, toDouble: ToDouble)
    requires ValidItems(items, toDouble) && Delimiter(k) && depth > 0
    requires pos <= |doc| && Remarked(doc, pos, AfterBracket(items, k), items.Item?)
    requires depth <= STACK_LIMIT
    ensures var r := ParseArray(doc, pos, depth, toDouble);
            if depth - 1 + ItemsHeight(items) >= STACK_LIMIT then r.Threw?
            else MembersReadAs(r, DenoteItems(items, 0, toDouble), doc, k)
    decreases items, 2
  {
    hide ParseArray, MembersReadAs, Remarked, Delimiter;
    match items
    case NoItems => EmptyArrayIsRead(doc, pos, depth, k, toDouble);
    case Item(h, t) => NonemptyArrayIsRead(doc, pos, depth, items, k, toDouble);
  }

  lemma EmptyArrayIsRead(doc: bytes, pos: nat, depth: nat, k: Lexemes, toDouble: ToDouble)
    requires Delimiter(k)
    requires pos <= |doc| && Remarked(doc, pos, More(CLOSE_ARRAY, k), false)
    ensures MembersReadAs(ParseArray(doc, pos, depth, toDouble), Nil, doc, k)
  {
    hide ParseItems;
    var close := NextRemarked(doc, pos, CLOSE_ARRAY, k, false);
  }

  lemma {:induction false} NonemptyArrayIsRead(doc: bytes, pos: nat, depth: nat, items: Items, k: Lexemes, toDouble: ToDouble)
    requires items.Item? && ValidItems(items, toDouble) && Delimiter(k) && depth > 0
    requires pos <= |doc| && Remarked(doc, pos, Emit(items.head, EmitItems(items.tail, k)), true)
    ensures var r := ParseArray(doc, pos, depth, toDouble);
            if depth - 1 + ItemsHeight(items) >= STACK_LIMIT then r.Threw?
            else MembersReadAs(r, DenoteItems(items, 0, toDouble), doc, k)
    decreases items, 1
  {
    hide ParseItems, Remarked, MembersReadAs;
    var rest := Emit(items.head, EmitItems(items.tail, k));
    ValueOpens(items.head, EmitItems(items.tail, k), toDouble);
    FirstByte(doc, pos, rest);
    RemarkedAfterSpace(doc, pos, rest, true);
    ItemsAreRead(doc, SpaceEnd(doc, pos), depth, 0, Nil, items, k, toDouble);
    assert Concat(BareMembers(Nil), DenoteItems(items, 0, toDouble)) == DenoteItems(items, 0, toDouble);
  }

  /** The first byte that is no space begins the lexeme, or a comment before it. */
  lemma FirstByte(doc: bytes, pos: nat, ls: Lexemes)
    requires pos <= |doc| && Remarked(doc, pos, ls, true) && ls.More? && ValidLexeme(ls.head)
    ensures At(doc, SpaceEnd(doc, pos)) == ls.head.text[0] || At(doc, SpaceEnd(doc, pos)) == SLASH
  {
    RemarkedAfterSpace(doc, pos, ls, true);
    var p := SpaceEnd(doc, pos);
    assert p < |doc| ==> !IsSpace(doc[p]);
    if At(doc, p) != SLASH {
      assert StandsAt(doc, p, ls.head.text);
      assert doc[p] == doc[p..p + |ls.head.text|][0];
    }
  }

  lemma {:induction false} ItemsAreRead(doc: bytes, pos: nat, depth: nat, index: nat, ms: Members, items: Items, k: Lexemes, toDouble: ToDouble)
    requires items.Item? && ValidItems(items, toDouble) && Delimiter(k) && Below(ms, Index(index)) && depth > 0
    requires pos <= |doc| && Remarked(doc, pos, Emit(items.head, EmitItems(items.tail, k)), true)
    ensures var r := ParseItems(doc, pos, depth, index, ms, toDouble);
            if depth - 1 + ItemsHeight(items) >= STACK_LIMIT then r.Threw?
            else MembersReadAs(r, Concat(BareMembers(ms), DenoteItems(items, index, toDouble)), doc, k)
    decreases items, 0
  {
    hide ParseValue, Lex, SkipComments, Remarked, Put, Fetch, Recover;
    var Item(h, t) := items;
    var key := Index(index);
    TextIsRead(doc, pos, depth, Fetch(ms, key), h, EmitItems(t, k), toDouble);
    var r := ParseValue(doc, pos, depth, Fetch(ms, key), toDouble);
    if r.Ok? {
      PutAtEnd(ms, index, r.value, DenoteItems(t, index + 1, toDouble));
      match t
      case NoItems =>
        assert ItemsHeight(items) == Height(h) + 1;
        var close := NextRemarked(doc, r.pos, CLOSE_ARRAY, k, true);
        ConcatNil(BareMembers(Put(ms, key, r.value)));
      case Item(h', t') =>
        var comma := NextRemarked(doc, r.pos, COMMA_LEXEME, Emit(h', EmitItems(t', k)), true);
        ItemsAreRead(doc, comma.end, depth, index + 1, Put(ms, key, r.value), t, k, toDouble);
    }
  }

  lemma {:induction false} ObjectIsRead(doc: bytes, pos: nat, depth: nat, before: Value, fields: Fields, k: Lexemes, toDouble: ToDouble)
    requires ValidFields(fields, toDouble) && Delimiter(k) && depth < STACK_LIMIT
    requires pos <= |doc| && Remarked(doc, pos, Emit(ObjectText(fields), k), true)
    ensures var r := ParseValue(doc, pos, depth, before, toDouble);
            if depth + FieldsHeight(fields) >= STACK_LIMIT then r.Threw?
            else ReadsAs(r, Value(Object(DenoteFields(fields, Nil, toDouble)), 0, 0), doc, k)
    decreases fields, 2
  {
    hide *;
    var open := ObjectOpens(doc, pos, fields, k);
    ContainerOpens(doc, pos, depth, before, toDouble);
    ObjectBodyIsRead(doc, open.end, depth + 1, fields, k, toDouble);
    ContainerReadsAs(ParseMembers(doc, open.end, depth + 1, [], Nil, toDouble), open.start, DenoteFields(fields, Nil, toDouble), doc, k);
  }

  lemma {:induction false} ObjectBodyIsRead(doc: bytes, pos: nat, depth: nat, fields: Fields, k: Lexemes, toDouble: ToDouble)
    requires ValidFields(fields, toDouble) && Delimiter(k) && depth > 0
    requires pos <= |doc| && Remarked(doc, pos, AfterBrace(fields, k), true)
    requires depth <= STACK_LIMIT
    ensures var r := ParseMembers(doc, pos, depth, [], Nil, toDouble);
            if depth - 1 + FieldsHeight(fields) >= STACK_LIMIT then r.Threw?
            else MembersReadAs(r, DenoteFields(fields, Nil, toDouble), doc, k)
    decreases fields, 1
  {
    hide ParseMembers, MembersReadAs, Remarked, Delimiter;
    match fields
    case NoFields => EmptyObjectIsRead(doc, pos, depth, k, toDouble);
    case Field(n, v, t) => FieldsAreRead(doc, pos, depth, [], Nil, fields, k, toDouble);
  }

  lemma EmptyObjectIsRead(doc: bytes, pos: nat, depth: nat, k: Lexemes, toDouble: ToDouble)
    requires Delimiter(k)
    requires pos <= |doc| && Remarked(doc, pos, More(CLOSE_OBJECT, k), true)
    ensures MembersReadAs(ParseMembers(doc, pos, depth, [], Nil, toDouble), Nil, doc, k)
  {
    hide ParseNamed;
    var close := NextRemarked(doc, pos, CLOSE_OBJECT, k, true);
  }

  lemma {:induction false} NameIsRead(doc: bytes, pos: nat, previous: bytes, n: seq<Piece>, k: Lexemes)
    requires ReadablePieces(n)
    requires pos <= |doc| && Remarked(doc, pos, More(StringLexemeOf(n), More(COLON_LEXEME, k)), true)
    ensures var r := NameAt(doc, pos, previous);
            r.Member? && r.name == Meaning(n) &&
            Lex(doc, r.pos).kind.MemberSeparator? && Remarked(doc, Lex(doc, r.pos).end, k, MayRemark(COLON_LEXEME, k))
  {
    hide Remarked, Lex, SkipComments, IsStringToken, StringLexeme, DecodeString, Meaning, ReadablePieces;
    StringsAreAccepted(n);
    var name := NextRemarked(doc, pos, StringLexemeOf(n), More(COLON_LEXEME, k), true);
    var colon := NextRemarked(doc, name.end, COLON_LEXEME, k, false);
  }

  lemma {:induction false} FieldsAreRead(doc: bytes, pos: nat, depth: nat, previous: bytes, ms: Members, fields: Fields, k: Lexemes, toDouble: ToDouble)
    requires fields.Field? && ValidFields(fields, toDouble) && Delimiter(k) && depth > 0
    requires pos <= |doc|
    requires Remarked(doc, pos, More(StringLexemeOf(fields.name), More(COLON_LEXEME, Emit(fields.value, EmitFields(fields.tail, k)))), true)
    ensures var r := ParseMembers(doc, pos, depth, previous, ms, toDouble);
            if depth - 1 + FieldsHeight(fields) >= STACK_LIMIT then r.Threw?
            else MembersReadAs(r, DenoteFields(fields, BareMembers(ms), toDouble), doc, k)
    decreases fields, 0
  {
    hide ParseValue, Lex, SkipComments, Remarked, Put, Fetch, Recover;
    var Field(n, v, t) := fields;
    var rest := EmitFields(t, k);
    NameIsRead(doc, pos, previous, n, Emit(v, rest));
    var naming := NameAt(doc, pos, previous);
    var colon := Lex(doc, naming.pos);
    var key := NameKey(naming.name);
    TextIsRead(doc, colon.end, depth, Fetch(ms, key), v, rest, toDouble);
    var r := ParseValue(doc, colon.end, depth, Fetch(ms, key), toDouble);
    if r.Ok? {
      BarePut(ms, key, r.value);
      match t
      case NoFields =>
        assert FieldsHeight(fields) == Height(v) + 1;
        var close := NextRemarked(doc, r.pos, CLOSE_OBJECT, k, true);
      case Field(n', v', t') =>
        var comma := NextRemarked(doc, r.pos, COMMA_LEXEME, rest.tail, true);
        FieldsAreRead(doc, comma.end, depth, naming.name, Put(ms, key, r.value), t, k, toDouble);
    }
  }

  /** The document is one JSON text, with comments where the reader allows them. */
  ghost predicate IsRemarkedTextOf(doc: bytes, t: Text) { Remarked(doc, 0, Emit(t, End), true) }

  /**
    Acceptance: whatever white space and comments stand between its lexemes and whatever the
    caller's value holds, a JSON text parses to its denotation; only nesting beyond the limit throws.
  */
  lemma RemarkedTextsAreAccepted(doc: bytes, t: Text, root: Value, toDouble: ToDouble)
    requires ValidText(t, toDouble) && IsRemarkedTextOf(doc, t)
    ensures var r := Parse(doc, root, toDouble);
            if Height(t) >= STACK_LIMIT then r.Threw? else r.Ok? && Bare(r.value) == Denote(t, toDouble)
  {
    TextIsRead(doc, 0, 0, root, t, End, toDouble);
  }

  /** In particular without comments, as RFC 8259 has it. */
  lemma JsonTextsAreAccepted(doc: bytes, t: Text, root: Value, toDouble: ToDouble)
    requires ValidText(t, toDouble) && IsTextOf(doc, t)
    ensures var r := Parse(doc, root, toDouble);
            if Height(t) >= STACK_LIMIT then r.Threw? else r.Ok? && Bare(r.value) == Denote(t, toDouble)
  {
    SpelledIsRemarked(doc, 0, Emit(t, End), true);
    RemarkedTextsAreAccepted(doc, t, root, toDouble);
  }

  /** Two spellings of one text, with different white space and comments, are read alike. */
  lemma WhiteSpaceDoesNotMatter(doc: bytes, doc': bytes, t: Text, root: Value, root': Value, toDouble: ToDouble)
    requires ValidText(t, toDouble) && IsRemarkedTextOf(doc, t) && IsRemarkedTextOf(doc', t)
    ensures var r, r' := Parse(doc, root, toDouble), Parse(doc', root', toDouble);
            (r.Threw? && r'.Threw?) || (r.Ok? && r'.Ok? && Bare(r.value) == Bare(r'.value))
  {
    RemarkedTextsAreAccepted(doc, t, root, toDouble);
    RemarkedTextsAreAccepted(doc', t, root', toDouble);
  }

  /** In what is read, a name has the value of the last field with that name. */
  lemma LastDuplicateIsRead(doc: bytes, fields: Fields, name: bytes, root: Value, toDouble: ToDouble)
    requires ValidFields(fields, toDouble) && IsRemarkedTextOf(doc, ObjectText(fields)) && FieldsHeight(fields) < STACK_LIMIT
    ensures var r := Parse(doc, root, toDouble);
            r.Ok? && r.value.json.Object? && Find(BareMembers(r.value.json.ms), NameKey(name)) == LastField(fields, NameKey(name), toDouble)
  {
    RemarkedTextsAreAccepted(doc, ObjectText(fields), root, toDouble);
    LastOfEqualNamesWins(fields, Nil, NameKey(name), toDouble);
  }
}
