/** Where Reader differs from the grammar of RFC 8259: what more it accepts, and what it rejects. */
module Leniency {
  import opened Bytes
  import opened Diagnostics
  import opened Unicode
  import opened Values
  import opened Strings
  import opened Numbers
  import opened Lexer
  import opened Syntax
  import opened Texts
  import opened Comments
  import opened Acceptance

  /** { name : value , } */
  function TrailingComma(n: seq<Piece>, v: Text): Lexemes {
    More(OPEN_OBJECT, More(StringLexemeOf(n), More(COLON_LEXEME, Emit(v, AfterValue()))))
  }

  function AfterValue(): Lexemes { More(COMMA_LEXEME, More(CLOSE_OBJECT, End)) }

  /** A comma before the closing brace is accepted if and only if the name before it is empty. */
  lemma TrailingCommaAfterEmptyName(doc: bytes, n: seq<Piece>, v: Text, root: Value, toDouble: ToDouble)
    requires ReadablePieces(n) && ValidText(v, toDouble) && Height(v) + 1 < STACK_LIMIT
    requires Remarked(doc, 0, TrailingComma(n, v), true)
    ensures var r := Parse(doc, root, toDouble);
            if Meaning(n) == [] then
              r.Ok? && Bare(r.value).json == Object(Cons(NameKey([]), Denote(v, toDouble), Nil))
            else r.Fail? && r.error.message == MissingBraceOrName
  {
    hide ParseValue, Lex, SkipComments, Recover, Remarked, ParseNamed, ParseMembers, Denote, Height, NameAt;
    var named := More(StringLexemeOf(n), More(COLON_LEXEME, Emit(v, AfterValue())));
    var open := NextRemarked(doc, 0, OPEN_OBJECT, named, true);
    ContainerOpens(doc, 0, 0, root, toDouble);
    var ms := Cons(NameKey(Meaning(n)), Denote(v, toDouble), Nil);
    FieldIsRead(doc, open.end, n, v, toDouble);
    CommaIsRead(doc, open.end, ms, toDouble);
    ContainerReadsAs(ParseMembers(doc, open.end, 1, [], Nil, toDouble), open.start, ms, doc, End);
  }

  /** The member before the comma. */
  lemma FieldIsRead(doc: bytes, pos: nat, n: seq<Piece>, v: Text, toDouble: ToDouble)
    requires ReadablePieces(n) && ValidText(v, toDouble) && Height(v) + 1 < STACK_LIMIT
    requires pos <= |doc| && Remarked(doc, pos, More(StringLexemeOf(n), More(COLON_LEXEME, Emit(v, AfterValue()))), true)
    ensures var naming := NameAt(doc, pos, []);
            naming.Member? && naming.name == Meaning(n) &&
            MembersReadAs(ParseNamed(doc, naming.pos, 1, naming.name, Nil, toDouble),
                          Cons(NameKey(Meaning(n)), Denote(v, toDouble), Nil), doc, AfterValue())
  {
    hide ParseValue, SkipComments, Lex, Remarked;
    NameIsRead(doc, pos, [], n, Emit(v, AfterValue()));
    var naming := NameAt(doc, pos, []);
    var colon := Lex(doc, naming.pos);
    var key := NameKey(Meaning(n));
    TextIsRead(doc, colon.end, 1, Fetch(Nil, key), v, AfterValue(), toDouble);
    var r := ParseValue(doc, colon.end, 1, Fetch(Nil, key), toDouble);
    assert ParseNamed(doc, naming.pos, 1, naming.name, Nil, toDouble) == Ok(Cons(key, r.value, Nil), r.pos);
    assert BareMembers(Cons(key, r.value, Nil)) == Cons(key, Bare(r.value), Nil);
  }

  /** The comma and the closing brace. */
  lemma CommaIsRead(doc: bytes, pos: nat, ms: Members, toDouble: ToDouble)
    requires pos <= |doc| && NameAt(doc, pos, []).Member?
    requires MembersReadAs(ParseNamed(doc, NameAt(doc, pos, []).pos, 1, NameAt(doc, pos, []).name, Nil, toDouble), ms, doc, AfterValue())
    ensures var r := ParseMembers(doc, pos, 1, [], Nil, toDouble);
            if NameAt(doc, pos, []).name == [] then MembersReadAs(r, ms, doc, End)
            else r.Fail? && r.error.message == MissingBraceOrName
  {
    hide Remarked, Recover, DecodeString, Lex, SkipComments, ParseNamed, StringEnd, NumberEnd;
    var naming := NameAt(doc, pos, []);
    var r := ParseNamed(doc, naming.pos, 1, naming.name, Nil, toDouble);
    var comma := NextRemarked(doc, r.pos, COMMA_LEXEME, More(CLOSE_OBJECT, End), true);
    var close := NextRemarked(doc, comma.end, CLOSE_OBJECT, End, true);
    assert SeparatorAt(doc, r.pos) == Another(comma.end);
    assert NameAt(doc, comma.end, naming.name) == if naming.name == [] then NoMember(close.end) else BadName(MissingBraceOrName, close);
  }

  /** A minus sign alone is the number zero. */
  lemma LoneMinusIsZero(doc: bytes, root: Value, toDouble: ToDouble)
    requires Remarked(doc, 0, More(Lexeme(Number, [MINUS]), End), true)
    ensures Parse(doc, root, toDouble).Ok? && Parse(doc, root, toDouble).value.json == Int(0)
  {
    var _ := NextRemarked(doc, 0, Lexeme(Number, [MINUS]), End, true);
    assert DecodeNumber([MINUS], toDouble) == Some(Int(0));
  }

  /** Behind a member, whatever token follows a comment passes for the comma. */
  lemma AnythingIsACommaAfterComment(doc: bytes, pos: nat)
    requires pos <= |doc| && Lex(doc, pos).kind.Comment?
    ensures var t := SkipComments(doc, pos);
            SeparatorAt(doc, pos) == if t.kind.ObjectEnd? then Closing(t.end) else Another(t.end)
  {
    hide SkipComments;
    assert !SeparatorAt(doc, pos).Missing?;
  }

  /** A comment between a name and its colon is an error. */
  lemma NoCommentBeforeColon(doc: bytes, pos: nat, depth: nat, name: bytes, ms: Members, toDouble: ToDouble)
    requires pos <= |doc| && Lex(doc, pos).kind.Comment?
    ensures var r := ParseNamed(doc, pos, depth, name, ms, toDouble);
            r.Fail? && r.error == Error(MissingColon, Lex(doc, pos)) && r.value == ms
  {}

  /** A comment inside an array without elements is an error. */
  lemma NoCommentInEmptyArray(doc: bytes, pos: nat, depth: nat, toDouble: ToDouble)
    requires pos <= |doc| && depth < STACK_LIMIT
    requires Lex(doc, pos).kind.Comment? && SkipComments(doc, pos).kind.ArrayEnd?
    ensures var r := ParseArray(doc, pos, depth, toDouble);
            r.Fail? && r.error == Error(ValueExpected, SkipComments(doc, pos))
  {
    hide Recover;
    var p := SpaceEnd(doc, pos);
    assert SpaceEnd(doc, p) == p;
    assert Lex(doc, p) == Lex(doc, pos);
    assert SkipComments(doc, p) == SkipComments(doc, pos);
    assert At(doc, p) != RBRACKET;
    var r := ParseValue(doc, p, depth, Fetch(Nil, Index(0)), toDouble);
    assert r.Fail? && r.error == Error(ValueExpected, SkipComments(doc, pos));
  }

  /** A NUL byte inside the document is an end of stream, which is consumed. */
  lemma NulIsAnEndOfStream(doc: bytes, pos: nat)
    requires pos < |doc| && doc[pos] == NUL
    ensures Lex(doc, pos) == Token(EndOfStream, pos, pos + 1)
  {}

  /** Anything may follow the root value. */
  lemma AnythingMayFollow(rest: bytes, root: Value, toDouble: ToDouble)
    ensures Parse(NULL_TEXT + rest, root, toDouble) == Ok(Value(Null, 0, 4), 4)
  {
    var doc := NULL_TEXT + rest;
    assert doc[0] == LOWER_N && doc[1..4] == NULL_TEXT[1..];
    assert SpaceEnd(doc, 0) == 0;
    assert Lex(doc, 0) == Token(NullToken, 0, 4);
  }

  /** The second half of a surrogate pair may be any four digits, although the grammar asks for a low surrogate. */
  lemma SecondHalfIsNotChecked(high: bytes, low: bytes)
    requires IsHex4(high) && IsHighSurrogate(Hex4Value(high)) && IsHex4(low)
    ensures var text := StringLexeme([Pair(high, low)]);
            IsStringToken(text) &&
            DecodeString(text) == Success(CodePointToUtf8(JoinSurrogates(Hex4Value(high), Hex4Value(low))))
    ensures StandardPiece(Pair(high, low)) <==> IsLowSurrogate(Hex4Value(low))
  {
    hide DecodeString, StringLexeme, CodePointToUtf8, IsStringToken;
    var p := Pair(high, low);
    StringsAreAccepted([p]);
    assert Meaning([p]) == PieceMeaning(p) + Meaning([]);
    assert PieceMeaning(p) + [] == PieceMeaning(p);
  }
}
