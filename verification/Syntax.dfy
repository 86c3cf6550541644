/**
  Json::Reader as a functional recursive-descent parser: what readValue, readObject and
  readArray make of the document from a position on, without stack, cursor or shared tree.
*/
module Syntax {
  import opened Bytes
  import opened Diagnostics
  import opened Values
  import opened Numbers
  import opened Strings
  import opened Lexer

  const STACK_LIMIT: nat := 1000

  datatype Error = Error(message: Message, token: Token)

  /** The end of one call: the value left at the current node and the cursor, or an exception. */
  datatype Outcome<T> =
    | Ok(value: T, pos: nat)
    | Fail(value: T, pos: nat, error: Error)
    | Threw

  predicate Within<T>(r: Outcome<T>, lo: nat, hi: nat) { !r.Threw? ==> lo <= r.pos <= hi }

  /** readValue below `depth` containers, at a node that holds `before`. */
  function ParseValue(doc: bytes, pos: nat, depth: nat, before: Value, toDouble: ToDouble): (r: Outcome<Value>)
    requires pos <= |doc|
    ensures Within(r, pos, |doc|)
    ensures r.Ok? ==> r.pos > pos
    decreases |doc| - pos, 0
  {
    if depth >= STACK_LIMIT then Threw
    else
      var t := SkipComments(doc, pos);
      if t.kind.ObjectBegin? then AsObject(ParseMembers(doc, t.end, depth + 1, [], Nil, toDouble), t.start)
      else if t.kind.ArrayBegin? then AsArray(ParseArray(doc, t.end, depth + 1, toDouble), t.start)
      else ParseScalar(doc, t, before, toDouble)
  }

  /** The value that a token other than an opening bracket stands for. */
  function ParseScalar(doc: bytes, t: Token, before: Value, toDouble: ToDouble): (r: Outcome<Value>)
    requires Inside(t, doc)
    requires t.kind.StringToken? ==> IsStringToken(Text(doc, t))
    requires !t.kind.ObjectBegin? && !t.kind.ArrayBegin?
    ensures !r.Threw? && r.pos == t.end
    ensures r.Ok? ==> !t.kind.EndOfStream?
  {
    match t.kind
    case Number =>
      (match DecodeNumber(Text(doc, t), toDouble)
       case None => Fail(before, t.end, Error(NotANumber, t))
       case Some(j) => Ok(Value(j, t.start, t.end), t.end))
    case StringToken =>
      (match DecodeString(Text(doc, t))
       case Failure(m) => Fail(before, t.end, Error(m, t))
       case Success(s) => Ok(Value(Str(s), t.start, t.end), t.end))
    case True => Ok(Value(Bool(true), t.start, t.end), t.end)
    case False => Ok(Value(Bool(false), t.start, t.end), t.end)
    case NullToken => Ok(Value(Null, t.start, t.end), t.end)
    case _ => Fail(Value(before.json, t.start, t.end), t.end, Error(ValueExpected, t))
  }

  function AsObject(r: Outcome<Members>, start: nat): Outcome<Value> {
    match r
    case Threw => Threw
    case Ok(ms, p) => Ok(Value(Object(ms), start, p), p)
    case Fail(ms, p, e) => Fail(Value(Object(ms), start, p), p, e)
  }

  function AsArray(r: Outcome<Members>, start: nat): Outcome<Value> {
    match r
    case Threw => Threw
    case Ok(ms, p) => Ok(Value(Array(ms), start, p), p)
    case Fail(ms, p, e) => Fail(Value(Array(ms), start, p), p, e)
  }

  /** readArray after its bracket. Only white space, no comment, may stand inside an empty array. */
  function ParseArray(doc: bytes, pos: nat, depth: nat, toDouble: ToDouble): (r: Outcome<Members>)
    requires pos <= |doc|
    ensures Within(r, pos, |doc|)
    ensures r.Ok? ==> r.pos > pos
    decreases |doc| - pos, 2
  {
    var p := SpaceEnd(doc, pos);
    if At(doc, p) == RBRACKET then Ok(Nil, p + 1)
    else ParseItems(doc, p, depth, 0, Nil, toDouble)
  }

  /** readArray's loop: element `index` comes next, ms holds the earlier ones. */
  function ParseItems(doc: bytes, pos: nat, depth: nat, index: nat, ms: Members, toDouble: ToDouble): (r: Outcome<Members>)
    requires pos <= |doc|
    ensures Within(r, pos, |doc|)
    ensures r.Ok? ==> r.pos > pos
    decreases |doc| - pos, 1
  {
    var k := Index(index);
    match ParseValue(doc, pos, depth, Fetch(ms, k), toDouble)
    case Threw => Threw
    case Fail(v, p, e) => Fail(Put(ms, k, v), Recover(doc, p, ArrayEnd), e)
    case Ok(v, p) =>
      var t := SkipComments(doc, p);
      if t.kind.ArrayEnd? then Ok(Put(ms, k, v), t.end)
      else if !t.kind.ArraySeparator? then
        Fail(Put(ms, k, v), Recover(doc, t.end, ArrayEnd), Error(MissingCommaOrBracket, t))
      else ParseItems(doc, t.end, depth, index + 1, Put(ms, k, v), toDouble)
  }

  /** readObject's loop: `name` is the previous member's name, ms holds the members read so far. */
  function ParseMembers(doc: bytes, pos: nat, depth: nat, name: bytes, ms: Members, toDouble: ToDouble): (r: Outcome<Members>)
    requires pos <= |doc|
    ensures Within(r, pos, |doc|)
    ensures r.Ok? ==> r.pos > pos
    decreases |doc| - pos, 1
  {
    match NameAt(doc, pos, name)
    case NoMember(p) => Ok(ms, p)
    case BadName(m, t) => Fail(ms, Recover(doc, t.end, ObjectEnd), Error(m, t))
    case Member(n, p) =>
      match ParseNamed(doc, p, depth, n, ms, toDouble)
      case Threw => Threw
      case Fail(ms', q, e) => Fail(ms', q, e)
      case Ok(ms', q) =>
        match SeparatorAt(doc, q)
        case Missing(comma) => Fail(ms', Recover(doc, comma.end, ObjectEnd), Error(MissingCommaOrBrace, comma))
        case Closing(q') => Ok(ms', q')
        case Another(q') => ParseMembers(doc, q', depth, n, ms', toDouble)
  }

  /** What stands where a member may begin. */
  datatype Naming = NoMember(pos: nat) | Member(name: bytes, pos: nat) | BadName(message: Message, token: Token)

  /** A closing brace is accepted first of all, but also after a comma that follows an empty name. */
  function NameAt(doc: bytes, pos: nat, previous: bytes): (n: Naming)
    requires pos <= |doc|
    ensures !n.BadName? ==> pos < n.pos <= |doc|
    ensures n.BadName? ==> pos <= n.token.end <= |doc|
  {
    var t := SkipComments(doc, pos);
    if t.kind.ObjectEnd? && previous == [] then NoMember(t.end)
    else if !t.kind.StringToken? then BadName(MissingBraceOrName, t)
    else
      match DecodeString(Text(doc, t))
      case Failure(m) => BadName(m, t)
      case Success(name) => Member(name, t.end)
  }

  /** What follows a member: the end of the object, or something that lets another member follow. */
  datatype Separator = Closing(pos: nat) | Another(pos: nat) | Missing(token: Token)

  /** The token after a comment passes for a comma, whatever it is. */
  function SeparatorAt(doc: bytes, pos: nat): (s: Separator)
    requires pos <= |doc|
    ensures !s.Missing? ==> pos < s.pos <= |doc|
    ensures s.Missing? ==> pos <= s.token.end <= |doc|
  {
    var comma := Lex(doc, pos);
    if !comma.kind.ObjectEnd? && !comma.kind.ArraySeparator? && !comma.kind.Comment? then Missing(comma)
    else
      var last := SkipComments(doc, pos);
      if last.kind.ObjectEnd? then Closing(last.end) else Another(last.end)
  }

  /** The part of readObject's loop after a name: the colon and the member's value. */
  function ParseNamed(doc: bytes, pos: nat, depth: nat, name: bytes, ms: Members, toDouble: ToDouble): (r: Outcome<Members>)
    requires pos <= |doc|
    ensures Within(r, pos, |doc|)
    ensures r.Ok? ==> r.pos > pos
    decreases |doc| - pos, 1
  {
    var k := NameKey(name);
    var colon := Lex(doc, pos);
    if !colon.kind.MemberSeparator? then
      Fail(ms, Recover(doc, colon.end, ObjectEnd), Error(MissingColon, colon))
    else
      match ParseValue(doc, colon.end, depth, Fetch(ms, k), toDouble)
      case Threw => Threw
      case Fail(v, p, e) => Fail(Put(ms, k, v), Recover(doc, p, ObjectEnd), e)
      case Ok(v, p) => Ok(Put(ms, k, v), p)
  }

  // ----- Where a value is missing -----

  /** The tokens of readValue's default case. */
  predicate IsNoValue(k: Kind) {
    !k.Number? && !k.StringToken? && !k.True? && !k.False? && !k.NullToken?
  }

  /** Only where no value can begin does an error say so. */
  lemma ScalarMessage(doc: bytes, t: Token, before: Value, toDouble: ToDouble)
    requires Inside(t, doc) && (t.kind.StringToken? ==> IsStringToken(Text(doc, t)))
    requires !t.kind.ObjectBegin? && !t.kind.ArrayBegin?
    ensures var r := ParseScalar(doc, t, before, toDouble);
            r.Fail? ==> (r.error.message.ValueExpected? <==> IsNoValue(t.kind))
  {
    if t.kind.StringToken? { DecodingFailsOnEscapes(Text(doc, t), 1); }
  }

  lemma NameMessage(doc: bytes, pos: nat, previous: bytes)
    requires pos <= |doc| && NameAt(doc, pos, previous).BadName?
    ensures !NameAt(doc, pos, previous).message.ValueExpected?
  {
    var t := SkipComments(doc, pos);
    if t.kind.StringToken? { DecodingFailsOnEscapes(Text(doc, t), 1); }
  }

  /** Reader::parse: a document is read as one value; what follows the value is not looked at. */
  function Parse(doc: bytes, root: Value, toDouble: ToDouble): Outcome<Value> {
    ParseValue(doc, 0, 0, root, toDouble)
  }
}
