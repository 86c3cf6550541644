/**
  Two documents that spell the same lexemes, with any white space between them, are read alike:
  they give the same tree, or the same error, or both nest too deeply. This holds whether or not
  the lexemes make up a JSON text.
*/
module Spellings {
  import opened Bytes
  import opened Values
  import opened Strings
  import opened Numbers
  import opened Lexer
  import opened Syntax
  import opened Texts

  /** Lexemes that stay apart without white space between them. */
  predicate Lexical(ls: Lexemes) {
    match ls
    case End => true
    case More(l, t) => ValidLexeme(l) && (l.kind.Number? ==> EndsNumber(t)) && Lexical(t)
  }

  /** From p and from q on the two documents spell the same lexemes. */
  ghost predicate Same(doc: bytes, p: nat, twin: bytes, q: nat, ls: Lexemes) {
    p <= |doc| && q <= |twin| && Lexical(ls) && SpellsAt(doc, p, ls) && SpellsAt(twin, q, ls)
  }

  function Rest(ls: Lexemes): Lexemes { if ls.End? then End else ls.tail }

  /** The same kind of token, with the same text. */
  ghost predicate Twins(doc: bytes, t: Token, twin: bytes, u: Token) {
    Inside(t, doc) && Inside(u, twin) && t.kind == u.kind && Lexer.Text(doc, t) == Lexer.Text(twin, u)
  }

  lemma EndOfLexemes(doc: bytes, p: nat)
    requires p <= |doc| && SpellsAt(doc, p, End)
    ensures Lex(doc, p) == SkipComments(doc, p) == Token(EndOfStream, |doc|, |doc|)
    ensures SpaceEnd(doc, p) == |doc|
  {
    SpellsAfterSpace(doc, p, End);
  }

  lemma NextTokens(doc: bytes, p: nat, twin: bytes, q: nat, ls: Lexemes)
    requires Same(doc, p, twin, q, ls)
    ensures Twins(doc, Lex(doc, p), twin, Lex(twin, q)) && !Lex(doc, p).kind.Comment?
    ensures SkipComments(doc, p) == Lex(doc, p) && SkipComments(twin, q) == Lex(twin, q)
    ensures Same(doc, Lex(doc, p).end, twin, Lex(twin, q).end, Rest(ls))
  {
    match ls
    case End =>
      EndOfLexemes(doc, p);
      EndOfLexemes(twin, q);
    case More(l, t) =>
      var _ := NextLexeme(doc, p, l, t);
      var _ := NextLexeme(twin, q, l, t);
  }

  lemma {:induction false} RecoveryAlike(doc: bytes, p: nat, twin: bytes, q: nat, ls: Lexemes, kind: Kind) returns (ks: Lexemes)
    requires Same(doc, p, twin, q, ls)
    ensures Same(doc, Recover(doc, p, kind), twin, Recover(twin, q, kind), ks)
    decreases |doc| - p
  {
    hide Lex, SkipComments;
    NextTokens(doc, p, twin, q, ls);
    var t, u := Lex(doc, p), Lex(twin, q);
    if t.kind == kind || t.kind.EndOfStream? {
      ks := Rest(ls);
    } else {
      ks := RecoveryAlike(doc, t.end, twin, u.end, Rest(ls), kind);
    }
  }

  // ----- Outcomes -----

  ghost predicate SameError(e: Error, f: Error) { e.message == f.message && e.token.kind == f.token.kind }

  /** The same result, but for source offsets. */
  ghost predicate Alike(r: Outcome<Value>, s: Outcome<Value>) {
    match r
    case Threw => s.Threw?
    case Ok(v, _) => s.Ok? && Bare(v) == Bare(s.value)
    case Fail(v, _, e) => s.Fail? && Bare(v) == Bare(s.value) && SameError(e, s.error)
  }

  ghost predicate MembersAlike(r: Outcome<Members>, s: Outcome<Members>) {
    match r
    case Threw => s.Threw?
    case Ok(ms, _) => s.Ok? && BareMembers(ms) == BareMembers(s.value)
    case Fail(ms, _, e) => s.Fail? && BareMembers(ms) == BareMembers(s.value) && SameError(e, s.error)
  }

  ghost predicate StopAlike<T>(r: Outcome<T>, doc: bytes, s: Outcome<T>, twin: bytes, ks: Lexemes) {
    !r.Threw? && !s.Threw? ==> Same(doc, r.pos, twin, s.pos, ks)
  }

  lemma ScalarAlike(doc: bytes, t: Token, twin: bytes, u: Token, before: Value, before': Value, toDouble: ToDouble)
    requires Twins(doc, t, twin, u) && Bare(before) == Bare(before')
    requires t.kind.StringToken? ==> IsStringToken(Lexer.Text(doc, t))
    requires !t.kind.ObjectBegin? && !t.kind.ArrayBegin?
    ensures Alike(ParseScalar(doc, t, before, toDouble), ParseScalar(twin, u, before', toDouble))
  {
    hide DecodeString, DecodeNumber, IsStringToken;
  }

  lemma {:induction false} ValueAlike(doc: bytes, p: nat, twin: bytes, q: nat, ls: Lexemes, depth: nat, before: Value, before': Value, toDouble: ToDouble) returns (ks: Lexemes)
    requires Same(doc, p, twin, q, ls) && Bare(before) == Bare(before')
    ensures var r, s := ParseValue(doc, p, depth, before, toDouble), ParseValue(twin, q, depth, before', toDouble);
            Alike(r, s) && StopAlike(r, doc, s, twin, ks)
    decreases |doc| - p, 0
  {
    hide Lex, SkipComments, ParseMembers, ParseArray, ParseScalar;
    ks := Rest(ls);
    NextTokens(doc, p, twin, q, ls);
    var t, u := Lex(doc, p), Lex(twin, q);
    if depth < STACK_LIMIT {
      if t.kind.ObjectBegin? {
        ks := ObjectAlike(doc, t.end, twin, u.end, Rest(ls), depth + 1, [], Nil, Nil, toDouble);
      } else if t.kind.ArrayBegin? {
        ks := ArrayAlike(doc, t.end, twin, u.end, Rest(ls), depth + 1, toDouble);
      } else {
        ScalarAlike(doc, t, twin, u, before, before', toDouble);
      }
    }
  }

  lemma {:induction false} ArrayAlike(doc: bytes, p: nat, twin: bytes, q: nat, ls: Lexemes, depth: nat, toDouble: ToDouble) returns (ks: Lexemes)
    requires Same(doc, p, twin, q, ls)
    ensures var r, s := ParseArray(doc, p, depth, toDouble), ParseArray(twin, q, depth, toDouble);
            MembersAlike(r, s) && StopAlike(r, doc, s, twin, ks)
    decreases |doc| - p, 2
  {
    hide ParseItems;
    var p', q' := SpaceEnd(doc, p), SpaceEnd(twin, q);
    SpellsAfterSpace(doc, p, ls);
    SpellsAfterSpace(twin, q, ls);
    FirstByteAlike(doc, p, twin, q, ls);
    if At(doc, p') == RBRACKET {
      ks := Rest(ls);
    } else {
      ks := ItemsAlike(doc, p', twin, q', ls, depth, 0, Nil, Nil, toDouble);
    }
  }

  /** The look at the next byte that tells an empty array. */
  lemma FirstByteAlike(doc: bytes, p: nat, twin: bytes, q: nat, ls: Lexemes)
    requires Same(doc, p, twin, q, ls)
    ensures var p', q' := SpaceEnd(doc, p), SpaceEnd(twin, q);
            At(doc, p') == At(twin, q') &&
            (At(doc, p') == RBRACKET ==> p' < |doc| && q' < |twin| && Same(doc, p' + 1, twin, q' + 1, Rest(ls)))
  {
    match ls
    case End =>
      EndOfLexemes(doc, p);
      EndOfLexemes(twin, q);
    case More(l, t) =>
      var u := NextLexeme(doc, p, l, t);
      var v := NextLexeme(twin, q, l, t);
      if l.text[0] == RBRACKET {
        assert l == CLOSE_ARRAY;
      }
  }

  lemma {:induction false} ItemsAlike(doc: bytes, p: nat, twin: bytes, q: nat, ls: Lexemes, depth: nat, index: nat, ms: Members, ms': Members, toDouble: ToDouble) returns (ks: Lexemes)
    requires Same(doc, p, twin, q, ls) && BareMembers(ms) == BareMembers(ms')
    ensures var r, s := ParseItems(doc, p, depth, index, ms, toDouble), ParseItems(twin, q, depth, index, ms', toDouble);
            MembersAlike(r, s) && StopAlike(r, doc, s, twin, ks)
    decreases |doc| - p, 1
  {
    hide ParseValue, Lex, SkipComments, Recover, Put, Fetch, BareMembers;
    var k := Index(index);
    BareFetch(ms, ms', k);
    ks := ValueAlike(doc, p, twin, q, ls, depth, Fetch(ms, k), Fetch(ms', k), toDouble);
    var r := ParseValue(doc, p, depth, Fetch(ms, k), toDouble);
    var s := ParseValue(twin, q, depth, Fetch(ms', k), toDouble);
    if !r.Threw? {
      BarePut(ms, k, r.value);
      BarePut(ms', k, s.value);
      if r.Fail? {
        ks := RecoveryAlike(doc, r.pos, twin, s.pos, ks, ArrayEnd);
      } else {
        NextTokens(doc, r.pos, twin, s.pos, ks);
        var t, u := Lex(doc, r.pos), Lex(twin, s.pos);
        ks := Rest(ks);
        if t.kind.ArraySeparator? {
          ks := ItemsAlike(doc, t.end, twin, u.end, ks, depth, index + 1, Put(ms, k, r.value), Put(ms', k, s.value), toDouble);
        } else if !t.kind.ArrayEnd? {
          ks := RecoveryAlike(doc, t.end, twin, u.end, ks, ArrayEnd);
        }
      }
    }
  }

  lemma BareFetch(ms: Members, ms': Members, k: Key)
    requires BareMembers(ms) == BareMembers(ms')
    ensures Bare(Fetch(ms, k)) == Bare(Fetch(ms', k))
  {
    BareFind(ms, k);
    BareFind(ms', k);
  }

  /** What stands where a member may begin, up to the place of an error. */
  ghost predicate NamesAlike(n: Naming, m: Naming) {
    match n
    case NoMember(_) => m.NoMember?
    case Member(name, _) => m.Member? && m.name == name
    case BadName(message, t) => m.BadName? && m.message == message && m.token.kind == t.kind
  }

  function NamePos(n: Naming): nat { if n.BadName? then n.token.end else n.pos }

  lemma NameAlike(doc: bytes, p: nat, twin: bytes, q: nat, ls: Lexemes, previous: bytes)
    requires Same(doc, p, twin, q, ls)
    ensures var n, m := NameAt(doc, p, previous), NameAt(twin, q, previous);
            NamesAlike(n, m) && Same(doc, NamePos(n), twin, NamePos(m), Rest(ls))
  {
    hide Lex, SkipComments, DecodeString;
    NextTokens(doc, p, twin, q, ls);
  }

  ghost predicate SeparatorsAlike(n: Separator, m: Separator) {
    match n
    case Closing(_) => m.Closing?
    case Another(_) => m.Another?
    case Missing(t) => m.Missing? && m.token.kind == t.kind
  }

  function SeparatorPos(n: Separator): nat { if n.Missing? then n.token.end else n.pos }

  lemma SeparatorAlike(doc: bytes, p: nat, twin: bytes, q: nat, ls: Lexemes)
    requires Same(doc, p, twin, q, ls)
    ensures var n, m := SeparatorAt(doc, p), SeparatorAt(twin, q);
            SeparatorsAlike(n, m) && Same(doc, SeparatorPos(n), twin, SeparatorPos(m), Rest(ls))
  {
    hide Lex, SkipComments;
    NextTokens(doc, p, twin, q, ls);
  }

  lemma {:induction false} ObjectAlike(doc: bytes, p: nat, twin: bytes, q: nat, ls: Lexemes, depth: nat, name: bytes, ms: Members, ms': Members, toDouble: ToDouble) returns (ks: Lexemes)
    requires Same(doc, p, twin, q, ls) && BareMembers(ms) == BareMembers(ms')
    ensures var r, s := ParseMembers(doc, p, depth, name, ms, toDouble), ParseMembers(twin, q, depth, name, ms', toDouble);
            MembersAlike(r, s) && StopAlike(r, doc, s, twin, ks)
    decreases |doc| - p, 2
  {
    hide ParseNamed, NameAt, SeparatorAt, Recover, BareMembers, Lexical, SpellsAt;
    NameAlike(doc, p, twin, q, ls, name);
    var n, m := NameAt(doc, p, name), NameAt(twin, q, name);
    ks := Rest(ls);
    if n.BadName? {
      ks := RecoveryAlike(doc, n.token.end, twin, m.token.end, ks, ObjectEnd);
    } else if n.Member? {
      ks := NamedAlike(doc, n.pos, twin, m.pos, ks, depth, n.name, ms, ms', toDouble);
      var r := ParseNamed(doc, n.pos, depth, n.name, ms, toDouble);
      var s := ParseNamed(twin, m.pos, depth, n.name, ms', toDouble);
      if r.Ok? {
        SeparatorAlike(doc, r.pos, twin, s.pos, ks);
        var c, d := SeparatorAt(doc, r.pos), SeparatorAt(twin, s.pos);
        ks := Rest(ks);
        if c.Missing? {
          ks := RecoveryAlike(doc, c.token.end, twin, d.token.end, ks, ObjectEnd);
        } else if c.Another? {
          ks := ObjectAlike(doc, c.pos, twin, d.pos, ks, depth, n.name, r.value, s.value, toDouble);
        }
      }
    }
  }

  lemma {:induction false} NamedAlike(doc: bytes, p: nat, twin: bytes, q: nat, ls: Lexemes, depth: nat, name: bytes, ms: Members, ms': Members, toDouble: ToDouble) returns (ks: Lexemes)
    requires Same(doc, p, twin, q, ls) && BareMembers(ms) == BareMembers(ms')
    ensures var r, s := ParseNamed(doc, p, depth, name, ms, toDouble), ParseNamed(twin, q, depth, name, ms', toDouble);
            MembersAlike(r, s) && StopAlike(r, doc, s, twin, ks)
    decreases |doc| - p, 1
  {
    hide ParseValue, Lex, SkipComments, Recover, Put, Fetch, BareMembers;
    var k := NameKey(name);
    NextTokens(doc, p, twin, q, ls);
    var t, u := Lex(doc, p), Lex(twin, q);
    ks := Rest(ls);
    if !t.kind.MemberSeparator? {
      ks := RecoveryAlike(doc, t.end, twin, u.end, ks, ObjectEnd);
    } else {
      BareFetch(ms, ms', k);
      ks := ValueAlike(doc, t.end, twin, u.end, ks, depth, Fetch(ms, k), Fetch(ms', k), toDouble);
      var r := ParseValue(doc, t.end, depth, Fetch(ms, k), toDouble);
      var s := ParseValue(twin, u.end, depth, Fetch(ms', k), toDouble);
      if !r.Threw? {
        BarePut(ms, k, r.value);
        BarePut(ms', k, s.value);
        if r.Fail? { ks := RecoveryAlike(doc, r.pos, twin, s.pos, ks, ObjectEnd); }
      }
    }
  }

  /** Two documents with the same lexemes are read alike. */
  lemma LayoutDoesNotMatter(doc: bytes, twin: bytes, ls: Lexemes, root: Value, root': Value, toDouble: ToDouble)
    requires Lexical(ls) && SpellsAt(doc, 0, ls) && SpellsAt(twin, 0, ls) && Bare(root) == Bare(root')
    ensures Alike(Parse(doc, root, toDouble), Parse(twin, root', toDouble))
  {
    var _ := ValueAlike(doc, 0, twin, 0, ls, 0, root, root', toDouble);
  }
}
