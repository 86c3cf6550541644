/**
  Two documents with a common beginning are read alike as long as reading stays a few bytes away
  from its end. So an error is final: whatever follows, it is the same error.
*/
module Prefixes {
  import opened Bytes
  import opened Values
  import opened Strings
  import opened Numbers
  import opened Lexer
  import opened Syntax

  /** How far the lexer looks beyond the end of a token: the longest word is false. */
  const LOOK: nat := 4

  /** The first e bytes are the same. */
  ghost predicate Agree(doc: bytes, twin: bytes, e: nat) {
    e <= |doc| && e <= |twin| && doc[..e] == twin[..e]
  }

  lemma AgreeAt(doc: bytes, twin: bytes, e: nat, p: nat)
    requires Agree(doc, twin, e) && p < e
    ensures doc[p] == twin[p]
  {
    assert doc[..e][p] == twin[..e][p];
  }

  lemma {:induction false} SpaceAgrees(doc: bytes, twin: bytes, e: nat, p: nat)
    requires Agree(doc, twin, e) && p <= |doc| && SpaceEnd(doc, p) < e
    ensures p <= |twin| && SpaceEnd(twin, p) == SpaceEnd(doc, p)
    decreases |doc| - p
  {
    AgreeAt(doc, twin, e, p);
    if IsSpace(doc[p]) { SpaceAgrees(doc, twin, e, p + 1); }
  }

  lemma {:induction false} DigitsAgree(doc: bytes, twin: bytes, e: nat, p: nat)
    requires Agree(doc, twin, e) && p <= |doc| && DigitsEnd(doc, p) < e
    ensures p <= |twin| && DigitsEnd(twin, p) == DigitsEnd(doc, p)
    decreases |doc| - p
  {
    AgreeAt(doc, twin, e, p);
    if IsDigit(doc[p]) { DigitsAgree(doc, twin, e, p + 1); }
  }

  lemma NumberAgrees(doc: bytes, twin: bytes, e: nat, p: nat)
    requires Agree(doc, twin, e) && p <= |doc| && NumberEnd(doc, p) + LOOK <= e
    ensures p <= |twin| && NumberEnd(twin, p) == NumberEnd(doc, p)
  {
    var whole := DigitsEnd(doc, p);
    var fraction := FractionEnd(doc, whole);
    DigitsAgree(doc, twin, e, p);
    AgreeAt(doc, twin, e, whole);
    if doc[whole] == DOT { DigitsAgree(doc, twin, e, whole + 1); }
    assert FractionEnd(twin, whole) == fraction;
    AgreeAt(doc, twin, e, fraction);
    AgreeAt(doc, twin, e, fraction + 1);
    if doc[fraction] == LOWER_E || doc[fraction] == UPPER_E {
      if doc[fraction + 1] == PLUS || doc[fraction + 1] == MINUS {
        DigitsAgree(doc, twin, e, fraction + 2);
      } else {
        DigitsAgree(doc, twin, e, fraction + 1);
      }
    }
  }

  lemma {:induction false} StringAgrees(doc: bytes, twin: bytes, e: nat, p: nat)
    requires Agree(doc, twin, e) && p <= |doc|
    requires StringEnd(doc, p).Some? && StringEnd(doc, p).value <= e
    ensures p <= |twin| && StringEnd(twin, p) == StringEnd(doc, p)
    decreases |doc| - p
  {
    AgreeAt(doc, twin, e, p);
    if doc[p] == BACKSLASH { StringAgrees(doc, twin, e, p + 2); }
    else if doc[p] != QUOTE { StringAgrees(doc, twin, e, p + 1); }
  }

  lemma {:induction false} BlockAgrees(doc: bytes, twin: bytes, e: nat, p: nat)
    requires Agree(doc, twin, e) && p <= |doc| && BlockEnd(doc, p) < e
    ensures p <= |twin| && BlockEnd(twin, p) == BlockEnd(doc, p)
    decreases |doc| - p
  {
    AgreeAt(doc, twin, e, p);
    if p + 1 < e { AgreeAt(doc, twin, e, p + 1); }
    if !(doc[p] == STAR && At(doc, p + 1) == SLASH) { BlockAgrees(doc, twin, e, p + 1); }
  }

  lemma {:induction false} LineAgrees(doc: bytes, twin: bytes, e: nat, p: nat)
    requires Agree(doc, twin, e) && p <= |doc| && LineEnd(doc, p) < e
    ensures p <= |twin| && LineEnd(twin, p) == LineEnd(doc, p)
    decreases |doc| - p
  {
    AgreeAt(doc, twin, e, p);
    if doc[p] == CR { AgreeAt(doc, twin, e, p + 1); }
    else if doc[p] != LF { LineAgrees(doc, twin, e, p + 1); }
  }

  lemma CommentAgrees(doc: bytes, twin: bytes, e: nat, p: nat)
    requires Agree(doc, twin, e) && p <= |doc| && CommentEnd(doc, p).1 + LOOK <= e
    ensures p <= |twin| && CommentEnd(twin, p) == CommentEnd(doc, p)
  {
    AgreeAt(doc, twin, e, p);
    if doc[p] == STAR { BlockAgrees(doc, twin, e, p + 1); }
    else if doc[p] == SLASH { LineAgrees(doc, twin, e, p + 1); }
  }

  lemma WordAgrees(doc: bytes, twin: bytes, e: nat, p: nat, word: bytes)
    requires Agree(doc, twin, e) && p + |word| <= e
    ensures StandsAt(twin, p, word) <==> StandsAt(doc, p, word)
  {
    assert doc[p..p + |word|] == doc[..e][p..p + |word|];
    assert twin[p..p + |word|] == twin[..e][p..p + |word|];
  }

  lemma KindAgrees(doc: bytes, twin: bytes, e: nat, p: nat)
    requires Agree(doc, twin, e) && p <= |doc| && KindAndEnd(doc, p).1 + LOOK <= e
    ensures p <= |twin| && KindAndEnd(twin, p) == KindAndEnd(doc, p)
  {
    hide StringEnd, NumberEnd, CommentEnd, StandsAt;
    AgreeAt(doc, twin, e, p);
    var c := doc[p];
    if c == QUOTE {
      StringAgrees(doc, twin, e, p + 1);
    } else if c == SLASH {
      CommentAgrees(doc, twin, e, p + 1);
    } else if IsDigit(c) || c == MINUS {
      NumberAgrees(doc, twin, e, p + 1);
    } else if c == LOWER_T {
      WordAgrees(doc, twin, e, p + 1, TRUE_TEXT[1..]);
    } else if c == LOWER_F {
      WordAgrees(doc, twin, e, p + 1, FALSE_TEXT[1..]);
    } else if c == LOWER_N {
      WordAgrees(doc, twin, e, p + 1, NULL_TEXT[1..]);
    }
  }

  lemma LexAgrees(doc: bytes, twin: bytes, e: nat, p: nat)
    requires Agree(doc, twin, e) && p <= |doc| && Lex(doc, p).end + LOOK <= e
    ensures p <= |twin| && Lex(twin, p) == Lex(doc, p)
    ensures Text(twin, Lex(twin, p)) == Text(doc, Lex(doc, p))
  {
    hide KindAndEnd, SpaceEnd;
    SpaceAgrees(doc, twin, e, p);
    KindAgrees(doc, twin, e, SpaceEnd(doc, p));
    var t := Lex(doc, p);
    assert doc[t.start..t.end] == doc[..e][t.start..t.end];
    assert twin[t.start..t.end] == twin[..e][t.start..t.end];
  }

  lemma {:induction false} SkipAgrees(doc: bytes, twin: bytes, e: nat, p: nat)
    requires Agree(doc, twin, e) && p <= |doc| && SkipComments(doc, p).end + LOOK <= e
    ensures p <= |twin| && SkipComments(twin, p) == SkipComments(doc, p)
    ensures Text(twin, SkipComments(twin, p)) == Text(doc, SkipComments(doc, p))
    decreases |doc| - p
  {
    hide Lex, IsStringToken, Text;
    LexAgrees(doc, twin, e, p);
    if Lex(doc, p).kind.Comment? { SkipAgrees(doc, twin, e, Lex(doc, p).end); }
  }

  // ----- Values -----

  /** Where reading is decided: the end of the value, or the end of the token that is wrong. */
  function Decided<T>(r: Outcome<T>): nat
    requires !r.Threw?
  {
    if r.Ok? then r.pos else r.error.token.end
  }

  /** The same value or the same error; where recovery stops is not compared. */
  predicate SameOutcome<T(==)>(r: Outcome<T>, q: Outcome<T>) {
    match r
    case Threw => q.Threw?
    case Ok(_, _) => q == r
    case Fail(_, _, x) => q.Fail? && q.error == x
  }

  lemma {:induction false} ValueAgrees(doc: bytes, twin: bytes, e: nat, p: nat, depth: nat, before: Value, toDouble: ToDouble)
    requires Agree(doc, twin, e) && p <= |doc|
    requires var r := ParseValue(doc, p, depth, before, toDouble); !r.Threw? && Decided(r) + LOOK <= e
    ensures p <= |twin|
    ensures SameOutcome(ParseValue(doc, p, depth, before, toDouble), ParseValue(twin, p, depth, before, toDouble))
    decreases |doc| - p, 0
  {
    hide SkipComments, ParseMembers, ParseArray, DecodeNumber, DecodeString;
    var t := SkipComments(doc, p);
    if t.kind.ObjectBegin? {
      assert t.end + LOOK <= e by { MembersDecidedLater(doc, t.end, depth + 1, [], Nil, toDouble); }
      SkipAgrees(doc, twin, e, p);
      MembersAgree(doc, twin, e, t.end, depth + 1, [], Nil, toDouble);
    } else if t.kind.ArrayBegin? {
      assert t.end + LOOK <= e by { ArrayDecidedLater(doc, t.end, depth + 1, toDouble); }
      SkipAgrees(doc, twin, e, p);
      ArrayAgrees(doc, twin, e, t.end, depth + 1, toDouble);
    } else {
      SkipAgrees(doc, twin, e, p);
    }
  }

  lemma {:induction false} ValueDecidedLater(doc: bytes, p: nat, depth: nat, before: Value, toDouble: ToDouble)
    requires p <= |doc| && !ParseValue(doc, p, depth, before, toDouble).Threw?
    ensures p <= Decided(ParseValue(doc, p, depth, before, toDouble))
    decreases |doc| - p, 0
  {
    hide SkipComments, ParseMembers, ParseArray, DecodeNumber, DecodeString;
    var t := SkipComments(doc, p);
    if t.kind.ObjectBegin? {
      MembersDecidedLater(doc, t.end, depth + 1, [], Nil, toDouble);
    } else if t.kind.ArrayBegin? {
      ArrayDecidedLater(doc, t.end, depth + 1, toDouble);
    }
  }

  lemma {:induction false} ArrayDecidedLater(doc: bytes, p: nat, depth: nat, toDouble: ToDouble)
    requires p <= |doc| && !ParseArray(doc, p, depth, toDouble).Threw?
    ensures p <= Decided(ParseArray(doc, p, depth, toDouble))
    decreases |doc| - p, 2
  {
    hide SpaceEnd, ParseItems;
    if At(doc, SpaceEnd(doc, p)) != RBRACKET { ItemsDecidedLater(doc, SpaceEnd(doc, p), depth, 0, Nil, toDouble); }
  }

  lemma {:induction false} ItemsDecidedLater(doc: bytes, p: nat, depth: nat, index: nat, ms: Members, toDouble: ToDouble)
    requires p <= |doc| && !ParseItems(doc, p, depth, index, ms, toDouble).Threw?
    ensures p <= Decided(ParseItems(doc, p, depth, index, ms, toDouble))
    decreases |doc| - p, 1
  {
    hide ParseValue, SkipComments, Put, Fetch, Recover;
    var k := Index(index);
    ValueDecidedLater(doc, p, depth, Fetch(ms, k), toDouble);
    var r := ParseValue(doc, p, depth, Fetch(ms, k), toDouble);
    if r.Ok? {
      var t := SkipComments(doc, r.pos);
      if t.kind.ArraySeparator? { ItemsDecidedLater(doc, t.end, depth, index + 1, Put(ms, k, r.value), toDouble); }
    }
  }

  lemma {:induction false} MembersDecidedLater(doc: bytes, p: nat, depth: nat, name: bytes, ms: Members, toDouble: ToDouble)
    requires p <= |doc| && !ParseMembers(doc, p, depth, name, ms, toDouble).Threw?
    ensures p <= Decided(ParseMembers(doc, p, depth, name, ms, toDouble))
    decreases |doc| - p, 2
  {
    hide ParseNamed, NameAt, SeparatorAt, Recover;
    var naming := NameAt(doc, p, name);
    if naming.Member? {
      NamedDecidedLater(doc, naming.pos, depth, naming.name, ms, toDouble);
      var r := ParseNamed(doc, naming.pos, depth, naming.name, ms, toDouble);
      if r.Ok? && SeparatorAt(doc, r.pos).Another? {
        MembersDecidedLater(doc, SeparatorAt(doc, r.pos).pos, depth, naming.name, r.value, toDouble);
      }
    }
  }

  lemma {:induction false} NamedDecidedLater(doc: bytes, p: nat, depth: nat, name: bytes, ms: Members, toDouble: ToDouble)
    requires p <= |doc| && !ParseNamed(doc, p, depth, name, ms, toDouble).Threw?
    ensures p <= Decided(ParseNamed(doc, p, depth, name, ms, toDouble))
    decreases |doc| - p, 1
  {
    hide ParseValue, Lex, Put, Fetch, Recover;
    var colon := Lex(doc, p);
    if colon.kind.MemberSeparator? { ValueDecidedLater(doc, colon.end, depth, Fetch(ms, NameKey(name)), toDouble); }
  }

  lemma {:induction false} ArrayAgrees(doc: bytes, twin: bytes, e: nat, p: nat, depth: nat, toDouble: ToDouble)
    requires Agree(doc, twin, e) && p <= |doc|
    requires var r := ParseArray(doc, p, depth, toDouble); !r.Threw? && Decided(r) + LOOK <= e
    ensures p <= |twin|
    ensures SameOutcome(ParseArray(doc, p, depth, toDouble), ParseArray(twin, p, depth, toDouble))
    decreases |doc| - p, 2
  {
    hide SpaceEnd, ParseItems;
    var q := SpaceEnd(doc, p);
    if At(doc, q) != RBRACKET { ItemsDecidedLater(doc, q, depth, 0, Nil, toDouble); }
    SpaceAgrees(doc, twin, e, p);
    AgreeAt(doc, twin, e, q);
    if At(doc, q) != RBRACKET { ItemsAgree(doc, twin, e, q, depth, 0, Nil, toDouble); }
  }

  lemma {:induction false} ItemsAgree(doc: bytes, twin: bytes, e: nat, p: nat, depth: nat, index: nat, ms: Members, toDouble: ToDouble)
    requires Agree(doc, twin, e) && p <= |doc|
    requires var r := ParseItems(doc, p, depth, index, ms, toDouble); !r.Threw? && Decided(r) + LOOK <= e
    ensures p <= |twin|
    ensures SameOutcome(ParseItems(doc, p, depth, index, ms, toDouble), ParseItems(twin, p, depth, index, ms, toDouble))
    decreases |doc| - p, 1
  {
    hide ParseValue, SkipComments, Put, Fetch, Recover;
    var k := Index(index);
    var r := ParseValue(doc, p, depth, Fetch(ms, k), toDouble);
    if r.Ok? {
      var t := SkipComments(doc, r.pos);
      if t.kind.ArraySeparator? { ItemsDecidedLater(doc, t.end, depth, index + 1, Put(ms, k, r.value), toDouble); }
      ValueAgrees(doc, twin, e, p, depth, Fetch(ms, k), toDouble);
      SkipAgrees(doc, twin, e, r.pos);
      if t.kind.ArraySeparator? { ItemsAgree(doc, twin, e, t.end, depth, index + 1, Put(ms, k, r.value), toDouble); }
    } else {
      ValueAgrees(doc, twin, e, p, depth, Fetch(ms, k), toDouble);
    }
  }

  lemma NameAgrees(doc: bytes, twin: bytes, e: nat, p: nat, previous: bytes)
    requires Agree(doc, twin, e) && p <= |doc|
    requires var n := NameAt(doc, p, previous); (if n.BadName? then n.token.end else n.pos) + LOOK <= e
    ensures p <= |twin| && NameAt(twin, p, previous) == NameAt(doc, p, previous)
  {
    hide SkipComments, DecodeString;
    SkipAgrees(doc, twin, e, p);
  }

  lemma SeparatorAgrees(doc: bytes, twin: bytes, e: nat, p: nat)
    requires Agree(doc, twin, e) && p <= |doc|
    requires var s := SeparatorAt(doc, p); (if s.Missing? then s.token.end else s.pos) + LOOK <= e
    ensures p <= |twin| && SeparatorAt(twin, p) == SeparatorAt(doc, p)
  {
    SkipCommentsAfter(doc, p);
    hide SkipComments, Lex;
    LexAgrees(doc, twin, e, p);
    if !SeparatorAt(doc, p).Missing? { SkipAgrees(doc, twin, e, p); }
  }

  lemma {:induction false} MembersAgree(doc: bytes, twin: bytes, e: nat, p: nat, depth: nat, name: bytes, ms: Members, toDouble: ToDouble)
    requires Agree(doc, twin, e) && p <= |doc|
    requires var r := ParseMembers(doc, p, depth, name, ms, toDouble); !r.Threw? && Decided(r) + LOOK <= e
    ensures p <= |twin|
    ensures SameOutcome(ParseMembers(doc, p, depth, name, ms, toDouble), ParseMembers(twin, p, depth, name, ms, toDouble))
    decreases |doc| - p, 2
  {
    hide ParseNamed, NameAt, SeparatorAt, Recover;
    var naming := NameAt(doc, p, name);
    if naming.Member? {
      NamedDecidedLater(doc, naming.pos, depth, naming.name, ms, toDouble);
      var r := ParseNamed(doc, naming.pos, depth, naming.name, ms, toDouble);
      if r.Ok? && SeparatorAt(doc, r.pos).Another? {
        MembersDecidedLater(doc, SeparatorAt(doc, r.pos).pos, depth, naming.name, r.value, toDouble);
      }
      NameAgrees(doc, twin, e, p, name);
      NamedAgrees(doc, twin, e, naming.pos, depth, naming.name, ms, toDouble);
      if r.Ok? {
        SeparatorAgrees(doc, twin, e, r.pos);
        if SeparatorAt(doc, r.pos).Another? {
          MembersAgree(doc, twin, e, SeparatorAt(doc, r.pos).pos, depth, naming.name, r.value, toDouble);
        }
      }
    } else {
      NameAgrees(doc, twin, e, p, name);
    }
  }

  lemma {:induction false} NamedAgrees(doc: bytes, twin: bytes, e: nat, p: nat, depth: nat, name: bytes, ms: Members, toDouble: ToDouble)
    requires Agree(doc, twin, e) && p <= |doc|
    requires var r := ParseNamed(doc, p, depth, name, ms, toDouble); !r.Threw? && Decided(r) + LOOK <= e
    ensures p <= |twin|
    ensures SameOutcome(ParseNamed(doc, p, depth, name, ms, toDouble), ParseNamed(twin, p, depth, name, ms, toDouble))
    decreases |doc| - p, 1
  {
    hide ParseValue, Lex, Put, Fetch, Recover;
    var colon := Lex(doc, p);
    var before := Fetch(ms, NameKey(name));
    if colon.kind.MemberSeparator? { ValueDecidedLater(doc, colon.end, depth, before, toDouble); }
    LexAgrees(doc, twin, e, p);
    if colon.kind.MemberSeparator? { ValueAgrees(doc, twin, e, colon.end, depth, before, toDouble); }
  }

  /**
    A document with an error is not repaired by anything that follows: every document that begins
    with the same bytes, to four bytes behind the token that is wrong, has the same error.
  */
  lemma ErrorIsFinal(doc: bytes, twin: bytes, root: Value, toDouble: ToDouble)
    requires Parse(doc, root, toDouble).Fail?
    requires Agree(doc, twin, Parse(doc, root, toDouble).error.token.end + LOOK)
    ensures Parse(twin, root, toDouble).Fail? && Parse(twin, root, toDouble).error == Parse(doc, root, toDouble).error
  {
    ValueAgrees(doc, twin, Parse(doc, root, toDouble).error.token.end + LOOK, 0, 0, root, toDouble);
  }

  /** A value is not changed by anything that follows it, from four bytes behind it on. */
  lemma ValueIsFinal(doc: bytes, twin: bytes, root: Value, toDouble: ToDouble)
    requires Parse(doc, root, toDouble).Ok? && Agree(doc, twin, Parse(doc, root, toDouble).pos + LOOK)
    ensures Parse(twin, root, toDouble) == Parse(doc, root, toDouble)
  {
    ValueAgrees(doc, twin, Parse(doc, root, toDouble).pos + LOOK, 0, 0, root, toDouble);
  }
}
