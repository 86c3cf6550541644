/** Reading a part of a document by itself: the tokens and values that lie inside it stay the same. */
module Slices {
  import opened Bytes
  import opened Values
  import opened Strings
  import opened Numbers
  import opened Lexer
  import opened Syntax

  /** The part of the document from s to e. */
  ghost predicate IsSlice(sub: bytes, doc: bytes, s: nat, e: nat) {
    s <= e <= |doc| && sub == doc[s..e]
  }

  lemma AtSlice(sub: bytes, doc: bytes, s: nat, e: nat, p: nat)
    requires IsSlice(sub, doc, s, e) && s <= p <= e
    ensures At(sub, p - s) == if p < e then At(doc, p) else NUL
  {}

  lemma {:induction false} SpaceSlice(sub: bytes, doc: bytes, s: nat, e: nat, p: nat)
    requires IsSlice(sub, doc, s, e) && s <= p && p <= |doc| && SpaceEnd(doc, p) <= e
    ensures SpaceEnd(sub, p - s) == SpaceEnd(doc, p) - s
    decreases |doc| - p
  {
    if p < |doc| && IsSpace(doc[p]) { SpaceSlice(sub, doc, s, e, p + 1); }
  }

  lemma {:induction false} DigitsSlice(sub: bytes, doc: bytes, s: nat, e: nat, p: nat)
    requires IsSlice(sub, doc, s, e) && s <= p && p <= |doc| && DigitsEnd(doc, p) <= e
    ensures DigitsEnd(sub, p - s) == DigitsEnd(doc, p) - s
    decreases |doc| - p
  {
    if p < |doc| && IsDigit(doc[p]) { DigitsSlice(sub, doc, s, e, p + 1); }
  }

  lemma NumberSlice(sub: bytes, doc: bytes, s: nat, e: nat, p: nat)
    requires IsSlice(sub, doc, s, e) && s <= p && p <= |doc| && NumberEnd(doc, p) <= e
    ensures NumberEnd(sub, p - s) == NumberEnd(doc, p) - s
  {
    var a := DigitsEnd(doc, p);
    DigitsSlice(sub, doc, s, e, p);
    AtSlice(sub, doc, s, e, a);
    if At(doc, a) == DOT { DigitsSlice(sub, doc, s, e, a + 1); }
    ExponentSlice(sub, doc, s, e, FractionEnd(doc, a));
  }

  lemma ExponentSlice(sub: bytes, doc: bytes, s: nat, e: nat, p: nat)
    requires IsSlice(sub, doc, s, e) && s <= p && p <= |doc| && ExponentEnd(doc, p) <= e
    ensures ExponentEnd(sub, p - s) == ExponentEnd(doc, p) - s
  {
    AtSlice(sub, doc, s, e, p);
    if At(doc, p) == LOWER_E || At(doc, p) == UPPER_E {
      AtSlice(sub, doc, s, e, p + 1);
      if At(doc, p + 1) == PLUS || At(doc, p + 1) == MINUS {
        DigitsSlice(sub, doc, s, e, p + 2);
      } else {
        DigitsSlice(sub, doc, s, e, p + 1);
      }
    }
  }

  /** Digits from a place up to another. */
  predicate DigitsBetween(text: bytes, from: nat, to: nat)
    requires from <= to <= |text|
  {
    forall i :: from <= i < to ==> 0x30 <= text[i] <= 0x39
  }

  /**
    The shape of a number token, any of whose rows of digits may be empty: a digit or a minus and
    digits up to a, perhaps a point and digits up to b, perhaps an e, a sign and digits.
  */
  predicate NumberShape(text: bytes, a: nat, b: nat) {
    1 <= a <= b <= |text| && (0x30 <= text[0] <= 0x39 || text[0] == 0x2D) && DigitsBetween(text, 1, a) &&
    (a < b ==> text[a] == 0x2E && DigitsBetween(text, a + 1, b)) &&
    (b < |text| ==>
      (text[b] == 0x65 || text[b] == 0x45) &&
      (DigitsBetween(text, b + 1, |text|) ||
       (b + 1 < |text| && (text[b + 1] == 0x2B || text[b + 1] == 0x2D) && DigitsBetween(text, b + 2, |text|))))
  }

  lemma {:induction false} DigitsRead(doc: bytes, pos: nat)
    requires pos <= |doc|
    ensures DigitsBetween(doc, pos, DigitsEnd(doc, pos)) && !IsDigit(At(doc, DigitsEnd(doc, pos)))
    decreases |doc| - pos
  {
    if pos < |doc| && IsDigit(doc[pos]) { DigitsRead(doc, pos + 1); }
  }

  lemma {:induction false} DigitsEndIs(doc: bytes, pos: nat, end: nat)
    requires pos <= end <= |doc| && DigitsBetween(doc, pos, end) && !IsDigit(At(doc, end))
    ensures DigitsEnd(doc, pos) == end
    decreases end - pos
  {
    if pos < end { DigitsEndIs(doc, pos + 1, end); }
  }

  /** A text is a number token if and only if it has this shape. */
  lemma NumberTokensExactly(text: bytes)
    ensures IsNumberToken(text) <==> exists a, b :: NumberShape(text, a, b)
  {
    if IsNumberToken(text) {
      var a := DigitsEnd(text, 1);
      var b := FractionEnd(text, a);
      DigitsRead(text, 1);
      if At(text, a) == DOT { DigitsRead(text, a + 1); }
      if b < |text| {
        DigitsRead(text, b + 1);
        if b + 2 <= |text| { DigitsRead(text, b + 2); }
      }
      assert NumberShape(text, a, b);
    }
    forall a, b | NumberShape(text, a, b)
      ensures IsNumberToken(text)
    {
      ShapeIsToken(text, a, b);
    }
  }

  lemma ShapeIsToken(text: bytes, a: nat, b: nat)
    requires NumberShape(text, a, b)
    ensures IsNumberToken(text)
  {
    DigitsEndIs(text, 1, a);
    if a < b { DigitsEndIs(text, a + 1, b); }
    assert FractionEnd(text, a) == b;
    if b < |text| {
      if b + 1 < |text| && (text[b + 1] == PLUS || text[b + 1] == MINUS) {
        DigitsEndIs(text, b + 2, |text|);
      } else {
        DigitsEndIs(text, b + 1, |text|);
      }
    }
  }

  /** readNumber takes the longest number token that stands at a place. */
  lemma NumberIsLongest(doc: bytes, pos: nat, e: nat)
    requires pos < |doc| && (IsDigit(doc[pos]) || doc[pos] == MINUS)
    ensures pos < NumberEnd(doc, pos + 1) <= |doc| && IsNumberToken(doc[pos..NumberEnd(doc, pos + 1)])
    ensures NumberEnd(doc, pos + 1) < e <= |doc| ==> !IsNumberToken(doc[pos..e])
  {
    var end := NumberEnd(doc, pos + 1);
    NumberSlice(doc[pos..end], doc, pos, end, pos + 1);
    if end < e <= |doc| { NumberSlice(doc[pos..e], doc, pos, e, pos + 1); }
  }

  lemma {:induction false} BlockSlice(sub: bytes, doc: bytes, s: nat, e: nat, p: nat)
    requires IsSlice(sub, doc, s, e) && s <= p && p <= |doc| && BlockEnd(doc, p) < e
    ensures BlockEnd(sub, p - s) == BlockEnd(doc, p) - s
    decreases |doc| - p
  {
    AtSlice(sub, doc, s, e, p);
    AtSlice(sub, doc, s, e, p + 1);
    if !(doc[p] == STAR && At(doc, p + 1) == SLASH) { BlockSlice(sub, doc, s, e, p + 1); }
  }

  lemma {:induction false} LineSlice(sub: bytes, doc: bytes, s: nat, e: nat, p: nat)
    requires IsSlice(sub, doc, s, e) && s <= p && p <= |doc| && LineEnd(doc, p) <= e
    ensures LineEnd(sub, p - s) == LineEnd(doc, p) - s
    decreases |doc| - p
  {
    if p < |doc| {
      AtSlice(sub, doc, s, e, p);
      if doc[p] == CR {
        AtSlice(sub, doc, s, e, p + 1);
      } else if doc[p] != LF {
        LineSlice(sub, doc, s, e, p + 1);
      }
    }
  }

  lemma CommentSlice(sub: bytes, doc: bytes, s: nat, e: nat, p: nat)
    requires IsSlice(sub, doc, s, e) && s <= p && p <= |doc|
    requires var (ok, end) := CommentEnd(doc, p); end < e || (ok && end == e)
    ensures CommentEnd(sub, p - s) == (CommentEnd(doc, p).0, CommentEnd(doc, p).1 - s)
  {
    AtSlice(sub, doc, s, e, p);
    if At(doc, p) == STAR {
      BlockSlice(sub, doc, s, e, p + 1);
    } else if At(doc, p) == SLASH {
      LineSlice(sub, doc, s, e, p + 1);
    }
  }

  lemma WordSlice(sub: bytes, doc: bytes, s: nat, e: nat, p: nat, word: bytes)
    requires IsSlice(sub, doc, s, e) && s <= p <= e
    ensures StandsAt(sub, p - s, word) <==> StandsAt(doc, p, word) && p + |word| <= e
  {
    if p + |word| <= e {
      var (a, b) := (sub[p - s..p - s + |word|], doc[p..p + |word|]);
      assert forall i :: 0 <= i < |word| ==> a[i] == b[i];
      assert a == b;
    }
  }

  /** The token ends before e, or at e and is one of those of which a value or a comment is made. */
  predicate Ends(k: Kind, end: nat, e: nat) { end < e || (end == e && !k.EndOfStream? && !k.ErrorToken?) }

  lemma KindSlice(sub: bytes, doc: bytes, s: nat, e: nat, p: nat)
    requires IsSlice(sub, doc, s, e) && s <= p && p <= |doc|
    requires Ends(KindAndEnd(doc, p).0, KindAndEnd(doc, p).1, e)
    ensures KindAndEnd(sub, p - s) == (KindAndEnd(doc, p).0, KindAndEnd(doc, p).1 - s)
  {
    hide StringEnd, NumberEnd, CommentEnd, StandsAt;
    assert sub[p - s] == doc[p];
    var c := doc[p];
    if c == QUOTE {
      StringEndInside(doc, s, sub, p + 1 - s);
    } else if c == SLASH {
      CommentSlice(sub, doc, s, e, p + 1);
    } else if IsDigit(c) || c == MINUS {
      NumberSlice(sub, doc, s, e, p + 1);
    } else if c == LOWER_T {
      WordSlice(sub, doc, s, e, p + 1, TRUE_TEXT[1..]);
    } else if c == LOWER_F {
      WordSlice(sub, doc, s, e, p + 1, FALSE_TEXT[1..]);
    } else if c == LOWER_N {
      WordSlice(sub, doc, s, e, p + 1, NULL_TEXT[1..]);
    }
  }

  function Shifted(t: Token, s: nat): Token
    requires s <= t.start && s <= t.end
  {
    Token(t.kind, t.start - s, t.end - s)
  }

  lemma LexSlice(sub: bytes, doc: bytes, s: nat, e: nat, p: nat)
    requires IsSlice(sub, doc, s, e) && s <= p && p <= |doc|
    requires Ends(Lex(doc, p).kind, Lex(doc, p).end, e)
    ensures Lex(sub, p - s) == Shifted(Lex(doc, p), s)
    ensures Text(sub, Lex(sub, p - s)) == Text(doc, Lex(doc, p))
  {
    hide KindAndEnd, SpaceEnd;
    SpaceSlice(sub, doc, s, e, p);
    KindSlice(sub, doc, s, e, SpaceEnd(doc, p));
  }

  lemma {:induction false} SkipSlice(sub: bytes, doc: bytes, s: nat, e: nat, p: nat)
    requires IsSlice(sub, doc, s, e) && s <= p && p <= |doc|
    requires Ends(SkipComments(doc, p).kind, SkipComments(doc, p).end, e)
    ensures SkipComments(sub, p - s) == Shifted(SkipComments(doc, p), s)
    ensures Text(sub, SkipComments(sub, p - s)) == Text(doc, SkipComments(doc, p))
    decreases |doc| - p
  {
    hide Lex, IsStringToken, Text;
    LexSlice(sub, doc, s, e, p);
    if Lex(doc, p).kind.Comment? { SkipSlice(sub, doc, s, e, Lex(doc, p).end); }
  }

  /** A token found from a position is found from its own start. */
  lemma {:induction false} SkipToStart(doc: bytes, p: nat)
    requires p <= |doc|
    ensures SkipComments(doc, SkipComments(doc, p).start) == SkipComments(doc, p)
    decreases |doc| - p
  {
    var t := Lex(doc, p);
    if t.kind.Comment? {
      SkipToStart(doc, t.end);
    } else {
      assert t.start < |doc| ==> !IsSpace(doc[t.start]);
      assert SpaceEnd(doc, t.start) == t.start;
    }
  }

  // ----- Values -----

  /** The same outcome, moved by s and without source offsets. */
  ghost predicate SameValue(r: Outcome<Value>, q: Outcome<Value>, s: nat) {
    r.Ok? && q.Ok? && q.pos == r.pos - s && Bare(q.value) == Bare(r.value)
  }

  ghost predicate SameMembers(r: Outcome<Members>, q: Outcome<Members>, s: nat) {
    r.Ok? && q.Ok? && q.pos == r.pos - s && BareMembers(q.value) == BareMembers(r.value)
  }

  /** A value that is read inside the slice is read in the same way from the slice, at a smaller depth. */
  lemma {:induction false} ValueSlice(sub: bytes, doc: bytes, s: nat, e: nat, p: nat, depth: nat, depth': nat, before: Value, before': Value, toDouble: ToDouble)
    requires IsSlice(sub, doc, s, e) && s <= p && p <= |doc| && depth' <= depth
    requires var r := ParseValue(doc, p, depth, before, toDouble); r.Ok? && r.pos <= e
    ensures SameValue(ParseValue(doc, p, depth, before, toDouble), ParseValue(sub, p - s, depth', before', toDouble), s)
    decreases |doc| - p, 0
  {
    hide SkipComments, ParseMembers, ParseArray, DecodeNumber, DecodeString;
    var t := SkipComments(doc, p);
    SkipSlice(sub, doc, s, e, p);
    if t.kind.ObjectBegin? {
      MembersSlice(sub, doc, s, e, t.end, depth + 1, depth' + 1, [], Nil, Nil, toDouble);
    } else if t.kind.ArrayBegin? {
      ArraySlice(sub, doc, s, e, t.end, depth + 1, depth' + 1, toDouble);
    }
  }

  lemma {:induction false} ArraySlice(sub: bytes, doc: bytes, s: nat, e: nat, p: nat, depth: nat, depth': nat, toDouble: ToDouble)
    requires IsSlice(sub, doc, s, e) && s <= p && p <= |doc| && depth' <= depth
    requires var r := ParseArray(doc, p, depth, toDouble); r.Ok? && r.pos <= e
    ensures SameMembers(ParseArray(doc, p, depth, toDouble), ParseArray(sub, p - s, depth', toDouble), s)
    decreases |doc| - p, 2
  {
    hide SpaceEnd, ParseItems;
    SpaceSlice(sub, doc, s, e, p);
    AtSlice(sub, doc, s, e, SpaceEnd(doc, p));
    if At(doc, SpaceEnd(doc, p)) != RBRACKET {
      ItemsSlice(sub, doc, s, e, SpaceEnd(doc, p), depth, depth', 0, Nil, Nil, toDouble);
    }
  }

  lemma {:induction false} ItemsSlice(sub: bytes, doc: bytes, s: nat, e: nat, p: nat, depth: nat, depth': nat, index: nat, ms: Members, ms': Members, toDouble: ToDouble)
    requires IsSlice(sub, doc, s, e) && s <= p && p <= |doc| && depth' <= depth
    requires BareMembers(ms) == BareMembers(ms')
    requires var r := ParseItems(doc, p, depth, index, ms, toDouble); r.Ok? && r.pos <= e
    ensures SameMembers(ParseItems(doc, p, depth, index, ms, toDouble), ParseItems(sub, p - s, depth', index, ms', toDouble), s)
    decreases |doc| - p, 1
  {
    hide ParseValue, SkipComments, Put, Fetch, BareMembers;
    var k := Index(index);
    var r := ParseValue(doc, p, depth, Fetch(ms, k), toDouble);
    ValueSlice(sub, doc, s, e, p, depth, depth', Fetch(ms, k), Fetch(ms', k), toDouble);
    var r' := ParseValue(sub, p - s, depth', Fetch(ms', k), toDouble);
    BarePut(ms, k, r.value);
    BarePut(ms', k, r'.value);
    SkipSlice(sub, doc, s, e, r.pos);
    var t := SkipComments(doc, r.pos);
    if t.kind.ArraySeparator? {
      ItemsSlice(sub, doc, s, e, t.end, depth, depth', index + 1, Put(ms, k, r.value), Put(ms', k, r'.value), toDouble);
    }
  }

  lemma {:induction false} MembersSlice(sub: bytes, doc: bytes, s: nat, e: nat, p: nat, depth: nat, depth': nat, name: bytes, ms: Members, ms': Members, toDouble: ToDouble)
    requires IsSlice(sub, doc, s, e) && s <= p && p <= |doc| && depth' <= depth
    requires BareMembers(ms) == BareMembers(ms')
    requires var r := ParseMembers(doc, p, depth, name, ms, toDouble); r.Ok? && r.pos <= e
    ensures SameMembers(ParseMembers(doc, p, depth, name, ms, toDouble), ParseMembers(sub, p - s, depth', name, ms', toDouble), s)
    decreases |doc| - p, 2
  {
    hide ParseNamed, SkipComments, Lex, NameAt, SeparatorAt, BareMembers;
    NameSlice(sub, doc, s, e, p, name);
    var naming := NameAt(doc, p, name);
    if naming.Member? {
      var r := ParseNamed(doc, naming.pos, depth, naming.name, ms, toDouble);
      NamedSlice(sub, doc, s, e, naming.pos, depth, depth', naming.name, ms, ms', toDouble);
      var r' := ParseNamed(sub, naming.pos - s, depth', naming.name, ms', toDouble);
      SeparatorSlice(sub, doc, s, e, r.pos);
      var next := SeparatorAt(doc, r.pos);
      if next.Another? {
        MembersSlice(sub, doc, s, e, next.pos, depth, depth', naming.name, r.value, r'.value, toDouble);
      }
    }
  }

  lemma NameSlice(sub: bytes, doc: bytes, s: nat, e: nat, p: nat, previous: bytes)
    requires IsSlice(sub, doc, s, e) && s <= p && p <= |doc|
    requires !NameAt(doc, p, previous).BadName? && NameAt(doc, p, previous).pos <= e
    ensures NameAt(sub, p - s, previous) ==
            match NameAt(doc, p, previous)
            case NoMember(q) => NoMember(q - s)
            case Member(n, q) => Member(n, q - s)
            case BadName(m, t) => BadName(m, t)
  {
    hide SkipComments, DecodeString;
    SkipSlice(sub, doc, s, e, p);
  }

  lemma {:induction false} NamedSlice(sub: bytes, doc: bytes, s: nat, e: nat, p: nat, depth: nat, depth': nat, name: bytes, ms: Members, ms': Members, toDouble: ToDouble)
    requires IsSlice(sub, doc, s, e) && s <= p && p <= |doc| && depth' <= depth
    requires BareMembers(ms) == BareMembers(ms')
    requires var r := ParseNamed(doc, p, depth, name, ms, toDouble); r.Ok? && r.pos <= e
    ensures SameMembers(ParseNamed(doc, p, depth, name, ms, toDouble), ParseNamed(sub, p - s, depth', name, ms', toDouble), s)
    decreases |doc| - p, 1
  {
    hide ParseValue, Lex, Put, Fetch, BareMembers;
    var k := NameKey(name);
    var colon := Lex(doc, p);
    LexSlice(sub, doc, s, e, p);
    ValueSlice(sub, doc, s, e, colon.end, depth, depth', Fetch(ms, k), Fetch(ms', k), toDouble);
    BarePut(ms, k, ParseValue(doc, colon.end, depth, Fetch(ms, k), toDouble).value);
    BarePut(ms', k, ParseValue(sub, colon.end - s, depth', Fetch(ms', k), toDouble).value);
  }

  /** The token that passes for a comma after a comment may be anything, the end of the stream included. */
  lemma SeparatorSlice(sub: bytes, doc: bytes, s: nat, e: nat, p: nat)
    requires IsSlice(sub, doc, s, e) && s <= p && p <= |doc|
    requires !SeparatorAt(doc, p).Missing? && SeparatorAt(doc, p).pos <= e
    requires SeparatorAt(doc, p).Another? ==> SeparatorAt(doc, p).pos < e
    ensures SeparatorAt(sub, p - s) ==
            match SeparatorAt(doc, p)
            case Closing(q) => Closing(q - s)
            case Another(q) => Another(q - s)
            case Missing(t) => Missing(t)
  {
    SkipCommentsAfter(doc, p);
    LexSlice(sub, doc, s, e, p);
    SkipSlice(sub, doc, s, e, p);
  }
}
