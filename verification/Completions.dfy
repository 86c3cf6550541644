/**
  A document that is rejected at its end is only cut off: something can be put behind it so that it
  is no longer rejected. So the parser reports the end of the document only where it has found
  nothing wrong before.
*/
module Completions {
  import opened Bytes
  import opened Values
  import opened Strings
  import opened Numbers
  import opened Lexer
  import opened Syntax

  /** Every token from a place on can be read, to the end of the document. */
  predicate Readable(doc: bytes, pos: nat)
    requires pos <= |doc|
    decreases |doc| - pos
  {
    var t := Lex(doc, pos);
    if t.kind.EndOfStream? then t.start == |doc| else !t.kind.ErrorToken? && Readable(doc, t.end)
  }

  /** The document, a line feed and more. */
  predicate Extends(twin: bytes, doc: bytes) {
    |doc| < |twin| && twin[..|doc|] == doc && twin[|doc|] == LF
  }

  lemma SameBytes(doc: bytes, twin: bytes, p: nat)
    requires Extends(twin, doc) && p < |doc|
    ensures twin[p] == doc[p]
  {
    assert twin[..|doc|][p] == twin[p];
  }

  lemma SameText(doc: bytes, twin: bytes, a: nat, b: nat)
    requires Extends(twin, doc) && a <= b <= |doc|
    ensures twin[a..b] == doc[a..b]
  {
    forall i | 0 <= i < b - a
      ensures twin[a..b][i] == doc[a..b][i]
    {
      SameBytes(doc, twin, a + i);
    }
  }

  // ----- Tokens -----

  lemma {:induction false} SpaceExtends(doc: bytes, twin: bytes, p: nat)
    requires Extends(twin, doc) && p <= |doc|
    ensures SpaceEnd(doc, p) < |doc| ==> SpaceEnd(twin, p) == SpaceEnd(doc, p)
    ensures SpaceEnd(doc, p) == |doc| ==> SpaceEnd(twin, p) == SpaceEnd(twin, |doc| + 1)
    decreases |doc| - p
  {
    if p < |doc| {
      SameBytes(doc, twin, p);
      if IsSpace(doc[p]) { SpaceExtends(doc, twin, p + 1); }
    }
  }

  lemma {:induction false} DigitsExtend(doc: bytes, twin: bytes, p: nat)
    requires Extends(twin, doc) && p <= |doc|
    ensures DigitsEnd(twin, p) == DigitsEnd(doc, p)
    decreases |doc| - p
  {
    if p < |doc| {
      SameBytes(doc, twin, p);
      if IsDigit(doc[p]) { DigitsExtend(doc, twin, p + 1); }
    }
  }

  lemma SameAt(doc: bytes, twin: bytes, p: nat)
    requires Extends(twin, doc) && p <= |doc|
    ensures At(twin, p) == if p < |doc| then At(doc, p) else LF
  {
    if p < |doc| { SameBytes(doc, twin, p); }
  }

  lemma NumberExtends(doc: bytes, twin: bytes, p: nat)
    requires Extends(twin, doc) && p <= |doc|
    ensures NumberEnd(twin, p) == NumberEnd(doc, p)
  {
    var whole := DigitsEnd(doc, p);
    var fraction := FractionEnd(doc, whole);
    DigitsExtend(doc, twin, p);
    SameAt(doc, twin, whole);
    if At(doc, whole) == DOT { DigitsExtend(doc, twin, whole + 1); }
    assert FractionEnd(twin, whole) == fraction;
    SameAt(doc, twin, fraction);
    if At(doc, fraction) == LOWER_E || At(doc, fraction) == UPPER_E {
      SameAt(doc, twin, fraction + 1);
      DigitsExtend(doc, twin, fraction + 1);
      if fraction + 2 <= |doc| { DigitsExtend(doc, twin, fraction + 2); }
    }
  }

  lemma {:induction false} StringExtends(doc: bytes, twin: bytes, p: nat)
    requires Extends(twin, doc) && p <= |doc| && StringEnd(doc, p).Some?
    ensures StringEnd(twin, p) == StringEnd(doc, p)
    decreases |doc| - p
  {
    SameBytes(doc, twin, p);
    if doc[p] == BACKSLASH { StringExtends(doc, twin, p + 2); }
    else if doc[p] != QUOTE { StringExtends(doc, twin, p + 1); }
  }

  lemma {:induction false} BlockExtends(doc: bytes, twin: bytes, p: nat)
    requires Extends(twin, doc) && p <= |doc| && BlockEnd(doc, p) < |doc|
    ensures BlockEnd(twin, p) == BlockEnd(doc, p)
    decreases |doc| - p
  {
    SameBytes(doc, twin, p);
    SameAt(doc, twin, p + 1);
    if !(doc[p] == STAR && At(doc, p + 1) == SLASH) { BlockExtends(doc, twin, p + 1); }
  }

  /** A line that ends with the document ends behind the line feed. */
  lemma {:induction false} LineExtends(doc: bytes, twin: bytes, p: nat)
    requires Extends(twin, doc) && p <= |doc|
    ensures LineEnd(doc, p) < |doc| ==> LineEnd(twin, p) == LineEnd(doc, p)
    ensures LineEnd(doc, p) == |doc| ==> |doc| <= LineEnd(twin, p) <= |doc| + 1
    decreases |doc| - p
  {
    if p < |doc| {
      SameBytes(doc, twin, p);
      if doc[p] == CR { SameAt(doc, twin, p + 1); }
      else if doc[p] != LF { LineExtends(doc, twin, p + 1); }
    }
  }

  lemma WordExtends(doc: bytes, twin: bytes, p: nat, word: bytes)
    requires Extends(twin, doc) && StandsAt(doc, p, word)
    ensures StandsAt(twin, p, word)
  {
    assert twin[p..p + |word|] == twin[..|doc|][p..p + |word|];
  }

  /** Tokens that can be read stay what they are; a comment at the end may take the line feed in. */
  lemma KindExtends(doc: bytes, twin: bytes, p: nat)
    requires Extends(twin, doc) && p < |doc|
    requires var (kind, _) := KindAndEnd(doc, p); !kind.ErrorToken? && !kind.EndOfStream?
    ensures var ((kind, end), (kind', end')) := (KindAndEnd(doc, p), KindAndEnd(twin, p));
            kind' == kind &&
            (end' == end || (kind.Comment? && end == |doc| && end' == |doc| + 1))
  {
    hide StringEnd, NumberEnd, StandsAt, BlockEnd, LineEnd;
    SameBytes(doc, twin, p);
    var c := doc[p];
    if c == QUOTE {
      StringExtends(doc, twin, p + 1);
    } else if c == SLASH {
      SameAt(doc, twin, p + 1);
      if At(doc, p + 1) == STAR {
        BlockExtends(doc, twin, p + 2);
      } else {
        LineExtends(doc, twin, p + 2);
      }
    } else if IsDigit(c) || c == MINUS {
      NumberExtends(doc, twin, p + 1);
    } else if c == LOWER_T {
      WordExtends(doc, twin, p + 1, TRUE_TEXT[1..]);
    } else if c == LOWER_F {
      WordExtends(doc, twin, p + 1, FALSE_TEXT[1..]);
    } else if c == LOWER_N {
      WordExtends(doc, twin, p + 1, NULL_TEXT[1..]);
    }
  }

  lemma LexExtends(doc: bytes, twin: bytes, p: nat)
    requires Extends(twin, doc) && p <= |doc|
    requires var t := Lex(doc, p); !t.kind.ErrorToken? && !t.kind.EndOfStream?
    ensures var (t, u) := (Lex(doc, p), Lex(twin, p));
            u.kind == t.kind && u.start == t.start < |doc| &&
            (u.end == t.end || (t.kind.Comment? && t.end == |doc| && u.end == |doc| + 1))
    ensures Lex(twin, p).end == Lex(doc, p).end ==> Text(twin, Lex(twin, p)) == Text(doc, Lex(doc, p))
  {
    hide KindAndEnd, SpaceEnd;
    SpaceExtends(doc, twin, p);
    KindExtends(doc, twin, SpaceEnd(doc, p));
    var (t, u) := (Lex(doc, p), Lex(twin, p));
    if u.end == t.end { SameText(doc, twin, t.start, t.end); }
  }

  /** The first token that is no comment stays what it is, or comes from behind the line feed. */
  lemma {:induction false} SkipExtends(doc: bytes, twin: bytes, p: nat)
    requires Extends(twin, doc) && p <= |doc| && Readable(doc, p)
    ensures var t := SkipComments(doc, p);
            if t.kind.EndOfStream? then t.start == |doc| && SkipComments(twin, p) == SkipComments(twin, |doc| + 1)
            else SkipComments(twin, p) == t && Text(twin, t) == Text(doc, t) && Readable(doc, t.end)
    decreases |doc| - p
  {
    var t := Lex(doc, p);
    if t.kind.EndOfStream? {
      SpaceExtends(doc, twin, p);
      assert Lex(twin, p) == Lex(twin, |doc| + 1);
    } else {
      LexExtends(doc, twin, p);
      if t.kind.Comment? {
        SkipExtends(doc, twin, t.end);
        if Lex(twin, p).end != t.end { AtTheEnd(doc, twin); }
      }
    }
  }

  /** Before and behind the line feed the same token comes next. */
  lemma AtTheEnd(doc: bytes, twin: bytes)
    requires Extends(twin, doc)
    ensures Lex(doc, |doc|) == SkipComments(doc, |doc|) == Token(EndOfStream, |doc|, |doc|)
    ensures Lex(twin, |doc|) == Lex(twin, |doc| + 1) && SkipComments(twin, |doc|) == SkipComments(twin, |doc| + 1)
  {
    assert SpaceEnd(twin, |doc|) == SpaceEnd(twin, |doc| + 1);
  }

  // ----- What was accepted stays accepted -----

  lemma {:induction false} ValueExtends(doc: bytes, twin: bytes, p: nat, depth: nat, before: Value, toDouble: ToDouble)
    requires Extends(twin, doc) && p <= |doc| && Readable(doc, p)
    requires ParseValue(doc, p, depth, before, toDouble).Ok?
    ensures var r := ParseValue(doc, p, depth, before, toDouble);
            ParseValue(twin, p, depth, before, toDouble) == r && Readable(doc, r.pos)
    decreases |doc| - p, 0
  {
    hide SkipComments, ParseMembers, ParseArray, DecodeNumber, DecodeString, Readable;
    var t := SkipComments(doc, p);
    SkipExtends(doc, twin, p);
    if t.kind.ObjectBegin? {
      MembersExtend(doc, twin, t.end, depth + 1, [], Nil, toDouble);
    } else if t.kind.ArrayBegin? {
      ArrayExtends(doc, twin, t.end, depth + 1, toDouble);
    }
  }

  /** An array that has just been opened may be empty: the closing bracket is a token too. */
  lemma ReadableBracket(doc: bytes, p: nat)
    requires p <= |doc| && Readable(doc, p)
    ensures var q := SpaceEnd(doc, p);
            Readable(doc, q) && (At(doc, q) == RBRACKET ==> Readable(doc, q + 1))
  {
    var q := SpaceEnd(doc, p);
    assert SpaceEnd(doc, q) == q;
    assert Lex(doc, q) == Lex(doc, p);
  }

  lemma {:induction false} ArrayExtends(doc: bytes, twin: bytes, p: nat, depth: nat, toDouble: ToDouble)
    requires Extends(twin, doc) && p <= |doc| && Readable(doc, p)
    requires ParseArray(doc, p, depth, toDouble).Ok?
    ensures var r := ParseArray(doc, p, depth, toDouble);
            ParseArray(twin, p, depth, toDouble) == r && Readable(doc, r.pos)
    decreases |doc| - p, 2
  {
    hide SpaceEnd, ParseItems, Readable;
    var q := SpaceEnd(doc, p);
    ReadableBracket(doc, p);
    SpaceExtends(doc, twin, p);
    if q == |doc| {
      NothingAtTheEnd(doc, depth, toDouble);
      assert false;
    } else {
      SameAt(doc, twin, q);
      if At(doc, q) != RBRACKET { ItemsExtend(doc, twin, q, depth, 0, Nil, toDouble); }
    }
  }

  /** At its end a document holds no more elements. */
  lemma NothingAtTheEnd(doc: bytes, depth: nat, toDouble: ToDouble)
    ensures !ParseItems(doc, |doc|, depth, 0, Nil, toDouble).Ok?
  {
    assert Lex(doc, |doc|) == SkipComments(doc, |doc|) == Token(EndOfStream, |doc|, |doc|);
    hide Lex, SkipComments, Recover;
  }

  lemma {:induction false} ItemsExtend(doc: bytes, twin: bytes, p: nat, depth: nat, index: nat, ms: Members, toDouble: ToDouble)
    requires Extends(twin, doc) && p <= |doc| && Readable(doc, p)
    requires ParseItems(doc, p, depth, index, ms, toDouble).Ok?
    ensures var r := ParseItems(doc, p, depth, index, ms, toDouble);
            ParseItems(twin, p, depth, index, ms, toDouble) == r && Readable(doc, r.pos)
    decreases |doc| - p, 1
  {
    hide ParseValue, SkipComments, Put, Fetch, Recover, Readable;
    var k := Index(index);
    ValueExtends(doc, twin, p, depth, Fetch(ms, k), toDouble);
    var r := ParseValue(doc, p, depth, Fetch(ms, k), toDouble);
    SkipExtends(doc, twin, r.pos);
    var t := SkipComments(doc, r.pos);
    if t.kind.ArraySeparator? { ItemsExtend(doc, twin, t.end, depth, index + 1, Put(ms, k, r.value), toDouble); }
  }

  lemma NameExtends(doc: bytes, twin: bytes, p: nat, previous: bytes)
    requires Extends(twin, doc) && p <= |doc| && Readable(doc, p)
    requires !NameAt(doc, p, previous).BadName?
    ensures NameAt(twin, p, previous) == NameAt(doc, p, previous) && Readable(doc, NameAt(doc, p, previous).pos)
  {
    hide SkipComments, DecodeString, Readable;
    SkipExtends(doc, twin, p);
  }

  /** The same separator, unless a comment was the last thing in the document. */
  lemma SeparatorExtends(doc: bytes, twin: bytes, p: nat)
    requires Extends(twin, doc) && p <= |doc| && Readable(doc, p)
    requires !SeparatorAt(doc, p).Missing? && !SkipComments(doc, p).kind.EndOfStream?
    ensures SeparatorAt(twin, p) == SeparatorAt(doc, p) && Readable(doc, SeparatorAt(doc, p).pos)
  {
    assert !Lex(doc, p).kind.ErrorToken? && !Lex(doc, p).kind.EndOfStream? by { SkipCommentsAfter(doc, p); }
    hide SkipComments, Readable, Lex;
    LexExtends(doc, twin, p);
    SkipExtends(doc, twin, p);
  }

  lemma {:induction false} MembersExtend(doc: bytes, twin: bytes, p: nat, depth: nat, name: bytes, ms: Members, toDouble: ToDouble)
    requires Extends(twin, doc) && p <= |doc| && Readable(doc, p)
    requires ParseMembers(doc, p, depth, name, ms, toDouble).Ok?
    ensures var r := ParseMembers(doc, p, depth, name, ms, toDouble);
            ParseMembers(twin, p, depth, name, ms, toDouble) == r && Readable(doc, r.pos)
    decreases |doc| - p, 2
  {
    hide ParseNamed, NameAt, SeparatorAt, Recover, Readable, SkipComments;
    NameExtends(doc, twin, p, name);
    var naming := NameAt(doc, p, name);
    if naming.Member? {
      NamedExtends(doc, twin, naming.pos, depth, naming.name, ms, toDouble);
      var r := ParseNamed(doc, naming.pos, depth, naming.name, ms, toDouble);
      var next := SeparatorAt(doc, r.pos);
      if SkipComments(doc, r.pos).kind.EndOfStream? {
        NoNameAtTheEnd(doc, r.pos, depth, naming.name, r.value, toDouble);
        assert false;
      } else {
        SeparatorExtends(doc, twin, r.pos);
        if next.Another? { MembersExtend(doc, twin, next.pos, depth, naming.name, r.value, toDouble); }
      }
    }
  }

  /** When only the end follows a member, there is no closing brace and no other member. */
  lemma NoNameAtTheEnd(doc: bytes, p: nat, depth: nat, name: bytes, ms: Members, toDouble: ToDouble)
    requires p <= |doc| && Readable(doc, p) && SkipComments(doc, p).kind.EndOfStream?
    ensures !SeparatorAt(doc, p).Closing?
    ensures SeparatorAt(doc, p).Another? ==>
              SeparatorAt(doc, p).pos == |doc| && !ParseMembers(doc, |doc|, depth, name, ms, toDouble).Ok?
  {
    SkipCommentsAfter(doc, p);
    EndIsTheEnd(doc, p);
    assert Lex(doc, |doc|) == SkipComments(doc, |doc|) == Token(EndOfStream, |doc|, |doc|);
    hide Lex, SkipComments, Recover, ParseNamed;
  }

  lemma {:induction false} EndIsTheEnd(doc: bytes, p: nat)
    requires p <= |doc| && Readable(doc, p) && SkipComments(doc, p).kind.EndOfStream?
    ensures SkipComments(doc, p) == Token(EndOfStream, |doc|, |doc|)
    decreases |doc| - p
  {
    if Lex(doc, p).kind.Comment? { EndIsTheEnd(doc, Lex(doc, p).end); }
  }

  lemma {:induction false} NamedExtends(doc: bytes, twin: bytes, p: nat, depth: nat, name: bytes, ms: Members, toDouble: ToDouble)
    requires Extends(twin, doc) && p <= |doc| && Readable(doc, p)
    requires ParseNamed(doc, p, depth, name, ms, toDouble).Ok?
    ensures var r := ParseNamed(doc, p, depth, name, ms, toDouble);
            ParseNamed(twin, p, depth, name, ms, toDouble) == r && Readable(doc, r.pos)
    decreases |doc| - p, 1
  {
    hide ParseValue, Lex, Put, Fetch, Recover;
    var colon := Lex(doc, p);
    LexExtends(doc, twin, p);
    ValueExtends(doc, twin, colon.end, depth, Fetch(ms, NameKey(name)), toDouble);
  }

  // ----- What was cut off can be completed -----

  /** The error is the end of the document. */
  predicate CutOff<T>(doc: bytes, r: Outcome<T>) { r.Fail? && r.error.token == Token(EndOfStream, |doc|, |doc|) }

  /** The document with a line feed, a completion and whatever comes then. */
  function Completed(doc: bytes, c: bytes, rest: bytes): bytes { doc + [LF] + c + rest }

  /** Reading ends just behind the completion, unless it nests too deeply. */
  predicate Complete<T>(doc: bytes, c: bytes, r: Outcome<T>) { r.Threw? || (r.Ok? && r.pos == |doc| + 1 + |c|) }

  lemma CompletedExtends(doc: bytes, c: bytes, rest: bytes)
    ensures Extends(Completed(doc, c, rest), doc)
    ensures Completed(doc, c, rest)[|doc| + 1..] == c + rest
  {}

  function KindOf(c: byte): Kind { if c == RBRACE then ObjectEnd else if c == RBRACKET then ArrayEnd else MemberSeparator }

  lemma ByteStandsAt(twin: bytes, p: nat, c: byte)
    requires p < |twin| && twin[p] == c && (c == RBRACE || c == RBRACKET || c == COLON)
    ensures SpaceEnd(twin, p) == p && At(twin, p) == c
    ensures Lex(twin, p) == SkipComments(twin, p) == Token(KindOf(c), p, p + 1)
  {
    hide StringEnd, CommentEnd, NumberEnd, StandsAt;
  }

  /** A one-byte token behind the line feed. */
  lemma ByteIsNext(doc: bytes, c: byte, rest: bytes)
    requires c == RBRACE || c == RBRACKET || c == COLON
    ensures var (twin, p) := (Completed(doc, [c], rest), |doc| + 1);
            SpaceEnd(twin, p) == p && At(twin, p) == c &&
            Lex(twin, p) == SkipComments(twin, p) == Token(KindOf(c), p, p + 1)
  {
    hide Lex, SkipComments;
    var twin := Completed(doc, [c], rest);
    assert twin[|doc| + 1] == c;
    ByteStandsAt(twin, |doc| + 1, c);
  }

  lemma NullIsNext(doc: bytes, rest: bytes)
    ensures var twin := Completed(doc, NULL_TEXT, rest);
            SkipComments(twin, |doc| + 1) == Token(NullToken, |doc| + 1, |doc| + 5)
  {
    CompletedExtends(doc, NULL_TEXT, rest);
    NullStandsAt(Completed(doc, NULL_TEXT, rest), |doc| + 1, rest);
  }

  lemma NullStandsAt(twin: bytes, p: nat, rest: bytes)
    requires p <= |twin| && twin[p..] == NULL_TEXT + rest
    ensures Lex(twin, p) == SkipComments(twin, p) == Token(NullToken, p, p + 4)
  {
    assert twin[p] == twin[p..][0];
    assert twin[p + 1..p + 4] == twin[p..][1..4] == NULL_TEXT[1..];
  }

  lemma {:induction false} ValueCompleted(doc: bytes, p: nat, depth: nat, before: Value, rest: bytes, toDouble: ToDouble) returns (c: bytes)
    requires p <= |doc| && Readable(doc, p) && CutOff(doc, ParseValue(doc, p, depth, before, toDouble))
    ensures Complete(doc, c, ParseValue(Completed(doc, c, rest), p, depth, before, toDouble))
    decreases |doc| - p, 0
  {
    hide SkipComments, ParseMembers, ParseArray, ParseItems, DecodeNumber, DecodeString, Readable, Lex;
    var t := SkipComments(doc, p);
    SkipExtends(doc, Completed(doc, NULL_TEXT, rest), p) by { CompletedExtends(doc, NULL_TEXT, rest); }
    if t.kind.ObjectBegin? {
      c := MembersCompleted(doc, t.end, depth + 1, [], Nil, rest, toDouble);
    } else if t.kind.ArrayBegin? {
      c := ArrayCompleted(doc, t.end, depth + 1, rest, toDouble);
    } else {
      c := NULL_TEXT;
      NullIsNext(doc, rest);
    }
    CompletedExtends(doc, c, rest);
    SkipExtends(doc, Completed(doc, c, rest), p);
  }

  lemma {:induction false} ArrayCompleted(doc: bytes, p: nat, depth: nat, rest: bytes, toDouble: ToDouble) returns (c: bytes)
    requires p <= |doc| && Readable(doc, p) && CutOff(doc, ParseArray(doc, p, depth, toDouble))
    ensures Complete(doc, c, ParseArray(Completed(doc, c, rest), p, depth, toDouble))
    decreases |doc| - p, 2
  {
    hide SpaceEnd, ParseItems, Readable, Lex;
    var q := SpaceEnd(doc, p);
    ReadableBracket(doc, p);
    if q == |doc| {
      c := [RBRACKET];
      ByteIsNext(doc, RBRACKET, rest);
      CompletedExtends(doc, c, rest);
      SpaceExtends(doc, Completed(doc, c, rest), p);
    } else {
      c := ItemsCompleted(doc, q, depth, 0, Nil, rest, toDouble);
      CompletedExtends(doc, c, rest);
      SpaceExtends(doc, Completed(doc, c, rest), p);
      SameAt(doc, Completed(doc, c, rest), q);
    }
  }

  lemma {:induction false} ItemsCompleted(doc: bytes, p: nat, depth: nat, index: nat, ms: Members, rest: bytes, toDouble: ToDouble) returns (c: bytes)
    requires p <= |doc| && Readable(doc, p) && CutOff(doc, ParseItems(doc, p, depth, index, ms, toDouble))
    ensures Complete(doc, c, ParseItems(Completed(doc, c, rest), p, depth, index, ms, toDouble))
    decreases |doc| - p, 1
  {
    hide ParseValue, SkipComments, Put, Fetch, Recover, Readable, Lex;
    var k := Index(index);
    var before := Fetch(ms, k);
    var r := ParseValue(doc, p, depth, before, toDouble);
    if r.Fail? {
      var c1 := ValueCompleted(doc, p, depth, before, [RBRACKET] + rest, toDouble);
      c := c1 + [RBRACKET];
      BracketBehind(doc, c1, RBRACKET, rest);
    } else {
      var some := Completed(doc, [RBRACKET], rest);
      CompletedExtends(doc, [RBRACKET], rest);
      SkipExtends(doc, some, r.pos) by { ValueExtends(doc, some, p, depth, before, toDouble); }
      assert Readable(doc, r.pos) by { ValueExtends(doc, some, p, depth, before, toDouble); }
      var t := SkipComments(doc, r.pos);
      if t.kind.ArraySeparator? {
        c := ItemsCompleted(doc, t.end, depth, index + 1, Put(ms, k, r.value), rest, toDouble);
      } else {
        c := [RBRACKET];
        ByteIsNext(doc, RBRACKET, rest);
      }
      CompletedExtends(doc, c, rest);
      ValueExtends(doc, Completed(doc, c, rest), p, depth, before, toDouble);
      SkipExtends(doc, Completed(doc, c, rest), r.pos);
    }
  }

  /** A closing bracket behind a completion. */
  lemma BracketBehind(doc: bytes, c: bytes, close: byte, rest: bytes)
    requires close == RBRACE || close == RBRACKET
    ensures var twin := Completed(doc, c + [close], rest);
            var q := |doc| + 1 + |c|;
            twin == Completed(doc, c, [close] + rest) && q < |twin| &&
            Lex(twin, q) == SkipComments(twin, q) == Token(KindOf(close), q, q + 1)
  {
    hide Lex, SkipComments;
    var twin := Completed(doc, c + [close], rest);
    assert twin == Completed(doc, c, [close] + rest);
    assert twin[|doc| + 1 + |c|] == close;
    ByteStandsAt(twin, |doc| + 1 + |c|, close);
  }

  /** An empty name, a colon and null: what a member needs at least. */
  const A_COLON_AND_NULL: bytes := [COLON] + NULL_TEXT
  const A_MEMBER: bytes := [QUOTE, QUOTE] + A_COLON_AND_NULL

  lemma ColonAndNullStand(twin: bytes, p: nat, rest: bytes, depth: nat, before: Value, toDouble: ToDouble)
    requires p <= |twin| && twin[p..] == A_COLON_AND_NULL + rest
    ensures Lex(twin, p) == Token(MemberSeparator, p, p + 1)
    ensures var r := ParseValue(twin, p + 1, depth, before, toDouble); r.Threw? || (r.Ok? && r.pos == p + 5)
  {
    assert twin[p] == twin[p..][0] == COLON;
    assert twin[p + 1..] == twin[p..][1..] == NULL_TEXT + rest;
    NullStandsAt(twin, p + 1, rest);
    hide SkipComments;
  }

  lemma MemberStands(twin: bytes, p: nat, rest: bytes, previous: bytes)
    requires p <= |twin| && twin[p..] == A_MEMBER + rest
    ensures SkipComments(twin, p) == Token(StringToken, p, p + 2) && Text(twin, Token(StringToken, p, p + 2)) == [QUOTE, QUOTE]
    ensures NameAt(twin, p, previous) == Member([], p + 2)
  {
    assert twin[p] == twin[p..][0] == QUOTE && twin[p + 1] == twin[p..][1] == QUOTE;
    assert StringEnd(twin, p + 1) == Some(p + 2);
    assert Lex(twin, p) == Token(StringToken, p, p + 2);
    assert twin[p..p + 2] == [QUOTE, QUOTE];
  }

  lemma {:induction false} NamedCompleted(doc: bytes, p: nat, depth: nat, name: bytes, ms: Members, rest: bytes, toDouble: ToDouble) returns (c: bytes)
    requires p <= |doc| && Readable(doc, p) && CutOff(doc, ParseNamed(doc, p, depth, name, ms, toDouble))
    ensures Complete(doc, c, ParseNamed(Completed(doc, c, rest), p, depth, name, ms, toDouble))
    decreases |doc| - p, 1
  {
    var colon := Lex(doc, p);
    var before := Fetch(ms, NameKey(name));
    assert colon.kind.EndOfStream? ==> SpaceEnd(doc, p) == |doc|;
    assert !colon.kind.ErrorToken? && (!colon.kind.EndOfStream? ==> Readable(doc, colon.end));
    hide ParseValue, Put, Fetch, Recover, Readable, Lex, SpaceEnd;
    if colon.kind.EndOfStream? {
      c := A_COLON_AND_NULL;
      CompletedExtends(doc, c, rest);
      var twin := Completed(doc, c, rest);
      SpaceExtends(doc, twin, p);
      assert Lex(twin, p) == Lex(twin, |doc| + 1) by { SameLex(twin, p, |doc| + 1); }
      ColonAndNullStand(twin, |doc| + 1, rest, depth, before, toDouble);
    } else {
      c := ValueCompleted(doc, colon.end, depth, before, rest, toDouble);
      CompletedExtends(doc, c, rest);
      LexExtends(doc, Completed(doc, c, rest), p);
    }
  }

  lemma SameLex(doc: bytes, p: nat, q: nat)
    requires p <= |doc| && q <= |doc| && SpaceEnd(doc, p) == SpaceEnd(doc, q)
    ensures Lex(doc, p) == Lex(doc, q)
  {}

  lemma {:induction false} MembersCompleted(doc: bytes, p: nat, depth: nat, name: bytes, ms: Members, rest: bytes, toDouble: ToDouble) returns (c: bytes)
    requires p <= |doc| && Readable(doc, p) && CutOff(doc, ParseMembers(doc, p, depth, name, ms, toDouble))
    ensures Complete(doc, c, ParseMembers(Completed(doc, c, rest), p, depth, name, ms, toDouble))
    decreases |doc| - p, 2
  {
    hide ParseNamed, NameAt, SeparatorAt, Recover, Readable, SkipComments, Lex;
    var naming := NameAt(doc, p, name);
    if naming.BadName? {
      c := NameCompleted(doc, p, depth, name, ms, rest, toDouble);
    } else {
      var r := ParseNamed(doc, naming.pos, depth, naming.name, ms, toDouble);
      if r.Fail? {
        assert Readable(doc, naming.pos) by { NameIsReadable(doc, p, name); }
        var c1 := NamedCompleted(doc, naming.pos, depth, naming.name, ms, [RBRACE] + rest, toDouble);
        c := c1 + [RBRACE];
        CompletedExtends(doc, c, rest);
        NameExtends(doc, Completed(doc, c, rest), p, name);
        BracketBehind(doc, c1, RBRACE, rest);
        BraceCloses(Completed(doc, c, rest), |doc| + 1 + |c1|);
      } else {
        c := RestCompleted(doc, p, depth, name, ms, rest, toDouble);
      }
    }
  }

  lemma NameIsReadable(doc: bytes, p: nat, previous: bytes)
    requires p <= |doc| && Readable(doc, p) && !NameAt(doc, p, previous).BadName?
    ensures Readable(doc, NameAt(doc, p, previous).pos)
  {
    NameExtends(doc, Completed(doc, [], []), p, previous) by { CompletedExtends(doc, [], []); }
  }

  lemma BraceCloses(twin: bytes, q: nat)
    requires q <= |twin| && Lex(twin, q).kind.ObjectEnd? && SkipComments(twin, q) == Lex(twin, q)
    ensures SeparatorAt(twin, q) == Closing(Lex(twin, q).end)
  {}

  /** The document ends where a name or a closing brace should come. */
  lemma NameCompleted(doc: bytes, p: nat, depth: nat, name: bytes, ms: Members, rest: bytes, toDouble: ToDouble) returns (c: bytes)
    requires p <= |doc| && Readable(doc, p) && CutOff(doc, ParseMembers(doc, p, depth, name, ms, toDouble))
    requires NameAt(doc, p, name).BadName?
    ensures Complete(doc, c, ParseMembers(Completed(doc, c, rest), p, depth, name, ms, toDouble))
  {
    hide ParseNamed, SeparatorAt, Recover, Readable, SkipComments, Lex, DecodeString, ParseValue;
    assert SkipComments(doc, p).kind.EndOfStream?;
    if name == [] {
      c := [RBRACE];
      ByteIsNext(doc, RBRACE, rest);
      CompletedExtends(doc, c, rest);
      SkipExtends(doc, Completed(doc, c, rest), p);
    } else {
      c := A_MEMBER + [RBRACE];
      CompletedExtends(doc, c, rest);
      var twin := Completed(doc, c, rest);
      SkipExtends(doc, twin, p);
      MemberCompletes(twin, p, |doc| + 1, depth, name, ms, rest, toDouble);
    }
  }

  lemma MemberCompletes(twin: bytes, p: nat, q: nat, depth: nat, name: bytes, ms: Members, rest: bytes, toDouble: ToDouble)
    requires p <= |twin| && q <= |twin| && twin[q..] == A_MEMBER + [RBRACE] + rest
    requires SkipComments(twin, p) == SkipComments(twin, q)
    ensures var r := ParseMembers(twin, p, depth, name, ms, toDouble); r.Threw? || (r.Ok? && r.pos == q + 8)
  {
    var after := [RBRACE] + rest;
    assert twin[q..] == A_MEMBER + after;
    MemberStands(twin, q, after, name);
    assert NameAt(twin, p, name) == Member([], q + 2) by { hide SkipComments; }
    assert twin[q + 2..] == twin[q..][2..] == A_COLON_AND_NULL + after;
    var before := Fetch(ms, NameKey([]));
    ColonAndNullStand(twin, q + 2, after, depth, before, toDouble);
    assert twin[q + 7] == twin[q..][7] == RBRACE;
    ByteStandsAt(twin, q + 7, RBRACE);
    BraceCloses(twin, q + 7);
    hide ParseValue, SkipComments, Lex, NameAt, SeparatorAt;
    assert ParseNamed(twin, q + 2, depth, [], ms, toDouble).Threw? ||
           (ParseNamed(twin, q + 2, depth, [], ms, toDouble).Ok? && ParseNamed(twin, q + 2, depth, [], ms, toDouble).pos == q + 7);
  }

  /** A member has been read; the document ends somewhere behind it. */
  lemma {:induction false} RestCompleted(doc: bytes, p: nat, depth: nat, name: bytes, ms: Members, rest: bytes, toDouble: ToDouble) returns (c: bytes)
    requires p <= |doc| && Readable(doc, p) && CutOff(doc, ParseMembers(doc, p, depth, name, ms, toDouble))
    requires var n := NameAt(doc, p, name); n.Member? && ParseNamed(doc, n.pos, depth, n.name, ms, toDouble).Ok?
    ensures Complete(doc, c, ParseMembers(Completed(doc, c, rest), p, depth, name, ms, toDouble))
    decreases |doc| - p, 1
  {
    hide ParseNamed, NameAt, SeparatorAt, Recover, Readable, SkipComments, Lex;
    var n := NameAt(doc, p, name);
    var r := ParseNamed(doc, n.pos, depth, n.name, ms, toDouble);
    var some := Completed(doc, [], []);
    CompletedExtends(doc, [], []);
    NameExtends(doc, some, p, name);
    NamedExtends(doc, some, n.pos, depth, n.name, ms, toDouble);
    var next := SeparatorAt(doc, r.pos);
    if SkipComments(doc, r.pos).kind.EndOfStream? {
      c := [RBRACE];
      ByteIsNext(doc, RBRACE, rest);
      CompletedExtends(doc, c, rest);
      BraceAfterEnd(doc, Completed(doc, c, rest), r.pos);
    } else {
      assert next.Another? by { NotCutOffThere(doc, r.pos); }
      SeparatorExtends(doc, some, r.pos);
      c := MembersCompleted(doc, next.pos, depth, n.name, r.value, rest, toDouble);
      CompletedExtends(doc, c, rest);
      SeparatorExtends(doc, Completed(doc, c, rest), r.pos);
    }
    NameExtends(doc, Completed(doc, c, rest), p, name);
    NamedExtends(doc, Completed(doc, c, rest), n.pos, depth, n.name, ms, toDouble);
  }

  lemma NotCutOffThere(doc: bytes, p: nat)
    requires p <= |doc| && !SkipComments(doc, p).kind.EndOfStream?
    ensures SeparatorAt(doc, p).Missing? ==> !SeparatorAt(doc, p).token.kind.EndOfStream?
  {
    SkipCommentsAfter(doc, p);
  }

  lemma BraceAfterEnd(doc: bytes, twin: bytes, p: nat)
    requires Extends(twin, doc) && p <= |doc| && Readable(doc, p) && SkipComments(doc, p).kind.EndOfStream?
    requires Lex(twin, |doc| + 1) == SkipComments(twin, |doc| + 1) == Token(ObjectEnd, |doc| + 1, |doc| + 2)
    ensures SeparatorAt(twin, p) == Closing(|doc| + 2)
  {
    SkipExtends(doc, twin, p);
    if Lex(doc, p).kind.Comment? {
      LexExtends(doc, twin, p);
    } else {
      SpaceExtends(doc, twin, p);
      SameLex(twin, p, |doc| + 1);
    }
    hide SkipComments, Lex;
  }

  /**
    If the error of a document is its end, and its tokens can be read, the document is only cut
    off: something can be put behind it so that it is accepted, or at least fails by its depth only.
  */
  lemma CutOffCanBeCompleted(doc: bytes, root: Value, toDouble: ToDouble)
    requires Readable(doc, 0) && CutOff(doc, Parse(doc, root, toDouble))
    ensures exists c :: !Parse(doc + c, root, toDouble).Fail?
  {
    hide ParseValue, Readable;
    var c := ValueCompleted(doc, 0, 0, root, [], toDouble);
    assert Completed(doc, c, []) == doc + ([LF] + c);
    assert !Parse(doc + ([LF] + c), root, toDouble).Fail?;
  }
}
