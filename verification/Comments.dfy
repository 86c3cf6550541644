/**
  Comments: what they are, byte by byte, that the lexer takes exactly these as comment tokens, and
  documents that have comments between their lexemes where the reader allows them.
*/
module Comments {
  import opened Bytes
  import opened Lexer
  import opened Texts

  // ----- What a comment is -----

  /** A line without its end goes to b, and its end, if there is one, is LF, CR or the pair. */
  predicate EndsLine(doc: bytes, b: nat, e: nat) {
    b <= e <= |doc| &&
    if b == |doc| then e == b
    else if doc[b] == LF then e == b + 1
    else doc[b] == CR && e == if b + 1 < |doc| && doc[b + 1] == LF then b + 2 else b + 1
  }

  predicate NoLineEnd(doc: bytes, from: nat, to: nat)
    requires from <= to <= |doc|
  {
    forall i :: from <= i < to ==> doc[i] != LF && doc[i] != CR
  }

  /** Two slashes and the rest of the line, up to b, with its end. */
  ghost predicate IsLineComment(doc: bytes, pos: nat, e: nat) {
    pos + 2 <= |doc| && doc[pos] == SLASH && doc[pos + 1] == SLASH &&
    exists b :: pos + 2 <= b <= |doc| && NoLineEnd(doc, pos + 2, b) && EndsLine(doc, b, e)
  }

  /** A star and a slash stand at i. */
  predicate Closes(doc: bytes, i: nat) { i + 2 <= |doc| && doc[i] == STAR && doc[i + 1] == SLASH }

  /** From a slash and a star to the first star and slash behind them. */
  ghost predicate IsBlockComment(doc: bytes, pos: nat, e: nat) {
    pos + 4 <= e <= |doc| && doc[pos] == SLASH && doc[pos + 1] == STAR &&
    Closes(doc, e - 2) && forall i :: pos + 2 <= i < e - 2 ==> !Closes(doc, i)
  }

  ghost predicate IsComment(doc: bytes, pos: nat, e: nat) {
    IsLineComment(doc, pos, e) || IsBlockComment(doc, pos, e)
  }

  // ----- What the lexer takes for one -----

  lemma {:induction false} BlockEndExactly(doc: bytes, pos: nat)
    requires pos <= |doc|
    ensures var p := BlockEnd(doc, pos);
            (p < |doc| ==> pos < p && Closes(doc, p - 1)) &&
            forall i :: pos <= i < (if p < |doc| then p - 1 else p) ==> !Closes(doc, i)
    decreases |doc| - pos
  {
    if pos < |doc| && !Closes(doc, pos) { BlockEndExactly(doc, pos + 1); }
  }

  lemma {:induction false} LineEndFound(doc: bytes, pos: nat) returns (b: nat)
    requires pos <= |doc|
    ensures pos <= b <= |doc| && NoLineEnd(doc, pos, b) && EndsLine(doc, b, LineEnd(doc, pos))
    decreases |doc| - pos
  {
    if pos == |doc| || doc[pos] == LF || doc[pos] == CR { b := pos; } else { b := LineEndFound(doc, pos + 1); }
  }

  /** A line ends in one way only. */
  lemma LineEndsOnce(doc: bytes, pos: nat, b: nat, e: nat, b': nat, e': nat)
    requires pos <= b <= |doc| && NoLineEnd(doc, pos, b) && EndsLine(doc, b, e)
    requires pos <= b' <= |doc| && NoLineEnd(doc, pos, b') && EndsLine(doc, b', e')
    ensures b == b' && e == e'
  {}

  /** A slash begins a comment token that ends at e if and only if a comment stands there. */
  lemma CommentsExactly(doc: bytes, pos: nat, e: nat)
    requires pos < |doc| && doc[pos] == SLASH
    ensures KindAndEnd(doc, pos) == (Comment, e) <==> IsComment(doc, pos, e)
  {
    if At(doc, pos + 1) == STAR {
      BlockEndExactly(doc, pos + 2);
      var p := BlockEnd(doc, pos + 2);
      if p < |doc| { assert Closes(doc, p - 1); }
      if IsBlockComment(doc, pos, e) { assert Closes(doc, e - 2); }
    } else if At(doc, pos + 1) == SLASH {
      var b := LineEndFound(doc, pos + 2);
      if IsLineComment(doc, pos, e) {
        var b' :| pos + 2 <= b' <= |doc| && NoLineEnd(doc, pos + 2, b') && EndsLine(doc, b', e);
        LineEndsOnce(doc, pos + 2, b, LineEnd(doc, pos + 2), b', e);
      }
    }
  }

  /** A slash that begins no comment is an error: to the end of the document, or with the byte behind it. */
  lemma IncompleteComment(doc: bytes, pos: nat)
    requires pos < |doc| && doc[pos] == SLASH && forall e :: !IsComment(doc, pos, e)
    ensures KindAndEnd(doc, pos) ==
            (ErrorToken, if At(doc, pos + 1) == STAR then |doc| else if pos + 1 < |doc| then pos + 2 else pos + 1)
  {
    var (kind, e) := KindAndEnd(doc, pos);
    CommentsExactly(doc, pos, e);
    assert !IsComment(doc, pos, e);
  }

  /** Every comment is one token that ends where the comment ends. */
  lemma CommentIsToken(doc: bytes, pos: nat, e: nat)
    requires pos < |doc| && IsComment(doc, pos, e)
    ensures pos < e <= |doc| && Lex(doc, pos) == Token(Comment, pos, e)
  {
    CommentsExactly(doc, pos, e);
    assert SpaceEnd(doc, pos) == pos;
  }

  /** Line comments with each of their four ends, and block comments, as texts. */
  lemma CommentTexts(body: bytes, rest: bytes)
    ensures LF !in body && CR !in body ==>
              var line := [SLASH, SLASH] + body;
              Lex(line + [LF] + rest, 0) == Token(Comment, 0, |line| + 1) &&
              Lex(line + [CR, LF] + rest, 0) == Token(Comment, 0, |line| + 2) &&
              (rest == [] || rest[0] != LF ==> Lex(line + [CR] + rest, 0) == Token(Comment, 0, |line| + 1)) &&
              Lex(line, 0) == Token(Comment, 0, |line|)
    ensures (forall i :: !Closes(body + [STAR], i)) ==>
              Lex([SLASH, STAR] + body + [STAR, SLASH] + rest, 0) == Token(Comment, 0, |body| + 4)
  {
    if LF !in body && CR !in body {
      LineCommentText(body, [LF] + rest, 1);
      LineCommentText(body, [CR, LF] + rest, 2);
      if rest == [] || rest[0] != LF { LineCommentText(body, [CR] + rest, 1); }
      LineCommentText(body, [], 0);
      var line := [SLASH, SLASH] + body;
      assert line + ([LF] + rest) == line + [LF] + rest;
      assert line + ([CR, LF] + rest) == line + [CR, LF] + rest;
      assert line + ([CR] + rest) == line + [CR] + rest;
      assert line + [] == line;
    }
    if forall i :: !Closes(body + [STAR], i) { BlockCommentText(body, rest); }
  }

  lemma LineCommentText(body: bytes, after: bytes, n: nat)
    requires LF !in body && CR !in body && EndsLine(after, 0, n)
    ensures Lex([SLASH, SLASH] + body + after, 0) == Token(Comment, 0, |body| + 2 + n)
  {
    var line := [SLASH, SLASH] + body;
    var doc := line + after;
    forall i | 2 <= i < |line|
      ensures doc[i] != LF && doc[i] != CR
    {
      assert doc[i] == body[i - 2];
    }
    assert NoLineEnd(doc, 2, |line|) && EndsLine(doc, |line|, |line| + n);
    CommentIsToken(doc, 0, |line| + n);
  }

  lemma BlockCommentText(body: bytes, rest: bytes)
    requires forall i :: !Closes(body + [STAR], i)
    ensures Lex([SLASH, STAR] + body + [STAR, SLASH] + rest, 0) == Token(Comment, 0, |body| + 4)
  {
    var doc := [SLASH, STAR] + body + [STAR, SLASH] + rest;
    forall i | 2 <= i < |body| + 2
      ensures !Closes(doc, i)
    {
      var open := body + [STAR];
      assert doc[i] == open[i - 2] && doc[i + 1] == open[i - 1];
      assert !Closes(open, i - 2);
    }
    assert Closes(doc, |body| + 2);
    CommentIsToken(doc, 0, |body| + 4);
  }

  // ----- Documents with comments -----

  /**
    Where the reader allows comments: behind l, before what follows, unless that is a colon or
    closes an array that has just been opened.
  */
  predicate MayRemark(l: Lexeme, ls: Lexemes) {
    ls.More? ==> ls.head != COLON_LEXEME && !(l == OPEN_ARRAY && ls.head == CLOSE_ARRAY)
  }

  /**
    From pos to its end the document is these lexemes, with any white space before and after each,
    and comments where they are allowed; `free` says whether they are before the first lexeme.
  */
  ghost predicate Remarked(doc: bytes, pos: nat, ls: Lexemes, free: bool)
    requires pos <= |doc|
    decreases |doc| - pos, ls
  {
    if pos < |doc| && IsSpace(doc[pos]) then Remarked(doc, pos + 1, ls, free)
    else
      (match ls
       case End => pos == |doc|
       case More(l, tail) => StandsAt(doc, pos, l.text) && Remarked(doc, pos + |l.text|, tail, MayRemark(l, tail))) ||
      (free && exists e :: pos < e <= |doc| && IsComment(doc, pos, e) && Remarked(doc, e, ls, free))
  }

  /** A document without comments is one of these. */
  lemma {:induction false} SpelledIsRemarked(doc: bytes, pos: nat, ls: Lexemes, free: bool)
    requires pos <= |doc| && SpellsAt(doc, pos, ls)
    ensures Remarked(doc, pos, ls, free)
    decreases |doc| - pos, ls
  {
    if pos < |doc| && IsSpace(doc[pos]) {
      SpelledIsRemarked(doc, pos + 1, ls, free);
    } else if ls.More? {
      SpelledIsRemarked(doc, pos + |ls.head.text|, ls.tail, MayRemark(ls.head, ls.tail));
    }
  }

  lemma RemarkByte(doc: bytes, pos: nat, k: Lexemes, free: bool)
    requires pos <= |doc| && Remarked(doc, pos, k, free) && EndsNumber(k)
    ensures EndsNumberByte(At(doc, pos))
  {
    if pos < |doc| && !IsSpace(doc[pos]) && doc[pos] != SLASH {
      assert doc[pos] == doc[pos..pos + |k.head.text|][0];
    }
  }

  lemma {:induction false} RemarkedAfterSpace(doc: bytes, pos: nat, ls: Lexemes, free: bool)
    requires pos <= |doc| && Remarked(doc, pos, ls, free)
    ensures Remarked(doc, SpaceEnd(doc, pos), ls, free)
    decreases |doc| - pos
  {
    if pos < |doc| && IsSpace(doc[pos]) { RemarkedAfterSpace(doc, pos + 1, ls, free); }
  }

  /** A lexeme behind white space is the next token. */
  lemma LexemeIsToken(doc: bytes, pos: nat, l: Lexeme)
    requires pos <= |doc| && ValidLexeme(l) && StandsAt(doc, SpaceEnd(doc, pos), l.text)
    requires l.kind.Number? ==> EndsNumberByte(At(doc, SpaceEnd(doc, pos) + |l.text|))
    ensures var start := SpaceEnd(doc, pos);
            var t := Token(l.kind, start, start + |l.text|);
            Lex(doc, pos) == t && SkipComments(doc, pos) == t && Lexer.Text(doc, t) == l.text && At(doc, start) == l.text[0]
  {
    LexemeHere(doc, SpaceEnd(doc, pos), l);
  }

  /** A comment behind white space is skipped. */
  lemma CommentIsSkipped(doc: bytes, pos: nat, e: nat)
    requires pos <= |doc| && SpaceEnd(doc, pos) < |doc| && IsComment(doc, SpaceEnd(doc, pos), e)
    ensures Lex(doc, pos).kind.Comment? && pos < e <= |doc| && SkipComments(doc, pos) == SkipComments(doc, e)
  {
    var start := SpaceEnd(doc, pos);
    CommentIsToken(doc, start, e);
    assert SpaceEnd(doc, start) == start;
    assert Lex(doc, pos) == Lex(doc, start);
  }

  /** Behind any comments, the next lexeme is the next token. */
  lemma {:induction false} NextRemarked(doc: bytes, pos: nat, l: Lexeme, k: Lexemes, free: bool) returns (t: Token)
    requires pos <= |doc| && Remarked(doc, pos, More(l, k), free) && ValidLexeme(l)
    requires l.kind.Number? ==> EndsNumber(k)
    ensures SkipComments(doc, pos) == t
    ensures Lex(doc, pos) == t || (free && Lex(doc, pos).kind.Comment?)
    ensures t.kind == l.kind && Inside(t, doc) && Lexer.Text(doc, t) == l.text && At(doc, t.start) == l.text[0]
    ensures Remarked(doc, t.end, k, MayRemark(l, k))
    decreases |doc| - pos
  {
    hide Lex, SkipComments, ValidLexeme, MayRemark, IsComment, EndsNumber, EndsNumberByte;
    RemarkedAfterSpace(doc, pos, More(l, k), free);
    var start := SpaceEnd(doc, pos);
    assert start < |doc| ==> !IsSpace(doc[start]);
    if StandsAt(doc, start, l.text) && Remarked(doc, start + |l.text|, k, MayRemark(l, k)) {
      if l.kind.Number? { RemarkByte(doc, start + |l.text|, k, MayRemark(l, k)); }
      LexemeIsToken(doc, pos, l);
      t := Lex(doc, pos);
    } else {
      var e :| start < e <= |doc| && IsComment(doc, start, e) && Remarked(doc, e, More(l, k), free);
      CommentIsSkipped(doc, pos, e);
      t := NextRemarked(doc, e, l, k, free);
    }
  }
}
