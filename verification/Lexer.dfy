/**
  What Reader::readToken recognises: for every kind of token, the place where it ends. The
  document is followed by a NUL that may be looked at but is never consumed.
*/
module Lexer {
  import opened Bytes
  import opened Strings

  datatype Kind =
    | EndOfStream
    | ObjectBegin
    | ObjectEnd
    | ArrayBegin
    | ArrayEnd
    | StringToken
    | Number
    | True
    | False
    | NullToken
    | ArraySeparator
    | MemberSeparator
    | Comment
    | ErrorToken

  datatype Token = Token(kind: Kind, start: nat, end: nat)

  /** The token lies in the document. */
  predicate Inside(t: Token, doc: bytes) { t.start <= t.end <= |doc| }

  function Text(doc: bytes, t: Token): bytes
    requires Inside(t, doc)
  {
    doc[t.start..t.end]
  }

  /** *current_, the closing NUL included. */
  function At(doc: bytes, pos: nat): byte { if pos < |doc| then doc[pos] else NUL }

  function SpaceEnd(doc: bytes, pos: nat): (p: nat)
    requires pos <= |doc|
    ensures pos <= p <= |doc|
    ensures p < |doc| ==> !IsSpace(doc[p])
    decreases |doc| - pos
  {
    if pos < |doc| && IsSpace(doc[pos]) then SpaceEnd(doc, pos + 1) else pos
  }

  function DigitsEnd(doc: bytes, pos: nat): (p: nat)
    requires pos <= |doc|
    ensures pos <= p <= |doc|
    decreases |doc| - pos
  {
    if pos < |doc| && IsDigit(doc[pos]) then DigitsEnd(doc, pos + 1) else pos
  }

  /** readNumber: digits, then a fraction, then an exponent, each part possibly empty. */
  function NumberEnd(doc: bytes, pos: nat): (p: nat)
    requires pos <= |doc|
    ensures pos <= p <= |doc|
  {
    ExponentEnd(doc, FractionEnd(doc, DigitsEnd(doc, pos)))
  }

  function FractionEnd(doc: bytes, pos: nat): (p: nat)
    requires pos <= |doc|
    ensures pos <= p <= |doc|
  {
    if At(doc, pos) == DOT then DigitsEnd(doc, pos + 1) else pos
  }

  function ExponentEnd(doc: bytes, pos: nat): (p: nat)
    requires pos <= |doc|
    ensures pos <= p <= |doc|
  {
    if At(doc, pos) != LOWER_E && At(doc, pos) != UPPER_E then pos
    else if At(doc, pos + 1) == PLUS || At(doc, pos + 1) == MINUS then DigitsEnd(doc, pos + 2)
    else DigitsEnd(doc, pos + 1)
  }

  /** A token that readNumber accepts: nothing of it is left over. */
  predicate IsNumberToken(text: bytes) {
    text != [] && (IsDigit(text[0]) || text[0] == MINUS) && NumberEnd(text, 1) == |text|
  }

  /** The place of the slash that closes a block comment, or the end of the document. */
  function BlockEnd(doc: bytes, pos: nat): (p: nat)
    requires pos <= |doc|
    ensures pos <= p <= |doc|
    decreases |doc| - pos
  {
    if pos == |doc| then pos
    else if doc[pos] == STAR && At(doc, pos + 1) == SLASH then pos + 1
    else BlockEnd(doc, pos + 1)
  }

  /** Just past the end of the line, a CR LF pair taken together. */
  function LineEnd(doc: bytes, pos: nat): (p: nat)
    requires pos <= |doc|
    ensures pos <= p <= |doc|
    decreases |doc| - pos
  {
    if pos == |doc| then pos
    else if doc[pos] == LF then pos + 1
    else if doc[pos] == CR then (if At(doc, pos + 1) == LF then pos + 2 else pos + 1)
    else LineEnd(doc, pos + 1)
  }

  /** Whether a comment whose first slash has been read is complete, and where it ends. */
  function CommentEnd(doc: bytes, pos: nat): (r: (bool, nat))
    requires pos <= |doc|
    ensures pos <= r.1 <= |doc|
  {
    if At(doc, pos) == STAR then
      var p := BlockEnd(doc, pos + 1);
      if p < |doc| then (true, p + 1) else (false, p)
    else if At(doc, pos) == SLASH then (true, LineEnd(doc, pos + 1))
    else (false, if pos < |doc| then pos + 1 else pos)
  }

  predicate StandsAt(doc: bytes, pos: nat, word: bytes) {
    pos + |word| <= |doc| && doc[pos..pos + |word|] == word
  }

  /** Kind and end of the token whose first byte is at pos. */
  function KindAndEnd(doc: bytes, pos: nat): (r: (Kind, nat))
    requires pos <= |doc|
    ensures pos <= r.1 <= |doc|
    ensures r.1 == pos ==> r.0.EndOfStream? && pos == |doc|
  {
    var c := At(doc, pos);
    if pos == |doc| then (EndOfStream, pos)
    else if c == LBRACE then (ObjectBegin, pos + 1)
    else if c == RBRACE then (ObjectEnd, pos + 1)
    else if c == LBRACKET then (ArrayBegin, pos + 1)
    else if c == RBRACKET then (ArrayEnd, pos + 1)
    else if c == QUOTE then
      match StringEnd(doc, pos + 1)
      case Some(e) => (StringToken, e)
      case None => (ErrorToken, |doc|)
    else if c == SLASH then
      var (ok, e) := CommentEnd(doc, pos + 1);
      (if ok then Comment else ErrorToken, e)
    else if IsDigit(c) || c == MINUS then (Number, NumberEnd(doc, pos + 1))
    else if c == LOWER_T then Word(doc, pos, TRUE_TEXT, True)
    else if c == LOWER_F then Word(doc, pos, FALSE_TEXT, False)
    else if c == LOWER_N then Word(doc, pos, NULL_TEXT, NullToken)
    else if c == COMMA then (ArraySeparator, pos + 1)
    else if c == COLON then (MemberSeparator, pos + 1)
    else if c == NUL then (EndOfStream, pos + 1)
    else (ErrorToken, pos + 1)
  }

  /** match(): all of the word or, after its first byte, nothing. */
  function Word(doc: bytes, pos: nat, word: bytes, kind: Kind): (Kind, nat)
    requires pos < |doc| && |word| > 0
  {
    if StandsAt(doc, pos + 1, word[1..]) then (kind, pos + |word|) else (ErrorToken, pos + 1)
  }

  predicate BeginsIncompleteWord(doc: bytes, pos: nat)
    requires pos < |doc|
  {
    (doc[pos] == 0x74 && !StandsAt(doc, pos, TRUE_TEXT)) ||
    (doc[pos] == 0x66 && !StandsAt(doc, pos, FALSE_TEXT)) ||
    (doc[pos] == 0x6E && !StandsAt(doc, pos, NULL_TEXT))
  }

  /** No bracket, separator, quote, slash, digit or minus, no first letter of a word, and no NUL. */
  predicate BeginsNothing(c: byte) {
    c !in [0x7B, 0x7D, 0x5B, 0x5D, 0x2C, 0x3A, 0x22, 0x2F, 0x2D, 0x74, 0x66, 0x6E, 0x00] && !(0x30 <= c <= 0x39)
  }

  /**
    What cannot be read: a word that is not complete and a byte that begins nothing are tokens of
    one byte, a string without its closing quote reaches to the end of the document.
  */
  lemma UnreadableTokens(doc: bytes, pos: nat)
    requires pos < |doc|
    ensures BeginsIncompleteWord(doc, pos) || BeginsNothing(doc[pos]) ==> KindAndEnd(doc, pos) == (ErrorToken, pos + 1)
    ensures doc[pos] == 0x22 && StringEnd(doc, pos + 1).None? ==> KindAndEnd(doc, pos) == (ErrorToken, |doc|)
  {
    hide NumberEnd, CommentEnd, StringEnd;
    WordSplit(doc, pos, TRUE_TEXT);
    WordSplit(doc, pos, FALSE_TEXT);
    WordSplit(doc, pos, NULL_TEXT);
  }

  lemma WordSplit(doc: bytes, pos: nat, word: bytes)
    requires pos < |doc| && word != []
    ensures StandsAt(doc, pos, word) <==> doc[pos] == word[0] && StandsAt(doc, pos + 1, word[1..])
  {
    if pos + |word| <= |doc| {
      assert doc[pos..pos + |word|] == [doc[pos]] + doc[pos + 1..pos + |word|];
      assert word == [word[0]] + word[1..];
    }
  }

  /** readToken. Every token but the end of the stream consumes something. */
  function Lex(doc: bytes, pos: nat): (t: Token)
    requires pos <= |doc|
    ensures Inside(t, doc) && pos <= t.start
    ensures t.end == pos ==> t.kind.EndOfStream?
    ensures t.start == t.end ==> t.kind.EndOfStream? && t.end == |doc|
    ensures t.kind.StringToken? ==> IsStringToken(Text(doc, t))
  {
    var start := SpaceEnd(doc, pos);
    var (kind, end) := KindAndEnd(doc, start);
    assert kind.StringToken? ==> IsStringToken(doc[start..end]) by {
      if kind.StringToken? { AcceptedStringIsToken(doc, start, end); }
    }
    Token(kind, start, end)
  }

  lemma AcceptedStringIsToken(doc: bytes, start: nat, end: nat)
    requires start < end <= |doc| && doc[start] == QUOTE && StringEnd(doc, start + 1) == Some(end)
    ensures IsStringToken(doc[start..end])
  {
    hide StringEnd;
    PartIsToken(doc, start, doc[start..end]);
  }

  lemma PartIsToken(doc: bytes, start: nat, text: bytes)
    requires StandsAt(doc, start, text) && text != [] && text[0] == QUOTE
    requires StringEnd(doc, start + 1) == Some(start + |text|)
    ensures IsStringToken(text)
  {
    StringEndInside(doc, start, text, 1);
    hide StringEnd;
  }

  /** The first token from pos that is no comment. */
  function SkipComments(doc: bytes, pos: nat): (t: Token)
    requires pos <= |doc|
    ensures Inside(t, doc) && pos <= t.start
    ensures t.end == pos ==> t.kind.EndOfStream?
    ensures t.start == t.end ==> t.kind.EndOfStream? && t.end == |doc|
    ensures t.kind.StringToken? ==> IsStringToken(Text(doc, t))
    ensures !t.kind.Comment?
    decreases |doc| - pos
  {
    var t := Lex(doc, pos);
    if t.kind.Comment? then SkipComments(doc, t.end) else t
  }

  lemma SkipCommentsAfter(doc: bytes, pos: nat)
    requires pos <= |doc|
    ensures SkipComments(doc, pos) ==
            if Lex(doc, pos).kind.Comment? then SkipComments(doc, Lex(doc, pos).end) else Lex(doc, pos)
  {}

  /** recoverFromError: past the next token of one kind, or past an end of stream. */
  function Recover(doc: bytes, pos: nat, kind: Kind): (p: nat)
    requires pos <= |doc|
    ensures pos <= p <= |doc|
    decreases |doc| - pos
  {
    var t := Lex(doc, pos);
    if t.kind == kind || t.kind.EndOfStream? then t.end else Recover(doc, t.end, kind)
  }
}
