/**
  String tokens. The writer's side is valueToQuotedStringN; the reader's side is readString,
  which finds the end of a token, and decodeString, which later reads the token again.
*/
module Strings {
  import opened Bytes
  import opened Diagnostics
  import opened Unicode

  // ----- Where readString stops -----

  /** Just past the closing quote of a string whose body continues at pos; None if the text ends first. */
  function StringEnd(text: bytes, pos: nat): (e: Option<nat>)
    requires pos <= |text|
    ensures e.Some? ==> pos < e.value <= |text| && text[e.value - 1] == QUOTE
    decreases |text| - pos
  {
    if pos == |text| then None
    else if text[pos] == BACKSLASH then
      if pos + 1 == |text| then None else StringEnd(text, pos + 2)
    else if text[pos] == QUOTE then Some(pos + 1)
    else StringEnd(text, pos + 1)
  }

  /** A token that readString accepts: its first byte opens and its last byte closes the string. */
  predicate IsStringToken(text: bytes) {
    |text| >= 2 && text[0] == QUOTE && StringEnd(text, 1) == Some(|text|)
  }

  /** Whether a string ends at e depends on the bytes up to e only, wherever the token stands. */
  lemma {:induction false} StringEndInside(doc: bytes, start: nat, text: bytes, pos: nat)
    requires start + |text| <= |doc| && doc[start..start + |text|] == text
    requires pos <= |text|
    ensures StringEnd(text, pos).Some? ==>
              StringEnd(doc, start + pos) == Some(start + StringEnd(text, pos).value)
    ensures StringEnd(text, pos).None? ==>
              match StringEnd(doc, start + pos)
              case None => true
              case Some(e) => e > start + |text|
    decreases |text| - pos
  {
    if pos < |text| {
      assert text[pos] == doc[start + pos];
      if text[pos] == BACKSLASH {
        if pos + 1 < |text| { StringEndInside(doc, start, text, pos + 2); }
      } else if text[pos] != QUOTE {
        StringEndInside(doc, start, text, pos + 1);
      }
    }
  }

  // ----- decodeString -----

  /** What the code does with the characters at pos: bytes to append and the place to go on. */
  datatype Chunk = Chunk(out: bytes, next: nat) | Bad(message: Message)

  predicate IsEscapeMessage(m: Message) {
    m.BadEscape? || m.FourDigitsExpected? || m.HexDigitExpected? || m.SurrogatePairExpected? || m.SecondEscapeExpected?
  }

  /** The single-letter escapes. */
  function ShortEscape(e: byte): Option<byte> {
    if e == QUOTE || e == SLASH || e == BACKSLASH then Some(e)
    else if e == LOWER_B then Some(BS)
    else if e == LOWER_F then Some(FF)
    else if e == LOWER_N then Some(LF)
    else if e == LOWER_R then Some(CR)
    else if e == LOWER_T then Some(TAB)
    else None
  }

  /** decodeUnicodeEscapeSequence: four digits at pos, before end. */
  function EscapeDigits(text: bytes, pos: nat, end: nat): (r: Result<nat, Message>)
    requires pos <= end <= |text|
    ensures r.Success? <==> pos + 4 <= end && IsHex4(text[pos..pos + 4])
    ensures r.Success? ==> r.value == Hex4Value(text[pos..pos + 4])
  {
    if end - pos < 4 then Failure(FourDigitsExpected)
    else if IsHex4(text[pos..pos + 4]) then Success(Hex4Value(text[pos..pos + 4]))
    else Failure(HexDigitExpected)
  }

  /** decodeUnicodeCodePoint: one escape, or two when the first is a high surrogate. */
  function EscapedCodePoint(text: bytes, pos: nat, end: nat): (r: Result<(nat, nat), Message>)
    requires pos <= end <= |text|
    ensures r.Success? ==> r.value.0 <= MAX_CODE_POINT && pos < r.value.1 <= end
  {
    match EscapeDigits(text, pos, end)
    case Failure(m) => Failure(m)
    case Success(unit) =>
      if !IsHighSurrogate(unit) then Success((unit, pos + 4))
      else if end - (pos + 4) < 6 then Failure(SurrogatePairExpected)
      else if text[pos + 4] != BACKSLASH || text[pos + 5] != LOWER_U then Failure(SecondEscapeExpected)
      else
        match EscapeDigits(text, pos + 6, end)
        case Failure(m) => Failure(m)
        case Success(second) => Success((JoinSurrogates(unit, second), pos + 10))
  }

  /**
    One turn of decodeString's loop on a token that readString accepted. The precondition says
    that the decoder stands where the lexer has stood; two branches of the code, an unescaped
    quote and a backslash with nothing after it, then have no counterpart.
  */
  function ChunkAt(text: bytes, pos: nat): (c: Chunk)
    requires IsStringToken(text) && pos < |text| - 1 && StringEnd(text, pos) == Some(|text|)
    ensures c.Chunk? ==> pos < c.next <= |text| - 1
    ensures c.Chunk? ==> StringEnd(text, c.next) == Some(|text|)
    ensures c.Chunk? ==> c.out != []
  {
    var end := |text| - 1;
    if text[pos] != BACKSLASH then Chunk([text[pos]], pos + 1)
    else
      var escape := text[pos + 1];
      if ShortEscape(escape).Some? then Chunk([ShortEscape(escape).value], pos + 2)
      else if escape != LOWER_U then Bad(BadEscape)
      else
        match EscapedCodePoint(text, pos + 2, end)
        case Failure(m) => Bad(m)
        case Success((unicode, next)) =>
          assert StringEnd(text, next) == Some(|text|) by {
            DigitsAreOrdinary(text, pos + 2);
            if next == pos + 12 { DigitsAreOrdinary(text, pos + 8); }
          }
          Chunk(CodePointToUtf8(unicode), next)
  }

  /** The lexer walks over hexadecimal digits one by one. */
  lemma DigitsAreOrdinary(text: bytes, pos: nat)
    requires pos + 4 <= |text| && IsHex4(text[pos..pos + 4])
    ensures StringEnd(text, pos) == StringEnd(text, pos + 4)
  {
    var d := text[pos..pos + 4];
    assert d[0] == text[pos] && d[1] == text[pos + 1] && d[2] == text[pos + 2] && d[3] == text[pos + 3];
    assert StringEnd(text, pos) == StringEnd(text, pos + 1);
    assert StringEnd(text, pos + 1) == StringEnd(text, pos + 2);
    assert StringEnd(text, pos + 2) == StringEnd(text, pos + 3);
    assert StringEnd(text, pos + 3) == StringEnd(text, pos + 4);
  }

  function DecodeFrom(text: bytes, pos: nat): Result<bytes, Message>
    requires IsStringToken(text) && pos <= |text| - 1 && StringEnd(text, pos) == Some(|text|)
    decreases |text| - pos
  {
    if pos == |text| - 1 then Success([])
    else
      match ChunkAt(text, pos)
      case Bad(m) => Failure(m)
      case Chunk(out, next) =>
        match DecodeFrom(text, next)
        case Failure(m) => Failure(m)
        case Success(rest) => Success(out + rest)
  }

  /** decodeString on a whole token. */
  function DecodeString(text: bytes): Result<bytes, Message>
    requires IsStringToken(text)
  {
    DecodeFrom(text, 1)
  }

  /**
    A token decodes to fewer bytes than it has. So a document of at most STRING_LIMIT bytes has
    no string that is too long for a Value.
  */
  lemma {:induction false} DecodedIsShorter(text: bytes, pos: nat)
    requires IsStringToken(text) && pos <= |text| - 1 && StringEnd(text, pos) == Some(|text|)
    ensures DecodeFrom(text, pos).Success? ==> |DecodeFrom(text, pos).value| <= |text| - 1 - pos
    decreases |text| - pos
  {
    if pos < |text| - 1 && ChunkAt(text, pos).Chunk? { DecodedIsShorter(text, ChunkAt(text, pos).next); }
  }

  lemma {:induction false} DecodingFailsOnEscapes(text: bytes, pos: nat)
    requires IsStringToken(text) && pos <= |text| - 1 && StringEnd(text, pos) == Some(|text|)
    ensures DecodeFrom(text, pos).Failure? ==> IsEscapeMessage(DecodeFrom(text, pos).error)
    decreases |text| - pos
  {
    if pos < |text| - 1 && ChunkAt(text, pos).Chunk? { DecodingFailsOnEscapes(text, ChunkAt(text, pos).next); }
  }

  // ----- The grammar of string bodies (section 7 of RFC 8259) -----

  /** One character of a string body: as it is, or written as an escape. */
  datatype Piece =
    | Plain(c: byte)
    | Short(e: byte)
    | Single(digits: bytes)
    | Pair(high: bytes, low: bytes)

  /** What the reader accepts. */
  predicate ReadablePiece(p: Piece) {
    match p
    case Plain(c) => c != QUOTE && c != BACKSLASH
    case Short(e) => ShortEscape(e).Some?
    case Single(d) => IsHex4(d) && !IsHighSurrogate(Hex4Value(d))
    case Pair(h, l) => IsHex4(h) && IsHighSurrogate(Hex4Value(h)) && IsHex4(l)
  }

  /** What the RFC allows, with its surrogates paired. */
  predicate StandardPiece(p: Piece) {
    ReadablePiece(p) &&
    match p
    case Plain(c) => c >= 0x20
    case Short(_) => true
    case Single(d) => !IsLowSurrogate(Hex4Value(d))
    case Pair(_, l) => IsLowSurrogate(Hex4Value(l))
  }

  function PieceText(p: Piece): (t: bytes)
    ensures t != []
  {
    match p
    case Plain(c) => [c]
    case Short(e) => [BACKSLASH, e]
    case Single(d) => [BACKSLASH, LOWER_U] + d
    case Pair(h, l) => [BACKSLASH, LOWER_U] + h + ([BACKSLASH, LOWER_U] + l)
  }

  function PieceMeaning(p: Piece): bytes
    requires ReadablePiece(p)
  {
    match p
    case Plain(c) => [c]
    case Short(e) => [ShortEscape(e).value]
    case Single(d) => CodePointToUtf8(Hex4Value(d))
    case Pair(h, l) => CodePointToUtf8(JoinSurrogates(Hex4Value(h), Hex4Value(l)))
  }

  predicate ReadablePieces(ps: seq<Piece>) { forall p :: p in ps ==> ReadablePiece(p) }

  function Spell(ps: seq<Piece>): bytes {
    if ps == [] then [] else PieceText(ps[0]) + Spell(ps[1..])
  }

  function Meaning(ps: seq<Piece>): bytes
    requires ReadablePieces(ps)
  {
    if ps == [] then [] else PieceMeaning(ps[0]) + Meaning(ps[1..])
  }

  function StringLexeme(ps: seq<Piece>): bytes { [QUOTE] + Spell(ps) + [QUOTE] }

  /** The text of a readable piece stands at pos. */
  predicate PieceStands(text: bytes, pos: nat, p: Piece) {
    match p
    case Plain(c) => pos + 1 <= |text| && text[pos] == c
    case Short(e) => pos + 2 <= |text| && text[pos] == BACKSLASH && text[pos + 1] == e
    case Single(d) => EscapeStands(text, pos, d)
    case Pair(h, l) => EscapeStands(text, pos, h) && EscapeStands(text, pos + 6, l)
  }

  predicate EscapeStands(text: bytes, pos: nat, d: bytes) {
    pos + 6 <= |text| && text[pos] == BACKSLASH && text[pos + 1] == LOWER_U && text[pos + 2..pos + 6] == d
  }

  lemma PieceStandsIff(text: bytes, pos: nat, p: Piece)
    requires ReadablePiece(p)
    ensures PieceStands(text, pos, p) <==>
            pos + |PieceText(p)| <= |text| && text[pos..pos + |PieceText(p)|] == PieceText(p)
  {
    var t := PieceText(p);
    if pos + |t| <= |text| {
      var u := text[pos..pos + |t|];
      assert u[0] == text[pos];
      match p
      case Plain(c) => assert u == [text[pos]];
      case Short(e) => assert u == [text[pos], text[pos + 1]];
      case Single(d) => EscapeStandsIff(text, pos, d);
      case Pair(h, l) =>
        EscapeStandsIff(text, pos, h);
        EscapeStandsIff(text, pos + 6, l);
        assert u == text[pos..pos + 6] + text[pos + 6..pos + 12];
        assert t == ([BACKSLASH, LOWER_U] + h) + ([BACKSLASH, LOWER_U] + l);
        assert t[..6] == [BACKSLASH, LOWER_U] + h && t[6..] == [BACKSLASH, LOWER_U] + l;
        assert u[..6] == text[pos..pos + 6] && u[6..] == text[pos + 6..pos + 12];
    }
  }

  lemma EscapeStandsIff(text: bytes, pos: nat, d: bytes)
    requires |d| == 4 && pos + 6 <= |text|
    ensures EscapeStands(text, pos, d) <==> text[pos..pos + 6] == [BACKSLASH, LOWER_U] + d
  {
    var u := text[pos..pos + 6];
    assert u == [text[pos], text[pos + 1]] + text[pos + 2..pos + 6];
    assert u[..2] == [text[pos], text[pos + 1]] && u[2..] == text[pos + 2..pos + 6];
    var t := [BACKSLASH, LOWER_U] + d;
    assert t[..2] == [BACKSLASH, LOWER_U] && t[2..] == d;
    assert t[0] == BACKSLASH && t[1] == LOWER_U;
    assert u[0] == text[pos] && u[1] == text[pos + 1];
  }

  /** One readable piece is one step of the lexer. */
  lemma PieceLexed(text: bytes, pos: nat, p: Piece)
    requires ReadablePiece(p) && PieceStands(text, pos, p)
    ensures pos + |PieceText(p)| <= |text|
    ensures StringEnd(text, pos) == StringEnd(text, pos + |PieceText(p)|)
  {
    match p
    case Plain(c) =>
    case Short(e) =>
    case Single(d) =>
      DigitsAreOrdinary(text, pos + 2);
    case Pair(h, l) =>
      DigitsAreOrdinary(text, pos + 2);
      DigitsAreOrdinary(text, pos + 8);
      assert StringEnd(text, pos) == StringEnd(text, pos + 2);
      assert StringEnd(text, pos + 6) == StringEnd(text, pos + 8);
  }

  /** In a complete token, one readable piece is one step of the decoder. */
  lemma PieceDecoded(text: bytes, pos: nat, p: Piece)
    requires ReadablePiece(p) && PieceStands(text, pos, p)
    requires IsStringToken(text) && StringEnd(text, pos) == Some(|text|)
    ensures pos < |text| - 1 && ChunkAt(text, pos) == Chunk(PieceMeaning(p), pos + |PieceText(p)|)
  {
    PieceLexed(text, pos, p);
    match p
    case Plain(c) =>
    case Short(e) =>
    case Single(d) =>
      assert EscapedCodePoint(text, pos + 2, |text| - 1) == Success((Hex4Value(d), pos + 6));
    case Pair(h, l) =>
      assert EscapedCodePoint(text, pos + 2, |text| - 1) ==
             Success((JoinSurrogates(Hex4Value(h), Hex4Value(l)), pos + 12));
  }

  lemma {:induction false} PiecesAreLexed(text: bytes, pos: nat, ps: seq<Piece>)
    requires ReadablePieces(ps)
    requires pos <= |text| && text[pos..] == Spell(ps) + [QUOTE]
    ensures StringEnd(text, pos) == Some(|text|)
    decreases |ps|
  {
    if ps == [] {
      assert text[pos] == text[pos..][0] == QUOTE;
    } else {
      FirstPieceStands(text, pos, ps);
      PieceLexed(text, pos, ps[0]);
      PiecesAreLexed(text, pos + |PieceText(ps[0])|, ps[1..]);
    }
  }

  lemma FirstPieceStands(text: bytes, pos: nat, ps: seq<Piece>)
    requires ReadablePieces(ps) && ps != []
    requires pos <= |text| && text[pos..] == Spell(ps) + [QUOTE]
    ensures PieceStands(text, pos, ps[0])
    ensures pos + |PieceText(ps[0])| <= |text|
    ensures text[pos + |PieceText(ps[0])|..] == Spell(ps[1..]) + [QUOTE]
  {
    var t := PieceText(ps[0]);
    var rest := Spell(ps[1..]) + [QUOTE];
    assert text[pos..] == t + rest;
    assert text[pos..pos + |t|] == text[pos..][..|t|];
    assert text[pos + |t|..] == text[pos..][|t|..];
    PieceStandsIff(text, pos, ps[0]);
  }

  lemma {:induction false} PiecesAreDecoded(text: bytes, pos: nat, ps: seq<Piece>)
    requires ReadablePieces(ps) && IsStringToken(text)
    requires pos <= |text| && text[pos..] == Spell(ps) + [QUOTE]
    ensures StringEnd(text, pos) == Some(|text|)
    ensures DecodeFrom(text, pos) == Success(Meaning(ps))
    decreases |ps|
  {
    PiecesAreLexed(text, pos, ps);
    if ps == [] {
      assert |text[pos..]| == 1;
    } else {
      var next := pos + |PieceText(ps[0])|;
      FirstPieceStands(text, pos, ps);
      PieceDecoded(text, pos, ps[0]);
      PiecesAreDecoded(text, next, ps[1..]);
      DecodeStep(text, pos, PieceMeaning(ps[0]), next);
    }
  }

  lemma DecodeStep(text: bytes, pos: nat, out: bytes, next: nat)
    requires IsStringToken(text) && pos < |text| - 1 && StringEnd(text, pos) == Some(|text|)
    requires ChunkAt(text, pos) == Chunk(out, next)
    requires DecodeFrom(text, next).Success?
    ensures DecodeFrom(text, pos) == Success(out + DecodeFrom(text, next).value)
  {}

  /** Every string written by the grammar is one token of the lexer, and decodes to its meaning. */
  lemma StringsAreAccepted(ps: seq<Piece>)
    requires ReadablePieces(ps)
    ensures IsStringToken(StringLexeme(ps))
    ensures DecodeString(StringLexeme(ps)) == Success(Meaning(ps))
  {
    var text := StringLexeme(ps);
    assert text[1..] == Spell(ps) + [QUOTE];
    PiecesAreLexed(text, 1, ps);
    assert text[|text| - 1] == QUOTE;
    PiecesAreDecoded(text, 1, ps);
  }

  /** The piece that a successful turn of the decoder has read. */
  lemma PieceRead(text: bytes, pos: nat) returns (p: Piece)
    requires IsStringToken(text) && pos < |text| - 1 && StringEnd(text, pos) == Some(|text|)
    requires ChunkAt(text, pos).Chunk?
    ensures ReadablePiece(p) && PieceStands(text, pos, p)
  {
    if text[pos] != BACKSLASH {
      p := Plain(text[pos]);
    } else if text[pos + 1] != LOWER_U {
      p := Short(text[pos + 1]);
    } else if !IsHighSurrogate(Hex4Value(text[pos + 2..pos + 6])) {
      p := Single(text[pos + 2..pos + 6]);
    } else {
      p := Pair(text[pos + 2..pos + 6], text[pos + 8..pos + 12]);
    }
  }

  /** What the decoder accepts is written by the grammar: only a bad escape makes it fail. */
  lemma {:induction false} DecodedPieces(text: bytes, pos: nat) returns (ps: seq<Piece>)
    requires IsStringToken(text) && pos <= |text| - 1 && StringEnd(text, pos) == Some(|text|)
    requires DecodeFrom(text, pos).Success?
    ensures ReadablePieces(ps)
    ensures text[pos..] == Spell(ps) + [QUOTE]
    decreases |text| - pos
  {
    hide ChunkAt, PieceStands, PieceMeaning, PieceText;
    if pos == |text| - 1 {
      ps := [];
      assert text[pos..] == [QUOTE];
    } else {
      var p := PieceRead(text, pos);
      var next := pos + |PieceText(p)|;
      PieceDecoded(text, pos, p);
      PieceStandsIff(text, pos, p);
      var rest := DecodedPieces(text, next);
      ps := [p] + rest;
      assert ps[1..] == rest;
      assert text[pos..] == text[pos..next] + text[next..];
      assert PieceText(p) + (Spell(rest) + [QUOTE]) == Spell(ps) + [QUOTE];
    }
  }

  /** A token decodes to s if and only if it is a spelling of s. */
  lemma DecodingIsTheGrammar(text: bytes, s: bytes)
    requires IsStringToken(text)
    ensures DecodeString(text) == Success(s) <==>
            exists ps: seq<Piece> :: ReadablePieces(ps) && StringLexeme(ps) == text && Meaning(ps) == s
  {
    if DecodeString(text) == Success(s) {
      var ps := DecodedPieces(text, 1);
      assert text == [text[0]] + text[1..];
      assert StringLexeme(ps) == [QUOTE] + (Spell(ps) + [QUOTE]);
      StringsAreAccepted(ps);
    }
    forall ps: seq<Piece> | ReadablePieces(ps) && StringLexeme(ps) == text && Meaning(ps) == s
      ensures DecodeString(text) == Success(s)
    {
      StringsAreAccepted(ps);
    }
  }

  // ----- Escaped code points -----

  /** How RFC 8259 writes a character as one or two escapes. */
  function EscapeOf(cp: nat): (p: Piece)
    requires IsScalarValue(cp)
    ensures StandardPiece(p)
  {
    SurrogateRoundTrip(cp, 0, 0);
    if cp < 0x1_0000 then Single(Hex4(cp))
    else
      Pair(Hex4(HighHalf(cp)), Hex4(LowHalf(cp)))
  }

  /** Reading the escapes of a character gives its UTF-8 form, and different characters differ. */
  lemma EscapedCharacterDecodes(cp: nat)
    requires IsScalarValue(cp)
    ensures IsStringToken(StringLexeme([EscapeOf(cp)]))
    ensures DecodeString(StringLexeme([EscapeOf(cp)])) == Success(CodePointToUtf8(cp))
    ensures DecodeUtf8(CodePointToUtf8(cp)) == Some(cp)
  {
    Utf8Decodes(cp);
    var p := EscapeOf(cp);
    assert PieceMeaning(p) == CodePointToUtf8(cp) by {
      if cp >= 0x1_0000 { SurrogateRoundTrip(cp, 0, 0); }
    }
    StringsAreAccepted([p]);
    assert Meaning([p][1..]) == [];
    assert Meaning([p]) == CodePointToUtf8(cp) + [] == CodePointToUtf8(cp);
  }

  /** One or two escapes of a character, with digits in any mixture of cases. */
  predicate Escapes(p: Piece, cp: nat) {
    match p
    case Single(d) => cp < 0x1_0000 && Capitals(d) == Hex4(cp)
    case Pair(h, l) =>
      0x1_0000 <= cp <= MAX_CODE_POINT && Capitals(h) == Hex4(HighHalf(cp)) && Capitals(l) == Hex4(LowHalf(cp))
    case _ => false
  }

  /** The escapes of a character are read as its UTF-8 form, whatever the case of their digits. */
  lemma EscapesInAnyCaseDecode(cp: nat, p: Piece)
    requires IsScalarValue(cp) && Escapes(p, cp)
    ensures StandardPiece(p) && IsStringToken(StringLexeme([p]))
    ensures DecodeString(StringLexeme([p])) == Success(CodePointToUtf8(cp))
  {
    hide Hex4, Hex4Value, CodePointToUtf8, Capitals;
    SurrogateRoundTrip(cp, 0, 0);
    match p {
      case Single(d) => CaseDoesNotMatter(d, cp);
      case Pair(h, l) =>
        CaseDoesNotMatter(h, HighHalf(cp));
        CaseDoesNotMatter(l, LowHalf(cp));
      case _ =>
    }
    assert PieceMeaning(p) == CodePointToUtf8(cp);
    OnePieceDecodes(p);
  }

  lemma OnePieceDecodes(p: Piece)
    requires ReadablePiece(p)
    ensures IsStringToken(StringLexeme([p]))
    ensures DecodeString(StringLexeme([p])) == Success(PieceMeaning(p))
  {
    hide DecodeString, StringLexeme, IsStringToken, PieceMeaning;
    StringsAreAccepted([p]);
    assert Meaning([p][1..]) == [];
    assert Meaning([p]) == PieceMeaning(p) + [] == PieceMeaning(p);
  }

  /** The two-character escapes of section 7 of RFC 8259: the character after the backslash, and what it stands for. */
  const RFC_ESCAPES: seq<(byte, byte)> :=
    [(0x22, 0x22), (0x5C, 0x5C), (0x2F, 0x2F), (0x62, 0x08), (0x66, 0x0C), (0x6E, 0x0A), (0x72, 0x0D), (0x74, 0x09)]

  predicate IsRfcEscape(e: byte) { exists i :: 0 <= i < |RFC_ESCAPES| && RFC_ESCAPES[i].0 == e }

  /** They are read as the RFC says, and there are no others. */
  lemma ShortEscapesAreTheRfcs(i: nat, e: byte)
    requires i < |RFC_ESCAPES|
    ensures var (letter, meaning) := RFC_ESCAPES[i];
            IsStringToken([0x22, 0x5C, letter, 0x22]) && DecodeString([0x22, 0x5C, letter, 0x22]) == Success([meaning])
    ensures ShortEscape(e).Some? <==> IsRfcEscape(e)
  {
    var (letter, meaning) := RFC_ESCAPES[i];
    OnePieceDecodes(Short(letter));
    assert Spell([Short(letter)]) == [BACKSLASH, letter] + Spell([]);
    assert StringLexeme([Short(letter)]) == [0x22, 0x5C, letter, 0x22];
    if ShortEscape(e).Some? {
      assert RFC_ESCAPES[0].0 == e || RFC_ESCAPES[1].0 == e || RFC_ESCAPES[2].0 == e || RFC_ESCAPES[3].0 == e ||
             RFC_ESCAPES[4].0 == e || RFC_ESCAPES[5].0 == e || RFC_ESCAPES[6].0 == e || RFC_ESCAPES[7].0 == e;
    }
  }

  /** No accepted escape, paired or not, makes the encoder run dry. */
  lemma EscapesAreEncodable(text: bytes, pos: nat, end: nat)
    requires pos <= end <= |text|
    requires EscapedCodePoint(text, pos, end).Success?
    ensures EscapedCodePoint(text, pos, end).value.0 <= MAX_CODE_POINT
    ensures CodePointToUtf8(EscapedCodePoint(text, pos, end).value.0) != []
  {}

  // ----- valueToQuotedStringN -----

  /** isControlCharacter for a char read as a byte: bytes from 0x80 are negative chars. */
  predicate IsControl(c: byte) { 0 < c <= 0x1F }

  /** How the writer's loop writes one byte. */
  function PieceOf(c: byte): (p: Piece)
    ensures StandardPiece(p) && PieceMeaning(p) == [c]
  {
    if c == QUOTE || c == BACKSLASH then Short(c)
    else if c == BS then Short(LOWER_B)
    else if c == FF then Short(LOWER_F)
    else if c == LF then Short(LOWER_N)
    else if c == CR then Short(LOWER_R)
    else if c == TAB then Short(LOWER_T)
    else if IsControl(c) || c == NUL then Single(Hex4(c as nat))
    else Plain(c)
  }

  function PiecesOf(s: bytes): seq<Piece> {
    if s == [] then [] else [PieceOf(s[0])] + PiecesOf(s[1..])
  }

  /** The text of a string value. */
  function Quoted(s: bytes): bytes { StringLexeme(PiecesOf(s)) }

  lemma {:induction false} PiecesOfMeaning(s: bytes)
    ensures ReadablePieces(PiecesOf(s)) && Meaning(PiecesOf(s)) == s
    ensures forall p :: p in PiecesOf(s) ==> StandardPiece(p)
  {
    if s != [] {
      PiecesOfMeaning(s[1..]);
      assert PiecesOf(s)[1..] == PiecesOf(s[1..]);
    }
  }

  /** Reading back what the writer wrote: one token, and the original bytes, NUL included. */
  lemma QuotedRoundTrip(s: bytes)
    ensures IsStringToken(Quoted(s))
    ensures DecodeString(Quoted(s)) == Success(s)
  {
    PiecesOfMeaning(s);
    StringsAreAccepted(PiecesOf(s));
  }

  /** The body of the text of s. */
  function Escaped(s: bytes): bytes { Spell(PiecesOf(s)) }

  lemma {:induction false} EscapedSnoc(s: bytes, c: byte)
    ensures Escaped(s + [c]) == Escaped(s) + PieceText(PieceOf(c))
  {
    if s == [] {
      assert s + [c] == [c];
      assert PiecesOf([c])[1..] == [];
    } else {
      assert (s + [c])[1..] == s[1..] + [c];
      EscapedSnoc(s[1..], c);
      assert PiecesOf(s)[1..] == PiecesOf(s[1..]);
      assert PiecesOf(s + [c])[1..] == PiecesOf(s[1..] + [c]);
    }
  }

  predicate StandardPieces(ps: seq<Piece>) { forall p :: p in ps ==> StandardPiece(p) }

  lemma {:induction false} EscapedConcat(s: bytes, t: bytes)
    ensures Escaped(s + t) == Escaped(s) + Escaped(t)
  {
    if s == [] {
      assert s + t == t;
    } else {
      assert (s + t)[1..] == s[1..] + t;
      EscapedConcat(s[1..], t);
      assert PiecesOf(s)[1..] == PiecesOf(s[1..]);
      assert PiecesOf(s + t)[1..] == PiecesOf(s[1..] + t);
    }
  }

  lemma {:induction false} EscapedPlain(s: bytes)
    requires forall i :: 0 <= i < |s| ==> s[i] >= 0x80
    ensures |Escaped(s)| == |s|
  {
    if s != [] {
      EscapedPlain(s[1..]);
      assert PiecesOf(s)[1..] == PiecesOf(s[1..]);
    }
  }

  lemma EscapedOne(c: byte)
    ensures Escaped([c]) == PieceText(PieceOf(c)) && |Escaped([c])| <= 6
  {
    assert PiecesOf([c])[1..] == [];
    assert Escaped([c]) == PieceText(PieceOf(c)) + [];
  }

  lemma PieceIsNotShorter(p: Piece)
    requires StandardPiece(p)
    ensures |PieceText(p)| >= |Escaped(PieceMeaning(p))|
  {
    var m := PieceMeaning(p);
    if |m| == 1 {
      EscapedOne(m[0]);
      assert m == [m[0]];
    } else {
      EscapedPlain(m);
    }
  }

  /** No spelling that RFC 8259 allows is shorter than what the writer prints. */
  lemma {:induction false} NoSpellingIsShorter(ps: seq<Piece>)
    requires StandardPieces(ps)
    ensures ReadablePieces(ps) && |Spell(ps)| >= |Escaped(Meaning(ps))|
    decreases |ps|
  {
    if ps != [] {
      PieceIsNotShorter(ps[0]);
      NoSpellingIsShorter(ps[1..]);
      EscapedConcat(PieceMeaning(ps[0]), Meaning(ps[1..]));
    }
  }

  /** strnpbrk: the first place of a byte of accept in s, if any. */
  method FindAny(s: bytes, accept: bytes) returns (found: Option<nat>)
    ensures found.None? <==> forall i :: 0 <= i < |s| ==> s[i] !in accept
    ensures found.Some? ==> found.value < |s| && s[found.value] in accept
    ensures found.Some? ==> forall i :: 0 <= i < found.value ==> s[i] !in accept
  {
    for cur := 0 to |s|
      invariant forall i :: 0 <= i < cur ==> s[i] !in accept
    {
      for a := 0 to |accept|
        invariant s[cur] !in accept[..a]
      {
        if accept[a] == s[cur] { return Some(cur); }
      }
    }
    return None;
  }

  /** containsControlCharacter0. */
  method ContainsControl0(s: bytes) returns (found: bool)
    ensures found <==> exists i :: 0 <= i < |s| && (IsControl(s[i]) || s[i] == NUL)
  {
    for cur := 0 to |s|
      invariant forall i :: 0 <= i < cur ==> !IsControl(s[i]) && s[i] != NUL
    {
      if IsControl(s[cur]) || s[cur] == NUL { return true; }
    }
    return false;
  }

  lemma {:induction false} OrdinaryBytesSpellThemselves(s: bytes)
    requires forall i :: 0 <= i < |s| ==> PieceOf(s[i]) == Plain(s[i])
    ensures Escaped(s) == s
  {
    if s != [] {
      OrdinaryBytesSpellThemselves(s[1..]);
      assert PiecesOf(s)[1..] == PiecesOf(s[1..]);
      assert s == [s[0]] + s[1..];
    }
  }

  /** valueToQuotedStringN: the fast path and the escaping loop write the same text. */
  method ValueToQuotedStringN(value: bytes) returns (result: bytes)
    ensures result == Quoted(value)
  {
    var special := FindAny(value, [QUOTE, BACKSLASH, BS, FF, LF, CR, TAB]);
    var control := ContainsControl0(value);
    if special.None? && !control {
      OrdinaryBytesSpellThemselves(value);
      return [QUOTE] + value + [QUOTE];
    }
    result := [QUOTE];
    var body := EscapeBytes(value);
    result := result + body + [QUOTE];
  }

  /** What an escaping loop has written before position i. */
  function EscapedTo(value: bytes, i: nat): bytes
    requires i <= |value|
  {
    Escaped(value[..i])
  }

  lemma EscapedNone(value: bytes)
    ensures EscapedTo(value, 0) == []
  {}

  lemma EscapedNext(value: bytes, i: nat)
    requires i < |value|
    ensures EscapedTo(value, i + 1) == EscapedTo(value, i) + PieceText(PieceOf(value[i]))
  {
    assert value[..i + 1] == value[..i] + [value[i]];
    EscapedSnoc(value[..i], value[i]);
  }

  /** The escaping loop. */
  method EscapeBytes(value: bytes) returns (body: bytes)
    ensures body == Escaped(value)
  {
    body := [];
    for i := 0 to |value|
      invariant body == EscapedTo(value, i)
    {
      var escaped := EscapeByte(value[i]);
      body := body + escaped;
      EscapedNext(value, i);
    }
    assert value[..|value|] == value;
  }

  /** The switch in both escaping loops; the one that stops at a NUL never sees one here. */
  method EscapeByte(c: byte) returns (t: bytes)
    ensures t == PieceText(PieceOf(c))
  {
    if c == QUOTE { t := [BACKSLASH, QUOTE]; }
    else if c == BACKSLASH { t := [BACKSLASH, BACKSLASH]; }
    else if c == BS { t := [BACKSLASH, LOWER_B]; }
    else if c == FF { t := [BACKSLASH, LOWER_F]; }
    else if c == LF { t := [BACKSLASH, LOWER_N]; }
    else if c == CR { t := [BACKSLASH, LOWER_R]; }
    else if c == TAB { t := [BACKSLASH, LOWER_T]; }
    else if IsControl(c) || c == NUL { t := [BACKSLASH, LOWER_U] + Hex4(c as nat); }
    else { t := [c]; }
  }

  // ----- valueToQuotedString -----

  /** A byte string as a C string: up to its first NUL. */
  function CString(s: bytes): bytes {
    if s == [] || s[0] == NUL then [] else [s[0]] + CString(s[1..])
  }

  lemma {:induction false} CStringWhole(s: bytes)
    ensures CString(s) == s <==> NUL !in s
  {
    if s != [] && s[0] != NUL {
      CStringWhole(s[1..]);
      assert s == [s[0]] + s[1..];
      assert NUL in s <==> NUL in s[1..];
    }
  }

  lemma {:induction false} CStringIs(s: bytes, n: nat)
    requires n <= |s| && (forall i :: 0 <= i < n ==> s[i] != NUL) && (n < |s| ==> s[n] == NUL)
    ensures CString(s) == s[..n]
  {
    if n > 0 {
      CStringIs(s[1..], n - 1);
      assert s[..n] == [s[0]] + s[1..][..n - 1];
    }
  }

  /** The character that a pointer into a NUL-terminated value shows. */
  function CharAt(value: bytes, i: nat): byte { if i < |value| then value[i] else NUL }

  /** strpbrk: the first byte before the NUL that is one of the given. */
  method FindAnyInCString(value: bytes, accept: bytes) returns (found: Option<nat>)
    ensures found.Some? ==> found.value < |CString(value)| && CString(value)[found.value] in accept
    ensures found.None? ==> forall i :: 0 <= i < |CString(value)| ==> CString(value)[i] !in accept
  {
    var cur := 0;
    while CharAt(value, cur) != NUL
      invariant cur <= |value|
      invariant forall i :: 0 <= i < cur ==> value[i] != NUL && value[i] !in accept
      decreases |value| - cur
    {
      if value[cur] in accept {
        FirstOfCString(value, cur);
        return Some(cur);
      }
      cur := cur + 1;
    }
    CStringIs(value, cur);
    return None;
  }

  lemma {:induction false} FirstOfCString(s: bytes, n: nat)
    requires n < |s| && forall i :: 0 <= i <= n ==> s[i] != NUL
    ensures n < |CString(s)| && CString(s)[n] == s[n]
  {
    if n > 0 { FirstOfCString(s[1..], n - 1); }
  }

  /** containsControlCharacter. */
  method ContainsControl(value: bytes) returns (found: bool)
    ensures found <==> exists i :: 0 <= i < |CString(value)| && IsControl(CString(value)[i])
  {
    var cur := 0;
    while CharAt(value, cur) != NUL
      invariant cur <= |value|
      invariant forall i :: 0 <= i < cur ==> value[i] != NUL && !IsControl(value[i])
      decreases |value| - cur
    {
      if IsControl(value[cur]) {
        FirstOfCString(value, cur);
        return true;
      }
      cur := cur + 1;
    }
    CStringIs(value, cur);
    return false;
  }

  lemma {:induction false} CStringHasNoNul(s: bytes)
    ensures NUL !in CString(s)
  {
    if s != [] && s[0] != NUL { CStringHasNoNul(s[1..]); }
  }

  /**
    valueToQuotedString: its own fast path and its own loop, which stops at the first NUL, write
    the text that valueToQuotedStringN writes of the bytes before the NUL.
  */
  method ValueToQuotedString(value: bytes) returns (result: bytes)
    ensures result == Quoted(CString(value))
  {
    var special := FindAnyInCString(value, [QUOTE, BACKSLASH, BS, FF, LF, CR, TAB]);
    var control := ContainsControl(value);
    if special.None? && !control {
      CStringHasNoNul(value);
      OrdinaryBytesSpellThemselves(CString(value));
      return [QUOTE] + CString(value) + [QUOTE];
    }
    var body := EscapeCString(value);
    result := [QUOTE] + body + [QUOTE];
  }

  /** The escaping loop that stops at a NUL. */
  method EscapeCString(value: bytes) returns (body: bytes)
    ensures body == Escaped(CString(value))
  {
    hide Escaped, PieceText, PieceOf, CString;
    body := [];
    var c := 0;
    EscapedNone(value);
    while CharAt(value, c) != NUL
      invariant c <= |value| && body == EscapedTo(value, c)
      invariant forall i :: 0 <= i < c ==> value[i] != NUL
      decreases |value| - c
    {
      var escaped := EscapeByte(value[c]);
      body := body + escaped;
      EscapedNext(value, c);
      c := c + 1;
    }
    CStringIs(value, c);
  }

  lemma QuotedInjective(s: bytes, t: bytes)
    requires Quoted(s) == Quoted(t)
    ensures s == t
  {
    QuotedRoundTrip(s);
    QuotedRoundTrip(t);
  }
}
