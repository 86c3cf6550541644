/** Which string tokens decodeString rejects, and with which message, read off their bytes. */
module BadEscapes {
  import opened Bytes
  import opened Diagnostics
  import opened Unicode
  import opened Strings

  /** Four hexadecimal digits in either case. */
  predicate AllHex(d: bytes) { |d| == 4 && forall i :: 0 <= i < 4 ==> Capital(d[i]) in CAPITAL_DIGITS }

  /** The digits D800 to DBFF. */
  predicate OpensPair(d: bytes) {
    AllHex(d) && Capital(d[0]) == 0x44 && Capital(d[1]) in [0x38, 0x39, 0x41, 0x42]
  }

  /** The four digits that should stand at q are cut off by the closing quote, or are not digits. */
  predicate BadDigits(text: bytes, q: nat, m: Message) {
    var end := |text| - 1;
    (m.FourDigitsExpected? && end < q + 4) ||
    (m.HexDigitExpected? && q + 4 <= end && !AllHex(text[q..q + 4]))
  }

  /** A backslash at pos that begins no escape. */
  predicate BadEscapeAt(text: bytes, pos: nat, m: Message) {
    var end := |text| - 1;
    pos < end && text[pos] == BACKSLASH &&
    if text[pos + 1] != LOWER_U then m.BadEscape? && !IsRfcEscape(text[pos + 1])
    else
      BadDigits(text, pos + 2, m) ||
      (pos + 6 <= end && OpensPair(text[pos + 2..pos + 6]) &&
       if end < pos + 12 then m.SurrogatePairExpected?
       else if text[pos + 6] != BACKSLASH || text[pos + 7] != LOWER_U then m.SecondEscapeExpected?
       else BadDigits(text, pos + 8, m))
  }

  lemma HexIff(c: byte)
    ensures Capital(c) in CAPITAL_DIGITS <==> HexValue(c).Some?
  {
    if HexValue(c).Some? {
      HexDigitsInOrder(c, HexValue(c).value);
    }
    if Capital(c) in CAPITAL_DIGITS {
      var n :| 0 <= n < 16 && CAPITAL_DIGITS[n] == Capital(c);
      HexDigitsInOrder(c, n);
    }
  }

  lemma AllHexIff(d: bytes)
    ensures AllHex(d) <==> IsHex4(d)
  {
    if |d| == 4 { HexIff(d[0]); HexIff(d[1]); HexIff(d[2]); HexIff(d[3]); }
  }

  lemma OpensPairIff(d: bytes)
    ensures OpensPair(d) <==> IsHex4(d) && IsHighSurrogate(Hex4Value(d))
  {
    AllHexIff(d);
    if IsHex4(d) {
      var (a, b, c, e) := (HexValue(d[0]).value, HexValue(d[1]).value, HexValue(d[2]).value, HexValue(d[3]).value);
      assert Hex4Value(d) == 0x1000 * a + 0x100 * b + 0x10 * c + e;
      assert IsHighSurrogate(Hex4Value(d)) <==> a == 0xD && 0x8 <= b <= 0xB;
      hide HexValue, Capital;
      HexDigitsInOrder(d[0], 0xD);
      HexDigitsInOrder(d[1], 0x8);
      HexDigitsInOrder(d[1], 0x9);
      HexDigitsInOrder(d[1], 0xA);
      HexDigitsInOrder(d[1], 0xB);
    }
  }

  lemma BadDigitsIff(text: bytes, q: nat, m: Message)
    requires q < |text|
    ensures EscapeDigits(text, q, |text| - 1) == Failure(m) <==> BadDigits(text, q, m)
  {
    if q + 4 <= |text| - 1 { AllHexIff(text[q..q + 4]); }
  }

  lemma ChunkFailsExactly(text: bytes, pos: nat, m: Message)
    requires IsStringToken(text) && pos < |text| - 1 && StringEnd(text, pos) == Some(|text|)
    ensures ChunkAt(text, pos) == Bad(m) <==> BadEscapeAt(text, pos, m)
  {
    hide IsHex4, Hex4Value, OpensPair, BadDigits, StringEnd;
    var end := |text| - 1;
    if text[pos] == BACKSLASH {
      assert pos + 1 < |text| - 1 by { BackslashIsNotLast(text, pos); }
      ShortEscapesAreTheRfcs(0, text[pos + 1]);
      if text[pos + 1] == LOWER_U {
        assert ShortEscape(LOWER_U).None?;
        BadDigitsIff(text, pos + 2, m);
        if pos + 6 <= end {
          OpensPairIff(text[pos + 2..pos + 6]);
          if pos + 12 <= end { BadDigitsIff(text, pos + 8, m); }
          EscapeFailsExactly(text, pos + 2, m);
        }
      }
    }
  }

  /** The escape's first four digits are there; the rest decides. */
  lemma EscapeFailsExactly(text: bytes, q: nat, m: Message)
    requires q + 4 <= |text| - 1
    ensures var end := |text| - 1;
            var d := text[q..q + 4];
            EscapedCodePoint(text, q, end) == Failure(m) <==>
            if !IsHex4(d) then m.HexDigitExpected?
            else if !IsHighSurrogate(Hex4Value(d)) then false
            else if end < q + 10 then m.SurrogatePairExpected?
            else if text[q + 4] != BACKSLASH || text[q + 5] != LOWER_U then m.SecondEscapeExpected?
            else EscapeDigits(text, q + 6, end) == Failure(m)
  {
    hide IsHex4, Hex4Value;
  }

  lemma BackslashIsNotLast(text: bytes, pos: nat)
    requires IsStringToken(text) && pos < |text| - 1 && StringEnd(text, pos) == Some(|text|)
    requires text[pos] == BACKSLASH
    ensures pos + 1 < |text| - 1
  {}

  // ----- The whole token -----

  /** The token begins with these pieces, which leave something before its closing quote. */
  predicate BeginsWith(text: bytes, ps: seq<Piece>) {
    1 + |Spell(ps)| < |text| - 1 && text[1..1 + |Spell(ps)|] == Spell(ps)
  }

  lemma {:induction false} FailureFound(text: bytes, pos: nat, m: Message) returns (ps: seq<Piece>)
    requires IsStringToken(text) && pos <= |text| - 1 && StringEnd(text, pos) == Some(|text|)
    requires DecodeFrom(text, pos) == Failure(m)
    ensures ReadablePieces(ps)
    ensures pos + |Spell(ps)| < |text| - 1 && text[pos..pos + |Spell(ps)|] == Spell(ps)
    ensures BadEscapeAt(text, pos + |Spell(ps)|, m)
    decreases |text| - pos
  {
    hide ChunkAt, PieceStands, PieceMeaning, PieceText, BadEscapeAt, StringEnd;
    ChunkFailsExactly(text, pos, m);
    if ChunkAt(text, pos) == Bad(m) {
      ps := [];
    } else {
      var p := PieceRead(text, pos);
      var n := |PieceText(p)|;
      PieceDecoded(text, pos, p);
      PieceStandsIff(text, pos, p);
      var rest := FailureFound(text, pos + n, m);
      ps := [p] + rest;
      assert ps[1..] == rest;
      assert text[pos..pos + n + |Spell(rest)|] == text[pos..pos + n] + text[pos + n..pos + n + |Spell(rest)|];
    }
  }

  /** Reading the pieces at the beginning leaves the rest to be decoded. */
  lemma {:induction false} PiecesRead(text: bytes, pos: nat, ps: seq<Piece>)
    requires IsStringToken(text) && pos <= |text| - 1 && StringEnd(text, pos) == Some(|text|)
    requires ReadablePieces(ps)
    requires pos + |Spell(ps)| <= |text| - 1 && text[pos..pos + |Spell(ps)|] == Spell(ps)
    ensures var next := pos + |Spell(ps)|;
            StringEnd(text, next) == Some(|text|) &&
            (DecodeFrom(text, next).Failure? ==> DecodeFrom(text, pos) == DecodeFrom(text, next))
    decreases |ps|
  {
    hide ChunkAt, PieceStands, PieceMeaning, PieceText, StringEnd;
    if ps != [] {
      var p, rest := ps[0], ps[1..];
      var n := |PieceText(p)|;
      assert Spell(ps)[..n] == PieceText(p) && Spell(ps)[n..] == Spell(rest);
      assert text[pos..pos + n] == text[pos..pos + |Spell(ps)|][..n];
      assert text[pos + n..pos + n + |Spell(rest)|] == text[pos..pos + |Spell(ps)|][n..];
      PieceStandsIff(text, pos, p);
      PieceDecoded(text, pos, p);
      PiecesRead(text, pos + n, rest);
    }
  }

  /**
    After pieces that can be read, the token has a backslash that begins no escape, in the way that
    the message says.
  */
  ghost predicate Rejected(text: bytes, m: Message) {
    exists ps: seq<Piece> :: ReadablePieces(ps) && BeginsWith(text, ps) && BadEscapeAt(text, 1 + |Spell(ps)|, m)
  }

  /** decodeString fails with a message if and only if the token is rejected in this way. */
  lemma DecodingFailsExactly(text: bytes, m: Message)
    requires IsStringToken(text)
    ensures DecodeString(text) == Failure(m) <==> Rejected(text, m)
  {
    hide BadEscapeAt, ReadablePieces, Spell, DecodeFrom, StringEnd;
    if DecodeString(text) == Failure(m) {
      var ps := FailureFound(text, 1, m);
      assert BeginsWith(text, ps);
    }
    forall ps: seq<Piece> | ReadablePieces(ps) && BeginsWith(text, ps) && BadEscapeAt(text, 1 + |Spell(ps)|, m)
      ensures DecodeString(text) == Failure(m)
    {
      RejectedFails(text, m, ps);
    }
  }

  lemma RejectedFails(text: bytes, m: Message, ps: seq<Piece>)
    requires IsStringToken(text)
    requires ReadablePieces(ps) && BeginsWith(text, ps) && BadEscapeAt(text, 1 + |Spell(ps)|, m)
    ensures DecodeString(text) == Failure(m)
  {
    hide BadEscapeAt, ReadablePieces, Spell, StringEnd, ChunkAt;
    PiecesRead(text, 1, ps);
    ChunkFailsExactly(text, 1 + |Spell(ps)|, m);
  }
}
