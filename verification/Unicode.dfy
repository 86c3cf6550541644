/**
  Code points: UTF-8 (section 3 of RFC 3629), \u escapes with surrogate pairs (section 7 of
  RFC 8259, section 2.2 of RFC 2781). The masks and shifts of the C++ code are written as
  division and remainder by the powers of two they stand for.
*/
module Unicode {
  import opened Bytes

  const MAX_CODE_POINT: nat := 0x10_FFFF

  predicate IsHighSurrogate(u: nat) { 0xD800 <= u <= 0xDBFF }

  predicate IsLowSurrogate(u: nat) { 0xDC00 <= u <= 0xDFFF }

  predicate IsScalarValue(cp: nat) {
    cp <= MAX_CODE_POINT && !IsHighSurrogate(cp) && !IsLowSurrogate(cp)
  }

  /**
    codePointToUTF8: the encoder of the reader, six bits to an octet. Nothing for a number
    beyond Unicode.
  */
  function CodePointToUtf8(cp: nat): bytes {
    var shifted6 := cp / 0x40;
    var shifted12 := shifted6 / 0x40;
    var shifted18 := shifted12 / 0x40;
    if cp <= 0x7F then [cp as byte]
    else if cp <= 0x7FF then
      [(0xC0 + shifted6 % 0x20) as byte, Tail(cp)]
    else if cp <= 0xFFFF then
      [(0xE0 + shifted12 % 0x10) as byte, Tail(shifted6), Tail(cp)]
    else if cp <= 0x10_FFFF then
      [(0xF0 + shifted18 % 0x08) as byte, Tail(shifted12), Tail(shifted6), Tail(cp)]
    else []
  }

  /** A continuation octet with the last six bits of n. */
  function Tail(n: nat): byte { (0x80 + n % 0x40) as byte }

  predicate IsTail(b: byte) { 0x80 <= b <= 0xBF }

  /** The octet sequences of one character, read off the syntax in section 4 of RFC 3629. */
  function DecodeUtf8(b: bytes): Option<nat> {
    if |b| == 1 && b[0] <= 0x7F then
      Some(b[0] as nat)
    else if |b| == 2 && 0xC2 <= b[0] <= 0xDF && IsTail(b[1]) then
      Some((b[0] as nat - 0xC0) * 0x40 + (b[1] as nat - 0x80))
    else if |b| == 3 && 0xE0 <= b[0] <= 0xEF && IsTail(b[1]) && IsTail(b[2])
            && (b[0] == 0xE0 ==> 0xA0 <= b[1]) && (b[0] == 0xED ==> b[1] <= 0x9F) then
      Some((b[0] as nat - 0xE0) * 0x1000 + (b[1] as nat - 0x80) * 0x40 + (b[2] as nat - 0x80))
    else if |b| == 4 && 0xF0 <= b[0] <= 0xF4 && IsTail(b[1]) && IsTail(b[2]) && IsTail(b[3])
            && (b[0] == 0xF0 ==> 0x90 <= b[1]) && (b[0] == 0xF4 ==> b[1] <= 0x8F) then
      Some((b[0] as nat - 0xF0) * 0x4_0000 + (b[1] as nat - 0x80) * 0x1000
           + (b[2] as nat - 0x80) * 0x40 + (b[3] as nat - 0x80))
    else None
  }

  /** What the encoder writes is, by the RFC's syntax, the character it was given. */
  lemma Utf8Decodes(cp: nat)
    requires IsScalarValue(cp)
    ensures DecodeUtf8(CodePointToUtf8(cp)) == Some(cp)
  {
    var shifted12 := cp / 0x40 / 0x40;
    if cp > 0xFFFF {
      assert shifted12 / 0x40 % 8 == shifted12 / 0x40 <= 4;
    } else if cp > 0x7FF {
      assert shifted12 % 0x10 == shifted12;
    }
  }

  lemma SixBits(q: nat, r: nat)
    requires r < 0x40
    ensures (q * 0x40 + r) / 0x40 == q && (q * 0x40 + r) % 0x40 == r
  {}

  lemma ThreeOctets(b: bytes)
    requires |b| == 3 && DecodeUtf8(b).Some?
    ensures IsScalarValue(DecodeUtf8(b).value)
    ensures CodePointToUtf8(DecodeUtf8(b).value) == b
  {
    var top := (b[0] as nat - 0xE0) * 0x40 + (b[1] as nat - 0x80);
    SixBits(b[0] as nat - 0xE0, b[1] as nat - 0x80);
    SixBits(top, b[2] as nat - 0x80);
    assert DecodeUtf8(b).value == top * 0x40 + (b[2] as nat - 0x80);
  }

  lemma FourOctets(b: bytes)
    requires |b| == 4 && DecodeUtf8(b).Some?
    ensures IsScalarValue(DecodeUtf8(b).value)
    ensures CodePointToUtf8(DecodeUtf8(b).value) == b
  {
    var middle := (b[0] as nat - 0xF0) * 0x40 + (b[1] as nat - 0x80);
    var top := middle * 0x40 + (b[2] as nat - 0x80);
    SixBits(b[0] as nat - 0xF0, b[1] as nat - 0x80);
    SixBits(middle, b[2] as nat - 0x80);
    SixBits(top, b[3] as nat - 0x80);
    assert DecodeUtf8(b).value == top * 0x40 + (b[3] as nat - 0x80);
  }

  /** Every octet sequence of the RFC's syntax is what the encoder writes for its character. */
  lemma Utf8Encodes(b: bytes)
    requires DecodeUtf8(b).Some?
    ensures IsScalarValue(DecodeUtf8(b).value)
    ensures CodePointToUtf8(DecodeUtf8(b).value) == b
  {
    if |b| == 4 {
      FourOctets(b);
    } else if |b| == 3 {
      ThreeOctets(b);
    } else if |b| == 2 {
      SixBits(b[0] as nat - 0xC0, b[1] as nat - 0x80);
    }
  }

  lemma Utf8Injective(cp: nat, cp': nat)
    requires IsScalarValue(cp) && IsScalarValue(cp')
    requires CodePointToUtf8(cp) == CodePointToUtf8(cp')
    ensures cp == cp'
  {
    Utf8Decodes(cp);
    Utf8Decodes(cp');
  }

  // ----- Hexadecimal quadruples -----

  function HexValue(c: byte): Option<nat> {
    if ZERO <= c <= NINE then Some((c - ZERO) as nat)
    else if LOWER_A <= c <= LOWER_F then Some((c - LOWER_A) as nat + 10)
    else if UPPER_A <= c <= UPPER_F then Some((c - UPPER_A) as nat + 10)
    else None
  }

  function HexDigit(n: nat): (c: byte)
    requires n < 16
    ensures HexValue(c) == Some(n)
  {
    if n < 10 then ZERO + n as byte else UPPER_A + (n - 10) as byte
  }

  predicate IsHex4(d: bytes) {
    |d| == 4 && forall i :: 0 <= i < 4 ==> HexValue(d[i]).Some?
  }

  /** The number four hexadecimal digits stand for. */
  function Hex4Value(d: bytes): (u: nat)
    requires IsHex4(d)
    ensures u < 0x1_0000
  {
    ((HexValue(d[0]).value * 16 + HexValue(d[1]).value) * 16 + HexValue(d[2]).value) * 16 + HexValue(d[3]).value
  }

  /** Four upper-case digits, as std::setw(4) with fill '0' and std::uppercase prints them. */
  function Hex4(u: nat): (d: bytes)
    requires u < 0x1_0000
    ensures IsHex4(d) && Hex4Value(d) == u
  {
    var u3 := u / 16;
    var u2 := u3 / 16;
    var u1 := u2 / 16;
    [HexDigit(u1), HexDigit(u2 % 16), HexDigit(u3 % 16), HexDigit(u % 16)]
  }

  /** The sixteen digits in order, in capitals. */
  const CAPITAL_DIGITS: bytes :=
    [0x30, 0x31, 0x32, 0x33, 0x34, 0x35, 0x36, 0x37, 0x38, 0x39, 0x41, 0x42, 0x43, 0x44, 0x45, 0x46]

  /** The letters a to f as capitals, which come 0x20 earlier. */
  function Capital(c: byte): byte { if 0x61 <= c <= 0x66 then c - 0x20 else c }

  function Capitals(d: bytes): bytes { seq(|d|, i requires 0 <= i < |d| => Capital(d[i])) }

  /** A character is the digit n exactly if it is the n-th of the sixteen, in either case. */
  lemma HexDigitsInOrder(c: byte, n: nat)
    requires n < 16
    ensures HexValue(c) == Some(n) <==> Capital(c) == CAPITAL_DIGITS[n]
  {}

  /** The digits of a number, from the most significant to the least. */
  lemma Hex4IsPositional(u: nat)
    requires u < 0x1_0000
    ensures Hex4(u) == [CAPITAL_DIGITS[u / 0x1000], CAPITAL_DIGITS[u / 0x100 % 0x10],
                        CAPITAL_DIGITS[u / 0x10 % 0x10], CAPITAL_DIGITS[u % 0x10]]
  {
    hide HexDigit, HexValue;
    Shifts(u);
    DigitInOrder(u / 0x1000);
    DigitInOrder(u / 0x100 % 0x10);
    DigitInOrder(u / 0x10 % 0x10);
    DigitInOrder(u % 0x10);
  }

  lemma DigitInOrder(n: nat)
    requires n < 16
    ensures HexDigit(n) == CAPITAL_DIGITS[n]
  {}

  lemma Shifts(u: nat)
    ensures u / 16 / 16 == u / 0x100 && u / 16 / 16 / 16 == u / 0x1000
  {}

  lemma CapitalDigit(c: byte)
    requires HexValue(c).Some?
    ensures HexDigit(HexValue(c).value) == Capital(c) && HexValue(Capital(c)) == HexValue(c)
  {}

  /** Case does not matter: four digits stand for u exactly if their capitals are the digits of u. */
  lemma CaseDoesNotMatter(d: bytes, u: nat)
    requires u < 0x1_0000
    ensures IsHex4(d) && Hex4Value(d) == u <==> Capitals(d) == Hex4(u)
  {
    if IsHex4(d) {
      FourDigits(HexValue(d[0]).value, HexValue(d[1]).value, HexValue(d[2]).value, HexValue(d[3]).value);
      forall i | 0 <= i < 4
        ensures HexDigit(HexValue(d[i]).value) == Capital(d[i])
      {
        CapitalDigit(d[i]);
      }
      assert Hex4(Hex4Value(d)) == Capitals(d);
    }
    if Capitals(d) == Hex4(u) {
      forall i | 0 <= i < 4
        ensures HexValue(d[i]) == HexValue(Hex4(u)[i])
      {
        assert Capital(d[i]) == Hex4(u)[i];
      }
    }
  }

  lemma FourDigits(a: nat, b: nat, c: nat, d: nat)
    requires a < 16 && b < 16 && c < 16 && d < 16
    ensures var u := ((a * 16 + b) * 16 + c) * 16 + d;
            u % 16 == d && u / 16 % 16 == c && u / 16 / 16 % 16 == b && u / 16 / 16 / 16 == a
  {}

  // ----- Surrogate pairs -----

  /** How the reader joins the two halves; it does not look whether the second is a low surrogate. */
  function JoinSurrogates(high: nat, low: nat): nat {
    0x1_0000 + high % 0x400 * 0x400 + low % 0x400
  }

  function HighHalf(cp: nat): nat
    requires 0x1_0000 <= cp <= MAX_CODE_POINT
  {
    0xD800 + (cp - 0x1_0000) / 0x400
  }

  function LowHalf(cp: nat): nat
    requires 0x1_0000 <= cp <= MAX_CODE_POINT
  {
    0xDC00 + (cp - 0x1_0000) % 0x400
  }

  lemma SurrogateRoundTrip(cp: nat, high: nat, low: nat)
    ensures 0x1_0000 <= cp <= MAX_CODE_POINT ==>
              IsHighSurrogate(HighHalf(cp)) && IsLowSurrogate(LowHalf(cp)) &&
              JoinSurrogates(HighHalf(cp), LowHalf(cp)) == cp
    ensures 0x1_0000 <= JoinSurrogates(high, low) <= MAX_CODE_POINT
    ensures IsHighSurrogate(high) && IsLowSurrogate(low) ==>
              HighHalf(JoinSurrogates(high, low)) == high && LowHalf(JoinSurrogates(high, low)) == low
  {}
}
