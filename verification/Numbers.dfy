/** Integers in and out: uintToString, valueToString and decodeNumber. */
module Numbers {
  import opened Bytes
  import opened Values

  /** Room for three characters to a byte of the largest integer, and a NUL. */
  const BUFFER_SIZE: nat := 25

  // ----- Decimal notation -----

  predicate AllDigits(s: bytes) { forall i :: 0 <= i < |s| ==> IsDigit(s[i]) }

  function DigitValue(c: byte): nat
    requires IsDigit(c)
  {
    (c - ZERO) as nat
  }

  /** The number a row of digits stands for. */
  function Magnitude(s: bytes): nat
    requires AllDigits(s)
  {
    if s == [] then 0 else Magnitude(s[..|s| - 1]) * 10 + DigitValue(s[|s| - 1])
  }

  function Decimal(n: nat): bytes {
    if n < 10 then [ZERO + n as byte] else Decimal(n / 10) + [ZERO + (n % 10) as byte]
  }

  function IntText(n: int): bytes {
    if n < 0 then [MINUS] + Decimal(-n) else Decimal(n)
  }

  /** Decimal writes digits that stand for n, with no leading zero. */
  lemma {:induction false} DecimalReads(n: nat)
    ensures Decimal(n) != [] && AllDigits(Decimal(n)) && Magnitude(Decimal(n)) == n
    ensures Decimal(n)[0] == ZERO ==> n == 0
  {
    if n >= 10 {
      DecimalReads(n / 10);
      var d := Decimal(n);
      assert d[..|d| - 1] == Decimal(n / 10);
      assert d[0] == Decimal(n / 10)[0];
    } else {
      var d := Decimal(n);
      assert d[..0] == [];
    }
  }

  function PowerOfTen(k: nat): nat { if k == 0 then 1 else 10 * PowerOfTen(k - 1) }

  lemma {:induction false} DecimalLength(n: nat, k: nat)
    requires k >= 1 && n < PowerOfTen(k)
    ensures |Decimal(n)| <= k
  {
    if n >= 10 {
      assert PowerOfTen(0) == 1;
      assert PowerOfTen(k) == 10 * PowerOfTen(k - 1);
      DecimalLength(n / 10, k - 1);
    }
  }

  /** The digits of a number by their places, from the right: the k-th is worth ten to the k. */
  lemma {:induction false} DecimalIsPositional(n: nat, k: nat)
    requires k < |Decimal(n)|
    ensures PowerOfTen(k) > 0
    ensures Decimal(n)[|Decimal(n)| - 1 - k] as int == 0x30 + n / PowerOfTen(k) % 10
    ensures n < PowerOfTen(|Decimal(n)|)
    decreases k, n
  {
    PowerIsPositive(k);
    DecimalIsShort(n);
    if n >= 10 && k > 0 {
      DecimalIsPositional(n / 10, k - 1);
      DivideTwice(n, PowerOfTen(k - 1));
    }
  }

  lemma {:induction false} PowerIsPositive(k: nat)
    ensures PowerOfTen(k) > 0
  {
    if k > 0 { PowerIsPositive(k - 1); }
  }

  lemma {:induction false} DecimalIsShort(n: nat)
    ensures Decimal(n) != [] && n < PowerOfTen(|Decimal(n)|)
  {
    if n >= 10 { DecimalIsShort(n / 10); } else { assert PowerOfTen(0) == 1; }
  }

  lemma DivideTwice(n: nat, m: nat)
    requires m > 0
    ensures n / 10 / m == n / (10 * m)
  {
    var q, r := n / (10 * m), n % (10 * m);
    assert n == 10 * (m * q) + r;
    assert n / 10 == m * q + r / 10 && r / 10 < m;
    QuotientIs(n / 10, m, q, r / 10);
  }

  lemma QuotientIs(x: nat, m: nat, q: nat, r: nat)
    requires x == m * q + r && r < m
    ensures x / m == q
  {
    var d := x / m;
    assert x == m * d + x % m;
    if d > q { Multiple(m, d - q); }
    if d < q { Multiple(m, q - d); }
  }

  lemma Multiple(m: nat, k: nat)
    requires k > 0
    ensures m * k >= m
  {}

  lemma TwentyDigits(n: nat)
    requires n <= MAX_UINT64
    ensures |Decimal(n)| <= 20
  {
    assert PowerOfTen(5) == 100_000;
    assert PowerOfTen(10) == 100_000 * PowerOfTen(5);
    assert PowerOfTen(15) == 100_000 * PowerOfTen(10);
    assert PowerOfTen(20) == 100_000 * PowerOfTen(15);
    DecimalLength(n, 20);
  }

  /** uintToString: writes the digits backwards from current, after a closing NUL. */
  method UintToString(value: nat, buffer: array<byte>, current: nat) returns (first: nat)
    requires value <= MAX_UINT64
    requires 21 <= current <= buffer.Length
    modifies buffer
    ensures first + |Decimal(value)| + 1 == current
    ensures buffer[first..current] == Decimal(value) + [NUL]
    ensures buffer[..first] == old(buffer[..first]) && buffer[current..] == old(buffer[current..])
  {
    TwentyDigits(value);
    first := current - 1;
    buffer[first] := NUL;
    var rest := value;
    first := first - 1;
    buffer[first] := ZERO + (rest % 10) as byte;
    rest := rest / 10;
    while rest != 0
      invariant 0 <= first < current
      invariant (if rest == 0 then [] else Decimal(rest)) + buffer[first..current] == Decimal(value) + [NUL]
      invariant buffer[..first] == old(buffer[..first]) && buffer[current..] == old(buffer[current..])
      decreases rest
    {
      ghost var written := buffer[first..current];
      assert |Decimal(rest)| + |written| == |Decimal(value)| + 1;
      first := first - 1;
      buffer[first] := ZERO + (rest % 10) as byte;
      assert buffer[first..current] == [ZERO + (rest % 10) as byte] + written;
      rest := rest / 10;
    }
  }

  /** valueToString for both 64-bit types: digits, sign and NUL always fit the buffer. */
  method ValueToString(value: int) returns (text: bytes)
    requires MIN_INT64 <= value <= MAX_UINT64
    ensures text == IntText(value)
  {
    hide Decimal;
    var buffer := new byte[BUFFER_SIZE];
    var current;
    if value == MIN_INT64 {
      current := UintToString(MAX_INT64 + 1, buffer, BUFFER_SIZE);
      current := PrependMinus(MAX_INT64 + 1, buffer, current);
    } else if value < 0 {
      current := UintToString(-value, buffer, BUFFER_SIZE);
      current := PrependMinus(-value, buffer, current);
    } else {
      current := UintToString(value, buffer, BUFFER_SIZE);
    }
    assert buffer[current..BUFFER_SIZE] == IntText(value) + [NUL];
    text := buffer[current..BUFFER_SIZE - 1];
    assert text == buffer[current..BUFFER_SIZE][..BUFFER_SIZE - 1 - current];
  }

  /** Puts the sign before the digits of n. */
  method PrependMinus(n: nat, buffer: array<byte>, current: nat) returns (first: nat)
    requires n <= MAX_UINT64 && buffer.Length == BUFFER_SIZE
    requires current <= BUFFER_SIZE && buffer[current..BUFFER_SIZE] == Decimal(n) + [NUL]
    modifies buffer
    ensures first <= BUFFER_SIZE && buffer[first..BUFFER_SIZE] == [MINUS] + Decimal(n) + [NUL]
  {
    TwentyDigits(n);
    assert |buffer[current..BUFFER_SIZE]| <= 21;
    ghost var digits := buffer[current..BUFFER_SIZE];
    first := current - 1;
    buffer[first] := MINUS;
    assert buffer[first..BUFFER_SIZE] == [MINUS] + digits;
  }

  // ----- decodeNumber -----

  /** decodeDouble: the digits of reals come from the C library, so the conversion is a parameter. */
  type ToDouble = bytes -> Option<real>

  function IntegerLimit(negative: bool): nat {
    if negative then MAX_INT64 + 1 else MAX_UINT64
  }

  /** The Value of an integer: small ones are signed whatever they were before. */
  function Retype(negative: bool, magnitude: nat): Json {
    if negative then Int(0 - magnitude)
    else if magnitude <= MAX_INT then Int(magnitude)
    else UInt(magnitude)
  }

  function Unsigned(text: bytes): bytes {
    if text != [] && text[0] == MINUS then text[1..] else text
  }

  predicate IsNegative(text: bytes) { text != [] && text[0] == MINUS }

  /** The token is an integer that fits 64 bits. */
  predicate IsInt64Text(text: bytes) {
    AllDigits(Unsigned(text)) && Magnitude(Unsigned(text)) <= IntegerLimit(IsNegative(text))
  }

  /** The Value of a number token: exact for a 64-bit integer, otherwise what decodeDouble gives. */
  function DecodeNumber(text: bytes, toDouble: ToDouble): Option<Json> {
    if IsInt64Text(text) then Some(Retype(IsNegative(text), Magnitude(Unsigned(text))))
    else match toDouble(text)
      case None => None
      case Some(r) => Some(Real(r))
  }

  lemma {:induction false} MagnitudePrefix(s: bytes, i: nat)
    requires AllDigits(s) && i <= |s|
    ensures Magnitude(s) >= Magnitude(s[..i])
    ensures i < |s| ==> Magnitude(s) >= 10 * Magnitude(s[..i])
    decreases |s|
  {
    if i == |s| {
      assert s[..i] == s;
    } else {
      var t := s[..|s| - 1];
      assert t[..i] == s[..i];
      MagnitudePrefix(t, i);
    }
  }

  lemma MagnitudeNext(s: bytes, i: nat)
    requires i < |s| && AllDigits(s[..i + 1])
    ensures Magnitude(s[..i + 1]) == Magnitude(s[..i]) * 10 + DigitValue(s[i])
  {
    assert s[..i + 1][..i] == s[..i];
  }

  lemma Threshold(value: nat, digit: nat, limit: nat)
    requires limit >= 10 && value >= limit / 10
    ensures value > limit / 10 || digit > limit % 10 ==> value * 10 + digit > limit
    ensures 10 * (value * 10 + digit) > limit
  {
    assert limit == 10 * (limit / 10) + limit % 10;
  }

  /** The threshold test rejects a digit only when no continuation of the row can fit. */
  lemma OverflowIsReal(s: bytes, i: nat, limit: nat)
    requires i < |s| && limit >= 10 && AllDigits(s[..i + 1])
    requires Magnitude(s[..i]) >= limit / 10
    requires Magnitude(s[..i]) > limit / 10 || i + 1 != |s| || DigitValue(s[i]) > limit % 10
    ensures !AllDigits(s) || Magnitude(s) > limit
  {
    if AllDigits(s) {
      Threshold(Magnitude(s[..i]), DigitValue(s[i]), limit);
      MagnitudeNext(s, i);
      MagnitudePrefix(s, i + 1);
      if i + 1 == |s| { assert s[..i + 1] == s; }
    }
  }

  /**
    decodeNumber. The accumulator stays within an unsigned 64-bit integer, and the result is
    the token's exact value whenever that fits.
  */
  method DecodeNumberToken(text: bytes, toDouble: ToDouble) returns (decoded: Option<Json>)
    requires text != []
    ensures decoded == DecodeNumber(text, toDouble)
  {
    var current := 0;
    var isNegative := text[current] == MINUS;
    if isNegative { current := current + 1; }
    var maxIntegerValue: nat := if isNegative then MAX_INT64 + 1 else MAX_UINT64;
    var threshold := maxIntegerValue / 10;
    var value := 0;
    ghost var body := Unsigned(text);
    ghost var skipped := current;
    while current < |text|
      invariant skipped <= current <= |text|
      invariant AllDigits(body[..current - skipped])
      invariant value == Magnitude(body[..current - skipped]) <= maxIntegerValue
    {
      var c := text[current];
      ghost var i := current - skipped;
      current := current + 1;
      assert c == body[i];
      if c < ZERO || c > NINE {
        assert !AllDigits(body);
        decoded := DecodeDouble(text, toDouble);
        return;
      }
      var digit := (c - ZERO) as nat;
      assert AllDigits(body[..i + 1]);
      MagnitudeNext(body, i);
      if value >= threshold {
        if value > threshold || current != |text| || digit > maxIntegerValue % 10 {
          OverflowIsReal(body, i, maxIntegerValue);
          decoded := DecodeDouble(text, toDouble);
          return;
        }
      }
      assert value * 10 + digit <= MAX_UINT64;
      value := value * 10 + digit;
    }
    assert body[..current - skipped] == body;
    if isNegative && value == maxIntegerValue {
      decoded := Some(Int(MIN_INT64));
    } else if isNegative {
      decoded := Some(Int(-value));
    } else if value <= MAX_INT {
      decoded := Some(Int(value));
    } else {
      decoded := Some(UInt(value));
    }
  }

  /** decodeDouble, up to the C library. */
  method DecodeDouble(text: bytes, toDouble: ToDouble) returns (decoded: Option<Json>)
    ensures decoded == match toDouble(text) { case None => None case Some(r) => Some(Real(r)) }
  {
    match toDouble(text)
    case None => decoded := None;
    case Some(r) => decoded := Some(Real(r));
  }

  /** decodeNumber inverts valueToString on every int64 and uint64, up to the choice of type. */
  lemma NumberRoundTrip(n: int, toDouble: ToDouble)
    requires MIN_INT64 <= n <= MAX_UINT64
    ensures IsInt64Text(IntText(n))
    ensures DecodeNumber(IntText(n), toDouble) == Some(if n <= MAX_INT then Int(n) else UInt(n))
  {
    if n < 0 {
      DecimalReads(-n);
      assert Unsigned(IntText(n)) == Decimal(-n);
    } else {
      DecimalReads(n);
      assert IsDigit(Decimal(n)[0]);
    }
  }

  /** The integer that a value is. */
  function IntegerOf(j: Json): Option<int> {
    match j
    case Int(i) => Some(i)
    case UInt(u) => Some(u)
    case _ => None
  }

  /** The integer that a token stands for, read from its last digit. */
  function SignedMagnitude(text: bytes): int
    requires AllDigits(Unsigned(text))
  {
    if IsNegative(text) then 0 - Magnitude(Unsigned(text)) else Magnitude(Unsigned(text))
  }

  /**
    An integer token keeps its exact value, as a value of one of the 64-bit types, if and only if
    it lies between -2^63 and 2^64 - 1; whether decodeDouble could convert it plays no part.
  */
  lemma IntegerExactness(text: bytes, toDouble: ToDouble)
    requires AllDigits(Unsigned(text))
    ensures MIN_INT64 <= SignedMagnitude(text) <= MAX_UINT64 <==>
            DecodeNumber(text, toDouble).Some? && IntegerOf(DecodeNumber(text, toDouble).value).Some?
    ensures MIN_INT64 <= SignedMagnitude(text) <= MAX_UINT64 ==>
              var j := DecodeNumber(text, toDouble).value;
              IntegerOf(j) == Some(SignedMagnitude(text)) && WellFormed(j) && (j.UInt? <==> SignedMagnitude(text) > MAX_INT)
    ensures !(MIN_INT64 <= SignedMagnitude(text) <= MAX_UINT64) ==>
              DecodeNumber(text, toDouble) == match toDouble(text) { case None => None case Some(r) => Some(Real(r)) }
  {}
}
