/** Bytes, the characters the JSON codec treats specially, and two stock result types. */
module Bytes {

  datatype Option<+T> = None | Some(value: T)

  datatype Result<+T, +E> = Success(value: T) | Failure(error: E)

  newtype byte = x: int | 0 <= x < 0x100

  type bytes = seq<byte>

  const NUL: byte := 0
  const BS: byte := 0x08
  const TAB: byte := 0x09
  const LF: byte := 0x0A
  const FF: byte := 0x0C
  const CR: byte := 0x0D
  const SPACE: byte := 0x20
  const QUOTE: byte := 0x22
  const PLUS: byte := 0x2B
  const COMMA: byte := 0x2C
  const MINUS: byte := 0x2D
  const DOT: byte := 0x2E
  const SLASH: byte := 0x2F
  const STAR: byte := 0x2A
  const ZERO: byte := 0x30
  const NINE: byte := 0x39
  const COLON: byte := 0x3A
  const LBRACKET: byte := 0x5B
  const BACKSLASH: byte := 0x5C
  const RBRACKET: byte := 0x5D
  const LBRACE: byte := 0x7B
  const RBRACE: byte := 0x7D

  /** Lower-case letters that the codec switches on. */
  const LOWER_A: byte := 0x61
  const LOWER_B: byte := 0x62
  const LOWER_E: byte := 0x65
  const LOWER_F: byte := 0x66
  const LOWER_L: byte := 0x6C
  const LOWER_N: byte := 0x6E
  const LOWER_R: byte := 0x72
  const LOWER_S: byte := 0x73
  const LOWER_T: byte := 0x74
  const LOWER_U: byte := 0x75
  const UPPER_A: byte := 0x41
  const UPPER_E: byte := 0x45
  const UPPER_F: byte := 0x46

  const TRUE_TEXT: bytes := [LOWER_T, LOWER_R, LOWER_U, LOWER_E]
  const FALSE_TEXT: bytes := [LOWER_F, LOWER_A, LOWER_L, LOWER_S, LOWER_E]
  const NULL_TEXT: bytes := [LOWER_N, LOWER_U, LOWER_L, LOWER_L]

  predicate IsDigit(c: byte) { ZERO <= c <= NINE }

  /** White space of RFC 8259, section 2, and of Reader::skipSpaces. */
  predicate IsSpace(c: byte) { c == SPACE || c == TAB || c == CR || c == LF }

  /** memcmp over the common prefix, then the lengths. */
  predicate BytesLess(a: bytes, b: bytes) {
    if b == [] then false
    else if a == [] then true
    else if a[0] != b[0] then a[0] < b[0]
    else BytesLess(a[1..], b[1..])
  }

  lemma {:induction false} BytesTrichotomy(a: bytes, b: bytes)
    ensures !(BytesLess(a, b) && BytesLess(b, a))
    ensures !BytesLess(a, b) && !BytesLess(b, a) <==> a == b
  {
    if a != [] && b != [] {
      assert a == [a[0]] + a[1..] && b == [b[0]] + b[1..];
      BytesTrichotomy(a[1..], b[1..]);
    }
  }

  lemma {:induction false} BytesTransitive(a: bytes, b: bytes, c: bytes)
    requires BytesLess(a, b) && BytesLess(b, c)
    ensures BytesLess(a, c)
  {
    if a != [] && a[0] == b[0] == c[0] {
      BytesTransitive(a[1..], b[1..], c[1..]);
    }
  }

  /** a and b agree before k, where a has the smaller byte. */
  predicate SmallerAt(a: bytes, b: bytes, k: nat) {
    k < |a| && k < |b| && a[..k] == b[..k] && a[k] < b[k]
  }

  /** The order of the dictionary: a proper prefix, or the smaller byte at the first difference. */
  ghost predicate Lexicographic(a: bytes, b: bytes) {
    (|a| < |b| && a == b[..|a|]) || exists k: nat :: SmallerAt(a, b, k)
  }

  lemma {:induction false} BytesLessIsLexicographic(a: bytes, b: bytes)
    ensures BytesLess(a, b) <==> Lexicographic(a, b)
  {
    if a != [] && b != [] {
      assert a == [a[0]] + a[1..] && b == [b[0]] + b[1..];
      if a[0] < b[0] {
        assert SmallerAt(a, b, 0);
      } else if a[0] == b[0] {
        BytesLessIsLexicographic(a[1..], b[1..]);
        forall k: nat | SmallerAt(a[1..], b[1..], k)
          ensures SmallerAt(a, b, k + 1)
        {
          assert a[..k + 1] == [a[0]] + a[1..][..k] && b[..k + 1] == [b[0]] + b[1..][..k];
        }
        forall k: nat | SmallerAt(a, b, k)
          ensures k > 0 && SmallerAt(a[1..], b[1..], k - 1)
        {
          assert a[1..][..k - 1] == a[..k][1..] && b[1..][..k - 1] == b[..k][1..];
        }
        assert |a| < |b| ==> (a == b[..|a|] <==> a[1..] == b[1..][..|a| - 1]) by {
          if |a| < |b| { assert b[..|a|] == [b[0]] + b[1..][..|a| - 1]; }
        }
      }
    }
  }
}
