/**
 Bytes, byte strings, positions in them, and the two result wrappers the other
 modules share.
 */
module Bytes {

  type byte = b: int | 0 <= b < 256

  type bytes = seq<byte>

  datatype Option<+T> = None | Some(value: T)

  datatype Result<+T, +E> = Ok(value: T) | Err(error: E)

  // ---------------------------------------------------------------- the bytes that mean something in JSON

  const BACKSPACE: byte := 8
  const TAB: byte := 9
  const NEWLINE: byte := 10
  const FORM_FEED: byte := 12
  const RETURN: byte := 13
  const SPACE: byte := 32
  const QUOTE: byte := 34
  const STAR: byte := 42
  const PLUS: byte := 43
  const COMMA: byte := 44
  const MINUS: byte := 45
  const DOT: byte := 46
  const SLASH: byte := 47
  const ZERO: byte := 48
  const NINE: byte := 57
  const COLON: byte := 58
  const QUESTION_MARK: byte := 63
  const CAPITAL_E: byte := 69
  const CAPITAL_I: byte := 73
  const CAPITAL_N: byte := 78
  const OPEN_BRACKET: byte := 91
  const BACKSLASH: byte := 92
  const CLOSE_BRACKET: byte := 93
  const LETTER_B: byte := 98
  const LETTER_E: byte := 101
  const LETTER_F: byte := 102
  const LETTER_N: byte := 110
  const LETTER_R: byte := 114
  const LETTER_T: byte := 116
  const LETTER_U: byte := 117
  const OPEN_BRACE: byte := 123
  const CLOSE_BRACE: byte := 125

  predicate IsDigit(b: byte) {
    ZERO <= b <= NINE
  }

  predicate IsHex(b: byte) {
    IsDigit(b) || 65 <= b <= 70 || 97 <= b <= 102
  }

  /** The four bytes that JSON calls whitespace (RFC 7159, section 2). */
  predicate IsWs(b: byte) {
    b == TAB || b == NEWLINE || b == RETURN || b == SPACE
  }

  predicate AllDigits(s: bytes) {
    forall i :: 0 <= i < |s| ==> IsDigit(s[i])
  }

  /** Value of a run of decimal digits, most significant first. */
  function DecimalValue(s: bytes): nat
    requires AllDigits(s)
  {
    if s == [] then 0 else 10 * DecimalValue(s[..|s| - 1]) + (s[|s| - 1] - 48)
  }

  function SignedValue(negative: bool, digits: bytes): int
    requires AllDigits(digits)
  {
    var n: int := DecimalValue(digits);
    if negative then -n else n
  }

  /** The text `t` stands at position `p` of `s`. */
  predicate At(s: bytes, p: nat, t: bytes)
    ensures At(s, p, t) ==> p + |t| <= |s|
    decreases |t|
  {
    if t == [] then p <= |s| else p < |s| && s[p] == t[0] && At(s, p + 1, t[1..])
  }

  lemma {:induction false} AtIsSlice(s: bytes, p: nat, t: bytes)
    ensures At(s, p, t) <==> p + |t| <= |s| && s[p..p + |t|] == t
    decreases |t|
  {
    if t != [] {
      AtIsSlice(s, p + 1, t[1..]);
      if p + |t| <= |s| {
        assert s[p..p + |t|] == [s[p]] + s[p + 1..p + |t|];
      }
    }
  }

  lemma {:induction false} AtSlice(s: bytes, p: nat, q: nat)
    requires p <= q <= |s|
    ensures At(s, p, s[p..q])
  {
    AtIsSlice(s, p, s[p..q]);
  }

  lemma {:induction false} AtConcat(s: bytes, p: nat, a: bytes, b: bytes)
    ensures At(s, p, a + b) <==> At(s, p, a) && At(s, p + |a|, b)
    decreases |a|
  {
    if a == [] {
      assert a + b == b;
      AtIsSlice(s, p, b);
    } else {
      assert (a + b)[1..] == a[1..] + b;
      AtConcat(s, p + 1, a[1..], b);
    }
  }

  lemma {:induction false} AtEmpty(s: bytes, p: nat)
    ensures At(s, p, []) <==> p <= |s|
  {
  }

  predicate IsByte(s: bytes, p: nat, b: byte) {
    p < |s| && s[p] == b
  }

  lemma {:induction false} AtByte(s: bytes, p: nat, b: byte)
    ensures At(s, p, [b]) <==> IsByte(s, p, b)
  {
    assert At(s, p + 1, [b][1..]) <==> p + 1 <= |s|;
  }

  lemma {:induction false} AtTwo(s: bytes, p: nat, a: byte, b: byte)
    ensures At(s, p, [a, b]) <==> IsByte(s, p, a) && IsByte(s, p + 1, b)
  {
    assert [a, b][1..] == [b];
    AtByte(s, p + 1, b);
  }

  lemma {:induction false} AtFirst(s: bytes, p: nat, t: bytes)
    requires At(s, p, t) && t != []
    ensures IsByte(s, p, t[0])
  {
  }

  /** Three pieces that make up the whole text. */
  lemma {:induction false} AtWhole(s: bytes, a: bytes, b: bytes, c: bytes)
    ensures s == a + b + c <==>
            At(s, 0, a) && At(s, |a|, b) && At(s, |a| + |b|, c) && |s| == |a| + |b| + |c|
  {
    AtIsSlice(s, 0, a + b + c);
    AtConcat(s, 0, a + b, c);
    AtConcat(s, 0, a, b);
  }
}
