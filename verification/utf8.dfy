/**
 UTF-8 as RFC 3629 defines it: the encoding of one scalar value (section 3) and
 of a sequence of them. This is the reference the string converters are proved
 against; nothing here follows the code of the library.
 */
module Utf8 {
  import opened Bytes

  type Scalar = c: int | 0 <= c < 0xD800 || 0xE000 <= c <= 0x10FFFF

  function Encode(c: Scalar): (e: bytes)
    ensures 1 <= |e| <= 4
  {
    if c < 0x80 then [c]
    else if c < 0x800 then [0xC0 + c / 64, 0x80 + c % 64]
    else if c < 0x10000 then [0xE0 + c / 4096, 0x80 + c / 64 % 64, 0x80 + c % 64]
    else [0xF0 + c / 262144, 0x80 + c / 4096 % 64, 0x80 + c / 64 % 64, 0x80 + c % 64]
  }

  /** The encoded text of a sequence of scalar values. */
  function Text(cs: seq<Scalar>): bytes {
    if cs == [] then [] else Encode(cs[0]) + Text(cs[1..])
  }

  ghost predicate WellFormed(s: bytes) {
    exists cs: seq<Scalar> :: Text(cs) == s
  }

  predicate IsTail(b: byte) {
    0x80 <= b <= 0xBF
  }

  /** A lead byte is what no tail byte can be: text is self-synchronising. */
  lemma {:induction false} EncodeShape(c: Scalar)
    ensures !IsTail(Encode(c)[0])
    ensures forall i :: 1 <= i < |Encode(c)| ==> IsTail(Encode(c)[i])
    ensures |Encode(c)| == 1 <==> c < 0x80
    ensures |Encode(c)| == 1 ==> Encode(c)[0] == c
    ensures |Encode(c)| > 1 ==> Encode(c)[0] >= 0xC2
  {
  }

  /** Length of an encoded scalar value, read off its first byte. */
  function LeadLength(b: byte): nat {
    if b < 0xC0 then 1 else if b < 0xE0 then 2 else if b < 0xF0 then 3 else 4
  }

  /** The scalar value that a sequence of the right length denotes. */
  function Decode(e: bytes): int
    requires 1 <= |e| <= 4
  {
    if |e| == 1 then e[0]
    else if |e| == 2 then Fold(e[0] as int - 0xC0, e[1])
    else if |e| == 3 then Fold(Fold(e[0] as int - 0xE0, e[1]), e[2])
    else Fold(Fold(Fold(e[0] as int - 0xF0, e[1]), e[2]), e[3])
  }

  /** Six more bits, from a tail byte. */
  function Fold(high: int, tail: byte): int {
    high * 64 + (tail as int - 0x80)
  }

  lemma {:induction false} DecodeEncode(c: Scalar)
    ensures Decode(Encode(c)) == c
    ensures LeadLength(Encode(c)[0]) == |Encode(c)|
  {
    assert c / 4096 == c / 64 / 64 && c / 262144 == c / 64 / 64 / 64;
  }

  lemma {:induction false} EncodeInjective(a: Scalar, b: Scalar)
    requires Encode(a) == Encode(b)
    ensures a == b
  {
    DecodeEncode(a);
    DecodeEncode(b);
  }

  /** Two encoded scalar values in front of the same text are the same scalar value. */
  lemma {:induction false} FirstUnique(a: Scalar, x: bytes, b: Scalar, y: bytes)
    requires Encode(a) + x == Encode(b) + y
    ensures a == b && x == y
  {
    DecodeEncode(a);
    DecodeEncode(b);
    var s := Encode(a) + x;
    assert s[0] == Encode(a)[0] && s[0] == Encode(b)[0];
    assert Encode(a) == s[..|Encode(a)|] && Encode(b) == s[..|Encode(b)|];
    assert x == s[|Encode(a)|..] && y == s[|Encode(b)|..];
    EncodeInjective(a, b);
  }

  lemma {:induction false} TextInjective(a: seq<Scalar>, b: seq<Scalar>)
    requires Text(a) == Text(b)
    ensures a == b
  {
    if a == [] || b == [] {
    } else {
      FirstUnique(a[0], Text(a[1..]), b[0], Text(b[1..]));
      TextInjective(a[1..], b[1..]);
      assert a == [a[0]] + a[1..] && b == [b[0]] + b[1..];
    }
  }

  lemma {:induction false} TextConcat(a: seq<Scalar>, b: seq<Scalar>)
    ensures Text(a + b) == Text(a) + Text(b)
  {
    if a == [] {
      assert a + b == b;
    } else {
      assert (a + b)[1..] == a[1..] + b;
      TextConcat(a[1..], b);
    }
  }
}
