/**
 Which bytes the character reader of the Java extension accepts although they are
 not UTF-8, and what that means for its encoder and for the converters in C.
 */
module JsonMalformed {
  import opened Bytes
  import opened JsonConverters
  import opened JsonEncoder
  import opened JsonTranscoder
  import Utf8

  /** The bytes at `p` are the encoding of a scalar value. */
  ghost predicate ScalarHere(s: bytes, p: nat) {
    exists c: Utf8.Scalar :: At(s, p, Utf8.Encode(c))
  }

  /** The bytes at `p` are a surrogate, written as UTF-8 would write its code. */
  predicate SurrogateHere(s: bytes, p: nat) {
    p + 3 <= |s| && s[p] == 0xED && 0xA0 <= s[p + 1] <= 0xBF && Utf8.IsTail(s[p + 2])
  }

  /** The bytes at `p` are four although fewer would do. */
  predicate OverlongHere(s: bytes, p: nat) {
    p + 4 <= |s| && s[p] == 0xF0 && 0x80 <= s[p + 1] <= 0x8F && Utf8.IsTail(s[p + 2]) && Utf8.IsTail(s[p + 3])
  }

  /**
   readUtf8Char reads a character exactly where a scalar value is encoded, where a
   surrogate is, or where four bytes are used for a code below 0x10000; what it
   reads tells which.
   */
  lemma {:induction false} ReadExactly(s: bytes, p: nat)
    requires p < |s|
    ensures ReadAt(s, p).Some? <==> ScalarHere(s, p) || SurrogateHere(s, p) || OverlongHere(s, p)
    ensures !(SurrogateHere(s, p) && OverlongHere(s, p))
    ensures SurrogateHere(s, p) ==> !ScalarHere(s, p) && 0xD800 <= ReadAt(s, p).value.code <= 0xDFFF
    ensures OverlongHere(s, p) ==> !ScalarHere(s, p) && ReadAt(s, p).value.code < 0x10000
    ensures forall c: Utf8.Scalar :: At(s, p, Utf8.Encode(c)) ==> ReadAt(s, p) == Some(Read(c, p + |Utf8.Encode(c)|))
  {
    hide At, Utf8.Encode, ReadAt, SurrogateHere, OverlongHere;
    if ScalarHere(s, p) {
      var c: Utf8.Scalar :| At(s, p, Utf8.Encode(c));
      EncodedIsNeither(s, p, c);
    }
    forall c: Utf8.Scalar | At(s, p, Utf8.Encode(c))
      ensures ReadAt(s, p) == Some(Read(c, p + |Utf8.Encode(c)|))
    {
      ReadEncoded(s, p, c);
    }
    MalformedIsRead(s, p);
    if ReadAt(s, p).Some? && !SurrogateHere(s, p) && !OverlongHere(s, p) {
      ReadIsEncoded(s, p);
    }
  }

  lemma {:induction false} EncodedIsNeither(s: bytes, p: nat, c: Utf8.Scalar)
    requires At(s, p, Utf8.Encode(c))
    ensures !SurrogateHere(s, p) && !OverlongHere(s, p)
  {
    hide At, Utf8.Encode, TrailingBytes;
    EncodedIsLegal(s, p, c);
    SurrogateIllegal(s, p);
  }

  lemma {:induction false} SurrogateIllegal(s: bytes, p: nat)
    requires p < |s|
    ensures SurrogateHere(s, p) ==> TrailingBytes(s[p]) == 2 && !IsLegalUtf8(s, p, 3)
    ensures OverlongHere(s, p) ==> TrailingBytes(s[p]) == 3 && !IsLegalUtf8(s, p, 4)
  {
  }

  lemma {:induction false} MalformedIsRead(s: bytes, p: nat)
    requires p < |s|
    ensures SurrogateHere(s, p) ==> ReadAt(s, p).Some? && 0xD800 <= ReadAt(s, p).value.code <= 0xDFFF
    ensures OverlongHere(s, p) ==> ReadAt(s, p).Some? && ReadAt(s, p).value.code < 0x10000
    ensures !(SurrogateHere(s, p) && OverlongHere(s, p))
  {
  }

  lemma {:induction false} ReadIsEncoded(s: bytes, p: nat)
    requires p < |s| && ReadAt(s, p).Some? && !SurrogateHere(s, p) && !OverlongHere(s, p)
    ensures ScalarHere(s, p)
  {
    hide At, Utf8.Encode;
    ReadIsLegal(s, p);
    var n := TrailingBytes(s[p]) + 1;
    LegalIsEncoded(s, p, n);
    var c: Utf8.Scalar :| n == |Utf8.Encode(c)| && At(s, p, Utf8.Encode(c));
  }

  lemma {:induction false} ReadIsLegal(s: bytes, p: nat)
    requires p < |s| && ReadAt(s, p).Some? && !SurrogateHere(s, p) && !OverlongHere(s, p)
    ensures var n := TrailingBytes(s[p]) + 1; p + n <= |s| && IsLegalUtf8(s, p, n) && !LowSecondByte(s, p, n)
  {
  }

  /** A surrogate and a slash in four bytes are read, although neither is UTF-8. */
  lemma {:induction false} MalformedRead()
    ensures ReadAt([0xED, 0xA0, 0x80], 0) == Some(Read(0xD800, 3)) && !ScalarHere([0xED, 0xA0, 0x80], 0)
    ensures ReadAt([0xF0, 0x80, 0x80, 0xAF], 0) == Some(Read(0x2F, 4)) && !ScalarHere([0xF0, 0x80, 0x80, 0xAF], 0)
  {
    ReadExactly([0xED, 0xA0, 0x80], 0);
    ReadExactly([0xF0, 0x80, 0x80, 0xAF], 0);
  }

  // ---------------------------------------------------------------- whole strings

  /** From `p` on, one sequence after the other that the reader accepts. */
  ghost predicate Readable(s: bytes, p: nat)
    decreases |s| - p
  {
    p >= |s|
    || ((ScalarHere(s, p) || SurrogateHere(s, p) || OverlongHere(s, p))
        && ReadAt(s, p).Some? && Readable(s, ReadAt(s, p).value.next))
  }

  /** The Java encoder accepts exactly the strings made of such sequences. */
  lemma {:induction false} EncoderAcceptsExactly(s: bytes, p: nat, asciiOnly: bool)
    ensures Encoded(s, p, asciiOnly).Some? <==> Readable(s, p)
    decreases |s| - p
  {
    hide ReadAt, Piece, ScalarHere, SurrogateHere, OverlongHere;
    if p < |s| {
      ReadExactly(s, p);
      if ReadAt(s, p).Some? {
        EncoderAcceptsExactly(s, ReadAt(s, p).value.next, asciiOnly);
      }
    }
  }

  /** What both the C converters and the Java encoder accept from `p` on is UTF-8. */
  lemma {:induction false} BothAcceptText(s: bytes, p: nat) returns (cs: seq<Utf8.Scalar>)
    requires p <= |s| && ConvertAscii(s, p).Ok? && Encoded(s, p, true).Some?
    ensures At(s, p, Utf8.Text(cs)) && p + |Utf8.Text(cs)| == |s|
    decreases |s| - p
  {
    hide ReadAt, Utf8.Encode, At, CodeAt, IsLegalUtf8, LowSecondByte, Piece;
    if p == |s| {
      cs := [];
      AtEmpty(s, p);
    } else {
      var c := AcceptedByBoth(s, p);
      var rest := BothAcceptText(s, p + |Utf8.Encode(c)|);
      cs := [c] + rest;
      assert cs[1..] == rest;
      AtConcat(s, p, Utf8.Encode(c), Utf8.Text(rest));
    }
  }

  /** What both read at `p` is the same encoded scalar value. */
  lemma {:induction false} AcceptedByBoth(s: bytes, p: nat) returns (c: Utf8.Scalar)
    requires p < |s| && SequenceAt(s, p).Ok? && ReadAt(s, p).Some?
    ensures At(s, p, Utf8.Encode(c)) && p + |Utf8.Encode(c)| <= |s|
    ensures SequenceAt(s, p) == Ok(|Utf8.Encode(c)|) && ReadAt(s, p) == Some(Read(c, p + |Utf8.Encode(c)|))
  {
    hide At, Utf8.Encode, ReadAt, TrailingBytes, SurrogateHere, OverlongHere;
    ReadExactly(s, p);
    SurrogateIllegal(s, p);
    c :| At(s, p, Utf8.Encode(c));
    EncodedIsLegal(s, p, c);
  }

  /**
   Both extensions let malformed strings through, but never the same ones: a string
   is accepted by the C converters and by the Java encoder if and only if it is UTF-8.
   */
  lemma {:induction false} BothAcceptExactly(s: bytes)
    ensures ConvertAscii(s, 0).Ok? && Encoded(s, 0, true).Some? <==> Utf8.WellFormed(s)
    ensures Convert(s, 0).Ok? && Encoded(s, 0, false).Some? <==> Utf8.WellFormed(s)
  {
    hide ConvertAscii, Convert, Encoded, At;
    ConvertersRefuseAlike(s, 0);
    EncoderAcceptsExactly(s, 0, true);
    EncoderAcceptsExactly(s, 0, false);
    if Utf8.WellFormed(s) {
      EncodersAgree(s, true);
      EncodersAgree(s, false);
    }
    if ConvertAscii(s, 0).Ok? && Encoded(s, 0, true).Some? {
      var cs := BothAcceptText(s, 0);
      AtIsSlice(s, 0, Utf8.Text(cs));
      assert s[0..|s|] == s;
    }
  }
}
