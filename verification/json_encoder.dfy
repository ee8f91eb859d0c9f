/**
 The string encoder of the Java extension (StringEncoder.java): characters that
 need no escape are not copied when they are read but in one go when such a
 sequence ends. On well-formed UTF-8 it writes the same bytes as the converters of
 the C extension.
 */
module JsonEncoder {
  import opened Bytes
  import opened JsonConverters
  import opened JsonEscape
  import opened JsonReader
  import opened JsonTranscoder
  import Utf8

  // ---------------------------------------------------------------- what is written

  /** A character that is copied as it is. */
  predicate Copied(c: nat, asciiOnly: bool) {
    c != QUOTE && c != BACKSLASH && (0x20 <= c <= 0x7F || (c >= 0x80 && !asciiOnly))
  }

  /** The escape of a character that is not copied. */
  function Escaped(c: nat): bytes
    requires c <= 0x10FFFF
  {
    if c == QUOTE || c == BACKSLASH then [BACKSLASH, c]
    else if ShortLetter(c).Some? then [BACKSLASH, ShortLetter(c).value]
    else if c <= 0xFFFF then UnicodeEscape(c)
    else UnicodeEscape(HighOf(c)) + UnicodeEscape(LowOf(c))
  }

  /** What a character that was read from `p` to `q` becomes. */
  function Piece(s: bytes, p: nat, q: nat, c: nat, asciiOnly: bool): bytes
    requires p <= q <= |s| && c <= 0x10FFFF
  {
    if Copied(c, asciiOnly) then s[p..q] else Escaped(c)
  }

  /** What is written for the text from `p` on. */
  function Encoded(s: bytes, p: nat, asciiOnly: bool): Option<bytes>
    decreases |s| - p
  {
    if p >= |s| then Some([])
    else
      var r := ReadAt(s, p);
      if r.None? then None
      else Prepend(Piece(s, p, r.value.next, r.value.code, asciiOnly), Encoded(s, r.value.next, asciiOnly))
  }

  // ---------------------------------------------------------------- on well-formed text

  lemma {:induction false} PieceIsEscape(s: bytes, p: nat, c: Utf8.Scalar, asciiOnly: bool)
    requires At(s, p, Utf8.Encode(c))
    ensures p + |Utf8.Encode(c)| <= |s|
    ensures Piece(s, p, p + |Utf8.Encode(c)|, c, asciiOnly) == EscapeScalar(c, asciiOnly)
  {
    AtIsSlice(s, p, Utf8.Encode(c));
  }

  /** On encoded text the encoder writes the escape of the text, one scalar value at a time. */
  lemma {:induction false} EncodedText(s: bytes, p: nat, cs: seq<Utf8.Scalar>, asciiOnly: bool)
    requires At(s, p, Utf8.Text(cs)) && p + |Utf8.Text(cs)| == |s|
    ensures Encoded(s, p, asciiOnly) == Some(EscapeText(cs, asciiOnly))
    decreases |cs|
  {
    hide ReadAt, Piece, Utf8.Encode, EscapeScalar, At;
    if cs != [] {
      var c := cs[0];
      AtConcat(s, p, Utf8.Encode(c), Utf8.Text(cs[1..]));
      EncodedText(s, p + |Utf8.Encode(c)|, cs[1..], asciiOnly);
      ReadEncoded(s, p, c);
      PieceIsEscape(s, p, c, asciiOnly);
    }
  }

  /** The encoders of the two extensions agree on well-formed UTF-8. */
  lemma {:induction false} EncodersAgree(s: bytes, asciiOnly: bool)
    requires Utf8.WellFormed(s)
    ensures Encoded(s, 0, asciiOnly).Some?
    ensures (if asciiOnly then ConvertAscii(s, 0) else Convert(s, 0)) == Ok(Encoded(s, 0, asciiOnly).value)
  {
    hide Encoded, Convert, ConvertAscii, EscapeText;
    var cs: seq<Utf8.Scalar> :| Utf8.Text(cs) == s;
    AtIsSlice(s, 0, s);
    assert s[0..|s|] == s;
    EncodedText(s, 0, cs, asciiOnly);
    ConvertText(s, 0, cs);
  }

  // ---------------------------------------------------------------- the encoder

  /** Four bits of a code unit: the unit shifted right by 12 - 4 * i. */
  function Nibble(u: nat, i: nat): (d: nat)
    requires u <= 0xFFFF && i < 4
    ensures d < 16 && HexOf(u)[i] == HexChar(d)
  {
    (if i == 0 then u / 4096 else if i == 1 then u / 256 else if i == 2 then u / 16 else u) % 16
  }

  class StringEncoder {
    const base: Transcoder
    const asciiOnly: bool
    const aux: array<byte>

    /** The fixed bytes of the shared array: two unicode escapes and a short one. */
    predicate AuxOk()
      reads aux
    {
      && aux.Length == 14
      && aux[0] == BACKSLASH && aux[1] == LETTER_U && aux[6] == BACKSLASH && aux[7] == LETTER_U && aux[12] == BACKSLASH
    }

    constructor (asciiOnly: bool)
      ensures AuxOk() && base.Valid() && base.quoteStart == -1 && this.asciiOnly == asciiOnly
      ensures fresh(base) && fresh(aux)
    {
      this.asciiOnly := asciiOnly;
      base := new Transcoder();
      aux := new byte[14](
        i => if i == 0 || i == 6 || i == 12 then BACKSLASH else if i == 1 || i == 7 then LETTER_U else 0);
    }

    /** escapeChar */
    method EscapeChar(c: byte)
      requires AuxOk() && base.Valid()
      modifies base`out, base`quoteStart, aux
      ensures AuxOk() && base.quoteStart == -1 && base.out == old(base.WrittenTo(base.charStart)) + [BACKSLASH, c]
    {
      base.QuoteStop(base.charStart);
      aux[13] := c;
      base.Append(aux[12..14]);
      assert aux[12..14] == [BACKSLASH, c];
    }

    /** escapeCodeUnit: four hex digits from `at` on. */
    method EscapeCodeUnit(u: nat, at: nat)
      requires AuxOk() && u <= 0xFFFF && (at == 2 || at == 8)
      modifies aux
      ensures AuxOk() && aux[at..at + 4] == HexOf(u)
      ensures forall i :: 0 <= i < 14 && !(at <= i < at + 4) ==> aux[i] == old(aux[i])
    {
      var i := 0;
      while i < 4
        invariant 0 <= i <= 4 && AuxOk()
        invariant forall j :: 0 <= j < i ==> aux[at + j] == HexOf(u)[j]
        invariant forall j :: 0 <= j < 14 && !(at <= j < at + 4) ==> aux[j] == old(aux[j])
      {
        aux[at + i] := HexChar(Nibble(u, i));
        i := i + 1;
      }
    }

    /** escapeUtf8Char: one or two code units are put in the shared array and appended together. */
    method EscapeUtf8Char(code: nat)
      requires AuxOk() && code <= 0x10FFFF
      modifies base`out, aux
      ensures AuxOk()
      ensures base.out == old(base.out) + if code <= 0xFFFF then UnicodeEscape(code)
                                          else UnicodeEscape(HighOf(code)) + UnicodeEscape(LowOf(code))
    {
      hide HexOf;
      if code <= 0xFFFF {
        EscapeCodeUnit(code, 2);
        assert aux[0..6] == UnicodeEscape(code);
        base.Append(aux[0..6]);
      } else {
        EscapeCodeUnit(HighOf(code), 2);
        EscapeCodeUnit(LowOf(code), 8);
        assert aux[2..6] == HexOf(HighOf(code));
        assert aux[0..12] == UnicodeEscape(HighOf(code)) + UnicodeEscape(LowOf(code));
        base.Append(aux[0..12]);
      }
    }

    /** handleChar, for a character that was read from charStart to pos. */
    method HandleChar(c: nat)
      requires AuxOk() && base.Valid() && c <= 0x10FFFF
      modifies base`out, base`quoteStart, aux
      ensures AuxOk() && base.Valid()
      ensures base.WrittenTo(base.pos)
           == old(base.WrittenTo(base.charStart)) + Piece(base.src, base.charStart, base.pos, c, asciiOnly)
    {
      hide UnicodeEscape;
      if c == QUOTE || c == BACKSLASH {
        EscapeChar(c);
      } else if c == NEWLINE {
        EscapeChar(LETTER_N);
      } else if c == RETURN {
        EscapeChar(LETTER_R);
      } else if c == TAB {
        EscapeChar(LETTER_T);
      } else if c == FORM_FEED {
        EscapeChar(LETTER_F);
      } else if c == BACKSPACE {
        EscapeChar(LETTER_B);
      } else if 0x20 <= c <= 0x7F || (c >= 0x80 && !asciiOnly) {
        base.QuoteStart();
      } else {
        base.QuoteStop(base.charStart);
        EscapeUtf8Char(c);
      }
    }

    /**
     encode: the text between quotes is appended to `to`; not ok means an exception.
     No sequence may be pending from an earlier call, and none is after a success.
     */
    method Encode(text: bytes, to: bytes) returns (ok: bool)
      requires AuxOk() && base.quoteStart == -1
      modifies base, aux
      ensures AuxOk() && (ok ==> base.quoteStart == -1)
      ensures match Encoded(text, 0, asciiOnly)
              case None => !ok
              case Some(written) => ok && base.out == to + Quoted(written)
    {
      hide Encoded, Piece, ReadAt;
      base.Init(text, 0, |text|, to);
      base.Append([QUOTE]);
      ghost var goal, done: bytes := Encoded(text, 0, asciiOnly), [];
      NothingDone(goal, to);
      while base.pos < base.srcEnd
        invariant AuxOk() && base.Valid() && base.src == text && base.srcEnd == |text|
        invariant base.WrittenTo(base.pos) == to + ([QUOTE] + done)
        invariant goal == Prepend(done, Encoded(text, base.pos, asciiOnly))
        decreases base.srcEnd - base.pos
      {
        ghost var p := base.pos;
        assert base.Source() == text;
        var c := base.ReadUtf8Char();
        EncodeStep(text, p, asciiOnly, done);
        if c.None? { return false; }
        HandleChar(c.value);
        ghost var piece := Piece(text, p, base.pos, c.value, asciiOnly);
        assert to + ([QUOTE] + done) + piece == to + ([QUOTE] + (done + piece));
        done := done + piece;
      }
      base.QuoteStop(base.pos);
      EncodeEnds(text, asciiOnly, done);
      base.Append([QUOTE]);
      assert to + ([QUOTE] + done) + [QUOTE] == to + Quoted(done);
      return true;
    }
  }

  lemma {:induction false} NothingDone(r: Option<bytes>, to: bytes)
    ensures Prepend([], r) == r && to + [QUOTE] == to + ([QUOTE] + [])
  {
    if r.Some? {
      assert [] + r.value == r.value;
    }
  }

  /** One round of the loop. */
  lemma {:induction false} EncodeStep(s: bytes, p: nat, asciiOnly: bool, done: bytes)
    requires p < |s|
    ensures var r := ReadAt(s, p);
            if r.None? then Prepend(done, Encoded(s, p, asciiOnly)) == None
            else
              Prepend(done, Encoded(s, p, asciiOnly))
              == Prepend(done + Piece(s, p, r.value.next, r.value.code, asciiOnly), Encoded(s, r.value.next, asciiOnly))
  {
    hide ReadAt, Piece;
    var r := ReadAt(s, p);
    if r.Some? {
      var piece, rest := Piece(s, p, r.value.next, r.value.code, asciiOnly), Encoded(s, r.value.next, asciiOnly);
      if rest.Some? {
        assert done + (piece + rest.value) == done + piece + rest.value;
      }
    }
  }

  lemma {:induction false} EncodeEnds(s: bytes, asciiOnly: bool, done: bytes)
    ensures Prepend(done, Encoded(s, |s|, asciiOnly)) == Some(done)
  {
    assert done + [] == done;
  }
}
