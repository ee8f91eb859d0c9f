/**
 The string converters of generator.c. Both decode UTF-8 by looking at the lead
 byte and check each sequence with isLegalUTF8; one copies plain runs in one go,
 the other writes every character beyond ASCII as one or two unicode escapes.
 Both are proved to write the escape of the text, one scalar value at a time.
 */
module JsonConverters {
  import opened Bytes
  import opened FBuffers
  import opened JsonEscape
  import opened JsonReader
  import opened JsonValue
  import Utf8

  datatype GenError = TooNested | PartialCharacter | IllegalUtf8 | NotANumber

  /** Entry of the trailingBytesForUTF8 table. */
  function TrailingBytes(b: byte): (n: nat)
    ensures n <= 5
  {
    if b < 0xC0 then 0 else if b < 0xE0 then 1 else if b < 0xF0 then 2
    else if b < 0xF8 then 3 else if b < 0xFC then 4 else 5
  }

  /** The second byte of a sequence, tested against its lead byte. */
  predicate SecondLegal(lead: byte, a: byte) {
    && a <= 0xBF
    && (if lead == 0xE0 then a >= 0xA0
        else if lead == 0xED then a <= 0x9F
        else if lead == 0xF0 then a >= 0x90
        else if lead == 0xF4 then a <= 0x8F
        else a >= 0x80)
  }

  /** isLegalUTF8 of the `n` bytes at `p`. */
  predicate IsLegalUtf8(s: bytes, p: nat, n: nat)
    requires p + n <= |s|
  {
    && 1 <= n <= 4
    && (n == 4 ==> Utf8.IsTail(s[p + 3]))
    && (n >= 3 ==> Utf8.IsTail(s[p + 2]))
    && (n >= 2 ==> SecondLegal(s[p], s[p + 1]))
    && !(0x80 <= s[p] < 0xC2)
    && s[p] <= 0xF4
  }

  /** What the test lets through although no scalar value is encoded so. */
  predicate LowSecondByte(s: bytes, p: nat, n: nat)
    requires p + n <= |s|
  {
    || (n == 3 && s[p] == 0xED && s[p + 1] < 0x80 && Utf8.IsTail(s[p + 2]))
    || (n == 4 && s[p] == 0xF4 && s[p + 1] < 0x80 && Utf8.IsTail(s[p + 2]) && Utf8.IsTail(s[p + 3]))
  }

  /** The bytes at `p` are the encoding of a scalar value. */
  ghost predicate IsEncoded(s: bytes, p: nat, n: nat) {
    exists c: Utf8.Scalar :: n == |Utf8.Encode(c)| && At(s, p, Utf8.Encode(c))
  }

  lemma {:induction false} EncodeIsLegalBytes(c: Utf8.Scalar)
    ensures LegalBytes(Utf8.Encode(c))
  {
  }

  lemma {:induction false} EncodedIsLegal(s: bytes, p: nat, c: Utf8.Scalar)
    requires At(s, p, Utf8.Encode(c))
    ensures p + |Utf8.Encode(c)| <= |s| && TrailingBytes(s[p]) + 1 == |Utf8.Encode(c)|
    ensures IsLegalUtf8(s, p, |Utf8.Encode(c)|)
    ensures !LowSecondByte(s, p, |Utf8.Encode(c)|)
  {
    hide At, Utf8.Encode, SecondLegal, TrailingBytes;
    AtIsSlice(s, p, Utf8.Encode(c));
    EncodeIsLegalBytes(c);
    var n := |Utf8.Encode(c)|;
    var e := s[p..p + n];
    assert e[0] == s[p];
    assert n >= 2 ==> e[1] == s[p + 1];
    assert n >= 3 ==> e[2] == s[p + 2];
    assert n == 4 ==> e[3] == s[p + 3];
  }

  /** A legal sequence with a proper second byte decodes to a scalar value that is encoded so. */
  lemma {:induction false} LegalIsEncoded(s: bytes, p: nat, n: nat)
    requires p + n <= |s| && n >= 1 && n == TrailingBytes(s[p]) + 1
    requires IsLegalUtf8(s, p, n) && !LowSecondByte(s, p, n)
    ensures IsEncoded(s, p, n)
  {
    hide At;
    var e := s[p..p + n];
    var c := Utf8.Decode(e);
    DecodedIsScalar(e);
    AtSlice(s, p, p + n);
    assert n == |Utf8.Encode(c)| && At(s, p, Utf8.Encode(c));
  }

  /** The bytes of a legal sequence, as a sequence of their own. */
  predicate LegalBytes(e: bytes) {
    && 1 <= |e| <= 4 && |e| == TrailingBytes(e[0]) + 1
    && (|e| == 4 ==> Utf8.IsTail(e[3])) && (|e| >= 3 ==> Utf8.IsTail(e[2]))
    && (|e| >= 2 ==> Utf8.IsTail(e[1]) && SecondLegal(e[0], e[1]))
    && !(0x80 <= e[0] < 0xC2) && e[0] <= 0xF4
  }

  lemma {:induction false} DecodedIsScalar(e: bytes)
    requires LegalBytes(e)
    ensures var c := Utf8.Decode(e); (0 <= c < 0xD800 || 0xE000 <= c <= 0x10FFFF) && Utf8.Encode(c) == e
  {
    if |e| == 1 {
    } else if |e| == 2 {
      FoldParts(e[0] as int - 0xC0, e[1]);
    } else if |e| == 3 {
      ThreeBytes(e);
    } else {
      FourBytes(e);
    }
  }

  lemma {:induction false} ThreeBytes(e: bytes)
    requires LegalBytes(e) && |e| == 3
    ensures var c := Utf8.Decode(e); (0x800 <= c < 0xD800 || 0xE000 <= c <= 0xFFFF) && Utf8.Encode(c) == e
  {
    var g := e[0] as int - 0xE0;
    var h := Utf8.Fold(g, e[1]);
    FoldParts(g, e[1]);
    FoldParts(h, e[2]);
    assert Utf8.Decode(e) / 4096 == h / 64;
  }

  lemma {:induction false} FourBytes(e: bytes)
    requires LegalBytes(e) && |e| == 4
    ensures var c := Utf8.Decode(e); 0x10000 <= c <= 0x10FFFF && Utf8.Encode(c) == e
  {
    var f := e[0] as int - 0xF0;
    var g := Utf8.Fold(f, e[1]);
    var h := Utf8.Fold(g, e[2]);
    FoldParts(f, e[1]);
    FoldParts(g, e[2]);
    FoldParts(h, e[3]);
    assert Utf8.Decode(e) / 4096 == h / 64 && Utf8.Decode(e) / 262144 == g / 64;
  }

  lemma {:induction false} FoldParts(high: int, tail: byte)
    requires high >= 0 && Utf8.IsTail(tail)
    ensures Utf8.Fold(high, tail) / 64 == high && Utf8.Fold(high, tail) % 64 == tail as int - 0x80
  {
  }

  /** isLegalUTF8 accepts every encoded scalar value and, besides, exactly the sequences with a low second byte. */
  lemma {:induction false} LegalExactly(s: bytes, p: nat, n: nat)
    requires p + n <= |s| && n >= 1 && n == TrailingBytes(s[p]) + 1
    ensures IsLegalUtf8(s, p, n) <==> IsEncoded(s, p, n) || LowSecondByte(s, p, n)
    ensures !(IsEncoded(s, p, n) && LowSecondByte(s, p, n))
  {
    if IsEncoded(s, p, n) {
      var c: Utf8.Scalar :| n == |Utf8.Encode(c)| && At(s, p, Utf8.Encode(c));
      EncodedIsLegal(s, p, c);
    } else if IsLegalUtf8(s, p, n) && !LowSecondByte(s, p, n) {
      LegalIsEncoded(s, p, n);
    }
  }

  /** A sequence that the test accepts although it is not UTF-8: its second byte is no tail byte. */
  lemma {:induction false} LegalButMalformed()
    ensures var s: bytes := [0xED, 0x41, 0x80]; IsLegalUtf8(s, 0, 3) && !IsEncoded(s, 0, 3)
  {
    LegalExactly([0xED, 0x41, 0x80], 0, 3);
  }

  // ---------------------------------------------------------------- what the converters write

  /** Length of the sequence at `p`, or why it is refused. */
  function SequenceAt(s: bytes, p: nat): (r: Result<nat, GenError>)
    requires p < |s|
    ensures r.Ok? ==> 1 <= r.value <= 4 && p + r.value <= |s|
  {
    var n := TrailingBytes(s[p]) + 1;
    if p + n > |s| then Err(PartialCharacter)
    else if !IsLegalUtf8(s, p, n) then Err(IllegalUtf8)
    else Ok(n)
  }

  function Before(a: bytes, r: Result<bytes, GenError>): Result<bytes, GenError> {
    if r.Ok? then Ok(a + r.value) else r
  }

  lemma {:induction false} BeforeTwice(a: bytes, b: bytes, r: Result<bytes, GenError>)
    ensures Before(a, Before(b, r)) == Before(a + b, r)
  {
    if r.Ok? {
      assert a + (b + r.value) == a + b + r.value;
    }
  }

  lemma {:induction false} BeforeNothing(r: Result<bytes, GenError>)
    ensures Before([], r) == r
  {
    if r.Ok? {
      assert [] + r.value == r.value;
    }
  }

  /** A byte that the JSON standard wants escaped. */
  predicate MustEscape(b: byte) {
    b < SPACE || b == QUOTE || b == BACKSLASH
  }

  /** What convert_UTF8_to_JSON writes for the bytes from `p` on. */
  function Convert(s: bytes, p: nat): Result<bytes, GenError>
    decreases |s| - p
  {
    if p >= |s| then Ok([])
    else if MustEscape(s[p]) then Before(EscapeScalar(s[p], false), Convert(s, p + 1))
    else
      var n := SequenceAt(s, p);
      if n.Err? then Err(n.error) else Before(s[p..p + n.value], Convert(s, p + n.value))
  }

  /** The bytes of a sequence summed up, six bits apart, without clearing their marker bits. */
  function RawSum(s: bytes, p: nat, n: nat): nat
    requires p + n <= |s|
  {
    if n == 0 then 0 else RawSum(s, p, n - 1) * 64 + s[p + n - 1]
  }

  /** Entry of the offsetsFromUTF8 table: what the marker bits sum up to. */
  function Offset(n: nat): nat {
    if n == 1 then 0 else if n == 2 then 0x3080 else if n == 3 then 0xE2080 else 0x3C82080
  }

  function CodeAt(s: bytes, p: nat, n: nat): int
    requires p + n <= |s|
  {
    RawSum(s, p, n) - Offset(n)
  }

  /** A legal sequence never yields a surrogate or a code beyond the last plane, even if its second byte is low. */
  lemma {:induction false} CodeIsScalar(s: bytes, p: nat, n: nat)
    requires p + n <= |s| && n >= 1 && n == TrailingBytes(s[p]) + 1 && IsLegalUtf8(s, p, n)
    ensures var c := CodeAt(s, p, n); 0 <= c < 0xD800 || 0xE000 <= c <= 0x10FFFF
    ensures n == 1 ==> CodeAt(s, p, n) == s[p]
  {
    RawSums(s, p, n);
  }

  /** The subtracted offset leaves the encoded scalar value. */
  lemma {:induction false} CodeOfEncoded(s: bytes, p: nat, c: Utf8.Scalar)
    requires At(s, p, Utf8.Encode(c))
    ensures CodeAt(s, p, |Utf8.Encode(c)|) == c
  {
    AtIsSlice(s, p, Utf8.Encode(c));
    Utf8.DecodeEncode(c);
    var n := |Utf8.Encode(c)|;
    var e := s[p..p + n];
    RawSums(s, p, n);
    assert e[0] == s[p];
    assert n >= 2 ==> e[1] == s[p + 1];
    assert n >= 3 ==> e[2] == s[p + 2];
    assert n >= 4 ==> e[3] == s[p + 3];
  }

  /** What convert_UTF8_to_JSON_ASCII writes for the bytes from `p` on. */
  function ConvertAscii(s: bytes, p: nat): Result<bytes, GenError>
    decreases |s| - p
  {
    if p >= |s| then Ok([])
    else
      var n := SequenceAt(s, p);
      if n.Err? then Err(n.error)
      else
        CodeIsScalar(s, p, n.value);
        Before(EscapeScalar(CodeAt(s, p, n.value), true), ConvertAscii(s, p + n.value))
  }

  /** Both converters refuse the same strings, for the same reason. */
  lemma {:induction false} ConvertersRefuseAlike(s: bytes, p: nat)
    ensures Convert(s, p).Ok? <==> ConvertAscii(s, p).Ok?
    ensures Convert(s, p).Err? ==> ConvertAscii(s, p) == Convert(s, p)
    decreases |s| - p
  {
    hide EscapeScalar;
    if p < |s| {
      if MustEscape(s[p]) {
        ConvertersRefuseAlike(s, p + 1);
        assert SequenceAt(s, p) == Ok(1);
      } else if SequenceAt(s, p).Ok? {
        ConvertersRefuseAlike(s, p + SequenceAt(s, p).value);
      }
    }
  }

  lemma {:induction false} ConvertErrors(s: bytes, p: nat)
    ensures Convert(s, p).Err? ==> Convert(s, p).error == PartialCharacter || Convert(s, p).error == IllegalUtf8
    ensures ConvertAscii(s, p).Err? ==> Convert(s, p) == ConvertAscii(s, p)
    decreases |s| - p
  {
    hide IsLegalUtf8, EscapeScalar;
    ConvertersRefuseAlike(s, p);
    if p < |s| {
      if MustEscape(s[p]) {
        ConvertErrors(s, p + 1);
      } else if SequenceAt(s, p).Ok? {
        ConvertErrors(s, p + SequenceAt(s, p).value);
      }
    }
  }

  /** On encoded text both converters write the escape of the text. */
  lemma {:induction false} ConvertText(s: bytes, p: nat, cs: seq<Utf8.Scalar>)
    requires At(s, p, Utf8.Text(cs)) && p + |Utf8.Text(cs)| == |s|
    ensures Convert(s, p) == Ok(EscapeText(cs, false))
    ensures ConvertAscii(s, p) == Ok(EscapeText(cs, true))
    decreases |cs|
  {
    if cs != [] {
      var c := cs[0];
      AtConcat(s, p, Utf8.Encode(c), Utf8.Text(cs[1..]));
      ConvertText(s, p + |Utf8.Encode(c)|, cs[1..]);
      ConvertOne(s, p, c);
    }
  }

  lemma {:induction false} ConvertOne(s: bytes, p: nat, c: Utf8.Scalar)
    requires At(s, p, Utf8.Encode(c))
    ensures Convert(s, p) == Before(EscapeScalar(c, false), Convert(s, p + |Utf8.Encode(c)|))
    ensures ConvertAscii(s, p) == Before(EscapeScalar(c, true), ConvertAscii(s, p + |Utf8.Encode(c)|))
  {
    hide At, IsLegalUtf8, EscapeScalar, RawSum, Before;
    EncodedIsLegal(s, p, c);
    CodeOfEncoded(s, p, c);
    AtIsSlice(s, p, Utf8.Encode(c));
    Utf8.EncodeShape(c);
    assert s[p] == s[p..p + |Utf8.Encode(c)|][0];
    if c >= 0x80 || !MustEscape(c) {
      PlainOne(c);
    }
  }

  lemma {:induction false} PlainOne(c: Utf8.Scalar)
    requires c >= 0x80 || !MustEscape(c)
    ensures EscapeScalar(c, false) == Utf8.Encode(c)
  {
  }

  /**
   The string round trip: what either converter writes for well-formed UTF-8 is
   read back by the parser as the same bytes, and the ASCII converter writes
   nothing but bytes from 0x20 to 0x7f.
   */
  lemma {:induction false} StringRoundTrip(s: bytes)
    requires Utf8.WellFormed(s)
    ensures Convert(s, 0).Ok? && ConvertAscii(s, 0).Ok?
    ensures var q := Quoted(Convert(s, 0).value); ReadString(q, 0) == Done(Str(s), |q|)
    ensures var q := Quoted(ConvertAscii(s, 0).value); ReadString(q, 0) == Done(Str(s), |q|)
    ensures Printable(ConvertAscii(s, 0).value)
  {
    hide ReadString, EscapeText;
    var cs: seq<Utf8.Scalar> :| Utf8.Text(cs) == s;
    AtIsSlice(s, 0, s);
    assert s[0..|s|] == s;
    ConvertText(s, 0, cs);
    EscapeReadsBack(cs, false);
    EscapeReadsBack(cs, true);
    AsciiIsPrintable(cs);
  }

  function Quoted(text: bytes): bytes {
    [QUOTE] + (text + [QUOTE])
  }

  // ---------------------------------------------------------------- the converters

  /** The fixed escape of a byte, as the two switch statements of convert_UTF8_to_JSON choose it. */
  function EscapeOf(c: byte): bytes
    requires MustEscape(c)
  {
    if c == NEWLINE then [BACKSLASH, LETTER_N]
    else if c == RETURN then [BACKSLASH, LETTER_R]
    else if c == TAB then [BACKSLASH, LETTER_T]
    else if c == FORM_FEED then [BACKSLASH, LETTER_F]
    else if c == BACKSPACE then [BACKSLASH, LETTER_B]
    else if c < SPACE then UnicodeEscape(c)
    else if c == BACKSLASH then [BACKSLASH, BACKSLASH]
    else [BACKSLASH, QUOTE]
  }

  lemma {:induction false} EscapeOfIs(c: byte)
    requires MustEscape(c)
    ensures EscapeOf(c) == EscapeScalar(c, false)
  {
  }

  /** A plain sequence joins the run that is still to be copied. */
  lemma {:induction false} RunGrows(s: bytes, done: bytes, start: nat, end: nat, n: nat)
    requires start <= end < |s| && !MustEscape(s[end]) && SequenceAt(s, end) == Ok(n)
    ensures end + n <= |s|
    ensures Before(done + s[start..end], Convert(s, end)) == Before(done + s[start..end + n], Convert(s, end + n))
  {
    hide SequenceAt, Before;
    BeforeTwice(done + s[start..end], s[end..end + n], Convert(s, end + n));
    assert done + s[start..end] + s[end..end + n] == done + s[start..end + n];
  }

  /** A byte to be escaped ends the run. */
  lemma {:induction false} RunEnds(s: bytes, done: bytes, start: nat, end: nat)
    requires start <= end < |s| && MustEscape(s[end])
    ensures Before(done + s[start..end], Convert(s, end))
         == Before(done + s[start..end] + EscapeOf(s[end]) + s[end + 1..end + 1], Convert(s, end + 1))
  {
    hide Before, EscapeOf, EscapeScalar;
    EscapeOfIs(s[end]);
    BeforeTwice(done + s[start..end], EscapeOf(s[end]), Convert(s, end + 1));
    assert done + s[start..end] + EscapeOf(s[end]) + s[end + 1..end + 1] == done + s[start..end] + EscapeOf(s[end]);
  }

  /**
   convert_UTF8_to_JSON: bytes from `start` to `end` are plain and not yet
   copied; they are appended in one go at the next escape or at the end.
   */
  method ConvertToJson(buffer: FBuffer, s: bytes) returns (error: Option<GenError>)
    requires buffer.Valid()
    modifies buffer, buffer.ptr
    ensures buffer.Valid() && (buffer.ptr == old(buffer.ptr) || fresh(buffer.ptr))
    ensures match Convert(s, 0)
            case Err(e) => error == Some(e)
            case Ok(text) => error == None && buffer.Contents() == old(buffer.Contents()) + text
  {
    hide Convert, SequenceAt, IsLegalUtf8, MustEscape, EscapeOf, IsDoubled, FBuffer.Valid, FBuffer.Contents;
    ghost var before, done: bytes, goal := buffer.Contents(), [], Convert(s, 0);
    var start, end := 0, 0;
    assert [] + s[0..0] == [];
    BeforeNothing(goal);
    assert before + [] == before;
    while end < |s|
      invariant start <= end <= |s| && buffer.Valid() && (buffer.ptr == old(buffer.ptr) || fresh(buffer.ptr))
      invariant buffer.Contents() == before + done
      invariant goal == Before(done + s[start..end], Convert(s, end))
    {
      if MustEscape(s[end]) {
        RunEnds(s, done, start, end);
        buffer.Append(s[start..end]);
        buffer.Append(EscapeOf(s[end]));
        assert before + done + s[start..end] + EscapeOf(s[end]) == before + (done + s[start..end] + EscapeOf(s[end]));
        done := done + s[start..end] + EscapeOf(s[end]);
        end := end + 1;
        start := end;
      } else {
        var n := SequenceAt(s, end);
        if n.Err? {
          ConvertStops(s, end);
          return Some(n.error);
        }
        RunGrows(s, done, start, end, n.value);
        end := end + n.value;
      }
    }
    buffer.Append(s[start..end]);
    assert before + done + s[start..end] == before + (done + s[start..end]);
    ConvertEnds(s, done + s[start..end]);
    error := None;
  }

  lemma {:induction false} ConvertStops(s: bytes, p: nat)
    requires p < |s| && SequenceAt(s, p).Err?
    ensures ConvertAscii(s, p) == Err(SequenceAt(s, p).error)
    ensures !MustEscape(s[p]) ==> Convert(s, p) == Err(SequenceAt(s, p).error)
  {
  }

  lemma {:induction false} ConvertEnds(s: bytes, done: bytes)
    ensures Before(done, Convert(s, |s|)) == Ok(done) && Before(done, ConvertAscii(s, |s|)) == Ok(done)
  {
    assert done + [] == done;
  }

  /** The sum of the bytes of a sequence, by the fall-through cases of the C switch. */
  method DecodeSequence(s: bytes, p: nat, n: nat) returns (ch: int)
    requires 1 <= n <= 4 && p + n <= |s|
    ensures ch == CodeAt(s, p, n)
  {
    var source := p;
    ch := 0;
    if n >= 4 { ch := (ch + s[source]) * 64; source := source + 1; }
    if n >= 3 { ch := (ch + s[source]) * 64; source := source + 1; }
    if n >= 2 { ch := (ch + s[source]) * 64; source := source + 1; }
    ch := ch + s[source];
    RawSums(s, p, n);
    ch := ch - Offset(n);
  }

  lemma {:induction false} RawSums(s: bytes, p: nat, n: nat)
    requires 1 <= n <= 4 && p + n <= |s|
    ensures RawSum(s, p, 1) == s[p]
    ensures n >= 2 ==> RawSum(s, p, 2) == RawSum(s, p, 1) * 64 + s[p + 1]
    ensures n >= 3 ==> RawSum(s, p, 3) == RawSum(s, p, 2) * 64 + s[p + 2]
    ensures n >= 4 ==> RawSum(s, p, 4) == RawSum(s, p, 3) * 64 + s[p + 3]
  {
  }

  /** unicode_escape_to_buffer */
  method AppendUnicodeEscape(buffer: FBuffer, u: nat)
    requires buffer.Valid() && u <= 0xFFFF
    modifies buffer, buffer.ptr
    ensures buffer.Valid() && (buffer.ptr == old(buffer.ptr) || fresh(buffer.ptr))
    ensures buffer.Contents() == old(buffer.Contents()) + UnicodeEscape(u)
  {
    buffer.Append([BACKSLASH, LETTER_U] + HexOf(u));
  }

  /** The branches of convert_UTF8_to_JSON_ASCII for one code; surrogates and codes beyond the last plane raise. */
  method AppendCode(buffer: FBuffer, ch: nat) returns (error: Option<GenError>)
    requires buffer.Valid()
    modifies buffer, buffer.ptr
    ensures buffer.Valid() && (buffer.ptr == old(buffer.ptr) || fresh(buffer.ptr))
    ensures if 0xD800 <= ch <= 0xDFFF || ch > 0x10FFFF then error == Some(IllegalUtf8)
            else error == None && buffer.Contents() == old(buffer.Contents()) + EscapeScalar(ch, true)
  {
    hide IsDoubled, HexOf;
    error := None;
    if ch <= 0xFFFF {
      if 0xD800 <= ch <= 0xDFFF {
        return Some(IllegalUtf8);
      } else if 0x20 <= ch <= 0x7F {
        if ch == BACKSLASH { buffer.Append([BACKSLASH, BACKSLASH]); }
        else if ch == QUOTE { buffer.Append([BACKSLASH, QUOTE]); }
        else { buffer.AppendChar(ch); }
      } else if ch == NEWLINE {
        buffer.Append([BACKSLASH, LETTER_N]);
      } else if ch == RETURN {
        buffer.Append([BACKSLASH, LETTER_R]);
      } else if ch == TAB {
        buffer.Append([BACKSLASH, LETTER_T]);
      } else if ch == FORM_FEED {
        buffer.Append([BACKSLASH, LETTER_F]);
      } else if ch == BACKSPACE {
        buffer.Append([BACKSLASH, LETTER_B]);
      } else {
        AppendUnicodeEscape(buffer, ch);
      }
    } else if ch > 0x10FFFF {
      return Some(IllegalUtf8);
    } else {
      ghost var before := buffer.Contents();
      var half := ch - 0x10000;
      AppendUnicodeEscape(buffer, half / 0x400 + 0xD800);
      AppendUnicodeEscape(buffer, half % 0x400 + 0xDC00);
      assert before + UnicodeEscape(HighOf(ch)) + UnicodeEscape(LowOf(ch))
          == before + (UnicodeEscape(HighOf(ch)) + UnicodeEscape(LowOf(ch)));
    }
  }

  /** convert_UTF8_to_JSON_ASCII */
  method ConvertToJsonAscii(buffer: FBuffer, s: bytes) returns (error: Option<GenError>)
    requires buffer.Valid()
    modifies buffer, buffer.ptr
    ensures buffer.Valid() && (buffer.ptr == old(buffer.ptr) || fresh(buffer.ptr))
    ensures match ConvertAscii(s, 0)
            case Err(e) => error == Some(e)
            case Ok(text) => error == None && buffer.Contents() == old(buffer.Contents()) + text
  {
    hide ConvertAscii, IsLegalUtf8, IsDoubled, EscapeScalar, CodeAt, FBuffer.Valid, FBuffer.Contents;
    ghost var before, done: bytes, goal := buffer.Contents(), [], ConvertAscii(s, 0);
    BeforeNothing(goal);
    assert before + [] == before;
    var p := 0;
    while p < |s|
      invariant p <= |s| && buffer.Valid() && (buffer.ptr == old(buffer.ptr) || fresh(buffer.ptr))
      invariant buffer.Contents() == before + done
      invariant goal == Before(done, ConvertAscii(s, p))
    {
      var n := SequenceAt(s, p);
      if n.Err? {
        ConvertStops(s, p);
        return Some(n.error);
      }
      CodeIsScalar(s, p, n.value);
      var ch := DecodeSequence(s, p, n.value);
      error := AppendCode(buffer, ch);
      AsciiStep(s, p, done, n.value);
      assert before + done + EscapeScalar(ch, true) == before + (done + EscapeScalar(ch, true));
      done := done + EscapeScalar(ch, true);
      p := p + n.value;
    }
    ConvertEnds(s, done);
    error := None;
  }

  lemma {:induction false} AsciiStep(s: bytes, p: nat, done: bytes, n: nat)
    requires p < |s| && SequenceAt(s, p) == Ok(n)
    ensures var c := CodeAt(s, p, n);
            && (0 <= c < 0xD800 || 0xE000 <= c <= 0x10FFFF)
            && Before(done, ConvertAscii(s, p)) == Before(done + EscapeScalar(c, true), ConvertAscii(s, p + n))
  {
    hide Before, EscapeScalar;
    CodeIsScalar(s, p, n);
    BeforeTwice(done, EscapeScalar(CodeAt(s, p, n), true), ConvertAscii(s, p + n));
  }
}
