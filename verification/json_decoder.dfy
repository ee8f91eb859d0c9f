/**
 The string decoder of the Java extension (StringDecoder.java): the body of a
 string is read character by character, escapes are replaced, and what stands
 between them is copied in one go. On well-formed UTF-8 with paired surrogates it
 gives what the C extension gives.
 */
module JsonDecoder {
  import opened Bytes
  import opened JsonGrammar
  import opened JsonReader
  import opened JsonLexical
  import opened JsonTranscoder
  import JsonTexts
  import Utf8

  // ---------------------------------------------------------------- what is written

  /** What one character or escape becomes, and where the next one begins. */
  datatype Decoding = Decoding(text: bytes, next: nat)

  /** The one-letter escapes of the switch; any other character stands for itself. */
  function Letter(c: nat): Option<byte> {
    if c == LETTER_B then Some(BACKSPACE)
    else if c == LETTER_F then Some(FORM_FEED)
    else if c == LETTER_N then Some(NEWLINE)
    else if c == LETTER_R then Some(RETURN)
    else if c == LETTER_T then Some(TAB)
    else None
  }

  /** The value of a hex digit, by the ranges of the code. */
  function HexDigitOf(digit: nat): (r: Option<nat>)
    ensures r.Some? ==> r.value < 16
  {
    if 48 <= digit <= 57 then Some(digit - 48)
    else if 97 <= digit <= 102 then Some(10 + digit - 97)
    else if 65 <= digit <= 70 then Some(10 + digit - 65)
    else None
  }

  /** What a number can still be below when `n` of its four digits are missing. */
  function Bound(n: nat): nat {
    if n == 0 then 0x10000 else if n == 1 then 0x1000 else if n == 2 then 0x100 else if n == 3 then 0x10 else 1
  }

  /**
   The last `n` of four digits of a number, read as characters; what they follow
   is worth `high`. At the end of the body there is a quote, which is no digit.
   */
  function HexAt(s: bytes, p: nat, n: nat, high: nat): (r: Option<Read>)
    requires n <= 4 && high < Bound(n)
    ensures r.Some? ==> r.value.code <= 0xFFFF && (p <= |s| ==> p <= r.value.next <= |s|)
    decreases n
  {
    if n == 0 then Some(Read(high, p))
    else if p >= |s| || ReadAt(s, p).None? then None
    else
      var c := ReadAt(s, p).value;
      if HexDigitOf(c.code).None? then None else HexAt(s, c.next, n - 1, high * 16 + HexDigitOf(c.code).value)
  }

  /** The unit behind a high surrogate: an escape, or else the next character, whatever it is. */
  function LowAt(s: bytes, p: nat): (r: Option<Read>)
    ensures r.Some? ==> p < r.value.next <= |s|
  {
    if p >= |s| || ReadAt(s, p).None? then None
    else
      var c := ReadAt(s, p).value;
      if c.code != BACKSLASH then Some(c)
      else if c.next + 5 > |s| || ReadAt(s, c.next).None? then None
      else
        var u := ReadAt(s, c.next).value;
        if u.code != LETTER_U then None else HexAt(s, u.next, 4, 0)
  }

  /** A unicode escape whose letter has been read. A code is cut to 16 bits before it is taken for a low surrogate. */
  function UnicodeAt(s: bytes, p: nat): (r: Option<Decoding>)
    ensures r.Some? ==> p <= r.value.next <= |s|
  {
    if p + 4 > |s| || HexAt(s, p, 4, 0).None? then None
    else
      var hex := HexAt(s, p, 4, 0).value;
      var cp := hex.code;
      if IsHigh(cp) then
        var low := LowAt(s, hex.next);
        if low.None? || !IsLow(low.value.code % 0x10000) then None
        else Some(Decoding(Utf8.Encode(FromPair(cp, low.value.code % 0x10000)), low.value.next))
      else if IsLow(cp) then None
      else Some(Decoding(Utf8.Encode(cp), hex.next))
  }

  /** An escape whose backslash has been read. */
  function EscapeAt(s: bytes, p: nat): (r: Option<Decoding>)
    ensures r.Some? ==> p < r.value.next <= |s|
  {
    if p >= |s| || ReadAt(s, p).None? then None
    else
      var c := ReadAt(s, p).value;
      if c.code == LETTER_U then UnicodeAt(s, c.next)
      else if Letter(c.code).Some? then Some(Decoding([Letter(c.code).value], c.next))
      else Some(Decoding(s[p..c.next], c.next))
  }

  function StepAt(s: bytes, p: nat): (r: Option<Decoding>)
    requires p < |s|
    ensures r.Some? ==> p < r.value.next <= |s|
  {
    var c := ReadAt(s, p);
    if c.None? then None
    else if c.value.code == BACKSLASH then EscapeAt(s, c.value.next)
    else Some(Decoding(s[p..c.value.next], c.value.next))
  }

  /** What decode gives for the text from `p` on, None for its exceptions. */
  function Decoded(s: bytes, p: nat): Option<bytes>
    decreases |s| - p
  {
    if p >= |s| then Some([])
    else
      var d := StepAt(s, p);
      if d.None? then None else Prepend(d.value.text, Decoded(s, d.value.next))
  }

  // ---------------------------------------------------------------- on well-formed text

  /** From `p` on, `s` is the encoding of a text. */
  ghost predicate Formed(s: bytes, p: nat) {
    exists cs: seq<Utf8.Scalar> :: At(s, p, Utf8.Text(cs)) && p + |Utf8.Text(cs)| == |s|
  }

  lemma {:induction false} FormedChar(s: bytes, p: nat) returns (c: Utf8.Scalar)
    requires Formed(s, p) && p < |s|
    ensures At(s, p, Utf8.Encode(c)) && Formed(s, p + |Utf8.Encode(c)|)
    ensures ReadAt(s, p) == Some(Read(c, p + |Utf8.Encode(c)|)) && p + |Utf8.Encode(c)| <= |s|
    ensures s[p] < 0x80 <==> c < 0x80
    ensures c < 0x80 ==> s[p] == c && |Utf8.Encode(c)| == 1
    ensures s[p..p + |Utf8.Encode(c)|] == Utf8.Encode(c)
  {
    hide At, Utf8.Encode, ReadAt;
    var cs: seq<Utf8.Scalar> :| At(s, p, Utf8.Text(cs)) && p + |Utf8.Text(cs)| == |s|;
    c := cs[0];
    AtConcat(s, p, Utf8.Encode(c), Utf8.Text(cs[1..]));
    ReadEncoded(s, p, c);
    Utf8.EncodeShape(c);
    AtIsSlice(s, p, Utf8.Encode(c));
    assert s[p] == s[p..p + |Utf8.Encode(c)|][0];
  }

  /** An ASCII byte is a character. */
  lemma {:induction false} FormedAscii(s: bytes, p: nat)
    requires Formed(s, p) && p < |s| && s[p] < 0x80
    ensures ReadAt(s, p) == Some(Read(s[p], p + 1)) && Formed(s, p + 1)
  {
    hide ReadAt, Formed;
    var _ := FormedChar(s, p);
  }

  /** Four hex digits of well-formed text are four characters. */
  lemma {:induction false} FormedHex(s: bytes, p: nat)
    requires Formed(s, p) && FourHex(s, p)
    ensures Formed(s, p + 4) && HexAt(s, p, 4, 0) == Some(Read(Unhex(s, p), p + 4))
  {
    hide Formed, ReadAt;
    FormedAscii(s, p);
    FormedAscii(s, p + 1);
    FormedAscii(s, p + 2);
    FormedAscii(s, p + 3);
    DigitIs(s[p]);
    DigitIs(s[p + 1]);
    DigitIs(s[p + 2]);
    DigitIs(s[p + 3]);
    var a, b, c, d := DigitValue(s[p]), DigitValue(s[p + 1]), DigitValue(s[p + 2]), DigitValue(s[p + 3]);
    assert HexAt(s, p, 4, 0) == HexAt(s, p + 1, 3, a);
    assert HexAt(s, p + 1, 3, a) == HexAt(s, p + 2, 2, a * 16 + b);
    assert HexAt(s, p + 2, 2, a * 16 + b) == HexAt(s, p + 3, 1, (a * 16 + b) * 16 + c);
    assert HexAt(s, p + 3, 1, (a * 16 + b) * 16 + c) == HexAt(s, p + 4, 0, ((a * 16 + b) * 16 + c) * 16 + d);
  }

  lemma {:induction false} DigitIs(b: byte)
    requires IsHex(b)
    ensures HexDigitOf(b) == Some(DigitValue(b)) && 0 <= DigitValue(b) < 16
  {
  }

  /** Of well-formed text, only hex digits are read as digits. */
  lemma {:induction false} HexFormed(s: bytes, p: nat, n: nat, high: nat)
    requires Formed(s, p) && p <= |s| && n <= 4 && high < Bound(n) && HexAt(s, p, n, high).Some?
    ensures p + n <= |s| && forall i :: p <= i < p + n ==> IsHex(s[i])
    decreases n
  {
    hide Formed, ReadAt;
    if n > 0 {
      var c := FormedChar(s, p);
      HexFormed(s, p + 1, n - 1, high * 16 + HexDigitOf(c).value);
    }
  }

  // ---------------------------------------------------------------- high surrogates, exactly

  /** A low surrogate is escaped at `p`. */
  predicate EscapedLow(s: bytes, p: nat) {
    && p + 6 <= |s| && s[p] == BACKSLASH && s[p + 1] == LETTER_U
    && FourHex(s, p + 2) && IsLow(Unhex(s, p + 2))
  }

  /** The sixteen low bits of the four bytes at `p`, taken for a character. */
  function CutCode(s: bytes, p: nat): nat
    requires p + 4 <= |s|
  {
    Utf8.Decode(s[p..p + 4]) % 0x10000
  }

  /** A character beyond the basic plane at `p` that passes for a low surrogate when it is cut to 16 bits. */
  predicate CutLow(s: bytes, p: nat) {
    p + 4 <= |s| && s[p] >= 0xF0 && IsLow(CutCode(s, p))
  }

  /** What is taken for the low surrogate at `p`, if anything is. */
  function LowOf(s: bytes, p: nat): Option<Read> {
    if EscapedLow(s, p) then Some(Read(Unhex(s, p + 2), p + 6))
    else if CutLow(s, p) then Some(Read(CutCode(s, p), p + 4))
    else None
  }

  /** In well-formed text a low surrogate is found exactly where one is escaped or a character passes for one. */
  lemma {:induction false} LowExactly(s: bytes, p: nat)
    requires Formed(s, p) && p <= |s|
    ensures var low := LowAt(s, p);
            LowOf(s, p) == if low.None? || !IsLow(low.value.code % 0x10000) then None
                           else Some(Read(low.value.code % 0x10000, low.value.next))
    ensures LowOf(s, p).Some? ==> LowOf(s, p).value.next <= |s| && Formed(s, LowOf(s, p).value.next)
  {
    hide Formed, ReadAt, HexAt, Unhex, FourHex, CutLow, CutCode, Utf8.Encode;
    if p < |s| {
      var c := FormedChar(s, p);
      CutExactly(s, p, c);
      if c == BACKSLASH {
        EscapedExactly(s, p);
      } else {
        assert s[p] != BACKSLASH;
      }
    } else {
      NoCut(s, p);
    }
  }

  lemma {:induction false} NoCut(s: bytes, p: nat)
    requires p >= |s|
    ensures !CutLow(s, p)
  {
  }

  lemma {:induction false} CutExactly(s: bytes, p: nat, c: Utf8.Scalar)
    requires p + |Utf8.Encode(c)| <= |s| && s[p..p + |Utf8.Encode(c)|] == Utf8.Encode(c)
    ensures CutLow(s, p) <==> IsLow(c % 0x10000)
    ensures CutLow(s, p) ==> CutCode(s, p) == c % 0x10000 && |Utf8.Encode(c)| == 4
  {
    hide Utf8.Decode;
    Utf8.DecodeEncode(c);
    assert s[p] == s[p..p + |Utf8.Encode(c)|][0];
  }

  lemma {:induction false} EscapedExactly(s: bytes, p: nat)
    requires Formed(s, p) && IsByte(s, p, BACKSLASH)
    ensures LowAt(s, p).Some? <==> p + 6 <= |s| && s[p + 1] == LETTER_U && FourHex(s, p + 2)
    ensures LowAt(s, p).Some? ==> LowAt(s, p).value == Read(Unhex(s, p + 2), p + 6) && Formed(s, p + 6)
  {
    hide Formed, ReadAt, HexAt, Unhex, Utf8.Encode;
    FormedAscii(s, p);
    if p + 6 <= |s| {
      var u := FormedChar(s, p + 1);
      if u == LETTER_U {
        if FourHex(s, p + 2) {
          FormedHex(s, p + 2);
        } else if HexAt(s, p + 2, 4, 0).Some? {
          HexFormed(s, p + 2, 4, 0);
        }
      }
    }
  }

  /**
   The escape of a high surrogate, in well-formed text: it is accepted if and only if
   a low surrogate is escaped behind it or a character there passes for one.
   */
  lemma {:induction false} HighExactly(s: bytes, p: nat)
    requires Formed(s, p) && FourHex(s, p) && IsHigh(Unhex(s, p))
    ensures UnicodeAt(s, p).Some? <==> EscapedLow(s, p + 4) || CutLow(s, p + 4)
    ensures UnicodeAt(s, p).Some? ==>
              var low := LowOf(s, p + 4).value;
              UnicodeAt(s, p) == Some(Decoding(Utf8.Encode(FromPair(Unhex(s, p), low.code)), low.next))
  {
    hide Formed, ReadAt, HexAt, Unhex, LowAt, CutLow, CutCode, Utf8.Encode;
    FormedHex(s, p);
    LowExactly(s, p + 4);
  }

  // ---------------------------------------------------------------- whole bodies

  /** Items that stand from `p` to the end of `s`. */
  predicate Body(items: seq<Item>, s: bytes, p: nat) {
    ItemsOk(items) && ItemsHere(items, s, p) && p + ItemsLen(items) == |s|
  }

  /** A high surrogate and the four bytes of a character that passes for a low one. */
  predicate StartsCut(items: seq<Item>)
    requires ItemsOk(items)
  {
    && |items| >= 5 && items[0].Uni? && IsHigh(CodeUnit(items[0].hex))
    && items[1].Plain? && items[2].Plain? && items[3].Plain? && items[4].Plain?
    && CutLow([items[1].b, items[2].b, items[3].b, items[4].b], 0)
  }

  /** As Paired, but a high surrogate may also have such a character for its partner. */
  predicate PairedOrCut(items: seq<Item>)
    requires ItemsOk(items)
  {
    if items == [] then true
    else if StartsPair(items) then PairedOrCut(items[2..])
    else if StartsCut(items) then PairedOrCut(items[5..])
    else Single(items[0]) && PairedOrCut(items[1..])
  }

  /** What such items are decoded to; None if they are not such. */
  function CutDenotes(items: seq<Item>): (r: Option<bytes>)
    requires ItemsOk(items)
    ensures r.Some? <==> PairedOrCut(items)
  {
    if items == [] then Some([])
    else if StartsPair(items) then
      Prepend(Utf8.Encode(FromPair(CodeUnit(items[0].hex), CodeUnit(items[1].hex))), CutDenotes(items[2..]))
    else if StartsCut(items) then
      var low := CutCode([items[1].b, items[2].b, items[3].b, items[4].b], 0);
      Prepend(Utf8.Encode(FromPair(CodeUnit(items[0].hex), low)), CutDenotes(items[5..]))
    else if Single(items[0]) then Prepend(ItemDenotes(items[0]), CutDenotes(items[1..]))
    else None
  }

  /** Paired items are such, with the same meaning. */
  lemma {:induction false} PairedCuts(items: seq<Item>)
    requires ItemsOk(items) && Paired(items)
    ensures CutDenotes(items) == Some(ItemsDenote(items))
    decreases |items|
  {
    hide CodeUnit, CutLow, CutCode, ItemDenotes, Utf8.Encode;
    if items != [] {
      if StartsPair(items) {
        PairedCuts(items[2..]);
      } else {
        PairedCuts(items[1..]);
      }
    }
  }

  lemma {:induction false} BodyTail(items: seq<Item>, s: bytes, p: nat)
    requires Body(items, s, p) && items != []
    ensures ItemHere(items[0], s, p) && Body(items[1..], s, p + ItemLen(items[0]))
  {
    assert ItemsOk(items[1..]);
  }

  lemma {:induction false} SingleFirst(items: seq<Item>)
    requires ItemsOk(items) && items != [] && Single(items[0])
    ensures CutDenotes(items) == Prepend(ItemDenotes(items[0]), CutDenotes(items[1..]))
  {
    hide CodeUnit, CutLow, CutCode, ItemDenotes;
  }

  lemma {:induction false} PrependTwice(a: bytes, b: bytes, r: Option<bytes>)
    ensures Prepend(a, Prepend(b, r)) == Prepend(a + b, r)
    ensures Prepend([], r) == r
  {
    if r.Some? {
      assert a + (b + r.value) == a + b + r.value && [] + r.value == r.value;
    }
  }

  /** Bytes that are no backslashes are items that stand for themselves. */
  lemma {:induction false} PlainPrefix(items: seq<Item>, s: bytes, p: nat, n: nat)
    requires Body(items, s, p) && p + n <= |s| && forall i :: p <= i < p + n ==> s[i] != BACKSLASH
    ensures n <= |items| && Body(items[n..], s, p + n)
    ensures forall i :: 0 <= i < n ==> items[i] == Plain(s[p + i])
    ensures CutDenotes(items) == Prepend(s[p..p + n], CutDenotes(items[n..]))
    decreases n
  {
    hide CutDenotes, CodeUnit;
    if n == 0 {
      assert items[0..] == items && s[p..p] == [];
      PrependTwice([], [], CutDenotes(items));
    } else {
      assert items != [] && items[0] == Plain(s[p]);
      BodyTail(items, s, p);
      PlainPrefix(items[1..], s, p + 1, n - 1);
      SingleFirst(items);
      assert items[1..][n - 1..] == items[n..];
      assert s[p..p + n] == [s[p]] + s[p + 1..p + n];
      PrependTwice([s[p]], s[p + 1..p + n], CutDenotes(items[n..]));
    }
  }

  /** The step at `p` and what the items there denote begin with the same text, and go on with the same rest. */
  ghost predicate GoesOn(items: seq<Item>, s: bytes, p: nat, k: nat)
    requires Body(items, s, p) && p < |s|
  {
    var d := StepAt(s, p);
    && d.Some? && k <= |items| && Body(items[k..], s, d.value.next) && Formed(s, d.value.next)
    && CutDenotes(items) == Prepend(d.value.text, CutDenotes(items[k..]))
  }

  lemma {:induction false} PlainGoesOn(items: seq<Item>, s: bytes, p: nat) returns (k: nat)
    requires Body(items, s, p) && Formed(s, p) && p < |s| && s[p] != BACKSLASH
    ensures GoesOn(items, s, p, k)
  {
    hide Body, Formed, ReadAt, CutDenotes, Utf8.Encode;
    var c := FormedChar(s, p);
    k := |Utf8.Encode(c)|;
    NoBackslash(s, p, c);
    PlainPrefix(items, s, p, k);
  }

  /** Only the first byte of a character can be a backslash. */
  lemma {:induction false} NoBackslash(s: bytes, p: nat, c: Utf8.Scalar)
    requires p + |Utf8.Encode(c)| <= |s| && s[p..p + |Utf8.Encode(c)|] == Utf8.Encode(c)
    ensures forall i :: p < i < p + |Utf8.Encode(c)| ==> s[i] != BACKSLASH
  {
    Utf8.EncodeShape(c);
    forall i | p < i < p + |Utf8.Encode(c)| ensures s[i] != BACKSLASH {
      assert s[i] == s[p..p + |Utf8.Encode(c)|][i - p];
    }
  }

  lemma {:induction false} EscGoesOn(items: seq<Item>, s: bytes, p: nat) returns (k: nat)
    requires Body(items, s, p) && Formed(s, p) && p < |s| && s[p] == BACKSLASH && items != [] && items[0].Esc?
    ensures GoesOn(items, s, p, k)
  {
    hide Formed, ReadAt, CutDenotes, ItemsHere, ItemsLen, Utf8.Encode;
    BodyTail(items, s, p);
    SingleFirst(items);
    FormedAscii(s, p);
    var c := FormedChar(s, p + 1);
    var n := |Utf8.Encode(c)|;
    NoBackslash(s, p + 1, c);
    PlainPrefix(items[1..], s, p + 2, n - 1);
    k := n;
    assert items[1..][n - 1..] == items[n..];
    assert s[p + 1..p + 1 + n] == [s[p + 1]] + s[p + 2..p + 1 + n];
    EscIs(items[0].b, c);
    PrependTwice(ItemDenotes(items[0]), s[p + 2..p + 1 + n], CutDenotes(items[n..]));
    assert n == 1 ==> ItemDenotes(items[0]) + s[p + 2..p + 1 + n] == ItemDenotes(items[0]);
  }

  lemma {:induction false} EscIs(b: byte, c: Utf8.Scalar)
    requires b == Utf8.Encode(c)[0]
    ensures Letter(c).Some? ==> |Utf8.Encode(c)| == 1 && EscapedByte(b) == Letter(c).value
    ensures Letter(c).None? ==> EscapedByte(b) == b
    ensures c == LETTER_U ==> b == LETTER_U
  {
    Utf8.EncodeShape(c);
  }

  /** A unicode escape: what stands there, and what the decoder makes of it. */
  lemma {:induction false} UniHere(items: seq<Item>, s: bytes, p: nat)
    requires Body(items, s, p) && Formed(s, p) && items != [] && items[0].Uni?
    ensures p < |s| && Body(items[1..], s, p + 6) && Formed(s, p + 2) && Formed(s, p + 6)
    ensures FourHex(s, p + 2) && Unhex(s, p + 2) == CodeUnit(items[0].hex)
    ensures StepAt(s, p) == UnicodeAt(s, p + 2)
    ensures HexAt(s, p + 2, 4, 0) == Some(Read(Unhex(s, p + 2), p + 6))
  {
    hide Formed, ReadAt, ItemsHere, ItemsLen, UnicodeAt, Unhex, CodeUnit, FourHex, HexAt;
    BodyTail(items, s, p);
    FourHexIs(s, p + 2, items[0].hex);
    UnhexIsCodeUnit(s, p + 2, items[0].hex);
    FormedAscii(s, p);
    FormedAscii(s, p + 1);
    FormedHex(s, p + 2);
  }

  lemma {:induction false} SingleGoesOn(items: seq<Item>, s: bytes, p: nat)
    requires Body(items, s, p) && Formed(s, p) && p < |s| && items != [] && items[0].Uni? && Single(items[0])
    ensures GoesOn(items, s, p, 1)
  {
    hide Formed, ReadAt, CutDenotes, ItemsHere, ItemsLen, Utf8.Encode, Unhex, CodeUnit, FourHex, HexAt, StepAt;
    UniHere(items, s, p);
    SingleFirst(items);
  }

  /** A low surrogate stands behind the first item exactly if the items say so. */
  lemma {:induction false} PartnerHere(items: seq<Item>, s: bytes, p: nat)
    requires Body(items, s, p) && Formed(s, p) && items != [] && items[0].Uni? && IsHigh(CodeUnit(items[0].hex))
    ensures EscapedLow(s, p + 6) <==> StartsPair(items)
    ensures CutLow(s, p + 6) <==> StartsCut(items)
    ensures StartsPair(items) ==> Unhex(s, p + 8) == CodeUnit(items[1].hex) && Body(items[2..], s, p + 12)
    ensures StartsCut(items) ==>
              && CutCode(s, p + 6) == CutCode([items[1].b, items[2].b, items[3].b, items[4].b], 0)
              && Body(items[5..], s, p + 10)
  {
    hide Formed, ItemsHere, ItemsLen, Unhex, CodeUnit, FourHex, CutLow, CutCode;
    UniHere(items, s, p);
    var rest := items[1..];
    if rest == [] {
      NothingBehind(rest, s, p + 6);
    } else {
      BodyTail(rest, s, p + 6);
      assert rest[0] == items[1] && rest[1..] == items[2..];
      if rest[0].Uni? {
        FourHexIs(s, p + 8, rest[0].hex);
        UnhexIsCodeUnit(s, p + 8, rest[0].hex);
      }
      if rest[0].Plain? && rest[0].b >= 0xF0 {
        FourPlain(items, s, p);
      } else {
        FewPlain(items, s, p);
      }
    }
  }

  lemma {:induction false} NothingBehind(items: seq<Item>, s: bytes, p: nat)
    requires Body(items, s, p) && items == []
    ensures p == |s| && !EscapedLow(s, p) && !CutLow(s, p)
  {
  }

  /** A character that begins with a byte from 0xF0 on is four items. */
  lemma {:induction false} FourPlain(items: seq<Item>, s: bytes, p: nat)
    requires |items| > 1 && Body(items[1..], s, p + 6) && Formed(s, p + 6)
    requires ItemsOk(items) && items[0].Uni? && IsHigh(CodeUnit(items[0].hex))
    requires p + 6 < |s| && items[1] == Plain(s[p + 6]) && s[p + 6] >= 0xF0
    ensures |items| >= 5 && items[1].Plain? && items[2].Plain? && items[3].Plain? && items[4].Plain?
    ensures p + 10 <= |s| && s[p + 6..p + 10] == [items[1].b, items[2].b, items[3].b, items[4].b]
    ensures CutLow(s, p + 6) <==> StartsCut(items)
    ensures CutCode(s, p + 6) == CutCode([items[1].b, items[2].b, items[3].b, items[4].b], 0)
    ensures Body(items[5..], s, p + 10)
  {
    hide Body, Formed, ReadAt, CutDenotes, CodeUnit, Utf8.Decode;
    var c := FormedChar(s, p + 6);
    LongChar(s, p + 6, c);
    NoBackslash(s, p + 6, c);
    var rest := items[1..];
    PlainPrefix(rest, s, p + 6, 4);
    assert rest[0] == items[1] && rest[1] == items[2] && rest[2] == items[3] && rest[3] == items[4];
    assert rest[4..] == items[5..];
    var four := [items[1].b, items[2].b, items[3].b, items[4].b];
    assert s[p + 6..p + 10] == four && four[0..4] == four;
  }

  lemma {:induction false} LongChar(s: bytes, p: nat, c: Utf8.Scalar)
    requires p + |Utf8.Encode(c)| <= |s| && s[p..p + |Utf8.Encode(c)|] == Utf8.Encode(c) && s[p] >= 0xF0
    ensures |Utf8.Encode(c)| == 4
  {
    assert s[p] == s[p..p + |Utf8.Encode(c)|][0];
  }

  lemma {:induction false} FewPlain(items: seq<Item>, s: bytes, p: nat)
    requires ItemsOk(items) && |items| > 1 && ItemHere(items[1], s, p + 6) && !(items[1].Plain? && items[1].b >= 0xF0)
    ensures !CutLow(s, p + 6) && !StartsCut(items)
  {
  }

  /** A high surrogate with a partner. */
  lemma {:induction false} HighGoesOn(items: seq<Item>, s: bytes, p: nat) returns (k: nat)
    requires Body(items, s, p) && Formed(s, p) && p < |s| && items != [] && (StartsPair(items) || StartsCut(items))
    ensures GoesOn(items, s, p, k)
  {
    hide Formed, ReadAt, ItemsHere, ItemsLen, Utf8.Encode, Unhex, CodeUnit, FourHex, HexAt, StepAt, UnicodeAt;
    hide CutLow, CutCode;
    UniHere(items, s, p);
    PartnerHere(items, s, p);
    HighExactly(s, p + 2);
    LowExactly(s, p + 6);
    k := if StartsPair(items) then 2 else 5;
  }

  /** A surrogate without one. */
  lemma {:induction false} LoneStops(items: seq<Item>, s: bytes, p: nat)
    requires Body(items, s, p) && Formed(s, p) && p < |s| && items != [] && !Single(items[0])
    requires !StartsPair(items) && !StartsCut(items)
    ensures StepAt(s, p) == None && CutDenotes(items) == None
  {
    hide Formed, ReadAt, ItemsHere, ItemsLen, Utf8.Encode, Unhex, CodeUnit, FourHex, HexAt, StepAt, CutLow, CutCode;
    UniHere(items, s, p);
    if IsHigh(CodeUnit(items[0].hex)) {
      PartnerHere(items, s, p);
      HighExactly(s, p + 2);
    }
  }

  /**
   For every string body of the grammar that is well-formed UTF-8: the decoder
   accepts it if and only if its surrogates are paired or cut, and gives what it
   then denotes.
   */
  lemma {:induction false} DecodedExactly(items: seq<Item>, s: bytes, p: nat)
    requires Body(items, s, p) && Formed(s, p)
    ensures Decoded(s, p).Some? <==> PairedOrCut(items)
    ensures Decoded(s, p) == CutDenotes(items)
    decreases |s| - p
  {
    hide Formed, StepAt, GoesOn, ItemsHere, CutDenotes, PairedOrCut, StartsCut, Single, ItemsLen, CodeUnit;
    if p < |s| {
      BodyBegins(items, s, p);
      if s[p] == BACKSLASH && !items[0].Esc? && !Single(items[0]) && !StartsPair(items) && !StartsCut(items) {
        LoneStops(items, s, p);
      } else {
        var k := BodyGoesOn(items, s, p);
        GoesOnMeans(items, s, p, k);
        DecodedExactly(items[k..], s, StepAt(s, p).value.next);
      }
    } else {
      BodyEnds(items, s, p);
    }
  }

  lemma {:induction false} BodyEnds(items: seq<Item>, s: bytes, p: nat)
    requires Body(items, s, p) && p >= |s|
    ensures items == [] && CutDenotes(items) == Some([])
  {
  }

  lemma {:induction false} BodyBegins(items: seq<Item>, s: bytes, p: nat)
    requires Body(items, s, p) && p < |s|
    ensures items != [] && (s[p] == BACKSLASH <==> !items[0].Plain?)
  {
  }

  lemma {:induction false} GoesOnMeans(items: seq<Item>, s: bytes, p: nat, k: nat)
    requires Body(items, s, p) && p < |s| && GoesOn(items, s, p, k)
    ensures var d := StepAt(s, p);
            && d.Some? && k <= |items| && Body(items[k..], s, d.value.next) && Formed(s, d.value.next)
            && CutDenotes(items) == Prepend(d.value.text, CutDenotes(items[k..]))
  {
  }

  lemma {:induction false} BodyGoesOn(items: seq<Item>, s: bytes, p: nat) returns (k: nat)
    requires Body(items, s, p) && Formed(s, p) && p < |s| && items != []
    requires !items[0].Uni? || Single(items[0]) || StartsPair(items) || StartsCut(items)
    ensures GoesOn(items, s, p, k)
  {
    hide Formed, StepAt, GoesOn, Single, StartsCut, CodeUnit;
    BodyBegins(items, s, p);
    if s[p] != BACKSLASH {
      k := PlainGoesOn(items, s, p);
    } else if items[0].Esc? {
      k := EscGoesOn(items, s, p);
    } else if StartsPair(items) || StartsCut(items) {
      k := HighGoesOn(items, s, p);
    } else {
      SingleGoesOn(items, s, p);
      k := 1;
    }
  }

  /** On well-formed text whose surrogates are paired the decoder gives what the items denote. */
  lemma {:induction false} DecodedItems(items: seq<Item>, s: bytes, p: nat)
    requires Body(items, s, p) && Paired(items) && Formed(s, p)
    ensures Decoded(s, p) == Some(ItemsDenote(items))
  {
    hide Body, Formed, Decoded, Paired, ItemsDenote;
    BodyOk(items, s, p);
    DecodedExactly(items, s, p);
    PairedCuts(items);
  }

  lemma {:induction false} BodyOk(items: seq<Item>, s: bytes, p: nat)
    requires Body(items, s, p)
    ensures ItemsOk(items)
  {
  }

  /**
   The decoders of the two extensions agree: a string body of the grammar that is
   well-formed UTF-8 and has paired surrogates is decoded to what it denotes by both.
   */
  lemma {:induction false} DecodersAgree(src: bytes, p: nat, items: seq<Item>)
    requires ItemsOk(items) && Paired(items) && ItemsHere(items, src, p) && IsByte(src, p + ItemsLen(items), QUOTE)
    requires Utf8.WellFormed(ItemsText(items))
    ensures var e := p + ItemsLen(items);
            Decoded(src[..e], p) == Unescape(src, p, e) == Some(ItemsDenote(items))
  {
    hide Decoded, Unescape, Paired, ItemsHere, ItemsText, ItemsDenote, At;
    var e := p + ItemsLen(items);
    var s, text := src[..e], ItemsText(items);
    UnescapeItems(src, p, e, items);
    JsonTexts.ItemsIsText(items, src, p);
    JsonTexts.ItemsIsText(items, s, p);
    AtIsSlice(src, p, text);
    AtIsSlice(s, p, text);
    assert s[p..p + |text|] == src[p..p + |text|];
    var cs: seq<Utf8.Scalar> :| Utf8.Text(cs) == text;
    assert Formed(s, p);
    DecodedItems(items, s, p);
  }

  /** The escape of U+D800, and the character U+1DC00. */
  const CUT: bytes := [BACKSLASH, LETTER_U, 100, 56, 48, 48, 0xF0, 0x9D, 0xB0, 0x80]

  lemma {:induction false} CutEscape()
    ensures HexAt(CUT, 2, 4, 0) == Some(Read(0xD800, 6))
  {
    assert ReadAt(CUT, 2) == Some(Read(100, 3)) && ReadAt(CUT, 3) == Some(Read(56, 4));
    assert ReadAt(CUT, 4) == Some(Read(48, 5)) && ReadAt(CUT, 5) == Some(Read(48, 6));
    hide ReadAt;
    assert HexAt(CUT, 4, 2, 0xD8) == HexAt(CUT, 5, 1, 0xD80);
    assert HexAt(CUT, 2, 4, 0) == HexAt(CUT, 3, 3, 0xD) == HexAt(CUT, 4, 2, 0xD8);
  }

  lemma {:induction false} CutCharacter()
    ensures LowAt(CUT, 6) == Some(Read(0x1DC00, 10))
  {
    hide HexAt;
    assert TailsAt(CUT, 7, 3);
  }

  /**
   Where surrogates are not paired they differ: the escape of U+D800 in front of
   the character U+1DC00 is joined to U+10000, since only 16 bits of it are looked at.
   */
  lemma {:induction false} LowSurrogateCut()
    ensures StepAt(CUT, 0) == Some(Decoding(Utf8.Encode(0x10000), 10))
  {
    assert ReadAt(CUT, 0) == Some(Read(BACKSLASH, 1)) && ReadAt(CUT, 1) == Some(Read(LETTER_U, 2));
    hide ReadAt, HexAt, LowAt;
    CutEscape();
    CutCharacter();
    assert UnicodeAt(CUT, 2) == Some(Decoding(Utf8.Encode(FromPair(0xD800, 0xDC00)), 10));
  }

  // ---------------------------------------------------------------- the decoder

  class StringDecoder {
    const base: Transcoder
    const aux: array<byte>

    constructor ()
      ensures aux.Length == 4 && base.Valid() && base.quoteStart == -1
      ensures fresh(base) && fresh(aux)
    {
      base := new Transcoder();
      aux := new byte[4](_ => 0);
    }

    /** writeUtf8Char: the bytes are put in the shared array and appended together. */
    method WriteUtf8Char(code: Utf8.Scalar)
      requires aux.Length == 4
      modifies base`out, aux
      ensures base.out == old(base.out) + Utf8.Encode(code)
    {
      if code < 0x80 {
        base.Append([code]);
      } else if code < 0x800 {
        aux[0] := 0xC0 + code / 64;
        aux[1] := 0x80 + code % 64;
        assert aux[0..2] == Utf8.Encode(code);
        base.Append(aux[0..2]);
      } else if code < 0x10000 {
        aux[0] := 0xE0 + code / 4096;
        aux[1] := 0x80 + code / 64 % 64;
        aux[2] := 0x80 + code % 64;
        assert aux[0..3] == Utf8.Encode(code);
        base.Append(aux[0..3]);
      } else {
        aux[0] := 0xF0 + code / 262144;
        aux[1] := 0x80 + code / 4096 % 64;
        aux[2] := 0x80 + code / 64 % 64;
        aux[3] := 0x80 + code % 64;
        assert aux[0..4] == Utf8.Encode(code);
        base.Append(aux[0..4]);
      }
    }

    /** The body ends at a quote, which is where reading digits stops at the latest. */
    predicate AtQuote()
      reads base
    {
      base.srcEnd < |base.src| && base.src[base.srcEnd] == QUOTE
    }

    /** readHex; None for an exception. */
    method ReadHex() returns (r: Option<nat>)
      requires base.pos <= base.srcEnd && AtQuote()
      modifies base`charStart, base`pos
      ensures match HexAt(base.Source(), old(base.pos), 4, 0)
              case None => r == None
              case Some(h) =>
                r == Some(h.code) && base.pos == h.next && old(base.pos) <= base.charStart <= base.pos <= base.srcEnd
    {
      hide ReadAt, HexAt, HexDigitOf;
      ghost var s, p := base.Source(), base.pos;
      HexInside(s, p);
      QuoteIsNoDigit();
      var result, i := 0, 0;
      while i < 4
        invariant 0 <= i <= 4 && p <= base.pos <= base.srcEnd && AtQuote()
        invariant i > 0 ==> p <= base.charStart <= base.pos
        invariant 0 <= result < Bound(4 - i)
        invariant HexAt(s, p, 4, 0) == HexAt(s, base.pos, 4 - i, result)
      {
        HexStep(s, base.pos, 4 - i, result);
        var digit := base.ReadUtf8Char();
        if digit.None? { return None; }
        var value := HexDigitOf(digit.value);
        if value.None? { return None; }
        result := result * 16 + value.value;
        i := i + 1;
      }
      HexDone(s, base.pos, result);
      return Some(result);
    }

    /** handleLowSurrogate, with the high one in hand; not ok means an exception. */
    method HandleLowSurrogate(high: nat) returns (ok: bool)
      requires base.Valid() && AtQuote() && base.quoteStart == -1 && aux.Length == 4 && IsHigh(high)
      modifies base`charStart, base`pos, base`out, aux
      ensures ok ==> base.Valid()
      ensures var low := LowAt(base.Source(), old(base.pos));
              if low.None? || !IsLow(low.value.code % 0x10000) then !ok
              else
                && ok && base.pos == low.value.next
                && base.out == old(base.out) + Utf8.Encode(FromPair(high, low.value.code % 0x10000))
    {
      hide ReadAt, HexAt, Utf8.Encode;
      if base.pos + 1 > base.srcEnd { return false; }
      var low := base.ReadUtf8Char();
      if low.None? { return false; }
      if low.value == BACKSLASH {
        if base.pos + 5 > base.srcEnd { return false; }
        var u := base.ReadUtf8Char();
        if u.None? || u.value != LETTER_U { return false; }
        low := ReadHex();
        if low.None? { return false; }
      }
      ok := IsLow(low.value % 0x10000);
      if ok {
        WriteUtf8Char(FromPair(high, low.value % 0x10000));
      }
    }

    /** handleEscapeSequence, behind the backslash. */
    method HandleEscapeSequence() returns (ok: bool)
      requires base.Valid() && AtQuote() && base.quoteStart == -1 && aux.Length == 4
      modifies base`charStart, base`pos, base`out, base`quoteStart, aux
      ensures ok ==> base.Valid()
      ensures match EscapeAt(base.Source(), old(base.pos))
              case None => !ok
              case Some(d) => ok && base.pos == d.next && base.WrittenTo(base.pos) == old(base.out) + d.text
    {
      hide ReadAt, HexAt, LowAt, Utf8.Encode;
      if base.pos + 1 > base.srcEnd { return false; }
      var c := base.ReadUtf8Char();
      if c.None? { return false; }
      ok := true;
      if c.value == LETTER_B {
        base.Append([BACKSPACE]);
      } else if c.value == LETTER_F {
        base.Append([FORM_FEED]);
      } else if c.value == LETTER_N {
        base.Append([NEWLINE]);
      } else if c.value == LETTER_R {
        base.Append([RETURN]);
      } else if c.value == LETTER_T {
        base.Append([TAB]);
      } else if c.value == LETTER_U {
        if base.pos + 4 > base.srcEnd { return false; }
        var cp := ReadHex();
        if cp.None? { return false; }
        if IsHigh(cp.value) {
          ok := HandleLowSurrogate(cp.value);
        } else if IsLow(cp.value) {
          return false;
        } else {
          WriteUtf8Char(cp.value);
        }
      } else {
        base.QuoteStart();
      }
    }

    /** handleChar, for a character that was read from charStart to pos. */
    method HandleChar(c: nat) returns (ok: bool)
      requires base.Valid() && AtQuote() && aux.Length == 4 && base.charStart < base.srcEnd
      requires ReadAt(base.Source(), base.charStart) == Some(Read(c, base.pos))
      modifies base`charStart, base`pos, base`out, base`quoteStart, aux
      ensures ok ==> base.Valid()
      ensures match StepAt(base.Source(), old(base.charStart))
              case None => !ok
              case Some(d) =>
                ok && base.pos == d.next && base.WrittenTo(base.pos) == old(base.WrittenTo(base.charStart)) + d.text
    {
      hide ReadAt, EscapeAt;
      if c == BACKSLASH {
        base.QuoteStop(base.charStart);
        ok := HandleEscapeSequence();
      } else {
        base.QuoteStart();
        ok := true;
      }
    }

    /**
     decode of a string body that ends at its closing quote: the decoded text, None
     for an exception. No sequence may be pending from an earlier call.
     */
    method Decode(src: bytes, start: nat, end: nat) returns (r: Option<bytes>)
      requires start <= end && IsByte(src, end, QUOTE) && aux.Length == 4 && base.quoteStart == -1
      modifies base, aux
      ensures r == Decoded(src[..end], start) && (r.Some? ==> base.quoteStart == -1)
    {
      hide Decoded, ReadAt, StepAt;
      base.Init(src, start, end, []);
      ghost var s, goal, done: bytes := src[..end], Decoded(src[..end], start), [];
      DecodeNothing(goal);
      while base.pos < base.srcEnd
        invariant base.Valid() && base.src == src && base.srcEnd == end
        invariant base.WrittenTo(base.pos) == done && goal == Prepend(done, Decoded(s, base.pos))
        decreases base.srcEnd - base.pos
      {
        ghost var p := base.pos;
        DecodeStep(s, p, done);
        var c := base.ReadUtf8Char();
        if c.None? { return None; }
        var ok := HandleChar(c.value);
        if !ok { return None; }
        done := done + StepAt(s, p).value.text;
      }
      base.QuoteStop(base.pos);
      DecodeEnds(s, base.pos, done);
      return Some(base.out);
    }
  }

  lemma {:induction false} HexInside(s: bytes, p: nat)
    ensures HexAt(s, p, 4, 0).Some? && p <= |s| ==> HexAt(s, p, 4, 0).value.next <= |s|
  {
  }

  lemma {:induction false} QuoteIsNoDigit()
    ensures HexDigitOf(QUOTE) == None
  {
  }

  /** One digit of a number. */
  lemma {:induction false} HexStep(s: bytes, p: nat, n: nat, high: nat)
    requires 0 < n <= 4 && high < Bound(n)
    ensures p >= |s| ==> HexAt(s, p, n, high) == None
    ensures p < |s| ==>
              match ReadAt(s, p) {
                case None => HexAt(s, p, n, high) == None
                case Some(c) =>
                  match HexDigitOf(c.code) {
                    case None => HexAt(s, p, n, high) == None
                    case Some(d) =>
                      high * 16 + d < Bound(n - 1)
                      && HexAt(s, p, n, high) == HexAt(s, c.next, n - 1, high * 16 + d)
                  }
              }
  {
    hide ReadAt, HexDigitOf;
  }

  lemma {:induction false} HexDone(s: bytes, p: nat, high: nat)
    requires high < 0x10000
    ensures HexAt(s, p, 0, high) == Some(Read(high, p))
  {
  }

  lemma {:induction false} DecodeNothing(r: Option<bytes>)
    ensures Prepend([], r) == r
  {
    if r.Some? {
      assert [] + r.value == r.value;
    }
  }

  /** One round of the loop. */
  lemma {:induction false} DecodeStep(s: bytes, p: nat, done: bytes)
    requires p < |s|
    ensures ReadAt(s, p).None? ==> StepAt(s, p).None?
    ensures var d := StepAt(s, p);
            if d.None? then Prepend(done, Decoded(s, p)) == None
            else Prepend(done, Decoded(s, p)) == Prepend(done + d.value.text, Decoded(s, d.value.next))
  {
    hide ReadAt, EscapeAt;
    var d := StepAt(s, p);
    if d.Some? && Decoded(s, d.value.next).Some? {
      var text, rest := d.value.text, Decoded(s, d.value.next).value;
      assert done + (text + rest) == done + text + rest;
    }
  }

  lemma {:induction false} DecodeEnds(s: bytes, p: nat, done: bytes)
    requires p >= |s|
    ensures Prepend(done, Decoded(s, p)) == Some(done)
  {
    assert done + [] == done;
  }
}
