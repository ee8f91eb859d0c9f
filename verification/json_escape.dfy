/**
 How a text is written inside a JSON string, one scalar value at a time (RFC
 7159, section 7): the reference for the string converters. What is written is
 read back as the UTF-8 encoding of the same text.
 */
module JsonEscape {
  import opened Bytes
  import opened JsonValue
  import opened JsonGrammar
  import opened JsonReader
  import opened JsonLexical
  import JsonTexts
  import Utf8

  function HexChar(d: nat): (b: byte)
    requires d < 16
    ensures IsHex(b) && HexDigit(b) == d && 48 <= b <= 102
  {
    if d < 10 then 48 + d else 87 + d
  }

  /** Four lower-case hex digits of a code unit. */
  function HexOf(u: nat): (h: bytes)
    requires u <= 0xFFFF
    ensures |h| == 4
  {
    [HexChar(u / 4096), HexChar(u / 256 % 16), HexChar(u / 16 % 16), HexChar(u % 16)]
  }

  lemma {:induction false} HexOfDenotes(u: nat)
    requires u <= 0xFFFF
    ensures ItemOk(Uni(HexOf(u))) && CodeUnit(HexOf(u)) == u
  {
    var a, b, c := u / 16, u / 256, u / 4096;
    assert b == a / 16 && c == b / 16;
    assert u == a * 16 + u % 16 && a == b * 16 + a % 16 && b == c * 16 + b % 16;
  }

  function UnicodeEscape(u: nat): bytes
    requires u <= 0xFFFF
  {
    [BACKSLASH, LETTER_U] + HexOf(u)
  }

  /** The letter of a two-byte escape for a control character. */
  function ShortLetter(c: int): Option<byte> {
    if c == NEWLINE then Some(LETTER_N)
    else if c == RETURN then Some(LETTER_R)
    else if c == TAB then Some(LETTER_T)
    else if c == FORM_FEED then Some(LETTER_F)
    else if c == BACKSPACE then Some(LETTER_B)
    else None
  }

  /** The surrogates of a scalar value beyond the basic plane (RFC 2781, section 2.1). */
  function HighOf(c: Utf8.Scalar): (u: nat)
    requires c >= 0x10000
    ensures IsHigh(u)
  {
    0xD800 + (c - 0x10000) / 0x400
  }

  function LowOf(c: Utf8.Scalar): (u: nat)
    requires c >= 0x10000
    ensures IsLow(u)
  {
    0xDC00 + (c - 0x10000) % 0x400
  }

  lemma {:induction false} PairOf(c: Utf8.Scalar)
    requires c >= 0x10000
    ensures FromPair(HighOf(c), LowOf(c)) == c
  {
  }

  function EscapeScalar(c: Utf8.Scalar, asciiOnly: bool): bytes {
    if c == QUOTE || c == BACKSLASH then [BACKSLASH, c]
    else if ShortLetter(c).Some? then [BACKSLASH, ShortLetter(c).value]
    else if c < SPACE then UnicodeEscape(c)
    else if !asciiOnly || c <= 0x7F then Utf8.Encode(c)
    else if c <= 0xFFFF then UnicodeEscape(c)
    else UnicodeEscape(HighOf(c)) + UnicodeEscape(LowOf(c))
  }

  function EscapeText(cs: seq<Utf8.Scalar>, asciiOnly: bool): bytes {
    if cs == [] then [] else EscapeScalar(cs[0], asciiOnly) + EscapeText(cs[1..], asciiOnly)
  }

  // ---------------------------------------------------------------- as string items

  function PlainItems(s: bytes): (r: seq<Item>)
    ensures |r| == |s|
  {
    if s == [] then [] else [Plain(s[0])] + PlainItems(s[1..])
  }

  function ScalarItems(c: Utf8.Scalar, asciiOnly: bool): seq<Item> {
    if c == QUOTE || c == BACKSLASH then [Esc(c)]
    else if ShortLetter(c).Some? then [Esc(ShortLetter(c).value)]
    else if c < SPACE then [Uni(HexOf(c))]
    else if !asciiOnly || c <= 0x7F then PlainItems(Utf8.Encode(c))
    else if c <= 0xFFFF then [Uni(HexOf(c))]
    else [Uni(HexOf(HighOf(c))), Uni(HexOf(LowOf(c)))]
  }

  function TextItems(cs: seq<Utf8.Scalar>, asciiOnly: bool): seq<Item> {
    if cs == [] then [] else ScalarItems(cs[0], asciiOnly) + TextItems(cs[1..], asciiOnly)
  }

  /** Items `all` are written as `text` and `rest`, and denote `value` and what `rest` denotes. */
  predicate Writes(all: seq<Item>, text: bytes, value: bytes, rest: seq<Item>) {
    && ItemsOk(all) && Paired(all) && ItemsOk(rest) && Paired(rest)
    && ItemsText(all) == text + ItemsText(rest)
    && ItemsDenote(all) == value + ItemsDenote(rest)
  }

  lemma {:induction false} WritesBoth(
    all: seq<Item>, a: bytes, x: bytes, mid: seq<Item>, b: bytes, y: bytes, rest: seq<Item>)
    requires Writes(all, a, x, mid) && Writes(mid, b, y, rest)
    ensures Writes(all, a + b, x + y, rest)
  {
    hide ItemsText, ItemsDenote, Paired, ItemsOk;
    assert a + (b + ItemsText(rest)) == a + b + ItemsText(rest);
    assert x + (y + ItemsDenote(rest)) == x + y + ItemsDenote(rest);
  }

  lemma {:induction false} OneItem(i: Item, rest: seq<Item>)
    requires ItemOk(i) && Single(i) && ItemsOk(rest) && Paired(rest)
    ensures Writes([i] + rest, ItemText(i), ItemDenotes(i), rest)
  {
    var all := [i] + rest;
    assert all[1..] == rest;
    assert ItemsOk(all);
    assert !StartsPair(all);
  }

  lemma {:induction false} PairItems(x: bytes, y: bytes, rest: seq<Item>)
    requires ItemOk(Uni(x)) && ItemOk(Uni(y)) && IsHigh(CodeUnit(x)) && IsLow(CodeUnit(y))
    requires ItemsOk(rest) && Paired(rest)
    ensures Writes([Uni(x), Uni(y)] + rest, ItemText(Uni(x)) + ItemText(Uni(y)),
                   Utf8.Encode(FromPair(CodeUnit(x), CodeUnit(y))), rest)
  {
    var all := [Uni(x), Uni(y)] + rest;
    var tail := [Uni(y)] + rest;
    assert all[1..] == tail && tail[1..] == rest && all[2..] == rest;
    assert all[0] == Uni(x) && all[1] == Uni(y) && tail[0] == Uni(y);
    assert ItemsOk(all);
    assert StartsPair(all);
    assert ItemsText(all) == ItemText(Uni(x)) + ItemsText(tail);
    assert ItemsText(tail) == ItemText(Uni(y)) + ItemsText(rest);
  }

  lemma {:induction false} PlainRun(s: bytes, rest: seq<Item>)
    requires forall i :: 0 <= i < |s| ==> ItemOk(Plain(s[i]))
    requires ItemsOk(rest) && Paired(rest)
    ensures Writes(PlainItems(s) + rest, s, s, rest)
  {
    hide ItemsText, ItemsDenote, Paired, ItemsOk;
    if s == [] {
      assert PlainItems(s) + rest == rest;
      assert s + ItemsText(rest) == ItemsText(rest) && s + ItemsDenote(rest) == ItemsDenote(rest);
    } else {
      var tail := PlainItems(s[1..]) + rest;
      PlainRun(s[1..], rest);
      OneItem(Plain(s[0]), tail);
      assert PlainItems(s) + rest == [Plain(s[0])] + tail;
      assert s == [s[0]] + s[1..];
      WritesBoth([Plain(s[0])] + tail, [s[0]], [s[0]], tail, s[1..], s[1..], rest);
    }
  }

  lemma {:induction false} EncodePlain(c: Utf8.Scalar)
    requires c >= SPACE && c != QUOTE && c != BACKSLASH
    ensures forall i :: 0 <= i < |Utf8.Encode(c)| ==> ItemOk(Plain(Utf8.Encode(c)[i]))
  {
    Utf8.EncodeShape(c);
  }

  /** The items of one scalar value are written as its escape and denote its encoding. */
  lemma {:induction false} ScalarWrites(c: Utf8.Scalar, asciiOnly: bool, rest: seq<Item>)
    requires ItemsOk(rest) && Paired(rest)
    ensures Writes(ScalarItems(c, asciiOnly) + rest, EscapeScalar(c, asciiOnly), Utf8.Encode(c), rest)
  {
    hide Writes, Paired, ItemsOk, HexOf, CodeUnit;
    if c == QUOTE || c == BACKSLASH {
      OneItem(Esc(c), rest);
    } else if ShortLetter(c).Some? {
      OneItem(Esc(ShortLetter(c).value), rest);
    } else if c < SPACE || (asciiOnly && 0x7F < c <= 0xFFFF) {
      HexOfDenotes(c);
      OneItem(Uni(HexOf(c)), rest);
    } else if !asciiOnly || c <= 0x7F {
      EncodePlain(c);
      PlainRun(Utf8.Encode(c), rest);
    } else {
      HexOfDenotes(HighOf(c));
      HexOfDenotes(LowOf(c));
      PairOf(c);
      PairItems(HexOf(HighOf(c)), HexOf(LowOf(c)), rest);
    }
  }

  lemma {:induction false} TextWrites(cs: seq<Utf8.Scalar>, asciiOnly: bool)
    ensures var items := TextItems(cs, asciiOnly);
            && ItemsOk(items) && Paired(items)
            && ItemsText(items) == EscapeText(cs, asciiOnly) && ItemsDenote(items) == Utf8.Text(cs)
  {
    if cs != [] {
      TextWrites(cs[1..], asciiOnly);
      ScalarWrites(cs[0], asciiOnly, TextItems(cs[1..], asciiOnly));
    }
  }

  /** What is written for a text, between quotes, is read back as the text's own encoding. */
  lemma {:induction false} EscapeReadsBack(cs: seq<Utf8.Scalar>, asciiOnly: bool)
    ensures var s := [QUOTE] + (EscapeText(cs, asciiOnly) + [QUOTE]);
            ReadString(s, 0) == Done(Str(Utf8.Text(cs)), |s|)
  {
    hide ReadString, EscapeText;
    var items := TextItems(cs, asciiOnly);
    TextWrites(cs, asciiOnly);
    var s := StringText(items);
    AtIsSlice(s, 0, s);
    assert s[0..|s|] == s;
    JsonTexts.StringIsText(items, s, 0);
    StringComplete(s, 0, items);
  }

  predicate Printable(s: bytes) {
    forall i :: 0 <= i < |s| ==> 0x20 <= s[i] <= 0x7F
  }

  /** With asciiOnly only bytes from 0x20 to 0x7f are written. */
  lemma {:induction false} AsciiIsPrintable(cs: seq<Utf8.Scalar>)
    ensures Printable(EscapeText(cs, true))
  {
    if cs != [] {
      AsciiIsPrintable(cs[1..]);
      assert Printable(EscapeScalar(cs[0], true));
    }
  }
}
