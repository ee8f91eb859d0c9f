/**
 When unescaping a string of the grammar returns nil, which is then used as a
 string. A high surrogate that no unicode escape follows swallows one byte; when
 that is the backslash of an escaped backslash, the second one is taken for the
 beginning of an escape, and reading slips against the items of the grammar.
 */
module JsonNil {
  import opened Bytes
  import opened JsonGrammar
  import opened JsonLexical
  import opened JsonReader
  import opened JsonValue
  import JsonTexts

  predicate IsHighItem(i: Item)
    requires ItemOk(i)
  {
    i.Uni? && IsHigh(CodeUnit(i.hex))
  }

  /** The letters of a unicode escape without its backslash, as plain items. */
  predicate PlainUnicode(items: seq<Item>) {
    && |items| >= 5 && items[0] == Plain(LETTER_U)
    && forall i :: 1 <= i < 5 ==> items[i].Plain? && IsHex(items[i].b)
  }

  function PlainHex(items: seq<Item>): (hex: bytes)
    requires PlainUnicode(items)
    ensures ItemOk(Uni(hex))
  {
    [items[1].b, items[2].b, items[3].b, items[4].b]
  }

  /**
   Where reading stands after `n` bytes of the items: with which items it goes on,
   and whether it has stopped between the two backslashes of one.
   */
  function Skipped(items: seq<Item>, n: nat): (r: (seq<Item>, bool))
    ensures |r.0| <= |items| && (n > 0 && items != [] ==> |r.0| < |items|)
    ensures ItemsOk(items) ==> ItemsOk(r.0)
  {
    if n == 0 || items == [] then (items, false)
    else if n >= ItemLen(items[0]) then Skipped(items[1..], n - ItemLen(items[0]))
    else (items[1..], items[0] == Esc(BACKSLASH))
  }

  /**
   Unescaping the items returns nil: it comes to a high surrogate with fewer than
   six bytes behind it, or, after it has slipped, to a unicode escape with fewer
   than three bytes behind its letter.
   */
  predicate EndsInNil(items: seq<Item>)
    requires ItemsOk(items)
    decreases |items|, 0
  {
    if items == [] then false
    else if IsHighItem(items[0]) then HighEndsInNil(items[1..])
    else EndsInNil(items[1..])
  }

  /** What stands behind a high surrogate: one byte of it is swallowed unless it is a unicode escape. */
  predicate HighEndsInNil(items: seq<Item>)
    requires ItemsOk(items)
    decreases |items|, 1
  {
    ItemsLen(items) < 6
    || if items[0] == Esc(BACKSLASH) then SlippedEndsInNil(items[1..]) else EndsInNil(items[1..])
  }

  /** A backslash has been read that is not one of the items' own. */
  predicate SlippedEndsInNil(items: seq<Item>)
    requires ItemsOk(items)
    decreases |items|, 0
  {
    if items == [] then false
    else if items[0] == Esc(BACKSLASH) then SlippedEndsInNil(items[1..])
    else if items[0] != Plain(LETTER_U) then EndsInNil(items[1..])
    else if ItemsLen(items[1..]) < 3 then true
    else if PlainUnicode(items) then
      if IsHigh(CodeUnit(PlainHex(items))) then HighEndsInNil(items[5..]) else EndsInNil(items[5..])
    else
      var (rest, slipped) := Skipped(items[1..], 4);
      if slipped then SlippedEndsInNil(rest) else EndsInNil(rest)
  }

  // ---------------------------------------------------------------- against the code

  /** Items that stand in front of the closing quote at `e`. */
  predicate Ends(items: seq<Item>, s: bytes, p: nat, e: nat) {
    ItemsOk(items) && ItemsHere(items, s, p) && p + ItemsLen(items) == e && IsByte(s, e, QUOTE)
  }

  lemma {:induction false} EndsTail(items: seq<Item>, s: bytes, p: nat, e: nat)
    requires Ends(items, s, p, e) && items != []
    ensures ItemHere(items[0], s, p) && p + ItemLen(items[0]) <= e
    ensures Ends(items[1..], s, p + ItemLen(items[0]), e)
  {
  }

  lemma {:induction false} PrependNil(a: bytes, r: Option<bytes>)
    ensures Prepend(a, r) == None <==> r == None
  {
  }

  /** Bytes that are no backslashes are read one by one. */
  lemma {:induction false} PlainRead(s: bytes, p: nat, q: nat, e: nat)
    requires p <= q <= e && IsByte(s, e, QUOTE) && forall i :: p <= i < q ==> s[i] != BACKSLASH
    ensures Unescape(s, p, e) == None <==> Unescape(s, q, e) == None
    decreases q - p
  {
    if p < q {
      PlainRead(s, p + 1, q, e);
    }
  }

  /** What follows a unicode escape whose code is a high surrogate. */
  predicate HighNil(s: bytes, p: nat, e: nat)
    requires e < |s| && s[e] == QUOTE
  {
    p + 6 > e
    || if s[p] == BACKSLASH && s[p + 1] == LETTER_U then Unescape(s, p + 6, e) == None
       else Unescape(s, p + 1, e) == None
  }

  /** A unicode escape, whatever its four bytes are. */
  lemma {:induction false} UnicodeNil(s: bytes, p: nat, e: nat)
    requires p < e < |s| && s[e] == QUOTE && s[p] == BACKSLASH && s[p + 1] == LETTER_U
    ensures Unescape(s, p, e) == None <==>
            p + 5 > e
            || if HighMask(Unhex(s, p + 2)) then HighNil(s, p + 6, e) else Unescape(s, p + 6, e) == None
  {
    hide Unhex, HighMask, Utf32ToUtf8, Join;
  }

  /** Any other escape. */
  lemma {:induction false} ShortNil(s: bytes, p: nat, e: nat)
    requires p < e < |s| && s[e] == QUOTE && s[p] == BACKSLASH && s[p + 1] != LETTER_U
    ensures Unescape(s, p, e) == None <==> Unescape(s, p + 2, e) == None
  {
  }

  /** The bytes of a unicode escape behind its backslash are no backslashes. */
  lemma {:induction false} HexPlain(i: Item, s: bytes, p: nat)
    requires ItemOk(i) && i.Uni? && ItemHere(i, s, p)
    ensures p + 6 <= |s| && forall k :: p < k < p + 6 ==> s[k] != BACKSLASH
    ensures FourHex(s, p + 2) && Unhex(s, p + 2) == CodeUnit(i.hex) && CodeUnit(i.hex) <= 0xFFFF
  {
    hide At, Unhex, CodeUnit;
    FourHexIs(s, p + 2, i.hex);
    UnhexIsCodeUnit(s, p + 2, i.hex);
    forall k | p < k < p + 6 ensures s[k] != BACKSLASH {
      assert k == p + 1 || k == p + 2 || k == p + 3 || k == p + 4 || k == p + 5;
    }
  }

  /** The items are read from their beginning. */
  lemma {:induction false} NilInStep(items: seq<Item>, s: bytes, p: nat, e: nat)
    requires Ends(items, s, p, e)
    ensures Unescape(s, p, e) == None <==> EndsInNil(items)
    decreases |items|, 0
  {
    hide Unescape, Ends, HighNil, Unhex, CodeUnit, HighMask, FourHex, HighEndsInNil;
    if items == [] {
      NothingNil(items, s, p, e);
    } else {
      EndsOk(items, s, p, e);
      EndsTail(items, s, p, e);
      match items[0]
      case Plain(b) =>
        PlainRead(s, p, p + 1, e);
        NilInStep(items[1..], s, p + 1, e);
      case Esc(b) =>
        ShortNil(s, p, e);
        NilInStep(items[1..], s, p + 2, e);
      case Uni(hex) =>
        HexPlain(items[0], s, p);
        UnicodeNil(s, p, e);
        HighMaskIsHigh(CodeUnit(hex));
        if IsHigh(CodeUnit(hex)) {
          NilBehindHigh(items[1..], s, p + 6, e);
        } else {
          NilInStep(items[1..], s, p + 6, e);
        }
    }
  }

  lemma {:induction false} EndsOk(items: seq<Item>, s: bytes, p: nat, e: nat)
    requires Ends(items, s, p, e)
    ensures ItemsOk(items) && e < |s| && s[e] == QUOTE && p <= e && (items != [] ==> p < e && ItemOk(items[0]))
    ensures ItemsLen(items) == e - p && (items == [] <==> p == e)
  {
  }

  lemma {:induction false} NothingNil(items: seq<Item>, s: bytes, p: nat, e: nat)
    requires Ends(items, s, p, e) && items == []
    ensures Unescape(s, p, e) == Some([])
  {
  }

  lemma {:induction false} NilBehindHigh(items: seq<Item>, s: bytes, p: nat, e: nat)
    requires Ends(items, s, p, e)
    ensures ItemsOk(items) && e < |s| && s[e] == QUOTE && (HighNil(s, p, e) <==> HighEndsInNil(items))
    decreases |items|, 1
  {
    hide Unescape, Ends, Unhex, CodeUnit, HighMask, FourHex, EndsInNil, SlippedEndsInNil;
    EndsOk(items, s, p, e);
    if p + 6 <= e {
      EndsTail(items, s, p, e);
      match items[0]
      case Plain(b) => NilInStep(items[1..], s, p + 1, e);
      case Uni(hex) => NilInStep(items[1..], s, p + 6, e);
      case Esc(b) =>
        if b == BACKSLASH {
          NilWhenSlipped(items[1..], s, p + 1, e);
        } else {
          PlainRead(s, p + 1, p + 2, e);
          NilInStep(items[1..], s, p + 2, e);
        }
    }
  }

  /** A backslash at `p` with the items behind it. */
  lemma {:induction false} NilWhenSlipped(items: seq<Item>, s: bytes, p: nat, e: nat)
    requires Ends(items, s, p + 1, e) && IsByte(s, p, BACKSLASH)
    ensures Unescape(s, p, e) == None <==> SlippedEndsInNil(items)
    decreases |items|, 0
  {
    hide Unescape, Ends, Unhex, CodeUnit, HighMask, FourHex, EndsInNil, HighEndsInNil, HighNil, PlainUnicode, Skipped;
    EndsOk(items, s, p + 1, e);
    if items == [] {
      QuoteEscaped(s, p, e);
    } else {
      EndsTail(items, s, p + 1, e);
      match items[0]
      case Esc(b) =>
        ShortNil(s, p, e);
        if b == BACKSLASH {
          NilWhenSlipped(items[1..], s, p + 2, e);
        } else {
          PlainRead(s, p + 2, p + 3, e);
          NilInStep(items[1..], s, p + 3, e);
        }
      case Uni(hex) =>
        HexPlain(items[0], s, p + 1);
        ShortNil(s, p, e);
        PlainRead(s, p + 2, p + 7, e);
        NilInStep(items[1..], s, p + 7, e);
      case Plain(b) =>
        if b != LETTER_U {
          ShortNil(s, p, e);
          NilInStep(items[1..], s, p + 2, e);
        } else {
          NilInLetters(items, s, p, e);
        }
    }
  }

  lemma {:induction false} QuoteEscaped(s: bytes, p: nat, e: nat)
    requires e == p + 1 && IsByte(s, e, QUOTE) && IsByte(s, p, BACKSLASH)
    ensures Unescape(s, p, e).Some?
  {
  }

  /** A backslash at `p` and a plain letter u behind it. */
  lemma {:induction false} NilInLetters(items: seq<Item>, s: bytes, p: nat, e: nat)
    requires Ends(items, s, p + 1, e) && IsByte(s, p, BACKSLASH) && items != [] && items[0] == Plain(LETTER_U)
    ensures Unescape(s, p, e) == None <==> SlippedEndsInNil(items)
    decreases |items|, -1
  {
    hide Unescape, Ends, Unhex, CodeUnit, HighMask, FourHex, EndsInNil, HighEndsInNil, HighNil, PlainUnicode, Skipped;
    EndsOk(items, s, p + 1, e);
    EndsTail(items, s, p + 1, e);
    UnicodeNil(s, p, e);
    if p + 5 > e {
      EndsOk(items[1..], s, p + 2, e);
    } else if PlainUnicode(items) {
      FiveLetters(items, s, p + 1, e);
      HighMaskIsHigh(CodeUnit(PlainHex(items)));
      EndsOk(items[1..], s, p + 2, e);
      if IsHigh(CodeUnit(PlainHex(items))) {
        NilBehindHigh(items[5..], s, p + 6, e);
      } else {
        NilInStep(items[5..], s, p + 6, e);
      }
    } else {
      EndsOk(items[1..], s, p + 2, e);
      NotHex(items, s, p + 1, e);
      NilAfterSkip(items[1..], s, p + 2, 4, e);
    }
  }

  /** Five plain letters that make up a unicode escape. */
  lemma {:induction false} FiveLetters(items: seq<Item>, s: bytes, p: nat, e: nat)
    requires Ends(items, s, p, e) && PlainUnicode(items)
    ensures |items| >= 5 && Ends(items[5..], s, p + 5, e) && FourHex(s, p + 1)
    ensures Unhex(s, p + 1) == CodeUnit(PlainHex(items)) && CodeUnit(PlainHex(items)) <= 0xFFFF
  {
    hide Unhex, CodeUnit;
    var a, b, c, d := items[1..], items[2..], items[3..], items[4..];
    assert a[1..] == b && b[1..] == c && c[1..] == d && d[1..] == items[5..];
    EndsTail(items, s, p, e);
    EndsTail(a, s, p + 1, e);
    EndsTail(b, s, p + 2, e);
    EndsTail(c, s, p + 3, e);
    EndsTail(d, s, p + 4, e);
    var hex := PlainHex(items);
    assert s[p + 1..p + 5] == hex;
    AtIsSlice(s, p + 1, hex);
    UnhexIsCodeUnit(s, p + 1, hex);
  }

  /** Unless four plain hex digits follow, the four bytes behind the letter are no number. */
  lemma {:induction false} NotHex(items: seq<Item>, s: bytes, p: nat, e: nat)
    requires Ends(items, s, p, e) && items != [] && items[0] == Plain(LETTER_U) && !PlainUnicode(items) && p + 4 <= e
    ensures !HighMask(Unhex(s, p + 1))
  {
    hide Unhex, ItemsHere, ItemsLen;
    if FourHex(s, p + 1) {
      HexAreItems(items, s, p, e);
    } else {
      NoNumber(s, p + 1);
    }
  }

  lemma {:induction false} NoNumber(s: bytes, p: nat)
    requires p + 4 <= |s| && !FourHex(s, p)
    ensures Unhex(s, p) == REPLACEMENT_CHAR && !HighMask(Unhex(s, p))
  {
  }

  lemma {:induction false} HexAreItems(items: seq<Item>, s: bytes, p: nat, e: nat)
    requires Ends(items, s, p, e) && items != [] && items[0] == Plain(LETTER_U) && FourHex(s, p + 1) && p + 4 <= e
    ensures PlainUnicode(items)
  {
    EndsTail(items, s, p, e);
    var a := items[1..];
    HexIsItem(a, s, p + 1, e);
    var b := a[1..];
    HexIsItem(b, s, p + 2, e);
    var c := b[1..];
    HexIsItem(c, s, p + 3, e);
    var d := c[1..];
    HexIsItem(d, s, p + 4, e);
    assert a[0] == items[1] && b[0] == items[2] && c[0] == items[3] && d[0] == items[4];
  }

  /** A hex digit is neither the closing quote nor the beginning of an escape. */
  lemma {:induction false} HexIsItem(items: seq<Item>, s: bytes, p: nat, e: nat)
    requires Ends(items, s, p, e) && IsHex(s[p])
    ensures items != [] && items[0] == Plain(s[p]) && Ends(items[1..], s, p + 1, e)
  {
    EndsOk(items, s, p, e);
    if items != [] {
      EndsTail(items, s, p, e);
    }
  }

  /** Reading goes on after `n` bytes of the items, or behind the closing quote. */
  lemma {:induction false} NilAfterSkip(items: seq<Item>, s: bytes, p: nat, n: nat, e: nat)
    requires Ends(items, s, p, e)
    ensures ItemsOk(items)
    ensures var (rest, slipped) := Skipped(items, n);
            Unescape(s, p + n, e) == None <==> if slipped then SlippedEndsInNil(rest) else EndsInNil(rest)
    decreases |items|, 1
  {
    hide Unescape, Ends, Unhex, CodeUnit, FourHex, EndsInNil, SlippedEndsInNil;
    EndsOk(items, s, p, e);
    if n == 0 {
      NilInStep(items, s, p, e);
    } else if items == [] {
      BehindQuote(items, s, p + n, e);
    } else {
      EndsTail(items, s, p, e);
      var len := ItemLen(items[0]);
      if n >= len {
        NilAfterSkip(items[1..], s, p + len, n - len, e);
      } else if items[0] == Esc(BACKSLASH) {
        NilWhenSlipped(items[1..], s, p + 1, e);
      } else {
        if items[0].Uni? {
          HexPlain(items[0], s, p);
        }
        PlainRead(s, p + n, p + len, e);
        NilInStep(items[1..], s, p + len, e);
      }
    }
  }

  lemma {:induction false} BehindQuote(items: seq<Item>, s: bytes, p: nat, e: nat)
    requires e < |s| && s[e] == QUOTE && p >= e && items == []
    ensures Unescape(s, p, e) == Some([]) && !EndsInNil(items)
  {
  }

  // ---------------------------------------------------------------- what follows

  /** For every string of the grammar: nil is used as a string if and only if its items end in nil. */
  lemma {:induction false} NilExactly(s: bytes, p: nat, items: seq<Item>)
    requires ItemsOk(items) && StringHere(items, s, p)
    ensures ReadString(s, p) == Raise(NilString) <==> EndsInNil(items)
    ensures ReadString(s, p) == Raise(NilString) ==> !Paired(items)
  {
    hide Unescape, EndsInNil, ItemsHere, Paired, ItemsDenote, BodyEnd;
    BodyComplete(s, p + 1, items);
    NilInStep(items, s, p + 1, p + 1 + ItemsLen(items));
    if Paired(items) {
      StringComplete(s, p, items);
    }
  }

  /** And only a string of the grammar can lead to nil. */
  lemma {:induction false} NilIsGrammatical(s: bytes, p: nat) returns (items: seq<Item>)
    requires p <= |s| && ReadString(s, p) == Raise(NilString)
    ensures ItemsOk(items) && StringHere(items, s, p) && EndsInNil(items) && !Paired(items)
  {
    hide Unescape, EndsInNil, ItemsHere, Paired, BodyEnd;
    items := BodySound(s, p + 1);
    NilExactly(s, p, items);
  }

  lemma {:induction false} NilInText(items: seq<Item>)
    requires ItemsOk(items)
    ensures ReadString(StringText(items), 0) == Raise(NilString) <==> EndsInNil(items)
  {
    hide ReadString, EndsInNil, StringHere, At;
    var s := StringText(items);
    AtIsSlice(s, 0, s);
    assert s[0..|s|] == s;
    JsonTexts.StringIsText(items, s, 0);
    NilExactly(s, 0, items);
  }

  /** The escape of U+D800. */
  const LONE: Item := Uni([68, 56, 48, 48])

  lemma {:induction false} LoneCode()
    ensures ItemOk(LONE) && IsHighItem(LONE)
  {
  }

  /** The smallest such string, U+D800 escaped between quotes. */
  lemma {:induction false} LoneHighIsNil()
    ensures ReadString([QUOTE, BACKSLASH, LETTER_U, 68, 56, 48, 48, QUOTE], 0) == Raise(NilString)
  {
    hide ReadString, CodeUnit, HighEndsInNil;
    LoneCode();
    assert [LONE][1..] == [];
    LoneIsCut();
    NilInText([LONE]);
    assert ItemsText([LONE]) == ItemText(LONE) + ItemsText([]);
    assert StringText([LONE]) == [QUOTE, BACKSLASH, LETTER_U, 68, 56, 48, 48, QUOTE];
  }

  lemma {:induction false} LoneIsCut()
    ensures HighEndsInNil([])
  {
  }

  /** Behind the high surrogate: two escaped backslashes, with u123 between them and a u at the end. */
  const TAIL: seq<Item> := [Esc(BACKSLASH), Plain(LETTER_U)]
  const DIGITS: seq<Item> := [Plain(49), Plain(50), Plain(51)] + TAIL
  const SLIPPED: seq<Item> := [Esc(BACKSLASH), Plain(LETTER_U)] + DIGITS

  lemma {:induction false} DigitsSkipped()
    ensures Skipped(DIGITS, 4) == ([Plain(LETTER_U)], true) && ItemsLen(DIGITS) == 6
  {
    var a, b := [Plain(50), Plain(51)] + TAIL, [Plain(51)] + TAIL;
    assert DIGITS[1..] == a && a[1..] == b && b[1..] == TAIL && TAIL[1..] == [Plain(LETTER_U)];
    assert [Plain(LETTER_U)][1..] == [];
    assert ItemsLen([Plain(LETTER_U)]) == 1 && ItemsLen(TAIL) == 3 && ItemsLen(b) == 4 && ItemsLen(a) == 5;
    assert Skipped(TAIL, 1) == ([Plain(LETTER_U)], true);
    assert Skipped(a, 3) == Skipped(b, 2) == Skipped(TAIL, 1);
  }

  lemma {:induction false} LetterAtEnd()
    ensures SlippedEndsInNil([Plain(LETTER_U)])
  {
  }

  lemma {:induction false} SlippedItems()
    ensures ItemsOk(SLIPPED) && ItemsLen(SLIPPED) == 9 && HighEndsInNil(SLIPPED)
  {
    hide Skipped;
    var rest := SLIPPED[1..];
    assert rest == [Plain(LETTER_U)] + DIGITS && rest[1..] == DIGITS;
    DigitsSkipped();
    LetterAtEnd();
    assert rest[4] == Esc(BACKSLASH);
    assert !PlainUnicode(rest);
    assert ItemsLen(rest) == 7;
    assert SlippedEndsInNil(rest);
  }

  lemma {:induction false} TextFirst(i: Item, rest: seq<Item>)
    ensures ItemsText([i] + rest) == ItemText(i) + ItemsText(rest)
  {
    assert ([i] + rest)[1..] == rest;
  }

  lemma {:induction false} DigitsText()
    ensures ItemsText(DIGITS) == [49, 50, 51, BACKSLASH, BACKSLASH, LETTER_U]
  {
    hide ItemsText;
    var a, b := [Plain(50), Plain(51)] + TAIL, [Plain(51)] + TAIL;
    assert DIGITS == [Plain(49)] + a && a == [Plain(50)] + b && TAIL == [Esc(BACKSLASH)] + ([Plain(LETTER_U)] + []);
    TextFirst(Plain(49), a);
    TextFirst(Plain(50), b);
    TextFirst(Plain(51), TAIL);
    TextFirst(Esc(BACKSLASH), [Plain(LETTER_U)] + []);
    TextFirst(Plain(LETTER_U), []);
    NoText();
  }

  lemma {:induction false} NoText()
    ensures ItemsText([]) == []
  {
  }

  lemma {:induction false} SlippedText()
    ensures StringText([LONE] + SLIPPED)
         == [QUOTE, BACKSLASH, LETTER_U, 68, 56, 48, 48, BACKSLASH, BACKSLASH, LETTER_U, 49, 50, 51,
             BACKSLASH, BACKSLASH, LETTER_U, QUOTE]
  {
    hide ItemsText;
    assert SLIPPED == [Esc(BACKSLASH)] + ([Plain(LETTER_U)] + DIGITS);
    TextFirst(LONE, SLIPPED);
    TextFirst(Esc(BACKSLASH), [Plain(LETTER_U)] + DIGITS);
    TextFirst(Plain(LETTER_U), DIGITS);
    DigitsText();
  }

  /**
   A string whose only high surrogate has nine bytes behind it: reading slips there,
   and takes the last u for the letter of an escape.
   */
  lemma {:induction false} SlippedIsNil()
    ensures ReadString([QUOTE, BACKSLASH, LETTER_U, 68, 56, 48, 48, BACKSLASH, BACKSLASH, LETTER_U, 49, 50, 51,
                        BACKSLASH, BACKSLASH, LETTER_U, QUOTE], 0) == Raise(NilString)
  {
    hide ReadString, HighEndsInNil, ItemsLen, StringText, CodeUnit;
    LoneCode();
    SlippedItems();
    var all := [LONE] + SLIPPED;
    assert all[0] == LONE && all[1..] == SLIPPED;
    assert ItemsOk(all);
    NilInText(all);
    SlippedText();
  }
}
