/**
 The lexical level of the parser against the grammar, in both directions:
 ignorable text, numbers and strings.
 */
module JsonLexical {
  import opened Bytes
  import opened JsonValue
  import opened JsonGrammar
  import opened JsonReader
  import Utf8

  // ---------------------------------------------------------------- comments

  /** No block comment ends between `p` and `q`. */
  predicate NoCloseIn(s: bytes, p: nat, q: int) {
    q <= |s| && forall k :: p <= k < q - 1 ==> !(s[k] == STAR && s[k + 1] == SLASH)
  }

  lemma {:induction false} AfterBlockSound(s: bytes, p: nat)
    requires p <= |s| && AfterBlock(s, p).Some?
    ensures var r := AfterBlock(s, p).value;
            r >= p + 2 && s[r - 2] == STAR && s[r - 1] == SLASH && NoCloseIn(s, p, r - 1)
    decreases |s| - p
  {
    if s[p] == STAR {
      AfterStarSound(s, p + 1);
    } else {
      AfterBlockSound(s, p + 1);
    }
  }

  lemma {:induction false} AfterStarSound(s: bytes, p: nat)
    requires 0 < p <= |s| && s[p - 1] == STAR && AfterStar(s, p).Some?
    ensures var r := AfterStar(s, p).value;
            s[r - 2] == STAR && s[r - 1] == SLASH && NoCloseIn(s, p - 1, r - 1)
    decreases |s| - p
  {
    if s[p] == STAR {
      AfterStarSound(s, p + 1);
    } else if s[p] != SLASH {
      AfterBlockSound(s, p + 1);
    }
  }

  lemma {:induction false} AfterBlockComplete(s: bytes, p: nat, r: nat)
    requires p + 2 <= r <= |s| && s[r - 2] == STAR && s[r - 1] == SLASH && NoCloseIn(s, p, r - 1)
    ensures AfterBlock(s, p) == Some(r)
    decreases |s| - p
  {
    if s[p] == STAR {
      AfterStarComplete(s, p + 1, r);
    } else {
      AfterBlockComplete(s, p + 1, r);
    }
  }

  lemma {:induction false} AfterStarComplete(s: bytes, p: nat, r: nat)
    requires 0 < p < r <= |s| && s[p - 1] == STAR
    requires s[r - 2] == STAR && s[r - 1] == SLASH && NoCloseIn(s, p - 1, r - 1)
    ensures AfterStar(s, p) == Some(r)
    decreases |s| - p
  {
    if p + 1 < r {
      assert !(s[p - 1] == STAR && s[p - 1 + 1] == SLASH);
      if s[p] == STAR {
        AfterStarComplete(s, p + 1, r);
      } else {
        AfterBlockComplete(s, p + 1, r);
      }
    }
  }

  lemma {:induction false} AfterLineSound(s: bytes, p: nat)
    requires p <= |s| && AfterLine(s, p).Some?
    ensures var r := AfterLine(s, p).value; s[r - 1] == NEWLINE && NoNewline(s[p..r - 1])
    decreases |s| - p
  {
    if s[p] != NEWLINE {
      AfterLineSound(s, p + 1);
      var r := AfterLine(s, p).value;
      assert s[p..r - 1] == [s[p]] + s[p + 1..r - 1];
    }
  }

  lemma {:induction false} AfterLineComplete(s: bytes, p: nat, r: nat)
    requires p < r <= |s| && s[r - 1] == NEWLINE && forall k :: p <= k < r - 1 ==> s[k] != NEWLINE
    ensures AfterLine(s, p) == Some(r)
    decreases |s| - p
  {
    if s[p] != NEWLINE {
      AfterLineComplete(s, p + 1, r);
    }
  }

  // ---------------------------------------------------------------- ignorable text

  lemma {:induction false} SkipSound(s: bytes, p: nat) returns (g: Gap)
    requires p <= |s| && Skip(s, p).Some?
    ensures GapOk(g) && GapHere(g, s, p) && Skip(s, p).value == p + GapLen(g)
    ensures Solid(s, p) ==> g == End
    decreases |s| - p
  {
    hide At, NoClose;
    if p < |s| && IsWs(s[p]) {
      var rest := SkipSound(s, p + 1);
      g := Ws(s[p], rest);
    } else if p < |s| && s[p] == SLASH {
      var r := AfterSlash(s, p + 1).value;
      var rest := SkipSound(s, r);
      if s[p + 1] == STAR {
        BlockSound(s, p, r);
        g := Block(s[p + 2..r - 2], rest);
      } else {
        LineSound(s, p, r);
        g := Line(s[p + 2..r - 1], rest);
      }
    } else {
      g := End;
    }
  }

  lemma {:induction false} BlockSound(s: bytes, p: nat, r: nat)
    requires IsByte(s, p, SLASH) && IsByte(s, p + 1, STAR) && AfterBlock(s, p + 2) == Some(r)
    ensures r - 2 >= p + 2 && At(s, p + 2, s[p + 2..r - 2]) && NoClose(s[p + 2..r - 2])
    ensures s[r - 2] == STAR && s[r - 1] == SLASH
  {
    AfterBlockSound(s, p + 2);
    AtSlice(s, p + 2, r - 2);
  }

  lemma {:induction false} LineSound(s: bytes, p: nat, r: nat)
    requires IsByte(s, p, SLASH) && IsByte(s, p + 1, SLASH) && AfterLine(s, p + 2) == Some(r)
    ensures At(s, p + 2, s[p + 2..r - 1]) && NoNewline(s[p + 2..r - 1]) && s[r - 1] == NEWLINE
  {
    AfterLineSound(s, p + 2);
    AtSlice(s, p + 2, r - 1);
  }

  /** A position at which ignorable text has ended. */
  predicate Solid(s: bytes, p: nat) {
    p <= |s| && (p < |s| ==> !IsWs(s[p]) && s[p] != SLASH)
  }

  lemma {:induction false} BlockComplete(s: bytes, p: nat, body: bytes)
    requires NoClose(body) && At(s, p, body) && IsByte(s, p + |body|, STAR) && IsByte(s, p + |body| + 1, SLASH)
    ensures AfterBlock(s, p) == Some(p + |body| + 2)
  {
    AtIsSlice(s, p, body);
    forall k | p <= k < p + |body|
      ensures !(s[k] == STAR && s[k + 1] == SLASH)
    {
      var i := k - p;
      assert s[k] == s[p..p + |body|][i];
      if i + 1 < |body| {
        assert s[k + 1] == s[p..p + |body|][i + 1];
      }
    }
    AfterBlockComplete(s, p, p + |body| + 2);
  }

  lemma {:induction false} LineComplete(s: bytes, p: nat, body: bytes)
    requires NoNewline(body) && At(s, p, body) && IsByte(s, p + |body|, NEWLINE)
    ensures AfterLine(s, p) == Some(p + |body| + 1)
  {
    AtIsSlice(s, p, body);
    forall k | p <= k < p + |body|
      ensures s[k] != NEWLINE
    {
      assert s[k] == s[p..p + |body|][k - p];
    }
    AfterLineComplete(s, p, p + |body| + 1);
  }

  lemma {:induction false} SkipComplete(s: bytes, p: nat, g: Gap)
    requires GapOk(g) && GapHere(g, s, p) && Solid(s, p + GapLen(g))
    ensures Skip(s, p) == Some(p + GapLen(g))
    decreases g
  {
    hide AfterBlock, AfterLine, At, NoClose, NoNewline;
    match g
    case End =>
    case Ws(b, r) =>
      SkipComplete(s, p + 1, r);
    case Block(body, r) =>
      BlockComplete(s, p + 2, body);
      SkipComplete(s, p + 4 + |body|, r);
    case Line(body, r) =>
      LineComplete(s, p + 2, body);
      SkipComplete(s, p + 3 + |body|, r);
  }

  lemma {:induction false} NextComplete(s: bytes, p: nat, g: Gap)
    requires GapOk(g) && GapHere(g, s, p) && p + GapLen(g) < |s| && Solid(s, p + GapLen(g))
    ensures Next(s, p) == Some(p + GapLen(g))
  {
    SkipComplete(s, p, g);
  }

  // ---------------------------------------------------------------- integers

  /** What may stand behind a value: nothing, ignorable text, or structure. */
  predicate Follows(s: bytes, p: nat) {
    && p <= |s|
    && (p < |s| ==> IsWs(s[p]) || s[p] == SLASH || s[p] == COMMA || s[p] == CLOSE_BRACKET || s[p] == CLOSE_BRACE)
  }

  lemma {:induction false} DigitsEndComplete(s: bytes, p: nat, d: bytes)
    requires At(s, p, d) && AllDigits(d) && !IsDigitAt(s, p + |d|)
    ensures DigitsEnd(s, p) == p + |d|
    decreases |d|
  {
    if d != [] {
      AtFirst(s, p, d);
      assert d == [d[0]] + d[1..];
      AtConcat(s, p, [d[0]], d[1..]);
      DigitsEndComplete(s, p + 1, d[1..]);
    }
  }

  lemma {:induction false} DigitsPiece(s: bytes, p: nat)
    requires p <= |s|
    ensures At(s, p, s[p..DigitsEnd(s, p)]) && AllDigits(s[p..DigitsEnd(s, p)])
    ensures IsDigitAt(s, p) ==> DigitsEnd(s, p) > p
  {
    DigitsEndMaximal(s, p);
    AtSlice(s, p, DigitsEnd(s, p));
  }

  lemma {:induction false} IntPartSound(s: bytes, p: nat) returns (negative: bool, digits: bytes)
    requires p <= |s| && IntPartEnd(s, p).Some?
    ensures IntDigits(digits) && digits == IntDigitsOf(s, p)
    ensures negative == IsByte(s, p, MINUS)
    ensures At(s, p + SignLen(negative), digits)
    ensures IntPartEnd(s, p).value == p + SignLen(negative) + |digits|
  {
    negative := IsByte(s, p, MINUS);
    digits := IntDigitsOf(s, p);
    AtSlice(s, p + SignLen(negative), IntPartEnd(s, p).value);
  }

  lemma {:induction false} IntPartComplete(s: bytes, p: nat, negative: bool, digits: bytes)
    requires SignHere(negative, s, p) && At(s, p + SignLen(negative), digits)
    requires IntDigits(digits) && !IsDigitAt(s, p + SignLen(negative) + |digits|)
    ensures IntPartEnd(s, p) == Some(p + SignLen(negative) + |digits|)
    ensures IsByte(s, p, MINUS) == negative
    ensures IntDigitsOf(s, p) == digits
  {
    var i := p + SignLen(negative);
    AtFirst(s, i, digits);
    DigitsEndComplete(s, i + 1, digits[1..]);
    AtIsSlice(s, i, digits);
  }

  // ---------------------------------------------------------------- floats

  lemma {:induction false} ExpSound(s: bytes, p: nat) returns (x: Exponent)
    requires IsE(s, p) && ExpEnd(s, p + 1).Some?
    ensures x.Exp? && ExponentOk(x)
    ensures ExponentHere(x, s, p) && ExpEnd(s, p + 1).value == p + ExponentLen(x)
  {
    var i := if IsByte(s, p + 1, PLUS) || IsByte(s, p + 1, MINUS) then p + 2 else p + 1;
    DigitsPiece(s, i);
    AtSlice(s, p + 1, i);
    x := Exp(s[p], s[p + 1..i], s[i..DigitsEnd(s, i)]);
  }

  lemma {:induction false} ExpComplete(s: bytes, p: nat, x: Exponent)
    requires ExponentHere(x, s, p) && x.Exp? && ExponentOk(x) && Follows(s, p + ExponentLen(x))
    ensures IsE(s, p) && ExpEnd(s, p + 1) == Some(p + ExponentLen(x))
  {
    AtByte(s, p + 1, PLUS);
    AtByte(s, p + 1, MINUS);
    var i := p + 1 + |x.sign|;
    AtFirst(s, i, x.digits);
    DigitsEndComplete(s, i, x.digits);
  }

  lemma {:induction false} FloatTailSound(s: bytes, p: nat) returns (frac: bytes, x: Exponent)
    requires p <= |s| && FloatTailEnd(s, p).Some?
    ensures AllDigits(frac) && ExponentOk(x) && (frac != [] || x.Exp?)
    ensures FracHere(frac, s, p) && ExponentHere(x, s, p + FracLen(frac))
    ensures FloatTailEnd(s, p).value == p + FracLen(frac) + ExponentLen(x)
  {
    if IsE(s, p) {
      frac := [];
      x := ExpSound(s, p);
    } else {
      var f := DigitsEnd(s, p + 1);
      DigitsPiece(s, p + 1);
      frac := s[p + 1..f];
      if IsE(s, f) {
        x := ExpSound(s, f);
      } else {
        x := NoExp;
      }
    }
  }

  /** A fraction from `p` to `f`, with or without an exponent behind it. */
  lemma {:induction false} FracThen(s: bytes, p: nat, frac: bytes, r: nat)
    requires frac != [] && AllDigits(frac) && FracHere(frac, s, p)
    requires var f := p + FracLen(frac); (IsE(s, f) && ExpEnd(s, f + 1) == Some(r)) || (Follows(s, f) && r == f)
    ensures FloatTailEnd(s, p) == Some(r) && !IsDigitAt(s, p)
  {
    AtFirst(s, p + 1, frac);
    DigitsEndComplete(s, p + 1, frac);
  }

  lemma {:induction false} FloatTailComplete(s: bytes, p: nat, frac: bytes, x: Exponent)
    requires AllDigits(frac) && ExponentOk(x) && (frac != [] || x.Exp?)
    requires FracHere(frac, s, p) && ExponentHere(x, s, p + FracLen(frac))
    requires Follows(s, p + FracLen(frac) + ExponentLen(x))
    ensures FloatTailEnd(s, p) == Some(p + FracLen(frac) + ExponentLen(x))
    ensures !IsDigitAt(s, p)
  {
    if x.Exp? {
      ExpComplete(s, p + FracLen(frac), x);
    }
    if frac != [] {
      FracThen(s, p, frac, p + FracLen(frac) + ExponentLen(x));
    }
  }

  lemma {:induction false} FloatSound(s: bytes, p: nat) returns (t: Tree)
    requires p <= |s| && FloatEnd(s, p).Some?
    ensures t.TFloat? && TreeOk(t, false)
    ensures Here(t, s, p) && FloatEnd(s, p).value == p + Len(t)
  {
    var negative, digits := IntPartSound(s, p);
    var frac, x := FloatTailSound(s, IntPartEnd(s, p).value);
    t := TFloat(negative, digits, frac, x);
  }

  lemma {:induction false} FloatComplete(s: bytes, p: nat, t: Tree)
    requires t.TFloat? && TreeOk(t, false) && Here(t, s, p) && Follows(s, p + Len(t))
    ensures FloatEnd(s, p) == Some(p + Len(t))
  {
    FloatTailComplete(s, p + SignLen(t.negative) + |t.digits|, t.frac, t.exp);
    IntPartComplete(s, p, t.negative, t.digits);
  }

  // ---------------------------------------------------------------- strings

  lemma {:induction false} BodySound(s: bytes, p: nat) returns (items: seq<Item>)
    requires p <= |s| && BodyEnd(s, p).Some?
    ensures ItemsOk(items) && ItemsHere(items, s, p) && BodyEnd(s, p).value == p + ItemsLen(items)
    decreases |s| - p
  {
    if s[p] == QUOTE {
      items := [];
    } else {
      var first := if s[p] != BACKSLASH then Plain(s[p])
                   else if s[p + 1] == LETTER_U then Uni(s[p + 2..p + 6]) else Esc(s[p + 1]);
      if first.Uni? {
        AtSlice(s, p + 2, p + 6);
      }
      var tail := BodySound(s, p + ItemLen(first));
      items := [first] + tail;
      assert items[1..] == tail;
    }
  }

  lemma {:induction false} FourHexIs(s: bytes, p: nat, hex: bytes)
    requires At(s, p, hex) && ItemOk(Uni(hex))
    ensures FourHex(s, p)
    ensures s[p] == hex[0] && s[p + 1] == hex[1] && s[p + 2] == hex[2] && s[p + 3] == hex[3]
  {
    AtIsSlice(s, p, hex);
    assert s[p] == hex[0] && s[p + 1] == hex[1] && s[p + 2] == hex[2] && s[p + 3] == hex[3];
    assert IsHex(hex[0]) && IsHex(hex[1]) && IsHex(hex[2]) && IsHex(hex[3]);
  }

  lemma {:induction false} BodyComplete(s: bytes, p: nat, items: seq<Item>)
    requires ItemsOk(items) && ItemsHere(items, s, p) && IsByte(s, p + ItemsLen(items), QUOTE)
    ensures BodyEnd(s, p) == Some(p + ItemsLen(items))
    decreases |items|
  {
    if items != [] {
      BodyComplete(s, p + ItemLen(items[0]), items[1..]);
      if items[0].Uni? {
        FourHexIs(s, p + 2, items[0].hex);
      }
    }
  }

  lemma {:induction false} UnhexIsCodeUnit(s: bytes, p: nat, hex: bytes)
    requires At(s, p, hex) && ItemOk(Uni(hex))
    ensures Unhex(s, p) == CodeUnit(hex)
  {
    hide At, FourHex;
    FourHexIs(s, p, hex);
  }

  /** The masks and shifts of the C code join a surrogate pair as RFC 2781 does. */
  lemma {:induction false} JoinIsFromPair(high: nat, low: nat)
    requires IsHigh(high) && IsLow(low)
    ensures Join(high, low) == FromPair(high, low)
  {
    var h := high - 0xD800;
    assert high % 64 == h % 64 && high / 64 % 16 == h / 64;
  }

  lemma {:induction false} Utf32IsEncode(c: Utf8.Scalar)
    ensures Utf32ToUtf8(c) == Utf8.Encode(c)
  {
  }

  lemma {:induction false} HighMaskIsHigh(u: nat)
    requires u <= 0xFFFF
    ensures HighMask(u) <==> IsHigh(u)
  {
  }

  /** Unescaping one item that stands alone. */
  lemma {:induction false} UnescapeOne(s: bytes, p: nat, e: nat, i: Item)
    requires e < |s| && s[e] == QUOTE
    requires ItemOk(i) && Single(i) && ItemHere(i, s, p) && p + ItemLen(i) <= e
    ensures Unescape(s, p, e) == Prepend(ItemDenotes(i), Unescape(s, p + ItemLen(i), e))
  {
    if i.Uni? {
      UnhexIsCodeUnit(s, p + 2, i.hex);
      HighMaskIsHigh(CodeUnit(i.hex));
      Utf32IsEncode(CodeUnit(i.hex));
    }
  }

  /** What the code does at two units of which the first passes the mask. */
  lemma {:induction false} UnescapeJoin(s: bytes, p: nat, e: nat)
    requires e < |s| && s[e] == QUOTE && p + 12 <= e
    requires IsByte(s, p, BACKSLASH) && IsByte(s, p + 1, LETTER_U)
    requires IsByte(s, p + 6, BACKSLASH) && IsByte(s, p + 7, LETTER_U)
    requires HighMask(Unhex(s, p + 2))
    ensures Unescape(s, p, e)
         == Prepend(Utf32ToUtf8(Join(Unhex(s, p + 2), Unhex(s, p + 8))), Unescape(s, p + 12, e))
  {
  }

  lemma {:induction false} JoinedText(high: nat, low: nat)
    requires IsHigh(high) && IsLow(low)
    ensures Utf32ToUtf8(Join(high, low)) == Utf8.Encode(FromPair(high, low))
  {
    JoinIsFromPair(high, low);
    Utf32IsEncode(FromPair(high, low));
  }

  /** Unescaping a surrogate pair. */
  lemma {:induction false} UnescapePair(s: bytes, p: nat, e: nat, x: bytes, y: bytes)
    requires e < |s| && s[e] == QUOTE && p + 12 <= e
    requires ItemOk(Uni(x)) && ItemOk(Uni(y)) && IsHigh(CodeUnit(x)) && IsLow(CodeUnit(y))
    requires ItemHere(Uni(x), s, p) && ItemHere(Uni(y), s, p + 6)
    ensures Unescape(s, p, e) == Prepend(Utf8.Encode(FromPair(CodeUnit(x), CodeUnit(y))), Unescape(s, p + 12, e))
  {
    UnhexIsCodeUnit(s, p + 2, x);
    UnhexIsCodeUnit(s, p + 8, y);
    HighMaskIsHigh(CodeUnit(x));
    UnescapeJoin(s, p, e);
    JoinedText(CodeUnit(x), CodeUnit(y));
  }

  lemma {:induction false} UnescapeItems(s: bytes, p: nat, e: nat, items: seq<Item>)
    requires e < |s| && s[e] == QUOTE && e == p + ItemsLen(items)
    requires ItemsOk(items) && Paired(items) && ItemsHere(items, s, p)
    ensures Unescape(s, p, e) == Some(ItemsDenote(items))
    decreases |items|
  {
    hide CodeUnit, ItemDenotes;
    if items != [] {
      if StartsPair(items) {
        assert items[1..][1..] == items[2..] && items[1..][0] == items[1];
        UnescapeItems(s, p + 12, e, items[2..]);
        UnescapePair(s, p, e, items[0].hex, items[1].hex);
      } else {
        UnescapeItems(s, p + ItemLen(items[0]), e, items[1..]);
        UnescapeOne(s, p, e, items[0]);
      }
    }
  }

  lemma {:induction false} StringSound(s: bytes, p: nat) returns (items: seq<Item>)
    requires p <= |s| && ReadString(s, p).Done?
    ensures ItemsOk(items)
    ensures StringHere(items, s, p) && ReadString(s, p).next == p + StringLen(items)
    ensures Paired(items) ==> ReadString(s, p).v == Str(ItemsDenote(items))
  {
    hide Unescape, ItemsDenote, ItemsHere, Paired;
    items := BodySound(s, p + 1);
    if Paired(items) {
      UnescapeItems(s, p + 1, BodyEnd(s, p + 1).value, items);
    }
  }

  lemma {:induction false} StringComplete(s: bytes, p: nat, items: seq<Item>)
    requires ItemsOk(items) && Paired(items) && StringHere(items, s, p)
    ensures ReadString(s, p) == Done(Str(ItemsDenote(items)), p + StringLen(items))
  {
    hide Unescape, ItemsDenote, Paired, BodyEnd, ItemsHere;
    BodyComplete(s, p + 1, items);
    UnescapeItems(s, p + 1, p + 1 + ItemsLen(items), items);
  }
}
