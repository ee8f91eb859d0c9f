/**
 What becomes of strings that the generator accepts although they are not UTF-8:
 isLegalUTF8 lets some sequences through whose second byte is low, and a low byte
 may be one that should have been escaped. Exactly then the parser does not read
 back what was written.
 */
module JsonReadBack {
  import opened Bytes
  import opened JsonValue
  import opened JsonGrammar
  import opened JsonReader
  import opened JsonLexical
  import opened JsonEscape
  import opened JsonConverters
  import JsonTexts
  import Utf8

  /** The second byte of the sequence is low and should have been escaped. */
  predicate Hides(s: bytes, p: nat, n: nat)
    requires p + n <= |s|
  {
    LowSecondByte(s, p, n) && MustEscape(s[p + 1])
  }

  /** No sequence hides such a byte. */
  predicate NothingHidden(s: bytes, p: nat)
    decreases |s| - p
  {
    p >= |s| || SequenceAt(s, p).Err?
    || (var n := SequenceAt(s, p).value;
        !Hides(s, p, n) && NothingHidden(s, p + n))
  }

  /** From `x` on, `q` is the rest of a string body that is read as `t`, and the quote at its end. */
  predicate ReadsAs(q: bytes, x: nat, t: bytes)
    requires x < |q| && q[|q| - 1] == QUOTE
  {
    BodyEnd(q, x) == Some(|q| - 1) && Unescape(q, x, |q| - 1) == Some(t)
  }

  lemma {:induction false} PrependCancels(a: bytes, r: Option<bytes>, t: bytes)
    ensures Prepend(a, r) == Some(a + t) <==> r == Some(t)
  {
    if r.Some? && a + r.value == a + t {
      assert r.value == (a + r.value)[|a|..] && t == (a + t)[|a|..];
    }
  }

  /** One item in front of the rest. */
  lemma {:induction false} ItemStep(q: bytes, x: nat, i: Item, t: bytes)
    requires q != [] && q[|q| - 1] == QUOTE
    requires ItemOk(i) && Single(i) && ItemHere(i, q, x) && x + ItemLen(i) < |q|
    ensures ReadsAs(q, x, ItemDenotes(i) + t) <==> ReadsAs(q, x + ItemLen(i), t)
  {
    hide ItemDenotes, Single, CodeUnit, Unescape;
    if i.Uni? {
      FourHexIs(q, x + 2, i.hex);
    }
    assert BodyEnd(q, x) == BodyEnd(q, x + ItemLen(i));
    UnescapeOne(q, x, |q| - 1, i);
    PrependCancels(ItemDenotes(i), Unescape(q, x + ItemLen(i), |q| - 1), t);
  }

  /** A run of plain bytes in front of the rest. */
  lemma {:induction false} PlainStep(q: bytes, x: nat, run: bytes, t: bytes)
    requires q != [] && q[|q| - 1] == QUOTE && At(q, x, run) && x + |run| < |q|
    requires forall i :: 0 <= i < |run| ==> ItemOk(Plain(run[i]))
    ensures ReadsAs(q, x, run + t) <==> ReadsAs(q, x + |run|, t)
    decreases |run|
  {
    hide ReadsAs;
    if run == [] {
      assert run + t == t;
    } else {
      assert run + t == [run[0]] + (run[1..] + t);
      AtFirst(q, x, run);
      assert ItemOk(Plain(run[0]));
      ItemStep(q, x, Plain(run[0]), run[1..] + t);
      PlainStep(q, x + 1, run[1..], t);
    }
  }

  /** The escape of a byte, as an item. */
  function EscapeItem(b: byte): Item
    requires MustEscape(b)
  {
    if b == QUOTE || b == BACKSLASH then Esc(b)
    else if ShortLetter(b).Some? then Esc(ShortLetter(b).value)
    else Uni(HexOf(b))
  }

  lemma {:induction false} EscapeItemIs(b: byte)
    requires MustEscape(b)
    ensures ItemOk(EscapeItem(b)) && Single(EscapeItem(b)) && ItemDenotes(EscapeItem(b)) == [b]
    ensures ItemText(EscapeItem(b)) == EscapeScalar(b, false)
  {
    hide HexOf, CodeUnit;
    HexOfDenotes(b);
  }

  /** A raw byte that should have been escaped, with a tail byte behind it: whatever is read is not what was written. */
  lemma {:induction false} HiddenStep(q: bytes, x: nat, bad: byte, t: bytes)
    requires q != [] && q[|q| - 1] == QUOTE && MustEscape(bad) && IsByte(q, x, bad)
    requires x + 2 < |q| && Utf8.IsTail(q[x + 1])
    ensures !ReadsAs(q, x, [bad] + t)
  {
    if bad == BACKSLASH && BodyEnd(q, x) == Some(|q| - 1) {
      OtherFirst(q[x + 1], Unescape(q, x + 2, |q| - 1), bad, t);
    }
  }

  lemma {:induction false} OtherFirst(a: byte, r: Option<bytes>, b: byte, t: bytes)
    requires a != b
    ensures Prepend([a], r) != Some([b] + t)
  {
    if r.Some? {
      assert ([a] + r.value)[0] != ([b] + t)[0];
    }
  }

  /** A sequence with a low second byte: its lead byte is plain, and a tail byte follows the second. */
  lemma {:induction false} LowSequence(s: bytes, p: nat, n: nat)
    requires p + n <= |s| && Hides(s, p, n)
    ensures n >= 3 && ItemOk(Plain(s[p])) && MustEscape(s[p + 1]) && Utf8.IsTail(s[p + 2])
  {
  }

  lemma {:induction false} HiddenSequence(s: bytes, p: nat, n: nat, q: bytes, x: nat, t: bytes)
    requires p < |s| && SequenceAt(s, p) == Ok(n) && Hides(s, p, n)
    requires q != [] && q[|q| - 1] == QUOTE && At(q, x, s[p..p + n]) && x + n < |q|
    ensures !ReadsAs(q, x, s[p..p + n] + t)
  {
    hide ReadsAs, At, SequenceAt, Hides, MustEscape;
    LowSequence(s, p, n);
    var run := s[p..p + n];
    AtIsSlice(q, x, run);
    assert run[0] == q[x] && run[1] == q[x + 1] && run[2] == q[x + 2];
    assert run + t == [s[p]] + ([s[p + 1]] + (run[2..] + t));
    ItemStep(q, x, Plain(s[p]), [s[p + 1]] + (run[2..] + t));
    HiddenStep(q, x + 1, s[p + 1], run[2..] + t);
  }

  /** The bytes of a sequence with nothing hidden are plain. */
  lemma {:induction false} SequencePlain(s: bytes, p: nat, n: nat)
    requires p < |s| && SequenceAt(s, p) == Ok(n) && !MustEscape(s[p]) && !Hides(s, p, n)
    ensures var run := s[p..p + n]; forall i :: 0 <= i < |run| ==> ItemOk(Plain(run[i]))
  {
    var run := s[p..p + n];
    forall i | 0 <= i < |run| ensures ItemOk(Plain(run[i])) {
      assert run[i] == s[p + i] && (i == 0 || i == 1 || i == 2 || i == 3);
    }
  }

  /** What is written from `p` on is read as it was, exactly if nothing is hidden from there on. */
  lemma {:induction false} RestReadsBack(s: bytes, p: nat, q: bytes, x: nat)
    requires p <= |s| && Convert(s, p).Ok?
    requires At(q, x, Convert(s, p).value + [QUOTE]) && |q| == x + |Convert(s, p).value| + 1
    ensures q[|q| - 1] == QUOTE
    ensures ReadsAs(q, x, s[p..]) <==> NothingHidden(s, p)
    decreases |s| - p
  {
    hide ReadsAs, SequenceAt, Hides, EscapeScalar, EscapeItem, At, ItemDenotes, ItemOk, Single;
    var out := Convert(s, p).value;
    AtConcat(q, x, out, [QUOTE]);
    AtByte(q, x + |out|, QUOTE);
    if p == |s| {
      EndReadsBack(q, x);
      assert s[p..] == [];
    } else if MustEscape(s[p]) {
      EscapeSplits(s, p, q, x);
      ItemStep(q, x, EscapeItem(s[p]), s[p + 1..]);
      RestReadsBack(s, p + 1, q, x + ItemLen(EscapeItem(s[p])));
    } else {
      var n := SequenceAt(s, p).value;
      SequenceSplits(s, p, n, q, x);
      if Hides(s, p, n) {
        HiddenSequence(s, p, n, q, x, s[p + n..]);
      } else {
        SequencePlain(s, p, n);
        PlainStep(q, x, s[p..p + n], s[p + n..]);
        RestReadsBack(s, p + n, q, x + n);
      }
    }
  }

  /** What is written from `p` on, when an escape comes first. */
  lemma {:induction false} EscapeSplits(s: bytes, p: nat, q: bytes, x: nat)
    requires p < |s| && Convert(s, p).Ok? && MustEscape(s[p])
    requires At(q, x, Convert(s, p).value + [QUOTE]) && |q| == x + |Convert(s, p).value| + 1
    ensures var i := EscapeItem(s[p]);
            && ItemOk(i) && Single(i) && ItemDenotes(i) == [s[p]] && ItemHere(i, q, x) && x + ItemLen(i) < |q|
            && Convert(s, p + 1).Ok? && At(q, x + ItemLen(i), Convert(s, p + 1).value + [QUOTE])
            && |q| == x + ItemLen(i) + |Convert(s, p + 1).value| + 1
    ensures s[p..] == [s[p]] + s[p + 1..]
    ensures NothingHidden(s, p) <==> NothingHidden(s, p + 1)
  {
    hide EscapeScalar, EscapeItem, At, ItemHere, ItemDenotes, ItemOk, Single;
    var text, rest := EscapeScalar(s[p], false), Convert(s, p + 1).value;
    assert Convert(s, p).value + [QUOTE] == text + (rest + [QUOTE]);
    AtConcat(q, x, text, rest + [QUOTE]);
    EscapeItemIs(s[p]);
    JsonTexts.ItemIsText(EscapeItem(s[p]), q, x);
    EscapeHidesNothing(s, p);
  }

  /** What is written from `p` on, when a plain sequence comes first. */
  lemma {:induction false} SequenceSplits(s: bytes, p: nat, n: nat, q: bytes, x: nat)
    requires p < |s| && Convert(s, p).Ok? && !MustEscape(s[p]) && SequenceAt(s, p) == Ok(n)
    requires At(q, x, Convert(s, p).value + [QUOTE]) && |q| == x + |Convert(s, p).value| + 1
    ensures At(q, x, s[p..p + n]) && x + n < |q|
    ensures Convert(s, p + n).Ok? && At(q, x + n, Convert(s, p + n).value + [QUOTE])
    ensures |q| == x + n + |Convert(s, p + n).value| + 1
    ensures s[p..] == s[p..p + n] + s[p + n..]
  {
    hide SequenceAt, At;
    var run, rest := s[p..p + n], Convert(s, p + n).value;
    assert Convert(s, p).value + [QUOTE] == run + (rest + [QUOTE]);
    AtConcat(q, x, run, rest + [QUOTE]);
  }

  lemma {:induction false} EndReadsBack(q: bytes, x: nat)
    requires |q| == x + 1 && q[x] == QUOTE
    ensures ReadsAs(q, x, [])
  {
  }

  lemma {:induction false} EscapeHidesNothing(s: bytes, p: nat)
    requires p < |s| && MustEscape(s[p])
    ensures SequenceAt(s, p) == Ok(1) && !Hides(s, p, 1)
  {
  }

  /**
   For every string that the converter accepts: between quotes its output is one
   string that the parser reads back as itself if and only if no sequence hides a
   byte that should have been escaped.
   */
  lemma {:induction false} ReadsBackExactly(s: bytes)
    requires Convert(s, 0).Ok?
    ensures var q := Quoted(Convert(s, 0).value);
            ReadString(q, 0) == Done(Str(s), |q|) <==> NothingHidden(s, 0)
  {
    hide Convert, NothingHidden, At;
    var out := Convert(s, 0).value;
    var q := Quoted(out);
    AtIsSlice(q, 1, out + [QUOTE]);
    assert q[1..1 + |out + [QUOTE]|] == out + [QUOTE];
    RestReadsBack(s, 0, q, 1);
    assert s[0..] == s;
  }

  /** Well-formed text hides nothing. */
  lemma {:induction false} TextHidesNothing(s: bytes, p: nat, cs: seq<Utf8.Scalar>)
    requires At(s, p, Utf8.Text(cs)) && p + |Utf8.Text(cs)| == |s|
    ensures NothingHidden(s, p)
    decreases |cs|
  {
    hide Utf8.Encode, IsLegalUtf8, LowSecondByte;
    if cs != [] {
      var c := cs[0];
      AtConcat(s, p, Utf8.Encode(c), Utf8.Text(cs[1..]));
      TextHidesNothing(s, p + |Utf8.Encode(c)|, cs[1..]);
      EncodedIsLegal(s, p, c);
    }
  }

  /** The bytes 0xED 0x22 0x80 are written as they are, and the parser takes the 0x22 for the closing quote. */
  lemma {:induction false} QuoteHidden()
    ensures var s: bytes := [0xED, 0x22, 0x80];
            && Convert(s, 0) == Ok(s) && !NothingHidden(s, 0)
            && ReadString(Quoted(s), 0) == Done(Str([0xED]), 3) && |Quoted(s)| == 5
  {
    var s: bytes := [0xED, 0x22, 0x80];
    assert SequenceAt(s, 0) == Ok(3) && s[0..3] == s;
    assert Convert(s, 3) == Ok([]);
    assert s + [] == s;
    var q := Quoted(s);
    assert q == [QUOTE, 0xED, 0x22, 0x80, QUOTE];
    assert BodyEnd(q, 2) == Some(2);
    assert Unescape(q, 2, 2) == Some([]);
  }

  // ---------------------------------------------------------------- with asciiOnly

  /** The codes that the ASCII converter takes the sequences for. */
  function Codes(s: bytes, p: nat): seq<Utf8.Scalar>
    requires ConvertAscii(s, p).Ok?
    decreases |s| - p
  {
    if p >= |s| then []
    else
      var n := SequenceAt(s, p).value;
      CodeIsScalar(s, p, n);
      [CodeAt(s, p, n)] + Codes(s, p + n)
  }

  lemma {:induction false} CodesWritten(s: bytes, p: nat)
    requires ConvertAscii(s, p).Ok?
    ensures ConvertAscii(s, p).value == EscapeText(Codes(s, p), true)
    decreases |s| - p
  {
    hide IsLegalUtf8, EscapeScalar, CodeAt;
    if p < |s| {
      var n := SequenceAt(s, p).value;
      CodesWritten(s, p + n);
    }
  }

  /** With asciiOnly an accepted string is always one string again, and it is itself if and only if it is UTF-8. */
  lemma {:induction false} AsciiReadsBackExactly(s: bytes)
    requires ConvertAscii(s, 0).Ok?
    ensures var q := Quoted(ConvertAscii(s, 0).value);
            && ReadString(q, 0) == Done(Str(Utf8.Text(Codes(s, 0))), |q|)
            && (ReadString(q, 0) == Done(Str(s), |q|) <==> Utf8.WellFormed(s))
  {
    hide ConvertAscii, ReadString, Codes, EscapeText;
    CodesWritten(s, 0);
    EscapeReadsBack(Codes(s, 0), true);
    if Utf8.WellFormed(s) {
      StringRoundTrip(s);
    }
  }
}
