/**
 The two forms in which JsonGrammar gives the text of a tree agree: the text
 written out, and the text in place.
 */
module JsonTexts {
  import opened Bytes
  import opened JsonNames
  import opened JsonGrammar

  /** Four pieces, one behind the other. */
  lemma {:induction false} FourPieces(s: bytes, p: nat, a: bytes, b: bytes, c: bytes, d: bytes)
    ensures At(s, p, a + (b + (c + d))) <==>
            && At(s, p, a) && At(s, p + |a|, b)
            && At(s, p + |a| + |b|, c) && At(s, p + |a| + |b| + |c|, d)
    ensures |a + (b + (c + d))| == |a| + |b| + |c| + |d|
  {
    AtConcat(s, p, a, b + (c + d));
    AtConcat(s, p + |a|, b, c + d);
    AtConcat(s, p + |a| + |b|, c, d);
  }

  lemma {:induction false} GapIsText(g: Gap, s: bytes, p: nat)
    ensures GapHere(g, s, p) <==> At(s, p, GapText(g))
    ensures GapLen(g) == |GapText(g)|
    decreases g
  {
    hide At, IsByte;
    match g
    case End => AtEmpty(s, p);
    case Ws(b, rest) =>
      GapIsText(rest, s, p + 1);
      AtByte(s, p, b);
      AtConcat(s, p, [b], GapText(rest));
    case Block(body, rest) =>
      GapIsText(rest, s, p + 4 + |body|);
      BlockPieces(s, p, body, GapText(rest));
    case Line(body, rest) =>
      GapIsText(rest, s, p + 3 + |body|);
      LinePieces(s, p, body, GapText(rest));
  }

  lemma {:induction false} BlockPieces(s: bytes, p: nat, body: bytes, rest: bytes)
    ensures At(s, p, [SLASH, STAR] + (body + ([STAR, SLASH] + rest))) <==>
            && IsByte(s, p, SLASH) && IsByte(s, p + 1, STAR) && At(s, p + 2, body)
            && IsByte(s, p + 2 + |body|, STAR) && IsByte(s, p + 3 + |body|, SLASH) && At(s, p + 4 + |body|, rest)
  {
    hide At;
    AtTwo(s, p, SLASH, STAR);
    AtTwo(s, p + 2 + |body|, STAR, SLASH);
    FourPieces(s, p, [SLASH, STAR], body, [STAR, SLASH], rest);
  }

  lemma {:induction false} LinePieces(s: bytes, p: nat, body: bytes, rest: bytes)
    ensures At(s, p, [SLASH, SLASH] + (body + ([NEWLINE] + rest))) <==>
            && IsByte(s, p, SLASH) && IsByte(s, p + 1, SLASH) && At(s, p + 2, body)
            && IsByte(s, p + 2 + |body|, NEWLINE) && At(s, p + 3 + |body|, rest)
  {
    hide At;
    AtTwo(s, p, SLASH, SLASH);
    AtByte(s, p + 2 + |body|, NEWLINE);
    FourPieces(s, p, [SLASH, SLASH], body, [NEWLINE], rest);
  }

  lemma {:induction false} ItemIsText(i: Item, s: bytes, p: nat)
    ensures ItemHere(i, s, p) <==> At(s, p, ItemText(i))
    ensures ItemLen(i) == |ItemText(i)|
  {
    match i
    case Plain(b) => AtByte(s, p, b);
    case Esc(b) => AtTwo(s, p, BACKSLASH, b);
    case Uni(hex) =>
      AtTwo(s, p, BACKSLASH, LETTER_U);
      AtConcat(s, p, [BACKSLASH, LETTER_U], hex);
  }

  lemma {:induction false} ItemsIsText(items: seq<Item>, s: bytes, p: nat)
    ensures ItemsHere(items, s, p) <==> At(s, p, ItemsText(items))
    ensures ItemsLen(items) == |ItemsText(items)|
    decreases |items|
  {
    hide ItemHere, ItemText;
    if items != [] {
      ItemIsText(items[0], s, p);
      ItemsIsText(items[1..], s, p + ItemLen(items[0]));
      AtConcat(s, p, ItemText(items[0]), ItemsText(items[1..]));
    }
  }

  lemma {:induction false} StringIsText(items: seq<Item>, s: bytes, p: nat)
    ensures StringHere(items, s, p) <==> At(s, p, StringText(items))
    ensures StringLen(items) == |StringText(items)|
  {
    hide At, ItemsHere, ItemsText;
    ItemsIsText(items, s, p + 1);
    AtByte(s, p + 1 + ItemsLen(items), QUOTE);
    AtConcat(s, p + 1, ItemsText(items), [QUOTE]);
    AtByte(s, p, QUOTE);
    AtConcat(s, p, [QUOTE], ItemsText(items) + [QUOTE]);
  }

  lemma {:induction false} ExponentIsText(x: Exponent, s: bytes, p: nat)
    ensures ExponentHere(x, s, p) <==> At(s, p, ExponentText(x))
    ensures ExponentLen(x) == |ExponentText(x)|
  {
    if x.Exp? {
      AtConcat(s, p + 1, x.sign, x.digits);
      AtByte(s, p, x.e);
      AtConcat(s, p, [x.e], x.sign + x.digits);
    }
  }

  lemma {:induction false} FracIsText(frac: bytes, s: bytes, p: nat)
    ensures FracHere(frac, s, p) <==> At(s, p, FracText(frac))
    ensures FracLen(frac) == |FracText(frac)|
  {
    if frac != [] {
      AtByte(s, p, DOT);
      AtConcat(s, p, [DOT], frac);
    }
  }

  lemma {:induction false} FloatIsText(t: Tree, s: bytes, p: nat)
    requires t.TFloat?
    ensures Here(t, s, p) <==> At(s, p, Text(t))
    ensures Len(t) == |Text(t)|
  {
    hide At, FracHere, FracText, ExponentHere, ExponentText;
    var f := p + SignLen(t.negative) + |t.digits|;
    var e := f + FracLen(t.frac);
    FracIsText(t.frac, s, f);
    ExponentIsText(t.exp, s, e);
    FourPieces(s, p, Sign(t.negative), t.digits, FracText(t.frac), ExponentText(t.exp));
    SignedIsText(t.negative, t.digits, s, p);
  }

  /** A sign in front of a text that stands in its place. */
  lemma {:induction false} SignedIsText(negative: bool, tail: bytes, s: bytes, p: nat)
    ensures At(s, p, Sign(negative)) && At(s, p + |Sign(negative)|, tail) <==>
            SignHere(negative, s, p) && At(s, p + SignLen(negative), tail)
    ensures SignLen(negative) == |Sign(negative)|
  {
    AtByte(s, p, MINUS);
  }

  /** A bracketed text, when its inside agrees. */
  lemma {:induction false} BracketIsText(s: bytes, p: nat, open: byte, inner: bytes, close: byte, here: bool, len: nat)
    requires here <==> At(s, p + 1, inner)
    requires len == |inner|
    ensures At(s, p, [open] + (inner + [close])) <==> IsByte(s, p, open) && here && IsByte(s, p + 1 + len, close)
    ensures |[open] + (inner + [close])| == 2 + len
  {
    AtByte(s, p + 1 + |inner|, close);
    AtConcat(s, p + 1, inner, [close]);
    AtByte(s, p, open);
    AtConcat(s, p, [open], inner + [close]);
  }

  lemma {:induction false} LeafIsText(t: Tree, s: bytes, p: nat)
    requires !t.TArr? && !t.TObj?
    ensures Here(t, s, p) <==> At(s, p, Text(t))
    ensures Len(t) == |Text(t)|
  {
    match t
    case TInf(negative) =>
      AtConcat(s, p, Sign(negative), INFINITY_NAME);
      SignedIsText(negative, INFINITY_NAME, s, p);
    case TInt(negative, digits) =>
      AtConcat(s, p, Sign(negative), digits);
      SignedIsText(negative, digits, s, p);
    case TFloat(_, _, _, _) => FloatIsText(t, s, p);
    case TStr(items) => StringIsText(items, s, p);
    case _ =>
  }

  /** The text of a tree stands at a position exactly when the tree does. */
  lemma {:induction false} HereIsText(t: Tree, s: bytes, p: nat)
    ensures Here(t, s, p) <==> At(s, p, Text(t))
    ensures Len(t) == |Text(t)|
    decreases t, 1
  {
    match t
    case TArr(gap, es) => ArrayIsText(t, s, p);
    case TObj(gap, ms) => ObjectIsText(t, s, p);
    case _ => LeafIsText(t, s, p);
  }

  lemma {:induction false} ArrayIsText(t: Tree, s: bytes, p: nat)
    requires t.TArr?
    ensures Here(t, s, p) <==> At(s, p, Text(t))
    ensures Len(t) == |Text(t)|
    decreases t, 0
  {
    hide At, GapHere, GapText, ElemsHere, ElemsText;
    var gap, es := t.gap, t.elems;
    if es.ENil? {
      GapIsText(gap, s, p + 1);
      BracketIsText(s, p, OPEN_BRACKET, GapText(gap), CLOSE_BRACKET, GapHere(gap, s, p + 1), GapLen(gap));
    } else {
      ElemsIsText(es, s, p + 1);
      BracketIsText(s, p, OPEN_BRACKET, ElemsText(es), CLOSE_BRACKET, ElemsHere(es, s, p + 1), ElemsLen(es));
    }
  }

  lemma {:induction false} ObjectIsText(t: Tree, s: bytes, p: nat)
    requires t.TObj?
    ensures Here(t, s, p) <==> At(s, p, Text(t))
    ensures Len(t) == |Text(t)|
    decreases t, 0
  {
    hide At, GapHere, GapText, MembersHere, MembersText;
    var gap, ms := t.gap, t.members;
    if ms.MNil? {
      GapIsText(gap, s, p + 1);
      BracketIsText(s, p, OPEN_BRACE, GapText(gap), CLOSE_BRACE, GapHere(gap, s, p + 1), GapLen(gap));
    } else {
      MembersIsText(ms, s, p + 1);
      BracketIsText(s, p, OPEN_BRACE, MembersText(ms), CLOSE_BRACE, MembersHere(ms, s, p + 1), MembersLen(ms));
    }
  }

  lemma {:induction false} ElemsIsText(es: Elems, s: bytes, p: nat)
    requires es.ECons?
    ensures ElemsHere(es, s, p) <==> At(s, p, ElemsText(es))
    ensures ElemsLen(es) == |ElemsText(es)|
    decreases es, 1
  {
    hide GapText, GapHere, At, ElemTail, ElemTailHere;
    GapIsText(es.pre, s, p);
    ElemTailIsText(es, s, p + GapLen(es.pre));
    AtConcat(s, p, GapText(es.pre), ElemTail(es));
  }

  lemma {:induction false} ElemTailIsText(es: Elems, s: bytes, p: nat)
    requires es.ECons?
    ensures ElemTailHere(es, s, p) <==> At(s, p, ElemTail(es))
    ensures ElemTailLen(es) == |ElemTail(es)|
    decreases es, 0
  {
    hide At, Here, GapHere, Text, GapText, MoreElemsHere, MoreElems;
    HereIsText(es.t, s, p);
    var q := p + Len(es.t);
    GapIsText(es.post, s, q);
    MoreElemsIsText(es.rest, s, q + GapLen(es.post));
    AtConcat(s, q, GapText(es.post), MoreElems(es.rest));
    AtConcat(s, p, Text(es.t), GapText(es.post) + MoreElems(es.rest));
  }

  lemma {:induction false} MoreElemsIsText(es: Elems, s: bytes, p: nat)
    ensures MoreElemsHere(es, s, p) <==> At(s, p, MoreElems(es))
    ensures MoreElemsLen(es) == |MoreElems(es)|
    decreases es, 2
  {
    hide ElemsHere, ElemsText;
    if es.ECons? {
      ElemsIsText(es, s, p + 1);
      AtByte(s, p, COMMA);
      AtConcat(s, p, [COMMA], ElemsText(es));
    }
  }

  lemma {:induction false} MembersIsText(ms: Members, s: bytes, p: nat)
    requires ms.MCons?
    ensures MembersHere(ms, s, p) <==> At(s, p, MembersText(ms))
    ensures MembersLen(ms) == |MembersText(ms)|
    decreases ms, 4
  {
    hide GapText, GapHere, At, MemberTail, MemberTailHere;
    GapIsText(ms.pre, s, p);
    MemberTailIsText(ms, s, p + GapLen(ms.pre));
    AtConcat(s, p, GapText(ms.pre), MemberTail(ms));
  }

  lemma {:induction false} MemberTailIsText(ms: Members, s: bytes, p: nat)
    requires ms.MCons?
    ensures MemberTailHere(ms, s, p) <==> At(s, p, MemberTail(ms))
    ensures MemberTailLen(ms) == |MemberTail(ms)|
    decreases ms, 3
  {
    hide StringHere, StringText, GapText, GapHere, MemberEndHere, MemberEnd, At, MemberTailHere;
    StringIsText(ms.key, s, p);
    GapIsText(ms.mid, s, p + StringLen(ms.key));
    ValuePartIsText(ms, s, p + StringLen(ms.key) + GapLen(ms.mid) + 1);
    TailPieces(ms, s, p, StringText(ms.key), GapText(ms.mid), GapText(ms.pre2) + MemberEnd(ms));
  }

  lemma {:induction false} TailPieces(ms: Members, s: bytes, p: nat, name: bytes, mid: bytes, end: bytes)
    requires ms.MCons? && MemberTail(ms) == name + (mid + ([COLON] + end))
    requires StringHere(ms.key, s, p) <==> At(s, p, name)
    requires GapHere(ms.mid, s, p + |name|) <==> At(s, p + |name|, mid)
    requires var c := p + |name| + |mid| + 1;
             GapHere(ms.pre2, s, c) && MemberEndHere(ms, s, c + GapLen(ms.pre2)) <==> At(s, c, end)
    requires |name| == StringLen(ms.key) && |mid| == GapLen(ms.mid) && |end| == GapLen(ms.pre2) + MemberEndLen(ms)
    ensures MemberTailHere(ms, s, p) <==> At(s, p, MemberTail(ms))
    ensures MemberTailLen(ms) == |MemberTail(ms)|
  {
    hide GapHere, StringHere, At, MemberEndHere;
    var c := p + |name| + |mid| + 1;
    ColonPieces(s, p, name, mid, end, StringHere(ms.key, s, p), GapHere(ms.mid, s, p + |name|),
                GapHere(ms.pre2, s, c) && MemberEndHere(ms, s, c + GapLen(ms.pre2)));
  }

  /** Two texts, a colon and a third text, when the three texts agree. */
  lemma {:induction false} ColonPieces(
    s: bytes, p: nat, a: bytes, b: bytes, d: bytes, hereA: bool, hereB: bool, hereD: bool)
    requires hereA <==> At(s, p, a)
    requires hereB <==> At(s, p + |a|, b)
    requires hereD <==> At(s, p + |a| + |b| + 1, d)
    ensures At(s, p, a + (b + ([COLON] + d))) <==> hereA && hereB && IsByte(s, p + |a| + |b|, COLON) && hereD
    ensures |a + (b + ([COLON] + d))| == |a| + |b| + 1 + |d|
  {
    AtByte(s, p + |a| + |b|, COLON);
    FourPieces(s, p, a, b, [COLON], d);
  }

  /** A member behind its colon. */
  lemma {:induction false} ValuePartIsText(ms: Members, s: bytes, p: nat)
    requires ms.MCons?
    ensures GapHere(ms.pre2, s, p) && MemberEndHere(ms, s, p + GapLen(ms.pre2)) <==>
            At(s, p, GapText(ms.pre2) + MemberEnd(ms))
    ensures GapLen(ms.pre2) + MemberEndLen(ms) == |GapText(ms.pre2) + MemberEnd(ms)|
    decreases ms, 2
  {
    hide At, MemberEndHere, MemberEnd, GapHere, GapText;
    GapIsText(ms.pre2, s, p);
    MemberEndIsText(ms, s, p + GapLen(ms.pre2));
    AtConcat(s, p, GapText(ms.pre2), MemberEnd(ms));
  }

  lemma {:induction false} MemberEndIsText(ms: Members, s: bytes, p: nat)
    requires ms.MCons?
    ensures MemberEndHere(ms, s, p) <==> At(s, p, MemberEnd(ms))
    ensures MemberEndLen(ms) == |MemberEnd(ms)|
    decreases ms, 1
  {
    hide At, Here, GapHere, Text, GapText, MoreMembersHere, MoreMembers;
    HereIsText(ms.t, s, p);
    var q := p + Len(ms.t);
    GapIsText(ms.post, s, q);
    MoreMembersIsText(ms.rest, s, q + GapLen(ms.post));
    AtConcat(s, q, GapText(ms.post), MoreMembers(ms.rest));
    AtConcat(s, p, Text(ms.t), GapText(ms.post) + MoreMembers(ms.rest));
  }

  lemma {:induction false} MoreMembersIsText(ms: Members, s: bytes, p: nat)
    ensures MoreMembersHere(ms, s, p) <==> At(s, p, MoreMembers(ms))
    ensures MoreMembersLen(ms) == |MoreMembers(ms)|
    decreases ms, 5
  {
    hide MembersHere, MembersText;
    if ms.MCons? {
      MembersIsText(ms, s, p + 1);
      AtByte(s, p, COMMA);
      AtConcat(s, p, [COMMA], MembersText(ms));
    }
  }

  lemma {:induction false} FloatSlice(s: bytes, p: nat, t: Tree)
    requires t.TFloat? && Here(t, s, p)
    ensures p + Len(t) <= |s| && Text(t) == s[p..p + Len(t)]
  {
    FloatIsText(t, s, p);
    AtIsSlice(s, p, Text(t));
  }

  /** A gap, a tree and a gap make up the whole source. */
  lemma {:induction false} HereWhole(pre: Gap, t: Tree, post: Gap, s: bytes)
    ensures s == GapText(pre) + Text(t) + GapText(post) <==>
            && GapHere(pre, s, 0) && Here(t, s, GapLen(pre)) && GapHere(post, s, GapLen(pre) + Len(t))
            && |s| == GapLen(pre) + Len(t) + GapLen(post)
  {
    hide Text, Here, GapHere, GapText, At;
    GapIsText(pre, s, 0);
    HereIsText(t, s, GapLen(pre));
    GapIsText(post, s, GapLen(pre) + Len(t));
    AtWhole(s, GapText(pre), Text(t), GapText(post));
  }
}
