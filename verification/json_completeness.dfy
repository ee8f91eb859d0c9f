/**
 Parser completeness: every text of the grammar with paired surrogates is parsed
 to the value it denotes when it nests within the limit, and raises the nesting
 error exactly when it does not.
 */
module JsonCompleteness {
  import opened Bytes
  import opened JsonNames
  import opened JsonValue
  import opened JsonGrammar
  import opened JsonReader
  import opened JsonLexical
  import JsonTexts

  /** What a grammatical text leads to. */
  function Expect(fits: bool, v: Value, next: nat): Outcome {
    if fits then Done(v, next) else Raise(NestingError)
  }

  predicate Good(t: Tree, cfg: Config) {
    TreeOk(t, cfg.allowNaN) && TreePaired(t, cfg.allowNaN)
  }

  predicate GoodElems(es: Elems, cfg: Config) {
    ElemsOk(es, cfg.allowNaN) && ElemsPaired(es, cfg.allowNaN)
  }

  predicate GoodMembers(ms: Members, cfg: Config) {
    MembersOk(ms, cfg.allowNaN) && MembersPaired(ms, cfg.allowNaN)
  }

  /** Behind a value there is its gap, or structure. */
  lemma {:induction false} GapFollows(s: bytes, p: nat, gap: Gap)
    requires GapOk(gap) && GapHere(gap, s, p) && Follows(s, p + GapLen(gap))
    ensures Follows(s, p)
  {
  }

  /** The gap behind a value in a bracketed form, at whose end there is structure. */
  lemma {:induction false} GapBefore(s: bytes, p: nat, gap: Gap, b: byte)
    requires GapOk(gap) && GapHere(gap, s, p) && IsByte(s, p + GapLen(gap), b)
    requires b == COMMA || b == CLOSE_BRACKET || b == CLOSE_BRACE
    ensures Follows(s, p) && Next(s, p) == Some(p + GapLen(gap))
  {
    GapFollows(s, p, gap);
    NextComplete(s, p, gap);
  }

  // ---------------------------------------------------------------- leaves

  /** A sign with a digit behind it does not begin an infinity. */
  lemma {:induction false} NotInfinity(s: bytes, p: nat, negative: bool, digits: bytes)
    requires IntDigits(digits) && SignHere(negative, s, p) && At(s, p + SignLen(negative), digits)
    ensures IsByte(s, p, MINUS) || IsDigitAt(s, p)
    ensures !(s[p] == MINUS && At(s, p + 1, INFINITY_NAME))
  {
    AtFirst(s, p + SignLen(negative), digits);
    if At(s, p + 1, INFINITY_NAME) {
      AtFirst(s, p + 1, INFINITY_NAME);
    }
  }

  lemma {:induction false} IntComplete(s: bytes, p: nat, t: Tree, cfg: Config)
    requires t.TInt? && TreeOk(t, cfg.allowNaN) && Here(t, s, p) && Follows(s, p + Len(t))
    ensures IsByte(s, p, MINUS) || IsDigitAt(s, p)
    ensures ReadNumber(s, p, cfg) == Done(Denotes(t, cfg.allowNaN), p + Len(t))
  {
    hide IntPartEnd;
    NotInfinity(s, p, t.negative, t.digits);
    IntPartComplete(s, p, t.negative, t.digits);
  }

  lemma {:induction false} FloatNumber(s: bytes, p: nat, t: Tree, cfg: Config)
    requires t.TFloat? && TreeOk(t, cfg.allowNaN) && Here(t, s, p) && Follows(s, p + Len(t))
    ensures IsByte(s, p, MINUS) || IsDigitAt(s, p)
    ensures ReadNumber(s, p, cfg) == Done(Denotes(t, cfg.allowNaN), p + Len(t))
  {
    hide Text, FloatTailEnd, IntPartEnd, FloatEnd, ExponentHere, FracHere;
    NotInfinity(s, p, t.negative, t.digits);
    FloatComplete(s, p, t);
    JsonTexts.FloatSlice(s, p, t);
  }

  // ---------------------------------------------------------------- structure

  /** Reading a token gives what its tree denotes, or the nesting error. */
  predicate Complete(s: bytes, p: nat, t: Tree, nesting: nat, cfg: Config)
    requires Good(t, cfg)
  {
    && p < |s| && BeginsValue(s[p])
    && ReadToken(s, p, nesting, cfg)
       == Expect(Fits(Depth(t), nesting, cfg.maxNesting), Denotes(t, cfg.allowNaN), p + Len(t))
  }

  lemma {:induction false} NameComplete(s: bytes, p: nat, t: Tree, nesting: nat, cfg: Config)
    requires Good(t, cfg) && Here(t, s, p) && (t.TNull? || t.TBool? || t.TNaN? || t.TInf?)
    ensures Complete(s, p, t, nesting, cfg)
  {
    hide ReadString, ReadArray, ReadObject, GapHere, ItemsHere, Paired;
  }

  lemma {:induction false} StringTokenComplete(s: bytes, p: nat, t: Tree, nesting: nat, cfg: Config)
    requires Good(t, cfg) && Here(t, s, p) && t.TStr?
    ensures Complete(s, p, t, nesting, cfg)
  {
    StringComplete(s, p, t.items);
  }

  lemma {:induction false} NumberTokenComplete(s: bytes, p: nat, t: Tree, nesting: nat, cfg: Config)
    requires Good(t, cfg) && Here(t, s, p) && (t.TInt? || t.TFloat?) && Follows(s, p + Len(t))
    ensures Complete(s, p, t, nesting, cfg)
  {
    hide ReadNumber, Here, Denotes;
    if t.TInt? {
      IntComplete(s, p, t, cfg);
    } else {
      FloatNumber(s, p, t, cfg);
    }
  }

  lemma {:induction false} TokenComplete(s: bytes, p: nat, t: Tree, nesting: nat, cfg: Config)
    requires Good(t, cfg) && Here(t, s, p) && Follows(s, p + Len(t))
    ensures Complete(s, p, t, nesting, cfg)
    decreases t, 2
  {
    hide Complete, Here, Denotes;
    match t
    case TArr(_, _) => ArrayComplete(s, p, t, nesting, cfg);
    case TObj(_, _) => ObjectComplete(s, p, t, nesting, cfg);
    case TStr(_) => StringTokenComplete(s, p, t, nesting, cfg);
    case TInt(_, _) => NumberTokenComplete(s, p, t, nesting, cfg);
    case TFloat(_, _, _, _) => NumberTokenComplete(s, p, t, nesting, cfg);
    case _ => NameComplete(s, p, t, nesting, cfg);
  }

  /** The value machine, started on the first byte of a token, reads that token. */
  lemma {:induction false} ValueIsToken(s: bytes, p: nat, nesting: nat, cfg: Config)
    requires p < |s| && BeginsValue(s[p])
    ensures ReadValue(s, p, nesting, cfg) == ReadToken(s, p, nesting, cfg)
  {
  }

  lemma {:induction false} ValueComplete(s: bytes, p: nat, t: Tree, nesting: nat, cfg: Config)
    requires Good(t, cfg) && Here(t, s, p) && Follows(s, p + Len(t))
    ensures p < |s| && BeginsValue(s[p])
    ensures ReadValue(s, p, nesting, cfg)
         == Expect(Fits(Depth(t), nesting, cfg.maxNesting), Denotes(t, cfg.allowNaN), p + Len(t))
    decreases t, 3
  {
    hide Here, Denotes, ReadToken, Depth, Len, Good;
    TokenComplete(s, p, t, nesting, cfg);
    ValueIsToken(s, p, nesting, cfg);
  }

  lemma {:induction false} FitsMax(a: nat, b: nat, nesting: nat, maxNesting: int)
    ensures Fits(Max(a, b), nesting, maxNesting) <==> Fits(a, nesting, maxNesting) && Fits(b, nesting, maxNesting)
  {
  }

  /** A bracketed form opens one level. */
  lemma {:induction false} FitsInside(d: nat, nesting: nat, cfg: Config)
    ensures Fits(1 + d, nesting, cfg.maxNesting) <==>
            !TooDeep(nesting + 1, cfg) && Fits(d, nesting + 1, cfg.maxNesting)
  {
  }

  // ---------------------------------------------------------------- arrays

  lemma {:induction false} ArrayComplete(s: bytes, p: nat, t: Tree, nesting: nat, cfg: Config)
    requires Good(t, cfg) && t.TArr? && Here(t, s, p)
    ensures Complete(s, p, t, nesting, cfg)
    decreases t, 1
  {
    hide Good, Complete, Here;
    if t.elems.ENil? {
      EmptyArrayComplete(s, p, t, nesting, cfg);
    } else {
      FullArrayComplete(s, p, t, nesting, cfg);
    }
  }

  lemma {:induction false} EmptyArrayComplete(s: bytes, p: nat, t: Tree, nesting: nat, cfg: Config)
    requires Good(t, cfg) && t.TArr? && t.elems.ENil? && Here(t, s, p)
    ensures Complete(s, p, t, nesting, cfg)
  {
    hide ReadToken, Next, GapHere;
    FitsInside(0, nesting, cfg);
    NextComplete(s, p + 1, t.gap);
    EmptyArrayStep(s, p, nesting, cfg, p + 1 + GapLen(t.gap));
    assert ElemsDepth(t.elems) == 0;
    assert Denotes(t, cfg.allowNaN) == Arr([]) && Len(t) == 2 + GapLen(t.gap);
  }

  /** The parts of a bracketed form. */
  lemma {:induction false} ArrayParts(s: bytes, p: nat, t: Tree, nesting: nat, cfg: Config)
    requires Good(t, cfg) && t.TArr? && t.elems.ECons? && Here(t, s, p)
    ensures GoodElems(t.elems, cfg) && IsByte(s, p, OPEN_BRACKET)
    ensures ElemsHere(t.elems, s, p + 1) && IsByte(s, p + 1 + ElemsLen(t.elems), CLOSE_BRACKET)
    ensures Len(t) == 2 + ElemsLen(t.elems)
    ensures Denotes(t, cfg.allowNaN) == Arr(ElemsDenote(t.elems, cfg.allowNaN))
    ensures Fits(Depth(t), nesting, cfg.maxNesting) <==>
            !TooDeep(nesting + 1, cfg) && Fits(ElemsDepth(t.elems), nesting + 1, cfg.maxNesting)
  {
    hide ElemsHere, ElemsLen, ElemsDenote;
    FitsInside(ElemsDepth(t.elems), nesting, cfg);
  }

  lemma {:induction false} FullArrayComplete(s: bytes, p: nat, t: Tree, nesting: nat, cfg: Config)
    requires Good(t, cfg) && t.TArr? && t.elems.ECons? && Here(t, s, p)
    ensures Complete(s, p, t, nesting, cfg)
    decreases t, 0
  {
    hide Here, Len, Denotes, Depth, GoodElems, ElemsHere, ElemsDenote, ReadToken, ReadElem, Next, GapHere, Fits;
    var es := t.elems;
    ArrayParts(s, p, t, nesting, cfg);
    FirstElem(s, p + 1, es, [], nesting + 1, cfg);
    assert [] + ElemsDenote(es, cfg.allowNaN) == ElemsDenote(es, cfg.allowNaN);
    ArrayStep(s, p, nesting, cfg, p + 1 + GapLen(es.pre),
              Fits(ElemsDepth(es), nesting + 1, cfg.maxNesting), Denotes(t, cfg.allowNaN), p + Len(t));
  }

  lemma {:induction false} EmptyArrayStep(s: bytes, p: nat, nesting: nat, cfg: Config, q: nat)
    requires IsByte(s, p, OPEN_BRACKET) && Next(s, p + 1) == Some(q) && s[q] == CLOSE_BRACKET
    ensures ReadToken(s, p, nesting, cfg) == Expect(!TooDeep(nesting + 1, cfg), Arr([]), q + 1)
  {
  }

  /** An array, read from the reading of its elements. */
  lemma {:induction false} ArrayStep(
    s: bytes, p: nat, nesting: nat, cfg: Config, q: nat, fits: bool, v: Value, next: nat)
    requires IsByte(s, p, OPEN_BRACKET) && Next(s, p + 1) == Some(q) && s[q] != CLOSE_BRACKET
    requires ReadElem(s, q, [], nesting + 1, cfg) == Expect(fits, v, next)
    ensures ReadToken(s, p, nesting, cfg) == Expect(!TooDeep(nesting + 1, cfg) && fits, v, next)
  {
  }

  /** A list of elements from its leading gap on. */
  lemma {:induction false} FirstElem(s: bytes, p: nat, es: Elems, acc: seq<Value>, nesting: nat, cfg: Config)
    requires es.ECons? && GoodElems(es, cfg)
    requires ElemsHere(es, s, p) && IsByte(s, p + ElemsLen(es), CLOSE_BRACKET)
    ensures Next(s, p) == Some(p + GapLen(es.pre)) && BeginsValue(s[p + GapLen(es.pre)])
    ensures ReadElem(s, p + GapLen(es.pre), acc, nesting, cfg)
         == Expect(Fits(ElemsDepth(es), nesting, cfg.maxNesting),
                   Arr(acc + ElemsDenote(es, cfg.allowNaN)), p + ElemsLen(es) + 1)
    decreases es, 2
  {
    ElemComplete(s, p + GapLen(es.pre), es, acc, nesting, cfg);
    NextComplete(s, p, es.pre);
  }

  /** A list of elements read from the reading of its parts. */
  lemma {:induction false} ElemStep(
    s: bytes, p: nat, es: Elems, acc: seq<Value>, nesting: nat, cfg: Config, q: nat, next: nat)
    requires es.ECons? && GoodElems(es, cfg) && p < |s| && BeginsValue(s[p]) && p < q <= |s|
    requires ReadValue(s, p, nesting, cfg)
          == Expect(Fits(Depth(es.t), nesting, cfg.maxNesting), Denotes(es.t, cfg.allowNaN), q)
    requires ReadAfterElem(s, q, acc + [Denotes(es.t, cfg.allowNaN)], nesting, cfg)
          == Expect(Fits(ElemsDepth(es.rest), nesting, cfg.maxNesting),
                    Arr(acc + [Denotes(es.t, cfg.allowNaN)] + ElemsDenote(es.rest, cfg.allowNaN)), next)
    ensures ReadElem(s, p, acc, nesting, cfg)
         == Expect(Fits(ElemsDepth(es), nesting, cfg.maxNesting), Arr(acc + ElemsDenote(es, cfg.allowNaN)), next)
  {
    hide Denotes, Fits, Depth, ReadValue, ReadAfterElem, Max, TreeOk, Paired;
    var v := Denotes(es.t, cfg.allowNaN);
    assert acc + [v] + ElemsDenote(es.rest, cfg.allowNaN) == acc + ElemsDenote(es, cfg.allowNaN);
    FitsMax(Depth(es.t), ElemsDepth(es.rest), nesting, cfg.maxNesting);
  }

  /** A tree takes up room. */
  lemma {:induction false} LenPositive(t: Tree, cfg: Config)
    requires TreeOk(t, cfg.allowNaN)
    ensures Len(t) > 0
  {
  }

  lemma {:induction false} ElemComplete(s: bytes, p: nat, es: Elems, acc: seq<Value>, nesting: nat, cfg: Config)
    requires es.ECons? && GoodElems(es, cfg)
    requires ElemTailHere(es, s, p) && IsByte(s, p + ElemTailLen(es), CLOSE_BRACKET)
    ensures p < |s| && BeginsValue(s[p])
    ensures ReadElem(s, p, acc, nesting, cfg)
         == Expect(Fits(ElemsDepth(es), nesting, cfg.maxNesting),
                   Arr(acc + ElemsDenote(es, cfg.allowNaN)), p + ElemTailLen(es) + 1)
    decreases es, 1
  {
    MoreElemsFollow(s, p + Len(es.t), es.post, es.rest);
    ElemAt(s, p, p + Len(es.t), p + ElemTailLen(es), es, acc, nesting, cfg);
  }

  /** An element at `p`, what follows it at `q`, and the closing bracket at `next`. */
  lemma {:induction false} ElemAt(
    s: bytes, p: nat, q: nat, next: nat, es: Elems, acc: seq<Value>, nesting: nat, cfg: Config)
    requires es.ECons? && GoodElems(es, cfg)
    requires Here(es.t, s, p) && q == p + Len(es.t) && Follows(s, q)
    requires GapHere(es.post, s, q) && MoreElemsHere(es.rest, s, q + GapLen(es.post))
    requires next == q + GapLen(es.post) + MoreElemsLen(es.rest) && IsByte(s, next, CLOSE_BRACKET)
    ensures p < |s| && BeginsValue(s[p])
    ensures ReadElem(s, p, acc, nesting, cfg)
         == Expect(Fits(ElemsDepth(es), nesting, cfg.maxNesting), Arr(acc + ElemsDenote(es, cfg.allowNaN)), next + 1)
    decreases es, 0
  {
    hide Here, Denotes, ElemsDenote, ReadValue, ReadToken, ReadAfterElem, GapHere, MoreElemsHere, ReadElem,
         MoreElemsLen, Len, Fits, ElemsDepth, Follows;
    LenPositive(es.t, cfg);
    ValueComplete(s, p, es.t, nesting, cfg);
    AfterElemComplete(s, q, es.post, es.rest, acc + [Denotes(es.t, cfg.allowNaN)], nesting, cfg);
    ElemStep(s, p, es, acc, nesting, cfg, q, next + 1);
  }

  /** Behind an element. */
  lemma {:induction false} MoreElemsFollow(s: bytes, p: nat, post: Gap, rest: Elems)
    requires GapOk(post) && GapHere(post, s, p) && MoreElemsHere(rest, s, p + GapLen(post))
    requires IsByte(s, p + GapLen(post) + MoreElemsLen(rest), CLOSE_BRACKET)
    ensures Follows(s, p) && Next(s, p) == Some(p + GapLen(post))
    ensures s[p + GapLen(post)] == if rest.ENil? then CLOSE_BRACKET else COMMA
  {
    hide ElemsHere, GapHere, Next, ElemsLen, Skip;
    GapBefore(s, p, post, s[p + GapLen(post)]);
  }

  lemma {:induction false} AfterElemComplete(
    s: bytes, p: nat, post: Gap, rest: Elems, acc: seq<Value>, nesting: nat, cfg: Config)
    requires GapOk(post) && GoodElems(rest, cfg)
    requires GapHere(post, s, p) && MoreElemsHere(rest, s, p + GapLen(post))
    requires IsByte(s, p + GapLen(post) + MoreElemsLen(rest), CLOSE_BRACKET)
    ensures p <= |s|
    ensures ReadAfterElem(s, p, acc, nesting, cfg)
         == Expect(Fits(ElemsDepth(rest), nesting, cfg.maxNesting),
                   Arr(acc + ElemsDenote(rest, cfg.allowNaN)), p + GapLen(post) + MoreElemsLen(rest) + 1)
    decreases rest, 3
  {
    hide ReadElem, ElemsHere, Denotes, GapHere, ReadNextElem;
    MoreElemsFollow(s, p, post, rest);
    var q := p + GapLen(post);
    if rest.ENil? {
      assert acc + [] == acc;
    } else {
      FirstElem(s, q + 1, rest, acc, nesting, cfg);
      AfterElemStep(s, p, acc, nesting, cfg, q, q + 1 + GapLen(rest.pre));
    }
  }

  // ---------------------------------------------------------------- objects

  lemma {:induction false} ObjectComplete(s: bytes, p: nat, t: Tree, nesting: nat, cfg: Config)
    requires Good(t, cfg) && t.TObj? && Here(t, s, p)
    ensures Complete(s, p, t, nesting, cfg)
    decreases t, 1
  {
    hide Good, Complete, Here;
    if t.members.MNil? {
      EmptyObjectComplete(s, p, t, nesting, cfg);
    } else {
      FullObjectComplete(s, p, t, nesting, cfg);
    }
  }

  lemma {:induction false} EmptyObjectComplete(s: bytes, p: nat, t: Tree, nesting: nat, cfg: Config)
    requires Good(t, cfg) && t.TObj? && t.members.MNil? && Here(t, s, p)
    ensures Complete(s, p, t, nesting, cfg)
  {
    hide ReadToken, Next, GapHere;
    FitsInside(0, nesting, cfg);
    NextComplete(s, p + 1, t.gap);
    EmptyObjectStep(s, p, nesting, cfg, p + 1 + GapLen(t.gap));
    assert MembersDepth(t.members) == 0;
    assert Denotes(t, cfg.allowNaN) == Obj([]) && Len(t) == 2 + GapLen(t.gap);
  }

  /** The parts of a bracketed form. */
  lemma {:induction false} ObjectParts(s: bytes, p: nat, t: Tree, nesting: nat, cfg: Config)
    requires Good(t, cfg) && t.TObj? && t.members.MCons? && Here(t, s, p)
    ensures GoodMembers(t.members, cfg) && IsByte(s, p, OPEN_BRACE)
    ensures MembersHere(t.members, s, p + 1) && IsByte(s, p + 1 + MembersLen(t.members), CLOSE_BRACE)
    ensures Len(t) == 2 + MembersLen(t.members)
    ensures Denotes(t, cfg.allowNaN) == Obj(MembersDenote(t.members, [], cfg.allowNaN))
    ensures Fits(Depth(t), nesting, cfg.maxNesting) <==>
            !TooDeep(nesting + 1, cfg) && Fits(MembersDepth(t.members), nesting + 1, cfg.maxNesting)
  {
    hide MembersHere, MembersLen, MembersDenote;
    FitsInside(MembersDepth(t.members), nesting, cfg);
  }

  lemma {:induction false} FullObjectComplete(s: bytes, p: nat, t: Tree, nesting: nat, cfg: Config)
    requires Good(t, cfg) && t.TObj? && t.members.MCons? && Here(t, s, p)
    ensures Complete(s, p, t, nesting, cfg)
    decreases t, 0
  {
    hide Here, Len, Denotes, Depth, GoodMembers, MembersHere, MembersDenote, ReadToken, ReadMember, Next, GapHere,
         Fits;
    var ms := t.members;
    ObjectParts(s, p, t, nesting, cfg);
    FirstMember(s, p + 1, ms, [], nesting + 1, cfg);
    ObjectStep(s, p, nesting, cfg, p + 1 + GapLen(ms.pre),
              Fits(MembersDepth(ms), nesting + 1, cfg.maxNesting), Denotes(t, cfg.allowNaN), p + Len(t));
  }

  lemma {:induction false} EmptyObjectStep(s: bytes, p: nat, nesting: nat, cfg: Config, q: nat)
    requires IsByte(s, p, OPEN_BRACE) && Next(s, p + 1) == Some(q) && s[q] == CLOSE_BRACE
    ensures ReadToken(s, p, nesting, cfg) == Expect(!TooDeep(nesting + 1, cfg), Obj([]), q + 1)
  {
  }

  /** An object, read from the reading of its members. */
  lemma {:induction false} ObjectStep(
    s: bytes, p: nat, nesting: nat, cfg: Config, q: nat, fits: bool, v: Value, next: nat)
    requires IsByte(s, p, OPEN_BRACE) && Next(s, p + 1) == Some(q) && s[q] != CLOSE_BRACE
    requires ReadMember(s, q, [], nesting + 1, cfg) == Expect(fits, v, next)
    ensures ReadToken(s, p, nesting, cfg) == Expect(!TooDeep(nesting + 1, cfg) && fits, v, next)
  {
  }

  /** A list of members from its leading gap on. */
  lemma {:induction false} FirstMember(s: bytes, p: nat, ms: Members, acc: seq<Member>, nesting: nat, cfg: Config)
    requires ms.MCons? && GoodMembers(ms, cfg)
    requires MembersHere(ms, s, p) && IsByte(s, p + MembersLen(ms), CLOSE_BRACE)
    ensures Next(s, p) == Some(p + GapLen(ms.pre)) && s[p + GapLen(ms.pre)] == QUOTE
    ensures ReadMember(s, p + GapLen(ms.pre), acc, nesting, cfg)
         == Expect(Fits(MembersDepth(ms), nesting, cfg.maxNesting),
                   Obj(MembersDenote(ms, acc, cfg.allowNaN)), p + MembersLen(ms) + 1)
    decreases ms, 3
  {
    hide ReadMember, MembersDenote, MemberTailHere, Denotes, Put, ItemsDenote;
    MemberComplete(s, p + GapLen(ms.pre), ms, acc, nesting, cfg);
    NextComplete(s, p, ms.pre);
  }

  /** The pieces of a member up to its colon. */
  lemma {:induction false} MemberPieces(s: bytes, p: nat, ms: Members, cfg: Config)
    requires ms.MCons? && GoodMembers(ms, cfg) && MemberTailHere(ms, s, p)
    ensures IsByte(s, p, QUOTE) && ReadString(s, p) == Done(Str(ItemsDenote(ms.key)), p + StringLen(ms.key))
    ensures Next(s, p + StringLen(ms.key)) == Some(p + StringLen(ms.key) + GapLen(ms.mid))
  {
    hide ItemsDenote, ReadString, Next, MemberEndHere, GapHere, Denotes, Skip;
    StringComplete(s, p, ms.key);
    NextComplete(s, p + StringLen(ms.key), ms.mid);
  }

  lemma {:induction false} MemberComplete(s: bytes, p: nat, ms: Members, acc: seq<Member>, nesting: nat, cfg: Config)
    requires ms.MCons? && GoodMembers(ms, cfg)
    requires MemberTailHere(ms, s, p) && IsByte(s, p + MemberTailLen(ms), CLOSE_BRACE)
    ensures IsByte(s, p, QUOTE)
    ensures ReadMember(s, p, acc, nesting, cfg)
         == Expect(Fits(MembersDepth(ms), nesting, cfg.maxNesting),
                   Obj(MembersDenote(ms, acc, cfg.allowNaN)), p + MemberTailLen(ms) + 1)
    decreases ms, 2
  {
    hide ReadString, ItemsDenote, MembersDenote, ReadMemberValue, ReadMember, Next, StringHere, MemberEndHere,
         GapHere, Denotes, Put;
    MemberPieces(s, p, ms, cfg);
    var c := p + StringLen(ms.key) + GapLen(ms.mid);
    MemberValueComplete(s, c + 1, ms, acc, nesting, cfg);
    MemberNameStep(s, p, acc, nesting, cfg, ItemsDenote(ms.key), p + StringLen(ms.key), c);
  }

  /** A list of members, behind its first colon, read from the reading of its parts. */
  lemma {:induction false} MemberStep(
    s: bytes, p: nat, ms: Members, acc: seq<Member>, acc': seq<Member>, nesting: nat, cfg: Config,
    at: nat, q: nat, next: nat)
    requires ms.MCons? && GoodMembers(ms, cfg)
    requires p <= |s| && Next(s, p) == Some(at) && BeginsValue(s[at]) && at < q <= |s|
    requires ReadValue(s, at, nesting, cfg)
          == Expect(Fits(Depth(ms.t), nesting, cfg.maxNesting), Denotes(ms.t, cfg.allowNaN), q)
    requires acc' == Put(acc, ItemsDenote(ms.key), Denotes(ms.t, cfg.allowNaN))
    requires ReadAfterMember(s, q, acc', nesting, cfg)
          == Expect(Fits(MembersDepth(ms.rest), nesting, cfg.maxNesting),
                    Obj(MembersDenote(ms.rest, acc', cfg.allowNaN)), next)
    ensures ReadMemberValue(s, p, ItemsDenote(ms.key), acc, nesting, cfg)
         == Expect(Fits(MembersDepth(ms), nesting, cfg.maxNesting), Obj(MembersDenote(ms, acc, cfg.allowNaN)), next)
  {
    FitsMax(Depth(ms.t), MembersDepth(ms.rest), nesting, cfg.maxNesting);
  }

  lemma {:induction false} MemberValueComplete(
    s: bytes, p: nat, ms: Members, acc: seq<Member>, nesting: nat, cfg: Config)
    requires ms.MCons? && GoodMembers(ms, cfg)
    requires GapHere(ms.pre2, s, p) && MemberEndHere(ms, s, p + GapLen(ms.pre2))
    requires IsByte(s, p + GapLen(ms.pre2) + MemberEndLen(ms), CLOSE_BRACE)
    ensures ReadMemberValue(s, p, ItemsDenote(ms.key), acc, nesting, cfg)
         == Expect(Fits(MembersDepth(ms), nesting, cfg.maxNesting),
                   Obj(MembersDenote(ms, acc, cfg.allowNaN)), p + GapLen(ms.pre2) + MemberEndLen(ms) + 1)
    decreases ms, 1
  {
    hide ReadMemberValue, MembersDenote, Here, Denotes, GapHere, MoreMembersHere, Put, ItemsDenote;
    var q := p + GapLen(ms.pre2);
    MoreMembersFollow(s, q + Len(ms.t), ms.post, ms.rest);
    MemberAt(s, p, q, q + Len(ms.t), q + MemberEndLen(ms), ms, acc, nesting, cfg);
  }

  /** The value of a member at `q`, what follows it at `r`, and the closing brace at `next`. */
  lemma {:induction false} MemberAt(
    s: bytes, p: nat, q: nat, r: nat, next: nat, ms: Members, acc: seq<Member>, nesting: nat, cfg: Config)
    requires ms.MCons? && GoodMembers(ms, cfg) && GapHere(ms.pre2, s, p) && q == p + GapLen(ms.pre2)
    requires Here(ms.t, s, q) && r == q + Len(ms.t) && Follows(s, r)
    requires GapHere(ms.post, s, r) && MoreMembersHere(ms.rest, s, r + GapLen(ms.post))
    requires next == r + GapLen(ms.post) + MoreMembersLen(ms.rest) && IsByte(s, next, CLOSE_BRACE)
    ensures ReadMemberValue(s, p, ItemsDenote(ms.key), acc, nesting, cfg)
         == Expect(Fits(MembersDepth(ms), nesting, cfg.maxNesting), Obj(MembersDenote(ms, acc, cfg.allowNaN)), next + 1)
    decreases ms, 0
  {
    hide Here, Denotes, Put, ItemsDenote, MembersDenote, ReadValue, ReadToken, ReadAfterMember, ReadMemberValue,
         GapHere, MoreMembersHere, Next;
    LenPositive(ms.t, cfg);
    ValueComplete(s, q, ms.t, nesting, cfg);
    NextComplete(s, p, ms.pre2);
    var acc' := Put(acc, ItemsDenote(ms.key), Denotes(ms.t, cfg.allowNaN));
    AfterMemberComplete(s, r, ms.post, ms.rest, acc', nesting, cfg);
    MemberStep(s, p, ms, acc, acc', nesting, cfg, q, r, next + 1);
  }

  /** Behind a member. */
  lemma {:induction false} MoreMembersFollow(s: bytes, p: nat, post: Gap, rest: Members)
    requires GapOk(post) && GapHere(post, s, p) && MoreMembersHere(rest, s, p + GapLen(post))
    requires IsByte(s, p + GapLen(post) + MoreMembersLen(rest), CLOSE_BRACE)
    ensures Follows(s, p) && Next(s, p) == Some(p + GapLen(post))
    ensures s[p + GapLen(post)] == if rest.MNil? then CLOSE_BRACE else COMMA
  {
    hide MembersHere, GapHere, Next, MembersLen, Skip, MemberTailHere;
    GapBefore(s, p, post, s[p + GapLen(post)]);
  }

  lemma {:induction false} AfterMemberComplete(
    s: bytes, p: nat, post: Gap, rest: Members, acc: seq<Member>, nesting: nat, cfg: Config)
    requires GapOk(post) && GoodMembers(rest, cfg)
    requires GapHere(post, s, p) && MoreMembersHere(rest, s, p + GapLen(post))
    requires IsByte(s, p + GapLen(post) + MoreMembersLen(rest), CLOSE_BRACE)
    ensures p <= |s|
    ensures ReadAfterMember(s, p, acc, nesting, cfg)
         == Expect(Fits(MembersDepth(rest), nesting, cfg.maxNesting),
                   Obj(MembersDenote(rest, acc, cfg.allowNaN)), p + GapLen(post) + MoreMembersLen(rest) + 1)
    decreases rest, 4
  {
    hide ReadMember, MembersHere, Denotes, GapHere, GoodMembers;
    MoreMembersFollow(s, p, post, rest);
    var q := p + GapLen(post);
    if rest.MCons? {
      FirstMember(s, q + 1, rest, acc, nesting, cfg);
      AfterMemberStep(s, p, acc, nesting, cfg, q, q + 1 + GapLen(rest.pre));
    }
  }

  // ---------------------------------------------------------------- the whole source

  /**
   Completeness of cParser_parse, and exactness of its nesting limit: every
   grammatical text with paired surrogates is parsed to its value, or raises
   the nesting error, according to its depth alone.
   */
  lemma {:induction false} ParseComplete(pre: Gap, t: Tree, post: Gap, cfg: Config)
    requires GapOk(pre) && GapOk(post) && Good(t, cfg)
    ensures Parse(GapText(pre) + Text(t) + GapText(post), cfg)
         == if Fits(Depth(t), 0, cfg.maxNesting) then Ok(Denotes(t, cfg.allowNaN)) else Err(NestingError)
  {
    hide Parse, Text, Here, GapHere, GapText, Denotes, Len, GapLen;
    var s := GapText(pre) + Text(t) + GapText(post);
    JsonTexts.HereWhole(pre, t, post, s);
    ParseHere(s, pre, t, post, cfg);
  }

  lemma {:induction false} ParseHere(s: bytes, pre: Gap, t: Tree, post: Gap, cfg: Config)
    requires GapOk(pre) && GapOk(post) && Good(t, cfg)
    requires GapHere(pre, s, 0) && Here(t, s, GapLen(pre)) && GapHere(post, s, GapLen(pre) + Len(t))
    requires |s| == GapLen(pre) + Len(t) + GapLen(post)
    ensures Parse(s, cfg)
         == if Fits(Depth(t), 0, cfg.maxNesting) then Ok(Denotes(t, cfg.allowNaN)) else Err(NestingError)
  {
    hide ReadValue, Here, Denotes, Parse, Next, GapHere, ReadToken, Skip;
    var q, r := GapLen(pre), GapLen(pre) + Len(t);
    GapFollows(s, r, post);
    SkipComplete(s, r, post);
    ValueComplete(s, q, t, 0, cfg);
    NextComplete(s, 0, pre);
    ParseStep(s, cfg, q, Fits(Depth(t), 0, cfg.maxNesting), Denotes(t, cfg.allowNaN), r);
  }

  lemma {:induction false} ParseStep(s: bytes, cfg: Config, q: nat, fits: bool, v: Value, r: nat)
    requires Next(s, 0) == Some(q) && BeginsValue(s[q]) && ReadValue(s, q, 0, cfg) == Expect(fits, v, r)
    requires r <= |s| && Skip(s, r) == Some(|s|)
    ensures Parse(s, cfg) == if fits then Ok(v) else Err(NestingError)
  {
  }
}
