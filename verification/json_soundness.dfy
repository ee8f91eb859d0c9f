/**
 Parser soundness: whatever the parser accepts is a text of the grammar, within
 the nesting limit, and its result is the value that text denotes. The lemmas
 build the syntax tree of the text that was read.
 */
module JsonSoundness {
  import opened Bytes
  import opened JsonNames
  import opened JsonValue
  import opened JsonGrammar
  import opened JsonReader
  import opened JsonLexical
  import JsonTexts

  /** `t` is a tree of the text from `p` to `next`, and `v` is what it denotes. */
  predicate Reads(t: Tree, v: Value, s: bytes, p: nat, next: nat, nesting: nat, cfg: Config) {
    && TreeOk(t, cfg.allowNaN) && Here(t, s, p) && next == p + Len(t)
    && Fits(Depth(t), nesting, cfg.maxNesting)
    && (TreePaired(t, cfg.allowNaN) ==> v == Denotes(t, cfg.allowNaN))
  }

  /** The elements from `p` on, up to a closing bracket just before `next`. */
  predicate ReadsElems(es: Elems, v: Value, s: bytes, p: nat, next: nat, acc: seq<Value>, nesting: nat, cfg: Config) {
    && es.ECons? && ElemsOk(es, cfg.allowNaN) && ElemTailHere(es, s, p)
    && next == p + ElemTailLen(es) + 1 && IsByte(s, next - 1, CLOSE_BRACKET)
    && Fits(ElemsDepth(es), nesting, cfg.maxNesting)
    && (ElemsPaired(es, cfg.allowNaN) ==> v == Arr(acc + ElemsDenote(es, cfg.allowNaN)))
  }

  /** What follows an element: a gap and more elements, up to a closing bracket just before `next`. */
  predicate ReadsMoreElems(
    post: Gap, rest: Elems, v: Value, s: bytes, p: nat, next: nat, acc: seq<Value>, nesting: nat, cfg: Config)
  {
    && GapOk(post) && ElemsOk(rest, cfg.allowNaN) && GapHere(post, s, p) && MoreElemsHere(rest, s, p + GapLen(post))
    && next == p + GapLen(post) + MoreElemsLen(rest) + 1 && IsByte(s, next - 1, CLOSE_BRACKET)
    && Fits(ElemsDepth(rest), nesting, cfg.maxNesting)
    && (ElemsPaired(rest, cfg.allowNaN) ==> v == Arr(acc + ElemsDenote(rest, cfg.allowNaN)))
  }

  /** The members from `p` on, up to a closing brace just before `next`. */
  predicate ReadsMembers(
    ms: Members, v: Value, s: bytes, p: nat, next: nat, acc: seq<Member>, nesting: nat, cfg: Config)
  {
    && ms.MCons? && MembersOk(ms, cfg.allowNaN) && MemberTailHere(ms, s, p)
    && next == p + MemberTailLen(ms) + 1 && IsByte(s, next - 1, CLOSE_BRACE)
    && Fits(MembersDepth(ms), nesting, cfg.maxNesting)
    && (MembersPaired(ms, cfg.allowNaN) ==> v == Obj(MembersDenote(ms, acc, cfg.allowNaN)))
  }

  /** A member from its value on. */
  predicate ReadsMemberEnd(
    ms: Members, v: Value, s: bytes, p: nat, next: nat, acc: seq<Member>, nesting: nat, cfg: Config)
  {
    && ms.MCons? && MembersOk(ms, cfg.allowNaN)
    && GapHere(ms.pre2, s, p) && MemberEndHere(ms, s, p + GapLen(ms.pre2))
    && next == p + GapLen(ms.pre2) + MemberEndLen(ms) + 1 && IsByte(s, next - 1, CLOSE_BRACE)
    && Fits(MembersDepth(ms), nesting, cfg.maxNesting)
    && (MembersPaired(ms, cfg.allowNaN) ==> v == Obj(MembersDenote(ms, acc, cfg.allowNaN)))
  }

  /** What follows a member: a gap and more members, up to a closing brace just before `next`. */
  predicate ReadsMoreMembers(
    post: Gap, rest: Members, v: Value, s: bytes, p: nat, next: nat, acc: seq<Member>, nesting: nat, cfg: Config)
  {
    && GapOk(post) && MembersOk(rest, cfg.allowNaN) && GapHere(post, s, p) && MoreMembersHere(rest, s, p + GapLen(post))
    && next == p + GapLen(post) + MoreMembersLen(rest) + 1 && IsByte(s, next - 1, CLOSE_BRACE)
    && Fits(MembersDepth(rest), nesting, cfg.maxNesting)
    && (MembersPaired(rest, cfg.allowNaN) ==> v == Obj(MembersDenote(rest, acc, cfg.allowNaN)))
  }

  // ---------------------------------------------------------------- leaves

  lemma {:induction false} ValueSound(s: bytes, p: nat, nesting: nat, cfg: Config) returns (pre: Gap, t: Tree)
    requires p <= |s| && ReadValue(s, p, nesting, cfg).Done?
    ensures GapOk(pre) && GapHere(pre, s, p)
    ensures Solid(s, p) ==> pre == End
    ensures var o := ReadValue(s, p, nesting, cfg); Reads(t, o.v, s, p + GapLen(pre), o.next, nesting, cfg)
    decreases |s| - p, 2
  {
    pre := SkipSound(s, p);
    t := TokenSound(s, p + GapLen(pre), nesting, cfg);
  }

  lemma {:induction false} TokenSound(s: bytes, p: nat, nesting: nat, cfg: Config) returns (t: Tree)
    requires p < |s| && ReadToken(s, p, nesting, cfg).Done?
    ensures var o := ReadToken(s, p, nesting, cfg); Reads(t, o.v, s, p, o.next, nesting, cfg)
    decreases |s| - p, 1
  {
    hide ReadMember, ReadElem, ReadNumber, ReadString, ReadArray, ReadObject, BodyEnd, GapHere, ReadName, Reads;
    var b := s[p];
    if b == QUOTE {
      t := StringTokenSound(s, p, nesting, cfg);
    } else if b == MINUS || IsDigit(b) {
      t := NumberSound(s, p, nesting, cfg);
    } else if b == OPEN_BRACKET {
      t := ArraySound(s, p, nesting, cfg);
    } else if b == OPEN_BRACE {
      t := ObjectSound(s, p, nesting, cfg);
    } else {
      t := NameSound(s, p, nesting, cfg);
    }
  }

  lemma {:induction false} StringTokenSound(s: bytes, p: nat, nesting: nat, cfg: Config) returns (t: Tree)
    requires p <= |s| && ReadString(s, p).Done?
    ensures var o := ReadString(s, p); Reads(t, o.v, s, p, o.next, nesting, cfg)
  {
    hide ReadString, Paired, ItemsDenote, StringHere;
    var items := StringSound(s, p);
    t := TStr(items);
  }

  lemma {:induction false} NameSound(s: bytes, p: nat, nesting: nat, cfg: Config) returns (t: Tree)
    requires p < |s| && ReadToken(s, p, nesting, cfg).Done?
    requires s[p] == CAPITAL_I || s[p] == CAPITAL_N || s[p] == LETTER_F || s[p] == LETTER_N || s[p] == LETTER_T
    ensures var o := ReadToken(s, p, nesting, cfg); Reads(t, o.v, s, p, o.next, nesting, cfg)
  {
    hide ReadNumber, ReadString, ReadArray, ReadObject, GapHere, ElemsHere, MembersHere, StringHere;
    var b := s[p];
    t := if b == CAPITAL_I then TInf(false) else if b == CAPITAL_N then TNaN
         else if b == LETTER_F then TBool(false) else if b == LETTER_N then TNull else TBool(true);
  }

  lemma {:induction false} NumberSound(s: bytes, p: nat, nesting: nat, cfg: Config) returns (t: Tree)
    requires (IsByte(s, p, MINUS) || IsDigitAt(s, p)) && ReadNumber(s, p, cfg).Done?
    ensures var o := ReadNumber(s, p, cfg); Reads(t, o.v, s, p, o.next, nesting, cfg)
  {
    hide FloatTailEnd, IntPartEnd, Text, IntDigitsOf, ExponentHere, FracHere, FloatEnd, DecimalValue, At, IntDigits;
    if s[p] == MINUS && At(s, p + 1, INFINITY_NAME) {
      t := TInf(true);
    } else if FloatEnd(s, p).Some? {
      t := FloatSound(s, p);
      JsonTexts.FloatSlice(s, p, t);
    } else {
      var negative, digits := IntPartSound(s, p);
      t := TInt(negative, digits);
    }
  }

  // ---------------------------------------------------------------- arrays

  lemma {:induction false} WrapArray(
    es: Elems, v: Value, s: bytes, p: nat, next: nat, nesting: nat, cfg: Config)
    requires IsByte(s, p, OPEN_BRACKET) && es.ECons? && GapHere(es.pre, s, p + 1) && !TooDeep(nesting + 1, cfg)
    requires ReadsElems(es, v, s, p + 1 + GapLen(es.pre), next, [], nesting + 1, cfg)
    ensures Reads(TArr(End, es), v, s, p, next, nesting, cfg)
  {
    assert ElemsHere(es, s, p + 1) && next == p + 2 + ElemsLen(es);
    assert Here(TArr(End, es), s, p);
    if ElemsPaired(es, cfg.allowNaN) {
      assert [] + ElemsDenote(es, cfg.allowNaN) == ElemsDenote(es, cfg.allowNaN);
    }
  }

  lemma {:induction false} EmptyArray(gap: Gap, s: bytes, p: nat, nesting: nat, cfg: Config)
    requires IsByte(s, p, OPEN_BRACKET) && GapOk(gap) && GapHere(gap, s, p + 1)
    requires IsByte(s, p + 1 + GapLen(gap), CLOSE_BRACKET)
    requires !TooDeep(nesting + 1, cfg)
    ensures Reads(TArr(gap, ENil), Arr([]), s, p, p + 2 + GapLen(gap), nesting, cfg)
  {
    hide GapHere, GapLen, ElemsLen;
    var t := TArr(gap, ENil);
    assert ElemsDepth(ENil) == 0 && ElemsOk(ENil, cfg.allowNaN);
    assert Depth(t) == 1 && Len(t) == 2 + GapLen(gap);
    assert TreeOk(t, cfg.allowNaN) && Here(t, s, p);
    if TreePaired(t, cfg.allowNaN) {
      assert ElemsDenote(ENil, cfg.allowNaN) == [];
      assert Denotes(t, cfg.allowNaN) == Arr([]);
    }
  }

  lemma {:induction false} ArraySound(s: bytes, p: nat, nesting: nat, cfg: Config) returns (t: Tree)
    requires IsByte(s, p, OPEN_BRACKET) && ReadArray(s, p, nesting + 1, cfg).Done?
    ensures var o := ReadArray(s, p, nesting + 1, cfg); Reads(t, o.v, s, p, o.next, nesting, cfg)
    decreases |s| - p, 0
  {
    hide Reads, ReadsElems, GapHere, ReadElem, Skip;
    var o := ReadArray(s, p, nesting + 1, cfg);
    var gap := SkipSound(s, p + 1);
    var q := p + 1 + GapLen(gap);
    if s[q] == CLOSE_BRACKET {
      t := TArr(gap, ENil);
      EmptyArray(gap, s, p, nesting, cfg);
    } else {
      var es := ElemSound(s, q, gap, [], nesting + 1, cfg);
      t := TArr(End, es);
      WrapArray(es, o.v, s, p, o.next, nesting, cfg);
    }
  }

  /** An element and what follows it make a list of elements. */
  lemma {:induction false} ConsElem(
    pre: Gap, t: Tree, v: Value, post: Gap, rest: Elems, w: Value, s: bytes, p: nat, mid: nat, next: nat,
    acc: seq<Value>, nesting: nat, cfg: Config)
    requires GapOk(pre) && Reads(t, v, s, p, mid, nesting, cfg)
    requires ReadsMoreElems(post, rest, w, s, mid, next, acc + [v], nesting, cfg)
    ensures ReadsElems(ECons(pre, t, post, rest), w, s, p, next, acc, nesting, cfg)
  {
    hide Here, Denotes, GapHere, MoreElemsHere, ElemsDenote, MoreElemsLen, GapLen, GapOk, Len, TreeOk, TreePaired;
    var es := ECons(pre, t, post, rest);
    if ElemsPaired(es, cfg.allowNaN) {
      ConsDenotes(pre, t, post, rest, acc, cfg.allowNaN);
    }
  }

  lemma {:induction false} ConsDenotes(pre: Gap, t: Tree, post: Gap, rest: Elems, acc: seq<Value>, allowNaN: bool)
    requires var es := ECons(pre, t, post, rest); ElemsOk(es, allowNaN) && ElemsPaired(es, allowNaN)
    ensures acc + [Denotes(t, allowNaN)] + ElemsDenote(rest, allowNaN)
         == acc + ElemsDenote(ECons(pre, t, post, rest), allowNaN)
  {
    hide Denotes, GapOk, TreeOk, TreePaired;
    var v, denoted := Denotes(t, allowNaN), ElemsDenote(rest, allowNaN);
    assert acc + [v] + denoted == acc + ([v] + denoted);
  }

  lemma {:induction false} ElemSound(
    s: bytes, p: nat, pre: Gap, acc: seq<Value>, nesting: nat, cfg: Config) returns (es: Elems)
    requires p < |s| && ReadElem(s, p, acc, nesting, cfg).Done? && GapOk(pre)
    ensures es.ECons? && es.pre == pre
    ensures var o := ReadElem(s, p, acc, nesting, cfg); ReadsElems(es, o.v, s, p, o.next, acc, nesting, cfg)
    decreases |s| - p, 3
  {
    var o := ReadValue(s, p, nesting, cfg);
    var none, t := ValueSound(s, p, nesting, cfg);
    var all := ReadAfterElem(s, o.next, acc + [o.v], nesting, cfg);
    var post, rest := AfterElemSound(s, o.next, acc + [o.v], nesting, cfg);
    es := ECons(pre, t, post, rest);
    ConsElem(pre, t, o.v, post, rest, all.v, s, p, o.next, all.next, acc, nesting, cfg);
  }

  lemma {:induction false} NoMoreElems(post: Gap, s: bytes, p: nat, acc: seq<Value>, nesting: nat, cfg: Config)
    requires GapOk(post) && GapHere(post, s, p) && IsByte(s, p + GapLen(post), CLOSE_BRACKET)
    ensures ReadsMoreElems(post, ENil, Arr(acc), s, p, p + GapLen(post) + 1, acc, nesting, cfg)
  {
    assert acc + [] == acc;
  }

  lemma {:induction false} MoreElemsAt(es: Elems, s: bytes, p: nat)
    requires IsByte(s, p, COMMA) && es.ECons?
    requires GapHere(es.pre, s, p + 1) && ElemTailHere(es, s, p + 1 + GapLen(es.pre))
    ensures MoreElemsHere(es, s, p) && MoreElemsLen(es) == 1 + GapLen(es.pre) + ElemTailLen(es)
  {
    hide GapHere, ElemTailHere, ElemTailLen;
    assert ElemsHere(es, s, p + 1);
  }

  /** A gap, a comma, a gap and a list of elements. */
  lemma {:induction false} MoreElem(
    post: Gap, es: Elems, w: Value, s: bytes, p: nat, next: nat, acc: seq<Value>, nesting: nat, cfg: Config)
    requires GapOk(post) && GapHere(post, s, p) && IsByte(s, p + GapLen(post), COMMA)
    requires es.ECons? && GapHere(es.pre, s, p + GapLen(post) + 1)
    requires ReadsElems(es, w, s, p + GapLen(post) + 1 + GapLen(es.pre), next, acc, nesting, cfg)
    ensures ReadsMoreElems(post, es, w, s, p, next, acc, nesting, cfg)
  {
    hide ElemTailHere, GapHere, ElemsOk, ElemsDenote, ElemsPaired, ElemTailLen, MoreElemsHere, MoreElemsLen;
    MoreElemsAt(es, s, p + GapLen(post));
  }

  lemma {:induction false} AfterElemSound(s: bytes, p: nat, acc: seq<Value>, nesting: nat, cfg: Config)
    returns (post: Gap, rest: Elems)
    requires p <= |s| && ReadAfterElem(s, p, acc, nesting, cfg).Done?
    ensures var o := ReadAfterElem(s, p, acc, nesting, cfg);
            ReadsMoreElems(post, rest, o.v, s, p, o.next, acc, nesting, cfg)
    decreases |s| - p, 4
  {
    post := SkipSound(s, p);
    var q := p + GapLen(post);
    if s[q] == CLOSE_BRACKET {
      rest := ENil;
      NoMoreElems(post, s, p, acc, nesting, cfg);
    } else {
      var gap := SkipSound(s, q + 1);
      var r := q + 1 + GapLen(gap);
      AfterElemStep(s, p, acc, nesting, cfg, q, r);
      rest := ElemSound(s, r, gap, acc, nesting, cfg);
      var o := ReadElem(s, r, acc, nesting, cfg);
      MoreElem(post, rest, o.v, s, p, o.next, acc, nesting, cfg);
    }
  }

  // ---------------------------------------------------------------- objects

  lemma {:induction false} WrapObject(
    ms: Members, v: Value, s: bytes, p: nat, next: nat, nesting: nat, cfg: Config)
    requires IsByte(s, p, OPEN_BRACE) && ms.MCons? && GapHere(ms.pre, s, p + 1) && !TooDeep(nesting + 1, cfg)
    requires ReadsMembers(ms, v, s, p + 1 + GapLen(ms.pre), next, [], nesting + 1, cfg)
    ensures Reads(TObj(End, ms), v, s, p, next, nesting, cfg)
  {
    assert MembersHere(ms, s, p + 1) && next == p + 2 + MembersLen(ms);
    assert Here(TObj(End, ms), s, p);
  }

  lemma {:induction false} EmptyObject(gap: Gap, s: bytes, p: nat, nesting: nat, cfg: Config)
    requires IsByte(s, p, OPEN_BRACE) && GapOk(gap) && GapHere(gap, s, p + 1)
    requires IsByte(s, p + 1 + GapLen(gap), CLOSE_BRACE)
    requires !TooDeep(nesting + 1, cfg)
    ensures Reads(TObj(gap, MNil), Obj([]), s, p, p + 2 + GapLen(gap), nesting, cfg)
  {
    hide GapHere, GapLen, MembersLen;
    var t := TObj(gap, MNil);
    assert MembersDepth(MNil) == 0 && MembersOk(MNil, cfg.allowNaN);
    assert Depth(t) == 1 && Len(t) == 2 + GapLen(gap);
    assert TreeOk(t, cfg.allowNaN) && Here(t, s, p);
    if TreePaired(t, cfg.allowNaN) {
      assert MembersDenote(MNil, [], cfg.allowNaN) == [];
      assert Denotes(t, cfg.allowNaN) == Obj([]);
    }
  }

  lemma {:induction false} ObjectSound(s: bytes, p: nat, nesting: nat, cfg: Config) returns (t: Tree)
    requires IsByte(s, p, OPEN_BRACE) && ReadObject(s, p, nesting + 1, cfg).Done?
    ensures var o := ReadObject(s, p, nesting + 1, cfg); Reads(t, o.v, s, p, o.next, nesting, cfg)
    decreases |s| - p, 0
  {
    hide Reads, ReadsMembers, GapHere, ReadMember, Skip;
    var o := ReadObject(s, p, nesting + 1, cfg);
    var gap := SkipSound(s, p + 1);
    var q := p + 1 + GapLen(gap);
    if s[q] == CLOSE_BRACE {
      t := TObj(gap, MNil);
      EmptyObject(gap, s, p, nesting, cfg);
    } else {
      var ms := MemberSound(s, q, gap, [], nesting + 1, cfg);
      t := TObj(End, ms);
      WrapObject(ms, o.v, s, p, o.next, nesting, cfg);
    }
  }

  /** A name, a gap and a colon in front of the rest of a member. */
  lemma {:induction false} NameMember(
    ms: Members, v: Value, s: bytes, p: nat, next: nat, acc: seq<Member>, nesting: nat, cfg: Config)
    requires ms.MCons? && StringHere(ms.key, s, p) && GapHere(ms.mid, s, p + StringLen(ms.key))
    requires IsByte(s, p + StringLen(ms.key) + GapLen(ms.mid), COLON)
    requires ReadsMemberEnd(ms, v, s, p + StringLen(ms.key) + GapLen(ms.mid) + 1, next, acc, nesting, cfg)
    ensures ReadsMembers(ms, v, s, p, next, acc, nesting, cfg)
  {
  }

  lemma {:induction false} MemberSound(
    s: bytes, p: nat, pre: Gap, acc: seq<Member>, nesting: nat, cfg: Config) returns (ms: Members)
    requires p < |s| && ReadMember(s, p, acc, nesting, cfg).Done? && GapOk(pre)
    ensures ms.MCons? && ms.pre == pre
    ensures var o := ReadMember(s, p, acc, nesting, cfg); ReadsMembers(ms, o.v, s, p, o.next, acc, nesting, cfg)
    decreases |s| - p, 3
  {
    hide ReadColon, ReadsMemberEnd, ReadsMembers, StringHere, ItemsDenote;
    var key := StringSound(s, p);
    var name := ReadString(s, p);
    ms := ColonSound(s, name.next, pre, key, name.v.s, acc, nesting, cfg);
    var o := ReadColon(s, name.next, name.v.s, acc, nesting, cfg);
    NameMember(ms, o.v, s, p, o.next, acc, nesting, cfg);
  }

  /** The part of a member behind its name. */
  lemma {:induction false} ColonSound(
    s: bytes, p: nat, pre: Gap, key: seq<Item>, name: bytes, acc: seq<Member>, nesting: nat, cfg: Config)
    returns (ms: Members)
    requires p <= |s| && ReadColon(s, p, name, acc, nesting, cfg).Done?
    requires GapOk(pre) && ItemsOk(key) && (Paired(key) ==> name == ItemsDenote(key))
    ensures ms.MCons? && ms.pre == pre && ms.key == key && GapHere(ms.mid, s, p) && IsByte(s, p + GapLen(ms.mid), COLON)
    ensures var o := ReadColon(s, p, name, acc, nesting, cfg);
            ReadsMemberEnd(ms, o.v, s, p + GapLen(ms.mid) + 1, o.next, acc, nesting, cfg)
    decreases |s| - p, 4
  {
    hide ReadMemberValue, ReadMember, MembersHere, Denotes, Put, ItemsDenote, MoreMembersHere, Paired,
         ReadsMemberEnd, Skip, At, MembersDenote, GapOk;
    var mid := SkipSound(s, p);
    ColonStep(s, p, name, acc, nesting, cfg, p + GapLen(mid));
    ms := MemberValueSound(s, p + GapLen(mid) + 1, pre, key, mid, name, acc, nesting, cfg);
  }

  /** A value and what follows it make a member. */
  lemma {:induction false} ConsMember(
    pre: Gap, key: seq<Item>, name: bytes, mid: Gap, pre2: Gap, t: Tree, v: Value, post: Gap, rest: Members, w: Value,
    s: bytes, p: nat, at: nat, next: nat, acc: seq<Member>, nesting: nat, cfg: Config)
    requires GapOk(pre) && ItemsOk(key) && GapOk(mid) && (Paired(key) ==> name == ItemsDenote(key))
    requires GapOk(pre2) && GapHere(pre2, s, p) && Reads(t, v, s, p + GapLen(pre2), at, nesting, cfg)
    requires ReadsMoreMembers(post, rest, w, s, at, next, Put(acc, name, v), nesting, cfg)
    ensures ReadsMemberEnd(MCons(pre, key, mid, pre2, t, post, rest), w, s, p, next, acc, nesting, cfg)
  {
    hide Here, Denotes, GapHere, Put, ItemsDenote, MoreMembersHere;
  }

  /** The part of a member behind its colon, for a name and gap already read. */
  lemma {:induction false} MemberValueSound(
    s: bytes, p: nat, pre: Gap, key: seq<Item>, mid: Gap, name: bytes, acc: seq<Member>, nesting: nat, cfg: Config)
    returns (ms: Members)
    requires p <= |s| && ReadMemberValue(s, p, name, acc, nesting, cfg).Done?
    requires GapOk(pre) && ItemsOk(key) && GapOk(mid) && (Paired(key) ==> name == ItemsDenote(key))
    ensures ms.MCons? && ms.pre == pre && ms.key == key && ms.mid == mid
    ensures var o := ReadMemberValue(s, p, name, acc, nesting, cfg);
            ReadsMemberEnd(ms, o.v, s, p, o.next, acc, nesting, cfg)
    decreases |s| - p, 4
  {
    hide ReadToken, GapHere, ReadAfterMember, Reads, ReadsMoreMembers, ReadsMemberEnd, Put, MembersDenote, Denotes,
         ItemsDenote;
    var pre2 := SkipSound(s, p);
    var q := p + GapLen(pre2);
    var o := ReadValue(s, q, nesting, cfg);
    var none, t := ValueSound(s, q, nesting, cfg);
    var acc' := Put(acc, name, o.v);
    var all := ReadAfterMember(s, o.next, acc', nesting, cfg);
    var post, rest := AfterMemberSound(s, o.next, acc', nesting, cfg);
    ms := MCons(pre, key, mid, pre2, t, post, rest);
    ConsMember(pre, key, name, mid, pre2, t, o.v, post, rest, all.v, s, p, o.next, all.next, acc, nesting, cfg);
  }

  lemma {:induction false} MoreMembersAt(ms: Members, s: bytes, p: nat)
    requires IsByte(s, p, COMMA) && ms.MCons?
    requires GapHere(ms.pre, s, p + 1) && MemberTailHere(ms, s, p + 1 + GapLen(ms.pre))
    ensures MoreMembersHere(ms, s, p) && MoreMembersLen(ms) == 1 + GapLen(ms.pre) + MemberTailLen(ms)
  {
    hide GapHere, MemberTailHere, MemberTailLen;
    assert MembersHere(ms, s, p + 1);
  }

  /** A gap, a comma, a gap and a list of members. */
  lemma {:induction false} MoreMember(
    post: Gap, ms: Members, w: Value, s: bytes, p: nat, next: nat, acc: seq<Member>, nesting: nat, cfg: Config)
    requires GapOk(post) && GapHere(post, s, p) && IsByte(s, p + GapLen(post), COMMA)
    requires ms.MCons? && GapHere(ms.pre, s, p + GapLen(post) + 1)
    requires ReadsMembers(ms, w, s, p + GapLen(post) + 1 + GapLen(ms.pre), next, acc, nesting, cfg)
    ensures ReadsMoreMembers(post, ms, w, s, p, next, acc, nesting, cfg)
  {
    hide MemberTailHere, GapHere, MembersOk, MembersDenote, MembersPaired, MemberTailLen, MoreMembersHere,
         MoreMembersLen;
    MoreMembersAt(ms, s, p + GapLen(post));
  }

  lemma {:induction false} NoMoreMembers(post: Gap, s: bytes, p: nat, acc: seq<Member>, nesting: nat, cfg: Config)
    requires GapOk(post) && GapHere(post, s, p) && IsByte(s, p + GapLen(post), CLOSE_BRACE)
    ensures ReadsMoreMembers(post, MNil, Obj(acc), s, p, p + GapLen(post) + 1, acc, nesting, cfg)
  {
  }

  lemma {:induction false} AfterMemberSound(s: bytes, p: nat, acc: seq<Member>, nesting: nat, cfg: Config)
    returns (post: Gap, rest: Members)
    requires p <= |s| && ReadAfterMember(s, p, acc, nesting, cfg).Done?
    ensures var o := ReadAfterMember(s, p, acc, nesting, cfg);
            ReadsMoreMembers(post, rest, o.v, s, p, o.next, acc, nesting, cfg)
    decreases |s| - p, 4
  {
    hide ReadMember, GapHere, ReadsMembers, ReadsMoreMembers;
    post := SkipSound(s, p);
    var q := p + GapLen(post);
    if s[q] == CLOSE_BRACE {
      rest := MNil;
      NoMoreMembers(post, s, p, acc, nesting, cfg);
    } else {
      var gap := SkipSound(s, q + 1);
      var r := q + 1 + GapLen(gap);
      AfterMemberStep(s, p, acc, nesting, cfg, q, r);
      rest := MemberSound(s, r, gap, acc, nesting, cfg);
      var o := ReadMember(s, r, acc, nesting, cfg);
      MoreMember(post, rest, o.v, s, p, o.next, acc, nesting, cfg);
    }
  }

  // ---------------------------------------------------------------- the whole source

  /**
   Soundness of cParser_parse: an accepted source is one value of the grammar
   with ignorable text around it, nested within the limit, and if its
   surrogates are paired the result is the value it denotes.
   */
  lemma {:induction false} ParseSound(s: bytes, cfg: Config) returns (pre: Gap, t: Tree, post: Gap)
    requires Parse(s, cfg).Ok?
    ensures GapOk(pre) && TreeOk(t, cfg.allowNaN) && GapOk(post)
    ensures s == GapText(pre) + Text(t) + GapText(post)
    ensures Fits(Depth(t), 0, cfg.maxNesting)
    ensures TreePaired(t, cfg.allowNaN) ==> Parse(s, cfg).value == Denotes(t, cfg.allowNaN)
  {
    hide Text, GapText, GapHere, Here, Denotes, ReadToken, Len;
    pre := SkipSound(s, 0);
    var o := ReadValue(s, GapLen(pre), 0, cfg);
    var none;
    none, t := ValueSound(s, GapLen(pre), 0, cfg);
    post := SkipSound(s, o.next);
    JsonTexts.HereWhole(pre, t, post, s);
  }
}
