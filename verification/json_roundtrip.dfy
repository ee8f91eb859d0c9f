/**
 Generator and parser together: when generation succeeds, that its text is a
 text of the grammar, and that parsing it gives the value back.
 */
module JsonRoundTrip {
  import opened Bytes
  import opened Decimal
  import opened JsonCompleteness
  import opened JsonConverters
  import opened JsonEscape
  import opened JsonGenerator
  import opened JsonGrammar
  import opened JsonLexical
  import opened JsonReader
  import opened JsonValue
  import Utf8

  // ---------------------------------------------------------------- when generation succeeds

  function ValueDepth(v: Value): nat
    decreases v, 1, 0
  {
    match v
    case Arr(_) => 1 + ElemsValueDepth(v, 0)
    case Obj(_) => 1 + MembersValueDepth(v, 0)
    case _ => 0
  }

  /** The deepest of the elements from `i` on. */
  function ElemsValueDepth(v: Value, i: nat): nat
    requires v.Arr? && i <= |v.elems|
    decreases v, 0, |v.elems| - i
  {
    if i == |v.elems| then 0 else Max(ValueDepth(v.elems[i]), ElemsValueDepth(v, i + 1))
  }

  function MembersValueDepth(v: Value, i: nat): nat
    requires v.Obj? && i <= |v.members|
    decreases v, 0, |v.members| - i
  {
    if i == |v.members| then 0 else Max(ValueDepth(v.members[i].value), MembersValueDepth(v, i + 1))
  }

  /** Every string can be converted, and every number written. */
  predicate Writable(v: Value, allowNaN: bool) {
    match v
    case NaN => allowNaN
    case Infinity(_) => allowNaN
    case Str(s) => Convert(s, 0).Ok?
    case Arr(elems) => forall i :: 0 <= i < |elems| ==> Writable(elems[i], allowNaN)
    case Obj(members) =>
      forall i :: 0 <= i < |members| ==> Convert(members[i].key, 0).Ok? && Writable(members[i].value, allowNaN)
    case _ => true
  }

  lemma {:induction false} StringSucceeds(s: bytes, o: Options)
    ensures StringJson(s, o).Ok? <==> Convert(s, 0).Ok?
    ensures StringJson(s, o) != Err(TooNested)
  {
    hide Convert, ConvertAscii;
    ConvertersRefuseAlike(s, 0);
    ConvertErrors(s, 0);
  }

  /**
   Generation succeeds exactly for the values that can be written and do not
   nest too deeply below the depth it starts at; a value that can be written
   fails only for its nesting.
   */
  lemma {:induction false} GenerateSucceeds(v: Value, depth: nat, o: Options)
    ensures Generated(v, depth, o).Ok? <==>
            Writable(v, o.allowNaN) && Fits(ValueDepth(v), depth, o.maxNesting)
    ensures Writable(v, o.allowNaN) && !Fits(ValueDepth(v), depth, o.maxNesting) ==>
              Generated(v, depth, o) == Err(TooNested)
    decreases v, 1, 0
  {
    hide Convert, StringJson, GeneratedElems, GeneratedMembers, ElemsValueDepth, MembersValueDepth;
    match v
    case Arr(elems) =>
      FitsInside(ElemsValueDepth(v, 0), depth, Config(o.maxNesting, true));
      if !GenTooDeep(depth + 1, o) {
        ElemsSucceed(v, |elems|, depth + 1, o);
        ElemsFit(v, 0, depth + 1, o.maxNesting);
      }
    case Obj(members) =>
      FitsInside(MembersValueDepth(v, 0), depth, Config(o.maxNesting, true));
      if !GenTooDeep(depth + 1, o) {
        MembersSucceed(v, |members|, depth + 1, o);
        MembersFit(v, 0, depth + 1, o.maxNesting);
      }
    case Str(s) => StringSucceeds(s, o);
    case _ =>
  }

  predicate ElemsReady(v: Value, i: nat, n: nat, allowNaN: bool)
    requires v.Arr? && n <= |v.elems|
  {
    forall j :: i <= j < n ==> Writable(v.elems[j], allowNaN)
  }

  predicate ElemsShallow(v: Value, i: nat, n: nat, depth: nat, maxNesting: int)
    requires v.Arr? && n <= |v.elems|
  {
    forall j :: i <= j < n ==> Fits(ValueDepth(v.elems[j]), depth, maxNesting)
  }

  lemma {:induction false} ElemsFit(v: Value, i: nat, depth: nat, maxNesting: int)
    requires v.Arr? && i <= |v.elems|
    ensures Fits(ElemsValueDepth(v, i), depth, maxNesting) <==> ElemsShallow(v, i, |v.elems|, depth, maxNesting)
    decreases |v.elems| - i
  {
    hide ValueDepth;
    if i < |v.elems| {
      ElemsFit(v, i + 1, depth, maxNesting);
      FitsMax(ValueDepth(v.elems[i]), ElemsValueDepth(v, i + 1), depth, maxNesting);
    }
  }

  lemma {:induction false} ElemsSucceed(v: Value, n: nat, depth: nat, o: Options)
    requires v.Arr? && n <= |v.elems|
    ensures GeneratedElems(v, n, depth, o).Ok? <==>
            ElemsReady(v, 0, n, o.allowNaN) && ElemsShallow(v, 0, n, depth, o.maxNesting)
    ensures ElemsReady(v, 0, n, o.allowNaN) && !ElemsShallow(v, 0, n, depth, o.maxNesting) ==>
              GeneratedElems(v, n, depth, o) == Err(TooNested)
    decreases v, 0, n
  {
    hide Generated, ValueDepth, Writable, ElemLead;
    if n > 0 {
      ElemsSucceed(v, n - 1, depth, o);
      GenerateSucceeds(v.elems[n - 1], depth, o);
    }
  }

  predicate MembersReady(v: Value, i: nat, n: nat, allowNaN: bool)
    requires v.Obj? && n <= |v.members|
  {
    forall j :: i <= j < n ==> Convert(v.members[j].key, 0).Ok? && Writable(v.members[j].value, allowNaN)
  }

  predicate MembersShallow(v: Value, i: nat, n: nat, depth: nat, maxNesting: int)
    requires v.Obj? && n <= |v.members|
  {
    forall j :: i <= j < n ==> Fits(ValueDepth(v.members[j].value), depth, maxNesting)
  }

  lemma {:induction false} MembersFit(v: Value, i: nat, depth: nat, maxNesting: int)
    requires v.Obj? && i <= |v.members|
    ensures Fits(MembersValueDepth(v, i), depth, maxNesting) <==> MembersShallow(v, i, |v.members|, depth, maxNesting)
    decreases |v.members| - i
  {
    hide ValueDepth;
    if i < |v.members| {
      MembersFit(v, i + 1, depth, maxNesting);
      FitsMax(ValueDepth(v.members[i].value), MembersValueDepth(v, i + 1), depth, maxNesting);
    }
  }

  lemma {:induction false} MembersSucceed(v: Value, n: nat, depth: nat, o: Options)
    requires v.Obj? && n <= |v.members|
    ensures GeneratedMembers(v, n, depth, o).Ok? <==>
            MembersReady(v, 0, n, o.allowNaN) && MembersShallow(v, 0, n, depth, o.maxNesting)
    ensures MembersReady(v, 0, n, o.allowNaN) && !MembersShallow(v, 0, n, depth, o.maxNesting) ==>
              GeneratedMembers(v, n, depth, o) == Err(TooNested)
    decreases v, 0, n
  {
    hide Generated, ValueDepth, Writable, MemberLead, StringJson, NameDelimiter, Convert;
    if n > 0 {
      MembersSucceed(v, n - 1, depth, o);
      StringSucceeds(v.members[n - 1].key, o);
      GenerateSucceeds(v.members[n - 1].value, depth, o);
    }
  }

  // ---------------------------------------------------------------- gaps from options

  function GapCat(a: Gap, b: Gap): Gap {
    match a
    case End => b
    case Ws(c, rest) => Ws(c, GapCat(rest, b))
    case Block(body, rest) => Block(body, GapCat(rest, b))
    case Line(body, rest) => Line(body, GapCat(rest, b))
  }

  lemma {:induction false} GapCatText(a: Gap, b: Gap)
    ensures GapText(GapCat(a, b)) == GapText(a) + GapText(b)
    ensures GapOk(GapCat(a, b)) <==> GapOk(a) && GapOk(b)
  {
    match a
    case End => assert [] + GapText(b) == GapText(b);
    case Ws(c, rest) =>
      GapCatText(rest, b);
      assert [c] + (GapText(rest) + GapText(b)) == [c] + GapText(rest) + GapText(b);
    case Block(body, rest) =>
      GapCatText(rest, b);
      CatFour([SLASH, STAR], body, [STAR, SLASH], GapText(rest), GapText(b));
    case Line(body, rest) =>
      GapCatText(rest, b);
      CatFour([SLASH, SLASH], body, [NEWLINE], GapText(rest), GapText(b));
  }

  lemma {:induction false} CatFour(a: bytes, b: bytes, c: bytes, d: bytes, e: bytes)
    ensures a + (b + (c + (d + e))) == a + (b + (c + d)) + e
  {
  }

  function GapRepeat(g: Gap, n: int): Gap
    decreases if n > 0 then n else 0
  {
    if n <= 0 then End else GapCat(GapRepeat(g, n - 1), g)
  }

  lemma {:induction false} GapRepeatText(g: Gap, n: int)
    requires GapOk(g)
    ensures GapText(GapRepeat(g, n)) == Repeat(GapText(g), n) && GapOk(GapRepeat(g, n))
    decreases if n > 0 then n else 0
  {
    if n > 0 {
      GapRepeatText(g, n - 1);
      GapCatText(GapRepeat(g, n - 1), g);
    }
  }

  /** The options as ignorable text. */
  datatype Layout = Layout(indent: Gap, space: Gap, spaceBefore: Gap, objectNl: Gap, arrayNl: Gap)

  /** The formatting options are ignorable text, namely the gaps of the layout. */
  predicate LaysOut(l: Layout, o: Options) {
    && GapOk(l.indent) && GapText(l.indent) == OrEmpty(o.indent)
    && GapOk(l.space) && GapText(l.space) == OrEmpty(o.space)
    && GapOk(l.spaceBefore) && GapText(l.spaceBefore) == OrEmpty(o.spaceBefore)
    && GapOk(l.objectNl) && GapText(l.objectNl) == OrEmpty(o.objectNl)
    && GapOk(l.arrayNl) && GapText(l.arrayNl) == OrEmpty(o.arrayNl)
  }

  function LineGap(nl: Gap, l: Layout, depth: int): Gap {
    GapCat(nl, GapRepeat(l.indent, depth))
  }

  function ClosingGap(nl: Gap, present: bool, l: Layout, depth: int): Gap {
    if present then LineGap(nl, l, depth) else End
  }

  lemma {:induction false} LineGapText(nl: Gap, l: Layout, o: Options, depth: int)
    requires LaysOut(l, o) && GapOk(nl)
    ensures GapText(LineGap(nl, l, depth)) == GapText(nl) + IndentText(o, depth) && GapOk(LineGap(nl, l, depth))
  {
    GapRepeatText(l.indent, depth);
    GapCatText(nl, GapRepeat(l.indent, depth));
  }

  lemma {:induction false} ClosingGapText(nl: Gap, b: Option<bytes>, l: Layout, o: Options, depth: int)
    requires LaysOut(l, o) && GapOk(nl) && GapText(nl) == OrEmpty(b)
    ensures GapText(ClosingGap(nl, b.Some?, l, depth)) == Closing(b, o, depth)
    ensures GapOk(ClosingGap(nl, b.Some?, l, depth))
  {
    if b.Some? {
      LineGapText(nl, l, o, depth);
    }
  }

  // ---------------------------------------------------------------- the tree of a generated text

  /** No floats, strings and names in well-formed UTF-8, and no name twice in an object. */
  ghost predicate Faithful(v: Value, allowNaN: bool) {
    match v
    case Float(_) => false
    case NaN => allowNaN
    case Infinity(_) => allowNaN
    case Str(s) => Utf8.WellFormed(s)
    case Arr(elems) => forall i :: 0 <= i < |elems| ==> Faithful(elems[i], allowNaN)
    case Obj(members) =>
      && DistinctKeys(members)
      && forall i :: 0 <= i < |members| ==> Utf8.WellFormed(members[i].key) && Faithful(members[i].value, allowNaN)
    case _ => true
  }

  ghost function ScalarsOf(s: bytes): (cs: seq<Utf8.Scalar>)
    requires Utf8.WellFormed(s)
    ensures Utf8.Text(cs) == s
  {
    var cs: seq<Utf8.Scalar> :| Utf8.Text(cs) == s; cs
  }

  ghost function StringItems(s: bytes, asciiOnly: bool): seq<Item>
    requires Utf8.WellFormed(s)
  {
    TextItems(ScalarsOf(s), asciiOnly)
  }

  ghost function TreeOf(v: Value, depth: int, o: Options, l: Layout): Tree
    requires Faithful(v, o.allowNaN)
    decreases v, 1, 0
  {
    match v
    case Null => TNull
    case Bool(b) => TBool(b)
    case Int(n) => TInt(n < 0, Digits(if n < 0 then -n else n))
    case Float(_) => TNull
    case NaN => TNaN
    case Infinity(negative) => TInf(negative)
    case Str(s) => TStr(StringItems(s, o.asciiOnly))
    case Arr(_) =>
      TArr(GapCat(l.arrayNl, ClosingGap(l.arrayNl, o.arrayNl.Some?, l, depth)), ElemsOf(v, 0, depth + 1, o, l))
    case Obj(_) =>
      TObj(ClosingGap(l.objectNl, o.objectNl.Some?, l, depth), MembersOf(v, 0, depth + 1, o, l))
  }

  ghost function ElemsOf(v: Value, i: nat, depth: int, o: Options, l: Layout): Elems
    requires v.Arr? && i <= |v.elems| && Faithful(v, o.allowNaN)
    decreases v, 0, |v.elems| - i
  {
    if i == |v.elems| then ENil
    else
      ECons(LineGap(l.arrayNl, l, depth), TreeOf(v.elems[i], depth, o, l),
            if i + 1 == |v.elems| then ClosingGap(l.arrayNl, o.arrayNl.Some?, l, depth - 1) else End,
            ElemsOf(v, i + 1, depth, o, l))
  }

  ghost function MembersOf(v: Value, i: nat, depth: int, o: Options, l: Layout): Members
    requires v.Obj? && i <= |v.members| && Faithful(v, o.allowNaN)
    decreases v, 0, |v.members| - i
  {
    if i == |v.members| then MNil
    else
      MCons(LineGap(l.objectNl, l, depth), StringItems(v.members[i].key, o.asciiOnly),
            l.spaceBefore, l.space, TreeOf(v.members[i].value, depth, o, l),
            if i + 1 == |v.members| then ClosingGap(l.objectNl, o.objectNl.Some?, l, depth - 1) else End,
            MembersOf(v, i + 1, depth, o, l))
  }

  /** A string: its items are in order, denote it, and are written by StringJson. */
  lemma {:induction false} StringTree(s: bytes, o: Options)
    requires Utf8.WellFormed(s)
    ensures var items := StringItems(s, o.asciiOnly);
            && ItemsOk(items) && Paired(items) && ItemsDenote(items) == s
            && StringJson(s, o) == Ok(StringText(items))
  {
    hide Convert, ConvertAscii, EscapeText, TextItems;
    var cs := ScalarsOf(s);
    AtIsSlice(s, 0, s);
    assert s[0..|s|] == s;
    ConvertText(s, 0, cs);
    TextWrites(cs, o.asciiOnly);
  }

  /** The tree is a tree of the grammar that denotes the value and nests as deeply. */
  predicate Represents(t: Tree, v: Value, allowNaN: bool) {
    && TreeOk(t, allowNaN) && TreePaired(t, allowNaN) && Denotes(t, allowNaN) == v && Depth(t) == ValueDepth(v)
  }

  lemma {:induction false} TreeRepresents(v: Value, depth: int, o: Options, l: Layout)
    requires Faithful(v, o.allowNaN) && LaysOut(l, o)
    ensures Represents(TreeOf(v, depth, o, l), v, o.allowNaN)
    decreases v, 2
  {
    hide Represents, LaysOut, StringItems, Utf8.WellFormed;
    match v
    case Arr(_) => ArrayRepresents(v, depth, o, l);
    case Obj(_) => ObjectRepresents(v, depth, o, l);
    case _ => LeafRepresents(v, depth, o, l);
  }

  lemma {:induction false} LeafRepresents(v: Value, depth: int, o: Options, l: Layout)
    requires Faithful(v, o.allowNaN) && !v.Arr? && !v.Obj?
    ensures Represents(TreeOf(v, depth, o, l), v, o.allowNaN)
  {
    hide ElemsOf, MembersOf, StringItems, Digits, Utf8.WellFormed;
    if v.Int? {
      DigitsDenote(if v.n < 0 then -v.n else v.n);
    } else if v.Str? {
      StringTree(v.s, o);
    }
  }

  lemma {:induction false} ArrayRepresents(v: Value, depth: int, o: Options, l: Layout)
    requires v.Arr? && Faithful(v, o.allowNaN) && LaysOut(l, o)
    ensures Represents(TreeOf(v, depth, o, l), v, o.allowNaN)
    decreases v, 1
  {
    hide ElemsOf, MembersOf, ClosingGap, GapCat, GapText, LaysOut, Faithful;
    ArrayGapOk(o, l, depth);
    ElemsRepresent(v, 0, depth + 1, o, l);
    assert v.elems[0..] == v.elems;
  }

  lemma {:induction false} ObjectRepresents(v: Value, depth: int, o: Options, l: Layout)
    requires v.Obj? && Faithful(v, o.allowNaN) && LaysOut(l, o)
    ensures Represents(TreeOf(v, depth, o, l), v, o.allowNaN)
    decreases v, 1
  {
    hide ElemsOf, MembersOf, ClosingGap, GapCat, GapText, LaysOut, Faithful;
    ObjectGapOk(o, l, depth);
    MembersRepresent(v, 0, depth + 1, o, l);
    assert v.members[..0] == [];
  }

  lemma {:induction false} ArrayGapOk(o: Options, l: Layout, depth: int)
    requires LaysOut(l, o)
    ensures GapOk(GapCat(l.arrayNl, ClosingGap(l.arrayNl, o.arrayNl.Some?, l, depth)))
    ensures GapText(GapCat(l.arrayNl, ClosingGap(l.arrayNl, o.arrayNl.Some?, l, depth)))
         == OrEmpty(o.arrayNl) + Closing(o.arrayNl, o, depth)
  {
    ClosingGapText(l.arrayNl, o.arrayNl, l, o, depth);
    GapCatText(l.arrayNl, ClosingGap(l.arrayNl, o.arrayNl.Some?, l, depth));
  }

  lemma {:induction false} ObjectGapOk(o: Options, l: Layout, depth: int)
    requires LaysOut(l, o)
    ensures GapOk(ClosingGap(l.objectNl, o.objectNl.Some?, l, depth))
    ensures GapText(ClosingGap(l.objectNl, o.objectNl.Some?, l, depth)) == Closing(o.objectNl, o, depth)
  {
    ClosingGapText(l.objectNl, o.objectNl, l, o, depth);
  }

  lemma {:induction false} ElemsRepresent(v: Value, i: nat, depth: int, o: Options, l: Layout)
    requires v.Arr? && i <= |v.elems| && Faithful(v, o.allowNaN) && LaysOut(l, o)
    ensures var es := ElemsOf(v, i, depth, o, l);
            && ElemsOk(es, o.allowNaN) && ElemsPaired(es, o.allowNaN)
            && ElemsDenote(es, o.allowNaN) == v.elems[i..] && ElemsDepth(es) == ElemsValueDepth(v, i)
    decreases v, 0, |v.elems| - i
  {
    hide TreeOf, ValueDepth, ClosingGap, LineGap, GapText, Denotes, TreeOk, TreePaired, Depth;
    if i < |v.elems| {
      TreeRepresents(v.elems[i], depth, o, l);
      ElemsRepresent(v, i + 1, depth, o, l);
      LineGapText(l.arrayNl, l, o, depth);
      ClosingGapText(l.arrayNl, o.arrayNl, l, o, depth - 1);
      assert v.elems[i..] == [v.elems[i]] + v.elems[i + 1..];
    }
  }

  lemma {:induction false} PrefixLacksNext(members: seq<Member>, i: nat)
    requires DistinctKeys(members) && i < |members|
    ensures !HasKey(members[..i], members[i].key)
    ensures Put(members[..i], members[i].key, members[i].value) == members[..i + 1]
  {
    assert !HasKey(members[..i], members[i].key);
    PutNew(members[..i], members[i].key, members[i].value);
    assert members[..i + 1] == members[..i] + [members[i]];
  }

  lemma {:induction false} MembersRepresent(v: Value, i: nat, depth: int, o: Options, l: Layout)
    requires v.Obj? && i <= |v.members| && Faithful(v, o.allowNaN) && LaysOut(l, o)
    ensures var ms := MembersOf(v, i, depth, o, l);
            && MembersOk(ms, o.allowNaN) && MembersPaired(ms, o.allowNaN)
            && MembersDenote(ms, v.members[..i], o.allowNaN) == v.members && MembersDepth(ms) == MembersValueDepth(v, i)
    decreases v, 0, |v.members| - i
  {
    hide TreeOf, ValueDepth, ClosingGap, LineGap, GapText, Denotes, TreeOk, TreePaired, Depth, StringItems, Put,
         Paired, ItemsDenote, Utf8.WellFormed;
    if i < |v.members| {
      TreeRepresents(v.members[i].value, depth, o, l);
      MembersRepresent(v, i + 1, depth, o, l);
      StringTree(v.members[i].key, o);
      PrefixLacksNext(v.members, i);
      LineGapText(l.objectNl, l, o, depth);
      ClosingGapText(l.objectNl, o.objectNl, l, o, depth - 1);
    } else {
      assert v.members[..i] == v.members;
    }
  }

  // ---------------------------------------------------------------- the generated text is the text of the tree

  lemma {:induction false} GeneratedIsText(v: Value, depth: int, o: Options, l: Layout)
    requires Faithful(v, o.allowNaN) && LaysOut(l, o) && Generated(v, depth, o).Ok?
    ensures Generated(v, depth, o).value == Text(TreeOf(v, depth, o, l))
    decreases v, 1, 0
  {
    match v
    case Arr(_) => ArrayIsText(v, depth, o, l);
    case Obj(_) => ObjectIsText(v, depth, o, l);
    case Str(s) =>
      hide StringJson, StringText, StringItems, Utf8.WellFormed;
      StringTree(s, o);
    case Int(n) =>
      assert [] + Digits(if n < 0 then -n else n) == Digits(if n < 0 then -n else n);
    case _ =>
  }

  lemma {:induction false} ArrayIsText(v: Value, depth: int, o: Options, l: Layout)
    requires v.Arr? && Faithful(v, o.allowNaN) && LaysOut(l, o) && Generated(v, depth, o).Ok?
    ensures Generated(v, depth, o).value == Text(TreeOf(v, depth, o, l))
    decreases v, 0, |v.elems| + 1
  {
    hide LaysOut, Faithful, GeneratedElems, Closing, ClosingGap, GapCat, GapText, ElemsText, ElemsOf;
    var n := |v.elems|;
    ArrayGapOk(o, l, depth);
    NoElems(v, depth + 1, o);
    ElemsOfEnds(v, 0, depth + 1, o, l);
    var nl, closing := OrEmpty(o.arrayNl), Closing(o.arrayNl, o, depth);
    if n == 0 {
      assert nl + [] + closing == nl + closing;
    } else {
      ElemsJoin(v, 0, depth + 1, o, l);
      var text := ElemsText(ElemsOf(v, 0, depth + 1, o, l));
      assert [] + text == text;
    }
  }

  lemma {:induction false} ElemsOfEnds(v: Value, i: nat, depth: int, o: Options, l: Layout)
    requires v.Arr? && i <= |v.elems| && Faithful(v, o.allowNaN)
    ensures ElemsOf(v, i, depth, o, l).ENil? <==> i == |v.elems|
  {
  }

  lemma {:induction false} ElemsPrefix(v: Value, i: nat, n: nat, d: int, o: Options)
    requires v.Arr? && i <= n <= |v.elems| && GeneratedElems(v, n, d, o).Ok?
    ensures GeneratedElems(v, i, d, o).Ok?
  {
    if GeneratedElems(v, i, d, o).Err? {
      ElemsStayFailed(v, i, n, d, o);
    }
  }

  /** What stands before the text of the elements from `i` on. */
  function ElemsBefore(v: Value, i: nat, d: int, o: Options): bytes
    requires v.Arr? && i <= |v.elems| && GeneratedElems(v, i, d, o).Ok?
  {
    if i == 0 then [] else OrEmpty(o.arrayNl) + GeneratedElems(v, i, d, o).value + [COMMA]
  }

  lemma {:induction false} ElemJoins(
    first: bool, nl: bytes, p: bytes, ind: bytes, t: bytes, tail: bytes, before: bytes, text: bytes, p': bytes)
    requires first ==> p == []
    requires before == if first then [] else nl + p + [COMMA]
    requires text == (nl + ind) + (t + tail)
    requires p' == p + ((if first then [] else [COMMA] + nl) + ind + t)
    ensures before + text == nl + p' + tail
  {
  }

  /** Element after element, the generated text is what the grammar writes. */
  lemma {:induction false} ElemsJoin(v: Value, i: nat, d: int, o: Options, l: Layout)
    requires v.Arr? && i < |v.elems| && Faithful(v, o.allowNaN) && LaysOut(l, o)
    requires GeneratedElems(v, |v.elems|, d, o).Ok?
    ensures GeneratedElems(v, i, d, o).Ok? && ElemsOf(v, i, d, o, l).ECons?
    ensures ElemsBefore(v, i, d, o) + ElemsText(ElemsOf(v, i, d, o, l))
         == OrEmpty(o.arrayNl) + GeneratedElems(v, |v.elems|, d, o).value + Closing(o.arrayNl, o, d - 1)
    decreases v, 0, |v.elems| - i
  {
    hide LaysOut, Faithful, GeneratedElems, Generated, Closing, ClosingGap, LineGap, TreeOf, Text, ElemsOf,
         IndentText;
    var n := |v.elems|;
    ElemsPrefix(v, i, n, d, o);
    ElemsPrefix(v, i + 1, n, d, o);
    NextElem(v, i, d, o);
    NoElems(v, d, o);
    FaithfulElem(v, i, o.allowNaN);
    GeneratedIsText(v.elems[i], d, o, l);
    ElemsTextOf(v, i, d, o, l);
    var nl, ind, t := OrEmpty(o.arrayNl), IndentText(o, d), Text(TreeOf(v.elems[i], d, o, l));
    var closing := Closing(o.arrayNl, o, d - 1);
    var p, p' := GeneratedElems(v, i, d, o).value, GeneratedElems(v, i + 1, d, o).value;
    var before, text := ElemsBefore(v, i, d, o), ElemsText(ElemsOf(v, i, d, o, l));
    if i + 1 == n {
      ElemJoins(i == 0, nl, p, ind, t, closing, before, text, p');
    } else {
      ElemsJoin(v, i + 1, d, o, l);
      var more := ElemsText(ElemsOf(v, i + 1, d, o, l));
      ElemJoins(i == 0, nl, p, ind, t, [COMMA] + more, before, text, p');
      CommaMoves(nl + p', more);
    }
  }

  lemma {:induction false} FaithfulElem(v: Value, i: nat, allowNaN: bool)
    requires v.Arr? && i < |v.elems| && Faithful(v, allowNaN)
    ensures Faithful(v.elems[i], allowNaN)
  {
  }

  /** The text of the elements from `i` on, one element taken apart. */
  lemma {:induction false} ElemsTextOf(v: Value, i: nat, d: int, o: Options, l: Layout)
    requires v.Arr? && i < |v.elems| && Faithful(v, o.allowNaN) && LaysOut(l, o)
    ensures ElemsOf(v, i, d, o, l).ECons?
    ensures i + 1 < |v.elems| ==> ElemsOf(v, i + 1, d, o, l).ECons?
    ensures ElemsText(ElemsOf(v, i, d, o, l))
         == (OrEmpty(o.arrayNl) + IndentText(o, d))
            + (Text(TreeOf(v.elems[i], d, o, l))
               + (if i + 1 == |v.elems| then Closing(o.arrayNl, o, d - 1)
                  else [COMMA] + ElemsText(ElemsOf(v, i + 1, d, o, l))))
  {
    hide Closing, ClosingGap, LineGap, TreeOf, Text, IndentText, GapText, ElemsText;
    var es := ElemsOf(v, i, d, o, l);
    ElemsOfEnds(v, i, d, o, l);
    ElemsOfEnds(v, i + 1, d, o, l);
    LineGapText(l.arrayNl, l, o, d);
    ClosingGapText(l.arrayNl, o.arrayNl, l, o, d - 1);
    GapTextEnd();
    ElemsTextIs(es);
    var closing := Closing(o.arrayNl, o, d - 1);
    assert closing + [] == closing;
    if i + 1 < |v.elems| {
      var more := [COMMA] + ElemsText(es.rest);
      assert [] + more == more;
    }
  }

  lemma {:induction false} GapTextEnd()
    ensures GapText(End) == []
  {
  }

  lemma {:induction false} ElemsTextIs(es: Elems)
    requires es.ECons?
    ensures ElemsText(es)
         == GapText(es.pre)
            + (Text(es.t) + (GapText(es.post) + if es.rest.ENil? then [] else [COMMA] + ElemsText(es.rest)))
  {
    assert MoreElems(es.rest) == if es.rest.ENil? then [] else [COMMA] + ElemsText(es.rest);
    assert ElemTail(es) == Text(es.t) + (GapText(es.post) + MoreElems(es.rest));
  }

  lemma {:induction false} ObjectIsText(v: Value, depth: int, o: Options, l: Layout)
    requires v.Obj? && Faithful(v, o.allowNaN) && LaysOut(l, o) && Generated(v, depth, o).Ok?
    ensures Generated(v, depth, o).value == Text(TreeOf(v, depth, o, l))
    decreases v, 0, |v.members| + 1
  {
    hide LaysOut, Faithful, GeneratedMembers, Closing, ClosingGap, GapText, MembersText, MembersOf;
    var n := |v.members|;
    ObjectGapOk(o, l, depth);
    NoMembers(v, depth + 1, o);
    MembersOfEnds(v, 0, depth + 1, o, l);
    var closing := Closing(o.objectNl, o, depth);
    if n == 0 {
      assert [] + closing == closing;
    } else {
      MembersJoin(v, 0, depth + 1, o, l);
      var text := MembersText(MembersOf(v, 0, depth + 1, o, l));
      assert [] + text == text;
    }
  }

  lemma {:induction false} MembersOfEnds(v: Value, i: nat, depth: int, o: Options, l: Layout)
    requires v.Obj? && i <= |v.members| && Faithful(v, o.allowNaN)
    ensures MembersOf(v, i, depth, o, l).MNil? <==> i == |v.members|
  {
  }

  lemma {:induction false} MembersPrefix(v: Value, i: nat, n: nat, d: int, o: Options)
    requires v.Obj? && i <= n <= |v.members| && GeneratedMembers(v, n, d, o).Ok?
    ensures GeneratedMembers(v, i, d, o).Ok?
  {
    if GeneratedMembers(v, i, d, o).Err? {
      MembersStayFailed(v, i, n, d, o);
    }
  }

  /** What stands before the text of the members from `i` on. */
  function MembersBefore(v: Value, i: nat, d: int, o: Options): bytes
    requires v.Obj? && i <= |v.members| && GeneratedMembers(v, i, d, o).Ok?
  {
    if i == 0 then [] else GeneratedMembers(v, i, d, o).value + [COMMA]
  }

  lemma {:induction false} MemberJoins(
    first: bool, p: bytes, nl: bytes, ind: bytes, key: bytes, sb: bytes, sp: bytes, t: bytes, tail: bytes,
    before: bytes, text: bytes, p': bytes)
    requires first ==> p == []
    requires before == if first then [] else p + [COMMA]
    requires text == (nl + ind) + (key + (sb + ([COLON] + (sp + (t + tail)))))
    requires p' == p + ((if first then [] else [COMMA]) + nl + ind + key + (sb + ([COLON] + sp)) + t)
    ensures before + text == p' + tail
  {
  }

  lemma {:induction false} CommaMoves(a: bytes, more: bytes)
    ensures a + ([COMMA] + more) == a + [COMMA] + more
  {
  }

  lemma {:induction false} FaithfulMember(v: Value, i: nat, allowNaN: bool)
    requires v.Obj? && i < |v.members| && Faithful(v, allowNaN)
    ensures Faithful(v.members[i].value, allowNaN) && Utf8.WellFormed(v.members[i].key)
  {
  }

  /** Member after member, the generated text is what the grammar writes. */
  lemma {:induction false} MembersJoin(v: Value, i: nat, d: int, o: Options, l: Layout)
    requires v.Obj? && i < |v.members| && Faithful(v, o.allowNaN) && LaysOut(l, o)
    requires GeneratedMembers(v, |v.members|, d, o).Ok?
    ensures GeneratedMembers(v, i, d, o).Ok? && MembersOf(v, i, d, o, l).MCons?
    ensures MembersBefore(v, i, d, o) + MembersText(MembersOf(v, i, d, o, l))
         == GeneratedMembers(v, |v.members|, d, o).value + Closing(o.objectNl, o, d - 1)
    decreases v, 0, |v.members| - i
  {
    hide LaysOut, Faithful, GeneratedMembers, Generated, Closing, TreeOf, Text, MembersOf, MembersText, IndentText,
         StringJson, StringText, StringItems, Utf8.WellFormed, Before;
    var n := |v.members|;
    MembersPrefix(v, i, n, d, o);
    MembersPrefix(v, i + 1, n, d, o);
    NextMember(v, i, d, o);
    NoMembers(v, d, o);
    FaithfulMember(v, i, o.allowNaN);
    StringTree(v.members[i].key, o);
    MemberJsonIs(v, i, d, o);
    GeneratedIsText(v.members[i].value, d, o, l);
    MembersTextOf(v, i, d, o, l);
    var nl, ind, t := OrEmpty(o.objectNl), IndentText(o, d), Text(TreeOf(v.members[i].value, d, o, l));
    var key := StringText(StringItems(v.members[i].key, o.asciiOnly));
    var sb, sp := OrEmpty(o.spaceBefore), OrEmpty(o.space);
    var p, p' := GeneratedMembers(v, i, d, o).value, GeneratedMembers(v, i + 1, d, o).value;
    var before, text := MembersBefore(v, i, d, o), MembersText(MembersOf(v, i, d, o, l));
    if i + 1 == n {
      MemberJoins(i == 0, p, nl, ind, key, sb, sp, t, Closing(o.objectNl, o, d - 1), before, text, p');
    } else {
      MembersJoin(v, i + 1, d, o, l);
      var more := MembersText(MembersOf(v, i + 1, d, o, l));
      MemberJoins(i == 0, p, nl, ind, key, sb, sp, t, [COMMA] + more, before, text, p');
      CommaMoves(p', more);
    }
  }

  lemma {:induction false} MemberJsonIs(v: Value, i: nat, d: int, o: Options)
    requires v.Obj? && i < |v.members| && StringJson(v.members[i].key, o).Ok?
    ensures var e := Generated(v.members[i].value, d, o);
            MemberJson(v, i, d, o)
            == if e.Err? then e
               else Ok((if i == 0 then [] else [COMMA]) + OrEmpty(o.objectNl) + IndentText(o, d)
                       + StringJson(v.members[i].key, o).value + (OrEmpty(o.spaceBefore) + ([COLON] + OrEmpty(o.space)))
                       + e.value)
  {
    hide Generated, StringJson, IndentText;
  }

  /** The text of the members from `i` on, one member taken apart. */
  lemma {:induction false} MembersTextOf(v: Value, i: nat, d: int, o: Options, l: Layout)
    requires v.Obj? && i < |v.members| && Faithful(v, o.allowNaN) && LaysOut(l, o)
    ensures Utf8.WellFormed(v.members[i].key)
    ensures MembersOf(v, i, d, o, l).MCons?
    ensures i + 1 < |v.members| ==> MembersOf(v, i + 1, d, o, l).MCons?
    ensures MembersText(MembersOf(v, i, d, o, l))
         == (OrEmpty(o.objectNl) + IndentText(o, d))
            + (StringText(StringItems(v.members[i].key, o.asciiOnly))
               + (OrEmpty(o.spaceBefore) + ([COLON] + (OrEmpty(o.space)
                  + (Text(TreeOf(v.members[i].value, d, o, l))
                     + (if i + 1 == |v.members| then Closing(o.objectNl, o, d - 1)
                        else [COMMA] + MembersText(MembersOf(v, i + 1, d, o, l))))))))
  {
    hide Closing, ClosingGap, LineGap, TreeOf, Text, IndentText, GapText, MembersText, StringText, StringItems,
         Utf8.WellFormed;
    var ms := MembersOf(v, i, d, o, l);
    MembersOfEnds(v, i, d, o, l);
    MembersOfEnds(v, i + 1, d, o, l);
    LineGapText(l.objectNl, l, o, d);
    ClosingGapText(l.objectNl, o.objectNl, l, o, d - 1);
    GapTextEnd();
    MembersTextIs(ms);
    var closing := Closing(o.objectNl, o, d - 1);
    assert closing + [] == closing;
    if i + 1 < |v.members| {
      var more := [COMMA] + MembersText(ms.rest);
      assert [] + more == more;
    }
  }

  lemma {:induction false} MembersTextIs(ms: Members)
    requires ms.MCons?
    ensures MembersText(ms)
         == GapText(ms.pre)
            + (StringText(ms.key) + (GapText(ms.mid) + ([COLON] + (GapText(ms.pre2)
               + (Text(ms.t) + (GapText(ms.post) + if ms.rest.MNil? then [] else [COMMA] + MembersText(ms.rest)))))))
  {
    hide StringText, Text, GapText;
    assert MoreMembers(ms.rest) == if ms.rest.MNil? then [] else [COMMA] + MembersText(ms.rest);
    assert MemberEnd(ms) == Text(ms.t) + (GapText(ms.post) + MoreMembers(ms.rest));
    assert MemberTail(ms) == StringText(ms.key) + (GapText(ms.mid) + ([COLON] + (GapText(ms.pre2) + MemberEnd(ms))));
  }

  // ---------------------------------------------------------------- the round trip

  ghost predicate IgnorableOptions(o: Options) {
    && Ignorable(OrEmpty(o.indent)) && Ignorable(OrEmpty(o.space)) && Ignorable(OrEmpty(o.spaceBefore))
    && Ignorable(OrEmpty(o.objectNl)) && Ignorable(OrEmpty(o.arrayNl))
  }

  /** In particular every text of whitespace is ignorable. */
  lemma {:induction false} WhitespaceIsIgnorable(s: bytes)
    requires forall i :: 0 <= i < |s| ==> IsWs(s[i])
    ensures Ignorable(s)
  {
    if s == [] {
      assert GapOk(End) && GapText(End) == s;
    } else {
      WhitespaceIsIgnorable(s[1..]);
      var g :| GapOk(g) && GapText(g) == s[1..];
      assert s == [s[0]] + s[1..];
      assert GapOk(Ws(s[0], g)) && GapText(Ws(s[0], g)) == s;
    }
  }

  /** An integer as printed is read by the integer machine to its end, as the same integer. */
  lemma {:induction false} PrintedInteger(n: int)
    ensures var s := Signed(n); IntEnd(s, 0) == Some(|s|) && IntAt(s, 0) == n
  {
    var s, d := Signed(n), Digits(if n < 0 then -n else n);
    DigitsDenote(if n < 0 then -n else n);
    var neg := n < 0;
    assert s[SignLen(neg)..SignLen(neg) + |d|] == d;
    AtIsSlice(s, SignLen(neg), d);
    IntPartComplete(s, 0, neg, d);
  }

  lemma {:induction false} FaithfulIsWritable(v: Value, allowNaN: bool)
    requires Faithful(v, allowNaN)
    ensures Writable(v, allowNaN)
    decreases v
  {
    hide Convert;
    match v
    case Str(s) => StringRoundTrip(s);
    case Arr(elems) =>
      forall i | 0 <= i < |elems| ensures Writable(elems[i], allowNaN) {
        FaithfulIsWritable(elems[i], allowNaN);
      }
    case Obj(members) =>
      forall i | 0 <= i < |members|
        ensures Convert(members[i].key, 0).Ok? && Writable(members[i].value, allowNaN)
      {
        StringRoundTrip(members[i].key);
        FaithfulIsWritable(members[i].value, allowNaN);
      }
    case _ =>
  }

  /**
   The round trip. For every value without floats, with well-formed strings and
   distinct names, at every starting depth and for every choice of formatting
   options that are ignorable text (whitespace and comments): generation
   succeeds exactly when the nesting fits, and parsing the text gives the value
   back, or the nesting error exactly when it is too deep for the parser.
   */
  lemma {:induction false} RoundTrip(v: Value, depth: nat, o: Options, cfg: Config)
    requires Faithful(v, o.allowNaN) && IgnorableOptions(o) && (o.allowNaN ==> cfg.allowNaN)
    ensures Generated(v, depth, o).Ok? <==> Fits(ValueDepth(v), depth, o.maxNesting)
    ensures Generated(v, depth, o).Err? ==> Generated(v, depth, o) == Err(TooNested)
    ensures Generated(v, depth, o).Ok? ==>
              Parse(Generated(v, depth, o).value, cfg)
              == if Fits(ValueDepth(v), 0, cfg.maxNesting) then Ok(v) else Err(NestingError)
  {
    hide Writable, Generated, Parse, Text, TreeOf, Denotes, TreePaired, GapText, Convert, ValueDepth, Depth, Fits;
    FaithfulIsWritable(v, o.allowNaN);
    GenerateSucceeds(v, depth, o);
    if Generated(v, depth, o).Ok? {
      var l := LayoutFor(o);
      var t := TreeOf(v, depth, o, l);
      TreeRepresents(v, depth, o, l);
      GeneratedIsText(v, depth, o, l);
      AllowMore(t, o.allowNaN, cfg.allowNaN);
      ParseComplete(End, t, End, cfg);
      GapTextEnd();
      assert GapText(End) + Text(t) + GapText(End) == Text(t);
    }
  }

  lemma {:induction false} LayoutFor(o: Options) returns (l: Layout)
    requires IgnorableOptions(o)
    ensures LaysOut(l, o)
  {
    hide GapOk, GapText;
    var a :| GapOk(a) && GapText(a) == OrEmpty(o.indent);
    var b :| GapOk(b) && GapText(b) == OrEmpty(o.space);
    var c :| GapOk(c) && GapText(c) == OrEmpty(o.spaceBefore);
    var d :| GapOk(d) && GapText(d) == OrEmpty(o.objectNl);
    var e :| GapOk(e) && GapText(e) == OrEmpty(o.arrayNl);
    l := Layout(a, b, c, d, e);
  }

  /** A parser that allows more accepts the same trees with the same meaning. */
  lemma {:induction false} AllowMore(t: Tree, a: bool, b: bool)
    requires (a ==> b) && TreeOk(t, a) && TreePaired(t, a)
    ensures TreeOk(t, b) && TreePaired(t, b) && Denotes(t, b) == Denotes(t, a)
    decreases t
  {
    match t
    case TArr(_, es) => AllowMoreElems(es, a, b);
    case TObj(_, ms) => AllowMoreMembers(ms, [], a, b);
    case _ =>
  }

  lemma {:induction false} AllowMoreElems(es: Elems, a: bool, b: bool)
    requires (a ==> b) && ElemsOk(es, a) && ElemsPaired(es, a)
    ensures ElemsOk(es, b) && ElemsPaired(es, b) && ElemsDenote(es, b) == ElemsDenote(es, a)
    decreases es
  {
    hide TreeOk, TreePaired, Denotes;
    if es.ECons? {
      AllowMore(es.t, a, b);
      AllowMoreElems(es.rest, a, b);
    }
  }

  lemma {:induction false} AllowMoreMembers(ms: Members, acc: seq<Member>, a: bool, b: bool)
    requires (a ==> b) && MembersOk(ms, a) && MembersPaired(ms, a)
    ensures MembersOk(ms, b) && MembersPaired(ms, b) && MembersDenote(ms, acc, b) == MembersDenote(ms, acc, a)
    decreases ms
  {
    hide TreeOk, TreePaired, Denotes, Put;
    if ms.MCons? {
      AllowMore(ms.t, a, b);
      AllowMoreMembers(ms.rest, Put(acc, ItemsDenote(ms.key), Denotes(ms.t, a)), a, b);
    }
  }
}
