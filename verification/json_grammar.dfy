/**
 The JSON grammar as concrete syntax trees: what a text looks like (`Text`),
 what it denotes (`Denotes`), and how deeply it nests (`Depth`). The grammar is
 that of RFC 7159 (sections 2 to 7) with the three extensions of the parser:
 comments count as ignorable text, a backslash may stand before any byte that
 is not a control character, and NaN and the infinities are values when allowed.
 */
module JsonGrammar {
  import opened Bytes
  import opened JsonValue
  import Utf8
  import opened JsonNames

  // ---------------------------------------------------------------- ignorable text

  /** Whitespace, block comments and line comments, in order. */
  datatype Gap =
    | End
    | Ws(b: byte, rest: Gap)
    | Block(body: bytes, rest: Gap)
    | Line(body: bytes, rest: Gap)

  /** No "*" followed by "/" inside a block comment. */
  predicate NoClose(body: bytes) {
    forall i :: 0 <= i < |body| - 1 ==> !(body[i] == STAR && body[i + 1] == SLASH)
  }

  predicate NoNewline(body: bytes) {
    forall i :: 0 <= i < |body| ==> body[i] != NEWLINE
  }

  predicate GapOk(g: Gap) {
    match g
    case End => true
    case Ws(b, rest) => IsWs(b) && GapOk(rest)
    case Block(body, rest) => NoClose(body) && GapOk(rest)
    case Line(body, rest) => NoNewline(body) && GapOk(rest)
  }

  function GapText(g: Gap): bytes {
    match g
    case End => []
    case Ws(b, rest) => [b] + GapText(rest)
    case Block(body, rest) => [SLASH, STAR] + (body + ([STAR, SLASH] + GapText(rest)))
    case Line(body, rest) => [SLASH, SLASH] + (body + ([NEWLINE] + GapText(rest)))
  }

  ghost predicate Ignorable(s: bytes) {
    exists g :: GapOk(g) && GapText(g) == s
  }

  // ---------------------------------------------------------------- strings

  datatype Item = Plain(b: byte) | Esc(b: byte) | Uni(hex: bytes)

  predicate ItemOk(i: Item) {
    match i
    case Plain(b) => b >= SPACE && b != QUOTE && b != BACKSLASH
    case Esc(b) => b >= SPACE && b != LETTER_U
    case Uni(hex) => |hex| == 4 && forall k :: 0 <= k < 4 ==> IsHex(hex[k])
  }

  predicate ItemsOk(items: seq<Item>) {
    forall i :: 0 <= i < |items| ==> ItemOk(items[i])
  }

  function ItemText(i: Item): (s: bytes)
    ensures |s| >= 1
  {
    match i
    case Plain(b) => [b]
    case Esc(b) => [BACKSLASH, b]
    case Uni(hex) => [BACKSLASH, LETTER_U] + hex
  }

  function ItemsText(items: seq<Item>): bytes {
    if items == [] then [] else ItemText(items[0]) + ItemsText(items[1..])
  }

  function HexDigit(b: byte): (d: nat)
    requires IsHex(b)
    ensures d < 16
  {
    if b <= 57 then b - 48 else if b <= 70 then b - 55 else b - 87
  }

  /** The UTF-16 code unit that four hex digits denote. */
  function CodeUnit(hex: bytes): (u: nat)
    requires ItemOk(Uni(hex))
    ensures u <= 0xFFFF
  {
    HexDigit(hex[0]) * 4096 + HexDigit(hex[1]) * 256 + HexDigit(hex[2]) * 16 + HexDigit(hex[3])
  }

  predicate IsHigh(u: int) {
    0xD800 <= u <= 0xDBFF
  }

  predicate IsLow(u: int) {
    0xDC00 <= u <= 0xDFFF
  }

  predicate StartsPair(items: seq<Item>)
    requires ItemsOk(items)
  {
    && |items| >= 2 && items[0].Uni? && items[1].Uni?
    && IsHigh(CodeUnit(items[0].hex)) && IsLow(CodeUnit(items[1].hex))
  }

  /** An item that stands for itself, without a partner. */
  predicate Single(i: Item)
    requires ItemOk(i)
  {
    i.Uni? ==> !IsHigh(CodeUnit(i.hex)) && !IsLow(CodeUnit(i.hex))
  }

  /** Every high surrogate is directly followed by a low one, and no low one stands alone. */
  predicate Paired(items: seq<Item>)
    requires ItemsOk(items)
  {
    if items == [] then true
    else if StartsPair(items) then Paired(items[2..])
    else
      Single(items[0]) && Paired(items[1..])
  }

  /** The scalar value of a surrogate pair (RFC 2781, section 2.2). */
  function FromPair(high: int, low: int): Utf8.Scalar
    requires IsHigh(high) && IsLow(low)
  {
    (high - 0xD800) * 0x400 + (low - 0xDC00) + 0x10000
  }

  function EscapedByte(b: byte): byte {
    if b == LETTER_N then NEWLINE
    else if b == LETTER_R then RETURN
    else if b == LETTER_T then TAB
    else if b == LETTER_B then BACKSPACE
    else if b == LETTER_F then FORM_FEED
    else b
  }

  function ItemDenotes(i: Item): bytes
    requires ItemOk(i) && Single(i)
  {
    match i
    case Plain(b) => [b]
    case Esc(b) => [EscapedByte(b)]
    case Uni(hex) => Utf8.Encode(CodeUnit(hex))
  }

  function ItemsDenote(items: seq<Item>): bytes
    requires ItemsOk(items) && Paired(items)
  {
    if items == [] then []
    else if StartsPair(items) then
      Utf8.Encode(FromPair(CodeUnit(items[0].hex), CodeUnit(items[1].hex))) + ItemsDenote(items[2..])
    else
      ItemDenotes(items[0]) + ItemsDenote(items[1..])
  }

  // ---------------------------------------------------------------- values

  datatype Exponent = NoExp | Exp(e: byte, sign: bytes, digits: bytes)

  datatype Tree =
    | TNull
    | TBool(b: bool)
    | TNaN
    | TInf(negative: bool)
    | TInt(negative: bool, digits: bytes)
    | TFloat(negative: bool, digits: bytes, frac: bytes, exp: Exponent)
    | TStr(items: seq<Item>)
    | TArr(gap: Gap, elems: Elems)
    | TObj(gap: Gap, members: Members)

  /** The gap of a bracketed form is only written when the form is empty. */
  datatype Elems =
    | ENil
    | ECons(pre: Gap, t: Tree, post: Gap, rest: Elems)

  datatype Members =
    | MNil
    | MCons(pre: Gap, key: seq<Item>, mid: Gap, pre2: Gap, t: Tree, post: Gap, rest: Members)

  /** "0" or digits that do not begin with "0". */
  predicate IntDigits(d: bytes) {
    && d != [] && AllDigits(d)
    && (|d| > 1 ==> d[0] != ZERO)
  }

  predicate ExponentOk(x: Exponent) {
    match x
    case NoExp => true
    case Exp(e, sign, digits) =>
      && (e == CAPITAL_E || e == LETTER_E)
      && (sign == [] || sign == [PLUS] || sign == [MINUS])
      && digits != [] && AllDigits(digits)
  }

  predicate TreeOk(t: Tree, allowNaN: bool) {
    match t
    case TNull => true
    case TBool(_) => true
    case TNaN => allowNaN
    case TInf(_) => allowNaN
    case TInt(_, digits) => IntDigits(digits)
    case TFloat(_, digits, frac, exp) =>
      IntDigits(digits) && AllDigits(frac) && ExponentOk(exp) && (frac != [] || exp.Exp?)
    case TStr(items) => ItemsOk(items)
    case TArr(gap, elems) => GapOk(gap) && ElemsOk(elems, allowNaN)
    case TObj(gap, members) => GapOk(gap) && MembersOk(members, allowNaN)
  }

  predicate ElemsOk(es: Elems, allowNaN: bool) {
    match es
    case ENil => true
    case ECons(pre, t, post, rest) =>
      GapOk(pre) && TreeOk(t, allowNaN) && GapOk(post) && ElemsOk(rest, allowNaN)
  }

  predicate MembersOk(ms: Members, allowNaN: bool) {
    match ms
    case MNil => true
    case MCons(pre, key, mid, pre2, t, post, rest) =>
      && GapOk(pre) && ItemsOk(key) && GapOk(mid) && GapOk(pre2)
      && TreeOk(t, allowNaN) && GapOk(post) && MembersOk(rest, allowNaN)
  }

  function Sign(negative: bool): bytes {
    if negative then [MINUS] else []
  }

  function ExponentText(x: Exponent): bytes {
    match x
    case NoExp => []
    case Exp(e, sign, digits) => [e] + (sign + digits)
  }

  function FracText(frac: bytes): bytes {
    if frac == [] then [] else [DOT] + frac
  }

  function StringText(items: seq<Item>): bytes {
    [QUOTE] + (ItemsText(items) + [QUOTE])
  }

  function Text(t: Tree): bytes {
    match t
    case TNull => NULL_NAME
    case TBool(b) => if b then TRUE_NAME else FALSE_NAME
    case TNaN => NAN_NAME
    case TInf(negative) => Sign(negative) + INFINITY_NAME
    case TInt(negative, digits) => Sign(negative) + digits
    case TFloat(negative, digits, frac, exp) =>
      Sign(negative) + (digits + (FracText(frac) + ExponentText(exp)))
    case TStr(items) => StringText(items)
    case TArr(gap, elems) =>
      [OPEN_BRACKET] + ((if elems.ENil? then GapText(gap) else ElemsText(elems)) + [CLOSE_BRACKET])
    case TObj(gap, members) =>
      [OPEN_BRACE] + ((if members.MNil? then GapText(gap) else MembersText(members)) + [CLOSE_BRACE])
  }

  function ElemsText(es: Elems): bytes
    requires es.ECons?
    decreases es, 1
  {
    GapText(es.pre) + ElemTail(es)
  }

  /** An element behind its leading gap, and the elements that follow it. */
  function ElemTail(es: Elems): bytes
    requires es.ECons?
    decreases es, 0
  {
    Text(es.t) + (GapText(es.post) + MoreElems(es.rest))
  }

  function MoreElems(es: Elems): bytes
    decreases es, 2
  {
    if es.ENil? then [] else [COMMA] + ElemsText(es)
  }

  function MembersText(ms: Members): bytes
    requires ms.MCons?
    decreases ms, 3
  {
    GapText(ms.pre) + MemberTail(ms)
  }

  /** A member behind its leading gap, and the members that follow it. */
  function MemberTail(ms: Members): bytes
    requires ms.MCons?
    decreases ms, 2
  {
    StringText(ms.key) + (GapText(ms.mid) + ([COLON] + (GapText(ms.pre2) + MemberEnd(ms))))
  }

  /** The value of a member, and the members that follow it. */
  function MemberEnd(ms: Members): bytes
    requires ms.MCons?
    decreases ms, 1
  {
    Text(ms.t) + (GapText(ms.post) + MoreMembers(ms.rest))
  }

  function MoreMembers(ms: Members): bytes
    decreases ms, 4
  {
    if ms.MNil? then [] else [COMMA] + MembersText(ms)
  }

  /** All surrogates in all strings of the tree are paired. */
  predicate TreePaired(t: Tree, allowNaN: bool)
    requires TreeOk(t, allowNaN)
  {
    match t
    case TStr(items) => Paired(items)
    case TArr(_, elems) => ElemsPaired(elems, allowNaN)
    case TObj(_, members) => MembersPaired(members, allowNaN)
    case _ => true
  }

  predicate ElemsPaired(es: Elems, allowNaN: bool)
    requires ElemsOk(es, allowNaN)
  {
    match es
    case ENil => true
    case ECons(_, t, _, rest) => TreePaired(t, allowNaN) && ElemsPaired(rest, allowNaN)
  }

  predicate MembersPaired(ms: Members, allowNaN: bool)
    requires MembersOk(ms, allowNaN)
  {
    match ms
    case MNil => true
    case MCons(_, key, _, _, t, _, rest) =>
      Paired(key) && TreePaired(t, allowNaN) && MembersPaired(rest, allowNaN)
  }

  /** The value that a tree denotes. */
  function Denotes(t: Tree, allowNaN: bool): Value
    requires TreeOk(t, allowNaN) && TreePaired(t, allowNaN)
  {
    match t
    case TNull => Null
    case TBool(b) => Bool(b)
    case TNaN => NaN
    case TInf(negative) => Infinity(negative)
    case TInt(negative, digits) => Int(SignedValue(negative, digits))
    case TFloat(_, _, _, _) => Float(Text(t))
    case TStr(items) => Str(ItemsDenote(items))
    case TArr(_, elems) => Arr(ElemsDenote(elems, allowNaN))
    case TObj(_, members) => Obj(MembersDenote(members, [], allowNaN))
  }

  function ElemsDenote(es: Elems, allowNaN: bool): seq<Value>
    requires ElemsOk(es, allowNaN) && ElemsPaired(es, allowNaN)
  {
    match es
    case ENil => []
    case ECons(_, t, _, rest) => [Denotes(t, allowNaN)] + ElemsDenote(rest, allowNaN)
  }

  /** Members are stored one after the other into the table `acc`. */
  function MembersDenote(ms: Members, acc: seq<Member>, allowNaN: bool): seq<Member>
    requires MembersOk(ms, allowNaN) && MembersPaired(ms, allowNaN)
    decreases ms
  {
    match ms
    case MNil => acc
    case MCons(_, key, _, _, t, _, rest) =>
      MembersDenote(rest, Put(acc, ItemsDenote(key), Denotes(t, allowNaN)), allowNaN)
  }

  function Max(a: nat, b: nat): nat {
    if a >= b then a else b
  }

  function Depth(t: Tree): nat {
    match t
    case TArr(_, elems) => 1 + ElemsDepth(elems)
    case TObj(_, members) => 1 + MembersDepth(members)
    case _ => 0
  }

  function ElemsDepth(es: Elems): nat {
    match es
    case ENil => 0
    case ECons(_, t, _, rest) => Max(Depth(t), ElemsDepth(rest))
  }

  function MembersDepth(ms: Members): nat {
    match ms
    case MNil => 0
    case MCons(_, _, _, _, t, _, rest) => Max(Depth(t), MembersDepth(rest))
  }

  /** Whether `depth` further levels are allowed below level `nesting`. */
  predicate Fits(depth: nat, nesting: nat, maxNesting: int) {
    maxNesting == 0 || depth == 0 || nesting + depth <= maxNesting
  }

  // ---------------------------------------------------------------- texts in place

  // The same texts without concatenation: how long a text is, and that it
  // stands at a position of a source. JsonTexts proves that both forms agree.

  function GapLen(g: Gap): nat {
    match g
    case End => 0
    case Ws(_, rest) => 1 + GapLen(rest)
    case Block(body, rest) => 4 + |body| + GapLen(rest)
    case Line(body, rest) => 3 + |body| + GapLen(rest)
  }

  predicate GapHere(g: Gap, s: bytes, p: nat)
    ensures GapHere(g, s, p) ==> p + GapLen(g) <= |s|
    decreases g
  {
    match g
    case End => p <= |s|
    case Ws(b, rest) => IsByte(s, p, b) && GapHere(rest, s, p + 1)
    case Block(body, rest) =>
      && IsByte(s, p, SLASH) && IsByte(s, p + 1, STAR) && At(s, p + 2, body)
      && IsByte(s, p + 2 + |body|, STAR) && IsByte(s, p + 3 + |body|, SLASH)
      && GapHere(rest, s, p + 4 + |body|)
    case Line(body, rest) =>
      && IsByte(s, p, SLASH) && IsByte(s, p + 1, SLASH) && At(s, p + 2, body)
      && IsByte(s, p + 2 + |body|, NEWLINE) && GapHere(rest, s, p + 3 + |body|)
  }

  function ItemLen(i: Item): nat {
    match i
    case Plain(_) => 1
    case Esc(_) => 2
    case Uni(hex) => 2 + |hex|
  }

  predicate ItemHere(i: Item, s: bytes, p: nat) {
    match i
    case Plain(b) => IsByte(s, p, b)
    case Esc(b) => IsByte(s, p, BACKSLASH) && IsByte(s, p + 1, b)
    case Uni(hex) => IsByte(s, p, BACKSLASH) && IsByte(s, p + 1, LETTER_U) && At(s, p + 2, hex)
  }

  function ItemsLen(items: seq<Item>): nat {
    if items == [] then 0 else ItemLen(items[0]) + ItemsLen(items[1..])
  }

  predicate ItemsHere(items: seq<Item>, s: bytes, p: nat)
    ensures ItemsHere(items, s, p) ==> p + ItemsLen(items) <= |s|
    decreases |items|
  {
    if items == [] then p <= |s|
    else ItemHere(items[0], s, p) && ItemsHere(items[1..], s, p + ItemLen(items[0]))
  }

  function StringLen(items: seq<Item>): nat {
    ItemsLen(items) + 2
  }

  predicate StringHere(items: seq<Item>, s: bytes, p: nat) {
    IsByte(s, p, QUOTE) && ItemsHere(items, s, p + 1) && IsByte(s, p + 1 + ItemsLen(items), QUOTE)
  }

  function ExponentLen(x: Exponent): nat {
    if x.NoExp? then 0 else 1 + |x.sign| + |x.digits|
  }

  predicate ExponentHere(x: Exponent, s: bytes, p: nat) {
    if x.NoExp? then p <= |s|
    else IsByte(s, p, x.e) && At(s, p + 1, x.sign) && At(s, p + 1 + |x.sign|, x.digits)
  }

  function FracLen(frac: bytes): nat {
    if frac == [] then 0 else 1 + |frac|
  }

  predicate FracHere(frac: bytes, s: bytes, p: nat) {
    if frac == [] then p <= |s| else IsByte(s, p, DOT) && At(s, p + 1, frac)
  }

  function SignLen(negative: bool): nat {
    if negative then 1 else 0
  }

  predicate SignHere(negative: bool, s: bytes, p: nat) {
    negative ==> IsByte(s, p, MINUS)
  }

  function Len(t: Tree): nat {
    match t
    case TNull => 4
    case TBool(b) => if b then 4 else 5
    case TNaN => 3
    case TInf(negative) => SignLen(negative) + 8
    case TInt(negative, digits) => SignLen(negative) + |digits|
    case TFloat(negative, digits, frac, exp) =>
      SignLen(negative) + |digits| + FracLen(frac) + ExponentLen(exp)
    case TStr(items) => StringLen(items)
    case TArr(gap, elems) => 2 + (if elems.ENil? then GapLen(gap) else ElemsLen(elems))
    case TObj(gap, members) => 2 + (if members.MNil? then GapLen(gap) else MembersLen(members))
  }

  predicate Here(t: Tree, s: bytes, p: nat)
    decreases t
  {
    match t
    case TNull => At(s, p, NULL_NAME)
    case TBool(b) => At(s, p, if b then TRUE_NAME else FALSE_NAME)
    case TNaN => At(s, p, NAN_NAME)
    case TInf(negative) => SignHere(negative, s, p) && At(s, p + SignLen(negative), INFINITY_NAME)
    case TInt(negative, digits) => SignHere(negative, s, p) && At(s, p + SignLen(negative), digits)
    case TFloat(negative, digits, frac, exp) =>
      && SignHere(negative, s, p) && At(s, p + SignLen(negative), digits)
      && FracHere(frac, s, p + SignLen(negative) + |digits|)
      && ExponentHere(exp, s, p + SignLen(negative) + |digits| + FracLen(frac))
    case TStr(items) => StringHere(items, s, p)
    case TArr(gap, elems) =>
      && IsByte(s, p, OPEN_BRACKET) && IsByte(s, p + Len(t) - 1, CLOSE_BRACKET)
      && (if elems.ENil? then GapHere(gap, s, p + 1) else ElemsHere(elems, s, p + 1))
    case TObj(gap, members) =>
      && IsByte(s, p, OPEN_BRACE) && IsByte(s, p + Len(t) - 1, CLOSE_BRACE)
      && (if members.MNil? then GapHere(gap, s, p + 1) else MembersHere(members, s, p + 1))
  }

  function ElemsLen(es: Elems): nat
    requires es.ECons?
    decreases es, 1
  {
    GapLen(es.pre) + ElemTailLen(es)
  }

  function ElemTailLen(es: Elems): nat
    requires es.ECons?
    decreases es, 0
  {
    Len(es.t) + GapLen(es.post) + MoreElemsLen(es.rest)
  }

  function MoreElemsLen(es: Elems): nat
    decreases es, 2
  {
    if es.ENil? then 0 else 1 + ElemsLen(es)
  }

  predicate ElemsHere(es: Elems, s: bytes, p: nat)
    requires es.ECons?
    decreases es, 1
  {
    GapHere(es.pre, s, p) && ElemTailHere(es, s, p + GapLen(es.pre))
  }

  predicate ElemTailHere(es: Elems, s: bytes, p: nat)
    requires es.ECons?
    decreases es, 0
  {
    && Here(es.t, s, p) && GapHere(es.post, s, p + Len(es.t))
    && MoreElemsHere(es.rest, s, p + Len(es.t) + GapLen(es.post))
  }

  predicate MoreElemsHere(es: Elems, s: bytes, p: nat)
    decreases es, 2
  {
    if es.ENil? then p <= |s| else IsByte(s, p, COMMA) && ElemsHere(es, s, p + 1)
  }

  function MembersLen(ms: Members): nat
    requires ms.MCons?
    decreases ms, 3
  {
    GapLen(ms.pre) + MemberTailLen(ms)
  }

  function MemberTailLen(ms: Members): nat
    requires ms.MCons?
    decreases ms, 2
  {
    StringLen(ms.key) + GapLen(ms.mid) + 1 + GapLen(ms.pre2) + MemberEndLen(ms)
  }

  function MemberEndLen(ms: Members): nat
    requires ms.MCons?
    decreases ms, 1
  {
    Len(ms.t) + GapLen(ms.post) + MoreMembersLen(ms.rest)
  }

  function MoreMembersLen(ms: Members): nat
    decreases ms, 4
  {
    if ms.MNil? then 0 else 1 + MembersLen(ms)
  }

  predicate MembersHere(ms: Members, s: bytes, p: nat)
    requires ms.MCons?
    decreases ms, 3
  {
    GapHere(ms.pre, s, p) && MemberTailHere(ms, s, p + GapLen(ms.pre))
  }

  predicate MemberTailHere(ms: Members, s: bytes, p: nat)
    requires ms.MCons?
    decreases ms, 2
  {
    var c := p + StringLen(ms.key) + GapLen(ms.mid);
    && StringHere(ms.key, s, p) && GapHere(ms.mid, s, p + StringLen(ms.key)) && IsByte(s, c, COLON)
    && GapHere(ms.pre2, s, c + 1) && MemberEndHere(ms, s, c + 1 + GapLen(ms.pre2))
  }

  predicate MemberEndHere(ms: Members, s: bytes, p: nat)
    requires ms.MCons?
    decreases ms, 1
  {
    && Here(ms.t, s, p) && GapHere(ms.post, s, p + Len(ms.t))
    && MoreMembersHere(ms.rest, s, p + Len(ms.t) + GapLen(ms.post))
  }

  predicate MoreMembersHere(ms: Members, s: bytes, p: nat)
    decreases ms, 4
  {
    if ms.MNil? then p <= |s| else IsByte(s, p, COMMA) && MembersHere(ms, s, p + 1)
  }
}
