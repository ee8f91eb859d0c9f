/**
 What the five parsing machines of parser.c compute, written as recursive
 functions of the source and a position in it. The machines themselves are in
 JsonMachines, proved to compute these functions; the grammar they recognise is
 in JsonGrammar, related to these functions in JsonLexical, JsonSoundness and
 JsonCompleteness.
 */
module JsonReader {
  import opened Bytes
  import opened JsonNames
  import opened JsonValue

  datatype Config = Config(maxNesting: int, allowNaN: bool)

  /** NilString: a string value became nil and is then used as a string. */
  datatype Error = NestingError | ParserError | NilString

  /**
   How a parse function ends. `Raise`: an exception. `Fail`: a null pointer.
   `Stuck`: a pointer in an accepting state, but at the first byte of a token
   that could not be parsed. `Done`: a value and the position behind it.
   */
  datatype Outcome =
    | Raise(e: Error)
    | Fail
    | Stuck(at: nat)
    | Done(v: Value, next: nat)

  /** A successful outcome moves forward. */
  predicate Sane(o: Outcome, s: bytes, p: nat) {
    o.Done? ==> p < o.next <= |s|
  }

  // ---------------------------------------------------------------- ignorable text

  /** Position behind a block comment, from just behind its opening. */
  function AfterBlock(s: bytes, p: nat): (r: Option<nat>)
    requires p <= |s|
    ensures r.Some? ==> p < r.value <= |s|
    decreases |s| - p
  {
    if p == |s| then None
    else if s[p] == STAR then AfterStar(s, p + 1)
    else AfterBlock(s, p + 1)
  }

  /** As AfterBlock, when the last byte read was an asterisk. */
  function AfterStar(s: bytes, p: nat): (r: Option<nat>)
    requires p <= |s|
    ensures r.Some? ==> p < r.value <= |s|
    decreases |s| - p
  {
    if p == |s| then None
    else if s[p] == STAR then AfterStar(s, p + 1)
    else if s[p] == SLASH then Some(p + 1)
    else AfterBlock(s, p + 1)
  }

  function AfterLine(s: bytes, p: nat): (r: Option<nat>)
    requires p <= |s|
    ensures r.Some? ==> p < r.value <= |s|
    decreases |s| - p
  {
    if p == |s| then None
    else if s[p] == NEWLINE then Some(p + 1)
    else AfterLine(s, p + 1)
  }

  /** Position behind a comment whose first slash has been read. */
  function AfterSlash(s: bytes, p: nat): (r: Option<nat>)
    requires p <= |s|
    ensures r.Some? ==> p < r.value <= |s|
  {
    if p == |s| then None
    else if s[p] == STAR then AfterBlock(s, p + 1)
    else if s[p] == SLASH then AfterLine(s, p + 1)
    else None
  }

  /** Position behind all whitespace and comments; None for a comment that does not end. */
  function Skip(s: bytes, p: nat): (r: Option<nat>)
    requires p <= |s|
    ensures r.Some? ==> p <= r.value <= |s|
    ensures r.Some? && r.value < |s| ==> !IsWs(s[r.value]) && s[r.value] != SLASH
    decreases |s| - p
  {
    if p == |s| then Some(p)
    else if IsWs(s[p]) then Skip(s, p + 1)
    else if s[p] == SLASH then
      var after := AfterSlash(s, p + 1);
      if after.None? then None else Skip(s, after.value)
    else Some(p)
  }

  /** The first byte behind ignorable text, if there is one. */
  function Next(s: bytes, p: nat): (r: Option<nat>)
    requires p <= |s|
    ensures r.Some? ==> p <= r.value < |s|
    ensures r.Some? ==> !IsWs(s[r.value]) && s[r.value] != SLASH
  {
    var t := Skip(s, p);
    if t.None? || t.value == |s| then None else t
  }

  // ---------------------------------------------------------------- numbers

  /** End of the run of digits at `p`. */
  function DigitsEnd(s: bytes, p: nat): (q: nat)
    requires p <= |s|
    ensures p <= q <= |s|
    decreases |s| - p
  {
    if p == |s| || !IsDigit(s[p]) then p else DigitsEnd(s, p + 1)
  }

  predicate IsE(s: bytes, p: nat) {
    p < |s| && (s[p] == CAPITAL_E || s[p] == LETTER_E)
  }

  predicate IsDigitAt(s: bytes, p: nat) {
    p < |s| && IsDigit(s[p])
  }

  /** A byte that may not stand directly behind a float. */
  predicate FloatGoesOn(s: bytes, p: nat) {
    IsE(s, p) || IsByte(s, p, MINUS) || IsByte(s, p, DOT)
  }

  /** End of an optional sign and an integer part, whatever follows. */
  function IntPartEnd(s: bytes, p: nat): (r: Option<nat>)
    requires p <= |s|
    ensures r.Some? ==> p < r.value <= |s|
  {
    var i := if IsByte(s, p, MINUS) then p + 1 else p;
    if !IsDigitAt(s, i) then None
    else if s[i] == ZERO then Some(i + 1)
    else Some(DigitsEnd(s, i + 1))
  }

  /** End of the integer at `p`, as the integer machine delimits it. */
  function IntEnd(s: bytes, p: nat): (r: Option<nat>)
    requires p <= |s|
    ensures r.Some? ==> p < r.value <= |s|
  {
    var n := IntPartEnd(s, p);
    if n.Some? && IsDigitAt(s, n.value) then None else n
  }

  /** End of the sign and digits of an exponent. */
  function ExpEnd(s: bytes, p: nat): (r: Option<nat>)
    requires p <= |s|
    ensures r.Some? ==> p < r.value <= |s|
  {
    var i := if IsByte(s, p, PLUS) || IsByte(s, p, MINUS) then p + 1 else p;
    if !IsDigitAt(s, i) then None
    else
      var n := DigitsEnd(s, i);
      if FloatGoesOn(s, n) then None else Some(n)
  }

  /** End of what must follow the integer part of a float: fraction, exponent, or both. */
  function FloatTailEnd(s: bytes, p: nat): (r: Option<nat>)
    requires p <= |s|
    ensures r.Some? ==> p < r.value <= |s|
  {
    if IsE(s, p) then ExpEnd(s, p + 1)
    else if IsByte(s, p, DOT) && IsDigitAt(s, p + 1) then
      var f := DigitsEnd(s, p + 1);
      if IsE(s, f) then ExpEnd(s, f + 1)
      else if FloatGoesOn(s, f) then None
      else Some(f)
    else None
  }

  /** End of the float at `p`, as the float machine delimits it. */
  function FloatEnd(s: bytes, p: nat): (r: Option<nat>)
    requires p <= |s|
    ensures r.Some? ==> p < r.value <= |s|
  {
    var n := IntPartEnd(s, p);
    if n.None? then None else FloatTailEnd(s, n.value)
  }

  lemma {:induction false} DigitsEndMaximal(s: bytes, p: nat)
    requires p <= |s|
    ensures forall k :: p <= k < DigitsEnd(s, p) ==> IsDigit(s[k])
    ensures !IsDigitAt(s, DigitsEnd(s, p))
    decreases |s| - p
  {
    if p < |s| && IsDigit(s[p]) {
      DigitsEndMaximal(s, p + 1);
    }
  }

  /** The digits of an integer part, without the sign. */
  function IntDigitsOf(s: bytes, p: nat): (d: bytes)
    requires p <= |s| && IntPartEnd(s, p).Some?
    ensures d != [] && AllDigits(d)
  {
    var i := if IsByte(s, p, MINUS) then p + 1 else p;
    DigitsEndMaximal(s, i + 1);
    s[i..IntPartEnd(s, p).value]
  }

  /** rb_cstr2inum of the integer text at `p`. */
  function IntAt(s: bytes, p: nat): int
    requires p <= |s| && IntEnd(s, p).Some?
  {
    SignedValue(IsByte(s, p, MINUS), IntDigitsOf(s, p))
  }

  // ---------------------------------------------------------------- strings

  predicate FourHex(s: bytes, p: nat) {
    p + 4 <= |s| && IsHex(s[p]) && IsHex(s[p + 1]) && IsHex(s[p + 2]) && IsHex(s[p + 3])
  }

  /** Position of the quote that closes the string body at `p`. */
  function BodyEnd(s: bytes, p: nat): (r: Option<nat>)
    requires p <= |s|
    ensures r.Some? ==> p <= r.value < |s| && s[r.value] == QUOTE
    decreases |s| - p
  {
    if p == |s| then None
    else if s[p] == QUOTE then Some(p)
    else if s[p] == BACKSLASH then
      if p + 1 == |s| then None
      else if s[p + 1] == LETTER_U then
        if FourHex(s, p + 2) then BodyEnd(s, p + 6) else None
      else if s[p + 1] < SPACE then None
      else BodyEnd(s, p + 2)
    else if s[p] < SPACE then None
    else BodyEnd(s, p + 1)
  }

  /** Entry of the digit_values table. */
  function DigitValue(b: byte): int {
    if 48 <= b <= 57 then b - 48
    else if 65 <= b <= 70 then b - 55
    else if 97 <= b <= 102 then b - 87
    else -1
  }

  const REPLACEMENT_CHAR: nat := 0xFFFD

  /** unescape_unicode of the four bytes at `p`. */
  function Unhex(s: bytes, p: nat): (u: nat)
    requires p + 4 <= |s|
    ensures u <= 0xFFFF
  {
    var a, b, c, d := DigitValue(s[p]), DigitValue(s[p + 1]), DigitValue(s[p + 2]), DigitValue(s[p + 3]);
    if a < 0 || b < 0 || c < 0 || d < 0 then REPLACEMENT_CHAR
    else a * 4096 + b * 256 + c * 16 + d
  }

  /** convert_UTF32_to_UTF8, for any code and not only for scalar values. */
  function Utf32ToUtf8(ch: nat): bytes {
    if ch <= 0x7F then [ch]
    else if ch <= 0x07FF then [0xC0 + ch / 64, 0x80 + ch % 64]
    else if ch <= 0xFFFF then [0xE0 + ch / 4096, 0x80 + ch / 64 % 64, 0x80 + ch % 64]
    else if ch <= 0x1FFFFF then
      [0xF0 + ch / 262144, 0x80 + ch / 4096 % 64, 0x80 + ch / 64 % 64, 0x80 + ch % 64]
    else [QUESTION_MARK]
  }

  /** The code that two units are joined to: only their low bits are looked at. */
  function Join(ch: nat, sur: nat): nat {
    ch % 64 * 1024 + (ch / 64 % 16 + 1) * 65536 + sur % 1024
  }

  predicate HighMask(ch: nat) {
    ch / 1024 % 64 == 0x36
  }

  /** The byte a one-letter escape stands for, when it is one the C switch lists. */
  function ShortEscape(b: byte): Option<byte> {
    if b == LETTER_N then Some(NEWLINE)
    else if b == LETTER_R then Some(RETURN)
    else if b == LETTER_T then Some(TAB)
    else if b == QUOTE then Some(QUOTE)
    else if b == BACKSLASH then Some(BACKSLASH)
    else if b == LETTER_B then Some(BACKSPACE)
    else if b == LETTER_F then Some(FORM_FEED)
    else None
  }

  function Prepend(a: bytes, r: Option<bytes>): Option<bytes> {
    if r.None? then None else Some(a + r.value)
  }

  /**
   json_string_unescape of the body from `p` to the quote at `e`, None for nil.
   Reading may run onto the quote: a backslash directly before it escapes it.
   */
  function Unescape(s: bytes, p: nat, e: nat): Option<bytes>
    requires e < |s| && s[e] == QUOTE
    decreases e - p
  {
    if p >= e then Some([])
    else if s[p] != BACKSLASH then Prepend([s[p]], Unescape(s, p + 1, e))
    else if ShortEscape(s[p + 1]).Some? then Prepend([ShortEscape(s[p + 1]).value], Unescape(s, p + 2, e))
    else if s[p + 1] != LETTER_U then Prepend([s[p + 1]], Unescape(s, p + 2, e))
    else if p + 1 > e - 4 then None
    else
      var ch := Unhex(s, p + 2);
      if !HighMask(ch) then Prepend(Utf32ToUtf8(ch), Unescape(s, p + 6, e))
      else if p + 6 > e - 6 then None
      else if s[p + 6] == BACKSLASH && s[p + 7] == LETTER_U then
        Prepend(Utf32ToUtf8(Join(ch, Unhex(s, p + 8))), Unescape(s, p + 12, e))
      else Prepend([QUESTION_MARK], Unescape(s, p + 7, e))
  }

  // ---------------------------------------------------------------- the machines

  /** A byte that may begin a value. */
  predicate BeginsValue(b: byte) {
    || b == QUOTE || b == MINUS || IsDigit(b) || b == OPEN_BRACKET || b == OPEN_BRACE
    || b == CAPITAL_I || b == CAPITAL_N || b == LETTER_F || b == LETTER_N || b == LETTER_T
  }

  /** JSON_parse_string */
  function ReadString(s: bytes, p: nat): (o: Outcome)
    requires p <= |s|
    ensures Sane(o, s, p) && !o.Stuck?
    ensures o.Done? ==> o.v.Str?
  {
    if !IsByte(s, p, QUOTE) then Fail
    else
      var e := BodyEnd(s, p + 1);
      if e.None? then Fail
      else
        var u := Unescape(s, p + 1, e.value);
        if u.None? then Raise(NilString) else Done(Str(u.value), e.value + 1)
  }

  /** The number action of the value machine. */
  function ReadNumber(s: bytes, p: nat, cfg: Config): (o: Outcome)
    requires IsByte(s, p, MINUS) || IsDigitAt(s, p)
    ensures Sane(o, s, p)
  {
    if s[p] == MINUS && At(s, p + 1, INFINITY_NAME) then
      if cfg.allowNaN then Done(Infinity(true), p + 9) else Raise(ParserError)
    else if FloatEnd(s, p).Some? then
      Done(Float(s[p..FloatEnd(s, p).value]), FloatEnd(s, p).value)
    else if IntEnd(s, p).Some? then
      Done(Int(IntAt(s, p)), IntEnd(s, p).value)
    else Stuck(p)
  }

  /** A literal name: all of `name` must be there. */
  function ReadName(s: bytes, p: nat, name: bytes, v: Value): (o: Outcome)
    requires p <= |s| && name != []
    ensures Sane(o, s, p) && !o.Stuck? && !o.Raise?
  {
    if At(s, p, name) then Done(v, p + |name|) else Fail
  }

  /** NaN and Infinity are recognised before it is asked whether they are allowed. */
  function IfAllowed(o: Outcome, cfg: Config): Outcome {
    if o.Done? && !cfg.allowNaN then Raise(ParserError) else o
  }

  /** A sub-parse that failed leaves the pointer where it was, in an accepting state. */
  function OrStuck(o: Outcome, p: nat): Outcome {
    if o.Fail? then Stuck(p) else o
  }

  predicate TooDeep(nesting: nat, cfg: Config) {
    cfg.maxNesting != 0 && nesting > cfg.maxNesting
  }

  /** JSON_parse_value */
  function ReadValue(s: bytes, p: nat, nesting: nat, cfg: Config): (o: Outcome)
    requires p <= |s|
    ensures Sane(o, s, p)
    decreases |s| - p, 2
  {
    var t := Next(s, p);
    if t.None? then Fail else ReadToken(s, t.value, nesting, cfg)
  }

  /** The value machine at the first byte of a token. */
  function ReadToken(s: bytes, p: nat, nesting: nat, cfg: Config): (o: Outcome)
    requires p < |s|
    ensures Sane(o, s, p)
    decreases |s| - p, 1
  {
    var b := s[p];
    if b == QUOTE then OrStuck(ReadString(s, p), p)
    else if b == MINUS || IsDigit(b) then ReadNumber(s, p, cfg)
    else if b == CAPITAL_I then IfAllowed(ReadName(s, p, INFINITY_NAME, Infinity(false)), cfg)
    else if b == CAPITAL_N then IfAllowed(ReadName(s, p, NAN_NAME, NaN), cfg)
    else if b == OPEN_BRACKET then ReadArray(s, p, nesting + 1, cfg)
    else if b == LETTER_F then ReadName(s, p, FALSE_NAME, Bool(false))
    else if b == LETTER_N then ReadName(s, p, NULL_NAME, Null)
    else if b == LETTER_T then ReadName(s, p, TRUE_NAME, Bool(true))
    else if b == OPEN_BRACE then OrStuck(ReadObject(s, p, nesting + 1, cfg), p)
    else Fail
  }

  /** JSON_parse_array: it either returns behind the closing bracket or raises. */
  function ReadArray(s: bytes, p: nat, nesting: nat, cfg: Config): (o: Outcome)
    requires IsByte(s, p, OPEN_BRACKET)
    ensures Sane(o, s, p) && (o.Done? || o.Raise?)
    decreases |s| - p, 0
  {
    if TooDeep(nesting, cfg) then Raise(NestingError)
    else
      var t := Next(s, p + 1);
      if t.None? then Raise(ParserError)
      else if s[t.value] == CLOSE_BRACKET then Done(Arr([]), t.value + 1)
      else ReadElem(s, t.value, [], nesting, cfg)
  }

  /** One element and what follows it, at the first byte of the element. */
  function ReadElem(s: bytes, p: nat, acc: seq<Value>, nesting: nat, cfg: Config): (o: Outcome)
    requires p < |s|
    ensures Sane(o, s, p) && (o.Done? || o.Raise?)
    decreases |s| - p, 3
  {
    if !BeginsValue(s[p]) then Raise(ParserError)
    else
      var o := ReadValue(s, p, nesting, cfg);
      match o
      case Raise(e) => Raise(e)
      case Done(v, next) => ReadAfterElem(s, next, acc + [v], nesting, cfg)
      case _ => Raise(ParserError)
  }

  function ReadAfterElem(s: bytes, p: nat, acc: seq<Value>, nesting: nat, cfg: Config): (o: Outcome)
    requires p <= |s|
    ensures Sane(o, s, p) && (o.Done? || o.Raise?)
    decreases |s| - p, 4
  {
    var t := Next(s, p);
    if t.None? then Raise(ParserError)
    else if s[t.value] == CLOSE_BRACKET then Done(Arr(acc), t.value + 1)
    else if s[t.value] == COMMA then ReadNextElem(s, t.value + 1, acc, nesting, cfg)
    else Raise(ParserError)
  }

  /** Behind a comma. */
  function ReadNextElem(s: bytes, p: nat, acc: seq<Value>, nesting: nat, cfg: Config): (o: Outcome)
    requires p <= |s|
    ensures Sane(o, s, p) && (o.Done? || o.Raise?)
    decreases |s| - p, 4
  {
    var t := Next(s, p);
    if t.None? then Raise(ParserError) else ReadElem(s, t.value, acc, nesting, cfg)
  }

  /** JSON_parse_object */
  function ReadObject(s: bytes, p: nat, nesting: nat, cfg: Config): (o: Outcome)
    requires IsByte(s, p, OPEN_BRACE)
    ensures Sane(o, s, p) && !o.Stuck?
    decreases |s| - p, 0
  {
    if TooDeep(nesting, cfg) then Raise(NestingError)
    else
      var t := Next(s, p + 1);
      if t.None? then Fail
      else if s[t.value] == CLOSE_BRACE then Done(Obj([]), t.value + 1)
      else ReadMember(s, t.value, [], nesting, cfg)
  }

  /** One member and what follows it, at the first byte of its name. */
  function ReadMember(s: bytes, p: nat, acc: seq<Member>, nesting: nat, cfg: Config): (o: Outcome)
    requires p < |s|
    ensures Sane(o, s, p) && !o.Stuck?
    decreases |s| - p, 3
  {
    var name := ReadString(s, p);
    if !name.Done? then name else ReadColon(s, name.next, name.v.s, acc, nesting, cfg)
  }

  function ReadColon(s: bytes, p: nat, name: bytes, acc: seq<Member>, nesting: nat, cfg: Config): (o: Outcome)
    requires p <= |s|
    ensures Sane(o, s, p) && !o.Stuck?
    decreases |s| - p, 4
  {
    var t := Next(s, p);
    if t.None? || s[t.value] != COLON then Fail
    else ReadMemberValue(s, t.value + 1, name, acc, nesting, cfg)
  }

  function ReadMemberValue(s: bytes, p: nat, name: bytes, acc: seq<Member>, nesting: nat, cfg: Config): (o: Outcome)
    requires p <= |s|
    ensures Sane(o, s, p) && !o.Stuck?
    decreases |s| - p, 4
  {
    var t := Next(s, p);
    if t.None? || !BeginsValue(s[t.value]) then Fail
    else
      var o := ReadValue(s, t.value, nesting, cfg);
      match o
      case Raise(e) => Raise(e)
      case Done(v, next) => ReadAfterMember(s, next, Put(acc, name, v), nesting, cfg)
      case _ => Fail
  }

  function ReadAfterMember(s: bytes, p: nat, acc: seq<Member>, nesting: nat, cfg: Config): (o: Outcome)
    requires p <= |s|
    ensures Sane(o, s, p) && !o.Stuck?
    decreases |s| - p, 4
  {
    var t := Next(s, p);
    if t.None? then Fail
    else if s[t.value] == CLOSE_BRACE then Done(Obj(acc), t.value + 1)
    else if s[t.value] == COMMA then ReadNextMember(s, t.value + 1, acc, nesting, cfg)
    else Fail
  }

  function ReadNextMember(s: bytes, p: nat, acc: seq<Member>, nesting: nat, cfg: Config): (o: Outcome)
    requires p <= |s|
    ensures Sane(o, s, p) && !o.Stuck?
    decreases |s| - p, 4
  {
    var t := Next(s, p);
    if t.None? then Fail else ReadMember(s, t.value, acc, nesting, cfg)
  }

  /** A value parse is stuck only where a value might begin. */
  lemma {:induction false} StuckBegins(s: bytes, p: nat, nesting: nat, cfg: Config)
    requires p <= |s| && ReadValue(s, p, nesting, cfg).Stuck?
    ensures var at := ReadValue(s, p, nesting, cfg).at; p <= at < |s| && BeginsValue(s[at])
  {
  }

  /** cParser_parse */
  function Parse(s: bytes, cfg: Config): Result<Value, Error> {
    var t := Next(s, 0);
    if t.None? || !BeginsValue(s[t.value]) then Err(ParserError)
    else
      var o := ReadValue(s, t.value, 0, cfg);
      match o
      case Raise(e) => Err(e)
      case Done(v, next) => if Skip(s, next) == Some(|s|) then Ok(v) else Err(ParserError)
      case _ => Err(ParserError)
  }

  lemma {:induction false} AfterElemStep(s: bytes, p: nat, acc: seq<Value>, nesting: nat, cfg: Config, q: nat, r: nat)
    requires p <= |s| && Next(s, p) == Some(q) && s[q] == COMMA && Next(s, q + 1) == Some(r)
    ensures ReadAfterElem(s, p, acc, nesting, cfg) == ReadElem(s, r, acc, nesting, cfg)
  {
  }


  lemma {:induction false} AfterMemberStep(
    s: bytes, p: nat, acc: seq<Member>, nesting: nat, cfg: Config, q: nat, r: nat)
    requires p <= |s| && Next(s, p) == Some(q) && s[q] == COMMA && Next(s, q + 1) == Some(r)
    ensures ReadAfterMember(s, p, acc, nesting, cfg) == ReadMember(s, r, acc, nesting, cfg)
  {
  }

  lemma {:induction false} MemberNameStep(
    s: bytes, p: nat, acc: seq<Member>, nesting: nat, cfg: Config, name: bytes, c: nat, q: nat)
    requires p < |s| && ReadString(s, p) == Done(Str(name), c) && Next(s, c) == Some(q) && s[q] == COLON
    ensures ReadMember(s, p, acc, nesting, cfg) == ReadMemberValue(s, q + 1, name, acc, nesting, cfg)
  {
    ColonStep(s, c, name, acc, nesting, cfg, q);
  }

  lemma {:induction false} ColonStep(s: bytes, p: nat, name: bytes, acc: seq<Member>, nesting: nat, cfg: Config, q: nat)
    requires p <= |s| && Next(s, p) == Some(q) && s[q] == COLON
    ensures ReadColon(s, p, name, acc, nesting, cfg) == ReadMemberValue(s, q + 1, name, acc, nesting, cfg)
  {
  }
}
