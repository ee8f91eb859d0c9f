/**
 The Ragel machines of parser.c for objects, arrays, values and the whole source,
 which call each other from their actions. A failed sub-parse may return its own
 starting position in an accepting state; the machine around it goes on there and
 rejects it.
 */
module JsonMachines {
  import opened Bytes
  import opened JsonNames
  import opened JsonValue
  import opened JsonReader
  import opened JsonScanners

  /** An exception, or the returned pointer (None for NULL) and the result so far. */
  datatype Step = Raised(e: Error) | Returned(np: Option<nat>, result: Value)

  predicate Agrees(r: Step, o: Outcome) {
    match o
    case Raise(e) => r == Raised(e)
    case Fail => r.Returned? && r.np == None
    case Stuck(at) => r.Returned? && r.np == Some(at)
    case Done(v, next) => r == Returned(Some(next), v)
  }

  // ---------------------------------------------------------------- comments

  /** Four states from `base` on read a comment and lead to `back`; 0 is st0. */
  function CommentStep(cs: int, base: int, back: int, b: byte): int {
    if cs == base then
      if b == 42 then base + 1 else if b == 47 then base + 3 else 0
    else if cs == base + 1 then
      if b == 42 then base + 2 else base + 1
    else if cs == base + 2 then
      if b == 42 then base + 2 else if b == 47 then back else base + 1
    else
      if b == 10 then back else base + 3
  }

  /** Where the comment ends that the machine is in, in the `k`-th of its states. */
  function CommentEnd(k: int, s: bytes, p: nat): (r: Option<nat>)
    requires p <= |s|
    ensures r.Some? ==> p < r.value <= |s|
  {
    if k == 0 then AfterSlash(s, p)
    else if k == 1 then AfterBlock(s, p)
    else if k == 2 then AfterStar(s, p)
    else AfterLine(s, p)
  }

  /** Position of the first byte behind the comment and further ignorable text. */
  function NextBehind(k: int, s: bytes, p: nat): (r: Option<nat>)
    requires p <= |s|
    ensures r.Some? ==> p < r.value < |s|
  {
    var e := CommentEnd(k, s, p);
    if e.None? then None else Next(s, e.value)
  }

  /** One byte of a comment. */
  lemma {:induction false} CommentStepEnd(cs: int, base: int, back: int, s: bytes, p: nat)
    requires 0 < base <= cs < base + 4 && !(base <= back < base + 4) && back > 0 && p < |s|
    ensures var next := CommentStep(cs, base, back, s[p]);
            && (next == 0 ==> NextBehind(cs - base, s, p) == None)
            && (next == back ==> NextBehind(cs - base, s, p) == Next(s, p + 1))
            && (next != 0 && next != back ==>
                  base <= next < base + 4 && NextBehind(cs - base, s, p) == NextBehind(next - base, s, p + 1))
  {
    hide Next;
  }

  /** Whitespace and the start of a comment, in any state that ignores them. */
  lemma {:induction false} NextStep(s: bytes, p: nat)
    requires p < |s|
    ensures IsWs(s[p]) ==> Next(s, p) == Next(s, p + 1)
    ensures s[p] == 47 ==> Next(s, p) == NextBehind(0, s, p + 1)
    ensures !IsWs(s[p]) && s[p] != 47 ==> Next(s, p) == Some(p)
  {
  }

  lemma {:induction false} NextAtEnd(s: bytes, k: int)
    ensures Next(s, |s|) == None && NextBehind(k, s, |s|) == None
  {
  }

  // ---------------------------------------------------------------- tokens

  /** JSON_parse_string */
  method ParseString(s: bytes, p0: nat) returns (r: Step)
    requires p0 <= |s|
    ensures Agrees(r, ReadString(s, p0))
  {
    var quote := ScanString(s, p0);
    if quote.None? { return Returned(None, Str([])); }
    var u := UnescapeString(s, p0 + 1, quote.value);
    r := if u.None? then Raised(NilString) else Returned(Some(quote.value + 1), Str(u.value));
  }

  const MINUS_INFINITY: bytes := [45, 73, 110, 102, 105, 110, 105, 116, 121]

  lemma {:induction false} MinusInfinityIs(s: bytes, p: nat)
    requires p < |s|
    ensures At(s, p, MINUS_INFINITY) <==> s[p] == 45 && At(s, p + 1, INFINITY_NAME)
  {
    assert MINUS_INFINITY[1..] == INFINITY_NAME;
  }

  /** Behind a float there is no integer, so the second scan of the number action changes nothing. */
  lemma {:induction false} NoIntBehindFloat(s: bytes, p: nat)
    requires p <= |s| && FloatEnd(s, p).Some?
    ensures IntEnd(s, FloatEnd(s, p).value) == None
  {
    var n := IntPartEnd(s, p).value;
    var i := if IsByte(s, n + 1, 43) || IsByte(s, n + 1, 45) then n + 2 else n + 1;
    if IsE(s, n) {
      DigitsEndMaximal(s, i);
    } else {
      var f := DigitsEnd(s, n + 1);
      DigitsEndMaximal(s, n + 1);
      if IsE(s, f) {
        DigitsEndMaximal(s, if IsByte(s, f + 1, 43) || IsByte(s, f + 1, 45) then f + 2 else f + 1);
      }
    }
  }

  /** The number action of the value machine: the float machine, then the integer machine. */
  method ParseNumber(s: bytes, p0: nat, cfg: Config) returns (r: Step)
    requires IsByte(s, p0, 45) || IsDigitAt(s, p0)
    ensures Agrees(r, ReadNumber(s, p0, cfg))
  {
    MinusInfinityIs(s, p0);
    if At(s, p0, MINUS_INFINITY) {
      return if cfg.allowNaN then Returned(Some(p0 + 9), Infinity(true)) else Raised(ParserError);
    }
    var p := p0;
    var result := Null;
    var np := ScanFloat(s, p);
    if np.Some? {
      NoIntBehindFloat(s, p);
      result := Float(s[p..np.value]);
      p := np.value;
    }
    np := ScanInteger(s, p);
    if np.Some? {
      result := Int(IntAt(s, p));
      p := np.value;
    }
    r := Returned(Some(p), result);
  }

  // ---------------------------------------------------------------- objects

  /** The state that the comment states lead back to. */
  function ObjectHome(cs: int): int {
    if 4 <= cs <= 7 then 3 else if 11 <= cs <= 14 then 10 else if 15 <= cs <= 18 then 9
    else if 19 <= cs <= 22 then 8 else if 23 <= cs <= 26 then 2 else cs
  }

  /** The first of the comment states that lead back to a state. */
  function ObjectComment(home: int): int {
    if home == 2 then 23 else if home == 3 then 4 else if home == 8 then 19 else if home == 9 then 15 else 11
  }

  predicate ObjectState(cs: int) {
    2 <= cs <= 26
  }

  function ObjectAhead(cs: int, s: bytes, p: nat): (r: Option<nat>)
    requires p <= |s| && ObjectState(cs)
    ensures r.Some? ==> p <= r.value < |s|
  {
    var home := ObjectHome(cs);
    if cs == home then Next(s, p) else NextBehind(cs - ObjectComment(home), s, p)
  }

  /** What is left to do at a byte that is not ignorable, in a state that is not inside a comment. */
  function ObjectSolid(
    cs: int, s: bytes, p: nat, name: bytes, acc: seq<Member>, nesting: nat, cfg: Config): Outcome
    requires p < |s|
  {
    if cs == 2 then (if s[p] == 125 then Done(Obj(acc), p + 1) else ReadMember(s, p, acc, nesting, cfg))
    else if cs == 3 then (if s[p] != 58 then Fail else ReadMemberValue(s, p + 1, name, acc, nesting, cfg))
    else if cs == 8 then
      (if !BeginsValue(s[p]) then Fail
       else
         match ReadValue(s, p, nesting, cfg)
         case Raise(e) => Raise(e)
         case Done(v, next) => ReadAfterMember(s, next, Put(acc, name, v), nesting, cfg)
         case _ => Fail)
    else if cs == 9 then
      (if s[p] == 125 then Done(Obj(acc), p + 1)
       else if s[p] == 44 then ReadNextMember(s, p + 1, acc, nesting, cfg)
       else Fail)
    else ReadMember(s, p, acc, nesting, cfg)
  }

  function ObjectRest(
    cs: int, s: bytes, p: nat, name: bytes, acc: seq<Member>, nesting: nat, cfg: Config): Outcome
    requires p <= |s| && ObjectState(cs)
  {
    var t := ObjectAhead(cs, s, p);
    if t.None? then Fail else ObjectSolid(ObjectHome(cs), s, t.value, name, acc, nesting, cfg)
  }

  lemma {:induction false} ObjectRestIs(s: bytes, p: nat, name: bytes, acc: seq<Member>, nesting: nat, cfg: Config)
    requires p <= |s|
    ensures ObjectRest(3, s, p, name, acc, nesting, cfg) == ReadColon(s, p, name, acc, nesting, cfg)
    ensures ObjectRest(8, s, p, name, acc, nesting, cfg) == ReadMemberValue(s, p, name, acc, nesting, cfg)
    ensures ObjectRest(9, s, p, name, acc, nesting, cfg) == ReadAfterMember(s, p, acc, nesting, cfg)
    ensures ObjectRest(10, s, p, name, acc, nesting, cfg) == ReadNextMember(s, p, acc, nesting, cfg)
  {
  }

  lemma {:induction false} ObjectOpens(s: bytes, p: nat, name: bytes, nesting: nat, cfg: Config)
    requires IsByte(s, p, 123) && !TooDeep(nesting, cfg)
    ensures ReadObject(s, p, nesting, cfg) == ObjectRest(2, s, p + 1, name, [], nesting, cfg)
  {
  }

  /** A byte of ignorable text: the state it leads to, and that nothing else changes. */
  lemma {:induction false} ObjectIgnores(
    cs: int, s: bytes, p: nat, name: bytes, acc: seq<Member>, nesting: nat, cfg: Config)
    requires p < |s| && ObjectState(cs)
    ensures cs == ObjectHome(cs) && IsWs(s[p]) ==>
              ObjectRest(cs, s, p, name, acc, nesting, cfg) == ObjectRest(cs, s, p + 1, name, acc, nesting, cfg)
    ensures cs == ObjectHome(cs) && s[p] == 47 ==>
              ObjectRest(cs, s, p, name, acc, nesting, cfg)
              == ObjectRest(ObjectComment(cs), s, p + 1, name, acc, nesting, cfg)
    ensures cs == ObjectHome(cs) && !IsWs(s[p]) && s[p] != 47 ==>
              ObjectRest(cs, s, p, name, acc, nesting, cfg) == ObjectSolid(cs, s, p, name, acc, nesting, cfg)
  {
    hide Next, NextBehind, ObjectSolid;
    NextStep(s, p);
  }

  /** A byte inside a comment. */
  lemma {:induction false} ObjectInComment(
    cs: int, s: bytes, p: nat, name: bytes, acc: seq<Member>, nesting: nat, cfg: Config)
    requires p < |s| && ObjectState(cs) && cs != ObjectHome(cs)
    ensures var home := ObjectHome(cs);
            var next := CommentStep(cs, ObjectComment(home), home, s[p]);
            && (next == 0 ==> ObjectRest(cs, s, p, name, acc, nesting, cfg) == Fail)
            && (next != 0 ==> ObjectState(next))
            && (next != 0 ==>
                  ObjectRest(cs, s, p, name, acc, nesting, cfg) == ObjectRest(next, s, p + 1, name, acc, nesting, cfg))
  {
    hide Next, NextBehind, ObjectSolid;
    var home := ObjectHome(cs);
    CommentStepEnd(cs, ObjectComment(home), home, s, p);
  }

  lemma {:induction false} ObjectAtEnd(cs: int, s: bytes, name: bytes, acc: seq<Member>, nesting: nat, cfg: Config)
    requires ObjectState(cs)
    ensures ObjectRest(cs, s, |s|, name, acc, nesting, cfg) == Fail
  {
    hide Next, NextBehind, ObjectSolid;
    NextAtEnd(s, cs - ObjectComment(ObjectHome(cs)));
  }

  /** A name that has been parsed, at the states where a member may begin. */
  lemma {:induction false} ObjectNames(
    cs: int, s: bytes, p: nat, name: bytes, acc: seq<Member>, nesting: nat, cfg: Config, r: Step)
    requires p < |s| && (cs == 2 || cs == 10) && s[p] == 34 && Agrees(r, ReadString(s, p))
    ensures var goal := ObjectSolid(cs, s, p, name, acc, nesting, cfg);
            if r.Raised? then goal == Raise(r.e)
            else if r.np.None? then goal == Fail
            else
              && p < r.np.value <= |s| && r.result.Str?
              && goal == ObjectRest(3, s, r.np.value, r.result.s, acc, nesting, cfg)
  {
    hide Next, ReadString, ReadColon;
    if r.Returned? && r.np.Some? {
      ObjectRestIs(s, r.np.value, r.result.s, acc, nesting, cfg);
    }
  }

  /** A token that could not be parsed is what no enclosing object goes on with. */
  lemma {:induction false} ObjectRejectsStuck(
    s: bytes, at: nat, name: bytes, acc: seq<Member>, nesting: nat, cfg: Config)
    requires at < |s| && BeginsValue(s[at])
    ensures ObjectRest(9, s, at, name, acc, nesting, cfg) == Fail
  {
    ObjectIgnores(9, s, at, name, acc, nesting, cfg);
  }

  /** A value that has been parsed, or not: the machine goes on at the returned pointer in any case. */
  lemma {:induction false} ObjectValues(
    s: bytes, p: nat, name: bytes, acc: seq<Member>, nesting: nat, cfg: Config, r: Step)
    requires p < |s| && BeginsValue(s[p]) && Agrees(r, ReadValue(s, p, nesting, cfg))
    ensures var goal := ObjectSolid(8, s, p, name, acc, nesting, cfg);
            if r.Raised? then goal == Raise(r.e)
            else if r.np.None? then goal == Fail
            else
              && p <= r.np.value <= |s|
              && goal == ObjectRest(9, s, r.np.value, name, Put(acc, name, r.result), nesting, cfg)
  {
    hide Next, ReadToken, ReadAfterMember, Put, ObjectRest;
    var o := ReadValue(s, p, nesting, cfg);
    if o.Stuck? {
      StuckBegins(s, p, nesting, cfg);
      ObjectRejectsStuck(s, o.at, name, Put(acc, name, r.result), nesting, cfg);
    } else if o.Done? {
      ObjectRestIs(s, o.next, name, Put(acc, name, o.v), nesting, cfg);
    }
  }

  /** Every other byte. */
  lemma {:induction false} ObjectPunctuation(
    cs: int, s: bytes, p: nat, name: bytes, acc: seq<Member>, nesting: nat, cfg: Config)
    requires p < |s| && ObjectState(cs) && cs == ObjectHome(cs)
    requires !((cs == 2 || cs == 10) && s[p] == 34) && !(cs == 8 && BeginsValue(s[p]))
    ensures var goal := ObjectSolid(cs, s, p, name, acc, nesting, cfg);
            if (cs == 2 || cs == 9) && s[p] == 125 then goal == Done(Obj(acc), p + 1)
            else if cs == 3 && s[p] == 58 then goal == ObjectRest(8, s, p + 1, name, acc, nesting, cfg)
            else if cs == 9 && s[p] == 44 then goal == ObjectRest(10, s, p + 1, name, acc, nesting, cfg)
            else goal == Fail
  {
    hide Next, ReadValue, ReadMemberValue, ReadNextMember, ObjectRest;
    ObjectRestIs(s, p + 1, name, acc, nesting, cfg);
  }

  lemma {:induction false} ObjectTooDeep(s: bytes, p: nat, nesting: nat, cfg: Config)
    requires IsByte(s, p, 123) && TooDeep(nesting, cfg)
    ensures ReadObject(s, p, nesting, cfg) == Raise(NestingError)
  {
  }

  /** JSON_parse_object */
  method ParseObject(s: bytes, p0: nat, nesting: nat, cfg: Config) returns (r: Step)
    requires p0 <= |s|
    ensures IsByte(s, p0, 123) ==> Agrees(r, ReadObject(s, p0, nesting, cfg))
    ensures !IsByte(s, p0, 123) ==>
              Agrees(r, if TooDeep(nesting, cfg) then Raise(NestingError) else Fail)
    decreases |s| - p0, 0
  {
    hide ObjectRest, ObjectSolid, ReadObject, ReadValue, ReadString;
    if cfg.maxNesting != 0 && nesting > cfg.maxNesting {
      if IsByte(s, p0, 123) {
        ObjectTooDeep(s, p0, nesting, cfg);
      }
      return Raised(NestingError);
    }
    var cs, p := 1, p0;
    var lastName: bytes, acc: seq<Member> := [], [];
    ghost var goal := if IsByte(s, p0, 123) then ReadObject(s, p0, nesting, cfg) else Fail;
    while p < |s|
      invariant p0 <= p <= |s|
      invariant cs == 1 ==> p == p0 && acc == []
      invariant cs != 1 ==> ObjectState(cs) && p > p0 && goal == ObjectRest(cs, s, p, lastName, acc, nesting, cfg)
      decreases |s| - p, cs == 8
    {
      var b := s[p];
      if cs == 1 {
        if b != 123 { cs := 0; break; }
        ObjectOpens(s, p, lastName, nesting, cfg);
        cs := 2;
      } else if cs != ObjectHome(cs) {
        ObjectInComment(cs, s, p, lastName, acc, nesting, cfg);
        cs := CommentStep(cs, ObjectComment(ObjectHome(cs)), ObjectHome(cs), b);
        if cs == 0 { break; }
      } else {
        ObjectIgnores(cs, s, p, lastName, acc, nesting, cfg);
        if IsWs(b) {
        } else if b == 47 {
          cs := ObjectComment(cs);
        } else if (cs == 2 || cs == 10) && b == 34 {
          var name := ParseString(s, p);
          ObjectNames(cs, s, p, lastName, acc, nesting, cfg, name);
          if name.Raised? { return name; }
          if name.np.None? { cs := 3; break; }
          lastName := name.result.s;
          p := name.np.value - 1;
          cs := 3;
        } else if cs == 8 && BeginsValue(b) {
          var v := ParseValue(s, p, nesting, cfg);
          ObjectValues(s, p, lastName, acc, nesting, cfg, v);
          if v.Raised? { return v; }
          if v.np.None? { cs := 9; break; }
          acc := Put(acc, lastName, v.result);
          p := v.np.value - 1;
          cs := 9;
        } else {
          ObjectPunctuation(cs, s, p, lastName, acc, nesting, cfg);
          if (cs == 2 || cs == 9) && b == 125 { cs := 27; break; }
          else if cs == 3 && b == 58 { cs := 8; }
          else if cs == 9 && b == 44 { cs := 10; }
          else { cs := 0; break; }
        }
      }
      p := p + 1;
    }
    if p == |s| && ObjectState(cs) && p > p0 {
      ObjectAtEnd(cs, s, lastName, acc, nesting, cfg);
    }
    r := Returned(if cs >= 27 then Some(p + 1) else None, Obj(acc));
  }

  // ---------------------------------------------------------------- arrays

  function ArrayHome(cs: int): int {
    if 5 <= cs <= 8 then 4 else if 9 <= cs <= 12 then 3 else if 13 <= cs <= 16 then 2 else cs
  }

  function ArrayComment(home: int): int {
    if home == 2 then 13 else if home == 3 then 9 else 5
  }

  predicate ArrayState(cs: int) {
    2 <= cs <= 16
  }

  function ArrayAhead(cs: int, s: bytes, p: nat): (r: Option<nat>)
    requires p <= |s| && ArrayState(cs)
    ensures r.Some? ==> p <= r.value < |s|
  {
    var home := ArrayHome(cs);
    if cs == home then Next(s, p) else NextBehind(cs - ArrayComment(home), s, p)
  }

  function ArraySolid(cs: int, s: bytes, p: nat, acc: seq<Value>, nesting: nat, cfg: Config): Outcome
    requires p < |s|
  {
    if (cs == 2 || cs == 3) && s[p] == 93 then Done(Arr(acc), p + 1)
    else if cs == 3 then
      (if s[p] == 44 then ReadNextElem(s, p + 1, acc, nesting, cfg) else Raise(ParserError))
    else ReadElem(s, p, acc, nesting, cfg)
  }

  function ArrayRest(cs: int, s: bytes, p: nat, acc: seq<Value>, nesting: nat, cfg: Config): Outcome
    requires p <= |s| && ArrayState(cs)
  {
    var t := ArrayAhead(cs, s, p);
    if t.None? then Raise(ParserError) else ArraySolid(ArrayHome(cs), s, t.value, acc, nesting, cfg)
  }

  lemma {:induction false} ArrayRestIs(s: bytes, p: nat, acc: seq<Value>, nesting: nat, cfg: Config)
    requires p <= |s|
    ensures ArrayRest(3, s, p, acc, nesting, cfg) == ReadAfterElem(s, p, acc, nesting, cfg)
    ensures ArrayRest(4, s, p, acc, nesting, cfg) == ReadNextElem(s, p, acc, nesting, cfg)
  {
  }

  lemma {:induction false} ArrayOpens(s: bytes, p: nat, nesting: nat, cfg: Config)
    requires IsByte(s, p, 91)
    ensures ReadArray(s, p, nesting, cfg)
         == if TooDeep(nesting, cfg) then Raise(NestingError) else ArrayRest(2, s, p + 1, [], nesting, cfg)
  {
  }

  lemma {:induction false} ArrayIgnores(cs: int, s: bytes, p: nat, acc: seq<Value>, nesting: nat, cfg: Config)
    requires p < |s| && ArrayState(cs)
    ensures cs == ArrayHome(cs) && IsWs(s[p]) ==>
              ArrayRest(cs, s, p, acc, nesting, cfg) == ArrayRest(cs, s, p + 1, acc, nesting, cfg)
    ensures cs == ArrayHome(cs) && s[p] == 47 ==>
              ArrayRest(cs, s, p, acc, nesting, cfg) == ArrayRest(ArrayComment(cs), s, p + 1, acc, nesting, cfg)
    ensures cs == ArrayHome(cs) && !IsWs(s[p]) && s[p] != 47 ==>
              ArrayRest(cs, s, p, acc, nesting, cfg) == ArraySolid(cs, s, p, acc, nesting, cfg)
  {
    hide Next, NextBehind, ArraySolid;
    NextStep(s, p);
  }

  lemma {:induction false} ArrayInComment(cs: int, s: bytes, p: nat, acc: seq<Value>, nesting: nat, cfg: Config)
    requires p < |s| && ArrayState(cs) && cs != ArrayHome(cs)
    ensures var home := ArrayHome(cs);
            var next := CommentStep(cs, ArrayComment(home), home, s[p]);
            && (next == 0 ==> ArrayRest(cs, s, p, acc, nesting, cfg) == Raise(ParserError))
            && (next != 0 ==> ArrayState(next))
            && (next != 0 ==>
                  ArrayRest(cs, s, p, acc, nesting, cfg) == ArrayRest(next, s, p + 1, acc, nesting, cfg))
  {
    hide Next, NextBehind, ArraySolid;
    var home := ArrayHome(cs);
    CommentStepEnd(cs, ArrayComment(home), home, s, p);
  }

  lemma {:induction false} ArrayAtEnd(cs: int, s: bytes, acc: seq<Value>, nesting: nat, cfg: Config)
    requires ArrayState(cs)
    ensures ArrayRest(cs, s, |s|, acc, nesting, cfg) == Raise(ParserError)
  {
    hide Next, NextBehind, ArraySolid;
    NextAtEnd(s, cs - ArrayComment(ArrayHome(cs)));
  }

  /** A token that could not be parsed is what no enclosing array goes on with. */
  lemma {:induction false} ArrayRejectsStuck(s: bytes, at: nat, acc: seq<Value>, nesting: nat, cfg: Config)
    requires at < |s| && BeginsValue(s[at])
    ensures ArrayRest(3, s, at, acc, nesting, cfg) == Raise(ParserError)
  {
    ArrayIgnores(3, s, at, acc, nesting, cfg);
  }

  lemma {:induction false} ArrayValues(cs: int, s: bytes, p: nat, acc: seq<Value>, nesting: nat, cfg: Config, r: Step)
    requires p < |s| && (cs == 2 || cs == 4) && BeginsValue(s[p]) && Agrees(r, ReadValue(s, p, nesting, cfg))
    ensures var goal := ArraySolid(cs, s, p, acc, nesting, cfg);
            if r.Raised? then goal == Raise(r.e)
            else if r.np.None? then goal == Raise(ParserError)
            else
              && p <= r.np.value <= |s|
              && goal == ArrayRest(3, s, r.np.value, acc + [r.result], nesting, cfg)
  {
    hide Next, ReadToken, ReadAfterElem, ArrayRest;
    var o := ReadValue(s, p, nesting, cfg);
    if o.Stuck? {
      StuckBegins(s, p, nesting, cfg);
      ArrayRejectsStuck(s, o.at, acc + [r.result], nesting, cfg);
    } else if o.Done? {
      ArrayRestIs(s, o.next, acc + [o.v], nesting, cfg);
    }
  }

  lemma {:induction false} ArrayPunctuation(cs: int, s: bytes, p: nat, acc: seq<Value>, nesting: nat, cfg: Config)
    requires p < |s| && ArrayState(cs) && cs == ArrayHome(cs)
    requires !((cs == 2 || cs == 4) && BeginsValue(s[p]))
    ensures var goal := ArraySolid(cs, s, p, acc, nesting, cfg);
            if (cs == 2 || cs == 3) && s[p] == 93 then goal == Done(Arr(acc), p + 1)
            else if cs == 3 && s[p] == 44 then goal == ArrayRest(4, s, p + 1, acc, nesting, cfg)
            else goal == Raise(ParserError)
  {
    hide Next, ReadValue, ReadNextElem, ArrayRest;
    ArrayRestIs(s, p + 1, acc, nesting, cfg);
  }

  /** JSON_parse_array */
  method ParseArray(s: bytes, p0: nat, nesting: nat, cfg: Config) returns (r: Step)
    requires p0 <= |s|
    ensures IsByte(s, p0, 91) ==> Agrees(r, ReadArray(s, p0, nesting, cfg))
    ensures !IsByte(s, p0, 91) ==>
              r == Raised(if TooDeep(nesting, cfg) then NestingError else ParserError)
    decreases |s| - p0, 0
  {
    hide ArrayRest, ArraySolid, ReadArray, ReadValue;
    if IsByte(s, p0, 91) {
      ArrayOpens(s, p0, nesting, cfg);
    }
    if cfg.maxNesting != 0 && nesting > cfg.maxNesting {
      return Raised(NestingError);
    }
    var cs, p := 1, p0;
    var acc: seq<Value> := [];
    ghost var goal := if IsByte(s, p0, 91) then ReadArray(s, p0, nesting, cfg) else Raise(ParserError);
    while p < |s|
      invariant p0 <= p <= |s|
      invariant cs == 1 ==> p == p0 && acc == []
      invariant cs != 1 ==> ArrayState(cs) && p > p0 && goal == ArrayRest(cs, s, p, acc, nesting, cfg)
      decreases |s| - p, cs == 2 || cs == 4
    {
      var b := s[p];
      if cs == 1 {
        if b != 91 { cs := 0; break; }
        cs := 2;
      } else if cs != ArrayHome(cs) {
        ArrayInComment(cs, s, p, acc, nesting, cfg);
        cs := CommentStep(cs, ArrayComment(ArrayHome(cs)), ArrayHome(cs), b);
        if cs == 0 { break; }
      } else {
        ArrayIgnores(cs, s, p, acc, nesting, cfg);
        if IsWs(b) {
        } else if b == 47 {
          cs := ArrayComment(cs);
        } else if (cs == 2 || cs == 4) && BeginsValue(b) {
          var v := ParseValue(s, p, nesting, cfg);
          ArrayValues(cs, s, p, acc, nesting, cfg, v);
          if v.Raised? { return v; }
          if v.np.None? { cs := 3; break; }
          acc := acc + [v.result];
          p := v.np.value - 1;
          cs := 3;
        } else {
          ArrayPunctuation(cs, s, p, acc, nesting, cfg);
          if (cs == 2 || cs == 3) && b == 93 { cs := 17; break; }
          else if cs == 3 && b == 44 { cs := 4; }
          else { cs := 0; break; }
        }
      }
      p := p + 1;
    }
    if p == |s| && ArrayState(cs) && p > p0 {
      ArrayAtEnd(cs, s, acc, nesting, cfg);
    }
    r := if cs >= 17 then Returned(Some(p + 1), Arr(acc)) else Raised(ParserError);
  }

  // ---------------------------------------------------------------- values

  function Named(cs: int): Value {
    if cs <= 16 then Infinity(false) else if cs <= 18 then NaN
    else if cs <= 22 then Bool(false) else if cs <= 25 then Null else Bool(true)
  }

  /** The one byte that a state inside a literal name accepts. */
  function Letter(cs: int): byte {
    match cs
    case 10 => 110 case 11 => 102 case 12 => 105 case 13 => 110 case 14 => 105 case 15 => 116 case 16 => 121
    case 17 => 97 case 18 => 78
    case 19 => 97 case 20 => 108 case 21 => 115 case 22 => 101
    case 23 => 117 case 24 => 108 case 25 => 108
    case 26 => 114 case 27 => 117 case _ => 101
  }

  predicate LastLetter(cs: int) {
    cs == 16 || cs == 18 || cs == 22 || cs == 25 || cs == 28
  }

  /** The letters still to come in a state inside a literal name. */
  function Letters(cs: int): bytes
    requires 10 <= cs <= 28
    decreases 28 - cs
  {
    if LastLetter(cs) then [Letter(cs)] else [Letter(cs)] + Letters(cs + 1)
  }

  /** The states inside literal names spell the names. */
  lemma {:induction false} LettersSpell()
    ensures Letters(10) == INFINITY_NAME[1..]
    ensures Letters(17) == NAN_NAME[1..]
    ensures Letters(19) == FALSE_NAME[1..]
    ensures Letters(23) == NULL_NAME[1..]
    ensures Letters(26) == TRUE_NAME[1..]
  {
    assert Letters(13) == [110] + Letters(14) && Letters(14) == [105] + Letters(15) && Letters(15) == [116, 121];
    assert Letters(10) == [110] + Letters(11) && Letters(11) == [102] + Letters(12);
    assert Letters(12) == [105] + Letters(13);
    assert Letters(17) == [97, 78];
    assert Letters(19) == [97] + Letters(20) && Letters(20) == [108] + Letters(21) && Letters(21) == [115, 101];
    assert Letters(23) == [117] + Letters(24) && Letters(24) == [108, 108];
    assert Letters(26) == [114] + Letters(27) && Letters(27) == [117, 101];
  }

  function NameRest(cs: int, s: bytes, p: nat, cfg: Config): Outcome
    requires 10 <= cs <= 28
  {
    if !At(s, p, Letters(cs)) then Fail
    else if cs <= 18 && !cfg.allowNaN then Raise(ParserError)
    else Done(Named(cs), p + |Letters(cs)|)
  }

  /** One byte of a literal name. */
  lemma {:induction false} NameStep(cs: int, s: bytes, p: nat, cfg: Config)
    requires 10 <= cs <= 28 && p <= |s|
    ensures p == |s| || s[p] != Letter(cs) ==> NameRest(cs, s, p, cfg) == Fail
    ensures p < |s| && s[p] == Letter(cs) && LastLetter(cs) ==>
              NameRest(cs, s, p, cfg)
              == if cs <= 18 && !cfg.allowNaN then Raise(ParserError) else Done(Named(cs), p + 1)
    ensures p < |s| && s[p] == Letter(cs) && !LastLetter(cs) ==>
              cs < 28 && NameRest(cs, s, p, cfg) == NameRest(cs + 1, s, p + 1, cfg)
  {
    hide Letter;
    var l := Letters(cs);
    assert l[1..] == if LastLetter(cs) then [] else Letters(cs + 1);
    assert At(s, p, l) <==> p < |s| && s[p] == l[0] && At(s, p + 1, l[1..]);
  }

  /** The state after the first letter of a literal name. */
  function NameState(b: byte): int {
    if b == 73 then 10 else if b == 78 then 17 else if b == 102 then 19
    else if b == 110 then 23 else if b == 116 then 26 else 0
  }

  lemma {:induction false} NameBegins(s: bytes, p: nat, nesting: nat, cfg: Config)
    requires p < |s| && NameState(s[p]) != 0
    ensures ReadToken(s, p, nesting, cfg) == NameRest(NameState(s[p]), s, p + 1, cfg)
  {
    hide ReadNumber, ReadString, ReadArray, ReadObject, Letters;
    LettersSpell();
  }

  function ValueRest(cs: int, s: bytes, p: nat, nesting: nat, cfg: Config): Outcome
    requires p <= |s| && (cs == 1 || 6 <= cs <= 9 || 10 <= cs <= 28)
  {
    if cs >= 10 then NameRest(cs, s, p, cfg)
    else
      var t := if cs == 1 then Next(s, p) else NextBehind(cs - 6, s, p);
      if t.None? then Fail else ReadToken(s, t.value, nesting, cfg)
  }

  /** A byte of ignorable text before a value. */
  lemma {:induction false} ValueIgnores(cs: int, s: bytes, p: nat, nesting: nat, cfg: Config)
    requires p < |s| && (cs == 1 || 6 <= cs <= 9)
    ensures cs == 1 && IsWs(s[p]) ==> ValueRest(1, s, p, nesting, cfg) == ValueRest(1, s, p + 1, nesting, cfg)
    ensures cs == 1 && s[p] == 47 ==> ValueRest(1, s, p, nesting, cfg) == ValueRest(6, s, p + 1, nesting, cfg)
    ensures cs == 1 && !IsWs(s[p]) && s[p] != 47 ==>
              ValueRest(1, s, p, nesting, cfg) == ReadToken(s, p, nesting, cfg)
    ensures cs != 1 ==>
              var next := CommentStep(cs, 6, 1, s[p]);
              if next == 0 then ValueRest(cs, s, p, nesting, cfg) == Fail
              else
                && (next == 1 || 6 <= next <= 9)
                && ValueRest(cs, s, p, nesting, cfg) == ValueRest(next, s, p + 1, nesting, cfg)
  {
    hide Next, NextBehind, ReadToken;
    NextStep(s, p);
    if cs != 1 {
      CommentStepEnd(cs, 6, 1, s, p);
    }
  }

  lemma {:induction false} ValueAtEnd(cs: int, s: bytes, nesting: nat, cfg: Config)
    requires cs == 1 || 6 <= cs <= 9 || 10 <= cs <= 28
    ensures ValueRest(cs, s, |s|, nesting, cfg) == Fail
  {
    hide Next, NextBehind, ReadToken;
    NextAtEnd(s, cs - 6);
    if cs >= 10 {
      NameStep(cs, s, |s|, cfg);
    }
  }

  /** The actions that call another machine. */
  lemma {:induction false} TokenCalls(s: bytes, p: nat, nesting: nat, cfg: Config)
    requires p < |s|
    ensures s[p] == 34 ==> ReadToken(s, p, nesting, cfg) == OrStuck(ReadString(s, p), p)
    ensures s[p] == 45 || IsDigit(s[p]) ==> ReadToken(s, p, nesting, cfg) == ReadNumber(s, p, cfg)
    ensures s[p] == 91 ==> ReadToken(s, p, nesting, cfg) == ReadArray(s, p, nesting + 1, cfg)
    ensures s[p] == 123 ==> ReadToken(s, p, nesting, cfg) == OrStuck(ReadObject(s, p, nesting + 1, cfg), p)
    ensures !BeginsValue(s[p]) ==> ReadToken(s, p, nesting, cfg) == Fail
  {
    hide ReadNumber, ReadString, ReadArray, ReadObject, ReadName;
  }

  /** A returned pointer is passed on; after NULL the own pointer is returned, in the accepting state. */
  function PassOn(r: Step, p: nat): Step {
    if r.Returned? && r.np.None? then Returned(Some(p), r.result) else r
  }

  lemma {:induction false} PassOnAgrees(r: Step, o: Outcome, p: nat)
    requires Agrees(r, o)
    ensures Agrees(PassOn(r, p), OrStuck(o, p))
  {
  }

  /** JSON_parse_value */
  method ParseValue(s: bytes, p0: nat, nesting: nat, cfg: Config) returns (r: Step)
    requires p0 <= |s|
    ensures Agrees(r, ReadValue(s, p0, nesting, cfg))
    decreases |s| - p0, 1
  {
    hide ReadToken, ReadString, ReadNumber, ReadArray, ReadObject, NameRest, Named, Letter;
    var cs, p := 1, p0;
    ghost var goal := ReadValue(s, p0, nesting, cfg);
    while p < |s|
      invariant p0 <= p <= |s| && (cs == 1 || 6 <= cs <= 9 || 10 <= cs <= 28)
      invariant goal == ValueRest(cs, s, p, nesting, cfg)
    {
      var b := s[p];
      if 6 <= cs <= 9 {
        ValueIgnores(cs, s, p, nesting, cfg);
        cs := CommentStep(cs, 6, 1, b);
        if cs == 0 { return Returned(None, Null); }
      } else if cs >= 10 {
        NameStep(cs, s, p, cfg);
        if b != Letter(cs) { return Returned(None, Null); }
        if LastLetter(cs) {
          return if cs <= 18 && !cfg.allowNaN then Raised(ParserError) else Returned(Some(p + 1), Named(cs));
        }
        cs := cs + 1;
      } else {
        ValueIgnores(cs, s, p, nesting, cfg);
        if IsWs(b) {
        } else if b == 47 {
          cs := 6;
        } else if NameState(b) != 0 {
          NameBegins(s, p, nesting, cfg);
          cs := NameState(b);
        } else {
          TokenCalls(s, p, nesting, cfg);
          if b == 34 {
            r := ParseString(s, p);
            PassOnAgrees(r, ReadString(s, p), p);
            return PassOn(r, p);
          } else if b == 45 || IsDigit(b) {
            r := ParseNumber(s, p, cfg);
            return r;
          } else if b == 91 {
            r := ParseArray(s, p, nesting + 1, cfg);
            return PassOn(r, p);
          } else if b == 123 {
            r := ParseObject(s, p, nesting + 1, cfg);
            PassOnAgrees(r, ReadObject(s, p, nesting + 1, cfg), p);
            return PassOn(r, p);
          } else {
            return Returned(None, Null);
          }
        }
      }
      p := p + 1;
    }
    ValueAtEnd(cs, s, nesting, cfg);
    r := Returned(None, Null);
  }

  // ---------------------------------------------------------------- the whole source

  /** Whether only ignorable text is left, from state 10 or inside a comment behind the value. */
  predicate OnlyGapLeft(cs: int, s: bytes, p: nat)
    requires p <= |s|
  {
    if cs == 10 then Skip(s, p) == Some(|s|)
    else
      var e := CommentEnd(cs - 2, s, p);
      e.Some? && Skip(s, e.value) == Some(|s|)
  }

  lemma {:induction false} OnlyGapStep(cs: int, s: bytes, p: nat)
    requires p < |s| && (cs == 10 || 2 <= cs <= 5)
    ensures cs == 10 && IsWs(s[p]) ==> OnlyGapLeft(10, s, p) == OnlyGapLeft(10, s, p + 1)
    ensures cs == 10 && s[p] == 47 ==> OnlyGapLeft(10, s, p) == OnlyGapLeft(2, s, p + 1)
    ensures cs == 10 && !IsWs(s[p]) && s[p] != 47 ==> !OnlyGapLeft(10, s, p)
    ensures cs != 10 ==>
              var next := CommentStep(cs, 2, 10, s[p]);
              if next == 0 then !OnlyGapLeft(cs, s, p)
              else (next == 10 || 2 <= next <= 5) && OnlyGapLeft(cs, s, p) == OnlyGapLeft(next, s, p + 1)
  {
  }

  /** What the main machine gives from state `cs` at `p` on; `v` is the value, once it has been parsed. */
  function SourceRest(cs: int, s: bytes, p: nat, v: Value, cfg: Config): Result<Value, Error>
    requires p <= |s|
  {
    if cs == 10 || 2 <= cs <= 5 then (if OnlyGapLeft(cs, s, p) then Ok(v) else Err(ParserError))
    else
      var t := if cs == 1 then Next(s, p) else NextBehind(cs - 6, s, p);
      if t.None? || !BeginsValue(s[t.value]) then Err(ParserError)
      else
        match ReadValue(s, t.value, 0, cfg)
        case Raise(e) => Err(e)
        case Done(w, next) => if Skip(s, next) == Some(|s|) then Ok(w) else Err(ParserError)
        case _ => Err(ParserError)
  }

  /** Ignorable text before the value, or a value or nothing that can be one. */
  lemma {:induction false} SourceBefore(cs: int, s: bytes, p: nat, v: Value, cfg: Config)
    requires p < |s| && (cs == 1 || 6 <= cs <= 9)
    ensures cs == 1 && IsWs(s[p]) ==> SourceRest(1, s, p, v, cfg) == SourceRest(1, s, p + 1, v, cfg)
    ensures cs == 1 && s[p] == 47 ==> SourceRest(1, s, p, v, cfg) == SourceRest(6, s, p + 1, v, cfg)
    ensures cs == 1 && !IsWs(s[p]) && s[p] != 47 && !BeginsValue(s[p]) ==>
              SourceRest(1, s, p, v, cfg) == Err(ParserError)
    ensures cs != 1 ==>
              var next := CommentStep(cs, 6, 1, s[p]);
              if next == 0 then SourceRest(cs, s, p, v, cfg) == Err(ParserError)
              else (next == 1 || 6 <= next <= 9) && SourceRest(cs, s, p, v, cfg) == SourceRest(next, s, p + 1, v, cfg)
  {
    hide Next, NextBehind, ReadValue, Skip;
    NextStep(s, p);
    if cs != 1 {
      CommentStepEnd(cs, 6, 1, s, p);
    }
  }

  /** A value that has been parsed, or not: the main machine goes on at the returned pointer. */
  lemma {:induction false} SourceValue(s: bytes, p: nat, v: Value, cfg: Config, r: Step)
    requires p < |s| && BeginsValue(s[p]) && Agrees(r, ReadValue(s, p, 0, cfg))
    ensures var goal := SourceRest(1, s, p, v, cfg);
            if r.Raised? then goal == Err(r.e)
            else if r.np.None? then goal == Err(ParserError)
            else p <= r.np.value <= |s| && goal == SourceRest(10, s, r.np.value, r.result, cfg)
  {
    hide Next, ReadToken;
    NextStep(s, p);
    var o := ReadValue(s, p, 0, cfg);
    if o.Stuck? {
      StuckBegins(s, p, 0, cfg);
    }
  }

  lemma {:induction false} SourceAtEnd(cs: int, s: bytes, v: Value, cfg: Config)
    requires 1 <= cs <= 10
    ensures SourceRest(cs, s, |s|, v, cfg) == if cs == 10 then Ok(v) else Err(ParserError)
  {
    hide Next, NextBehind, ReadValue;
    NextAtEnd(s, cs - 6);
  }

  /** cParser_parse */
  method ParseSource(s: bytes, cfg: Config) returns (r: Result<Value, Error>)
    ensures r == Parse(s, cfg)
  {
    hide ReadValue, OnlyGapLeft, SourceRest;
    var cs, p := 1, 0;
    var result := Null;
    ghost var goal := Parse(s, cfg);
    SourceBegins(s, result, cfg);
    while p < |s|
      invariant 0 <= p <= |s| && 1 <= cs <= 10
      invariant goal == SourceRest(cs, s, p, result, cfg)
      decreases |s| - p, cs == 1
    {
      var b := s[p];
      if cs == 10 || 2 <= cs <= 5 {
        SourceBehind(cs, s, p, result, cfg);
        if cs != 10 { cs := CommentStep(cs, 2, 10, b); }
        else if IsWs(b) { }
        else if b == 47 { cs := 2; }
        else { cs := 0; }
        if cs == 0 { break; }
      } else if cs == 1 && BeginsValue(b) {
        var v := ParseValue(s, p, 0, cfg);
        SourceValue(s, p, result, cfg, v);
        if v.Raised? { return Err(v.e); }
        if v.np.None? { cs := 10; break; }
        result := v.result;
        p := v.np.value;
        cs := 10;
        continue;
      } else {
        SourceBefore(cs, s, p, result, cfg);
        if cs != 1 { cs := CommentStep(cs, 6, 1, b); }
        else if IsWs(b) { }
        else if b == 47 { cs := 6; }
        else { cs := 0; }
        if cs == 0 { break; }
      }
      p := p + 1;
    }
    if p == |s| && cs > 0 {
      SourceAtEnd(cs, s, result, cfg);
    }
    r := if cs >= 10 && p == |s| then Ok(result) else Err(ParserError);
  }

  lemma {:induction false} SourceBegins(s: bytes, v: Value, cfg: Config)
    ensures Parse(s, cfg) == SourceRest(1, s, 0, v, cfg)
  {
    hide Next, ReadValue, Skip;
  }

  lemma {:induction false} SourceBehind(cs: int, s: bytes, p: nat, v: Value, cfg: Config)
    requires p < |s| && (cs == 10 || 2 <= cs <= 5)
    ensures cs == 10 && IsWs(s[p]) ==> SourceRest(10, s, p, v, cfg) == SourceRest(10, s, p + 1, v, cfg)
    ensures cs == 10 && s[p] == 47 ==> SourceRest(10, s, p, v, cfg) == SourceRest(2, s, p + 1, v, cfg)
    ensures cs == 10 && !IsWs(s[p]) && s[p] != 47 ==> SourceRest(10, s, p, v, cfg) == Err(ParserError)
    ensures cs != 10 ==>
              var next := CommentStep(cs, 2, 10, s[p]);
              if next == 0 then SourceRest(cs, s, p, v, cfg) == Err(ParserError)
              else (next == 10 || 2 <= next <= 5) && SourceRest(cs, s, p, v, cfg) == SourceRest(next, s, p + 1, v, cfg)
  {
    hide OnlyGapLeft;
    OnlyGapStep(cs, s, p);
  }
}
