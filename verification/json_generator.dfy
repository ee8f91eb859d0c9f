/**
 generate_json and its helpers: a value is written with a depth counter and
 formatting options into a growing buffer. The methods of `State` follow the C
 functions; `Generated` says what they write or raise.
 */
module JsonGenerator {
  import opened Bytes
  import opened Decimal
  import opened FBuffers
  import opened JsonConverters
  import opened JsonNames
  import opened JsonValue

  /** A missing option is None, a NULL pointer in C. */
  datatype Options = Options(
    indent: Option<bytes>, space: Option<bytes>, spaceBefore: Option<bytes>,
    objectNl: Option<bytes>, arrayNl: Option<bytes>,
    maxNesting: int, allowNaN: bool, asciiOnly: bool)

  function OrEmpty(b: Option<bytes>): bytes {
    if b.Some? then b.value else []
  }

  function Repeat(b: bytes, n: int): bytes
    decreases if n > 0 then n else 0
  {
    if n <= 0 then [] else Repeat(b, n - 1) + b
  }

  function IndentText(o: Options, depth: int): bytes {
    Repeat(OrEmpty(o.indent), depth)
  }

  /** Line break and indentation before a closing bracket, if there are line breaks. */
  function Closing(nl: Option<bytes>, o: Options, depth: int): bytes {
    if nl.Some? then nl.value + IndentText(o, depth) else []
  }

  function NameDelimiter(o: Options): bytes {
    OrEmpty(o.spaceBefore) + ([COLON] + OrEmpty(o.space))
  }

  predicate GenTooDeep(depth: int, o: Options) {
    o.maxNesting != 0 && depth > o.maxNesting
  }

  /** generate_json_string */
  function StringJson(s: bytes, o: Options): Result<bytes, GenError> {
    var r := if o.asciiOnly then ConvertAscii(s, 0) else Convert(s, 0);
    if r.Err? then r else Ok(Quoted(r.value))
  }

  /** What is written for a value at a depth, or raised. */
  function Generated(v: Value, depth: int, o: Options): Result<bytes, GenError>
    decreases v, 1, 0
  {
    match v
    case Null => Ok(NULL_NAME)
    case Bool(b) => Ok(if b then TRUE_NAME else FALSE_NAME)
    case Int(n) => Ok(Signed(n))
    case Float(text) => Ok(text)
    case NaN => if o.allowNaN then Ok(NAN_NAME) else Err(NotANumber)
    case Infinity(negative) =>
      if o.allowNaN then Ok((if negative then [MINUS] else []) + INFINITY_NAME) else Err(NotANumber)
    case Str(s) => StringJson(s, o)
    case Arr(elems) =>
      if GenTooDeep(depth + 1, o) then Err(TooNested)
      else
        var inner := GeneratedElems(v, |elems|, depth + 1, o);
        if inner.Err? then inner
        else Ok([OPEN_BRACKET] + (OrEmpty(o.arrayNl) + inner.value + Closing(o.arrayNl, o, depth) + [CLOSE_BRACKET]))
    case Obj(members) =>
      if GenTooDeep(depth + 1, o) then Err(TooNested)
      else
        var inner := GeneratedMembers(v, |members|, depth + 1, o);
        if inner.Err? then inner
        else Ok([OPEN_BRACE] + (inner.value + Closing(o.objectNl, o, depth) + [CLOSE_BRACE]))
  }

  /** The first `n` elements of an array. */
  function GeneratedElems(v: Value, n: nat, depth: int, o: Options): Result<bytes, GenError>
    requires v.Arr? && n <= |v.elems|
    decreases v, 0, n
  {
    if n == 0 then Ok([])
    else
      var before := GeneratedElems(v, n - 1, depth, o);
      if before.Err? then before
      else
        var e := Generated(v.elems[n - 1], depth, o);
        if e.Err? then e
        else Ok(before.value + (ElemLead(n - 1, depth, o) + e.value))
  }

  /** One element with what comes before it. */
  function ElemJson(v: Value, i: nat, depth: int, o: Options): Result<bytes, GenError>
    requires v.Arr? && i < |v.elems|
  {
    Before(ElemLead(i, depth, o), Generated(v.elems[i], depth, o))
  }

  function ElemLead(i: nat, depth: int, o: Options): bytes {
    (if i > 0 then [COMMA] + OrEmpty(o.arrayNl) else []) + IndentText(o, depth)
  }

  /** The first `n` members of an object. */
  function GeneratedMembers(v: Value, n: nat, depth: int, o: Options): Result<bytes, GenError>
    requires v.Obj? && n <= |v.members|
    decreases v, 0, n
  {
    if n == 0 then Ok([])
    else
      var before := GeneratedMembers(v, n - 1, depth, o);
      if before.Err? then before
      else
        var key := StringJson(v.members[n - 1].key, o);
        if key.Err? then key
        else
          var e := Generated(v.members[n - 1].value, depth, o);
          if e.Err? then e
          else Ok(before.value + (MemberLead(n - 1, depth, o) + key.value + NameDelimiter(o) + e.value))
  }

  /** One member with what comes before it. */
  function MemberJson(v: Value, i: nat, depth: int, o: Options): Result<bytes, GenError>
    requires v.Obj? && i < |v.members|
  {
    var key := StringJson(v.members[i].key, o);
    if key.Err? then key
    else Before(MemberLead(i, depth, o) + key.value + NameDelimiter(o), Generated(v.members[i].value, depth, o))
  }

  function MemberLead(i: nat, depth: int, o: Options): bytes {
    (if i > 0 then [COMMA] else []) + OrEmpty(o.objectNl) + IndentText(o, depth)
  }

  /** The depth counter after a value: as it was, or raised by every bracket that is open where an error is raised. */
  function DepthLeft(v: Value, depth: int, o: Options): int
    decreases v, 1, 0
  {
    match v
    case Arr(elems) =>
      if GenTooDeep(depth + 1, o) || GeneratedElems(v, |elems|, depth + 1, o).Ok? then depth
      else ElemsDepthLeft(v, |elems|, depth + 1, o)
    case Obj(members) =>
      if GenTooDeep(depth + 1, o) || GeneratedMembers(v, |members|, depth + 1, o).Ok? then depth
      else MembersDepthLeft(v, |members|, depth + 1, o)
    case _ => depth
  }

  /** After the first `n` elements of an array, of which the first to fail is the last to be tried. */
  function ElemsDepthLeft(v: Value, n: nat, depth: int, o: Options): int
    requires v.Arr? && n <= |v.elems|
    decreases v, 0, n
  {
    if n == 0 then depth
    else if GeneratedElems(v, n - 1, depth, o).Err? then ElemsDepthLeft(v, n - 1, depth, o)
    else DepthLeft(v.elems[n - 1], depth, o)
  }

  function MembersDepthLeft(v: Value, n: nat, depth: int, o: Options): int
    requires v.Obj? && n <= |v.members|
    decreases v, 0, n
  {
    if n == 0 then depth
    else if GeneratedMembers(v, n - 1, depth, o).Err? then MembersDepthLeft(v, n - 1, depth, o)
    else MemberDepthLeft(v, n - 1, depth, o)
  }

  function MemberDepthLeft(v: Value, i: nat, depth: int, o: Options): int
    requires v.Obj? && i < |v.members|
    decreases v, 0, i
  {
    if StringJson(v.members[i].key, o).Err? then depth else DepthLeft(v.members[i].value, depth, o)
  }

  function MaxInt(a: int, b: int): int {
    if a >= b then a else b
  }

  /** How a call ends, given what it should write or raise: with its text appended, or with the error. */
  predicate Appended(r: Result<bytes, GenError>, error: Option<GenError>, before: bytes, after: bytes) {
    match r
    case Ok(text) => error == None && after == before + text
    case Err(e) => error == Some(e)
  }

  /** JSON_Generator_State: the depth counter, the options, and the delimiters made from them. */
  class State {
    var depth: int
    const options: Options
    var objectDelim: bytes
    var objectDelim2: bytes
    var arrayDelim: bytes

    constructor (options: Options)
      ensures this.options == options && depth == 0
    {
      this.options := options;
      depth := 0;
      objectDelim, objectDelim2, arrayDelim := [], [], [];
    }

    predicate Prepared()
      reads `objectDelim, `objectDelim2, `arrayDelim
    {
      && objectDelim == [COMMA]
      && objectDelim2 == NameDelimiter(options)
      && arrayDelim == [COMMA] + OrEmpty(options.arrayNl)
    }

    /** cState_prepare_buffer */
    method PrepareBuffer(initialLength: nat) returns (buffer: FBuffer)
      modifies this`objectDelim, this`objectDelim2, this`arrayDelim
      ensures Prepared() && fresh(buffer) && buffer.Valid() && buffer.Contents() == [] && buffer.ptr == null
    {
      buffer := new FBuffer(initialLength);
      objectDelim := [COMMA];
      objectDelim2 := [];
      if options.spaceBefore.Some? { objectDelim2 := objectDelim2 + options.spaceBefore.value; }
      objectDelim2 := objectDelim2 + [COLON];
      if options.space.Some? { objectDelim2 := objectDelim2 + options.space.value; }
      arrayDelim := [COMMA];
      if options.arrayNl.Some? { arrayDelim := arrayDelim + options.arrayNl.value; }
    }

    /** The indentation loops. */
    method AppendIndent(buffer: FBuffer, levels: int)
      requires buffer.Valid()
      modifies buffer, buffer.ptr
      ensures buffer.Valid() && (buffer.ptr == old(buffer.ptr) || fresh(buffer.ptr))
      ensures buffer.Contents() == old(buffer.Contents()) + IndentText(options, levels)
    {
      if options.indent.Some? {
        AppendRepeated(buffer, options.indent.value, levels);
      } else {
        RepeatNothing(levels);
        assert buffer.Contents() + [] == buffer.Contents();
      }
    }

    /** The line break and indentation before a closing bracket. */
    method AppendClosing(buffer: FBuffer, nl: Option<bytes>, levels: int)
      requires buffer.Valid()
      modifies buffer, buffer.ptr
      ensures buffer.Valid() && (buffer.ptr == old(buffer.ptr) || fresh(buffer.ptr))
      ensures buffer.Contents() == old(buffer.Contents()) + Closing(nl, options, levels)
    {
      hide FBuffer.Valid, FBuffer.Contents, IndentText;
      ghost var before := buffer.Contents();
      if nl.Some? {
        buffer.Append(nl.value);
        AppendIndent(buffer, levels);
        assert before + nl.value + IndentText(options, levels) == before + (nl.value + IndentText(options, levels));
      } else {
        assert before + [] == before;
      }
    }

    /** The comma, line break and indentation before the name of a member. */
    method AppendMemberLead(buffer: FBuffer, i: nat)
      requires buffer.Valid() && Prepared()
      modifies buffer, buffer.ptr
      ensures buffer.Valid() && (buffer.ptr == old(buffer.ptr) || fresh(buffer.ptr))
      ensures buffer.Contents() == old(buffer.Contents()) + MemberLead(i, depth, options)
    {
      hide FBuffer.Valid, FBuffer.Contents, IndentText, MemberLead;
      ghost var contents := buffer.Contents();
      if i > 0 { buffer.Append(objectDelim); }
      if options.objectNl.Some? { buffer.Append(options.objectNl.value); }
      AppendIndent(buffer, depth);
      LedMember(contents, i, depth, options, buffer.Contents());
    }

    /** generate_json_string */
    method GenerateString(buffer: FBuffer, s: bytes) returns (error: Option<GenError>)
      requires buffer.Valid()
      modifies buffer, buffer.ptr
      ensures buffer.Valid() && (buffer.ptr == old(buffer.ptr) || fresh(buffer.ptr))
      ensures Appended(StringJson(s, options), error, old(buffer.Contents()), buffer.Contents())
      ensures error != Some(TooNested)
    {
      hide FBuffer.Valid, FBuffer.Contents, Convert, ConvertAscii;
      ghost var before := buffer.Contents();
      ConvertErrors(s, 0);
      buffer.AppendChar(QUOTE);
      if options.asciiOnly {
        error := ConvertToJsonAscii(buffer, s);
      } else {
        error := ConvertToJson(buffer, s);
      }
      if error.Some? { return; }
      ghost var text := if options.asciiOnly then ConvertAscii(s, 0).value else Convert(s, 0).value;
      buffer.AppendChar(QUOTE);
      assert before + [QUOTE] + text + [QUOTE] == before + Quoted(text);
    }

    /** generate_json */
    method Generate(buffer: FBuffer, v: Value) returns (error: Option<GenError>)
      requires buffer.Valid() && Prepared()
      modifies this`depth, buffer, buffer.ptr
      ensures buffer.Valid() && (buffer.ptr == old(buffer.ptr) || fresh(buffer.ptr))
      ensures Appended(Generated(v, old(depth), options), error, old(buffer.Contents()), buffer.Contents())
      ensures depth == DepthLeft(v, old(depth), options) && (error == None ==> depth == old(depth))
      ensures error == Some(TooNested) ==> options.maxNesting != 0 && depth == MaxInt(old(depth), options.maxNesting)
      decreases v, 2
    {
      hide IsDoubled, GeneratedElems, GeneratedMembers, StringJson, Prepared, Digits;
      error := None;
      match v
      case Obj(_) => error := GenerateObject(buffer, v);
      case Arr(_) => error := GenerateArray(buffer, v);
      case Str(s) => error := GenerateString(buffer, s);
      case Null => buffer.Append(NULL_NAME);
      case Bool(b) => buffer.Append(if b then TRUE_NAME else FALSE_NAME);
      case Int(n) =>
        if -FIXNUM_LIMIT <= n < FIXNUM_LIMIT {
          buffer.AppendLong(n);
        } else {
          buffer.Append(Signed(n));
        }
      case Float(text) => buffer.Append(text);
      case NaN =>
        if !options.allowNaN { return Some(NotANumber); }
        buffer.Append(NAN_NAME);
      case Infinity(negative) =>
        if !options.allowNaN { return Some(NotANumber); }
        buffer.Append((if negative then [MINUS] else []) + INFINITY_NAME);
    }

    /** One round of the loop of generate_json_array. */
    method GenerateElem(buffer: FBuffer, v: Value, i: nat) returns (error: Option<GenError>)
      requires v.Arr? && i < |v.elems| && buffer.Valid() && Prepared()
      modifies this`depth, buffer, buffer.ptr
      ensures buffer.Valid() && (buffer.ptr == old(buffer.ptr) || fresh(buffer.ptr))
      ensures Appended(ElemJson(v, i, old(depth), options), error, old(buffer.Contents()), buffer.Contents())
      ensures depth == DepthLeft(v.elems[i], old(depth), options) && (error == None ==> depth == old(depth))
      ensures error == Some(TooNested) ==> options.maxNesting != 0 && depth == MaxInt(old(depth), options.maxNesting)
      decreases v, 0
    {
      hide FBuffer.Valid, FBuffer.Contents, Generated, Repeat;
      ghost var contents := buffer.Contents();
      if i > 0 { buffer.Append(arrayDelim); }
      AppendIndent(buffer, depth);
      LedElem(contents, i, depth, options, buffer.Contents());
      error := Generate(buffer, v.elems[i]);
      LedTwice(contents, ElemLead(i, old(depth), options), Generated(v.elems[i], old(depth), options), error,
               buffer.Contents());
    }

    /** The bracket and the line break that open an array. */
    method AppendOpening(buffer: FBuffer)
      requires buffer.Valid()
      modifies buffer, buffer.ptr
      ensures buffer.Valid() && (buffer.ptr == old(buffer.ptr) || fresh(buffer.ptr))
      ensures buffer.Contents() == old(buffer.Contents()) + [OPEN_BRACKET] + OrEmpty(options.arrayNl)
    {
      hide FBuffer.Valid, FBuffer.Contents;
      buffer.AppendChar(OPEN_BRACKET);
      if options.arrayNl.Some? { buffer.Append(options.arrayNl.value); }
    }

    /** generate_json_array */
    method GenerateArray(buffer: FBuffer, v: Value) returns (error: Option<GenError>)
      requires v.Arr? && buffer.Valid() && Prepared()
      modifies this`depth, buffer, buffer.ptr
      ensures buffer.Valid() && (buffer.ptr == old(buffer.ptr) || fresh(buffer.ptr))
      ensures Appended(Generated(v, old(depth), options), error, old(buffer.Contents()), buffer.Contents())
      ensures depth == DepthLeft(v, old(depth), options) && (error == None ==> depth == old(depth))
      ensures error == Some(TooNested) ==> options.maxNesting != 0 && depth == MaxInt(old(depth), options.maxNesting)
      decreases v, 1
    {
      hide FBuffer.Valid, FBuffer.Contents, GeneratedElems, ElemJson, Closing, State.Prepared, Generated;
      ghost var before := buffer.Contents();
      depth := depth + 1;
      var d := depth;
      if options.maxNesting != 0 && d > options.maxNesting {
        depth := depth - 1;
        NestedTooDeep(v, depth, options);
        return Some(TooNested);
      }
      AppendOpening(buffer);
      ghost var begun := before + [OPEN_BRACKET] + OrEmpty(options.arrayNl);
      var i := 0;
      ghost var inner: bytes := [];
      NoElems(v, d, options);
      assert begun + [] == begun;
      while i < |v.elems|
        invariant 0 <= i <= |v.elems| && buffer.Valid() && (buffer.ptr == old(buffer.ptr) || fresh(buffer.ptr))
        invariant depth == d && Prepared()
        invariant GeneratedElems(v, i, d, options) == Ok(inner) && buffer.Contents() == begun + inner
      {
        NextElem(v, i, d, options);
        error := GenerateElem(buffer, v, i);
        if error.Some? {
          ElemsFail(v, i, d, options, error.value);
          return;
        }
        ghost var e := ElemJson(v, i, d, options).value;
        assert begun + inner + e == begun + (inner + e);
        inner := inner + e;
        i := i + 1;
      }
      d := d - 1;
      depth := d;
      AppendClosing(buffer, options.arrayNl, d);
      buffer.AppendChar(CLOSE_BRACKET);
      ArrayClosed(before, v, inner, d, options, buffer.Contents());
      error := None;
    }

    /** One round of the loop of generate_json_object. */
    method GenerateMember(buffer: FBuffer, v: Value, i: nat) returns (error: Option<GenError>)
      requires v.Obj? && i < |v.members| && buffer.Valid() && Prepared()
      modifies this`depth, buffer, buffer.ptr
      ensures buffer.Valid() && (buffer.ptr == old(buffer.ptr) || fresh(buffer.ptr))
      ensures Appended(MemberJson(v, i, old(depth), options), error, old(buffer.Contents()), buffer.Contents())
      ensures depth == MemberDepthLeft(v, i, old(depth), options) && (error == None ==> depth == old(depth))
      ensures error == Some(TooNested) ==> options.maxNesting != 0 && depth == MaxInt(old(depth), options.maxNesting)
      decreases v, 0
    {
      hide FBuffer.Valid, FBuffer.Contents, Generated, Repeat, StringJson, NameDelimiter, MemberLead;
      ghost var contents := buffer.Contents();
      AppendMemberLead(buffer, i);
      error := GenerateString(buffer, v.members[i].key);
      if error.Some? { return; }
      ghost var key := StringJson(v.members[i].key, options).value;
      buffer.Append(objectDelim2);
      ghost var lead := MemberLead(i, depth, options);
      assert contents + lead + key + NameDelimiter(options) == contents + (lead + key + NameDelimiter(options));
      error := Generate(buffer, v.members[i].value);
      LedTwice(contents, lead + key + NameDelimiter(options), Generated(v.members[i].value, old(depth), options), error,
               buffer.Contents());
    }

    /** generate_json_object */
    method GenerateObject(buffer: FBuffer, v: Value) returns (error: Option<GenError>)
      requires v.Obj? && buffer.Valid() && Prepared()
      modifies this`depth, buffer, buffer.ptr
      ensures buffer.Valid() && (buffer.ptr == old(buffer.ptr) || fresh(buffer.ptr))
      ensures Appended(Generated(v, old(depth), options), error, old(buffer.Contents()), buffer.Contents())
      ensures depth == DepthLeft(v, old(depth), options) && (error == None ==> depth == old(depth))
      ensures error == Some(TooNested) ==> options.maxNesting != 0 && depth == MaxInt(old(depth), options.maxNesting)
      decreases v, 1
    {
      hide FBuffer.Valid, FBuffer.Contents, GeneratedMembers, MemberJson, Closing, State.Prepared, Generated;
      ghost var before := buffer.Contents();
      depth := depth + 1;
      var d := depth;
      if options.maxNesting != 0 && d > options.maxNesting {
        depth := depth - 1;
        NestedTooDeep(v, depth, options);
        return Some(TooNested);
      }
      buffer.AppendChar(OPEN_BRACE);
      ghost var begun := before + [OPEN_BRACE];
      var i := 0;
      ghost var inner: bytes := [];
      NoMembers(v, d, options);
      assert begun + [] == begun;
      while i < |v.members|
        invariant 0 <= i <= |v.members| && buffer.Valid() && (buffer.ptr == old(buffer.ptr) || fresh(buffer.ptr))
        invariant depth == d && Prepared()
        invariant GeneratedMembers(v, i, d, options) == Ok(inner) && buffer.Contents() == begun + inner
      {
        NextMember(v, i, d, options);
        error := GenerateMember(buffer, v, i);
        if error.Some? {
          MembersFail(v, i, d, options, error.value);
          return;
        }
        ghost var e := MemberJson(v, i, d, options).value;
        assert begun + inner + e == begun + (inner + e);
        inner := inner + e;
        i := i + 1;
      }
      depth := depth - 1;
      d := depth;
      AppendClosing(buffer, options.objectNl, d);
      buffer.AppendChar(CLOSE_BRACE);
      ObjectClosed(before, v, inner, d, options, buffer.Contents());
      error := None;
    }

    /** cState_partial_generate: a buffer of its own is filled and returned as a string. */
    method PartialGenerate(v: Value, initialLength: nat) returns (r: Result<bytes, GenError>)
      modifies this`depth, this`objectDelim, this`objectDelim2, this`arrayDelim
      ensures r == Generated(v, old(depth), options)
      ensures depth == DepthLeft(v, old(depth), options) && (r.Ok? ==> depth == old(depth))
      ensures r == Err(TooNested) ==> options.maxNesting != 0 && depth == MaxInt(old(depth), options.maxNesting)
    {
      hide IsDoubled, Generated;
      var buffer := PrepareBuffer(initialLength);
      var error := Generate(buffer, v);
      if error.Some? { return Err(error.value); }
      assert forall t: bytes {:trigger [] + t} :: [] + t == t;
      r := Ok(if buffer.ptr == null then [] else buffer.ptr[..buffer.len]);
    }
  }

  method AppendRepeated(buffer: FBuffer, b: bytes, n: int)
    requires buffer.Valid()
    modifies buffer, buffer.ptr
    ensures buffer.Valid() && (buffer.ptr == old(buffer.ptr) || fresh(buffer.ptr))
    ensures buffer.Contents() == old(buffer.Contents()) + Repeat(b, n)
  {
    hide IsDoubled;
    ghost var before := buffer.Contents();
    var j := 0;
    assert before + [] == before;
    while j < n
      invariant buffer.Valid() && (buffer.ptr == old(buffer.ptr) || fresh(buffer.ptr))
      invariant 0 <= j && (j > 0 ==> j <= n)
      invariant buffer.Contents() == before + Repeat(b, j)
    {
      buffer.Append(b);
      assert before + Repeat(b, j) + b == before + Repeat(b, j + 1);
      j := j + 1;
    }
    assert Repeat(b, j) == Repeat(b, n);
  }

  // ---------------------------------------------------------------- steps of the two loops

  lemma {:induction false} NoElems(v: Value, d: int, o: Options)
    requires v.Arr?
    ensures GeneratedElems(v, 0, d, o) == Ok([])
  {
  }

  lemma {:induction false} NextElem(v: Value, i: nat, d: int, o: Options)
    requires v.Arr? && i < |v.elems|
    ensures var before := GeneratedElems(v, i, d, o);
            var e := ElemJson(v, i, d, o);
            GeneratedElems(v, i + 1, d, o)
            == if before.Err? then before else if e.Err? then e else Ok(before.value + e.value)
  {
    hide Generated, ElemLead;
  }

  /** What an element fails with, the array fails with. */
  lemma {:induction false} ElemsFail(v: Value, i: nat, d: int, o: Options, e: GenError)
    requires v.Arr? && i < |v.elems| && GeneratedElems(v, i, d, o).Ok? && ElemJson(v, i, d, o) == Err(e)
    ensures !GenTooDeep(d, o) ==> Generated(v, d - 1, o) == Err(e)
    ensures !GenTooDeep(d, o) ==> DepthLeft(v, d - 1, o) == DepthLeft(v.elems[i], d, o)
  {
    hide ElemLead;
    ElemsStayFailed(v, i + 1, |v.elems|, d, o);
  }

  lemma {:induction false} ElemsStayFailed(v: Value, i: nat, n: nat, d: int, o: Options)
    requires v.Arr? && i <= n <= |v.elems| && GeneratedElems(v, i, d, o).Err?
    ensures GeneratedElems(v, n, d, o) == GeneratedElems(v, i, d, o)
    ensures ElemsDepthLeft(v, n, d, o) == ElemsDepthLeft(v, i, d, o)
  {
    hide Generated, ElemLead;
    if i < n {
      ElemsStayFailed(v, i, n - 1, d, o);
    }
  }

  lemma {:induction false} LedElem(contents: bytes, i: nat, d: int, o: Options, now: bytes)
    requires now == contents + (if i > 0 then [COMMA] + OrEmpty(o.arrayNl) else []) + IndentText(o, d)
    ensures now == contents + ElemLead(i, d, o)
  {
  }

  lemma {:induction false} LedTwice(
    contents: bytes, lead: bytes, r: Result<bytes, GenError>, error: Option<GenError>, now: bytes)
    requires Appended(r, error, contents + lead, now)
    ensures Appended(Before(lead, r), error, contents, now)
  {
    if r.Ok? {
      assert contents + lead + r.value == contents + (lead + r.value);
    }
  }

  lemma {:induction false} NestedTooDeep(v: Value, d: int, o: Options)
    requires (v.Arr? || v.Obj?) && GenTooDeep(d + 1, o)
    ensures Generated(v, d, o) == Err(TooNested) && DepthLeft(v, d, o) == d
  {
  }

  lemma {:induction false} ArrayClosed(before: bytes, v: Value, inner: bytes, d: int, o: Options, now: bytes)
    requires v.Arr? && !GenTooDeep(d + 1, o) && GeneratedElems(v, |v.elems|, d + 1, o) == Ok(inner)
    requires now == before + [OPEN_BRACKET] + OrEmpty(o.arrayNl) + inner + Closing(o.arrayNl, o, d) + [CLOSE_BRACKET]
    ensures Generated(v, d, o).Ok? && now == before + Generated(v, d, o).value && DepthLeft(v, d, o) == d
  {
    hide Closing, GeneratedElems;
    assert now == before + ([OPEN_BRACKET] + (OrEmpty(o.arrayNl) + inner + Closing(o.arrayNl, o, d) + [CLOSE_BRACKET]));
  }

  lemma {:induction false} NoMembers(v: Value, d: int, o: Options)
    requires v.Obj?
    ensures GeneratedMembers(v, 0, d, o) == Ok([])
  {
  }

  lemma {:induction false} NextMember(v: Value, i: nat, d: int, o: Options)
    requires v.Obj? && i < |v.members|
    ensures var before := GeneratedMembers(v, i, d, o);
            var e := MemberJson(v, i, d, o);
            GeneratedMembers(v, i + 1, d, o)
            == if before.Err? then before else if e.Err? then e else Ok(before.value + e.value)
  {
    hide Generated, MemberLead, StringJson, NameDelimiter;
  }

  /** What a name or a value fails with, the object fails with. */
  lemma {:induction false} MembersFail(v: Value, i: nat, d: int, o: Options, e: GenError)
    requires v.Obj? && i < |v.members| && GeneratedMembers(v, i, d, o).Ok? && MemberJson(v, i, d, o) == Err(e)
    ensures !GenTooDeep(d, o) ==> Generated(v, d - 1, o) == Err(e)
    ensures !GenTooDeep(d, o) ==> DepthLeft(v, d - 1, o) == MemberDepthLeft(v, i, d, o)
  {
    hide MemberLead, StringJson, NameDelimiter;
    MembersStayFailed(v, i + 1, |v.members|, d, o);
  }

  lemma {:induction false} MembersStayFailed(v: Value, i: nat, n: nat, d: int, o: Options)
    requires v.Obj? && i <= n <= |v.members| && GeneratedMembers(v, i, d, o).Err?
    ensures GeneratedMembers(v, n, d, o) == GeneratedMembers(v, i, d, o)
    ensures MembersDepthLeft(v, n, d, o) == MembersDepthLeft(v, i, d, o)
  {
    hide Generated, MemberLead, StringJson, NameDelimiter;
    if i < n {
      MembersStayFailed(v, i, n - 1, d, o);
    }
  }

  lemma {:induction false} LedMember(contents: bytes, i: nat, d: int, o: Options, now: bytes)
    requires now == contents + (if i > 0 then [COMMA] else []) + OrEmpty(o.objectNl) + IndentText(o, d)
    ensures now == contents + MemberLead(i, d, o)
  {
  }

  lemma {:induction false} ObjectClosed(before: bytes, v: Value, inner: bytes, d: int, o: Options, now: bytes)
    requires v.Obj? && !GenTooDeep(d + 1, o) && GeneratedMembers(v, |v.members|, d + 1, o) == Ok(inner)
    requires now == before + [OPEN_BRACE] + inner + Closing(o.objectNl, o, d) + [CLOSE_BRACE]
    ensures Generated(v, d, o).Ok? && now == before + Generated(v, d, o).value && DepthLeft(v, d, o) == d
  {
    hide Closing, GeneratedMembers;
    assert now == before + ([OPEN_BRACE] + (inner + Closing(o.objectNl, o, d) + [CLOSE_BRACE]));
  }

  // ---------------------------------------------------------------- where an error is raised

  function Size(v: Value): nat {
    if v.Arr? then |v.elems| else if v.Obj? then |v.members| else 0
  }

  function GeneratedParts(v: Value, n: nat, depth: int, o: Options): Result<bytes, GenError>
    requires (v.Arr? || v.Obj?) && n <= Size(v)
  {
    if v.Arr? then GeneratedElems(v, n, depth, o) else GeneratedMembers(v, n, depth, o)
  }

  /**
   The error is raised inside the brackets that `path` leads through, at the first
   place that cannot be written: a value that is none of them, a bracket that is
   too deep, or the name of the last member on the path.
   */
  predicate RaisedAt(v: Value, depth: int, o: Options, path: seq<nat>, e: GenError)
    decreases |path|
  {
    if path == [] then
      if v.Arr? || v.Obj? then GenTooDeep(depth + 1, o) && e == TooNested else Generated(v, depth, o) == Err(e)
    else
      && (v.Arr? || v.Obj?) && !GenTooDeep(depth + 1, o)
      && path[0] < Size(v) && GeneratedParts(v, path[0], depth + 1, o).Ok?
      && if v.Arr? then RaisedAt(v.elems[path[0]], depth + 1, o, path[1..], e)
         else
           var key := StringJson(v.members[path[0]].key, o);
           if key.Err? then |path| == 1 && key == Err(e)
           else RaisedAt(v.members[path[0]].value, depth + 1, o, path[1..], e)
  }

  /** The first element that fails. */
  lemma {:induction false} FirstElem(v: Value, n: nat, d: int, o: Options) returns (i: nat)
    requires v.Arr? && n <= |v.elems| && GeneratedElems(v, n, d, o).Err?
    ensures i < n && GeneratedElems(v, i, d, o).Ok?
    ensures Generated(v.elems[i], d, o) == Err(GeneratedElems(v, n, d, o).error)
    ensures ElemsDepthLeft(v, n, d, o) == DepthLeft(v.elems[i], d, o)
  {
    hide Generated, DepthLeft, ElemLead;
    if GeneratedElems(v, n - 1, d, o).Err? {
      i := FirstElem(v, n - 1, d, o);
    } else {
      i := n - 1;
    }
  }

  lemma {:induction false} FirstMember(v: Value, n: nat, d: int, o: Options) returns (i: nat)
    requires v.Obj? && n <= |v.members| && GeneratedMembers(v, n, d, o).Err?
    ensures i < n && GeneratedMembers(v, i, d, o).Ok?
    ensures var key, e := StringJson(v.members[i].key, o), GeneratedMembers(v, n, d, o).error;
            key == Err(e) || (key.Ok? && Generated(v.members[i].value, d, o) == Err(e))
    ensures MembersDepthLeft(v, n, d, o) == MemberDepthLeft(v, i, d, o)
  {
    hide Generated, DepthLeft, StringJson, MemberLead, NameDelimiter;
    if GeneratedMembers(v, n - 1, d, o).Err? {
      i := FirstMember(v, n - 1, d, o);
    } else {
      i := n - 1;
    }
  }

  /**
   After a success the counter is as it was; after an error it counts every bracket
   that is open where the error was raised.
   */
  lemma {:induction false} DepthCountsOpen(v: Value, depth: int, o: Options) returns (path: seq<nat>)
    ensures match Generated(v, depth, o)
            case Ok(_) => DepthLeft(v, depth, o) == depth
            case Err(e) => RaisedAt(v, depth, o, path, e) && DepthLeft(v, depth, o) == depth + |path|
    decreases v
  {
    hide GeneratedElems, GeneratedMembers, ElemsDepthLeft, MembersDepthLeft, StringJson;
    path := [];
    if Generated(v, depth, o).Err? && !GenTooDeep(depth + 1, o) {
      if v.Arr? {
        var i := FirstElem(v, |v.elems|, depth + 1, o);
        var rest := DepthCountsOpen(v.elems[i], depth + 1, o);
        path := [i] + rest;
        assert path[1..] == rest;
      } else if v.Obj? {
        var i := FirstMember(v, |v.members|, depth + 1, o);
        if StringJson(v.members[i].key, o).Err? {
          path := [i];
        } else {
          var rest := DepthCountsOpen(v.members[i].value, depth + 1, o);
          path := [i] + rest;
          assert path[1..] == rest;
        }
      }
    }
  }

  /** A nesting error is raised at the limit, or at once if the counter has reached it. */
  lemma {:induction false} TooNestedAt(v: Value, depth: int, o: Options, path: seq<nat>)
    requires RaisedAt(v, depth, o, path, TooNested)
    ensures o.maxNesting != 0 && depth + |path| == MaxInt(depth, o.maxNesting)
    decreases |path|
  {
    hide GeneratedParts, Convert, ConvertAscii;
    if path == [] {
      if v.Str? {
        ConvertErrors(v.s, 0);
      }
    } else if v.Arr? {
      TooNestedAt(v.elems[path[0]], depth + 1, o, path[1..]);
    } else {
      ConvertErrors(v.members[path[0]].key, 0);
      TooNestedAt(v.members[path[0]].value, depth + 1, o, path[1..]);
    }
  }

  /** After a nesting error the same state refuses every array and every object. */
  lemma {:induction false} RefusesAllAfter(v: Value, depth: int, o: Options, w: Value)
    requires Generated(v, depth, o) == Err(TooNested) && (w.Arr? || w.Obj?)
    ensures DepthLeft(v, depth, o) == MaxInt(depth, o.maxNesting)
    ensures Generated(w, DepthLeft(v, depth, o), o) == Err(TooNested)
  {
    hide DepthLeft, RaisedAt;
    var path := DepthCountsOpen(v, depth, o);
    TooNestedAt(v, depth, o, path);
    NestedTooDeep(w, depth + |path|, o);
  }

  lemma {:induction false} RepeatNothing(n: int)
    ensures Repeat([], n) == []
    decreases if n > 0 then n else 0
  {
    if n > 0 {
      RepeatNothing(n - 1);
    }
  }
}
