/**
 The Ragel machines of parser.c for numbers and strings, as the C code runs them:
 a state `cs` and a position `p`, one transition for each byte. Each is proved to
 compute its function of JsonReader. Bytes are compared as unsigned values; for
 every comparison in the generated code a byte above 127 takes the same branch as
 the negative `char` it is in C.
 */
module JsonScanners {
  import opened Bytes
  import opened JsonReader

  // ---------------------------------------------------------------- integers

  /** What the integer machine finds from state `cs` at `p` on. */
  function IntFrom(cs: int, s: bytes, p: nat): Option<nat>
    requires p <= |s|
  {
    if cs == 1 then IntEnd(s, p)
    else if cs == 2 then
      (if !IsDigitAt(s, p) then None
       else if s[p] == 48 then (if IsDigitAt(s, p + 1) then None else Some(p + 1))
       else Some(DigitsEnd(s, p + 1)))
    else if cs == 3 then (if IsDigitAt(s, p) then None else Some(p))
    else Some(DigitsEnd(s, p))
  }

  lemma {:induction false} IntSigned(s: bytes, p: nat)
    requires p < |s|
    ensures IntEnd(s, p) == IntFrom(2, s, if s[p] == 45 then p + 1 else p)
  {
    DigitsEndMaximal(s, p + 1);
    if s[p] == 45 && p + 1 < |s| {
      DigitsEndMaximal(s, p + 2);
    }
  }

  /** One byte of the integer machine: the next state, 0 for st0, 4 for the end. */
  function IntStep(cs: int, b: byte): int {
    if cs == 1 then
      if b == 45 then 2 else if b == 48 then 3 else if 49 <= b <= 57 then 5 else 0
    else if cs == 2 then
      if b == 48 then 3 else if 49 <= b <= 57 then 5 else 0
    else if cs == 3 then
      if 48 <= b <= 57 then 0 else 4
    else
      if 48 <= b <= 57 then 5 else 4
  }

  predicate IntState(cs: int) {
    1 <= cs <= 3 || cs == 5
  }

  /** One byte of the integer machine, against what it finds. */
  lemma {:induction false} IntStepFinds(cs: int, s: bytes, p: nat)
    requires p < |s| && IntState(cs)
    ensures var next := IntStep(cs, s[p]);
            && (next == 0 ==> IntFrom(cs, s, p) == None)
            && (next == 4 ==> IntFrom(cs, s, p) == Some(p))
            && (next != 0 && next != 4 ==> IntState(next) && IntFrom(cs, s, p) == IntFrom(next, s, p + 1))
  {
    if cs == 1 {
      IntSigned(s, p);
    }
  }

  /** JSON_parse_integer: the position behind the integer. */
  method ScanInteger(s: bytes, p0: nat) returns (r: Option<nat>)
    requires p0 <= |s|
    ensures r == IntEnd(s, p0)
  {
    var cs, p := 1, p0;
    while p < |s|
      invariant p0 <= p <= |s| && IntState(cs)
      invariant IntFrom(cs, s, p) == IntEnd(s, p0)
    {
      IntStepFinds(cs, s, p);
      cs := IntStep(cs, s[p]);
      if cs == 0 || cs == 4 { break; }
      p := p + 1;
    }
    r := if cs >= 3 then Some(p) else None;
  }

  // ---------------------------------------------------------------- floats

  /** What the float machine finds from state `cs` at `p` on. */
  function FloatFrom(cs: int, s: bytes, p: nat): Option<nat>
    requires p <= |s|
  {
    if cs == 1 then FloatEnd(s, p)
    else if cs == 2 then
      (if !IsDigitAt(s, p) then None
       else FloatTailEnd(s, if s[p] == 48 then p + 1 else DigitsEnd(s, p + 1)))
    else if cs == 3 then FloatTailEnd(s, p)
    else if cs == 7 then FloatTailEnd(s, DigitsEnd(s, p))
    else if cs == 4 then (if IsDigitAt(s, p) then FracEnd(s, DigitsEnd(s, p)) else None)
    else if cs == 8 then FracEnd(s, DigitsEnd(s, p))
    else if cs == 5 then ExpEnd(s, p)
    else if cs == 6 then (if IsDigitAt(s, p) then EndUnless(s, DigitsEnd(s, p)) else None)
    else EndUnless(s, DigitsEnd(s, p))
  }

  function EndUnless(s: bytes, p: nat): Option<nat> {
    if FloatGoesOn(s, p) then None else Some(p)
  }

  function FracEnd(s: bytes, p: nat): Option<nat>
    requires p <= |s|
  {
    if IsE(s, p) then ExpEnd(s, p + 1) else EndUnless(s, p)
  }

  lemma {:induction false} FloatSigned(s: bytes, p: nat)
    requires p < |s|
    ensures FloatEnd(s, p) == FloatFrom(2, s, if s[p] == 45 then p + 1 else p)
  {
  }

  /** One byte of the float machine: the next state, 0 for st0, 9 for the end. */
  function FloatStep(cs: int, b: byte): int {
    if cs == 1 then
      if b == 45 then 2 else if b == 48 then 3 else if 49 <= b <= 57 then 7 else 0
    else if cs == 2 then
      if b == 48 then 3 else if 49 <= b <= 57 then 7 else 0
    else if cs == 3 then
      if b == 46 then 4 else if b == 69 || b == 101 then 5 else 0
    else if cs == 4 then
      if 48 <= b <= 57 then 8 else 0
    else if cs == 5 then
      if b == 43 || b == 45 then 6 else if 48 <= b <= 57 then 10 else 0
    else if cs == 6 then
      if 48 <= b <= 57 then 10 else 0
    else if cs == 7 then
      if b == 46 then 4 else if b == 69 || b == 101 then 5 else if 48 <= b <= 57 then 7 else 0
    else if cs == 8 then
      if b == 69 || b == 101 then 5
      else if b > 46 then (if 48 <= b <= 57 then 8 else 9)
      else if b >= 45 then 0
      else 9
    else
      if b == 69 || b == 101 then 0
      else if b > 46 then (if 48 <= b <= 57 then 10 else 9)
      else if b >= 45 then 0
      else 9
  }

  predicate FloatState(cs: int) {
    1 <= cs <= 8 || cs == 10
  }

  /** One byte of the float machine, against what it finds. */
  lemma {:induction false} FloatStepFinds(cs: int, s: bytes, p: nat)
    requires p < |s| && FloatState(cs)
    ensures var next := FloatStep(cs, s[p]);
            && (next == 0 ==> FloatFrom(cs, s, p) == None)
            && (next == 9 ==> FloatFrom(cs, s, p) == Some(p))
            && (next != 0 && next != 9 ==> FloatState(next) && FloatFrom(cs, s, p) == FloatFrom(next, s, p + 1))
  {
    if cs == 1 {
      FloatSigned(s, p);
    }
  }

  /** JSON_parse_float: the position behind the float. */
  method ScanFloat(s: bytes, p0: nat) returns (r: Option<nat>)
    requires p0 <= |s|
    ensures r == FloatEnd(s, p0)
  {
    var cs, p := 1, p0;
    while p < |s|
      invariant p0 <= p <= |s| && FloatState(cs)
      invariant FloatFrom(cs, s, p) == FloatEnd(s, p0)
    {
      FloatStepFinds(cs, s, p);
      cs := FloatStep(cs, s[p]);
      if cs == 0 || cs == 9 { break; }
      p := p + 1;
    }
    r := if cs >= 8 then Some(p) else None;
  }

  // ---------------------------------------------------------------- strings

  /** One byte inside a string: the next state, 0 for st0, 8 at the closing quote. */
  function StringStep(cs: int, b: byte): int {
    if cs == 1 then
      if b == 34 then 2 else 0
    else if cs == 2 then
      if b == 34 then 8 else if b == 92 then 3 else if b <= 31 then 0 else 2
    else if cs == 3 then
      if b == 117 then 4 else if b <= 31 then 0 else 2
    else
      var next := if cs == 7 then 2 else cs + 1;
      if b < 65 then (if 48 <= b <= 57 then next else 0)
      else if b > 70 then (if 97 <= b <= 102 then next else 0)
      else next
  }

  /** `n` hex digits from `p` on. */
  predicate HexDigits(s: bytes, p: nat, n: nat)
    ensures HexDigits(s, p, n) && p <= |s| ==> p + n <= |s|
    decreases n
  {
    n == 0 || (p < |s| && IsHex(s[p]) && HexDigits(s, p + 1, n - 1))
  }

  /** The closing quote, as the string machine finds it from state `cs` at `p` on. */
  function QuoteFrom(cs: int, s: bytes, p: nat): Option<nat>
    requires p <= |s|
  {
    if cs == 1 then (if IsByte(s, p, 34) then BodyEnd(s, p + 1) else None)
    else if cs == 2 then BodyEnd(s, p)
    else if cs == 3 then
      if p == |s| then None
      else if s[p] == 117 then (if HexDigits(s, p + 1, 4) then BodyEnd(s, p + 5) else None)
      else if s[p] < 32 then None
      else BodyEnd(s, p + 1)
    else if 4 <= cs <= 7 && HexDigits(s, p, 8 - cs) then BodyEnd(s, p + (8 - cs))
    else None
  }

  lemma {:induction false} FourHexDigits(s: bytes, p: nat)
    ensures HexDigits(s, p, 4) <==> FourHex(s, p)
  {
    assert HexDigits(s, p, 4) <==> p < |s| && IsHex(s[p]) && HexDigits(s, p + 1, 3);
    assert HexDigits(s, p + 1, 3) <==> p + 1 < |s| && IsHex(s[p + 1]) && HexDigits(s, p + 2, 2);
    assert HexDigits(s, p + 2, 2) <==> p + 2 < |s| && IsHex(s[p + 2]) && HexDigits(s, p + 3, 1);
    assert HexDigits(s, p + 3, 1) <==> p + 3 < |s| && IsHex(s[p + 3]);
  }

  lemma {:induction false} StringStepFinds(cs: int, s: bytes, p: nat)
    requires p < |s| && 1 <= cs <= 7
    ensures var next := StringStep(cs, s[p]);
            && (next == 0 ==> QuoteFrom(cs, s, p) == None)
            && (next == 8 ==> cs == 2 && QuoteFrom(cs, s, p) == Some(p))
            && (next != 0 && next != 8 ==> 1 <= next <= 7 && QuoteFrom(cs, s, p) == QuoteFrom(next, s, p + 1))
  {
    if cs == 2 && s[p] == 92 {
      FourHexDigits(s, p + 2);
    }
  }

  /** The machine of JSON_parse_string: the position of the closing quote. */
  method ScanString(s: bytes, p0: nat) returns (r: Option<nat>)
    requires p0 <= |s|
    ensures r == QuoteFrom(1, s, p0)
  {
    var cs, p := 1, p0;
    while p < |s|
      invariant p0 <= p <= |s| && 1 <= cs <= 7
      invariant QuoteFrom(cs, s, p) == QuoteFrom(1, s, p0)
    {
      StringStepFinds(cs, s, p);
      cs := StringStep(cs, s[p]);
      if cs == 0 || cs == 8 { break; }
      p := p + 1;
    }
    r := if cs >= 8 then Some(p) else None;
  }

  /** Bytes put in front of what is still to be unescaped. */
  lemma {:induction false} PrependTwice(a: bytes, b: bytes, r: Option<bytes>)
    ensures Prepend(a, Prepend(b, r)) == Prepend(a + b, r)
  {
    if r.Some? {
      assert a + (b + r.value) == (a + b) + r.value;
    }
  }

  lemma {:induction false} PrependNothing(r: Option<bytes>)
    ensures Prepend([], r) == r
  {
    if r.Some? {
      assert [] + r.value == r.value;
    }
  }

  /** A byte that is not a backslash joins the bytes still to be copied. */
  lemma {:induction false} UnescapePlain(s: bytes, p: nat, pe: nat, end: nat, result: bytes)
    requires p <= pe < end < |s| && s[end] == 34 && s[pe] != 92
    ensures Prepend(result + s[p..pe], Unescape(s, pe, end)) == Prepend(result + s[p..pe + 1], Unescape(s, pe + 1, end))
  {
    PrependTwice(result + s[p..pe], [s[pe]], Unescape(s, pe + 1, end));
    assert result + s[p..pe] + [s[pe]] == result + s[p..pe + 1];
  }

  /** A backslash before a byte without a meaning of its own is dropped. */
  lemma {:induction false} UnescapeDefault(s: bytes, at: nat, end: nat)
    requires at < end < |s| && s[end] == 34 && s[at] == 92 && ShortEscape(s[at + 1]).None? && s[at + 1] != 117
    ensures at + 1 < end && Unescape(s, at, end) == Unescape(s, at + 1, end)
  {
  }

  /**
   json_string_unescape: plain bytes from `p` to `pe` have been seen but not yet
   copied to `result`; they are copied in one go at the next escape or at the end.
   */
  method UnescapeString(s: bytes, start: nat, end: nat) returns (r: Option<bytes>)
    requires start <= end < |s| && s[end] == 34
    ensures r == Unescape(s, start, end)
  {
    hide Unhex, Utf32ToUtf8, Join, HighMask;
    var p, pe := start, start;
    var result: bytes := [];
    ghost var goal := Unescape(s, start, end);
    assert [] + s[start..start] == [];
    PrependNothing(goal);
    while pe < end
      invariant start <= p <= pe <= end + 1 && (pe > end ==> p == pe)
      invariant goal == Prepend(result + s[p..pe], Unescape(s, pe, end))
    {
      if s[pe] == 92 {
        ghost var before := result + s[p..pe];
        ghost var at := pe;
        if pe > p { result := result + s[p..pe]; }
        assert result == before;
        var unescape: bytes := [63];
        pe := pe + 1;
        if ShortEscape(s[pe]).Some? {
          unescape := [ShortEscape(s[pe]).value];
        } else if s[pe] == 117 {
          if pe > end - 4 { return None; }
          var ch := Unhex(s, pe + 1);
          pe := pe + 4;
          if HighMask(ch) {
            pe := pe + 1;
            if pe > end - 6 { return None; }
            if s[pe] == 92 && s[pe + 1] == 117 {
              var sur := Unhex(s, pe + 2);
              ch := Join(ch, sur);
              pe := pe + 5;
              unescape := Utf32ToUtf8(ch);
            }
          } else {
            unescape := Utf32ToUtf8(ch);
          }
        } else {
          p := pe;
          UnescapeDefault(s, at, end);
          assert result + s[p..pe] == result;
          continue;
        }
        assert Unescape(s, at, end) == Prepend(unescape, Unescape(s, pe + 1, end));
        PrependTwice(result, unescape, Unescape(s, pe + 1, end));
        result := result + unescape;
        pe := pe + 1;
        p := pe;
        assert result + s[p..pe] == result;
      } else {
        UnescapePlain(s, p, pe, end, result);
        pe := pe + 1;
      }
    }
    assert Unescape(s, pe, end) == Some([]);
    assert (result + s[p..pe]) + [] == result + s[p..pe];
    r := Some(result + s[p..pe]);
  }
}
