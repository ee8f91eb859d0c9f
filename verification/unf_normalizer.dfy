/**
 Decomposition as normalizer.hh does it: text that is already normal is copied,
 and only segments between starters that stay as they are get mapped and sorted.
 It is proved to be the plain definition, full mapping of every character and
 then canonical ordering.
 */
module UnfNormalizer {
  import opened Bytes
  import opened UnfOrder
  import opened UnfSort
  import opened UnfTrie
  import Utf8

  /** The tables of table.hh. */
  datatype Tables = Tables(nodes: seq<Node>, classRoot: nat, formRoot: nat, strings: bytes)

  /** What the tables stand for: combining classes, and full decompositions. */
  datatype Meaning = Meaning(cls: Classes, decomposed: Char -> Option<seq<Char>>)

  function ClassKeys(f: Classes): Keys {
    (c: Char) => if f(c) == 0 then None else Some(f(c))
  }

  /** The place and length of a string, packed into the 24 bits of a value. */
  predicate Names(strings: bytes, info: nat, text: bytes) {
    At(strings, info % 0x40000, text) && info / 0x40000 == |text|
  }

  predicate NoNul(cs: seq<Char>) {
    forall i :: 0 <= i < |cs| ==> cs[i] != 0
  }

  /** A decomposition is not empty and cannot be decomposed further. */
  ghost predicate FullyDecomposed(m: Meaning, cs: seq<Char>) {
    cs != [] && NoNul(cs) && forall i :: 0 <= i < |cs| ==> m.decomposed(cs[i]) == None
  }

  /** What is assumed of the tables; `info` are the values found for the characters that decompose. */
  ghost predicate Described(t: Tables, m: Meaning, info: Keys) {
    && m.cls(0) == 0 && (forall c: Char :: m.cls(c) <= 254)
    && TrieOf(t.nodes, t.classRoot, ClassKeys(m.cls))
    && TrieOf(t.nodes, t.formRoot, info)
    && (forall c: Char :: info(c).Some? <==> m.decomposed(c).Some?)
    && (forall c: Char :: info(c).Some? ==> info(c).value < 0x1000000)
    && (forall c: Char :: info(c).Some? ==>
          && FullyDecomposed(m, m.decomposed(c).value)
          && Names(t.strings, info(c).value, Utf8.Text(m.decomposed(c).value)))
  }

  function Map(m: Meaning, c: Char): seq<Char> {
    if m.decomposed(c).Some? then m.decomposed(c).value else [c]
  }

  /** Every character mapped to its full decomposition. */
  function MapAll(m: Meaning, cs: seq<Char>): seq<Char> {
    if cs == [] then [] else Map(m, cs[0]) + MapAll(m, cs[1..])
  }

  /** The decomposed form of a text: all characters mapped, then ordered. */
  function Decomposed(m: Meaning, cs: seq<Char>): seq<Char> {
    Order(m.cls, MapAll(m, cs))
  }

  // ---------------------------------------------------------------- sorting a string in place

  /** The string while it is sorted: ordered up to the `r`-th character, the rest as it was. */
  function HalfSorted(f: Classes, cs: seq<Char>, r: nat): bytes
    requires r <= |cs|
  {
    Utf8.Text(Order(f, cs[..r])) + (Utf8.Text(cs[r..]) + [0])
  }

  lemma {:induction false} InsertTextLength(f: Classes, c: Char, cs: seq<Char>)
    ensures |Utf8.Text(Insert(f, c, cs))| == |Utf8.Encode(c)| + |Utf8.Text(cs)|
  {
    hide Utf8.Encode;
    if cs != [] && Reorderable(f, c, cs[0]) {
      InsertTextLength(f, c, cs[1..]);
      assert Insert(f, c, cs)[1..] == Insert(f, c, cs[1..]);
    } else {
      assert ([c] + cs)[1..] == cs;
    }
  }

  lemma {:induction false} OrderTextLength(f: Classes, cs: seq<Char>)
    ensures |Utf8.Text(Order(f, cs))| == |Utf8.Text(cs)|
  {
    hide Utf8.Encode;
    if cs != [] {
      OrderTextLength(f, cs[1..]);
      InsertTextLength(f, cs[0], Order(f, cs[1..]));
    }
  }

  /** The characters from `r` to `k` still stand where they stood. */
  lemma {:induction false} HalfSortedAt(f: Classes, cs: seq<Char>, r: nat, k: nat)
    requires r <= k <= |cs|
    ensures HalfSorted(f, cs, r)
         == Utf8.Text(Order(f, cs[..r])) + (Utf8.Text(cs[r..k]) + (Utf8.Text(cs[k..]) + [0]))
    ensures |Utf8.Text(Order(f, cs[..r]))| == Pos(cs, r)
    ensures Pos(cs, k) == Pos(cs, r) + |Utf8.Text(cs[r..k])|
    ensures |HalfSorted(f, cs, r)| == Pos(cs, k) + |Utf8.Text(cs[k..])| + 1 == |Utf8.Text(cs)| + 1
  {
    hide Utf8.Text, Order;
    OrderTextLength(f, cs[..r]);
    assert cs[r..] == cs[r..k] + cs[k..];
    Utf8.TextConcat(cs[r..k], cs[k..]);
    assert cs[..k] == cs[..r] + cs[r..k];
    Utf8.TextConcat(cs[..r], cs[r..k]);
    assert cs == cs[..k] + cs[k..];
    Utf8.TextConcat(cs[..k], cs[k..]);
    var a, b, c := Utf8.Text(cs[r..k]), Utf8.Text(cs[k..]), [0];
    assert (a + b) + c == a + (b + c);
  }

  /** The character at the position reached. */
  lemma {:induction false} HalfSortedChar(f: Classes, cs: seq<Char>, r: nat, k: nat, z: bytes)
    requires r <= k < |cs| && z == HalfSorted(f, cs, r)
    ensures At(z, Pos(cs, k), Utf8.Encode(cs[k]))
    ensures Pos(cs, k + 1) == Pos(cs, k) + |Utf8.Encode(cs[k])|
  {
    hide Utf8.Encode, HalfSorted, Pos;
    HalfSortedAt(f, cs, r, k);
    CharAt(cs, k);
    var a, b := Utf8.Text(Order(f, cs[..r])), Utf8.Text(cs[r..k]);
    var rest := Utf8.Text(cs[k + 1..]) + [0];
    assert cs[k..][1..] == cs[k + 1..];
    assert Utf8.Text(cs[k..]) + [0] == Utf8.Encode(cs[k]) + rest;
    assert z[Pos(cs, k)..Pos(cs, k) + |Utf8.Encode(cs[k])|] == Utf8.Encode(cs[k]);
    AtIsSlice(z, Pos(cs, k), Utf8.Encode(cs[k]));
  }

  /** The next start point after reading some of the bytes of a character. */
  lemma {:induction false} StartBehind(z: bytes, p: nat, c: Char, q: nat)
    requires At(z, p, Utf8.Encode(c)) && p < q <= p + |Utf8.Encode(c)|
    requires p + |Utf8.Encode(c)| < |z| && !Utf8.IsTail(z[p + |Utf8.Encode(c)|])
    ensures StartPoint(z, q) == p + |Utf8.Encode(c)|
  {
    hide Utf8.Encode;
    Utf8.EncodeShape(c);
    forall i | q <= i < p + |Utf8.Encode(c)| ensures Utf8.IsTail(z[i]) {
      ByteOf(z, p, c, i - p);
      assert z[p + (i - p)] == z[i];
    }
    TailsSkipped(z, q, p + |Utf8.Encode(c)|);
  }

  /** A character of the half-sorted string is followed by another one or by the NUL. */
  lemma {:induction false} HalfSortedLead(f: Classes, cs: seq<Char>, r: nat, k: nat, z: bytes)
    requires r <= k <= |cs| && NoNul(cs) && z == HalfSorted(f, cs, r)
    ensures Pos(cs, k) < |z| && !Utf8.IsTail(z[Pos(cs, k)])
    ensures z[Pos(cs, k)] == 0 <==> k == |cs|
  {
    hide Utf8.Encode, HalfSorted, Pos;
    HalfSortedAt(f, cs, r, k);
    if k < |cs| {
      HalfSortedChar(f, cs, r, k, z);
      Utf8.EncodeShape(cs[k]);
      ByteOf(z, Pos(cs, k), cs[k], 0);
    } else {
      assert Utf8.Text(cs[k..]) == [];
      HalfSortedAt(f, cs, r, |cs|);
    }
  }

  /** A run whose bytes have been sorted is ordered. */
  lemma {:induction false} RunOrdered(f: Classes, cs: seq<Char>, r: nat, k: nat)
    requires r <= k <= |cs| && (r == 0 || f(cs[r - 1]) == 0)
    ensures HalfSorted(f, cs, k)
         == Utf8.Text(Order(f, cs[..r])) + (Utf8.Text(Order(f, cs[r..k])) + (Utf8.Text(cs[k..]) + [0]))
  {
    hide Utf8.Text, Order;
    var a, b := cs[..r], cs[r..k];
    assert cs[..k] == a + b;
    OrderBehindStarter(f, a, b);
    Utf8.TextConcat(Order(f, a), Order(f, b));
    var x, y, w := Utf8.Text(Order(f, a)), Utf8.Text(Order(f, b)), Utf8.Text(cs[k..]) + [0];
    assert (x + y) + w == x + (y + w);
  }

  /** A starter stays where it is. */
  lemma {:induction false} StarterStays(f: Classes, cs: seq<Char>, k: nat)
    requires k < |cs| && f(cs[k]) == 0
    ensures HalfSorted(f, cs, k + 1) == HalfSorted(f, cs, k)
  {
    hide Utf8.Text, Order, Utf8.Encode;
    var a, c := cs[..k], cs[k];
    assert cs[..k + 1] == a + [c] && cs[k..] == [c] + cs[k + 1..];
    OrderSplits(f, a, [c]);
    StarterStaysFirst(f, [c]);
    assert [c][1..] == [];
    OrderNothing(f, c);
    Utf8.TextConcat(Order(f, a), [c]);
    Utf8.TextConcat([c], cs[k + 1..]);
    var x, y, w := Utf8.Text(Order(f, a)), Utf8.Text([c]), Utf8.Text(cs[k + 1..]);
    assert (x + y) + (w + [0]) == x + ((y + w) + [0]);
  }

  lemma {:induction false} OrderNothing(f: Classes, c: Char)
    ensures Order(f, []) == [] && Order(f, [c]) == [c]
  {
    assert [c][1..] == [];
  }

  lemma {:induction false} MiddleReplaced(was: bytes, now: bytes, a: bytes, m: bytes, m': bytes, b: bytes)
    requires was == a + (m + b) && |now| == |was| && |m| == |m'|
    requires forall i :: 0 <= i < |a| || |a| + |m| <= i < |was| ==> now[i] == was[i]
    requires forall i :: 0 <= i < |m| ==> now[|a| + i] == m'[i]
    ensures now == a + (m' + b)
  {
    forall i | 0 <= i < |now| ensures now[i] == (a + (m' + b))[i] {
      if |a| <= i < |a| + |m| {
        assert now[|a| + (i - |a|)] == m'[i - |a|];
      }
    }
  }

  /** The pairs of a run are what the arrays hold for it. */
  predicate RunHeld(str: array<byte>, classes: array<byte>, f: Classes, cs: seq<Char>, r: nat, k: nat)
    requires r <= k <= |cs|
    reads str, classes
  {
    var z := Pairs(f, cs[r..k]);
    && Pos(cs, r) + |z| == Pos(cs, k) <= str.Length && str.Length == classes.Length
    && Holds(str, classes, Pos(cs, r), z)
  }

  /** The call of bubble_sort when a run ends, if it has more than one character. */
  method SortRun(
    str: array<byte>, classes: array<byte>, sortBeg: nat, sortEnd: nat, count: nat,
    ghost f: Classes, ghost cs: seq<Char>, ghost r: nat, ghost k: nat)
    requires str != classes && r <= k <= |cs| && count == k - r && IsRun(f, cs[r..k]) && (r == 0 || f(cs[r - 1]) == 0)
    requires count > 0 ==> sortBeg == Pos(cs, r) && sortEnd == Pos(cs, k)
    requires str[..] == HalfSorted(f, cs, r) && RunHeld(str, classes, f, cs, r, k)
    modifies str, classes
    ensures str[..] == HalfSorted(f, cs, k)
  {
    hide HalfSorted, Pos, Order, Pairs, SameFilters, Utf8.Text, IsRun, Sorted;
    ghost var run := cs[r..k];
    RunOrdered(f, cs, r, k);
    HalfSortedAt(f, cs, r, k);
    if count > 1 {
      ghost var was := str[..];
      ghost var z := BubbleSort(str, classes, sortBeg, sortEnd, Pairs(f, run));
      SortedBytesAreOrdered(f, run, z);
      assert forall i :: 0 <= i < |z| ==> str[..][sortBeg + i] == BytesOf(z)[i];
      MiddleReplaced(was, str[..], Utf8.Text(Order(f, cs[..r])), Utf8.Text(run), BytesOf(z), Utf8.Text(cs[k..]) + [0]);
    } else {
      ShortRun(f, run);
    }
  }

  lemma {:induction false} ShortRun(f: Classes, run: seq<Char>)
    requires |run| <= 1
    ensures Order(f, run) == run
  {
    if run == [] {
    } else {
      assert run == [run[0]];
      OrderNothing(f, run[0]);
    }
  }

  /** The class of a character is noted for each of its bytes. */
  method NoteClass(classes: array<byte>, beg: nat, end: nat, klass: byte)
    requires beg <= end <= classes.Length
    modifies classes
    ensures forall i :: beg <= i < end ==> classes[i] == klass
    ensures forall i :: 0 <= i < classes.Length && !(beg <= i < end) ==> classes[i] == old(classes[i])
  {
    var i := beg;
    while i < end
      invariant beg <= i <= end
      invariant forall j :: beg <= j < i ==> classes[j] == klass
      invariant forall j :: 0 <= j < classes.Length && !(beg <= j < i) ==> classes[j] == old(classes[j])
    {
      classes[i] := klass;
      i := i + 1;
    }
  }

  /** A run grows by a character whose class has been noted. */
  lemma {:induction false} RunGrows(
    str: array<byte>, classes: array<byte>, f: Classes, cs: seq<Char>, r: nat, k: nat)
    requires r <= k < |cs| && str.Length == classes.Length
    requires Pos(cs, k + 1) == Pos(cs, k) + |Utf8.Encode(cs[k])| <= str.Length
    requires |Pairs(f, cs[r..k])| == Pos(cs, k) - Pos(cs, r) && Holds(str, classes, Pos(cs, r), Pairs(f, cs[r..k]))
    requires At(str[..], Pos(cs, k), Utf8.Encode(cs[k]))
    requires forall i :: Pos(cs, k) <= i < Pos(cs, k + 1) ==> classes[i] == f(cs[k])
    ensures RunHeld(str, classes, f, cs, r, k + 1)
  {
    hide Pos, Utf8.Encode, Pairs;
    var a, b := Pairs(f, cs[r..k]), CharPairs(f, cs[k]);
    assert cs[r..k + 1] == cs[r..k] + [cs[k]];
    PairsAppend(f, cs[r..k], cs[k]);
    var beg := Pos(cs, r);
    forall i | 0 <= i < |a + b| ensures (a + b)[i] == Pair(classes[beg + i], str[beg + i]) {
      if i >= |a| {
        ByteOf(str[..], Pos(cs, k), cs[k], i - |a|);
      }
    }
  }

  lemma {:induction false} PairsAppend(f: Classes, cs: seq<Char>, c: Char)
    ensures Pairs(f, cs + [c]) == Pairs(f, cs) + CharPairs(f, c)
  {
    if cs == [] {
      assert cs + [c] == [c] && [c][1..] == [];
      assert Pairs(f, [c]) == CharPairs(f, c) + Pairs(f, []);
    } else {
      assert (cs + [c])[1..] == cs[1..] + [c];
      PairsAppend(f, cs[1..], c);
      assert CharPairs(f, cs[0]) + (Pairs(f, cs[1..]) + CharPairs(f, c))
          == CharPairs(f, cs[0]) + Pairs(f, cs[1..]) + CharPairs(f, c);
    }
  }

  /**
   CanonicalCombiningClass::sort of the NUL-terminated string in `str`: runs of
   characters with a class are collected and sorted when they end. The end is
   looked for behind a character only, so the string must not be empty.
   */
  method Sort(
    nodes: seq<Node>, root: nat, str: array<byte>, classes: array<byte>, ghost f: Classes, ghost cs: seq<Char>)
    requires TrieOf(nodes, root, ClassKeys(f)) && forall c: Char :: f(c) <= 254
    requires cs != [] && NoNul(cs)
    requires str != classes && str.Length == classes.Length && str[..] == Utf8.Text(cs) + [0]
    modifies str, classes
    ensures str[..] == Utf8.Text(Order(f, cs)) + [0]
  {
    hide HalfSorted, Pos, Order, Pairs, Utf8.Text, Utf8.Encode, TrieOf, Step, Walk, StartPoint;
    ghost var r, k := 0, 0;
    SortBegins(f, cs);
    var p, sortBeg, sortEnd, count := 0, 0, 0, 0;
    while true
      invariant 0 <= r <= k < |cs| && p == Pos(cs, k) <= str.Length
      invariant count == k - r && IsRun(f, cs[r..k]) && (r == 0 || f(cs[r - 1]) == 0)
      invariant count > 0 ==> sortBeg == Pos(cs, r) && sortEnd == p
      invariant str[..] == HalfSorted(f, cs, r) && RunHeld(str, classes, f, cs, r, k)
      decreases |cs| - k
    {
      HalfSortedLead(f, cs, r, k, str[..]);
      HalfSortedChar(f, cs, r, k, str[..]);
      HalfSortedLead(f, cs, r, k + 1, str[..]);
      var klass, q := ReadKey(nodes, root, str[..], p, ClassKeys(f), cs[k]);
      if klass.Some? {
        if count == 0 { sortBeg := p; }
        count := count + 1;
        sortEnd := q;
        NoteClass(classes, p, q, klass.value);
        RunGrows(str, classes, f, cs, r, k);
        assert cs[r..k + 1] == cs[r..k] + [cs[k]];
      } else {
        SortRun(str, classes, sortBeg, sortEnd, count, f, cs, r, k);
        HalfSortedChar(f, cs, k, k, str[..]);
        HalfSortedLead(f, cs, k, k + 1, str[..]);
        StarterStays(f, cs, k);
        r := k + 1;
        NewRun(str, classes, f, cs, k + 1);
        count := 0;
      }
      StartBehind(str[..], p, cs[k], q);
      p := NearestStart(str[..], q);
      k := k + 1;
      HalfSortedLead(f, cs, r, k, str[..]);
      if str[p] == 0 { break; }
    }
    SortRun(str, classes, sortBeg, sortEnd, count, f, cs, r, k);
    SortDone(f, cs);
  }

  lemma {:induction false} SortBegins(f: Classes, cs: seq<Char>)
    ensures HalfSorted(f, cs, 0) == Utf8.Text(cs) + [0] && Pos(cs, 0) == 0 && Pairs(f, cs[0..0]) == []
  {
    assert cs[..0] == [] && cs[0..] == cs;
    assert Utf8.Text(Order(f, [])) == [];
    assert [] + (Utf8.Text(cs) + [0]) == Utf8.Text(cs) + [0];
  }

  lemma {:induction false} NewRun(str: array<byte>, classes: array<byte>, f: Classes, cs: seq<Char>, k: nat)
    requires k <= |cs| && Pos(cs, k) <= str.Length && str.Length == classes.Length
    ensures RunHeld(str, classes, f, cs, k, k) && IsRun(f, cs[k..k])
  {
    assert cs[k..k] == [];
  }

  lemma {:induction false} SortDone(f: Classes, cs: seq<Char>)
    ensures HalfSorted(f, cs, |cs|) == Utf8.Text(Order(f, cs)) + [0]
  {
    assert cs[..|cs|] == cs && cs[|cs|..] == [];
    assert Utf8.Text([]) == [] && [] + [0] == [0];
  }

  // ---------------------------------------------------------------- texts that stay as they are

  /** A starter without decomposition: a place where a text can be divided. */
  predicate Boundary(m: Meaning, c: Char) {
    m.cls(c) == 0 && m.decomposed(c) == None
  }

  predicate Undecomposable(m: Meaning, cs: seq<Char>) {
    forall i :: 0 <= i < |cs| ==> m.decomposed(cs[i]) == None
  }

  /** A text that is its own decomposed form. */
  predicate Clean(m: Meaning, cs: seq<Char>) {
    Undecomposable(m, cs) && Ordered(m.cls, cs)
  }

  lemma {:induction false} MapAllConcat(m: Meaning, a: seq<Char>, b: seq<Char>)
    ensures MapAll(m, a + b) == MapAll(m, a) + MapAll(m, b)
  {
    if a == [] {
      assert a + b == b;
    } else {
      assert (a + b)[1..] == a[1..] + b;
      MapAllConcat(m, a[1..], b);
      assert Map(m, a[0]) + (MapAll(m, a[1..]) + MapAll(m, b)) == Map(m, a[0]) + MapAll(m, a[1..]) + MapAll(m, b);
    }
  }

  lemma {:induction false} MapAllStays(m: Meaning, cs: seq<Char>)
    requires Undecomposable(m, cs)
    ensures MapAll(m, cs) == cs
  {
    if cs != [] {
      MapAllStays(m, cs[1..]);
      assert cs == [cs[0]] + cs[1..];
    }
  }

  lemma {:induction false} CleanStays(m: Meaning, cs: seq<Char>)
    requires Clean(m, cs)
    ensures Decomposed(m, cs) == cs
  {
    MapAllStays(m, cs);
    OrderedStays(m.cls, cs);
  }

  /** A text is decomposed piece by piece, where the pieces begin at boundaries. */
  lemma {:induction false} DecomposedSplits(m: Meaning, a: seq<Char>, b: seq<Char>)
    requires a == [] || b == [] || Boundary(m, b[0])
    ensures Decomposed(m, a + b) == Decomposed(m, a) + Decomposed(m, b)
  {
    MapAllConcat(m, a, b);
    if a == [] {
      assert a + b == b && MapAll(m, a) == [];
      assert [] + Order(m.cls, MapAll(m, b)) == Order(m.cls, MapAll(m, b));
    } else {
      OrderSplits(m.cls, MapAll(m, a), MapAll(m, b));
    }
  }

  lemma {:induction false} MapAllFully(t: Tables, m: Meaning, info: Keys, cs: seq<Char>)
    requires Described(t, m, info) && NoNul(cs)
    ensures Undecomposable(m, MapAll(m, cs)) && NoNul(MapAll(m, cs))
  {
    hide TrieOf;
    if cs != [] {
      MapAllFully(t, m, info, cs[1..]);
      var c := cs[0];
      if m.decomposed(c).Some? {
        assert info(c).Some?;
        assert FullyDecomposed(m, m.decomposed(c).value);
      }
    }
  }

  lemma {:induction false} InsertUndecomposable(m: Meaning, c: Char, cs: seq<Char>)
    requires m.decomposed(c) == None && Undecomposable(m, cs)
    ensures Undecomposable(m, Insert(m.cls, c, cs))
  {
    if cs != [] && Reorderable(m.cls, c, cs[0]) {
      InsertUndecomposable(m, c, cs[1..]);
    }
  }

  lemma {:induction false} OrderUndecomposable(m: Meaning, cs: seq<Char>)
    requires Undecomposable(m, cs)
    ensures Undecomposable(m, Order(m.cls, cs))
  {
    if cs != [] {
      OrderUndecomposable(m, cs[1..]);
      InsertUndecomposable(m, cs[0], Order(m.cls, cs[1..]));
    }
  }

  lemma {:induction false} InsertNoNul(f: Classes, c: Char, cs: seq<Char>)
    requires c != 0 && NoNul(cs)
    ensures NoNul(Insert(f, c, cs))
  {
    if cs != [] && Reorderable(f, c, cs[0]) {
      InsertNoNul(f, c, cs[1..]);
    }
  }

  lemma {:induction false} OrderNoNul(f: Classes, cs: seq<Char>)
    requires NoNul(cs)
    ensures NoNul(Order(f, cs))
  {
    if cs != [] {
      OrderNoNul(f, cs[1..]);
      InsertNoNul(f, cs[0], Order(f, cs[1..]));
    }
  }

  /** Idempotence: a decomposed text is a text without NUL again, it is clean, and it is its own decomposed form. */
  lemma {:induction false} DecomposedIsClean(t: Tables, m: Meaning, info: Keys, cs: seq<Char>)
    requires Described(t, m, info) && NoNul(cs)
    ensures Clean(m, Decomposed(m, cs)) && Decomposed(m, Decomposed(m, cs)) == Decomposed(m, cs)
    ensures NoNul(Decomposed(m, cs))
  {
    hide Described;
    MapAllFully(t, m, info, cs);
    OrderNoNul(m.cls, MapAll(m, cs));
    OrderUndecomposable(m, MapAll(m, cs));
    OrderOrdered(m.cls, MapAll(m, cs));
    CleanStays(m, Decomposed(m, cs));
  }

  // ---------------------------------------------------------------- the normalizer

  /** The characters of a C string, with the NUL at its end. */
  ghost predicate IsSource(z: bytes, cs: seq<Char>) {
    NoNul(cs) && z == Utf8.Text(cs + [0])
  }

  /** The `k`-th character of a source: what is read at its place, and where the next one begins. */
  lemma {:induction false} SourceChar(z: bytes, cs: seq<Char>, k: nat)
    requires IsSource(z, cs) && k <= |cs|
    ensures var ts := cs + [0];
            && At(z, Pos(ts, k), Utf8.Encode(ts[k])) && StartPoint(z, Pos(ts, k)) == Pos(ts, k) < |z|
            && (z[Pos(ts, k)] == 0 <==> k == |cs|)
            && (k < |cs| ==> Pos(ts, k) + 1 < |z|)
            && (k < |cs| ==> forall p :: Pos(ts, k) < p <= Pos(ts, k) + |Utf8.Encode(ts[k])| ==>
                                           StartPoint(z, p) == Pos(ts, k + 1))
  {
    hide Utf8.Text, Utf8.Encode, Pos;
    var ts := cs + [0];
    CharAt(ts, k);
    LeadAt(ts, k);
    Utf8.EncodeShape(ts[k]);
    ByteOf(z, Pos(ts, k), ts[k], 0);
    if k < |cs| {
      LeadAt(ts, k + 1);
      forall p | Pos(ts, k) < p <= Pos(ts, k) + |Utf8.Encode(ts[k])| ensures StartPoint(z, p) == Pos(ts, k + 1) {
        NextStart(ts, k, p);
      }
    }
  }

  lemma {:induction false} CleanNothing(m: Meaning, cs: seq<Char>, j: nat)
    requires j <= |cs|
    ensures Clean(m, cs[j..j])
  {
  }

  /** A clean text and one more character. */
  lemma {:induction false} CleanGrows(m: Meaning, cs: seq<Char>, j: nat, k: nat)
    requires j <= k < |cs| && Clean(m, cs[j..k])
    ensures Clean(m, cs[j..k + 1]) <==>
            m.decomposed(cs[k]) == None && !(k > j && Reorderable(m.cls, cs[k - 1], cs[k]))
    ensures Clean(m, cs[j..]) ==> Clean(m, cs[j..k + 1])
  {
    var a, b := cs[j..k], cs[j..k + 1];
    assert b == a + [cs[k]] && b[k - j] == cs[k] && (k > j ==> b[k - j - 1] == cs[k - 1]);
    if m.decomposed(cs[k]) == None && !(k > j && Reorderable(m.cls, cs[k - 1], cs[k])) {
      forall i | 0 < i < |b| ensures !Reorderable(m.cls, b[i - 1], b[i]) {
        if i < |a| {
          assert b[i - 1] == a[i - 1] && b[i] == a[i];
        }
      }
    }
    if Clean(m, cs[j..]) {
      var c := cs[j..];
      forall i | 0 <= i < |b| ensures m.decomposed(b[i]) == None && (i > 0 ==> !Reorderable(m.cls, b[i - 1], b[i])) {
        assert b[i] == c[i];
        if i > 0 {
          assert b[i - 1] == c[i - 1];
        }
      }
    }
  }

  lemma {:induction false} NulIsBoundary(t: Tables, m: Meaning, info: Keys)
    requires Described(t, m, info)
    ensures Boundary(m, 0)
  {
    assert info(0).Some? <==> m.decomposed(0).Some?;
  }

  lemma {:induction false} MapNothing(m: Meaning, cs: seq<Char>, j: nat)
    requires j <= |cs|
    ensures Utf8.Text(MapAll(m, cs[j..j])) == []
  {
    assert cs[j..j] == [];
  }

  lemma {:induction false} SourceStep(ts: seq<Char>, k: nat)
    requires k < |ts|
    ensures Pos(ts, k + 1) == Pos(ts, k) + |Utf8.Encode(ts[k])|
  {
    CharAt(ts, k);
  }

  /** Different characters stand at different places. */
  lemma {:induction false} PosAscends(ts: seq<Char>, a: nat, b: nat)
    requires a <= b <= |ts|
    ensures Pos(ts, a) <= Pos(ts, b) && (Pos(ts, a) == Pos(ts, b) <==> a == b)
    decreases b - a
  {
    hide Pos, Utf8.Encode;
    if a < b {
      PosAscends(ts, a + 1, b);
      SourceStep(ts, a);
      Utf8.EncodeShape(ts[a]);
    }
  }

  lemma {:induction false} MappedText(t: Tables, m: Meaning, info: Keys, c: Char)
    requires Described(t, m, info) && info(c).Some?
    ensures var v := info(c).value;
            && v % 0x40000 + v / 0x40000 <= |t.strings|
            && t.strings[v % 0x40000..v % 0x40000 + v / 0x40000] == Utf8.Text(Map(m, c))
  {
    hide TrieOf, Utf8.Text;
    assert info(c).Some? <==> m.decomposed(c).Some?;
    assert Names(t.strings, info(c).value, Utf8.Text(m.decomposed(c).value));
    AtIsSlice(t.strings, info(c).value % 0x40000, Utf8.Text(m.decomposed(c).value));
  }

  lemma {:induction false} UnmappedText(t: Tables, m: Meaning, info: Keys, c: Char)
    requires Described(t, m, info) && info(c).None?
    ensures Utf8.Text(Map(m, c)) == Utf8.Encode(c)
  {
    hide TrieOf, Utf8.Encode;
    assert info(c).Some? <==> m.decomposed(c).Some?;
    TextOne(c);
  }

  lemma {:induction false} MapGrows(m: Meaning, cs: seq<Char>, j: nat, k: nat)
    requires j <= k < |cs|
    ensures Utf8.Text(MapAll(m, cs[j..k + 1])) == Utf8.Text(MapAll(m, cs[j..k])) + Utf8.Text(Map(m, cs[k]))
  {
    hide Utf8.Text;
    assert cs[j..k + 1] == cs[j..k] + [cs[k]];
    MapAllConcat(m, cs[j..k], [cs[k]]);
    assert [cs[k]][1..] == [];
    assert MapAll(m, [cs[k]]) == Map(m, cs[k]) + [];
    assert Map(m, cs[k]) + [] == Map(m, cs[k]);
    Utf8.TextConcat(MapAll(m, cs[j..k]), Map(m, cs[k]));
  }

  lemma {:induction false} FormTrie(t: Tables, m: Meaning, info: Keys)
    requires Described(t, m, info)
    ensures TrieOf(t.nodes, t.formRoot, info)
  {
  }

  lemma {:induction false} ClassTrie(t: Tables, m: Meaning, info: Keys)
    requires Described(t, m, info)
    ensures TrieOf(t.nodes, t.classRoot, ClassKeys(m.cls)) && forall c: Char :: m.cls(c) <= 254
  {
  }

  lemma {:induction false} SegmentMapped(
    t: Tables, m: Meaning, info: Keys, z: bytes, cs: seq<Char>, j: nat, e: nat)
    requires Described(t, m, info) && IsSource(z, cs) && j < e <= |cs|
    ensures NoNul(MapAll(m, cs[j..e])) && MapAll(m, cs[j..e]) != []
  {
    MapAllFully(t, m, info, cs[j..e]);
    assert cs[j..e][0] == cs[j];
    MapSome(t, m, info, cs[j]);
  }

  lemma {:induction false} MapSome(t: Tables, m: Meaning, info: Keys, c: Char)
    requires Described(t, m, info)
    ensures Map(m, c) != []
  {
    hide TrieOf;
    if m.decomposed(c).Some? {
      assert info(c).Some?;
      assert FullyDecomposed(m, m.decomposed(c).value);
    }
  }

  lemma {:induction false} PosNone(ts: seq<Char>)
    ensures Pos(ts, 0) == 0
  {
  }

  lemma {:induction false} SourceText(z: bytes, cs: seq<Char>)
    requires IsSource(z, cs)
    ensures z == Utf8.Text(cs + [0])
  {
  }

  /** The bytes between two characters of a source. */
  lemma {:induction false} Stretch(z: bytes, cs: seq<Char>, a: nat, b: nat)
    requires IsSource(z, cs) && a <= b <= |cs|
    ensures Pos(cs + [0], a) <= Pos(cs + [0], b) <= |z|
    ensures z[Pos(cs + [0], a)..Pos(cs + [0], b)] == Utf8.Text(cs[a..b])
  {
    hide Utf8.Text;
    var ts := cs + [0];
    var x, y, w := ts[..a], cs[a..b], ts[b..];
    assert ts[..b] == x + y && ts == (x + y) + w;
    Utf8.TextConcat(x, y);
    Utf8.TextConcat(x + y, w);
  }

  lemma {:induction false} DecomposedNothing(m: Meaning)
    ensures Utf8.Text(Decomposed(m, [])) == []
  {
  }

  /** A clean stretch behind a decomposed text. */
  lemma {:induction false} StretchAppended(m: Meaning, cs: seq<Char>, e: nat, i: nat)
    requires e <= i <= |cs| && Clean(m, cs[e..i]) && (e == 0 || e == |cs| || Boundary(m, cs[e]))
    ensures Utf8.Text(Decomposed(m, cs[..e])) + Utf8.Text(cs[e..i]) == Utf8.Text(Decomposed(m, cs[..i]))
  {
    hide Clean;
    CleanStays(m, cs[e..i]);
    PieceAppended(m, cs, e, i);
  }

  /** A segment between boundaries behind a decomposed text. */
  lemma {:induction false} PieceAppended(m: Meaning, cs: seq<Char>, i: nat, e: nat)
    requires i <= e <= |cs| && (i == 0 || i == |cs| || Boundary(m, cs[i]))
    ensures Utf8.Text(Decomposed(m, cs[..i])) + Utf8.Text(Decomposed(m, cs[i..e])) == Utf8.Text(Decomposed(m, cs[..e]))
  {
    hide Utf8.Text, Decomposed;
    assert cs[..e] == cs[..i] + cs[i..e];
    DecomposedSplits(m, cs[..i], cs[i..e]);
    Utf8.TextConcat(Decomposed(m, cs[..i]), Decomposed(m, cs[i..e]));
  }

  lemma {:induction false} NulAppended(m: Meaning, cs: seq<Char>)
    ensures Utf8.Text(Decomposed(m, cs)) + [0] == Utf8.Text(Decomposed(m, cs) + [0])
  {
    hide Decomposed;
    Utf8.TextConcat(Decomposed(m, cs), [0]);
    TextOne(0);
  }

  class Normalizer {
    const tables: Tables
    var buffer: bytes

    constructor (tables: Tables)
      ensures this.tables == tables
    {
      this.tables := tables;
      buffer := [];
    }

    /** CanonicalCombiningClass::get_class */
    method GetClass(z: bytes, p: nat, ghost m: Meaning, ghost info: Keys, ghost c: Char) returns (klass: int)
      requires Described(tables, m, info) && At(z, p, Utf8.Encode(c))
      ensures klass == m.cls(c)
    {
      hide TrieOf;
      klass := FindValue(tables.nodes, tables.classRoot, z, p, 0, ClassKeys(m.cls), c);
    }

    /** NormalizationForm::quick_check: no value is as high as the default. */
    method QuickCheck(z: bytes, p: nat, ghost m: Meaning, ghost info: Keys, ghost c: Char) returns (ok: bool)
      requires Described(tables, m, info) && At(z, p, Utf8.Encode(c))
      ensures ok <==> m.decomposed(c) == None
    {
      hide TrieOf;
      var v := FindValue(tables.nodes, tables.formRoot, z, p, 0xFFFFFFFF, info, c);
      ok := v == 0xFFFFFFFF;
      assert info(c).Some? <==> m.decomposed(c).Some?;
    }

    /** next_invalid_char: the last starter before the first character that is not in order, or the end. */
    method NextInvalidChar(
      z: bytes, src: nat, ghost m: Meaning, ghost info: Keys, ghost cs: seq<Char>, ghost j: nat)
      returns (r: nat, ghost i: nat)
      requires Described(tables, m, info) && IsSource(z, cs) && j <= |cs| && src == Pos(cs + [0], j)
      ensures j <= i <= |cs| && r == Pos(cs + [0], i)
      ensures Clean(m, cs[j..i]) && (i == j || i == |cs| || Boundary(m, cs[i]))
      ensures i == |cs| <==> Clean(m, cs[j..])
    {
      hide Described, IsSource, Pos, Utf8.Encode, Clean, StartPoint;
      ghost var ts := cs + [0];
      SourceChar(z, cs, j);
      var last := 0;
      var cur := NearestStart(z, src);
      var starter := cur;
      ghost var k, st := j, j;
      CleanNothing(m, cs, j);
      while z[cur] != 0
        invariant j <= st <= k <= |cs| && cur == Pos(ts, k) < |z| && starter == Pos(ts, st)
        invariant z[cur] == 0 <==> k == |cs|
        invariant Clean(m, cs[j..k]) && Clean(m, cs[j..st]) && (st == j || (st < |cs| && Boundary(m, cs[st])))
        invariant st == |cs| ==> k == |cs|
        invariant last == if k == j then 0 else m.cls(cs[k - 1])
        decreases |cs| - k
      {
        SourceChar(z, cs, k);
        SourceChar(z, cs, k + 1);
        CleanGrows(m, cs, j, k);
        var klass := GetClass(z, cur, m, info, cs[k]);
        if last > klass && klass != 0 { return starter, st; }
        var ok := QuickCheck(z, cur, m, info, cs[k]);
        if !ok { return starter, st; }
        if klass == 0 {
          starter := cur;
          st := k;
        }
        last := klass;
        cur := NearestStart(z, cur + 1);
        k := k + 1;
      }
      assert cs[j..k] == cs[j..];
      return cur, k;
    }

    /** next_valid_starter: the next boundary behind the character at `src`, or the end. */
    method NextValidStarter(
      z: bytes, src: nat, ghost m: Meaning, ghost info: Keys, ghost cs: seq<Char>, ghost j: nat)
      returns (r: nat, ghost e: nat)
      requires Described(tables, m, info) && IsSource(z, cs) && j < |cs| && src == Pos(cs + [0], j)
      ensures j < e <= |cs| && r == Pos(cs + [0], e) && (e == |cs| || Boundary(m, cs[e]))
    {
      hide Described, IsSource, Pos, Utf8.Encode, StartPoint;
      ghost var ts := cs + [0];
      SourceChar(z, cs, j);
      NulIsBoundary(tables, m, info);
      r := NearestStart(z, src + 1);
      e := j + 1;
      while true
        invariant j < e <= |cs| && r == Pos(ts, e)
        decreases |cs| - e
      {
        SourceChar(z, cs, e);
        var klass := GetClass(z, r, m, info, ts[e]);
        var ok := QuickCheck(z, r, m, info, ts[e]);
        if klass == 0 && ok { return; }
        r := NearestStart(z, r + 1);
        e := e + 1;
      }
    }

    /** NormalizationForm::decompose of the characters from `beg` to `end`, appended to the buffer. */
    method MapRange(
      z: bytes, beg: nat, end: nat, ghost m: Meaning, ghost info: Keys, ghost cs: seq<Char>, ghost j: nat, ghost e: nat)
      requires Described(tables, m, info) && IsSource(z, cs) && j < e <= |cs|
      requires beg == Pos(cs + [0], j) && end == Pos(cs + [0], e)
      modifies this`buffer
      ensures buffer == old(buffer) + Utf8.Text(MapAll(m, cs[j..e]))
    {
      hide Described, IsSource, Pos, Utf8.Encode, StartPoint, MapAll, Utf8.Text;
      ghost var ts := cs + [0];
      var cur := beg;
      ghost var k := j;
      MapNothing(m, cs, j);
      assert buffer + [] == buffer;
      PosAscends(ts, j, e);
      while cur != end
        invariant j <= k <= e && cur == Pos(ts, k) && (cur == end <==> k == e)
        invariant buffer == old(buffer) + Utf8.Text(MapAll(m, cs[j..k]))
        decreases e - k
      {
        SourceChar(z, cs, k);
        SourceChar(z, cs, k + 1);
        PosAscends(ts, k + 1, e);
        FormTrie(tables, m, info);
        var value, q := ReadKey(tables.nodes, tables.formRoot, z, cur, info, cs[k]);
        ghost var before := buffer;
        if value.Some? {
          MappedText(tables, m, info, cs[k]);
          var at := value.value % 0x40000;
          buffer := buffer + tables.strings[at..at + value.value / 0x40000];
          SourceStep(ts, k);
          cur := q;
        } else {
          UnmappedText(tables, m, info, cs[k]);
          SourceStep(ts, k);
          AtIsSlice(z, cur, Utf8.Encode(cs[k]));
          var next := NearestStart(z, q);
          buffer := buffer + z[cur..next];
          cur := next;
        }
        MapGrows(m, cs, j, k);
        assert old(buffer) + Utf8.Text(MapAll(m, cs[j..k])) + Utf8.Text(Map(m, cs[k]))
            == old(buffer) + (Utf8.Text(MapAll(m, cs[j..k])) + Utf8.Text(Map(m, cs[k])));
        k := k + 1;
      }
    }

    /** decompose_one: the mapped segment is appended, and sorted in the buffer, as a string of its own. */
    method DecomposeOne(
      z: bytes, beg: nat, end: nat, ghost m: Meaning, ghost info: Keys, ghost cs: seq<Char>, ghost j: nat, ghost e: nat)
      requires Described(tables, m, info) && IsSource(z, cs) && j < e <= |cs|
      requires beg == Pos(cs + [0], j) && end == Pos(cs + [0], e)
      modifies this`buffer
      ensures buffer == old(buffer) + Utf8.Text(Decomposed(m, cs[j..e]))
    {
      hide Described, IsSource, Pos, MapAll, Utf8.Text, Order, TrieOf;
      var last := |buffer|;
      MapRange(z, beg, end, m, info, cs, j, e);
      ghost var mapped := MapAll(m, cs[j..e]);
      SegmentMapped(tables, m, info, z, cs, j, e);
      ClassTrie(tables, m, info);
      var text := buffer[last..] + [0];
      assert buffer[last..] == Utf8.Text(mapped);
      var str := new byte[|text|](i requires 0 <= i < |text| => text[i]);
      assert str[..] == text;
      var classes := new byte[|text|](_ => 0);
      Sort(tables.nodes, tables.classRoot, str, classes, m.cls, mapped);
      buffer := buffer[..last] + str[..str.Length - 1];
      assert str[..str.Length - 1] == Utf8.Text(Order(m.cls, mapped));
    }

    /**
     decompose: the argument itself is returned when it is clean. Otherwise clean
     stretches are copied and the segments between them decomposed one by one.
     */
    method Decompose(z: bytes, ghost m: Meaning, ghost info: Keys, ghost cs: seq<Char>)
      returns (r: bytes, same: bool)
      requires Described(tables, m, info) && IsSource(z, cs)
      modifies this`buffer
      ensures r == Utf8.Text(Decomposed(m, cs) + [0])
      ensures same <==> Clean(m, cs)
      ensures same ==> r == z
    {
      hide Described, IsSource, Pos, Clean, Decomposed, Utf8.Text;
      ghost var ts := cs + [0];
      PosNone(ts);
      var beg, i := NextInvalidChar(z, 0, m, info, cs, 0);
      assert cs[0..] == cs;
      SourceChar(z, cs, i);
      if z[beg] == 0 {
        CleanStays(m, cs);
        SourceText(z, cs);
        return z, true;
      }
      buffer := z[0..beg];
      Stretch(z, cs, 0, i);
      DecomposedNothing(m);
      assert cs[..0] == [] && [] + Utf8.Text(cs[0..i]) == Utf8.Text(cs[0..i]);
      StretchAppended(m, cs, 0, i);
      while z[beg] != 0
        invariant 0 <= i <= |cs| && beg == Pos(ts, i) < |z| && (z[beg] == 0 <==> i == |cs|)
        invariant i == 0 || i == |cs| || Boundary(m, cs[i])
        invariant buffer == Utf8.Text(Decomposed(m, cs[..i]))
        decreases |cs| - i
      {
        var end, e := NextValidStarter(z, beg, m, info, cs, i);
        DecomposeOne(z, beg, end, m, info, cs, i, e);
        PieceAppended(m, cs, i, e);
        var next, i' := NextInvalidChar(z, end, m, info, cs, e);
        SourceChar(z, cs, i');
        Stretch(z, cs, e, i');
        buffer := buffer + z[end..next];
        StretchAppended(m, cs, e, i');
        beg, i := next, i';
      }
      assert cs[..i] == cs;
      NulAppended(m, cs);
      return buffer + [0], false;
    }

    /** decompose called again with its own result: it comes back through the fast path, as it is. */
    method DecomposeTwice(z: bytes, ghost m: Meaning, ghost info: Keys, ghost cs: seq<Char>)
      returns (r: bytes, again: bytes, same: bool)
      requires Described(tables, m, info) && IsSource(z, cs)
      modifies this`buffer
      ensures r == Utf8.Text(Decomposed(m, cs) + [0])
      ensures same && again == r
    {
      hide Described, Clean, Decomposed, Utf8.Text;
      r, same := Decompose(z, m, info, cs);
      DecomposedIsClean(tables, m, info, cs);
      again, same := Decompose(r, m, info, Decomposed(m, cs));
    }
  }

  // ---------------------------------------------------------------- tables

  /** U+00C1 decomposes to U+0041 and U+0301, and U+0301 has the class 230. */
  const ACUTE: Meaning := Meaning(
    (c: Char) => if c == 0x301 then 230 else 0,
    (c: Char) => if c == 0xC1 then Some([0x41, 0x301]) else None)

  const ACUTE_INFO: Keys := (c: Char) => if c == 0xC1 then Some(3 * 0x40000) else None

  /** Two tries, one behind the other, and the one decomposition, 0x41 0xCC 0x81. */
  const ACUTE_TABLES: Tables := Tables(
    seq(2048, i requires 0 <= i =>
      if i < 1024 then OneKeyNode(0, 0xCC, 0x81, 230, i)
      else OneKeyNode(1024, 0xC3, 0x81, 3 * 0x40000, i - 1024)),
    0, 1024, [0x41, 0xCC, 0x81])

  lemma {:induction false} AcuteText()
    ensures Utf8.Text([0x41, 0x301]) == [0x41, 0xCC, 0x81]
    ensures Names(ACUTE_TABLES.strings, 3 * 0x40000, Utf8.Text([0x41, 0x301]))
  {
    assert [0x41, 0x301][1..] == [0x301] && [0x301][1..] == [];
    assert Utf8.Text([0x301]) == Utf8.Encode(0x301) + [];
    AtIsSlice([0x41, 0xCC, 0x81], 0, [0x41, 0xCC, 0x81]);
  }

  /** The assumptions about the tables can be met by tables in which a character decomposes. */
  lemma {:induction false} TablesExist()
    ensures Described(ACUTE_TABLES, ACUTE, ACUTE_INFO) && ACUTE.decomposed(0xC1) == Some([0x41, 0x301])
  {
    hide TrieOf, OneKeyNode, Names;
    var nodes := ACUTE_TABLES.nodes;
    assert HoldsOneKey(nodes, 0, 0xCC, 0x81, 230);
    assert HoldsOneKey(nodes, 1024, 0xC3, 0x81, 3 * 0x40000);
    TrieExists(nodes, 0, 0x301, 230, ClassKeys(ACUTE.cls));
    TrieExists(nodes, 1024, 0xC1, 3 * 0x40000, ACUTE_INFO);
    AcuteText();
  }
}
