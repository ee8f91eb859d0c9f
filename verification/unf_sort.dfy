/**
 The byte-level sort of searcher.hh. It sorts the bytes of a run of non-starters
 by a class noted for every byte. Sorting is stable, and all bytes of a character
 carry its class, so whole characters are ordered and their bytes stay together.
 */
module UnfSort {
  import opened Bytes
  import opened UnfOrder
  import Utf8

  /** A byte of text with the class noted for it. */
  datatype Pair = Pair(cls: nat, b: byte)

  function Filter(x: seq<Pair>, k: nat): seq<Pair> {
    if x == [] then [] else (if x[0].cls == k then [x[0]] else []) + Filter(x[1..], k)
  }

  predicate Sorted(x: seq<Pair>) {
    forall i, j :: 0 <= i < j < |x| ==> x[i].cls <= x[j].cls
  }

  /** For every class, the same bytes in the same order: what a stable sort keeps. */
  ghost predicate SameFilters(x: seq<Pair>, y: seq<Pair>) {
    forall k: nat :: Filter(x, k) == Filter(y, k)
  }

  // ---------------------------------------------------------------- stable sorting has one result

  lemma {:induction false} FilterConcat(x: seq<Pair>, y: seq<Pair>, k: nat)
    ensures Filter(x + y, k) == Filter(x, k) + Filter(y, k)
  {
    if x == [] {
      assert x + y == y;
    } else {
      assert (x + y)[1..] == x[1..] + y;
      FilterConcat(x[1..], y, k);
      var head := if x[0].cls == k then [x[0]] else [];
      assert Filter(x + y, k) == head + Filter((x + y)[1..], k);
      assert head + (Filter(x[1..], k) + Filter(y, k)) == head + Filter(x[1..], k) + Filter(y, k);
    }
  }

  lemma {:induction false} FilterFirst(x: seq<Pair>, i: nat)
    requires i < |x|
    ensures Filter(x, x[i].cls) != []
    ensures i == 0 ==> Filter(x, x[0].cls)[0] == x[0]
  {
    if i > 0 {
      FilterFirst(x[1..], i - 1);
    }
  }

  lemma {:induction false} FilterMember(x: seq<Pair>, k: nat) returns (i: nat)
    requires Filter(x, k) != []
    ensures i < |x| && x[i].cls == k
  {
    if x[0].cls == k {
      i := 0;
    } else {
      var j := FilterMember(x[1..], k);
      i := j + 1;
    }
  }

  lemma {:induction false} SmallestFirst(x: seq<Pair>, y: seq<Pair>)
    requires Sorted(x) && x != [] && y != [] && Filter(x, y[0].cls) == Filter(y, y[0].cls)
    ensures x[0].cls <= y[0].cls
  {
    FilterFirst(y, 0);
    var i := FilterMember(x, y[0].cls);
  }

  lemma {:induction false} EmptyAlike(x: seq<Pair>, y: seq<Pair>)
    requires SameFilters(x, y)
    ensures x == [] ==> y == []
  {
    if y != [] {
      FilterFirst(y, 0);
    }
  }

  /** Sorted pairs with the same filters are the same. */
  lemma {:induction false} SortedUnique(x: seq<Pair>, y: seq<Pair>)
    requires Sorted(x) && Sorted(y) && SameFilters(x, y)
    ensures x == y
  {
    if x == [] || y == [] {
      EmptyAlike(x, y);
      EmptyAlike(y, x);
    } else {
      SmallestFirst(x, y);
      SmallestFirst(y, x);
      FilterFirst(x, 0);
      FilterFirst(y, 0);
      assert Filter(x, x[0].cls) == Filter(y, x[0].cls);
      forall k: nat ensures Filter(x[1..], k) == Filter(y[1..], k) {
        FilterTail(x, k);
        FilterTail(y, k);
        assert Filter(x, k) == Filter(y, k);
      }
      SortedUnique(x[1..], y[1..]);
      assert x == [x[0]] + x[1..] && y == [y[0]] + y[1..];
    }
  }

  lemma {:induction false} FilterTail(x: seq<Pair>, k: nat)
    requires x != []
    ensures Filter(x[1..], k) == if x[0].cls == k then Filter(x, k)[1..] else Filter(x, k)
    ensures x[0].cls == k ==> |Filter(x, k)| > 0
  {
  }

  /** Two neighbours of different class exchanged. */
  function Swapped(x: seq<Pair>, j: nat): seq<Pair>
    requires 0 < j < |x|
  {
    x[j - 1 := x[j]][j := x[j - 1]]
  }

  lemma {:induction false} SwapKeepsFilter(x: seq<Pair>, j: nat, k: nat)
    requires 0 < j < |x| && x[j - 1].cls != x[j].cls
    ensures Filter(Swapped(x, j), k) == Filter(x, k)
  {
    hide Filter;
    var a, b := x[..j - 1], x[j + 1..];
    var p, q := [x[j - 1]], [x[j]];
    assert x == a + (p + (q + b)) && Swapped(x, j) == a + (q + (p + b));
    FilterConcat(a, p + (q + b), k);
    FilterConcat(a, q + (p + b), k);
    FilterConcat(p, q + b, k);
    FilterConcat(q, p + b, k);
    FilterConcat(q, b, k);
    FilterConcat(p, b, k);
    FilterOne(x[j - 1], k);
    FilterOne(x[j], k);
  }

  lemma {:induction false} FilterOne(p: Pair, k: nat)
    ensures Filter([p], k) == if p.cls == k then [p] else []
  {
    assert [p][1..] == [];
  }

  // ---------------------------------------------------------------- characters as pairs

  /** The bytes of a character, each with the character's class. */
  function CharPairs(f: Classes, c: Char): (r: seq<Pair>)
    ensures |r| == |Utf8.Encode(c)|
  {
    seq(|Utf8.Encode(c)|, i requires 0 <= i < |Utf8.Encode(c)| => Pair(f(c), Utf8.Encode(c)[i]))
  }

  function Pairs(f: Classes, cs: seq<Char>): seq<Pair> {
    if cs == [] then [] else CharPairs(f, cs[0]) + Pairs(f, cs[1..])
  }

  function BytesOf(x: seq<Pair>): seq<byte> {
    seq(|x|, i requires 0 <= i < |x| => x[i].b)
  }

  lemma {:induction false} PairsText(f: Classes, cs: seq<Char>)
    ensures BytesOf(Pairs(f, cs)) == Utf8.Text(cs)
  {
    if cs != [] {
      PairsText(f, cs[1..]);
      var a, b := CharPairs(f, cs[0]), Pairs(f, cs[1..]);
      assert BytesOf(a) == Utf8.Encode(cs[0]);
      assert BytesOf(a + b) == BytesOf(a) + BytesOf(b);
    }
  }

  lemma {:induction false} FilterUniform(x: seq<Pair>, k: nat, c: nat)
    requires forall i :: 0 <= i < |x| ==> x[i].cls == c
    ensures Filter(x, k) == if c == k then x else []
  {
    if x != [] {
      FilterUniform(x[1..], k, c);
      assert x == [x[0]] + x[1..];
    }
  }

  lemma {:induction false} FilterChar(f: Classes, c: Char, rest: seq<Char>, k: nat)
    ensures Filter(Pairs(f, [c] + rest), k)
         == (if f(c) == k then CharPairs(f, c) else []) + Filter(Pairs(f, rest), k)
  {
    assert ([c] + rest)[1..] == rest;
    FilterConcat(CharPairs(f, c), Pairs(f, rest), k);
    FilterUniform(CharPairs(f, c), k, f(c));
  }

  lemma {:induction false} InsertKeepsFilter(f: Classes, c: Char, cs: seq<Char>, k: nat)
    ensures Filter(Pairs(f, Insert(f, c, cs)), k) == Filter(Pairs(f, [c] + cs), k)
  {
    hide Pairs, Filter;
    if cs != [] && Reorderable(f, c, cs[0]) {
      InsertKeepsFilter(f, c, cs[1..], k);
      FilterChar(f, cs[0], Insert(f, c, cs[1..]), k);
      FilterChar(f, c, cs[1..], k);
      FilterChar(f, c, cs, k);
      FilterChar(f, cs[0], cs[1..], k);
      assert cs == [cs[0]] + cs[1..];
    } else {
      assert Insert(f, c, cs) == [c] + cs;
    }
  }

  lemma {:induction false} OrderKeepsFilter(f: Classes, cs: seq<Char>, k: nat)
    ensures Filter(Pairs(f, Order(f, cs)), k) == Filter(Pairs(f, cs), k)
  {
    if cs != [] {
      OrderKeepsFilter(f, cs[1..], k);
      InsertKeepsFilter(f, cs[0], Order(f, cs[1..]), k);
      FilterChar(f, cs[0], Order(f, cs[1..]), k);
      FilterChar(f, cs[0], cs[1..], k);
      assert cs == [cs[0]] + cs[1..];
    }
  }

  /** No starter in a run. */
  predicate IsRun(f: Classes, cs: seq<Char>) {
    forall i :: 0 <= i < |cs| ==> f(cs[i]) > 0
  }

  /** Classes do not descend, character by character. */
  predicate Ascending(f: Classes, cs: seq<Char>) {
    forall i, j :: 0 <= i < j < |cs| ==> f(cs[i]) <= f(cs[j])
  }

  lemma {:induction false} OrderedRunAscends(f: Classes, cs: seq<Char>)
    requires Ordered(f, cs) && IsRun(f, cs)
    ensures Ascending(f, cs)
  {
    if cs != [] {
      var t := cs[1..];
      forall i | 0 < i < |t| ensures !Reorderable(f, t[i - 1], t[i]) {
        assert t[i - 1] == cs[i] && t[i] == cs[i + 1];
        assert !Reorderable(f, cs[i + 1 - 1], cs[i + 1]);
      }
      OrderedRunAscends(f, t);
      assert |cs| > 1 ==> !Reorderable(f, cs[1 - 1], cs[1]);
      forall i, j | 0 <= i < j < |cs| ensures f(cs[i]) <= f(cs[j]) {
        assert cs[j] == t[j - 1];
        if i > 0 {
          assert cs[i] == t[i - 1];
        }
      }
    }
  }

  lemma {:induction false} AscendingPairs(f: Classes, cs: seq<Char>)
    requires Ascending(f, cs)
    ensures Sorted(Pairs(f, cs))
    ensures cs != [] ==> forall i :: 0 <= i < |Pairs(f, cs)| ==> Pairs(f, cs)[i].cls >= f(cs[0])
  {
    if cs != [] {
      var t := cs[1..];
      AscendingPairs(f, t);
      assert t != [] ==> t[0] == cs[1];
    }
  }

  lemma {:induction false} InsertRun(f: Classes, c: Char, cs: seq<Char>)
    requires IsRun(f, cs) && f(c) > 0
    ensures IsRun(f, Insert(f, c, cs))
  {
    if cs != [] && Reorderable(f, c, cs[0]) {
      InsertRun(f, c, cs[1..]);
    }
  }

  lemma {:induction false} OrderRun(f: Classes, cs: seq<Char>)
    requires IsRun(f, cs)
    ensures IsRun(f, Order(f, cs))
  {
    if cs != [] {
      OrderRun(f, cs[1..]);
      InsertRun(f, cs[0], Order(f, cs[1..]));
    }
  }

  /** Bytes sorted stably by class are the bytes of the ordered characters. */
  lemma {:induction false} SortedBytesAreOrdered(f: Classes, run: seq<Char>, x: seq<Pair>)
    requires IsRun(f, run) && Sorted(x) && SameFilters(Pairs(f, run), x)
    ensures x == Pairs(f, Order(f, run)) && BytesOf(x) == Utf8.Text(Order(f, run))
  {
    var o := Order(f, run);
    OrderRun(f, run);
    OrderOrdered(f, run);
    OrderedRunAscends(f, o);
    AscendingPairs(f, o);
    forall k: nat ensures Filter(x, k) == Filter(Pairs(f, o), k) {
      OrderKeepsFilter(f, run, k);
      assert Filter(Pairs(f, run), k) == Filter(x, k);
    }
    SortedUnique(x, Pairs(f, o));
    PairsText(f, o);
  }

  // ---------------------------------------------------------------- the sort in place

  /** Nothing before a pair from `n` on has a higher class. */
  predicate TailSorted(z: seq<Pair>, n: int) {
    forall a, b :: 0 <= a < b < |z| && n <= b ==> z[a].cls <= z[b].cls
  }

  /** As TailSorted, for pairs from `n` up to `k`. */
  predicate MidSorted(z: seq<Pair>, n: int, k: int) {
    k < |z| && forall a, b :: 0 <= a < b <= k && n <= b ==> z[a].cls <= z[b].cls
  }

  predicate MaxAt(z: seq<Pair>, k: int) {
    0 <= k < |z| && forall a :: 0 <= a <= k ==> z[a].cls <= z[k].cls
  }

  /** The pairs `z` are what the two arrays hold from `beg` on. */
  predicate Holds(str: array<byte>, classes: array<byte>, beg: nat, z: seq<Pair>)
    requires beg + |z| <= str.Length && beg + |z| <= classes.Length
    reads str, classes
  {
    forall i :: 0 <= i < |z| ==> z[i] == Pair(classes[beg + i], str[beg + i])
  }

  /** One comparison of the inner loop that exchanges. */
  lemma {:induction false} StepSwaps(z: seq<Pair>, j: nat, limit: nat)
    requires 0 < j < limit <= |z| && z[j - 1].cls > z[j].cls && MaxAt(z, j - 1) && TailSorted(z, limit)
    ensures MaxAt(Swapped(z, j), j) && MidSorted(Swapped(z, j), j, j) && TailSorted(Swapped(z, j), limit)
    ensures SameFilters(z, Swapped(z, j))
  {
    forall k: nat ensures Filter(z, k) == Filter(Swapped(z, j), k) {
      SwapKeepsFilter(z, j, k);
    }
  }

  /** One comparison of the inner loop that does not. */
  lemma {:induction false} StepStays(z: seq<Pair>, j: nat, n: int)
    requires 0 < j < |z| && z[j - 1].cls <= z[j].cls && MaxAt(z, j - 1) && MidSorted(z, n, j - 1)
    ensures MaxAt(z, j) && MidSorted(z, n, j)
  {
  }

  lemma {:induction false} PassEnds(z: seq<Pair>, n: int, limit: nat)
    requires 0 < limit <= |z| && n < limit && MidSorted(z, n, limit - 1) && TailSorted(z, limit)
    ensures TailSorted(z, n)
  {
    forall a, b | 0 <= a < b < |z| && n <= b ensures z[a].cls <= z[b].cls {
      if b < limit {
        assert z[a].cls <= z[b].cls;
      }
    }
  }

  lemma {:induction false} FiltersThen(x: seq<Pair>, y: seq<Pair>, z: seq<Pair>)
    requires SameFilters(x, y) && SameFilters(y, z)
    ensures SameFilters(x, z)
  {
    forall k: nat ensures Filter(x, k) == Filter(z, k) {
      assert Filter(x, k) == Filter(y, k);
      assert Filter(y, k) == Filter(z, k);
    }
  }

  /**
   bubble_sort: passes up to `limit`, the place of the last exchange of the
   pass before, until a pass makes no exchange.
   */
  method BubbleSort(str: array<byte>, classes: array<byte>, beg: nat, end: nat, ghost z0: seq<Pair>)
    returns (ghost z: seq<Pair>)
    requires str != classes && beg <= end <= str.Length && end <= classes.Length
    requires |z0| == end - beg && Holds(str, classes, beg, z0)
    modifies str, classes
    ensures |z| == |z0| && Holds(str, classes, beg, z) && Sorted(z) && SameFilters(z0, z)
    ensures forall i :: 0 <= i < str.Length && !(beg <= i < end) ==> str[i] == old(str[i])
    ensures forall i :: 0 <= i < classes.Length && !(beg <= i < end) ==> classes[i] == old(classes[i])
  {
    hide SameFilters, Filter, TailSorted, MidSorted, MaxAt;
    z := z0;
    SortStarts(z, end - beg);
    var limit, next := beg, end;
    while limit != next
      invariant beg <= limit <= end && beg <= next <= end && (beg < end ==> beg < next)
      invariant |z| == end - beg && Holds(str, classes, beg, z) && SameFilters(z0, z)
      invariant TailSorted(z, next - beg) && (limit == next ==> TailSorted(z, 0))
      invariant forall i :: 0 <= i < str.Length && !(beg <= i < end) ==> str[i] == old(str[i])
      invariant forall i :: 0 <= i < classes.Length && !(beg <= i < end) ==> classes[i] == old(classes[i])
      decreases next, limit != next
    {
      limit := next;
      var i := beg + 1;
      FirstIsMax(z);
      while i < limit
        invariant beg < i <= limit && (next == limit || beg < next < limit)
        invariant |z| == end - beg && Holds(str, classes, beg, z) && SameFilters(z0, z)
        invariant TailSorted(z, limit - beg) && MaxAt(z, i - 1 - beg)
        invariant MidSorted(z, if next == limit then 0 else next - beg, i - 1 - beg)
        invariant forall i :: 0 <= i < str.Length && !(beg <= i < end) ==> str[i] == old(str[i])
        invariant forall i :: 0 <= i < classes.Length && !(beg <= i < end) ==> classes[i] == old(classes[i])
      {
        assert z[i - 1 - beg] == Pair(classes[i - 1], str[i - 1]) && z[i - beg] == Pair(classes[i], str[i]);
        if classes[i - 1] > classes[i] {
          StepSwaps(z, i - beg, limit - beg);
          FiltersThen(z0, z, Swapped(z, i - beg));
          classes[i - 1], classes[i] := classes[i], classes[i - 1];
          str[i - 1], str[i] := str[i], str[i - 1];
          z := Swapped(z, i - beg);
          next := i;
        } else {
          StepStays(z, i - beg, if next == limit then 0 else next - beg);
        }
        i := i + 1;
      }
      PassEnds(z, if next == limit then 0 else next - beg, limit - beg);
    }
    SortEnds(z);
  }

  lemma {:induction false} SortStarts(z: seq<Pair>, n: int)
    requires n == |z|
    ensures TailSorted(z, n) && SameFilters(z, z) && (|z| == 0 ==> TailSorted(z, 0))
  {
  }

  lemma {:induction false} FirstIsMax(z: seq<Pair>)
    requires |z| > 0
    ensures MaxAt(z, 0) && MidSorted(z, 0, 0)
  {
  }

  lemma {:induction false} SortEnds(z: seq<Pair>)
    requires TailSorted(z, 0)
    ensures Sorted(z)
  {
  }
}
