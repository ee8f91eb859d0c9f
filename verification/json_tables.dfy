/**
 The table-driven number scanners of Parser.java: the machines of parser.c packed
 into arrays, with a binary search over the bytes and byte ranges of a state. For
 every source they end where the goto machines end.
 */
module JsonTables {
  import opened Bytes
  import opened JsonReader
  import opened JsonScanners

  /** The arrays that Ragel generates for a machine. */
  datatype Tables = Tables(
    keyOffsets: seq<nat>, transKeys: seq<int>, singleLengths: seq<nat>, rangeLengths: seq<nat>,
    indexOffsets: seq<nat>, indicies: seq<nat>, transTargs: seq<nat>, transActions: seq<nat>)

  /** A Java byte. */
  function AsSigned(b: byte): int {
    if b < 128 then b else b - 256
  }

  // ---------------------------------------------------------------- the search

  predicate IsKey(keys: seq<int>, at: nat, k: nat, b: int)
    requires at + k < |keys|
  {
    keys[at + k] == b
  }

  /** The `k`-th range from `at` on: a lower and an upper bound. */
  function Low(keys: seq<int>, at: nat, k: nat): int
    requires at + 2 * k + 1 < |keys|
  {
    keys[at + 2 * k]
  }

  function High(keys: seq<int>, at: nat, k: nat): int
    requires at + 2 * k + 1 < |keys|
  {
    keys[at + 2 * k + 1]
  }

  /** Which of `n` keys from `at` on is `b`: looked for one after the other. */
  function FindKey(keys: seq<int>, at: nat, n: nat, b: int): (r: Option<nat>)
    requires at + n <= |keys|
    ensures r.Some? ==> r.value < n && IsKey(keys, at, r.value, b)
    ensures r.None? ==> forall k :: 0 <= k < n ==> !IsKey(keys, at, k, b)
  {
    if n == 0 then None
    else
      var r := FindKey(keys, at, n - 1, b);
      if r.Some? then r else if IsKey(keys, at, n - 1, b) then Some(n - 1) else None
  }

  /** Which of `n` ranges from `at` on has `b` in it. */
  function FindRange(keys: seq<int>, at: nat, n: nat, b: int): (r: Option<nat>)
    requires at + 2 * n <= |keys|
    ensures r.Some? ==> r.value < n && Low(keys, at, r.value) <= b <= High(keys, at, r.value)
    ensures r.None? ==> forall k :: 0 <= k < n ==> !(Low(keys, at, k) <= b <= High(keys, at, k))
  {
    if n == 0 then None
    else
      var r := FindRange(keys, at, n - 1, b);
      if r.Some? then r
      else if Low(keys, at, n - 1) <= b <= High(keys, at, n - 1) then Some(n - 1) else None
  }

  predicate Ascending(keys: seq<int>, at: nat, n: nat) {
    at + n <= |keys| && forall i, j :: at <= i < j < at + n ==> keys[i] < keys[j]
  }

  lemma {:induction false} FindKeyIs(keys: seq<int>, at: nat, n: nat, b: int, k: nat)
    requires Ascending(keys, at, n) && k < n && keys[at + k] == b
    ensures FindKey(keys, at, n, b) == Some(k)
  {
    assert IsKey(keys, at, k, b);
    var r := FindKey(keys, at, n, b).value;
    assert keys[at + r] == keys[at + k];
  }

  lemma {:induction false} FindKeyNone(keys: seq<int>, at: nat, n: nat, b: int)
    requires at + n <= |keys| && forall k :: at <= k < at + n ==> keys[k] != b
    ensures FindKey(keys, at, n, b) == None
  {
  }

  /** The binary search over single bytes. */
  method SearchKey(keys: seq<int>, at: nat, n: nat, b: int) returns (r: Option<nat>)
    requires Ascending(keys, at, n)
    ensures r == FindKey(keys, at, n, b)
  {
    var lower: int, upper: int := at, at + n - 1;
    while lower <= upper
      invariant at <= lower <= upper + 1 <= at + n
      invariant forall k :: at <= k < lower ==> keys[k] < b
      invariant forall k :: upper < k < at + n ==> keys[k] > b
      decreases upper - lower
    {
      var mid := lower + (upper - lower) / 2;
      if b < keys[mid] {
        upper := mid - 1;
      } else if b > keys[mid] {
        lower := mid + 1;
      } else {
        FindKeyIs(keys, at, n, b, mid - at);
        return Some(mid - at);
      }
    }
    FindKeyNone(keys, at, n, b);
    return None;
  }

  lemma {:induction false} RangesApart(keys: seq<int>, at: nat, n: nat, i: nat, j: nat)
    requires Ascending(keys, at, 2 * n) && i < j < n
    ensures Low(keys, at, i) < High(keys, at, i) < Low(keys, at, j) < High(keys, at, j)
  {
  }

  lemma {:induction false} FindRangeIs(keys: seq<int>, at: nat, n: nat, b: int, k: nat)
    requires at + 2 * n <= |keys| && Ascending(keys, at, 2 * n) && k < n && Low(keys, at, k) <= b <= High(keys, at, k)
    ensures FindRange(keys, at, n, b) == Some(k)
  {
    hide Low, High, Ascending;
    var r := FindRange(keys, at, n, b).value;
    if r < k {
      RangesApart(keys, at, n, r, k);
    } else if r > k {
      RangesApart(keys, at, n, k, r);
    }
  }

  /**
   The binary search over ranges; `lower` and `upper` stand on lower bounds, so half
   the distance is rounded to even.
   */
  method SearchRange(keys: seq<int>, at: nat, n: nat, b: int) returns (r: Option<nat>)
    requires Ascending(keys, at, 2 * n)
    ensures r == FindRange(keys, at, n, b)
  {
    var lower: int, upper: int := at, at + 2 * n - 2;
    ghost var low, high := 0, n - 1;
    while lower <= upper
      invariant 0 <= low <= high + 1 <= n && lower == at + 2 * low && upper == at + 2 * high
      invariant forall k :: 0 <= k < low ==> High(keys, at, k) < b
      invariant forall k :: high < k < n ==> b < Low(keys, at, k)
      decreases upper - lower
    {
      hide Ascending;
      var mid := lower + (upper - lower) / 2 / 2 * 2;
      ghost var m := low + (high - low) / 2;
      assert mid == at + 2 * m;
      if b < keys[mid] {
        RangesAbove(keys, at, n, b, m);
        upper := mid - 2;
        high := m - 1;
      } else if b > keys[mid + 1] {
        RangesBelow(keys, at, n, b, m);
        lower := mid + 2;
        low := m + 1;
      } else {
        FindRangeIs(keys, at, n, b, m);
        return Some((mid - at) / 2);
      }
    }
    return None;
  }

  lemma {:induction false} RangesAbove(keys: seq<int>, at: nat, n: nat, b: int, m: nat)
    requires at + 2 * n <= |keys| && Ascending(keys, at, 2 * n) && m < n && b < Low(keys, at, m)
    ensures forall k :: m <= k < n ==> b < Low(keys, at, k)
  {
    hide Ascending, Low, High;
    forall k | m < k < n ensures b < Low(keys, at, k) {
      RangesApart(keys, at, n, m, k);
    }
  }

  lemma {:induction false} RangesBelow(keys: seq<int>, at: nat, n: nat, b: int, m: nat)
    requires at + 2 * n <= |keys| && Ascending(keys, at, 2 * n) && m < n && High(keys, at, m) < b
    ensures forall k :: 0 <= k <= m ==> High(keys, at, k) < b
  {
    hide Ascending, Low, High;
    forall k | 0 <= k < m ensures High(keys, at, k) < b {
      RangesApart(keys, at, n, k, m);
    }
  }

  // ---------------------------------------------------------------- one transition

  /** The keys of a state are within the arrays and in order. */
  predicate StateOk(t: Tables, cs: nat) {
    && cs < |t.keyOffsets| && cs < |t.singleLengths| && cs < |t.rangeLengths| && cs < |t.indexOffsets|
    && var at, n, m := t.keyOffsets[cs], t.singleLengths[cs], t.rangeLengths[cs];
       && Ascending(t.transKeys, at, n) && Ascending(t.transKeys, at + n, 2 * m)
       && t.indexOffsets[cs] + n + m < |t.indicies|
  }

  /** The transition that a state makes on a byte. */
  function Transition(t: Tables, cs: nat, b: int): nat
    requires StateOk(t, cs)
  {
    var at, n, m := t.keyOffsets[cs], t.singleLengths[cs], t.rangeLengths[cs];
    var single := FindKey(t.transKeys, at, n, b);
    var range := FindRange(t.transKeys, at + n, m, b);
    var slot := if single.Some? then single.value else if range.Some? then n + range.value else n + m;
    t.indicies[t.indexOffsets[cs] + slot]
  }

  /** The _match block of the interpreter loop. */
  method Match(t: Tables, cs: nat, b: int) returns (trans: nat)
    requires StateOk(t, cs)
    ensures trans == Transition(t, cs, b)
  {
    hide FindKey, FindRange;
    var keys := t.keyOffsets[cs];
    var slot := t.indexOffsets[cs];
    var klen := t.singleLengths[cs];
    EmptySearch(t.transKeys, keys, b);
    if klen > 0 {
      var k := SearchKey(t.transKeys, keys, klen, b);
      if k.Some? { return t.indicies[slot + k.value]; }
      keys := keys + klen;
      slot := slot + klen;
    }
    klen := t.rangeLengths[cs];
    EmptySearch(t.transKeys, keys, b);
    if klen > 0 {
      var k := SearchRange(t.transKeys, keys, klen, b);
      if k.Some? { return t.indicies[slot + k.value]; }
      slot := slot + klen;
    }
    return t.indicies[slot];
  }

  lemma {:induction false} EmptySearch(keys: seq<int>, at: nat, b: int)
    requires at <= |keys|
    ensures FindKey(keys, at, 0, b) == None && FindRange(keys, at, 0, b) == None
  {
  }

  // ---------------------------------------------------------------- integers

  const INTEGER: Tables := Tables(
    [0, 0, 4, 7, 9, 9],
    [45, 48, 49, 57, 48, 49, 57, 48, 57, 48, 57, 0],
    [0, 2, 1, 0, 0, 0],
    [0, 1, 1, 1, 0, 1],
    [0, 0, 4, 7, 9, 10],
    [0, 2, 3, 1, 2, 3, 1, 1, 4, 1, 3, 4, 0],
    [2, 0, 3, 5, 4],
    [0, 0, 0, 0, 1])

  /** The searches in rows as short as those of the number machines. */
  lemma {:induction false} FewKeys(keys: seq<int>, at: nat, n: nat, b: int)
    requires 1 <= n <= 3 && at + n <= |keys|
    ensures FindKey(keys, at, n, b)
         == if keys[at] == b then Some(0)
            else if n >= 2 && keys[at + 1] == b then Some(1)
            else if n == 3 && keys[at + 2] == b then Some(2) else None
  {
    assert FindKey(keys, at, 1, b) == if keys[at] == b then Some(0) else None;
    if n >= 2 {
      assert FindKey(keys, at, 2, b).Some? || keys[at + 1] != b;
    }
  }

  lemma {:induction false} FewRanges(keys: seq<int>, at: nat, n: nat, b: int)
    requires 1 <= n <= 2 && at + 2 * n <= |keys|
    ensures FindRange(keys, at, n, b)
         == if keys[at] <= b <= keys[at + 1] then Some(0)
            else if n == 2 && keys[at + 2] <= b <= keys[at + 3] then Some(1) else None
  {
    assert FindRange(keys, at, 1, b) == if keys[at] <= b <= keys[at + 1] then Some(0) else None;
  }

  /** `part` stands in `all` at `at`; parts are short. */
  predicate Stands(all: seq<int>, at: nat, part: seq<int>) {
    && at + |part| <= |all| && |part| <= 6
    && (|part| > 0 ==> all[at] == part[0]) && (|part| > 1 ==> all[at + 1] == part[1])
    && (|part| > 2 ==> all[at + 2] == part[2]) && (|part| > 3 ==> all[at + 3] == part[3])
    && (|part| > 4 ==> all[at + 4] == part[4]) && (|part| > 5 ==> all[at + 5] == part[5])
  }

  /** The entries of a state in the arrays: single bytes, bounds of ranges, and transitions. */
  predicate HasRow(t: Tables, cs: nat, at: nat, io: nat, singles: seq<int>, ranges: seq<int>, indicies: seq<nat>) {
    && cs < |t.keyOffsets| && cs < |t.singleLengths| && cs < |t.rangeLengths| && cs < |t.indexOffsets|
    && t.keyOffsets[cs] == at && t.indexOffsets[cs] == io
    && t.singleLengths[cs] == |singles| && 2 * t.rangeLengths[cs] == |ranges|
    && Stands(t.transKeys, at, singles) && Stands(t.transKeys, at + |singles|, ranges)
    && Stands(t.indicies, io, indicies)
    && |indicies| == |singles| + |ranges| / 2 + 1
  }

  predicate Rising(part: seq<int>) {
    && |part| <= 4
    && (|part| > 1 ==> part[0] < part[1]) && (|part| > 2 ==> part[1] < part[2]) && (|part| > 3 ==> part[2] < part[3])
  }

  lemma {:induction false} RisingAscends(all: seq<int>, at: nat, part: seq<int>)
    requires Stands(all, at, part) && Rising(part)
    ensures Ascending(all, at, |part|)
  {
    forall i, j | at <= i < j < at + |part| ensures all[i] < all[j] {
      assert i == at || i == at + 1 || i == at + 2;
      assert j == at + 1 || j == at + 2 || j == at + 3;
    }
  }

  function KeySlot(singles: seq<int>, b: int): (r: Option<nat>)
    ensures r.Some? ==> r.value < |singles|
  {
    if |singles| >= 1 && singles[0] == b then Some(0)
    else if |singles| >= 2 && singles[1] == b then Some(1)
    else if |singles| >= 3 && singles[2] == b then Some(2) else None
  }

  function RangeSlot(ranges: seq<int>, b: int): (r: Option<nat>)
    ensures r.Some? ==> 2 * r.value + 1 < |ranges|
  {
    if |ranges| >= 2 && ranges[0] <= b <= ranges[1] then Some(0)
    else if |ranges| >= 4 && ranges[2] <= b <= ranges[3] then Some(1) else None
  }

  /** Which transition of a row a byte selects. */
  function Slot(singles: seq<int>, ranges: seq<int>, b: int): (k: nat)
    ensures k <= |singles| + |ranges| / 2
  {
    var single, range := KeySlot(singles, b), RangeSlot(ranges, b);
    if single.Some? then single.value
    else if range.Some? then |singles| + range.value
    else |singles| + |ranges| / 2
  }

  /** A state with up to three single bytes and up to two ranges. */
  lemma {:induction false} RowMeans(
    t: Tables, cs: nat, at: nat, io: nat, singles: seq<int>, ranges: seq<int>, indicies: seq<nat>, b: int)
    requires HasRow(t, cs, at, io, singles, ranges, indicies) && |singles| <= 3 && |ranges| <= 4
    requires Rising(singles) && Rising(ranges)
    ensures StateOk(t, cs)
    ensures Transition(t, cs, b) == indicies[Slot(singles, ranges, b)]
  {
    hide FindKey, FindRange, Ascending, Rising, Stands, Slot, KeySlot, RangeSlot;
    var n, m := |singles|, |ranges| / 2;
    RisingAscends(t.transKeys, at, singles);
    RisingAscends(t.transKeys, at + n, ranges);
    StandsWithin(t.indicies, io, indicies);
    var single, range := FindKey(t.transKeys, at, n, b), FindRange(t.transKeys, at + n, m, b);
    SingleMeans(t.transKeys, at, singles, b);
    RangeMeans(t.transKeys, at + n, ranges, b);
    SlotIs(singles, ranges, b);
    Entry(t.indicies, io, indicies, Slot(singles, ranges, b));
  }

  lemma {:induction false} SlotIs(singles: seq<int>, ranges: seq<int>, b: int)
    ensures var single, range := KeySlot(singles, b), RangeSlot(ranges, b);
            Slot(singles, ranges, b)
            == if single.Some? then single.value
               else |singles| + if range.Some? then range.value else |ranges| / 2
  {
  }

  lemma {:induction false} StandsWithin(all: seq<int>, at: nat, part: seq<int>)
    requires Stands(all, at, part)
    ensures at + |part| <= |all|
  {
  }

  lemma {:induction false} Entry(all: seq<int>, at: nat, part: seq<int>, k: nat)
    requires Stands(all, at, part) && k < |part|
    ensures at + |part| <= |all| && all[at + k] == part[k]
  {
    assert k == 0 || k == 1 || k == 2 || k == 3 || k == 4 || k == 5;
  }

  lemma {:induction false} SingleMeans(all: seq<int>, at: nat, singles: seq<int>, b: int)
    requires Stands(all, at, singles) && |singles| <= 3
    ensures at + |singles| <= |all|
    ensures FindKey(all, at, |singles|, b)
         == KeySlot(singles, b)
  {
    hide FindKey;
    EmptySearch(all, at, b);
    if |singles| > 0 {
      FewKeys(all, at, |singles|, b);
    }
  }

  lemma {:induction false} RangeMeans(all: seq<int>, at: nat, ranges: seq<int>, b: int)
    requires Stands(all, at, ranges) && |ranges| <= 4 && |ranges| % 2 == 0
    ensures at + |ranges| <= |all|
    ensures FindRange(all, at, |ranges| / 2, b)
         == RangeSlot(ranges, b)
  {
    hide FindRange;
    EmptySearch(all, at, b);
    if |ranges| > 0 {
      FewRanges(all, at, |ranges| / 2, b);
    }
  }

  lemma {:induction false} IntegerEntries1()
    ensures HasRow(INTEGER, 1, 0, 0, [45, 48], [49, 57], [0, 2, 3, 1])
  {
  }

  lemma {:induction false} IntegerEntries2()
    ensures HasRow(INTEGER, 2, 4, 4, [48], [49, 57], [2, 3, 1])
  {
  }

  lemma {:induction false} IntegerEntries3()
    ensures HasRow(INTEGER, 3, 7, 7, [], [48, 57], [1, 4])
  {
  }

  lemma {:induction false} IntegerEntries5()
    ensures HasRow(INTEGER, 5, 9, 10, [], [48, 57], [3, 4])
  {
  }

  lemma {:induction false} IntegerRow1(b: int)
    ensures StateOk(INTEGER, 1)
    ensures Transition(INTEGER, 1, b) == if b == 45 then 0 else if b == 48 then 2 else if 49 <= b <= 57 then 3 else 1
  {
    hide Transition, StateOk, FindKey, FindRange, Ascending, HasRow, Stands;
    IntegerEntries1();
    RowMeans(INTEGER, 1, 0, 0, [45, 48], [49, 57], [0, 2, 3, 1], b);
  }

  lemma {:induction false} IntegerRow2(b: int)
    ensures StateOk(INTEGER, 2)
    ensures Transition(INTEGER, 2, b) == if b == 48 then 2 else if 49 <= b <= 57 then 3 else 1
  {
    hide Transition, StateOk, FindKey, FindRange, Ascending, HasRow, Stands;
    IntegerEntries2();
    RowMeans(INTEGER, 2, 4, 4, [48], [49, 57], [2, 3, 1], b);
  }

  lemma {:induction false} IntegerRow3(b: int)
    ensures StateOk(INTEGER, 3)
    ensures Transition(INTEGER, 3, b) == if 48 <= b <= 57 then 1 else 4
  {
    hide Transition, StateOk, FindKey, FindRange, Ascending, HasRow, Stands;
    IntegerEntries3();
    RowMeans(INTEGER, 3, 7, 7, [], [48, 57], [1, 4], b);
  }

  lemma {:induction false} IntegerRow5(b: int)
    ensures StateOk(INTEGER, 5)
    ensures Transition(INTEGER, 5, b) == if 48 <= b <= 57 then 3 else 4
  {
    hide Transition, StateOk, FindKey, FindRange, Ascending, HasRow, Stands;
    IntegerEntries5();
    RowMeans(INTEGER, 5, 9, 10, [], [48, 57], [3, 4], b);
  }

  /** The table says what the goto machine does. */
  lemma {:induction false} IntegerTable(cs: nat, b: byte)
    requires IntState(cs)
    ensures StateOk(INTEGER, cs)
    ensures var trans := Transition(INTEGER, cs, AsSigned(b));
            && trans < 5 && INTEGER.transTargs[trans] == IntStep(cs, b)
            && (INTEGER.transActions[trans] != 0 <==> IntStep(cs, b) == 4)
  {
    hide StateOk, Transition;
    var c := AsSigned(b);
    IntegerRow1(c);
    IntegerRow2(c);
    IntegerRow3(c);
    IntegerRow5(c);
  }

  /** parseIntegerInternal: -1 when there is no integer. */
  method ParseIntegerInternal(data: bytes, p0: nat) returns (r: int)
    requires p0 <= |data|
    ensures r == if IntEnd(data, p0).Some? then IntEnd(data, p0).value else -1
  {
    hide IntEnd, IntFrom, IntStep, Transition, StateOk;
    var cs, p := 1, p0;
    IntegerBegins(data, p0);
    while p != |data|
      invariant p0 <= p <= |data| && IntState(cs) && IntFrom(cs, data, p) == IntEnd(data, p0)
      decreases |data| - p
    {
      IntegerTable(cs, data[p]);
      IntStepFinds(cs, data, p);
      var trans := Match(INTEGER, cs, AsSigned(data[p]));
      cs := INTEGER.transTargs[trans];
      if INTEGER.transActions[trans] != 0 { break; }
      if cs == 0 { break; }
      p := p + 1;
    }
    IntegerAtEnd(cs, data);
    r := if cs < 3 then -1 else p;
  }

  lemma {:induction false} IntegerBegins(data: bytes, p: nat)
    requires p <= |data|
    ensures IntFrom(1, data, p) == IntEnd(data, p)
  {
  }

  lemma {:induction false} IntegerAtEnd(cs: int, data: bytes)
    ensures IntState(cs) ==> IntFrom(cs, data, |data|) == if cs >= 3 then Some(|data|) else None
  {
  }

  // ---------------------------------------------------------------- floats

  const FLOAT: Tables := Tables(
    [0, 0, 4, 7, 10, 12, 16, 18, 23, 29, 29],
    [45, 48, 49, 57, 48, 49, 57, 46, 69, 101, 48, 57]
    + [43, 45, 48, 57, 48, 57, 46, 69, 101, 48, 57, 69]
    + [101, 45, 46, 48, 57, 69, 101, 45, 46, 48, 57, 0],
    [0, 2, 1, 3, 0, 2, 0, 3, 2, 0, 2],
    [0, 1, 1, 0, 1, 1, 1, 1, 2, 0, 2],
    [0, 0, 4, 7, 11, 13, 17, 19, 24, 29, 30],
    [0, 2, 3, 1, 2, 3, 1, 4, 5, 5, 1, 6]
    + [1, 7, 7, 8, 1, 8, 1, 4, 5, 5, 3, 1]
    + [5, 5, 1, 6, 9, 1, 1, 1, 1, 8, 9, 0],
    [2, 0, 3, 7, 4, 5, 8, 6, 10, 9],
    [0, 0, 0, 0, 0, 0, 0, 0, 0, 1])

  lemma {:induction false} FloatEntries1()
    ensures HasRow(FLOAT, 1, 0, 0, [45, 48], [49, 57], [0, 2, 3, 1])
  {
  }

  lemma {:induction false} FloatEntries2()
    ensures HasRow(FLOAT, 2, 4, 4, [48], [49, 57], [2, 3, 1])
  {
  }

  lemma {:induction false} FloatEntries3()
    ensures HasRow(FLOAT, 3, 7, 7, [46, 69, 101], [], [4, 5, 5, 1])
  {
  }

  lemma {:induction false} FloatEntries4()
    ensures HasRow(FLOAT, 4, 10, 11, [], [48, 57], [6, 1])
  {
  }

  lemma {:induction false} FloatEntries5()
    ensures HasRow(FLOAT, 5, 12, 13, [43, 45], [48, 57], [7, 7, 8, 1])
  {
  }

  lemma {:induction false} FloatEntries6()
    ensures HasRow(FLOAT, 6, 16, 17, [], [48, 57], [8, 1])
  {
  }

  lemma {:induction false} FloatEntries7()
    ensures HasRow(FLOAT, 7, 18, 19, [46, 69, 101], [48, 57], [4, 5, 5, 3, 1])
  {
  }

  lemma {:induction false} FloatEntries8()
    ensures HasRow(FLOAT, 8, 23, 24, [69, 101], [45, 46, 48, 57], [5, 5, 1, 6, 9])
  {
  }

  lemma {:induction false} FloatEntries10()
    ensures HasRow(FLOAT, 10, 29, 30, [69, 101], [45, 46, 48, 57], [1, 1, 1, 8, 9])
  {
  }

  lemma {:induction false} FloatRow1(b: int)
    ensures StateOk(FLOAT, 1)
    ensures Transition(FLOAT, 1, b) == if b == 45 then 0 else if b == 48 then 2 else if 49 <= b <= 57 then 3 else 1
  {
    hide Transition, StateOk, FindKey, FindRange, Ascending, HasRow, Stands;
    FloatEntries1();
    RowMeans(FLOAT, 1, 0, 0, [45, 48], [49, 57], [0, 2, 3, 1], b);
  }

  lemma {:induction false} FloatRow2(b: int)
    ensures StateOk(FLOAT, 2)
    ensures Transition(FLOAT, 2, b) == if b == 48 then 2 else if 49 <= b <= 57 then 3 else 1
  {
    hide Transition, StateOk, FindKey, FindRange, Ascending, HasRow, Stands;
    FloatEntries2();
    RowMeans(FLOAT, 2, 4, 4, [48], [49, 57], [2, 3, 1], b);
  }

  lemma {:induction false} FloatRow3(b: int)
    ensures StateOk(FLOAT, 3)
    ensures Transition(FLOAT, 3, b) == if b == 46 then 4 else if b == 69 then 5 else if b == 101 then 5 else 1
  {
    hide Transition, StateOk, FindKey, FindRange, Ascending, HasRow, Stands;
    FloatEntries3();
    RowMeans(FLOAT, 3, 7, 7, [46, 69, 101], [], [4, 5, 5, 1], b);
  }

  lemma {:induction false} FloatRow4(b: int)
    ensures StateOk(FLOAT, 4)
    ensures Transition(FLOAT, 4, b) == if 48 <= b <= 57 then 6 else 1
  {
    hide Transition, StateOk, FindKey, FindRange, Ascending, HasRow, Stands;
    FloatEntries4();
    RowMeans(FLOAT, 4, 10, 11, [], [48, 57], [6, 1], b);
  }

  lemma {:induction false} FloatRow5(b: int)
    ensures StateOk(FLOAT, 5)
    ensures Transition(FLOAT, 5, b) == if b == 43 then 7 else if b == 45 then 7 else if 48 <= b <= 57 then 8 else 1
  {
    hide Transition, StateOk, FindKey, FindRange, Ascending, HasRow, Stands;
    FloatEntries5();
    RowMeans(FLOAT, 5, 12, 13, [43, 45], [48, 57], [7, 7, 8, 1], b);
  }

  lemma {:induction false} FloatRow6(b: int)
    ensures StateOk(FLOAT, 6)
    ensures Transition(FLOAT, 6, b) == if 48 <= b <= 57 then 8 else 1
  {
    hide Transition, StateOk, FindKey, FindRange, Ascending, HasRow, Stands;
    FloatEntries6();
    RowMeans(FLOAT, 6, 16, 17, [], [48, 57], [8, 1], b);
  }

  lemma {:induction false} FloatRow7(b: int)
    ensures StateOk(FLOAT, 7)
    ensures Transition(FLOAT, 7, b)
         == if b == 46 then 4 else if b == 69 then 5 else if b == 101 then 5 else if 48 <= b <= 57 then 3 else 1
  {
    hide Transition, StateOk, FindKey, FindRange, Ascending, HasRow, Stands;
    FloatEntries7();
    RowMeans(FLOAT, 7, 18, 19, [46, 69, 101], [48, 57], [4, 5, 5, 3, 1], b);
  }

  lemma {:induction false} FloatRow8(b: int)
    ensures StateOk(FLOAT, 8)
    ensures Transition(FLOAT, 8, b)
         == if b == 69 then 5 else if b == 101 then 5
            else if 45 <= b <= 46 then 1 else if 48 <= b <= 57 then 6 else 9
  {
    hide Transition, StateOk, FindKey, FindRange, Ascending, HasRow, Stands;
    FloatEntries8();
    RowMeans(FLOAT, 8, 23, 24, [69, 101], [45, 46, 48, 57], [5, 5, 1, 6, 9], b);
  }

  lemma {:induction false} FloatRow10(b: int)
    ensures StateOk(FLOAT, 10)
    ensures Transition(FLOAT, 10, b)
         == if b == 69 then 1 else if b == 101 then 1
            else if 45 <= b <= 46 then 1 else if 48 <= b <= 57 then 8 else 9
  {
    hide Transition, StateOk, FindKey, FindRange, Ascending, HasRow, Stands;
    FloatEntries10();
    RowMeans(FLOAT, 10, 29, 30, [69, 101], [45, 46, 48, 57], [1, 1, 1, 8, 9], b);
  }

  lemma {:induction false} FloatTable(cs: nat, b: byte)
    requires FloatState(cs)
    ensures StateOk(FLOAT, cs)
    ensures var trans := Transition(FLOAT, cs, AsSigned(b));
            && trans < 10 && FLOAT.transTargs[trans] == FloatStep(cs, b)
            && (FLOAT.transActions[trans] != 0 <==> FloatStep(cs, b) == 9)
  {
    hide StateOk, Transition;
    var c := AsSigned(b);
    if cs == 1 {
      FloatRow1(c);
    } else if cs == 2 {
      FloatRow2(c);
    } else if cs == 3 {
      FloatRow3(c);
    } else if cs == 4 {
      FloatRow4(c);
    } else if cs == 5 {
      FloatRow5(c);
    } else if cs == 6 {
      FloatRow6(c);
    } else if cs == 7 {
      FloatRow7(c);
    } else if cs == 8 {
      FloatRow8(c);
    } else {
      FloatRow10(c);
    }
  }

  /** parseFloatInternal: -1 when there is no float. */
  method ParseFloatInternal(data: bytes, p0: nat) returns (r: int)
    requires p0 <= |data|
    ensures r == if FloatEnd(data, p0).Some? then FloatEnd(data, p0).value else -1
  {
    hide FloatEnd, FloatFrom, FloatStep, Transition, StateOk;
    var cs, p := 1, p0;
    FloatBegins(data, p0);
    while p != |data|
      invariant p0 <= p <= |data| && FloatState(cs) && FloatFrom(cs, data, p) == FloatEnd(data, p0)
      decreases |data| - p
    {
      FloatTable(cs, data[p]);
      FloatStepFinds(cs, data, p);
      var trans := Match(FLOAT, cs, AsSigned(data[p]));
      cs := FLOAT.transTargs[trans];
      if FLOAT.transActions[trans] != 0 { break; }
      if cs == 0 { break; }
      p := p + 1;
    }
    FloatAtEnd(cs, data);
    r := if cs < 8 then -1 else p;
  }

  lemma {:induction false} FloatBegins(data: bytes, p: nat)
    requires p <= |data|
    ensures FloatFrom(1, data, p) == FloatEnd(data, p)
  {
  }

  lemma {:induction false} FloatAtEnd(cs: int, data: bytes)
    ensures FloatState(cs) ==> FloatFrom(cs, data, |data|) == if cs >= 8 then Some(|data|) else None
  {
  }
}
