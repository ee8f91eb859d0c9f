/**
 Canonical ordering of combining marks (Unicode Standard, section 3.11, D108 and
 D109), for any assignment of combining classes: a pair of adjacent characters
 is reorderable when the first has the higher class and the second is not a
 starter; reorderable pairs are exchanged until there are none.
 */
module UnfOrder {
  import Utf8

  type Char = Utf8.Scalar
  type Classes = Char -> nat

  predicate Reorderable(f: Classes, a: Char, b: Char) {
    f(a) > f(b) > 0
  }

  predicate Ordered(f: Classes, cs: seq<Char>) {
    forall i :: 0 < i < |cs| ==> !Reorderable(f, cs[i - 1], cs[i])
  }

  /** A character finds its place in an ordered text: it passes those it may not stand before. */
  function Insert(f: Classes, c: Char, cs: seq<Char>): (r: seq<Char>)
    ensures |r| == |cs| + 1
  {
    if cs == [] || !Reorderable(f, c, cs[0]) then [c] + cs else [cs[0]] + Insert(f, c, cs[1..])
  }

  function Order(f: Classes, cs: seq<Char>): (r: seq<Char>)
    ensures |r| == |cs|
  {
    if cs == [] then [] else Insert(f, cs[0], Order(f, cs[1..]))
  }

  // ---------------------------------------------------------------- the one ordered form

  lemma {:induction false} InsertOrdered(f: Classes, c: Char, cs: seq<Char>)
    requires Ordered(f, cs)
    ensures Ordered(f, Insert(f, c, cs))
    ensures Insert(f, c, cs)[0] == if cs == [] || !Reorderable(f, c, cs[0]) then c else cs[0]
  {
    if cs != [] && Reorderable(f, c, cs[0]) {
      InsertOrdered(f, c, cs[1..]);
      var rest := Insert(f, c, cs[1..]);
      var r := [cs[0]] + rest;
      assert cs[1..] != [] ==> cs[1] == cs[1..][0];
      assert !Reorderable(f, cs[0], rest[0]);
      forall i | 0 < i < |r| ensures !Reorderable(f, r[i - 1], r[i]) {
        if i > 1 {
          assert r[i - 1] == rest[i - 2] && r[i] == rest[i - 1];
        }
      }
    }
  }

  lemma {:induction false} OrderOrdered(f: Classes, cs: seq<Char>)
    ensures Ordered(f, Order(f, cs))
  {
    if cs != [] {
      OrderOrdered(f, cs[1..]);
      InsertOrdered(f, cs[0], Order(f, cs[1..]));
    }
  }

  lemma {:induction false} OrderedStays(f: Classes, cs: seq<Char>)
    requires Ordered(f, cs)
    ensures Order(f, cs) == cs
  {
    if cs != [] {
      OrderedStays(f, cs[1..]);
      assert cs == [cs[0]] + cs[1..];
    }
  }

  /** Two characters that may be exchanged can be inserted in either order. */
  lemma {:induction false} InsertsCommute(f: Classes, a: Char, b: Char, cs: seq<Char>)
    requires Reorderable(f, a, b)
    ensures Insert(f, a, Insert(f, b, cs)) == Insert(f, b, Insert(f, a, cs))
  {
    if cs == [] {
    } else if !Reorderable(f, a, cs[0]) {
      assert Insert(f, b, [a] + cs) == [b] + ([a] + cs);
      assert ([b] + cs)[1..] == cs;
    } else if !Reorderable(f, b, cs[0]) {
      var x := Insert(f, a, cs);
      assert x[0] == cs[0];
      assert ([b] + cs)[1..] == cs;
    } else {
      InsertsCommute(f, a, b, cs[1..]);
      var x, y := Insert(f, a, cs[1..]), Insert(f, b, cs[1..]);
      assert ([cs[0]] + x)[1..] == x && ([cs[0]] + y)[1..] == y;
    }
  }

  /** The text with the characters at `i - 1` and `i` exchanged. */
  function Exchanged(cs: seq<Char>, i: nat): seq<Char>
    requires 0 < i < |cs|
  {
    cs[i - 1 := cs[i]][i := cs[i - 1]]
  }

  /** Exchanging a reorderable pair does not change the ordered form. */
  lemma {:induction false} ExchangeKeepsOrder(f: Classes, cs: seq<Char>, i: nat)
    requires 0 < i < |cs| && Reorderable(f, cs[i - 1], cs[i])
    ensures Order(f, Exchanged(cs, i)) == Order(f, cs)
  {
    var ex := Exchanged(cs, i);
    if i == 1 {
      assert ex[1..][1..] == cs[1..][1..];
      InsertsCommute(f, cs[0], cs[1], Order(f, cs[2..]));
      assert cs[1..][1..] == cs[2..];
    } else {
      assert ex[1..] == Exchanged(cs[1..], i - 1);
      ExchangeKeepsOrder(f, cs[1..], i - 1);
    }
  }

  /** `to` comes from `from` by exchanging reorderable pairs, one after the other. */
  ghost predicate Reaches(f: Classes, from: seq<Char>, to: seq<Char>, steps: seq<nat>)
    decreases |steps|
  {
    if steps == [] then from == to
    else
      && 0 < steps[0] < |from| && Reorderable(f, from[steps[0] - 1], from[steps[0]])
      && Reaches(f, Exchanged(from, steps[0]), to, steps[1..])
  }

  /** Whatever order exchanges are made in, if nothing is left to exchange the result is Order. */
  lemma {:induction false} OnlyOneForm(f: Classes, from: seq<Char>, to: seq<Char>, steps: seq<nat>)
    requires Reaches(f, from, to, steps) && Ordered(f, to)
    ensures to == Order(f, from)
    decreases |steps|
  {
    if steps == [] {
      OrderedStays(f, to);
    } else {
      OnlyOneForm(f, Exchanged(from, steps[0]), to, steps[1..]);
      ExchangeKeepsOrder(f, from, steps[0]);
    }
  }

  function Shifted(steps: seq<nat>): seq<nat> {
    if steps == [] then [] else [steps[0] + 1] + Shifted(steps[1..])
  }

  lemma {:induction false} ReachesBehind(f: Classes, c: Char, from: seq<Char>, to: seq<Char>, steps: seq<nat>)
    requires Reaches(f, from, to, steps)
    ensures Reaches(f, [c] + from, [c] + to, Shifted(steps))
    decreases |steps|
  {
    if steps != [] {
      var i := steps[0];
      ReachesBehind(f, c, Exchanged(from, i), to, steps[1..]);
      assert Exchanged([c] + from, i + 1) == [c] + Exchanged(from, i);
      assert Shifted(steps)[1..] == Shifted(steps[1..]);
    }
  }

  lemma {:induction false} ReachesThen(
    f: Classes, a: seq<Char>, b: seq<Char>, c: seq<Char>, x: seq<nat>, y: seq<nat>)
    requires Reaches(f, a, b, x) && Reaches(f, b, c, y)
    ensures Reaches(f, a, c, x + y)
    decreases |x|
  {
    if x == [] {
      assert x + y == y;
    } else {
      ReachesThen(f, Exchanged(a, x[0]), b, c, x[1..], y);
      assert (x + y)[1..] == x[1..] + y;
    }
  }

  lemma {:induction false} InsertReached(f: Classes, c: Char, cs: seq<Char>) returns (steps: seq<nat>)
    ensures Reaches(f, [c] + cs, Insert(f, c, cs), steps)
  {
    if cs == [] || !Reorderable(f, c, cs[0]) {
      steps := [];
    } else {
      var rest := InsertReached(f, c, cs[1..]);
      ReachesBehind(f, cs[0], [c] + cs[1..], Insert(f, c, cs[1..]), rest);
      steps := [1] + Shifted(rest);
      assert Exchanged([c] + cs, 1) == [cs[0]] + ([c] + cs[1..]);
      assert steps[1..] == Shifted(rest);
    }
  }

  /** The ordered form is reached by exchanges. */
  lemma {:induction false} OrderReached(f: Classes, cs: seq<Char>) returns (steps: seq<nat>)
    ensures Reaches(f, cs, Order(f, cs), steps)
  {
    if cs == [] {
      steps := [];
    } else {
      var x := OrderReached(f, cs[1..]);
      ReachesBehind(f, cs[0], cs[1..], Order(f, cs[1..]), x);
      var y := InsertReached(f, cs[0], Order(f, cs[1..]));
      assert [cs[0]] + cs[1..] == cs;
      ReachesThen(f, cs, [cs[0]] + Order(f, cs[1..]), Order(f, cs), Shifted(x), y);
      steps := Shifted(x) + y;
    }
  }

  // ---------------------------------------------------------------- starters divide a text

  /** Nothing is moved across the beginning of `cs`. */
  predicate StartsWithStarter(f: Classes, cs: seq<Char>) {
    cs == [] || f(cs[0]) == 0
  }

  lemma {:induction false} InsertBefore(f: Classes, c: Char, a: seq<Char>, b: seq<Char>)
    requires StartsWithStarter(f, b)
    ensures Insert(f, c, a + b) == Insert(f, c, a) + b
  {
    if a == [] {
      assert a + b == b;
    } else if Reorderable(f, c, a[0]) {
      assert (a + b)[1..] == a[1..] + b;
      InsertBefore(f, c, a[1..], b);
      assert [a[0]] + (Insert(f, c, a[1..]) + b) == [a[0]] + Insert(f, c, a[1..]) + b;
    } else {
      assert [c] + (a + b) == [c] + a + b;
    }
  }

  lemma {:induction false} StarterStaysFirst(f: Classes, cs: seq<Char>)
    requires StartsWithStarter(f, cs) && cs != []
    ensures Order(f, cs) == [cs[0]] + Order(f, cs[1..])
  {
  }

  /** A text is ordered piece by piece, where the pieces begin with starters. */
  lemma {:induction false} OrderSplits(f: Classes, a: seq<Char>, b: seq<Char>)
    requires StartsWithStarter(f, b)
    ensures Order(f, a + b) == Order(f, a) + Order(f, b)
  {
    if a == [] {
      assert a + b == b;
      assert [] + Order(f, b) == Order(f, b);
    } else {
      assert (a + b)[1..] == a[1..] + b;
      OrderSplits(f, a[1..], b);
      if b != [] {
        StarterStaysFirst(f, b);
      }
      InsertBefore(f, a[0], Order(f, a[1..]), Order(f, b));
    }
  }

  /** A piece that ends with a starter is ordered for itself, too. */
  lemma {:induction false} OrderBehindStarter(f: Classes, a: seq<Char>, b: seq<Char>)
    requires a == [] || f(a[|a| - 1]) == 0
    ensures Order(f, a + b) == Order(f, a) + Order(f, b)
  {
    if a == [] {
      assert a + b == b;
      assert [] + Order(f, b) == Order(f, b);
    } else {
      var x, s := a[..|a| - 1], a[|a| - 1];
      assert a == x + [s] && a + b == x + ([s] + b);
      OrderSplits(f, x, [s] + b);
      OrderSplits(f, x, [s]);
      StarterStaysFirst(f, [s] + b);
      StarterStaysFirst(f, [s]);
      assert ([s] + b)[1..] == b && [s][1..] == [];
      assert Order(f, x) + ([s] + Order(f, b)) == Order(f, x) + [s] + Order(f, b);
    }
  }
}
