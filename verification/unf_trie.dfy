/**
 The double-array trie of searcher.hh and the two loops that walk it. A C string
 is the text of its characters with a NUL character at the end. The tables are
 parameters: `TrieOf` says what is assumed of them.
 */
module UnfTrie {
  import opened Bytes
  import opened UnfOrder
  import Utf8

  /** A node: where its edges begin, or the value it holds, and the byte that leads to it. */
  datatype Node = Node(base: nat, check: byte)

  type Keys = Char -> Option<nat>

  /** The node behind the edge for `b`, if there is one. */
  function Step(nodes: seq<Node>, n: nat, b: byte): Option<nat> {
    if n < |nodes| && nodes[n].base + b < |nodes| && nodes[nodes[n].base + b].check == b
    then Some(nodes[n].base + b) else None
  }

  function Walk(nodes: seq<Node>, root: nat, t: bytes): Option<nat> {
    if t == [] then Some(root)
    else
      var n := Walk(nodes, root, t[..|t| - 1]);
      if n.None? then None else Step(nodes, n.value, t[|t| - 1])
  }

  predicate IsTerminal(nodes: seq<Node>, n: nat) {
    n < |nodes| && nodes[n].base < |nodes| && nodes[nodes[n].base].check == 0
  }

  /** A node on the way: all its edges are within the array, and unless it is the root no key ends here. */
  predicate Inner(nodes: seq<Node>, root: nat, t: bytes) {
    var n := Walk(nodes, root, t);
    n.Some? ==> n.value < |nodes| && nodes[n.value].base + 255 < |nodes| && (t != [] ==> !IsTerminal(nodes, n.value))
  }

  /** A whole character is a path exactly when it is a key, and then its value is found there. */
  predicate Leaf(nodes: seq<Node>, root: nat, c: Char, value: Option<nat>) {
    var n := Walk(nodes, root, Utf8.Encode(c));
    && (n.Some? <==> value.Some?)
    && (n.Some? ==> IsTerminal(nodes, n.value) && nodes[nodes[n.value].base].base == value.value)
  }

  /** What the code relies on: keys are whole characters, nothing ends inside one, and NUL is not a key. */
  ghost predicate TrieOf(nodes: seq<Node>, root: nat, keys: Keys) {
    && keys(0) == None
    && (forall c: Char, j: nat :: j < |Utf8.Encode(c)| ==> Inner(nodes, root, Utf8.Encode(c)[..j]))
    && (forall c: Char :: Leaf(nodes, root, c, keys(c)))
  }

  /** A walk that fails fails for every longer text. */
  lemma {:induction false} WalkStops(nodes: seq<Node>, root: nat, t: bytes, j: nat)
    requires j <= |t| && Walk(nodes, root, t[..j]) == None
    ensures Walk(nodes, root, t) == None
  {
    if j == |t| {
      assert t[..j] == t;
    } else {
      assert t[..|t| - 1][..j] == t[..j];
      WalkStops(nodes, root, t[..|t| - 1], j);
    }
  }

  /** The part of a character's encoding that has been read. */
  function Read(c: Char, j: nat): bytes
    requires j <= |Utf8.Encode(c)|
  {
    Utf8.Encode(c)[..j]
  }

  lemma {:induction false} ReadMore(nodes: seq<Node>, root: nat, c: Char, j: nat, n: nat)
    requires j < |Utf8.Encode(c)| && Walk(nodes, root, Read(c, j)) == Some(n)
    ensures Walk(nodes, root, Read(c, j + 1)) == Step(nodes, n, Utf8.Encode(c)[j])
  {
    var t := Read(c, j + 1);
    assert t[..|t| - 1] == Read(c, j);
  }

  /** One edge of the walk for the character `c`, from node `n` after `j` bytes. */
  lemma {:induction false} WalkOn(nodes: seq<Node>, root: nat, keys: Keys, c: Char, j: nat, n: nat)
    requires TrieOf(nodes, root, keys) && j < |Utf8.Encode(c)| && Walk(nodes, root, Read(c, j)) == Some(n)
    ensures n < |nodes| && nodes[n].base + 255 < |nodes|
    ensures var m := nodes[n].base + Utf8.Encode(c)[j];
            if nodes[m].check != Utf8.Encode(c)[j] then keys(c) == None
            else
              && Walk(nodes, root, Read(c, j + 1)) == Some(m) && nodes[m].base < |nodes|
              && (nodes[nodes[m].base].check == 0 <==> j + 1 == |Utf8.Encode(c)|)
              && (j + 1 == |Utf8.Encode(c)| ==> keys(c) == Some(nodes[nodes[m].base].base))
  {
    hide Utf8.Encode;
    var e := Utf8.Encode(c);
    assert Inner(nodes, root, e[..j]);
    assert Leaf(nodes, root, c, keys(c));
    ReadMore(nodes, root, c, j, n);
    var m := nodes[n].base + e[j];
    if nodes[m].check != e[j] {
      WalkStops(nodes, root, e, j + 1);
    } else if j + 1 < |e| {
      assert Inner(nodes, root, e[..j + 1]);
    } else {
      assert e[..j + 1] == e;
    }
  }

  /** Searcher::find_value of the character at `p`. */
  method FindValue(
    nodes: seq<Node>, root: nat, z: bytes, p: nat, default: int, ghost keys: Keys, ghost c: Char) returns (v: int)
    requires TrieOf(nodes, root, keys) && At(z, p, Utf8.Encode(c))
    ensures v == if keys(c).Some? then keys(c).value else default
  {
    hide Utf8.Encode, TrieOf, Walk, Read;
    ReadNone(nodes, root, c);
    ByteOf(z, p, c, 0);
    var node, cur := root, p;
    while true
      invariant p <= cur < p + |Utf8.Encode(c)| && Walk(nodes, root, Read(c, cur - p)) == Some(node)
      decreases p + |Utf8.Encode(c)| - cur
    {
      WalkOn(nodes, root, keys, c, cur - p, node);
      ByteOf(z, p, c, cur - p);
      node := nodes[node].base + z[cur];
      if nodes[node].check == z[cur] {
        var terminal := nodes[node].base;
        if nodes[terminal].check == 0 { return nodes[terminal].base; }
      } else {
        return default;
      }
      cur := cur + 1;
    }
  }

  lemma {:induction false} ReadNone(nodes: seq<Node>, root: nat, c: Char)
    ensures Walk(nodes, root, Read(c, 0)) == Some(root) && |Utf8.Encode(c)| > 0
  {
  }

  lemma {:induction false} ByteOf(z: bytes, p: nat, c: Char, j: nat)
    requires At(z, p, Utf8.Encode(c)) && j < |Utf8.Encode(c)|
    ensures p + |Utf8.Encode(c)| <= |z| && z[p + j] == Utf8.Encode(c)[j]
  {
    hide Utf8.Encode;
    AtIsSlice(z, p, Utf8.Encode(c));
    assert z[p..p + |Utf8.Encode(c)|][j] == z[p + j];
  }

  /**
   The inner loop that sort and decompose share: bytes are read until a key has
   been read or no edge fits. `q` is where reading stops, somewhere inside the
   character when it is not a key.
   */
  method ReadKey(nodes: seq<Node>, root: nat, z: bytes, p: nat, ghost keys: Keys, ghost c: Char)
    returns (value: Option<nat>, q: nat)
    requires TrieOf(nodes, root, keys) && At(z, p, Utf8.Encode(c))
    ensures value == keys(c)
    ensures p < q <= p + |Utf8.Encode(c)| && (value.Some? ==> q == p + |Utf8.Encode(c)|)
  {
    hide Utf8.Encode, TrieOf, Walk, Read;
    ReadNone(nodes, root, c);
    ByteOf(z, p, c, 0);
    var node := root;
    q := p;
    while true
      invariant p <= q < p + |Utf8.Encode(c)| && Walk(nodes, root, Read(c, q - p)) == Some(node)
      decreases p + |Utf8.Encode(c)| - q
    {
      WalkOn(nodes, root, keys, c, q - p, node);
      ByteOf(z, p, c, q - p);
      var b := z[q];
      q := q + 1;
      node := nodes[node].base + b;
      if nodes[node].check == b {
        var terminal := nodes[node].base;
        if nodes[terminal].check == 0 { return Some(nodes[terminal].base), q; }
      } else {
        return None, q;
      }
    }
  }

  // ---------------------------------------------------------------- positions of characters

  /** Where the `k`-th character begins. */
  function Pos(ts: seq<Char>, k: nat): nat
    requires k <= |ts|
  {
    |Utf8.Text(ts[..k])|
  }

  lemma {:induction false} CharAt(ts: seq<Char>, k: nat)
    requires k < |ts|
    ensures At(Utf8.Text(ts), Pos(ts, k), Utf8.Encode(ts[k]))
    ensures Pos(ts, k + 1) == Pos(ts, k) + |Utf8.Encode(ts[k])| <= |Utf8.Text(ts)|
    ensures Utf8.Text(ts) == Utf8.Text(ts[..k]) + Utf8.Text(ts[k..])
  {
    hide Utf8.Encode;
    var a, b := ts[..k], ts[k + 1..];
    assert ts == a + ([ts[k]] + b) && ts[..k + 1] == a + [ts[k]] && ts[k..] == [ts[k]] + b;
    Utf8.TextConcat(a, [ts[k]] + b);
    Utf8.TextConcat([ts[k]], b);
    Utf8.TextConcat(a, [ts[k]]);
    TextOne(ts[k]);
    var z := Utf8.Text(ts);
    assert z[Pos(ts, k)..Pos(ts, k) + |Utf8.Encode(ts[k])|] == Utf8.Encode(ts[k]);
    AtIsSlice(z, Pos(ts, k), Utf8.Encode(ts[k]));
  }

  lemma {:induction false} TextOne(c: Char)
    ensures Utf8.Text([c]) == Utf8.Encode(c)
  {
    assert [c][1..] == [] && Utf8.Text([]) == [];
  }

  /** Util::nearest_utf8_char_start_point */
  function StartPoint(z: bytes, p: nat): (r: nat)
    ensures r >= p
    decreases |z| - p
  {
    if p < |z| && Utf8.IsTail(z[p]) then StartPoint(z, p + 1) else p
  }

  method NearestStart(z: bytes, p: nat) returns (r: nat)
    requires p < |z|
    ensures r == StartPoint(z, p)
  {
    r := p;
    while r < |z| && Utf8.IsTail(z[r])
      invariant p <= r <= |z| && StartPoint(z, r) == StartPoint(z, p)
    {
      r := r + 1;
    }
  }

  lemma {:induction false} TailsSkipped(z: bytes, p: nat, q: nat)
    requires p <= q <= |z| && forall i :: p <= i < q ==> Utf8.IsTail(z[i])
    ensures StartPoint(z, p) == StartPoint(z, q)
    decreases q - p
  {
    if p < q {
      TailsSkipped(z, p + 1, q);
    }
  }

  lemma {:induction false} LeadAt(ts: seq<Char>, k: nat)
    requires k < |ts|
    ensures StartPoint(Utf8.Text(ts), Pos(ts, k)) == Pos(ts, k) < |Utf8.Text(ts)|
  {
    hide Utf8.Encode;
    CharAt(ts, k);
    Utf8.EncodeShape(ts[k]);
    ByteOf(Utf8.Text(ts), Pos(ts, k), ts[k], 0);
  }

  /** From inside a character the next start point is the next character. */
  lemma {:induction false} NextStart(ts: seq<Char>, k: nat, p: nat)
    requires k + 1 < |ts| && Pos(ts, k) < p <= Pos(ts, k) + |Utf8.Encode(ts[k])|
    ensures StartPoint(Utf8.Text(ts), p) == Pos(ts, k + 1)
  {
    hide Utf8.Encode;
    var z := Utf8.Text(ts);
    CharAt(ts, k);
    Utf8.EncodeShape(ts[k]);
    forall i | p <= i < Pos(ts, k + 1) ensures Utf8.IsTail(z[i]) {
      ByteOf(z, Pos(ts, k), ts[k], i - Pos(ts, k));
      assert z[Pos(ts, k) + (i - Pos(ts, k))] == z[i];
    }
    TailsSkipped(z, p, Pos(ts, k + 1));
    LeadAt(ts, k + 1);
  }

  // ---------------------------------------------------------------- a trie

  /** The `i`-th node of a trie at `root` whose one key has the two bytes `a` and `b`. */
  function OneKeyNode(root: nat, a: byte, b: byte, value: nat, i: nat): Node {
    if i == 0 then Node(root + 1, 0)
    else if i == 1 + a then Node(root + 300, a)
    else if i == 300 + b then Node(root + 600, b)
    else if i == 600 then Node(value, 0)
    else Node(0, if i == 256 || i == 555 then 254 else 255)
  }

  predicate HoldsOneKey(nodes: seq<Node>, root: nat, a: byte, b: byte, value: nat) {
    && 1 <= a < 0xF0 && 1 <= b < 0xF0 && root + 1024 <= |nodes|
    && forall i {:trigger OneKeyNode(root, a, b, value, i)} ::
         0 <= i < 1024 ==> nodes[root + i] == OneKeyNode(root, a, b, value, i)
  }

  lemma {:induction false} OneKeySteps(nodes: seq<Node>, root: nat, a: byte, b: byte, value: nat, x: byte)
    requires HoldsOneKey(nodes, root, a, b, value)
    ensures Step(nodes, root, x) == if x == a then Some(root + 1 + a) else None
    ensures Step(nodes, root + 1 + a, x) == if x == b then Some(root + 300 + b) else None
  {
    assert nodes[root + 0] == OneKeyNode(root, a, b, value, 0);
    assert nodes[root + (1 + a)] == OneKeyNode(root, a, b, value, 1 + a);
    assert nodes[root + (1 + x)] == OneKeyNode(root, a, b, value, 1 + x);
    assert nodes[root + (300 + x)] == OneKeyNode(root, a, b, value, 300 + x);
  }

  /** Where a text of up to two bytes leads. */
  lemma {:induction false} OneKeyWalk(nodes: seq<Node>, root: nat, a: byte, b: byte, value: nat, t: bytes)
    requires HoldsOneKey(nodes, root, a, b, value) && |t| <= 2
    ensures Walk(nodes, root, t)
         == if t == [] then Some(root)
            else if t[0] != a then None
            else if |t| == 1 then Some(root + 1 + a)
            else if t[1] == b then Some(root + 300 + b) else None
  {
    hide HoldsOneKey, Step;
    if |t| == 1 {
      assert t[..0] == [];
      OneKeySteps(nodes, root, a, b, value, t[0]);
    } else if |t| == 2 {
      assert t[..1] == [t[0]];
      OneKeyWalk(nodes, root, a, b, value, [t[0]]);
      OneKeySteps(nodes, root, a, b, value, t[1]);
    }
  }

  lemma {:induction false} OneKeyElsewhere(nodes: seq<Node>, root: nat, a: byte, b: byte, value: nat, t: bytes)
    requires HoldsOneKey(nodes, root, a, b, value) && t != [] && t[0] != a
    ensures Walk(nodes, root, t) == None
  {
    hide HoldsOneKey;
    assert t[..1] == [t[0]];
    OneKeyWalk(nodes, root, a, b, value, [t[0]]);
    WalkStops(nodes, root, t, 1);
  }

  lemma {:induction false} OneKeyInner(nodes: seq<Node>, root: nat, key: Char, value: nat, c: Char, j: nat)
    requires 0x80 <= key < 0x800 && HoldsOneKey(nodes, root, Utf8.Encode(key)[0], Utf8.Encode(key)[1], value)
    requires j < |Utf8.Encode(c)|
    ensures Inner(nodes, root, Utf8.Encode(c)[..j])
  {
    hide Walk, Step;
    var a, b := Utf8.Encode(key)[0], Utf8.Encode(key)[1];
    var e := Utf8.Encode(c);
    if j == 0 || (j == 1 && e[0] == a) {
      OneKeyWalk(nodes, root, a, b, value, e[..j]);
      assert nodes[root + 0] == OneKeyNode(root, a, b, value, 0);
      assert nodes[root + (1 + a)] == OneKeyNode(root, a, b, value, 1 + a);
      assert nodes[root + 300] == OneKeyNode(root, a, b, value, 300);
    } else {
      Utf8.DecodeEncode(c);
      Utf8.DecodeEncode(key);
      assert e[..j][0] == e[0] != a;
      OneKeyElsewhere(nodes, root, a, b, value, e[..j]);
    }
  }

  lemma {:induction false} OneKeyLeaf(nodes: seq<Node>, root: nat, key: Char, value: nat, c: Char)
    requires 0x80 <= key < 0x800 && HoldsOneKey(nodes, root, Utf8.Encode(key)[0], Utf8.Encode(key)[1], value)
    ensures Leaf(nodes, root, c, if c == key then Some(value) else None)
  {
    hide Walk, Step;
    var a, b := Utf8.Encode(key)[0], Utf8.Encode(key)[1];
    var e := Utf8.Encode(c);
    Utf8.DecodeEncode(c);
    Utf8.DecodeEncode(key);
    if e[0] == a {
      OneKeyWalk(nodes, root, a, b, value, e);
      var end: nat := 300 + b as int;
      assert nodes[root + end] == OneKeyNode(root, a, b, value, end);
      assert nodes[root + 600] == OneKeyNode(root, a, b, value, 600);
      if e[1] == b {
        Utf8.EncodeInjective(c, key);
      }
    } else {
      OneKeyElsewhere(nodes, root, a, b, value, e);
    }
  }

  /** The assumptions about tries can be met, with any character of two bytes as the key. */
  lemma {:induction false} TrieExists(nodes: seq<Node>, root: nat, key: Char, value: nat, keys: Keys)
    requires 0x80 <= key < 0x800 && HoldsOneKey(nodes, root, Utf8.Encode(key)[0], Utf8.Encode(key)[1], value)
    requires forall c: Char :: keys(c) == if c == key then Some(value) else None
    ensures TrieOf(nodes, root, keys)
  {
    hide Inner, Leaf, HoldsOneKey, Utf8.Encode;
    forall c: Char, j: nat | j < |Utf8.Encode(c)| ensures Inner(nodes, root, Utf8.Encode(c)[..j]) {
      OneKeyInner(nodes, root, key, value, c, j);
    }
    forall c: Char ensures Leaf(nodes, root, c, keys(c)) {
      OneKeyLeaf(nodes, root, key, value, c);
    }
  }
}
