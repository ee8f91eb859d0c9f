/**
 The Ruby values that JSON text denotes. A Hash keeps its keys in insertion
 order, so it is a sequence of members; storing under a key that is already
 there replaces the value in place. A float is kept as its literal text.
 */
module JsonValue {
  import opened Bytes

  datatype Value =
    | Null
    | Bool(b: bool)
    | Int(n: int)
    | Float(text: bytes)
    | NaN
    | Infinity(negative: bool)
    | Str(s: bytes)
    | Arr(elems: seq<Value>)
    | Obj(members: seq<Member>)

  datatype Member = Member(key: bytes, value: Value)

  /** rb_hash_aset */
  function Put(ms: seq<Member>, key: bytes, v: Value): seq<Member> {
    if ms == [] then [Member(key, v)]
    else if ms[0].key == key then [Member(key, v)] + ms[1..]
    else [ms[0]] + Put(ms[1..], key, v)
  }

  predicate HasKey(ms: seq<Member>, key: bytes) {
    exists i :: 0 <= i < |ms| && ms[i].key == key
  }

  predicate DistinctKeys(ms: seq<Member>) {
    forall i, j :: 0 <= i < j < |ms| ==> ms[i].key != ms[j].key
  }

  lemma {:induction false} PutNew(ms: seq<Member>, key: bytes, v: Value)
    requires !HasKey(ms, key)
    ensures Put(ms, key, v) == ms + [Member(key, v)]
  {
    if ms != [] {
      assert ms[0].key != key;
      PutNew(ms[1..], key, v);
    }
  }
}
