/**
 The queue of waiting threads in locker.c: a singly linked list with a head and
 a tail. The membership test stops before the tail, so the last thread in the
 queue can be added once more.
 */
module DebaseQueue {
  import opened Bytes

  /** add_to_locked, on the threads in the queue. */
  function Added<T(==)>(q: seq<T>, t: T): seq<T> {
    if q != [] && t in q[..|q| - 1] then q else q + [t]
  }

  /** remove_from_locked, on the threads in the queue. */
  function Removed<T>(q: seq<T>): seq<T> {
    if q == [] then [] else q[1..]
  }

  /** A thread stands in the queue at most twice, and then in adjacent places. */
  predicate AdjacentOnly<T(==)>(q: seq<T>) {
    forall i, j :: 0 <= i < j < |q| && q[i] == q[j] ==> j == i + 1
  }

  predicate Distinct<T(==)>(q: seq<T>) {
    forall i, j :: 0 <= i < j < |q| ==> q[i] != q[j]
  }

  lemma {:induction false} AddedKeeps<T>(q: seq<T>, t: T)
    requires AdjacentOnly(q)
    ensures AdjacentOnly(Added(q, t))
    ensures Distinct(q) && t !in q ==> Distinct(Added(q, t))
    ensures t in Added(q, t) && forall x :: x in Added(q, t) <==> x in q || x == t
  {
    var r := Added(q, t);
    if r == q + [t] {
      assert r[|q|] == t;
      assert forall i :: 0 <= i < |q| - 1 ==> q[i] == q[..|q| - 1][i];
    }
  }

  lemma {:induction false} RemovedKeeps<T>(q: seq<T>)
    requires AdjacentOnly(q)
    ensures AdjacentOnly(Removed(q)) && (Distinct(q) ==> Distinct(Removed(q)))
  {
  }

  datatype Operation<T> = Add(t: T) | Remove

  function After<T(==)>(q: seq<T>, ops: seq<Operation<T>>): seq<T> {
    if ops == [] then q
    else
      var op := ops[|ops| - 1];
      var before := After(q, ops[..|ops| - 1]);
      if op.Add? then Added(before, op.t) else Removed(before)
  }

  /** Any run of operations on the empty queue keeps every thread in at most two, adjacent places. */
  lemma {:induction false} RunKeepsAdjacent<T>(ops: seq<Operation<T>>)
    ensures AdjacentOnly(After([], ops))
  {
    if ops != [] {
      var op, rest := ops[|ops| - 1], ops[..|ops| - 1];
      RunKeepsAdjacent(rest);
      if op.Add? {
        AddedKeeps(After([], rest), op.t);
      } else {
        RemovedKeeps(After([], rest));
      }
    }
  }

  /** locked_thread_t */
  class Node<T(==)> {
    const thread: T
    var next: Node?<T>

    constructor (thread: T)
      ensures this.thread == thread && next == null
    {
      this.thread := thread;
      next := null;
    }
  }

  /** The two pointers of locker.c, and the list they are the ends of. */
  class Locked<T(==)> {
    var head: Node?<T>
    var tail: Node?<T>
    ghost var nodes: seq<Node<T>>

    ghost predicate Valid()
      reads this, nodes
    {
      && (head == null <==> tail == null) && (head == null <==> nodes == [])
      && (nodes != [] ==> head == nodes[0] && tail == nodes[|nodes| - 1])
      && (forall i, j :: 0 <= i < j < |nodes| ==> nodes[i] != nodes[j])
      && (forall i :: 0 <= i < |nodes| - 1 ==> nodes[i].next == nodes[i + 1])
      && (nodes != [] ==> nodes[|nodes| - 1].next == null)
    }

    /** The threads in the queue, the next to be removed first. */
    ghost function Threads(): seq<T>
      reads this, nodes
    {
      seq(|nodes|, i requires 0 <= i < |nodes| reads this, nodes => nodes[i].thread)
    }

    constructor ()
      ensures Valid() && Threads() == []
    {
      head, tail, nodes := null, null, [];
    }

    /** is_in_locked */
    method IsIn(thread: T) returns (found: bool)
      requires Valid()
      ensures found <==> nodes != [] && thread in Threads()[..|nodes| - 1]
    {
      if head == null { return false; }
      var node := head;
      ghost var i := 0;
      while node != tail
        invariant 0 <= i < |nodes| && node == nodes[i]
        invariant thread !in Threads()[..i]
        decreases |nodes| - i
      {
        if node.thread == thread {
          assert Threads()[..|nodes| - 1][i] == thread;
          return true;
        }
        assert Threads()[..i + 1] == Threads()[..i] + [node.thread];
        node := node.next;
        i := i + 1;
      }
      return false;
    }

    /** add_to_locked */
    method Add(thread: T)
      requires Valid()
      modifies this, tail
      ensures Valid() && Threads() == Added(old(Threads()), thread)
    {
      var found := IsIn(thread);
      if found { return; }
      var node := new Node(thread);
      ghost var before := nodes;
      if tail != null {
        tail.next := node;
      }
      tail := node;
      if head == null {
        head := node;
      }
      nodes := before + [node];
    }

    /** remove_from_locked; None for nil. */
    method Remove() returns (thread: Option<T>)
      requires Valid()
      modifies this
      ensures Valid() && Threads() == Removed(old(Threads()))
      ensures thread == if old(Threads()) == [] then None else Some(old(Threads())[0])
    {
      if head == null { return None; }
      ghost var before := nodes;
      assert |before| == 1 ==> before[|before| - 1].next == null;
      assert |before| > 1 ==> before[0].next == before[0 + 1] && before[0] != before[|before| - 1];
      var node := head;
      head := head.next;
      if tail == node {
        tail := null;
      }
      thread := Some(node.thread);
      nodes := before[1..];
      forall i | 0 <= i < |nodes| - 1 ensures nodes[i].next == nodes[i + 1] {
        assert nodes[i] == before[i + 1] && nodes[i + 1] == before[i + 2];
      }
    }
  }
}
