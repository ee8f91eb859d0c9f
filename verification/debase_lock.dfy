/**
 The lock that lets one thread at a time into an event handler (debase_internals.c,
 check_start_processing and cleanup), as a transition system. A thread gives way
 only where it is stopped, in callbacks and where it runs another thread, so a
 step is what happens between two such points.
 */
module DebaseLock {
  import opened Bytes
  import opened DebaseQueue

  type Thread = nat

  /**
   `stopped` threads wait inside rb_thread_stop, `woken` ones have been run again
   but have not yet looked at the lock, `inside` are those in a handler.
   */
  datatype State = State(
    locker: Option<Thread>, queue: seq<Thread>, stopped: set<Thread>, woken: set<Thread>, inside: set<Thread>)

  const INITIAL: State := State(None, [], {}, {}, {})

  datatype Step =
    | Event(t: Thread)      // a trace event on a running thread
    | Recheck(t: Thread)    // a woken thread looks at the lock again
    | Cleanup(t: Thread)    // a handler ends
    | Spurious(t: Thread)   // somebody else runs a stopped thread

  predicate Enabled(s: State, step: Step) {
    match step
    case Event(t) => t !in s.stopped && t !in s.woken
    case Recheck(t) => t in s.woken
    case Cleanup(t) => t in s.inside
    case Spurious(t) => t in s.stopped
  }

  /** The loop of check_start_processing, up to a stop or the decision to go on. */
  function Check(s: State, t: Thread): State {
    if s.locker == None then s.(locker := Some(t), inside := s.inside + {t})
    else if s.locker == Some(t) then s
    else s.(queue := Added(s.queue, t), stopped := s.stopped + {t})
  }

  /** The lock is given back and the first thread in the queue is run. */
  function Release(s: State, t: Thread): State {
    var free := s.(locker := None, inside := s.inside - {t}, queue := Removed(s.queue));
    if s.queue != [] && s.queue[0] in s.stopped
    then free.(stopped := s.stopped - {s.queue[0]}, woken := s.woken + {s.queue[0]})
    else free
  }

  function Next(s: State, step: Step): State {
    match step
    case Event(t) => Check(s, t)
    case Recheck(t) => Check(s.(woken := s.woken - {t}), t)
    case Cleanup(t) => Release(s, t)
    case Spurious(t) => s.(stopped := s.stopped - {t}, woken := s.woken + {t})
  }

  /** The state after a run, if every step of it can be taken. */
  function Run(steps: seq<Step>): Option<State> {
    if steps == [] then Some(INITIAL)
    else
      var s := Run(steps[..|steps| - 1]);
      var step := steps[|steps| - 1];
      if s.None? || !Enabled(s.value, step) then None else Some(Next(s.value, step))
  }

  // ---------------------------------------------------------------- every run

  /** At most one thread is in a handler, and it is the locker; nobody who waits is forgotten. */
  predicate Safe(s: State) {
    && s.inside == (if s.locker == None then {} else {s.locker.value})
    && (forall t :: t in s.stopped ==> t !in s.woken && t !in s.inside)
    && (forall t :: t in s.woken ==> t !in s.inside)
    && AdjacentOnly(s.queue)
    && (forall t :: t in s.stopped ==> t in s.queue)
  }

  lemma {:induction false} CheckSafe(s: State, t: Thread)
    requires Safe(s) && t !in s.stopped && t !in s.woken
    ensures Safe(Check(s, t))
    ensures t in s.inside ==> Check(s, t) == s
  {
    AddedKeeps(s.queue, t);
  }

  lemma {:induction false} ReleaseSafe(s: State, t: Thread)
    requires Safe(s) && t in s.inside
    ensures Safe(Release(s, t))
  {
    RemovedKeeps(s.queue);
    var r := Release(s, t);
    assert t !in s.stopped && t !in s.woken;
    forall x | x in r.stopped ensures x in r.queue {
      assert x in s.queue && x != s.queue[0];
      assert s.queue == [s.queue[0]] + s.queue[1..];
    }
  }

  lemma {:induction false} NextSafe(s: State, step: Step)
    requires Safe(s) && Enabled(s, step)
    ensures Safe(Next(s, step))
  {
    match step
    case Event(t) => CheckSafe(s, t);
    case Recheck(t) => CheckSafe(s.(woken := s.woken - {t}), t);
    case Cleanup(t) => ReleaseSafe(s, t);
    case Spurious(t) =>
  }

  /** Safety of every run, whoever wakes threads. */
  lemma {:induction false} RunSafe(steps: seq<Step>)
    requires Run(steps).Some?
    ensures Safe(Run(steps).value)
  {
    if steps != [] {
      RunSafe(steps[..|steps| - 1]);
      NextSafe(Run(steps[..|steps| - 1]).value, steps[|steps| - 1]);
    }
  }

  /** In every run an event on the thread that is in a handler does nothing. */
  lemma {:induction false} NestedEventDoesNothing(steps: seq<Step>, t: Thread)
    requires Run(steps).Some? && t in Run(steps).value.inside
    ensures Run(steps).value.locker == Some(t) && Next(Run(steps).value, Event(t)) == Run(steps).value
  {
    RunSafe(steps);
  }

  // ---------------------------------------------------------------- runs in which only cleanup wakes threads

  predicate OnlyCleanupWakes(steps: seq<Step>) {
    forall i :: 0 <= i < |steps| ==> !steps[i].Spurious?
  }

  function Members(q: seq<Thread>): set<Thread> {
    set t | t in q
  }

  /** The queue is exactly the stopped threads, each once, and a free lock leaves nobody waiting unnoticed. */
  predicate Orderly(s: State) {
    && Safe(s) && Distinct(s.queue) && s.stopped == Members(s.queue)
    && (s.locker == None && s.queue != [] ==> s.woken != {})
  }

  lemma {:induction false} CheckOrderly(s: State, t: Thread)
    requires Safe(s) && Distinct(s.queue) && s.stopped == Members(s.queue) && t !in s.stopped && t !in s.woken
    requires s.locker != None ==> Orderly(s)
    ensures Orderly(Check(s, t))
  {
    CheckSafe(s, t);
    AddedKeeps(s.queue, t);
    assert t in s.queue <==> t in Members(s.queue);
    var r := Check(s, t);
    if s.locker != None && s.locker != Some(t) {
      assert forall x :: x in Members(r.queue) <==> x in Members(s.queue) || x == t;
      assert r.stopped == Members(r.queue);
    }
  }

  lemma {:induction false} ReleaseOrderly(s: State, t: Thread)
    requires Orderly(s) && t in s.inside
    ensures Orderly(Release(s, t))
  {
    ReleaseSafe(s, t);
    RemovedKeeps(s.queue);
    var r := Release(s, t);
    if s.queue != [] {
      var h := s.queue[0];
      assert h in Members(s.queue) && h in r.woken;
      assert s.queue == [h] + r.queue;
      assert h !in r.queue;
      assert forall x :: x in Members(s.queue) <==> x == h || x in Members(r.queue);
      assert r.stopped == Members(r.queue);
    }
  }

  /** Over every run in which only cleanup wakes threads. */
  lemma {:induction false} RunOrderly(steps: seq<Step>)
    requires Run(steps).Some? && OnlyCleanupWakes(steps)
    ensures Orderly(Run(steps).value)
  {
    if steps != [] {
      var rest := steps[..|steps| - 1];
      RunOrderly(rest);
      var s := Run(rest).value;
      match steps[|steps| - 1]
      case Event(t) => CheckOrderly(s, t);
      case Recheck(t) =>
        assert t !in s.stopped;
        CheckOrderly(s.(woken := s.woken - {t}), t);
      case Cleanup(t) => ReleaseOrderly(s, t);
    }
  }

  // ---------------------------------------------------------------- the order in which threads are woken

  function Cleanups(steps: seq<Step>): nat {
    if steps == [] then 0
    else Cleanups(steps[..|steps| - 1]) + (if steps[|steps| - 1].Cleanup? then 1 else 0)
  }

  lemma {:induction false} RunPrefix(steps: seq<Step>, more: seq<Step>)
    requires Run(steps + more).Some?
    ensures Run(steps).Some?
  {
    if more == [] {
      assert steps + more == steps;
    } else {
      assert (steps + more)[..|steps + more| - 1] == steps + more[..|more| - 1];
      RunPrefix(steps, more[..|more| - 1]);
    }
  }

  /**
   First come, first served, over every run in which only cleanup wakes threads:
   the thread at place `i` of the queue moves up by one place with each cleanup, and
   the cleanup after that wakes it.
   */
  lemma {:induction false} WokenInTurn(steps: seq<Step>, more: seq<Step>, i: nat)
    requires Run(steps + more).Some? && OnlyCleanupWakes(steps + more)
    requires Run(steps).Some? && i < |Run(steps).value.queue|
    ensures var t, q, k := Run(steps).value.queue[i], Run(steps + more).value.queue, Cleanups(more);
            && (k <= i ==> i - k < |q| && q[i - k] == t && t in Run(steps + more).value.stopped)
            && (k == i + 1 && more[|more| - 1].Cleanup? ==> t in Run(steps + more).value.woken)
    decreases |more|
  {
    hide Orderly, Safe;
    if more == [] {
      assert steps + more == steps;
      RunOrderly(steps);
      QueuedIsStopped(Run(steps).value, i);
    } else {
      var rest, step := more[..|more| - 1], more[|more| - 1];
      assert (steps + more)[..|steps + more| - 1] == steps + rest && (steps + more)[|steps + more| - 1] == step;
      OnlyCleanupBefore(steps + more);
      WokenInTurn(steps, rest, i);
      RunOrderly(steps + rest);
      RunOrderly(steps + more);
      var k := Cleanups(rest);
      if k <= i {
        MovesUp(Run(steps + rest).value, step, i - k);
        if Cleanups(more) <= i {
          QueuedIsStopped(Run(steps + more).value, i - Cleanups(more));
        }
      }
    }
  }

  lemma {:induction false} OnlyCleanupBefore(steps: seq<Step>)
    requires steps != [] && OnlyCleanupWakes(steps)
    ensures OnlyCleanupWakes(steps[..|steps| - 1]) && !steps[|steps| - 1].Spurious?
  {
  }

  lemma {:induction false} QueuedIsStopped(s: State, i: nat)
    requires Orderly(s) && i < |s.queue|
    ensures s.queue[i] in s.stopped
  {
    assert s.queue[i] in Members(s.queue);
  }

  /** One step, for the thread at place `i` of the queue. */
  lemma {:induction false} MovesUp(s: State, step: Step, i: nat)
    requires Orderly(s) && Enabled(s, step) && !step.Spurious? && i < |s.queue|
    ensures var r := Next(s, step);
            if !step.Cleanup? then i < |r.queue| && r.queue[i] == s.queue[i]
            else if i > 0 then i - 1 < |r.queue| && r.queue[i - 1] == s.queue[i]
            else s.queue[0] in r.woken
  {
    QueuedIsStopped(s, i);
    QueuedIsStopped(s, 0);
  }

  lemma {:induction false} RunOn(steps: seq<Step>, step: Step, s: State)
    requires Run(steps) == Some(s) && Enabled(s, step)
    ensures Run(steps + [step]) == Some(Next(s, step))
  {
    hide Enabled, Next;
    assert (steps + [step])[..|steps|] == steps;
  }

  /**
   But nothing bounds how often a thread is overtaken once it has been woken: for
   every `n` there is a run in which thread 2 is woken `n` times, finds the lock
   taken again each time, and waits.
   */
  lemma {:induction false} OvertakenAgain(n: nat) returns (steps: seq<Step>)
    ensures Run(steps) == Some(ONE_WAITS) && OnlyCleanupWakes(steps) && Cleanups(steps) == n
  {
    hide Run, Enabled, Next;
    TwoWait();
    if n == 0 {
      RunNothing();
      RunOn([], Event(1), INITIAL);
      RunOn([] + [Event(1)], Event(2), TAKEN);
      steps := [] + [Event(1)] + [Event(2)];
      OneMore([], Event(1));
      OneMore([] + [Event(1)], Event(2));
    } else {
      var before := OvertakenAgain(n - 1);
      TakenAgain();
      RunOn(before, Cleanup(1), ONE_WAITS);
      var a := before + [Cleanup(1)];
      OneMore(before, Cleanup(1));
      RunOn(a, Event(1), WOKEN);
      OneMore(a, Event(1));
      RunOn(a + [Event(1)], Recheck(2), RETAKEN);
      OneMore(a + [Event(1)], Recheck(2));
      steps := a + [Event(1)] + [Recheck(2)];
    }
  }

  lemma {:induction false} RunNothing()
    ensures Run([]) == Some(INITIAL) && Cleanups([]) == 0 && OnlyCleanupWakes([])
  {
  }

  lemma {:induction false} OneMore(steps: seq<Step>, step: Step)
    ensures Cleanups(steps + [step]) == Cleanups(steps) + if step.Cleanup? then 1 else 0
    ensures OnlyCleanupWakes(steps) && !step.Spurious? ==> OnlyCleanupWakes(steps + [step])
  {
    assert (steps + [step])[..|steps|] == steps;
  }

  const WOKEN: State := State(None, [], {}, {2}, {})
  const RETAKEN: State := State(Some(1), [], {}, {2}, {1})

  lemma {:induction false} TakenAgain()
    ensures Enabled(ONE_WAITS, Cleanup(1)) && Next(ONE_WAITS, Cleanup(1)) == WOKEN
    ensures Enabled(WOKEN, Event(1)) && Next(WOKEN, Event(1)) == RETAKEN
    ensures Enabled(RETAKEN, Recheck(2)) && Next(RETAKEN, Recheck(2)) == ONE_WAITS
  {
  }

  // ---------------------------------------------------------------- runs in which anybody may wake threads

  /** A free lock leaves nobody waiting unnoticed. */
  predicate Watched(s: State) {
    s.locker == None && s.stopped != {} ==> s.woken != {}
  }

  /** A cleanup that takes a thread from the queue which is no longer stopped, with others stopped and nobody woken. */
  predicate Strands(s: State, step: Step) {
    step.Cleanup? && s.queue != [] && s.queue[0] !in s.stopped && s.woken == {} && s.stopped != {}
  }

  /** Step by step, exactly, whoever wakes threads. */
  lemma {:induction false} StepWatched(s: State, step: Step)
    requires Safe(s) && Enabled(s, step) && Watched(s)
    ensures Watched(Next(s, step)) <==> !Strands(s, step)
  {
    if step.Cleanup? && s.queue == [] {
      assert s.stopped == {};
    }
    if step.Cleanup? && s.queue != [] && s.queue[0] in s.stopped {
      assert s.queue[0] in Next(s, step).woken;
    }
    if step.Spurious? {
      assert step.t in Next(s, step).woken;
    }
  }

  /** In none of the states of a run is somebody stopped with the lock free and nobody woken. */
  predicate AlwaysWatched(steps: seq<Step>)
    requires Run(steps).Some?
  {
    Watched(Run(steps).value) && (steps != [] ==> AlwaysWatched(steps[..|steps| - 1]))
  }

  predicate NothingStrands(steps: seq<Step>)
    requires Run(steps).Some?
  {
    steps == []
    || (NothingStrands(steps[..|steps| - 1])
        && !Strands(Run(steps[..|steps| - 1]).value, steps[|steps| - 1]))
  }

  /**
   Over every run, whoever wakes threads: nobody is ever stranded if and only if no
   cleanup of the run strands anybody.
   */
  lemma {:induction false} RunWatched(steps: seq<Step>)
    requires Run(steps).Some?
    ensures AlwaysWatched(steps) <==> NothingStrands(steps)
  {
    hide Next, Enabled, Watched, Strands, Safe;
    if steps == [] {
      NothingWaits();
    } else {
      var rest := steps[..|steps| - 1];
      RunWatched(rest);
      if NothingStrands(rest) {
        RunSafe(rest);
        AlwaysMeansNow(rest);
        StepWatched(Run(rest).value, steps[|steps| - 1]);
      }
    }
  }

  lemma {:induction false} AlwaysMeansNow(steps: seq<Step>)
    requires Run(steps).Some? && AlwaysWatched(steps)
    ensures Watched(Run(steps).value)
  {
  }

  lemma {:induction false} NothingWaits()
    ensures Watched(INITIAL)
  {
  }

  // ---------------------------------------------------------------- a run that strands a thread

  const TAKEN: State := State(Some(1), [], {}, {}, {1})
  const ONE_WAITS: State := State(Some(1), [2], {2}, {}, {1})
  const TWO_WAIT: State := State(Some(1), [2, 3], {2, 3}, {}, {1})
  const WOKEN_EARLY: State := State(Some(1), [2, 3], {2}, {3}, {1})
  const FREE: State := State(None, [3], {}, {2, 3}, {})
  const OVERTAKEN: State := State(Some(3), [3], {}, {2}, {3})
  const BEHIND: State := State(Some(3), [3, 2], {2}, {}, {3})
  const STRANDED: State := State(None, [2], {2}, {}, {})

  lemma {:induction false} TwoWait()
    ensures Enabled(INITIAL, Event(1)) && Next(INITIAL, Event(1)) == TAKEN
    ensures Enabled(TAKEN, Event(2)) && Next(TAKEN, Event(2)) == ONE_WAITS
    ensures Enabled(ONE_WAITS, Event(3)) && Next(ONE_WAITS, Event(3)) == TWO_WAIT
    ensures Enabled(TWO_WAIT, Spurious(3)) && Next(TWO_WAIT, Spurious(3)) == WOKEN_EARLY
  {
  }

  lemma {:induction false} OneOvertakes()
    ensures Enabled(WOKEN_EARLY, Cleanup(1)) && Next(WOKEN_EARLY, Cleanup(1)) == FREE
    ensures Enabled(FREE, Recheck(3)) && Next(FREE, Recheck(3)) == OVERTAKEN
    ensures Enabled(OVERTAKEN, Recheck(2)) && Next(OVERTAKEN, Recheck(2)) == BEHIND
    ensures Enabled(BEHIND, Cleanup(3)) && Next(BEHIND, Cleanup(3)) == STRANDED
  {
  }

  /**
   A thread that somebody else wakes can take the lock while it is still in the
   queue; its own cleanup then removes itself, and the thread behind it stays
   stopped although the lock is free and nobody has been woken.
   */
  lemma {:induction false} SpuriousWakeStrands()
    ensures exists steps :: Run(steps) == Some(State(None, [2], {2}, {}, {}))
  {
    hide Enabled, Next;
    TwoWait();
    OneOvertakes();
    RunOn([], Event(1), INITIAL);
    RunOn([] + [Event(1)], Event(2), TAKEN);
    var a := [] + [Event(1)] + [Event(2)];
    RunOn(a, Event(3), ONE_WAITS);
    RunOn(a + [Event(3)], Spurious(3), TWO_WAIT);
    var b := a + [Event(3)] + [Spurious(3)];
    RunOn(b, Cleanup(1), WOKEN_EARLY);
    RunOn(b + [Cleanup(1)], Recheck(3), FREE);
    var c := b + [Cleanup(1)] + [Recheck(3)];
    RunOn(c, Recheck(2), OVERTAKEN);
    RunOn(c + [Recheck(2)], Cleanup(3), BEHIND);
  }
}
