/**
 When tracing may be switched off (debase_internals.c, try_disable_trace_points):
 the lock, the contexts, the breakpoints and the trace points together, as a
 transition system. Trace events come only while tracing is on; an event that
 found the lock taken waits with its thread and is handled later. A cleanup that
 runs another thread is two steps, since anything may happen before it goes on to
 look whether tracing can be switched off.
 */
module DebaseTracing {
  import opened Bytes
  import opened DebaseContext
  import Lock = DebaseLock

  type Thread = Lock.Thread

  /** Where the locker is while the debugger's callbacks run. */
  datatype Phase = Idle | AtBreakpoint(file: string, line: int) | AtCatchpoint(file: string, line: int) | AtLine

  /** `leaving` threads have given the lock back and run the next thread, but are not yet through with their cleanup. */
  datatype System = System(
    tracing: bool, breakpoints: nat, catchpoints: nat,
    lock: Lock.State, contexts: map<Thread, Ctx>, pending: map<Thread, Occurrence>, phase: Phase,
    leaving: set<Thread>)

  const INITIAL: System := System(false, 0, 0, Lock.INITIAL, map[], map[], Idle, {})

  /** A trace event; a raise has the place it happens at. */
  datatype Occurrence =
    | LineAt(file: string, line: int, accepted: bool)
    | Calls
    | Returns
    | Raises(file: string, line: int, accepted: bool)

  /**
   What the debugger and the threads do. `hit`: a breakpoint or catchpoint matches;
   `vmSize`: the VM's stack size; `ignored`: the thread is one of the debugger's own.
   */
  datatype Action =
    | Arrive(t: Thread, e: Occurrence, hit: bool, vmSize: nat, ignored: bool)
    | Recheck(t: Thread, hit: bool, vmSize: nat)
    | Continue
    | Finish(t: Thread)
    | StopNextCommand(steps: int, force: bool)
    | StepOverCommand(stackSize: nat, lines: int, frame: Option<int>, force: bool)
    | StopFrameCommand(above: int)
    | Pause(t: Thread)
    | Prepare(t: Thread, vmSize: nat, ignored: bool)
    | AddBreakpoint
    | RemoveBreakpoint
    | AddCatchpoint
    | RemoveCatchpoint

  /** can_disable_trace_points, for one context. */
  predicate Quiet(c: Ctx) {
    c.destFrame == -1 && c.stopLine < 0 && c.stopNext == -1 && c.stopReason == NoReason && !c.pause
  }

  predicate AllQuiet(contexts: map<Thread, Ctx>) {
    forall t :: t in contexts ==> Quiet(contexts[t])
  }

  // ---------------------------------------------------------------- steps

  function Unpaused(contexts: map<Thread, Ctx>): (r: map<Thread, Ctx>)
    ensures r.Keys == contexts.Keys
  {
    map t | t in contexts :: contexts[t].(pause := false)
  }

  function Stale(contexts: map<Thread, Ctx>): (r: map<Thread, Ctx>)
    ensures r.Keys == contexts.Keys
  {
    map t | t in contexts :: contexts[t].(updateStack := true)
  }

  /** try_disable_trace_points */
  function TryDisable(s: System): System {
    if s.breakpoints == 0 && s.catchpoints == 0 && s.tracing && AllQuiet(s.contexts)
    then s.(tracing := false, contexts := Stale(s.contexts)) else s
  }

  /** cleanup, up to the point where the next thread is run; without one it goes on to its end. */
  function Cleanup(s: System, t: Thread): System
    requires t in s.contexts
  {
    var free := s.(contexts := s.contexts[t := s.contexts[t].(stopReason := NoReason)],
                   lock := Lock.Release(s.lock, t), phase := Idle);
    if s.lock.queue == [] then TryDisable(free) else free.(leaving := s.leaving + {t})
  }

  /** call_at_line, up to the callback. */
  function CallAtLine(s: System, t: Thread, file: string, line: int): System
    requires t in s.contexts
  {
    s.(contexts := Unpaused(s.contexts)[t := StoppedAt(s.contexts[t], file, line)], phase := AtLine)
  }

  /** A handler, once its thread holds the lock, up to a callback or its end. */
  function Handle(s: System, t: Thread, e: Occurrence, hit: bool, vmSize: nat): System
    requires t in s.contexts
  {
    var c := s.contexts[t];
    match e
    case LineAt(file, line, accepted) =>
      if !accepted then Cleanup(s, t)
      else
        var d := LineChecked(c, file, line, vmSize);
        if hit then
          s.(contexts := s.contexts[t := d.(stopReason := Breakpoint)], phase := AtBreakpoint(file, line))
        else if LineStops(d, false) then
          CallAtLine(s.(contexts := s.contexts[t := ResetStops(d.(stopReason := Step))]), t, file, line)
        else Cleanup(s.(contexts := s.contexts[t := d]), t)
    case Calls => Cleanup(s.(contexts := s.contexts[t := Called(c, vmSize)]), t)
    case Returns => Cleanup(s.(contexts := s.contexts[t := Returned(c, vmSize)]), t)
    case Raises(file, line, accepted) =>
      var d := UpdateSize(c, vmSize);
      if hit && accepted then
        s.(contexts := s.contexts[t := d.(stopReason := Catchpoint)], phase := AtCatchpoint(file, line))
      else Cleanup(s.(contexts := s.contexts[t := d]), t)
  }

  /** The context of a thread, created when it is first asked for. */
  function WithContext(s: System, t: Thread, vmSize: nat, ignored: bool): (r: System)
    ensures t in r.contexts
  {
    if t in s.contexts then s else s.(contexts := s.contexts[t := NewCtx(vmSize, ignored)])
  }

  /** The loop of check_start_processing and what follows it, for a thread with an event to handle. */
  function Enter(s: System, lock: Lock.State, t: Thread, e: Occurrence, hit: bool, vmSize: nat): System
    requires t in s.contexts
  {
    var checked := Lock.Check(lock, t);
    if lock.locker == Some(t) then s
    else if checked.locker == Some(t) then Handle(s.(lock := checked, pending := s.pending - {t}), t, e, hit, vmSize)
    else s.(lock := checked, pending := s.pending[t := e])
  }

  /** A hit needs something to be hit. */
  predicate CanHit(s: System, e: Occurrence, hit: bool) {
    hit ==> (e.LineAt? && s.breakpoints > 0) || (e.Raises? && s.catchpoints > 0)
  }

  predicate InCallback(s: System) {
    s.phase != Idle && s.lock.locker.Some? && s.lock.locker.value in s.contexts
  }

  predicate Enabled(s: System, a: Action) {
    match a
    case Arrive(t, e, hit, _, _) =>
      s.tracing && t !in s.lock.stopped && t !in s.lock.woken && t !in s.leaving && CanHit(s, e, hit)
    case Recheck(t, hit, _) =>
      t in s.lock.woken && t in s.pending && t in s.contexts && CanHit(s, s.pending[t], hit)
    case Finish(t) => t in s.leaving
    case Pause(t) => t in s.contexts
    case Prepare(_, _, _) => true
    case AddBreakpoint => true
    case RemoveBreakpoint => s.breakpoints > 0
    case AddCatchpoint => true
    case RemoveCatchpoint => s.catchpoints > 0
    case _ => InCallback(s)
  }

  /** The context of the locker, which commands go to. */
  function Current(s: System): Ctx
    requires InCallback(s)
  {
    s.contexts[s.lock.locker.value]
  }

  function Commanded(s: System, c: Ctx): System
    requires InCallback(s)
  {
    s.(contexts := s.contexts[s.lock.locker.value := c])
  }

  function OrSame(r: Result<Ctx, CommandError>, c: Ctx): Ctx {
    if r.Ok? then r.value else c
  }

  function Next(s: System, a: Action): System
    requires Enabled(s, a)
  {
    match a
    case Arrive(t, e, hit, vmSize, ignored) =>
      var w := WithContext(s, t, vmSize, ignored);
      if w.contexts[t].ignore then w else Enter(w, s.lock, t, e, hit, vmSize)
    case Recheck(t, hit, vmSize) =>
      Enter(s, s.lock.(woken := s.lock.woken - {t}), t, s.pending[t], hit, vmSize)
    case Continue =>
      var t := s.lock.locker.value;
      (match s.phase
       case AtBreakpoint(file, line) =>
         CallAtLine(s.(contexts := s.contexts[t := ResetStops(s.contexts[t])]), t, file, line)
       case AtCatchpoint(file, line) => CallAtLine(s, t, file, line)
       case _ => Cleanup(s, t))
    case Finish(t) => TryDisable(s.(leaving := s.leaving - {t}))
    case StopNextCommand(steps, force) =>
      Commanded(s, OrSame(AfterStopNext(Current(s), steps, force), Current(s)))
    case StepOverCommand(stackSize, lines, frame, force) =>
      Commanded(s, StepOverLeaves(Current(s), stackSize, lines, frame, force))
    case StopFrameCommand(above) => Commanded(s, OrSame(AfterStopFrame(Current(s), above), Current(s)))
    case Pause(t) => s.(tracing := true, contexts := s.contexts[t := s.contexts[t].(pause := true)])
    case Prepare(t, vmSize, ignored) =>
      var w := WithContext(s, t, vmSize, ignored);
      w.(tracing := true, contexts := w.contexts[t := w.contexts[t].(stopNext := 1)])
    case AddBreakpoint => s.(breakpoints := s.breakpoints + 1, tracing := true)
    case RemoveBreakpoint => s.(breakpoints := s.breakpoints - 1)
    case AddCatchpoint => s.(catchpoints := s.catchpoints + 1, tracing := true)
    case RemoveCatchpoint => s.(catchpoints := s.catchpoints - 1)
  }

  // ---------------------------------------------------------------- off means nothing is pending

  /** Tracing is off only when nothing is pending. */
  predicate Settled(s: System) {
    !s.tracing ==> s.breakpoints == 0 && s.catchpoints == 0 && AllQuiet(s.contexts)
  }

  /** The lock is held during callbacks only, and then the locker's context has a reason for its stop. */
  predicate Coherent(s: System) {
    && (s.lock.locker == None <==> s.phase == Idle)
    && (s.phase != Idle ==>
          && s.lock.locker.Some? && s.lock.locker.value in s.contexts
          && s.contexts[s.lock.locker.value].stopReason != NoReason)
  }

  /**
   The one step after which tracing may be off with something pending: a thread
   that had to wait handles a line or return event with tracing off, and its
   stack is then as deep as its armed stop_frame.
   */
  predicate FrameHit(s: System, a: Action) {
    && !s.tracing && a.Recheck? && a.t in s.contexts && a.t in s.pending
    && s.lock.locker == None && Hits(s.contexts[a.t], s.pending[a.t], a.vmSize)
  }

  /** The stack is as deep as an armed stop_frame when the event is handled. */
  predicate Hits(c: Ctx, e: Occurrence, vmSize: nat) {
    match e
    case LineAt(_, _, accepted) => accepted && AtStopFrame(UpdateSize(c, vmSize))
    case Returns => AtStopFrame(UpdateSize(c.(size := c.size - 1), vmSize))
    case _ => false
  }

  lemma {:induction false} CleanupSettled(s: System, t: Thread)
    requires t in s.contexts
    requires !s.tracing ==>
               && s.breakpoints == 0 && s.catchpoints == 0
               && AllQuiet(s.contexts[t := s.contexts[t].(stopReason := NoReason)])
    ensures Settled(Cleanup(s, t)) && Coherent(Cleanup(s, t))
  {
  }

  /** A quiet context stays quiet through an event unless its stop_frame is hit. */
  lemma {:induction false} QuietLine(c: Ctx, file: string, line: int, vmSize: nat)
    requires Quiet(c)
    ensures var d := LineChecked(c, file, line, vmSize);
            if AtStopFrame(UpdateSize(c, vmSize)) then LineStops(d, false)
            else Quiet(d) && !LineStops(d, false)
  {
  }

  lemma {:induction false} QuietReturn(c: Ctx, vmSize: nat)
    requires Quiet(c)
    ensures Quiet(Returned(c, vmSize)) <==> !AtStopFrame(UpdateSize(c.(size := c.size - 1), vmSize))
  {
  }

  /** A handler with tracing on. */
  lemma {:induction false} HandleTraced(s: System, t: Thread, e: Occurrence, hit: bool, vmSize: nat)
    requires t in s.contexts && s.tracing && s.lock.locker == Some(t) && s.phase == Idle
    ensures var r := Handle(s, t, e, hit, vmSize); Settled(r) && Coherent(r)
  {
    hide LineChecked, Called, Returned, UpdateSize, LineStops;
    var c := s.contexts[t];
    match e
    case LineAt(file, line, accepted) =>
      if !accepted {
        CleanupSettled(s, t);
      } else if !hit && !LineStops(LineChecked(c, file, line, vmSize), false) {
        CleanupSettled(s.(contexts := s.contexts[t := LineChecked(c, file, line, vmSize)]), t);
      }
    case Calls => CleanupSettled(s.(contexts := s.contexts[t := Called(c, vmSize)]), t);
    case Returns => CleanupSettled(s.(contexts := s.contexts[t := Returned(c, vmSize)]), t);
    case Raises(file, line, accepted) =>
      if !(hit && accepted) {
        CleanupSettled(s.(contexts := s.contexts[t := UpdateSize(c, vmSize)]), t);
      }
  }

  /** A handler with tracing off: nothing can be hit but a stop_frame. */
  lemma {:induction false} HandleUntraced(s: System, t: Thread, e: Occurrence, vmSize: nat)
    requires t in s.contexts && !s.tracing && s.breakpoints == 0 && s.catchpoints == 0 && AllQuiet(s.contexts)
    requires s.lock.locker == Some(t) && s.phase == Idle
    ensures var r := Handle(s, t, e, false, vmSize);
            Coherent(r) && (Settled(r) <==> !Hits(s.contexts[t], e, vmSize))
  {
    hide LineChecked, Returned, LineStops, UpdateSize, AtStopFrame;
    var c := s.contexts[t];
    assert Quiet(c);
    match e
    case LineAt(file, line, accepted) =>
      QuietLine(c, file, line, vmSize);
      var d := LineChecked(c, file, line, vmSize);
      if !accepted {
        CleanupSettled(s, t);
      } else if !LineStops(d, false) {
        CleanupSettled(s.(contexts := s.contexts[t := d]), t);
      } else {
        var r := Handle(s, t, e, false, vmSize);
        assert r.contexts[t].stopReason == Step && !r.tracing;
      }
    case Calls =>
      QuietCall(c, vmSize);
      CleanupSettled(s.(contexts := s.contexts[t := Called(c, vmSize)]), t);
    case Returns =>
      QuietReturn(c, vmSize);
      var d := Returned(c, vmSize);
      var w := s.(contexts := s.contexts[t := d]);
      if Quiet(d) {
        CleanupSettled(w, t);
      } else {
        ReturnedKeepsReason(c, vmSize);
        var r := Cleanup(w, t);
        assert r.contexts[t] == d.(stopReason := NoReason) && !Quiet(r.contexts[t]);
      }
    case Raises(_, _, _) =>
      QuietCall(c, vmSize);
      CleanupSettled(s.(contexts := s.contexts[t := UpdateSize(c, vmSize)]), t);
  }

  lemma {:induction false} QuietCall(c: Ctx, vmSize: nat)
    requires Quiet(c)
    ensures Quiet(Called(c, vmSize)) && Quiet(UpdateSize(c, vmSize))
  {
  }

  lemma {:induction false} ReturnedKeepsReason(c: Ctx, vmSize: nat)
    requires Quiet(c)
    ensures Returned(c, vmSize).stopReason == NoReason
  {
  }

  lemma {:induction false} EnterSettled(s: System, lock: Lock.State, t: Thread, e: Occurrence, hit: bool, vmSize: nat)
    requires t in s.contexts && Settled(s) && Coherent(s) && lock.locker == s.lock.locker && CanHit(s, e, hit)
    ensures var r := Enter(s, lock, t, e, hit, vmSize);
            && Coherent(r)
            && (Settled(r) <==> !(!s.tracing && lock.locker == None && Hits(s.contexts[t], e, vmSize)))
  {
    hide Handle, Hits;
    var checked := Lock.Check(lock, t);
    var w := s.(lock := checked, pending := s.pending - {t});
    if lock.locker == None {
      if s.tracing {
        HandleTraced(w, t, e, hit, vmSize);
      } else {
        HandleUntraced(w, t, e, vmSize);
      }
    }
  }

  /**
   Step by step, exactly: from a state in which tracing is off only with nothing
   pending, every step leads to such a state, except a hit of a stop_frame with
   tracing off, which never does.
   */
  lemma {:induction false} StepExact(s: System, a: Action)
    requires Settled(s) && Coherent(s) && Enabled(s, a)
    ensures Coherent(Next(s, a)) && (Settled(Next(s, a)) <==> !FrameHit(s, a))
  {
    hide Enter, Handle, LineChecked, Returned, UpdateSize, AtStopFrame, Unpaused, Hits, Cleanup;
    match a
    case Arrive(t, e, hit, vmSize, ignored) =>
      EnterSettled(WithContext(s, t, vmSize, ignored), s.lock, t, e, hit, vmSize);
    case Recheck(t, hit, vmSize) =>
      EnterSettled(s, s.lock.(woken := s.lock.woken - {t}), t, s.pending[t], hit, vmSize);
    case Continue =>
      var t := s.lock.locker.value;
      assert !Quiet(s.contexts[t]) && s.tracing;
      if s.phase == AtLine {
        CleanupSettled(s, t);
      }
    case StopNextCommand(steps, force) =>
      CommandSettled(s, OrSame(AfterStopNext(Current(s), steps, force), Current(s)));
    case StepOverCommand(stackSize, lines, frame, force) =>
      CommandSettled(s, StepOverLeaves(Current(s), stackSize, lines, frame, force));
    case StopFrameCommand(above) =>
      CommandSettled(s, OrSame(AfterStopFrame(Current(s), above), Current(s)));
    case _ =>
  }

  /** A command changes only counters of a context that has stopped, and that is with tracing on. */
  lemma {:induction false} CommandSettled(s: System, c: Ctx)
    requires Settled(s) && Coherent(s) && InCallback(s) && c.stopReason == Current(s).stopReason
    ensures Settled(Commanded(s, c)) && Coherent(Commanded(s, c))
  {
    assert !Quiet(Current(s));
  }

  // ---------------------------------------------------------------- every run

  function Run(actions: seq<Action>): Option<System> {
    if actions == [] then Some(INITIAL)
    else
      var s := Run(actions[..|actions| - 1]);
      var a := actions[|actions| - 1];
      if s.None? || !Enabled(s.value, a) then None else Some(Next(s.value, a))
  }

  /** In none of the states of a run is tracing off with something pending. */
  predicate AlwaysSettled(actions: seq<Action>)
    requires Run(actions).Some?
  {
    Settled(Run(actions).value) && (actions != [] ==> AlwaysSettled(actions[..|actions| - 1]))
  }

  /** No step of a run hits a stop_frame with tracing off. */
  predicate NoFrameHit(actions: seq<Action>)
    requires Run(actions).Some?
  {
    actions == []
    || (NoFrameHit(actions[..|actions| - 1])
        && !FrameHit(Run(actions[..|actions| - 1]).value, actions[|actions| - 1]))
  }

  lemma {:induction false} RunCoherent(actions: seq<Action>)
    requires Run(actions).Some? && NoFrameHit(actions)
    ensures Settled(Run(actions).value) && Coherent(Run(actions).value)
  {
    hide Next, Settled, Coherent, FrameHit, Enabled;
    if actions == [] {
      InitialSettled();
    } else {
      RunCoherent(actions[..|actions| - 1]);
      StepExact(Run(actions[..|actions| - 1]).value, actions[|actions| - 1]);
    }
  }

  lemma {:induction false} InitialSettled()
    ensures Settled(INITIAL) && Coherent(INITIAL)
  {
  }

  /**
   Over every run: tracing is off only when nothing is pending, if and only if no
   stop_frame is hit with tracing off.
   */
  lemma {:induction false} RunExact(actions: seq<Action>)
    requires Run(actions).Some?
    ensures AlwaysSettled(actions) <==> NoFrameHit(actions)
  {
    hide Next, Settled, Coherent, FrameHit, Enabled;
    if actions == [] {
      InitialSettled();
    } else {
      var rest := actions[..|actions| - 1];
      RunExact(rest);
      if NoFrameHit(rest) {
        RunCoherent(rest);
        StepExact(Run(rest).value, actions[|actions| - 1]);
      }
    }
  }

  // ---------------------------------------------------------------- the lock inside the system, over every run

  /** Whoever waits has an event to handle and a context that is not ignored. */
  predicate Waiting(s: System) {
    forall t :: t in s.lock.stopped + s.lock.woken ==>
      t in s.pending && t in s.contexts && !s.contexts[t].ignore
  }

  /** The lock in good order and held during callbacks only, and everybody who waits able to go on once woken. */
  predicate Running(s: System) {
    && Lock.Orderly(s.lock) && Waiting(s)
    && (s.lock.locker == None <==> s.phase == Idle)
    && (s.lock.locker.Some? ==> s.lock.locker.value in s.contexts)
  }

  /** No context is lost or becomes an ignored one. */
  predicate KeepsContexts(before: map<Thread, Ctx>, after: map<Thread, Ctx>) {
    forall t :: t in before ==> t in after && after[t].ignore == before[t].ignore
  }

  lemma {:induction false} CleanupKeeps(s: System, t: Thread)
    requires t in s.contexts
    ensures var r := Cleanup(s, t);
            && KeepsContexts(s.contexts, r.contexts) && r.pending == s.pending
            && r.lock == Lock.Release(s.lock, t) && r.phase == Idle
  {
    hide AllQuiet, Lock.Release;
  }

  lemma {:induction false} EventKeepsIgnore(c: Ctx, file: string, line: int, vmSize: nat)
    ensures LineChecked(c, file, line, vmSize).ignore == c.ignore && UpdateSize(c, vmSize).ignore == c.ignore
    ensures Called(c, vmSize).ignore == c.ignore && Returned(c, vmSize).ignore == c.ignore
  {
  }

  lemma {:induction false} ChangedKeeps(s: System, t: Thread, d: Ctx)
    requires t in s.contexts && d.ignore == s.contexts[t].ignore
    ensures var w := s.(contexts := s.contexts[t := d]);
            && KeepsContexts(s.contexts, w.contexts) && KeepsContexts(s.contexts, Cleanup(w, t).contexts)
            && Cleanup(w, t).pending == s.pending
            && Cleanup(w, t).lock == Lock.Release(s.lock, t) && Cleanup(w, t).phase == Idle
  {
    hide Cleanup, Lock.Release;
    CleanupKeeps(s.(contexts := s.contexts[t := d]), t);
  }

  lemma {:induction false} CallKeeps(s: System, t: Thread, d: Ctx, file: string, line: int)
    requires t in s.contexts && d.ignore == s.contexts[t].ignore
    ensures var r := CallAtLine(s.(contexts := s.contexts[t := d]), t, file, line);
            KeepsContexts(s.contexts, r.contexts) && r.pending == s.pending && r.lock == s.lock && r.phase != Idle
  {
  }

  /** A handler gives the lock back or keeps it for a callback. */
  lemma {:induction false} HandleKeeps(s: System, t: Thread, e: Occurrence, hit: bool, vmSize: nat)
    requires t in s.contexts && s.phase == Idle
    ensures var r := Handle(s, t, e, hit, vmSize);
            && KeepsContexts(s.contexts, r.contexts) && r.pending == s.pending
            && r.lock == if r.phase == Idle then Lock.Release(s.lock, t) else s.lock
  {
    hide LineChecked, Called, Returned, UpdateSize, LineStops, Cleanup, CallAtLine, Lock.Release, KeepsContexts;
    var c := s.contexts[t];
    match e
    case LineAt(file, line, accepted) =>
      EventKeepsIgnore(c, file, line, vmSize);
      var d := LineChecked(c, file, line, vmSize);
      CleanupKeeps(s, t);
      ChangedKeeps(s, t, d);
      ChangedKeeps(s, t, d.(stopReason := Breakpoint));
      CallKeeps(s, t, ResetStops(d.(stopReason := Step)), file, line);
    case Calls =>
      EventKeepsIgnore(c, "", 0, vmSize);
      ChangedKeeps(s, t, Called(c, vmSize));
    case Returns =>
      EventKeepsIgnore(c, "", 0, vmSize);
      ChangedKeeps(s, t, Returned(c, vmSize));
    case Raises(_, _, _) =>
      EventKeepsIgnore(c, "", 0, vmSize);
      ChangedKeeps(s, t, UpdateSize(c, vmSize));
      ChangedKeeps(s, t, UpdateSize(c, vmSize).(stopReason := Catchpoint));
  }

  lemma {:induction false} ReleaseRunning(s: System, r: System, t: Thread)
    requires Lock.Orderly(s.lock) && Waiting(s) && t in s.lock.inside
    requires KeepsContexts(s.contexts, r.contexts) && r.pending == s.pending
    requires r.lock == Lock.Release(s.lock, t) && r.phase == Idle
    ensures Running(r)
  {
    hide Lock.Orderly;
    Lock.ReleaseOrderly(s.lock, t);
  }

  lemma {:induction false} EnterRunning(s: System, lock: Lock.State, t: Thread, e: Occurrence, hit: bool, vmSize: nat)
    requires Running(s) && t in s.contexts && !s.contexts[t].ignore && t !in s.lock.stopped
    requires lock == s.lock.(woken := s.lock.woken - {t})
    ensures Running(Enter(s, lock, t, e, hit, vmSize))
  {
    hide Handle, Lock.Release, Lock.Members;
    if lock.locker != Some(t) {
      Lock.CheckOrderly(lock, t);
      var checked := Lock.Check(lock, t);
      if checked.locker == Some(t) {
        var w := s.(lock := checked, pending := s.pending - {t});
        HandleKeeps(w, t, e, hit, vmSize);
        var r := Handle(w, t, e, hit, vmSize);
        if r.phase == Idle {
          ReleaseRunning(w, r, t);
        }
      }
    }
  }

  /** Nothing of the lock changes. */
  lemma {:induction false} StillRunning(s: System, r: System)
    requires Running(s) && KeepsContexts(s.contexts, r.contexts)
    requires r.pending == s.pending && r.lock == s.lock && (r.phase == Idle <==> s.phase == Idle)
    ensures Running(r)
  {
    hide Lock.Orderly;
  }

  /** Commands, breakpoints and the end of a cleanup leave the lock alone. */
  lemma {:induction false} OtherRunning(s: System, a: Action)
    requires Running(s) && Enabled(s, a)
    requires !a.Arrive? && !a.Recheck? && !(a.Continue? && s.phase == AtLine)
    ensures Running(Next(s, a))
  {
    hide Enter, Cleanup, Running, AllQuiet, CanHit;
    StillRunning(s, Next(s, a));
  }

  lemma {:induction false} NextRunning(s: System, a: Action)
    requires Running(s) && Enabled(s, a)
    ensures Running(Next(s, a))
  {
    hide Enter, Cleanup, CallAtLine, TryDisable, Running, Lock.Orderly, Lock.Release, CanHit, Lock.Safe;
    RunningMeans(s);
    match a
    case Arrive(t, e, hit, vmSize, ignored) =>
      var w := WithContext(s, t, vmSize, ignored);
      StillRunning(s, w);
      if !w.contexts[t].ignore {
        assert s.lock.woken - {t} == s.lock.woken;
        EnterRunning(w, s.lock, t, e, hit, vmSize);
      }
    case Recheck(t, hit, vmSize) =>
      EnterRunning(s, s.lock.(woken := s.lock.woken - {t}), t, s.pending[t], hit, vmSize);
    case Continue =>
      if s.phase == AtLine {
        var t := s.lock.locker.value;
        CleanupKeeps(s, t);
        ReleaseRunning(s, Cleanup(s, t), t);
      } else {
        OtherRunning(s, a);
      }
    case _ => OtherRunning(s, a);
  }

  lemma {:induction false} RunningMeans(s: System)
    requires Running(s)
    ensures Lock.Orderly(s.lock) && Waiting(s)
    ensures forall t :: t in s.lock.woken ==> t !in s.lock.stopped
    ensures s.lock.locker.Some? ==> s.lock.locker.value in s.lock.inside
  {
  }

  lemma {:induction false} RunRunning(actions: seq<Action>)
    requires Run(actions).Some?
    ensures Running(Run(actions).value)
  {
    hide Next, Enabled, Running;
    if actions == [] {
      InitialRunning();
    } else {
      RunRunning(actions[..|actions| - 1]);
      NextRunning(Run(actions[..|actions| - 1]).value, actions[|actions| - 1]);
    }
  }

  lemma {:induction false} InitialRunning()
    ensures Running(INITIAL)
  {
  }

  /**
   Through every run of the whole system, in which cleanup alone wakes threads:
   at most one thread is in a handler, the locker; the stopped threads are exactly
   the queue, each once; and a free lock with somebody in the queue implies a
   woken thread that has not looked yet.
   */
  lemma {:induction false} RunLockSafe(actions: seq<Action>)
    requires Run(actions).Some?
    ensures Lock.Safe(Run(actions).value.lock) && Lock.Orderly(Run(actions).value.lock)
  {
    hide Run;
    RunRunning(actions);
  }

  /**
   In no run do the threads end up all waiting for one another: while one waits,
   the callback that holds the lock can return, or a woken thread can look at the lock.
   */
  lemma {:induction false} RunNeverStuck(actions: seq<Action>)
    requires Run(actions).Some? && Run(actions).value.lock.stopped + Run(actions).value.lock.woken != {}
    ensures var s := Run(actions).value;
            Enabled(s, Continue) || exists t :: t in s.lock.woken && Enabled(s, Recheck(t, false, 0))
  {
    RunRunning(actions);
    var s := Run(actions).value;
    if s.lock.locker == None {
      WokenWaits(s.lock);
      var t :| t in s.lock.woken;
      assert Enabled(s, Recheck(t, false, 0));
    }
  }

  lemma {:induction false} WokenWaits(lock: Lock.State)
    requires Lock.Orderly(lock) && lock.locker == None && lock.stopped + lock.woken != {}
    ensures lock.woken != {}
  {
    if lock.stopped != {} {
      var t :| t in lock.stopped;
      assert t in lock.queue;
    }
  }

  // ---------------------------------------------------------------- runs without stop_frame

  predicate NoStopFrames(s: System) {
    forall t :: t in s.contexts ==> s.contexts[t].stopFrame == -1
  }

  lemma {:induction false} HandleArmsNothing(s: System, t: Thread, e: Occurrence, hit: bool, vmSize: nat)
    requires t in s.contexts && NoStopFrames(s)
    ensures NoStopFrames(Handle(s, t, e, hit, vmSize))
  {
    hide LineChecked, Returned, Called, UpdateSize, LineStops, Cleanup, CallAtLine;
    var c := s.contexts[t];
    match e
    case LineAt(file, line, accepted) =>
      EventArmsNothing(c, file, line, vmSize);
      var d := LineChecked(c, file, line, vmSize);
      CleanupArmsNothing(s, t);
      CleanupArmsNothing(s.(contexts := s.contexts[t := d]), t);
      CallArmsNothing(s.(contexts := s.contexts[t := ResetStops(d.(stopReason := Step))]), t, file, line);
    case Calls =>
      EventArmsNothing(c, "", 0, vmSize);
      CleanupArmsNothing(s.(contexts := s.contexts[t := Called(c, vmSize)]), t);
    case Returns =>
      EventArmsNothing(c, "", 0, vmSize);
      CleanupArmsNothing(s.(contexts := s.contexts[t := Returned(c, vmSize)]), t);
    case Raises(_, _, _) =>
      EventArmsNothing(c, "", 0, vmSize);
      CleanupArmsNothing(s.(contexts := s.contexts[t := UpdateSize(c, vmSize)]), t);
  }

  lemma {:induction false} EventArmsNothing(c: Ctx, file: string, line: int, vmSize: nat)
    requires c.stopFrame == -1
    ensures LineChecked(c, file, line, vmSize).stopFrame == -1
    ensures Called(c, vmSize).stopFrame == -1 && Returned(c, vmSize).stopFrame == -1
    ensures UpdateSize(c, vmSize).stopFrame == -1
  {
  }

  lemma {:induction false} CleanupArmsNothing(s: System, t: Thread)
    requires t in s.contexts && NoStopFrames(s)
    ensures NoStopFrames(Cleanup(s, t))
  {
  }

  lemma {:induction false} CallArmsNothing(s: System, t: Thread, file: string, line: int)
    requires t in s.contexts && NoStopFrames(s)
    ensures NoStopFrames(CallAtLine(s, t, file, line))
  {
  }

  lemma {:induction false} EnterArmsNothing(
    s: System, lock: Lock.State, t: Thread, e: Occurrence, hit: bool, vmSize: nat)
    requires t in s.contexts && NoStopFrames(s)
    ensures NoStopFrames(Enter(s, lock, t, e, hit, vmSize))
  {
    hide Handle;
    HandleArmsNothing(s.(lock := Lock.Check(lock, t), pending := s.pending - {t}), t, e, hit, vmSize);
  }

  lemma {:induction false} NextArmsNothing(s: System, a: Action)
    requires NoStopFrames(s) && Enabled(s, a) && !a.StopFrameCommand?
    ensures NoStopFrames(Next(s, a)) && !FrameHit(s, a)
  {
    hide Enter, Cleanup;
    match a
    case Arrive(t, e, hit, vmSize, ignored) =>
      EnterArmsNothing(WithContext(s, t, vmSize, ignored), s.lock, t, e, hit, vmSize);
    case Recheck(t, hit, vmSize) =>
      EnterArmsNothing(s, s.lock.(woken := s.lock.woken - {t}), t, s.pending[t], hit, vmSize);
    case Continue =>
      var t := s.lock.locker.value;
      CleanupArmsNothing(s, t);
    case _ =>
  }

  lemma {:induction false} RunArmsNothing(actions: seq<Action>)
    requires Run(actions).Some? && forall i :: 0 <= i < |actions| ==> !actions[i].StopFrameCommand?
    ensures NoStopFrames(Run(actions).value) && NoFrameHit(actions)
  {
    hide Next, FrameHit, Enabled;
    if actions != [] {
      RunArmsNothing(actions[..|actions| - 1]);
      NextArmsNothing(Run(actions[..|actions| - 1]).value, actions[|actions| - 1]);
    }
  }

  /** In every run without stop_frame commands tracing is off only when nothing is pending. */
  lemma {:induction false} RunSettledWithoutStopFrame(actions: seq<Action>)
    requires Run(actions).Some? && forall i :: 0 <= i < |actions| ==> !actions[i].StopFrameCommand?
    ensures AlwaysSettled(actions)
  {
    RunArmsNothing(actions);
    RunExact(actions);
  }

  // ---------------------------------------------------------------- a run with stop_frame

  lemma {:induction false} RunOn(actions: seq<Action>, a: Action, s: System)
    requires Run(actions) == Some(s) && Enabled(s, a)
    ensures Run(actions + [a]) == Some(Next(s, a))
  {
    hide Enabled, Next;
    assert (actions + [a])[..|actions|] == actions;
  }

  const LINE: Occurrence := LineAt("a", 1, true)

  /** Thread 1 at its breakpoint, with stop_frame set, and gone on from there. */
  const AT_FIRST: Ctx := NewCtx(5, false).(stopLine := -2, stopReason := Breakpoint)
  const ARMED: Ctx := NewCtx(5, false).(stopFrame := 4, lastFile := Some("a"), lastLine := 1)

  const AT_SECOND: Ctx := NewCtx(3, false).(stopLine := -2, stopReason := Breakpoint)
  const SECOND_DONE: Ctx := NewCtx(3, false).(lastFile := Some("a"), lastLine := 1)

  const FIRST_IN: Lock.State := Lock.State(Some(1), [], {}, {}, {1})
  const SECOND_IN: Lock.State := Lock.State(Some(2), [], {}, {}, {2})
  const FIRST_WAITS: Lock.State := Lock.State(Some(2), [1], {1}, {}, {2})
  const FIRST_WOKEN: Lock.State := Lock.State(None, [], {}, {1}, {})

  const S1: System := System(true, 1, 0, Lock.INITIAL, map[], map[], Idle, {})
  const S2: System := System(true, 1, 0, FIRST_IN, map[1 := AT_FIRST], map[], AtBreakpoint("a", 1), {})
  const S3: System := S2.(contexts := map[1 := AT_FIRST.(stopFrame := 4)])
  const S4: System := System(true, 1, 0, FIRST_IN, map[1 := ARMED.(stopReason := Breakpoint)], map[], AtLine, {})
  const S5: System := System(true, 1, 0, Lock.INITIAL, map[1 := ARMED], map[], Idle, {})
  const S6: System := System(true, 1, 0, SECOND_IN, map[1 := ARMED, 2 := AT_SECOND], map[], AtBreakpoint("a", 1), {})
  const S7: System := S6.(lock := FIRST_WAITS, pending := map[1 := Returns])
  const S8: System := S7.(breakpoints := 0)
  const S9: System := S8.(contexts := map[1 := ARMED, 2 := SECOND_DONE.(stopReason := Breakpoint)], phase := AtLine)
  const S10: System := System(
    true, 0, 0, FIRST_WOKEN, map[1 := ARMED, 2 := SECOND_DONE], map[1 := Returns], Idle, {2})
  const S11: System := System(
    false, 0, 0, FIRST_WOKEN,
    map[1 := ARMED.(updateStack := true), 2 := SECOND_DONE.(updateStack := true)], map[1 := Returns], Idle, {})

  lemma {:induction false} FirstStops()
    ensures Enabled(S1, Arrive(1, LINE, true, 5, false)) && Next(S1, Arrive(1, LINE, true, 5, false)) == S2
    ensures Enabled(S2, StopFrameCommand(0)) && Next(S2, StopFrameCommand(0)) == S3
  {
    var w := WithContext(S1, 1, 5, false);
    assert w.contexts == map[1 := NewCtx(5, false)];
    assert LineChecked(NewCtx(5, false), "a", 1, 5) == NewCtx(5, false).(stopLine := -2);
    assert w.pending - {1} == map[];
  }

  lemma {:induction false} FirstGoesOn()
    ensures Enabled(S3, Continue) && Next(S3, Continue) == S4
    ensures Enabled(S4, Continue) && Next(S4, Continue) == S5
  {
    assert S3.contexts[1 := ResetStops(S3.contexts[1])] == map[1 := ResetStops(S3.contexts[1])];
    assert Unpaused(map[1 := ResetStops(S3.contexts[1])])[1 := ARMED.(stopReason := Breakpoint)] == S4.contexts;
    assert S4.contexts[1 := S4.contexts[1].(stopReason := NoReason)] == S5.contexts;
  }

  lemma {:induction false} SecondStops()
    ensures Enabled(S5, Arrive(2, LINE, true, 3, false)) && Next(S5, Arrive(2, LINE, true, 3, false)) == S6
    ensures Enabled(S6, Arrive(1, Returns, false, 4, false)) && Next(S6, Arrive(1, Returns, false, 4, false)) == S7
    ensures Enabled(S7, RemoveBreakpoint) && Next(S7, RemoveBreakpoint) == S8
  {
    var w := WithContext(S5, 2, 3, false);
    assert w.contexts == map[1 := ARMED, 2 := NewCtx(3, false)];
    assert LineChecked(NewCtx(3, false), "a", 1, 3) == NewCtx(3, false).(stopLine := -2);
    assert w.contexts[2 := AT_SECOND] == S6.contexts;
    assert w.pending - {2} == map[];
  }

  lemma {:induction false} SecondGoesOn()
    ensures Enabled(S8, Continue) && Next(S8, Continue) == S9
    ensures Enabled(S9, Continue) && Next(S9, Continue) == S10
  {
    var reset := S8.contexts[2 := ResetStops(S8.contexts[2])];
    assert reset == map[1 := ARMED, 2 := ResetStops(AT_SECOND)];
    assert Unpaused(reset)[2 := SECOND_DONE.(stopReason := Breakpoint)] == S9.contexts;
    assert S9.contexts[2 := SECOND_DONE] == S10.contexts;
    assert Lock.Release(FIRST_WAITS, 2) == FIRST_WOKEN;
  }

  lemma {:induction false} SecondLeaves()
    ensures Enabled(S10, Finish(2)) && Next(S10, Finish(2)) == S11
  {
    assert AllQuiet(S10.contexts) && Stale(S10.contexts) == S11.contexts;
    assert S10.leaving - {2} == {};
  }

  lemma {:induction false} FirstReturns()
    ensures Enabled(S11, Recheck(1, false, 4)) && FrameHit(S11, Recheck(1, false, 4))
    ensures Settled(S11) && Coherent(S11)
  {
  }

  /**
   The run in which it happens: thread 1 stops at a breakpoint and stop_frame is
   set; its return event has to wait while thread 2 is stopped; there the
   breakpoint is removed. Thread 2 goes on, wakes thread 1 and switches tracing off.
   Thread 1 then handles its return and sets stop_next with tracing off.
   */
  lemma {:induction false} StopFrameUnsettles() returns (actions: seq<Action>)
    ensures Run(actions).Some? && !Settled(Run(actions).value)
  {
    hide Next, Enabled, Settled, Coherent, FrameHit;
    actions := [] + [AddBreakpoint];
    assert Enabled(INITIAL, AddBreakpoint) && Next(INITIAL, AddBreakpoint) == S1 by { BreakpointAdded(); }
    RunOn([], AddBreakpoint, INITIAL);
    FirstStops();
    RunOn(actions, Arrive(1, LINE, true, 5, false), S1);
    actions := actions + [Arrive(1, LINE, true, 5, false)];
    RunOn(actions, StopFrameCommand(0), S2);
    actions := actions + [StopFrameCommand(0)];
    FirstGoesOn();
    RunOn(actions, Continue, S3);
    actions := actions + [Continue];
    RunOn(actions, Continue, S4);
    actions := actions + [Continue];
    SecondStops();
    RunOn(actions, Arrive(2, LINE, true, 3, false), S5);
    actions := actions + [Arrive(2, LINE, true, 3, false)];
    RunOn(actions, Arrive(1, Returns, false, 4, false), S6);
    actions := actions + [Arrive(1, Returns, false, 4, false)];
    RunOn(actions, RemoveBreakpoint, S7);
    actions := actions + [RemoveBreakpoint];
    SecondGoesOn();
    RunOn(actions, Continue, S8);
    actions := actions + [Continue];
    RunOn(actions, Continue, S9);
    actions := actions + [Continue];
    SecondLeaves();
    RunOn(actions, Finish(2), S10);
    actions := actions + [Finish(2)];
    FirstReturns();
    StepExact(S11, Recheck(1, false, 4));
    RunOn(actions, Recheck(1, false, 4), S11);
    actions := actions + [Recheck(1, false, 4)];
  }

  lemma {:induction false} BreakpointAdded()
    ensures Enabled(INITIAL, AddBreakpoint) && Next(INITIAL, AddBreakpoint) == S1
  {
  }
}
