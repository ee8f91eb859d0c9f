/**
 The stepping state of a thread (context.c, debase_internals.c): counters that
 commands set and that line, call and return events change. `Context` holds them
 as the C struct does; `Ctx` is a snapshot of it.
 */
module DebaseContext {
  import opened Bytes

  datatype Reason = NoReason | Step | Breakpoint | Catchpoint

  datatype Ctx = Ctx(
    stopReason: Reason, stopNext: int, stopLine: int, stopFrame: int, pause: bool,
    destFrame: int, size: int, lastFile: Option<string>, lastLine: int,
    forceMove: bool, stepped: bool, updateStack: bool, ignore: bool)

  /** context_create */
  function NewCtx(size: nat, ignore: bool): Ctx {
    Ctx(NoReason, -1, -1, -1, false, -1, size, None, -1, false, false, false, ignore)
  }

  /** reset_stepping_stop_points */
  function ResetStops(c: Ctx): Ctx {
    c.(destFrame := -1, stopLine := -1, stopNext := -1)
  }

  /** update_stack_size: the counted size is replaced by the real one after tracing was off. */
  function UpdateSize(c: Ctx, vmSize: int): Ctx {
    if c.updateStack then c.(size := vmSize, updateStack := false) else c
  }

  /** check_stop_frame */
  predicate AtStopFrame(c: Ctx) {
    c.size == c.stopFrame && c.size >= 0
  }

  predicate Moved(c: Ctx, file: string, line: int) {
    c.lastLine != line || c.lastFile == None || c.lastFile.value != file
  }

  /** What process_line_event does to the counters, before it decides whether to stop. */
  function LineChecked(c: Ctx, file: string, line: int, vmSize: int): Ctx {
    StopFrameChecked(Counted(Paused(UpdateSize(c, vmSize)), c.pause || Moved(c, file, line)))
  }

  function Paused(c: Ctx): Ctx {
    if c.pause then c.(stopNext := 1, destFrame := -1) else c
  }

  function Counted(c: Ctx, moved: bool): Ctx {
    if c.destFrame == -1 || c.size == c.destFrame then
      var next := if moved || !c.forceMove then c.stopNext - 1 else c.stopNext;
      var d := c.(stopNext := if next < 0 then -1 else next);
      if moved || (c.stepped && !c.forceMove) then d.(stopLine := c.stopLine - 1, stepped := false) else d
    else if c.size < c.destFrame then c.(stopNext := 0)
    else c
  }

  function StopFrameChecked(c: Ctx): Ctx {
    if AtStopFrame(c) then c.(stopNext := 0, stopFrame := -1) else c
  }

  predicate LineStops(c: Ctx, breakpoint: bool) {
    c.stopNext == 0 || c.stopLine == 0 || breakpoint
  }

  /** call_at_line, for the context itself: where it stopped is remembered. */
  function StoppedAt(c: Ctx, file: string, line: int): Ctx {
    c.(pause := false, stepped := false, forceMove := false, lastFile := Some(file), lastLine := line)
  }

  function Returned(c: Ctx, vmSize: int): Ctx {
    var d := UpdateSize(c.(size := c.size - 1), vmSize);
    if AtStopFrame(d) then d.(stopNext := 1, stopFrame := -1) else d
  }

  function Called(c: Ctx, vmSize: int): Ctx {
    UpdateSize(c.(size := c.size + 1), vmSize)
  }

  // ---------------------------------------------------------------- the struct

  datatype CommandError = NegativeSteps | NoFrames | OutOfRange

  class Context {
    var stopReason: Reason
    var stopNext: int
    var stopLine: int
    var stopFrame: int
    var pause: bool
    var destFrame: int
    var size: int
    var lastFile: Option<string>
    var lastLine: int
    var forceMove: bool
    var stepped: bool
    var updateStack: bool
    var ignore: bool

    function Snapshot(): Ctx
      reads this
    {
      Ctx(stopReason, stopNext, stopLine, stopFrame, pause, destFrame, size, lastFile, lastLine,
          forceMove, stepped, updateStack, ignore)
    }

    /** context_create */
    constructor (size: nat, ignore: bool)
      ensures Snapshot() == NewCtx(size, ignore)
    {
      this.size, this.ignore := size, ignore;
      stopReason, stopFrame, pause := NoReason, -1, false;
      destFrame, stopLine, stopNext := -1, -1, -1;
      lastFile, lastLine := None, -1;
      forceMove, stepped, updateStack := false, false, false;
    }

    method ResetSteppingStopPoints()
      modifies this
      ensures Snapshot() == ResetStops(old(Snapshot()))
    {
      destFrame := -1;
      stopLine := -1;
      stopNext := -1;
    }

    method UpdateStackSize(vmSize: int)
      modifies this
      ensures Snapshot() == UpdateSize(old(Snapshot()), vmSize)
    {
      if updateStack {
        size := vmSize;
        updateStack := false;
      }
    }

    /** The counting part of process_line_event. */
    method CountDown(moved: bool)
      modifies this
      ensures Snapshot() == Counted(old(Snapshot()), moved)
    {
      if destFrame == -1 || size == destFrame {
        if moved || !forceMove { stopNext := stopNext - 1; }
        if stopNext < 0 { stopNext := -1; }
        if moved || (stepped && !forceMove) {
          stopLine := stopLine - 1;
          stepped := false;
        }
      } else if size < destFrame {
        stopNext := 0;
      }
    }

    /** The counters of process_line_event, and whether it stops. */
    method CheckLine(file: string, line: int, vmSize: int, breakpoint: bool) returns (stops: bool)
      modifies this
      ensures Snapshot() == LineChecked(old(Snapshot()), file, line, vmSize)
      ensures stops <==> LineStops(Snapshot(), breakpoint)
    {
      hide Counted;
      UpdateStackSize(vmSize);
      var moved;
      if pause {
        stopNext := 1;
        destFrame := -1;
        moved := true;
      } else {
        moved := lastLine != line || lastFile == None || lastFile.value != file;
      }
      CountDown(moved);
      if size == stopFrame && size >= 0 {
        stopNext := 0;
        stopFrame := -1;
      }
      stops := stopNext == 0 || stopLine == 0 || breakpoint;
    }

    /** The counters of process_return_event. */
    method CheckReturn(vmSize: int)
      modifies this
      ensures Snapshot() == Returned(old(Snapshot()), vmSize)
    {
      size := size - 1;
      UpdateStackSize(vmSize);
      if size == stopFrame && size >= 0 {
        stopNext := 1;
        stopFrame := -1;
      }
    }

    /** The counters of process_call_event. */
    method CheckCall(vmSize: int)
      modifies this
      ensures Snapshot() == Called(old(Snapshot()), vmSize)
    {
      size := size + 1;
      UpdateStackSize(vmSize);
    }

    /** Context_stop_next */
    method StopNext(steps: int, force: bool) returns (error: Option<CommandError>)
      modifies this
      ensures match AfterStopNext(old(Snapshot()), steps, force)
              case Err(e) => error == Some(e) && Snapshot() == old(Snapshot())
              case Ok(c) => error == None && Snapshot() == c
    {
      if steps < 0 { return Some(NegativeSteps); }
      stopNext := steps;
      forceMove := force;
      return None;
    }

    /** Context_step_over; the range test asks for a number that is both negative and large. */
    method StepOver(stackSize: nat, lines: int, frame: Option<int>, force: bool) returns (error: Option<CommandError>)
      modifies this
      ensures match AfterStepOver(old(Snapshot()), stackSize, lines, frame, force)
              case Err(e) => error == Some(e)
              case Ok(_) => error == None
      ensures Snapshot() == StepOverLeaves(old(Snapshot()), stackSize, lines, frame, force)
    {
      if stackSize == 0 { return Some(NoFrames); }
      stopLine := lines;
      stepped := false;
      if frame == None {
        destFrame := size;
      } else {
        if frame.value < 0 && frame.value >= size { return Some(OutOfRange); }
        destFrame := size - frame.value;
      }
      forceMove := force;
      return None;
    }

    /** Context_stop_frame */
    method SetStopFrame(frame: int) returns (error: Option<CommandError>)
      modifies this
      ensures match AfterStopFrame(old(Snapshot()), frame)
              case Err(e) => error == Some(e) && Snapshot() == old(Snapshot())
              case Ok(c) => error == None && Snapshot() == c
    {
      if frame < 0 && frame >= size { return Some(OutOfRange); }
      stopFrame := size - frame - 1;
      return None;
    }
  }

  function AfterStopNext(c: Ctx, steps: int, force: bool): Result<Ctx, CommandError> {
    if steps < 0 then Err(NegativeSteps) else Ok(c.(stopNext := steps, forceMove := force))
  }

  function AfterStepOver(c: Ctx, stackSize: nat, lines: int, frame: Option<int>, force: bool)
    : Result<Ctx, CommandError>
  {
    if stackSize == 0 then Err(NoFrames)
    else if frame.Some? && frame.value < 0 && frame.value >= c.size then Err(OutOfRange)
    else
      var dest := if frame.None? then c.size else c.size - frame.value;
      Ok(c.(stopLine := lines, stepped := false, destFrame := dest, forceMove := force))
  }

  /** What a step-over leaves behind, also when it is refused. */
  function StepOverLeaves(c: Ctx, stackSize: nat, lines: int, frame: Option<int>, force: bool): Ctx {
    match AfterStepOver(c, stackSize, lines, frame, force)
    case Ok(d) => d
    case Err(e) => if e == NoFrames then c else c.(stopLine := lines, stepped := false)
  }

  function AfterStopFrame(c: Ctx, frame: int): Result<Ctx, CommandError> {
    if frame < 0 && frame >= c.size then Err(OutOfRange) else Ok(c.(stopFrame := c.size - frame - 1))
  }

  /** The two range tests refuse a frame, any frame, only when the counted stack size has become negative. */
  lemma {:induction false} RangeTestsExactly(c: Ctx, stackSize: nat, lines: int, force: bool)
    requires stackSize > 0
    ensures (exists frame :: AfterStopFrame(c, frame).Err?) <==> c.size < 0
    ensures (exists frame :: AfterStepOver(c, stackSize, lines, Some(frame), force).Err?) <==> c.size < 0
  {
    if c.size < 0 {
      assert AfterStopFrame(c, -1).Err? && AfterStepOver(c, stackSize, lines, Some(-1), force).Err?;
    }
  }

  // ---------------------------------------------------------------- stepping over

  /** What happens on a thread; a line is accepted when the file filter lets it through. */
  datatype Event = Line(file: string, line: int, accepted: bool) | Call | Return | Raise

  /** One event without a breakpoint or a caught exception: None when the thread stops at it. */
  function Passed(c: Ctx, e: Event, vmSize: int): Option<Ctx> {
    match e
    case Line(file, line, accepted) =>
      if !accepted then Some(c)
      else
        var d := LineChecked(c, file, line, vmSize);
        if LineStops(d, false) then None else Some(d)
    case Call => Some(Called(c, vmSize))
    case Return => Some(Returned(c, vmSize))
    case Raise => Some(UpdateSize(c, vmSize))
  }

  /** The context after a number of events at none of which the thread stops. */
  function Survives(c: Ctx, events: seq<Event>, i: nat): Option<Ctx>
    requires i <= |events|
  {
    if i == 0 then Some(c)
    else
      var d := Survives(c, events, i - 1);
      if d.None? then None else Passed(d.value, events[i - 1], 0)
  }

  predicate StopsAt(c: Ctx, events: seq<Event>, i: nat)
    requires i < |events|
  {
    Survives(c, events, i).Some? && Survives(c, events, i + 1).None?
  }

  /** How deep the thread is before its `i`-th event. */
  function DepthAt(size: int, events: seq<Event>, i: nat): int
    requires i <= |events|
  {
    if i == 0 then size
    else
      DepthAt(size, events, i - 1)
      + match events[i - 1] { case Call => 1 case Return => -1 case _ => 0 }
  }

  predicate AcceptedLine(e: Event) {
    e.Line? && e.accepted
  }

  predicate OnNewLine(c: Ctx, e: Event) {
    AcceptedLine(e) && Moved(c, e.file, e.line)
  }

  /** At the destination; -1 stands for every depth. */
  predicate AtDestination(c: Ctx, depth: int) {
    c.destFrame == -1 || depth == c.destFrame
  }

  /** How many of the first `i` events are lines at the destination other than the line of the last stop. */
  function NewLines(c: Ctx, events: seq<Event>, i: nat): nat
    requires i <= |events|
  {
    if i == 0 then 0
    else
      NewLines(c, events, i - 1)
      + (if OnNewLine(c, events[i - 1]) && AtDestination(c, DepthAt(c.size, events, i - 1)) then 1 else 0)
  }

  /** Where stepping over is due to end: below the destination, or at the n-th new line there. */
  predicate Due(c: Ctx, events: seq<Event>, i: nat)
    requires i < |events|
  {
    var depth := DepthAt(c.size, events, i);
    && AcceptedLine(events[i])
    && ((c.destFrame != -1 && depth < c.destFrame)
        || (AtDestination(c, depth) && OnNewLine(c, events[i]) && NewLines(c, events, i) + 1 == c.stopLine))
  }

  /** Nothing but a step-over of at least one line is pending. */
  predicate SteppingOver(c: Ctx) {
    c.stopLine >= 1 && c.stopNext == -1 && c.stopFrame == -1 && !c.pause && !c.updateStack && !c.stepped
  }

  /** The context while a step-over goes on. */
  predicate StillStepping(c: Ctx, d: Ctx, events: seq<Event>, i: nat)
    requires i <= |events|
  {
    && d == c.(size := DepthAt(c.size, events, i), stopLine := c.stopLine - NewLines(c, events, i))
    && d.stopLine >= 1
  }

  lemma {:induction false} StepOverStep(c: Ctx, d: Ctx, events: seq<Event>, i: nat)
    requires SteppingOver(c) && i < |events| && StillStepping(c, d, events, i)
    ensures var r := Passed(d, events[i], 0);
            if Due(c, events, i) then r == None else r.Some? && StillStepping(c, r.value, events, i + 1)
  {
  }

  /** After any number of events: nothing was due, and the counters say how far it got; or something was. */
  lemma {:induction false} StepOverRun(c: Ctx, events: seq<Event>, i: nat)
    requires SteppingOver(c) && i <= |events|
    ensures var d := Survives(c, events, i);
            if exists j :: 0 <= j < i && Due(c, events, j) then d == None
            else d.Some? && StillStepping(c, d.value, events, i)
  {
    if i > 0 {
      StepOverRun(c, events, i - 1);
      var d := Survives(c, events, i - 1);
      if d.Some? {
        StepOverStep(c, d.value, events, i - 1);
      }
    }
  }

  /**
   Stepping over is exact: the thread stops at the first accepted line event that
   is below the destination frame, or is the n-th at it on a line other than that
   of the last stop, whichever comes first, and at no other.
   */
  lemma {:induction false} StepOverExact(c: Ctx, events: seq<Event>, i: nat)
    requires SteppingOver(c) && i < |events|
    ensures StopsAt(c, events, i) <==> Due(c, events, i) && forall j :: 0 <= j < i ==> !Due(c, events, j)
    ensures StopsAt(c, events, i) && c.destFrame != -1 ==> DepthAt(c.size, events, i) <= c.destFrame
  {
    StepOverRun(c, events, i);
    StepOverRun(c, events, i + 1);
  }

  /** The command leads to such a state from any quiet one, and never fails the range test while frames are counted. */
  lemma {:induction false} StepOverStarts(c: Ctx, stackSize: nat, lines: int, frame: Option<int>, force: bool)
    requires c.stopNext == -1 && c.stopFrame == -1 && !c.pause && !c.updateStack && c.size >= 0
    requires stackSize > 0 && lines >= 1
    ensures var r := AfterStepOver(c, stackSize, lines, frame, force);
            && r.Ok? && SteppingOver(r.value) && r.value.stopLine == lines && r.value.size == c.size
            && r.value.destFrame == c.size - (if frame.None? then 0 else frame.value)
  {
  }
}
