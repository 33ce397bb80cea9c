/** The session operations of debug/session.py that move the state machine, and the memory write. An operation is a
    sequence of atomic segments with an awaited command after each but the last; the outcomes of the awaited commands
    are inputs. */
module DebugSessions {
  import opened Basics
  import opened SessionState
  import opened Hex
  import opened HexText
  import CompareWrite
  import ToolService

  /** How an awaited command ends. `report` is the state a backend reports; for a plain GDB command it means nothing. */
  datatype Outcome = Done(report: TargetState) | TimedOut | Failed | Cancelled

  datatype ResetMode = ResetHalt | ResetRun

  datatype Operation =
    | Connect(hasEndpoint: bool)
    | Disconnect
    | Halt
    | Resume(autoInterrupt: bool)
    | StepInstruction
    | Reset(mode: ResetMode, hasResetter: bool)

  datatype SessionError = NoEndpoint | IllegalTransition | Raised(outcome: Outcome)

  /** The state returned, or the exception raised. */
  type Ending = Result<TargetState, SessionError>

  /** What a segment leaves behind; no ending means that the operation awaits its next command. */
  datatype Segment = Segment(machine: Machine, ending: Option<Ending>)

  // ----- segments -----

  /** A last segment that moves to a state and returns, or raises when the move is illegal. */
  function Finish(m: Machine, to: TargetState): Segment {
    match Moved(m, to)
    case Some(n) => Segment(n, Some(Success(n.state)))
    case None => Segment(m, Some(Failure(IllegalTransition)))
  }

  function Raise(m: Machine, outcome: Outcome): Segment {
    Segment(m, Some(Failure(Raised(outcome))))
  }

  /** Up to the first awaited command. */
  function Begin(m: Machine, op: Operation): Segment {
    match op
    case Connect(false) => Segment(m, Some(Failure(NoEndpoint)))
    case Connect(true) =>
      (match Moved(m, Connecting)
       case Some(n) => Segment(n, None)
       case None => Segment(m, Some(Failure(IllegalTransition))))
    case Reset(mode, false) => Finish(m, if mode == ResetHalt then Halted else Running)
    case _ => Segment(m, None)
  }

  /** From the last of the given outcomes up to the next awaited command. */
  function After(m: Machine, op: Operation, outcomes: seq<Outcome>): Segment
    requires outcomes != []
  {
    var last := outcomes[|outcomes| - 1];
    match op
    case Connect(_) => if last.Done? then Finish(m, last.report) else Raise(m, last)
    case Disconnect =>
      if |outcomes| == 1 then Segment(m, None)
      else if !last.Done? then Raise(m, last)
      else if outcomes[0].Done? then Finish(m, Disconnected)
      else (match Moved(m, Disconnected)
            case Some(n) => Raise(n, outcomes[0])
            case None => Segment(m, Some(Failure(IllegalTransition))))
    case Halt => if last.Done? then Finish(m, Halted) else Raise(m, last)
    case StepInstruction => if last.Done? then Finish(m, Halted) else Raise(m, last)
    case Resume(autoInterrupt) =>
      if |outcomes| == 1 then
        if last.Done? then Finish(m, Running)
        else if !last.TimedOut? then Raise(m, last)
        else if autoInterrupt then Segment(m, None)
        else Finish(m, Unknown)
      else if last.Cancelled? then Raise(m, last)
      else if last.Done? && Moved(m, Halted).Some? then Finish(m, Halted)
      else Finish(m, Degraded)
    case Reset(_, _) => if last.Done? then Finish(m, last.report) else Raise(m, last)
  }

  function Feed(m: Machine, op: Operation, had: seq<Outcome>, todo: seq<Outcome>): Segment
    decreases |todo|
  {
    if todo == [] then Segment(m, None) else
    var s := After(m, op, had + [todo[0]]);
    if s.ending.Some? then s else Feed(s.machine, op, had + [todo[0]], todo[1..])
  }

  /** The operation running alone, with the outcomes of the commands it may await. */
  function Alone(m: Machine, op: Operation, outcomes: seq<Outcome>): Segment {
    var s := Begin(m, op);
    if s.ending.Some? then s else Feed(s.machine, op, [], outcomes)
  }

  /** An operation that has awaited `had` and then gets one more outcome. */
  lemma FeedOne(m: Machine, op: Operation, had: seq<Outcome>, last: Outcome, todo: seq<Outcome>)
    ensures Feed(m, op, had, [last] + todo)
      == var s := After(m, op, had + [last]); if s.ending.Some? then s else Feed(s.machine, op, had + [last], todo)
  {
    assert ([last] + todo)[1..] == todo;
  }

  lemma FeedTwo(m: Machine, op: Operation, first: Outcome, second: Outcome)
    requires After(m, op, [first]) == Segment(m, None) && After(m, op, [first, second]).ending.Some?
    ensures Feed(m, op, [], [first, second]) == After(m, op, [first, second])
  {
    assert [first] + [second] == [first, second] && [] + [first] == [first] && [second] + [] == [second];
    FeedOne(m, op, [], first, [second]);
    FeedOne(m, op, [first], second, []);
  }

  // ----- the class -----

  datatype WriteError = Malformed | Mismatch | CommandError(error: SessionError)

  class DebugSession {
    const stateMachine: DebugSessionStateMachine
    var connection: Option<TargetState>

    constructor ()
      ensures fresh(stateMachine) && stateMachine.Value() == Machine(Disconnected, []) && connection == None
    {
      stateMachine := new DebugSessionStateMachine(Disconnected);
      connection := None;
    }

    method Connect(hasEndpoint: bool, backend: Outcome) returns (r: Ending)
      modifies this, stateMachine
      ensures Segment(stateMachine.Value(), Some(r))
           == Alone(old(stateMachine.Value()), Operation.Connect(hasEndpoint), [backend])
      ensures r == if !hasEndpoint then Failure(NoEndpoint)
                   else if old(stateMachine.state) in {Halted, Running} then Failure(IllegalTransition)
                   else if backend.Done? then Success(backend.report)
                   else Failure(Raised(backend))
      ensures stateMachine.state == if !hasEndpoint || old(stateMachine.state) in {Halted, Running}
                                    then old(stateMachine.state)
                                    else if backend.Done? then backend.report else Connecting
      ensures stateMachine.history == old(stateMachine.history)
        + (if !hasEndpoint || old(stateMachine.state) in {Halted, Running} then []
           else [Transition(old(stateMachine.state), Connecting)])
        + (if r.Success? then [Transition(Connecting, backend.report)] else [])
      ensures connection == if r.Success? then Some(backend.report) else old(connection)
    {
      if !hasEndpoint { return Failure(NoEndpoint); }
      var moved := stateMachine.MoveTo(Connecting);
      if moved == None { return Failure(IllegalTransition); }
      if !backend.Done? { return Failure(Raised(backend)); }
      connection := Some(backend.report);
      moved := stateMachine.MoveTo(backend.report);
      r := if moved == None then Failure(IllegalTransition) else Success(stateMachine.state);
    }

    /** The session ends disconnected exactly when the transport closes (or it was disconnected before), whatever
        becomes of gdb-exit; it returns normally exactly when both succeed. */
    method Disconnect(exit: Outcome, close: Outcome) returns (r: Ending)
      modifies stateMachine
      ensures Segment(stateMachine.Value(), Some(r))
           == Alone(old(stateMachine.Value()), Operation.Disconnect, [exit, close])
      ensures r == if !close.Done? then Failure(Raised(close))
                   else if exit.Done? then Success(Disconnected)
                   else Failure(Raised(exit))
      ensures stateMachine.state == if close.Done? then Disconnected else old(stateMachine.state)
      ensures stateMachine.history == old(stateMachine.history)
        + (if close.Done? then [Transition(old(stateMachine.state), Disconnected)] else [])
    {
      FeedTwo(stateMachine.Value(), Operation.Disconnect, exit, close);
      if !close.Done? { return Failure(Raised(close)); }
      var moved := stateMachine.MoveTo(Disconnected);
      if moved == None { return Failure(IllegalTransition); }
      r := if exit.Done? then Success(stateMachine.state) else Failure(Raised(exit));
    }

    /** A halt that succeeds in GDB still raises when the session is disconnected or degraded. */
    method Halt(interrupt: Outcome) returns (r: Ending)
      modifies stateMachine
      ensures Segment(stateMachine.Value(), Some(r)) == Alone(old(stateMachine.Value()), Operation.Halt, [interrupt])
      ensures r == if !interrupt.Done? then Failure(Raised(interrupt))
                   else if old(stateMachine.state) in {Disconnected, Degraded} then Failure(IllegalTransition)
                   else Success(Halted)
      ensures r.Success? ==> stateMachine.Value() == Machine(r.value,
        old(stateMachine.history) + [Transition(old(stateMachine.state), r.value)])
      ensures r.Failure? ==> stateMachine.Value() == old(stateMachine.Value())
    {
      if !interrupt.Done? { return Failure(Raised(interrupt)); }
      var moved := stateMachine.MoveTo(Halted);
      r := if moved == None then Failure(IllegalTransition) else Success(stateMachine.state);
    }

    /** RUNNING when the run completes; after a timeout never RUNNING, HALTED only when the interrupt succeeded and
        DEGRADED when it did not. */
    method Resume(autoInterrupt: bool, run: Outcome, interrupt: Outcome) returns (r: Ending)
      modifies stateMachine
      ensures Segment(stateMachine.Value(), Some(r))
           == Alone(old(stateMachine.Value()), Operation.Resume(autoInterrupt), [run, interrupt])
      ensures run.Done? ==>
        r == if old(stateMachine.state) in {Disconnected, Degraded} then Failure(IllegalTransition)
             else Success(Running)
      ensures run.Failed? || run.Cancelled? ==> r == Failure(Raised(run))
      ensures run.TimedOut? && !autoInterrupt ==>
        r == if old(stateMachine.state) == Disconnected then Failure(IllegalTransition) else Success(Unknown)
      ensures run.TimedOut? && autoInterrupt ==>
        r == if interrupt.Cancelled? then Failure(Raised(Cancelled))
             else if old(stateMachine.state) == Disconnected then Failure(IllegalTransition)
             else if interrupt.Done? && old(stateMachine.state) != Degraded then Success(Halted)
             else Success(Degraded)
      ensures r.Success? ==> stateMachine.Value() == Machine(r.value,
        old(stateMachine.history) + [Transition(old(stateMachine.state), r.value)])
      ensures r.Failure? ==> stateMachine.Value() == old(stateMachine.Value())
    {
      if run.TimedOut? && autoInterrupt {
        FeedTwo(stateMachine.Value(), Operation.Resume(true), run, interrupt);
      }
      if run.TimedOut? {
        if autoInterrupt {
          var halted := Halt(interrupt);
          if halted.Success? { return Success(stateMachine.state); }
          if halted == Failure(Raised(Cancelled)) { return halted; }
          var degraded := stateMachine.MoveTo(Degraded);
          return if degraded == None then Failure(IllegalTransition) else Success(stateMachine.state);
        }
        var unknown := stateMachine.MoveTo(Unknown);
        return if unknown == None then Failure(IllegalTransition) else Success(stateMachine.state);
      }
      if !run.Done? { return Failure(Raised(run)); }
      var moved := stateMachine.MoveTo(Running);
      r := if moved == None then Failure(IllegalTransition) else Success(stateMachine.state);
    }

    method StepInstruction(step: Outcome) returns (r: Ending)
      modifies stateMachine
      ensures Segment(stateMachine.Value(), Some(r))
           == Alone(old(stateMachine.Value()), Operation.StepInstruction, [step])
      ensures r == if !step.Done? then Failure(Raised(step))
                   else if old(stateMachine.state) in {Disconnected, Degraded} then Failure(IllegalTransition)
                   else Success(Halted)
      ensures r.Success? ==> stateMachine.Value() == Machine(r.value,
        old(stateMachine.history) + [Transition(old(stateMachine.state), r.value)])
      ensures r.Failure? ==> stateMachine.Value() == old(stateMachine.Value())
    {
      if !step.Done? { return Failure(Raised(step)); }
      var moved := stateMachine.MoveTo(Halted);
      r := if moved == None then Failure(IllegalTransition) else Success(stateMachine.state);
    }

    /** Without a backend path the state changes although nothing was sent to the target. */
    method ResetTarget(mode: ResetMode, hasResetter: bool, reset: Outcome) returns (r: Ending)
      modifies stateMachine
      ensures Segment(stateMachine.Value(), Some(r))
           == Alone(old(stateMachine.Value()), Operation.Reset(mode, hasResetter), [reset])
      ensures hasResetter && !reset.Done? ==> r == Failure(Raised(reset))
      ensures hasResetter && reset.Done? ==>
        r == if Allowed(old(stateMachine.state), reset.report) then Success(reset.report)
             else Failure(IllegalTransition)
      ensures !hasResetter ==>
        r == if old(stateMachine.state) in {Disconnected, Degraded} then Failure(IllegalTransition)
             else Success(if mode == ResetHalt then Halted else Running)
      ensures r.Success? ==> stateMachine.Value() == Machine(r.value,
        old(stateMachine.history) + [Transition(old(stateMachine.state), r.value)])
      ensures r.Failure? ==> stateMachine.Value() == old(stateMachine.Value())
    {
      if hasResetter {
        if !reset.Done? { return Failure(Raised(reset)); }
        var moved := stateMachine.MoveTo(reset.report);
        return if moved == None then Failure(IllegalTransition) else Success(stateMachine.state);
      }
      var moved := stateMachine.MoveTo(if mode == ResetHalt then Halted else Running);
      r := if moved == None then Failure(IllegalTransition) else Success(stateMachine.state);
    }

    /** The write is sent exactly when no old value is expected or the one read matches; the data is only decoded for
        the report afterwards, so malformed data raises after the write. */
    method WriteMemory(request: CompareWrite.WriteRequest, read: Result<string, SessionError>, write: Outcome)
      returns (r: Result<CompareWrite.WriteData, WriteError>, commands: seq<CompareWrite.Command>)
      ensures commands ==
        (if request.expectedOldHex.Some? && IsHexText(request.expectedOldHex.value)
         then [CompareWrite.ReadBytes(request.address, |NoSpaces(request.expectedOldHex.value)| / 2)] else [])
        + (if r == Failure(Mismatch) || (request.expectedOldHex.Some? && read.Failure?)
              || (request.expectedOldHex.Some? && !IsHexText(request.expectedOldHex.value))
           then [] else [CompareWrite.WriteBytes(request.address, request.dataHex)])
      ensures r ==
        if request.expectedOldHex.Some? && !IsHexText(request.expectedOldHex.value) then Failure(Malformed)
        else if request.expectedOldHex.Some? && read.Failure? then Failure(CommandError(read.error))
        else if request.expectedOldHex.Some? && !EqualIgnoringCase(read.value, request.expectedOldHex.value) then
          Failure(Mismatch)
        else if !write.Done? then Failure(CommandError(Raised(write)))
        else if !IsHexText(request.dataHex) then Failure(Malformed)
        else Success(CompareWrite.WriteData(request.address, |NoSpaces(request.dataHex)| / 2,
                                            request.expectedOldHex.Some?))
    {
      hide FromHex, IsHexText, NoSpaces, EqualIgnoringCase, LowerText;
      DataDecoded(request.dataHex);
      if request.expectedOldHex.Some? {
        DataDecoded(request.expectedOldHex.value);
        if read.Success? { LowerTextExactly(read.value, request.expectedOldHex.value); }
      }
      commands := [];
      if request.expectedOldHex.Some? {
        var expected := FromHex(request.expectedOldHex.value);
        if expected == None { return Failure(Malformed), commands; }
        commands := [CompareWrite.ReadBytes(request.address, |expected.value|)];
        if read.Failure? { return Failure(CommandError(read.error)), commands; }
        if LowerText(read.value) != LowerText(request.expectedOldHex.value) { return Failure(Mismatch), commands; }
      }
      commands := commands + [CompareWrite.WriteBytes(request.address, request.dataHex)];
      if !write.Done? { return Failure(CommandError(Raised(write))), commands; }
      var data := FromHex(request.dataHex);
      if data == None { return Failure(Malformed), commands; }
      r := Success(CompareWrite.WriteData(request.address, |data.value|, request.expectedOldHex.Some?));
    }
  }

  lemma DataDecoded(s: string)
    ensures FromHex(s).Some? <==> IsHexText(s)
    ensures FromHex(s).Some? ==> |FromHex(s).value| == |NoSpaces(s)| / 2
  {
    hide FromHex, IsHexText, NoSpaces;
    RejectedExactly(s);
    DecodedLength(s);
  }

  /** The service's part of a disconnect: the session is taken off the list only when its disconnect returns normally,
      so after a failed gdb-exit a disconnected session stays listed; when another disconnect has unlisted it meanwhile,
      the removal raises. */
  method DisconnectAndRemove(sessions: ToolService.SessionManager<DebugSession>, id: string, session: DebugSession,
                             exit: Outcome, close: Outcome)
    returns (ok: bool)
    modifies sessions, session.stateMachine
    ensures ok <==> exit.Done? && close.Done? && id in old(sessions.sessions)
    ensures sessions.sessions ==
      if exit.Done? && close.Done? then old(sessions.sessions) - {id} else old(sessions.sessions)
    ensures session.stateMachine.state == if close.Done? then Disconnected else old(session.stateMachine.state)
  {
    var r := session.Disconnect(exit, close);
    if r.Failure? { return false; }
    var removed := sessions.Remove(id);
    ok := removed.Some?;
  }
}
