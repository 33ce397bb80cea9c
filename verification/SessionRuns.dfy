/** Operations on one session, interleaved between their awaited commands, as when the session is shared by several
    callers. A run is any sequence of operations starting and awaited commands ending. */
module SessionRuns {
  import opened Basics
  import opened SessionState
  import opened DebugSessions

  type CallId = nat

  /** An operation that ended, with the state just before and just after its last segment. */
  datatype Phase =
    | Active(op: Operation, outcomes: seq<Outcome>)
    | Ended(op: Operation, outcomes: seq<Outcome>, before: TargetState, after: TargetState, ending: Ending)

  datatype State = State(machine: Machine, calls: map<CallId, Phase>)

  function Initial(initial: TargetState): State {
    State(Machine(initial, []), map[])
  }

  datatype Event = Start(call: CallId, op: Operation) | Reply(call: CallId, outcome: Outcome)

  /** The state after a segment of a call. */
  function Apply(s: State, c: CallId, op: Operation, outcomes: seq<Outcome>, segment: Segment): State {
    var phase := match segment.ending
      case None => Active(op, outcomes)
      case Some(ending) => Ended(op, outcomes, s.machine.state, segment.machine.state, ending);
    State(segment.machine, s.calls[c := phase])
  }

  /** The state after an event, if the event can happen. */
  function Step(s: State, e: Event): Option<State> {
    match e
    case Start(c, op) => if c in s.calls then None else Some(Apply(s, c, op, [], Begin(s.machine, op)))
    case Reply(c, outcome) =>
      if !(c in s.calls && s.calls[c].Active?) then None else
      var outcomes := s.calls[c].outcomes + [outcome];
      Some(Apply(s, c, s.calls[c].op, outcomes, After(s.machine, s.calls[c].op, outcomes)))
  }

  function Run(s: State, events: seq<Event>): Option<State>
    decreases |events|
  {
    if events == [] then Some(s) else
    match Step(s, events[0])
    case None => None
    case Some(t) => Run(t, events[1..])
  }

  // ----- what each ended operation satisfies -----

  /** An operation with one awaited command and a state to move to afterwards. */
  predicate CompletesTo(outcome: Outcome, to: TargetState, before: TargetState, ending: Ending) {
    ending == if !outcome.Done? then Failure(Raised(outcome))
              else if Allowed(before, to) then Success(to)
              else Failure(IllegalTransition)
  }

  /** The same for a backend's command, which reports the state to move to. */
  predicate ReportsTo(outcome: Outcome, before: TargetState, ending: Ending) {
    if outcome.Done? then CompletesTo(outcome, outcome.report, before, ending) else ending == Failure(Raised(outcome))
  }

  /** Only a connect without an endpoint, or one that may not begin, ends before its command. */
  predicate ConnectRight(hasEndpoint: bool, outcomes: seq<Outcome>, before: TargetState, ending: Ending) {
    if !hasEndpoint then outcomes == [] && ending == Failure(NoEndpoint)
    else if outcomes == [] then before in {Halted, Running} && ending == Failure(IllegalTransition)
    else |outcomes| == 1 && ReportsTo(outcomes[0], before, ending)
  }

  /** A resume ends RUNNING when its run completes. After a timeout it never does: it ends HALTED when the interrupt
      succeeded and the session could be halted, DEGRADED when it did not, and UNKNOWN without an interrupt. A run that
      fails or is cancelled is raised as such. */
  predicate ResumeRight(auto: bool, outcomes: seq<Outcome>, before: TargetState, ending: Ending) {
    if |outcomes| == 1 && outcomes[0].Done? then
      ending == if before in {Disconnected, Degraded} then Failure(IllegalTransition) else Success(Running)
    else if |outcomes| == 1 && outcomes[0].TimedOut? then
      !auto && ending == if before == Disconnected then Failure(IllegalTransition) else Success(Unknown)
    else if |outcomes| == 1 then
      ending == Failure(Raised(outcomes[0]))
    else
      && auto && |outcomes| == 2 && outcomes[0].TimedOut?
      && ending == if outcomes[1].Cancelled? then Failure(Raised(Cancelled))
                   else if before == Disconnected then Failure(IllegalTransition)
                   else if outcomes[1].Done? && before != Degraded then Success(Halted)
                   else Success(Degraded)
  }

  /** A disconnect moves to DISCONNECTED exactly when the transport closed, and raises unless both gdb-exit and the
      close succeeded. */
  predicate DisconnectRight(outcomes: seq<Outcome>, before: TargetState, after: TargetState, ending: Ending) {
    && |outcomes| == 2
    && after == (if outcomes[1].Done? then Disconnected else before)
    && ending == if !outcomes[1].Done? then Failure(Raised(outcomes[1]))
                 else if outcomes[0].Done? then Success(Disconnected)
                 else Failure(Raised(outcomes[0]))
  }

  predicate ResetRight(mode: ResetMode, hasResetter: bool, outcomes: seq<Outcome>, before: TargetState, ending: Ending)
  {
    if hasResetter then
      |outcomes| == 1 && ReportsTo(outcomes[0], before, ending)
    else
      && outcomes == []
      && ending == if before in {Disconnected, Degraded} then Failure(IllegalTransition)
                   else Success(if mode == ResetHalt then Halted else Running)
  }

  /** How an operation has ended, from the outcomes of its commands and the state before its last segment. The state
      moves only to the one returned, except that a disconnect may also raise after its move. */
  predicate EndedRight(p: Phase)
    requires p.Ended?
  {
    && (p.ending.Success? ==> p.after == p.ending.value)
    && (p.ending.Failure? && !p.op.Disconnect? ==> p.after == p.before)
    && match p.op
       case Connect(hasEndpoint) => ConnectRight(hasEndpoint, p.outcomes, p.before, p.ending)
       case Disconnect => DisconnectRight(p.outcomes, p.before, p.after, p.ending)
       case Halt => |p.outcomes| == 1 && CompletesTo(p.outcomes[0], Halted, p.before, p.ending)
       case Resume(auto) => ResumeRight(auto, p.outcomes, p.before, p.ending)
       case StepInstruction => |p.outcomes| == 1 && CompletesTo(p.outcomes[0], Halted, p.before, p.ending)
       case Reset(mode, hasResetter) => ResetRight(mode, hasResetter, p.outcomes, p.before, p.ending)
  }

  /** Only a disconnect and a timed-out resume await a second command. */
  predicate ActiveRight(p: Phase)
    requires p.Active?
  {
    && (p.op.Connect? ==> p.op.hasEndpoint)
    && (p.op.Reset? ==> p.op.hasResetter)
    && (|| p.outcomes == []
        || (p.op.Disconnect? && |p.outcomes| == 1)
        || (p.op == Resume(true) && p.outcomes == [TimedOut]))
  }

  predicate PhaseRight(p: Phase) {
    if p.Active? then ActiveRight(p) else EndedRight(p)
  }

  ghost predicate Inv(initial: TargetState, s: State) {
    Chain(initial, s.machine) && forall c :: c in s.calls ==> PhaseRight(s.calls[c])
  }

  /** A segment moves the machine at most once, by an allowed transition. */
  lemma SegmentChain(initial: TargetState, m: Machine, op: Operation, outcomes: seq<Outcome>)
    requires Chain(initial, m)
    ensures Chain(initial, Begin(m, op).machine) && m.history <= Begin(m, op).machine.history
    ensures outcomes != [] ==>
      Chain(initial, After(m, op, outcomes).machine) && m.history <= After(m, op, outcomes).machine.history
  {
    hide Chain, Allowed;
    forall to | Moved(m, to).Some? ensures Chain(initial, Moved(m, to).value) { ChainGrows(initial, m, to); }
  }

  lemma BeginRight(s: State, c: CallId, op: Operation)
    ensures PhaseRight(Apply(s, c, op, [], Begin(s.machine, op)).calls[c])
  {}

  lemma FirstRight(s: State, c: CallId, op: Operation, outcome: Outcome)
    requires ActiveRight(Active(op, []))
    ensures PhaseRight(Apply(s, c, op, [outcome], After(s.machine, op, [outcome])).calls[c])
  {
    ReachedFrom(s.machine.state, Running);
    ReachedFrom(s.machine.state, Unknown);
    hide Allowed;
  }

  lemma SecondRight(s: State, c: CallId, op: Operation, first: Outcome, outcome: Outcome)
    requires ActiveRight(Active(op, [first]))
    ensures PhaseRight(Apply(s, c, op, [first, outcome], After(s.machine, op, [first, outcome])).calls[c])
  {
    ReachedFrom(s.machine.state, Disconnected);
    ReachedFrom(s.machine.state, Halted);
    ReachedFrom(s.machine.state, Degraded);
    hide Allowed;
  }

  lemma AfterRight(s: State, c: CallId, op: Operation, had: seq<Outcome>, outcome: Outcome)
    requires ActiveRight(Active(op, had))
    ensures PhaseRight(Apply(s, c, op, had + [outcome], After(s.machine, op, had + [outcome])).calls[c])
  {
    if had == [] {
      assert had + [outcome] == [outcome];
      FirstRight(s, c, op, outcome);
    } else {
      assert had + [outcome] == [had[0], outcome];
      SecondRight(s, c, op, had[0], outcome);
    }
  }

  lemma StepKeepsInv(initial: TargetState, s: State, e: Event)
    requires Inv(initial, s) && Step(s, e).Some?
    ensures Inv(initial, Step(s, e).value) && s.machine.history <= Step(s, e).value.machine.history
  {
    hide Chain, Begin, After, EndedRight, ActiveRight;
    match e
    case Start(c, op) =>
      SegmentChain(initial, s.machine, op, []);
      BeginRight(s, c, op);
    case Reply(c, outcome) =>
      SegmentChain(initial, s.machine, s.calls[c].op, s.calls[c].outcomes + [outcome]);
      AfterRight(s, c, s.calls[c].op, s.calls[c].outcomes, outcome);
  }

  lemma {:induction false} RunKeepsInv(initial: TargetState, s: State, events: seq<Event>)
    requires Inv(initial, s) && Run(s, events).Some?
    ensures Inv(initial, Run(s, events).value) && s.machine.history <= Run(s, events).value.machine.history
    decreases |events|
  {
    hide Inv, Step;
    if events != [] {
      StepKeepsInv(initial, s, events[0]);
      RunKeepsInv(initial, Step(s, events[0]).value, events[1..]);
    }
  }

  // ----- the guarantees, for every run -----

  /** The history is a chain of allowed transitions from the initial state to the current one, and is never
      rewritten. */
  lemma HistoryIsChain(initial: TargetState, before: seq<Event>, s: State, events: seq<Event>, t: State)
    requires Run(Initial(initial), before) == Some(s) && Run(s, events) == Some(t)
    ensures Chain(initial, s.machine) && Chain(initial, t.machine) && s.machine.history <= t.machine.history
  {
    RunKeepsInv(initial, Initial(initial), before);
    RunKeepsInv(initial, s, events);
  }

  /** In no run is a disconnected session halted or running again without CONNECTING in between, nor a degraded one
      without CONNECTING or UNKNOWN. */
  lemma NoShortcut(initial: TargetState, events: seq<Event>, s: State, i: nat, j: nat) returns (k: nat)
    requires Run(Initial(initial), events) == Some(s) && i <= j <= |s.machine.history|
    requires StateAt(initial, s.machine.history, i) in {Disconnected, Degraded}
    requires StateAt(initial, s.machine.history, j) in {Halted, Running}
    ensures i < k < j && StateAt(initial, s.machine.history, k) in {Connecting, Unknown}
    ensures StateAt(initial, s.machine.history, i) == Disconnected ==>
      StateAt(initial, s.machine.history, k) == Connecting
  {
    RunKeepsInv(initial, Initial(initial), events);
    k := ReconnectFirst(initial, s.machine, i, j);
  }

  /** Every operation that has ended, in every interleaving, ended as it should. */
  lemma OperationsEndRight(initial: TargetState, events: seq<Event>, s: State, c: CallId)
    requires Run(Initial(initial), events) == Some(s) && c in s.calls && s.calls[c].Ended?
    ensures EndedRight(s.calls[c])
  {
    hide EndedRight;
    RunKeepsInv(initial, Initial(initial), events);
  }

  /** docs/safety-model.md wants the state to become unknown when the interrupt after a timed-out run fails. It never
      becomes so: it is unknown afterwards only when it was before and the interrupt was cancelled. */
  lemma FailedInterruptUnknownExactly(initial: TargetState, events: seq<Event>, s: State, c: CallId)
    requires Run(Initial(initial), events) == Some(s)
    requires c in s.calls && s.calls[c].Ended? && s.calls[c].op == Resume(true)
    requires |s.calls[c].outcomes| == 2 && !s.calls[c].outcomes[1].Done? && s.calls[c].outcomes[0].TimedOut?
    ensures s.calls[c].after == Unknown <==> s.calls[c].before == Unknown && s.calls[c].outcomes[1].Cancelled?
    ensures s.calls[c].before in {Halted, Running} && !s.calls[c].outcomes[1].Cancelled? ==>
      s.calls[c].ending == Success(Degraded) && s.calls[c].after == Degraded
  {
    OperationsEndRight(initial, events, s, c);
  }

  /** Such a run: a running target, a resume that times out, and an interrupt that fails. */
  lemma FailedInterruptDegrades()
    ensures Run(Initial(Running), [Start(0, Resume(true)), Reply(0, TimedOut), Reply(0, Failed)])
      == Some(State(Machine(Degraded, [Transition(Running, Degraded)]),
                    map[0 := Ended(Resume(true), [TimedOut, Failed], Running, Degraded, Success(Degraded))]))
  {
    var m := Machine(Running, []);
    var s1 := State(m, map[0 := Active(Resume(true), [])]);
    var s2 := State(m, map[0 := Active(Resume(true), [TimedOut])]);
    assert Step(Initial(Running), Start(0, Resume(true))) == Some(s1);
    assert map[0 := Active(Resume(true), [])][0 := Active(Resume(true), [TimedOut])]
        == map[0 := Active(Resume(true), [TimedOut])];
    assert [] + [TimedOut] == [TimedOut] && [TimedOut] + [Failed] == [TimedOut, Failed];
    assert Step(s1, Reply(0, TimedOut)) == Some(s2);
    var s3 := State(Machine(Degraded, [Transition(Running, Degraded)]),
                    map[0 := Ended(Resume(true), [TimedOut, Failed], Running, Degraded, Success(Degraded))]);
    assert s2.calls[0 := s3.calls[0]] == s3.calls;
    assert [] + [Transition(Running, Degraded)] == [Transition(Running, Degraded)];
    assert Step(s2, Reply(0, Failed)) == Some(s3);
    var events := [Start(0, Resume(true)), Reply(0, TimedOut), Reply(0, Failed)];
    assert events[1..] == [Reply(0, TimedOut), Reply(0, Failed)] && events[1..][1..] == [Reply(0, Failed)];
    assert events[1..][1..][1..] == [];
  }
}
