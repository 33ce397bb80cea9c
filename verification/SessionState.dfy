/** The state machine of debug/state.py, which keeps a history of its transitions. */
module SessionState {
  import opened Basics

  datatype TargetState = Disconnected | Connecting | Halted | Running | Unknown | Degraded

  /** LEGAL_TRANSITIONS. */
  function LegalFrom(state: TargetState): set<TargetState> {
    match state
    case Disconnected => {Connecting}
    case Connecting => {Halted, Running, Unknown, Degraded, Disconnected}
    case Halted => {Running, Unknown, Degraded, Disconnected}
    case Running => {Halted, Unknown, Degraded, Disconnected}
    case Unknown => {Connecting, Halted, Running, Degraded, Disconnected}
    case Degraded => {Connecting, Unknown, Disconnected}
  }

  /** A move to the current state is always allowed. */
  predicate Allowed(from: TargetState, to: TargetState) {
    to == from || to in LegalFrom(from)
  }

  /** The table read by columns: from where each state can be reached in one move, staying included. */
  lemma ReachedFrom(from: TargetState, to: TargetState)
    ensures Allowed(from, to) <==>
      match to
      case Disconnected => true
      case Connecting => from in {Disconnected, Connecting, Unknown, Degraded}
      case Halted => from in {Connecting, Halted, Running, Unknown}
      case Running => from in {Connecting, Halted, Running, Unknown}
      case Unknown => from != Disconnected
      case Degraded => from != Disconnected
  {}

  datatype Transition = Transition(from: TargetState, to: TargetState)

  /** The value of a state machine. */
  datatype Machine = Machine(state: TargetState, history: seq<Transition>)

  /** The machine after a transition, if it is allowed. */
  function Moved(m: Machine, to: TargetState): Option<Machine> {
    if Allowed(m.state, to) then Some(Machine(to, m.history + [Transition(m.state, to)])) else None
  }

  class DebugSessionStateMachine {
    var state: TargetState
    var history: seq<Transition>

    constructor (initial: TargetState)
      ensures Value() == Machine(initial, [])
    {
      state := initial;
      history := [];
    }

    function Value(): Machine
      reads this
    {
      Machine(state, history)
    }

    method CanTransition(to: TargetState) returns (ok: bool)
      ensures ok <==> Allowed(state, to)
    {
      if to == state { return true; }
      ok := to in LegalFrom(state);
    }

    /** An illegal transition raises and changes nothing. */
    method MoveTo(to: TargetState) returns (r: Option<Transition>)
      modifies this
      ensures Allowed(old(state), to) ==>
        r == Some(Transition(old(state), to)) && state == to && history == old(history) + [Transition(old(state), to)]
      ensures !Allowed(old(state), to) ==> r == None && Value() == old(Value())
    {
      var ok := CanTransition(to);
      if !ok { return None; }
      var transition := Transition(state, to);
      state := to;
      history := history + [transition];
      r := Some(transition);
    }
  }

  // ----- histories -----

  /** The state after `i` transitions. */
  function StateAt(initial: TargetState, history: seq<Transition>, i: nat): TargetState
    requires i <= |history|
  {
    if i == 0 then initial else history[i - 1].to
  }

  predicate Linked(initial: TargetState, history: seq<Transition>, i: nat)
    requires i < |history|
  {
    history[i].from == StateAt(initial, history, i) && Allowed(history[i].from, history[i].to)
  }

  /** The history leads from the initial state to the current one, every link being allowed. */
  ghost predicate Chain(initial: TargetState, m: Machine) {
    && (forall i: nat :: i < |m.history| ==> Linked(initial, m.history, i))
    && m.state == StateAt(initial, m.history, |m.history|)
  }

  lemma ChainGrows(initial: TargetState, m: Machine, to: TargetState)
    requires Chain(initial, m) && Moved(m, to).Some?
    ensures Chain(initial, Moved(m, to).value)
  {
    var n := Moved(m, to).value;
    forall i: nat | i < |n.history| ensures Linked(initial, n.history, i) {
      if i < |m.history| { assert Linked(initial, m.history, i); }
    }
  }

  /** No legal transition leaves `inside` except into `gates`. */
  ghost predicate Closed(inside: set<TargetState>, gates: set<TargetState>) {
    forall from, to :: from in inside && Allowed(from, to) ==> to in inside || to in gates
  }

  lemma ClosedStep(initial: TargetState, m: Machine, i: nat, inside: set<TargetState>, gates: set<TargetState>)
    requires Chain(initial, m) && i < |m.history| && Closed(inside, gates) && StateAt(initial, m.history, i) in inside
    ensures StateAt(initial, m.history, i + 1) in inside || StateAt(initial, m.history, i + 1) in gates
  {
    hide LegalFrom, Allowed;
    assert Linked(initial, m.history, i);
  }

  /** A history that gets out of `inside` has passed through a gate on the way. */
  lemma {:induction false} GatePassed(initial: TargetState, m: Machine, i: nat, j: nat, inside: set<TargetState>,
                                      gates: set<TargetState>)
    returns (k: nat)
    requires Chain(initial, m) && i <= j <= |m.history| && Closed(inside, gates)
    requires StateAt(initial, m.history, i) in inside
    requires StateAt(initial, m.history, j) !in inside && StateAt(initial, m.history, j) !in gates
    ensures i < k < j && StateAt(initial, m.history, k) in gates
    decreases j - i
  {
    hide Chain, Closed, StateAt;
    ClosedStep(initial, m, i, inside, gates);
    if StateAt(initial, m.history, i + 1) in gates {
      k := i + 1;
    } else {
      k := GatePassed(initial, m, i + 1, j, inside, gates);
    }
  }

  /** A disconnected session is halted or running again only after CONNECTING, a degraded one only after CONNECTING
      or UNKNOWN. */
  lemma ReconnectFirst(initial: TargetState, m: Machine, i: nat, j: nat) returns (k: nat)
    requires Chain(initial, m) && i <= j <= |m.history|
    requires StateAt(initial, m.history, i) in {Disconnected, Degraded}
    requires StateAt(initial, m.history, j) in {Halted, Running}
    ensures i < k < j && StateAt(initial, m.history, k) in {Connecting, Unknown}
    ensures StateAt(initial, m.history, i) == Disconnected ==> StateAt(initial, m.history, k) == Connecting
  {
    if StateAt(initial, m.history, i) == Disconnected {
      k := GatePassed(initial, m, i, j, {Disconnected}, {Connecting});
    } else {
      k := GatePassed(initial, m, i, j, {Disconnected, Degraded}, {Connecting, Unknown});
    }
  }
}
