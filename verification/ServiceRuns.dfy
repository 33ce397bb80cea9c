/** Tool calls on one service, interleaved at every suspension point. A run is any sequence of events over a clock that
    never goes back, with tokens and session ids that are fresh when they are made. */
module ServiceRuns {
  import opened Basics
  import opened Policy
  import opened Confirmation
  import opened ToolService
  import Hex

  type CallId = nat

  /** An evaluated call: what it asks for, the token it presented, and when that token was checked. */
  datatype Use = Use(operation: Operation, request: Request, token: Option<string>, at: real)

  datatype Phase =
    | Authorized(use: Use)   // allowed, session found, no slot reserved yet
    | Running(use: Use)      // slot reserved, the session operation is executing
    | Connecting(use: Use)   // past the session-count check, creating or connecting a session
    | Ended

  datatype Issue = Issue(operation: Operation, fingerprint: Fingerprint, at: real)

  datatype Execution = Execution(call: CallId, use: Use)

  /** `issued`, `consumed` and `executed` record what has happened; the other fields are the service's own. */
  datatype State = State(
    clock: real,
    records: Records,
    sessions: set<string>,
    counters: Counters,
    calls: map<CallId, Phase>,
    issued: map<string, Issue>,
    consumed: map<string, CallId>,
    executed: seq<Execution>)

  const INITIAL := State(0.0, map[], {}, Counters(0, map[]), map[], map[], map[], [])

  datatype Event =
    | Tick(seconds: real)
    | Begin(call: CallId, operation: Operation, request: Request, token: Option<string>, freshToken: string)
    | BeginConnect(call: CallId, request: Request, token: Option<string>, freshToken: string)
    | TakeSlot(call: CallId)
    | RemoveSession(call: CallId)
    | GiveSlotBack(call: CallId)
    | FinishConnect(call: CallId, session: string)
    | FailConnect(call: CallId)

  /** The tools that run through `_with_session`. */
  predicate IsSessionTool(operation: Operation) {
    operation in {DisconnectTarget, Halt, Resume, StepInstruction, ResetTarget, ReadRegisters, ReadMemory, WriteMemory,
                  SetBreakpoint, ClearBreakpoint, DebugSnapshot, InspectPeripheral}
  }

  /** The number of bytes a write request asks for, when its data is hexadecimal. */
  function WriteLength(request: Request): Option<nat> {
    match FieldOf(request, "data_hex")
    case Text(hex) => (match Hex.FromHex(hex) case None => None case Some(data) => Some(|data|))
    case _ => None
  }

  /** `write_memory` refuses malformed and oversized data before anything else. */
  predicate WriteAccepted(config: Config, operation: Operation, request: Request) {
    operation == WriteMemory ==>
      WriteLength(request).Some? && config.limits.MemoryWriteOk(WriteLength(request).value)
  }

  predicate Fresh(s: State, token: string) {
    token != "" && token !in s.issued
  }

  /** The table of tokens and its history after a call has presented `token`. */
  function Presented(s: State, c: CallId, records: Records, token: Option<string>): State {
    s.(records := records,
       consumed := if token.Some? && token.value in s.records then s.consumed[token.value := c] else s.consumed)
  }

  /** A refusal that asks for confirmation issues the fresh token. */
  function Refused(config: Config, s: State, c: CallId, decision: Decision, operation: Operation, request: Request,
                   freshToken: string): State
  {
    var t := s.(calls := s.calls[c := Ended]);
    if decision.kind != RequireConfirmation then t
    else t.(records := t.records[freshToken :=
                Confirmed(operation, FingerprintOf(request), t.clock + config.ttlSeconds as real)],
            issued := t.issued[freshToken := Issue(operation, FingerprintOf(request), t.clock)])
  }

  function Ending(s: State, c: CallId): State {
    s.(calls := s.calls[c := Ended])
  }

  function StepBegin(config: Config, s: State, c: CallId, operation: Operation, request: Request, token: Option<string>,
                     freshToken: string): State
  {
    if !WriteAccepted(config, operation, request) then Ending(s, c) else
    var (decision, records) := EvaluateCall(config, s.records, s.clock, operation, request, token);
    var t := Presented(s, c, records, token);
    if decision.kind != Allow then Refused(config, t, c, decision, operation, request, freshToken)
    else if request.sessionId !in s.sessions then Ending(t, c)
    else t.(calls := t.calls[c := Authorized(Use(operation, request, token, s.clock))])
  }

  function StepBeginConnect(config: Config, s: State, c: CallId, request: Request, token: Option<string>,
                            freshToken: string): State
  {
    if !config.limits.SessionCountOk(|s.sessions|) || !config.hasSessionFactory then Ending(s, c) else
    var (decision, records) := EvaluateCall(config, s.records, s.clock, ConnectTarget, request, token);
    var t := Presented(s, c, records, token);
    if decision.kind != Allow then Refused(config, t, c, decision, ConnectTarget, request, freshToken)
    else
      var use := Use(ConnectTarget, request, token, s.clock);
      t.(calls := t.calls[c := Connecting(use)], executed := t.executed + [Execution(c, use)])
  }

  predicate InPhase(s: State, c: CallId, running: bool) {
    c in s.calls && (if running then s.calls[c].Running? else s.calls[c].Connecting?)
  }

  /** The state after an event, if the event can happen. */
  function Step(config: Config, s: State, e: Event): Option<State> {
    match e
    case Tick(seconds) => if seconds >= 0.0 then Some(s.(clock := s.clock + seconds)) else None
    case Begin(c, operation, request, token, freshToken) =>
      if c in s.calls || !IsSessionTool(operation) || !Fresh(s, freshToken) then None
      else Some(StepBegin(config, s, c, operation, request, token, freshToken))
    case BeginConnect(c, request, token, freshToken) =>
      if c in s.calls || !Fresh(s, freshToken) then None
      else Some(StepBeginConnect(config, s, c, request, token, freshToken))
    case TakeSlot(c) =>
      if !(c in s.calls && s.calls[c].Authorized?) then None else
      var use := s.calls[c].use;
      (match Reserve(config.limits, s.counters, Some(use.request.sessionId))
       case None => Some(Ending(s, c))
       case Some(counters) =>
         Some(s.(counters := counters, calls := s.calls[c := Running(use)],
                 executed := s.executed + [Execution(c, use)])))
    case RemoveSession(c) =>
      if !(InPhase(s, c, true) && s.calls[c].use.operation == DisconnectTarget) then None
      else Some(s.(sessions := s.sessions - {s.calls[c].use.request.sessionId}))
    case GiveSlotBack(c) =>
      if !InPhase(s, c, true) then None
      else Some(Ending(s, c).(counters := Release(s.counters, Some(s.calls[c].use.request.sessionId))))
    case FinishConnect(c, session) =>
      if !InPhase(s, c, false) || session in s.sessions then None
      else Some(Ending(s, c).(sessions := s.sessions + {session}))
    case FailConnect(c) =>
      if !InPhase(s, c, false) then None else Some(Ending(s, c))
  }

  function Run(config: Config, s: State, events: seq<Event>): Option<State>
    decreases |events|
  {
    if events == [] then Some(s) else
    match Step(config, s, events[0])
    case None => None
    case Some(t) => Run(config, t, events[1..])
  }

  // ----- authorization -----

  function UseOf(p: Phase): Option<Use> {
    if p.Ended? then None else Some(p.use)
  }

  /** The token of a use was issued for the same operation and request and had not outlived its ttl when it was
      checked. */
  ghost predicate TokenGood(config: Config, s: State, c: CallId, use: Use) {
    use.token.Some? ==>
      && use.token.value in s.issued && use.token.value in s.consumed
      && s.consumed[use.token.value] == c
      && var issue := s.issued[use.token.value];
         && issue.operation == use.operation && issue.fingerprint == FingerprintOf(use.request)
         && issue.at <= use.at <= issue.at + config.ttlSeconds as real
  }

  ghost predicate UseGood(config: Config, s: State, c: CallId, use: Use) {
    && TokenGood(config, s, c, use)
    && use.at <= s.clock
    && Evaluate(RequestFor(config, use.operation, use.token)).kind == Allow
    && WriteAccepted(config, use.operation, use.request)
    && (use.operation == ConnectTarget || IsSessionTool(use.operation))
  }

  /** The store holds unconsumed issued tokens, each with the data it was issued with. */
  ghost predicate StoreGood(config: Config, s: State) {
    && (forall t :: t in s.records ==>
          && t != "" && t in s.issued && t !in s.consumed
          && s.records[t] == Confirmed(s.issued[t].operation, s.issued[t].fingerprint,
                                       s.issued[t].at + config.ttlSeconds as real))
    && (forall t :: t in s.issued ==> s.issued[t].at <= s.clock)
    && (forall t :: t in s.consumed ==> t in s.issued)
  }

  ghost predicate CallsGood(config: Config, s: State) {
    forall c :: c in s.calls && UseOf(s.calls[c]).Some? ==> UseGood(config, s, c, UseOf(s.calls[c]).value)
  }

  ghost predicate ExecutedGood(config: Config, s: State) {
    && (forall i :: 0 <= i < |s.executed| ==>
          && UseGood(config, s, s.executed[i].call, s.executed[i].use)
          && s.executed[i].call in s.calls && !s.calls[s.executed[i].call].Authorized?)
    && (forall i, j :: 0 <= i < j < |s.executed| ==> s.executed[i].call != s.executed[j].call)
  }

  ghost predicate AuthInv(config: Config, s: State) {
    StoreGood(config, s) && CallsGood(config, s) && ExecutedGood(config, s)
  }

  /** Time passes, tokens are issued and other calls consume theirs: what was good stays good. */
  ghost predicate Extends(s: State, t: State) {
    && s.clock <= t.clock
    && (forall k :: k in s.issued ==> k in t.issued && t.issued[k] == s.issued[k])
    && (forall k :: k in s.consumed ==> k in t.consumed && t.consumed[k] == s.consumed[k])
  }

  lemma UseStaysGood(config: Config, s: State, t: State, c: CallId, use: Use)
    requires UseGood(config, s, c, use) && Extends(s, t)
    ensures UseGood(config, t, c, use)
  {}

  lemma PresentedGood(config: Config, s: State, c: CallId, operation: Operation, request: Request,
                      token: Option<string>)
    requires StoreGood(config, s)
    ensures var (decision, records) := EvaluateCall(config, s.records, s.clock, operation, request, token);
      var t := Presented(s, c, records, token);
      && StoreGood(config, t) && Extends(s, t)
      && (decision.kind == Allow ==> TokenGood(config, t, c, Use(operation, request, token, s.clock))
                                     && Evaluate(RequestFor(config, operation, token)).kind == Allow)
  {}

  /** A fresh token in the store keeps it in order. */
  lemma IssuedGood(config: Config, s: State, t: State, freshToken: string, issue: Issue)
    requires StoreGood(config, s) && Fresh(s, freshToken) && issue.at == s.clock
    requires t.clock == s.clock && t.consumed == s.consumed && t.issued == s.issued[freshToken := issue]
    requires t.records ==
      s.records[freshToken := Confirmed(issue.operation, issue.fingerprint, issue.at + config.ttlSeconds as real)]
    ensures StoreGood(config, t) && Extends(s, t)
  {
    assert freshToken !in s.consumed && freshToken !in s.issued;
  }

  lemma RefusedGood(config: Config, s: State, c: CallId, decision: Decision, operation: Operation, request: Request,
                    freshToken: string)
    requires StoreGood(config, s) && Fresh(s, freshToken)
    ensures var t := Refused(config, s, c, decision, operation, request, freshToken);
      StoreGood(config, t) && Extends(s, t) && t.executed == s.executed && t.calls == s.calls[c := Ended]
  {
    hide FingerprintOf, StoreGood, Extends, Fresh;
    var t := Refused(config, s, c, decision, operation, request, freshToken);
    if decision.kind == RequireConfirmation {
      IssuedGood(config, s, t, freshToken, Issue(operation, FingerprintOf(request), s.clock));
    } else {
      ExtendsSelf(s);
      SameStore(config, s, s, t);
    }
  }

  lemma ExtendsTrans(s: State, t: State, u: State)
    requires Extends(s, t) && Extends(t, u)
    ensures Extends(s, u)
  {}

  /** Only the clock, the tokens and their history matter for the store. */
  lemma SameStore(config: Config, s: State, t: State, u: State)
    requires StoreGood(config, t) && Extends(s, t)
    requires u.clock == t.clock && u.records == t.records && u.issued == t.issued && u.consumed == t.consumed
    ensures StoreGood(config, u) && Extends(s, u)
  {}

  lemma BeginExtends(config: Config, s: State, c: CallId, operation: Operation, request: Request, token: Option<string>,
                     freshToken: string)
    requires StoreGood(config, s) && Fresh(s, freshToken)
    ensures var t := StepBegin(config, s, c, operation, request, token, freshToken);
      StoreGood(config, t) && Extends(s, t)
  {
    hide Refused, Presented, EvaluateCall, WriteAccepted, StoreGood;
    AttemptExtends(config, s, c, operation, request, token, freshToken);
    var u := StepBegin(config, s, c, operation, request, token, freshToken);
    var (decision, records) := EvaluateCall(config, s.records, s.clock, operation, request, token);
    if !WriteAccepted(config, operation, request) {
      SameStore(config, s, s, u);
    } else if decision.kind == Allow {
      SameStore(config, s, Presented(s, c, records, token), u);
    }
  }

  lemma ConnectExtends(config: Config, s: State, c: CallId, request: Request, token: Option<string>, freshToken: string)
    requires StoreGood(config, s) && Fresh(s, freshToken)
    ensures var t := StepBeginConnect(config, s, c, request, token, freshToken);
      StoreGood(config, t) && Extends(s, t)
  {
    hide Refused, Presented, EvaluateCall, StoreGood;
    AttemptExtends(config, s, c, ConnectTarget, request, token, freshToken);
    var u := StepBeginConnect(config, s, c, request, token, freshToken);
    var (decision, records) := EvaluateCall(config, s.records, s.clock, ConnectTarget, request, token);
    if !config.limits.SessionCountOk(|s.sessions|) || !config.hasSessionFactory {
      SameStore(config, s, s, u);
    } else if decision.kind == Allow {
      SameStore(config, s, Presented(s, c, records, token), u);
    }
  }

  /** Presenting a token and being refused both keep the store in order. */
  lemma AttemptExtends(config: Config, s: State, c: CallId, operation: Operation, request: Request,
                       token: Option<string>, freshToken: string)
    requires StoreGood(config, s) && Fresh(s, freshToken)
    ensures var (decision, records) := EvaluateCall(config, s.records, s.clock, operation, request, token);
      var t := Presented(s, c, records, token);
      var u := Refused(config, t, c, decision, operation, request, freshToken);
      StoreGood(config, t) && Extends(s, t) && StoreGood(config, u) && Extends(s, u)
  {
    hide Evaluate, FingerprintOf;
    PresentedGood(config, s, c, operation, request, token);
    var (decision, records) := EvaluateCall(config, s.records, s.clock, operation, request, token);
    var t := Presented(s, c, records, token);
    RefusedGood(config, t, c, decision, operation, request, freshToken);
    ExtendsTrans(s, t, Refused(config, t, c, decision, operation, request, freshToken));
  }

  /** What one event does, as far as authorization is concerned. */
  lemma StepExtends(config: Config, s: State, e: Event)
    requires StoreGood(config, s) && Step(config, s, e).Some?
    ensures StoreGood(config, Step(config, s, e).value) && Extends(s, Step(config, s, e).value)
  {
    hide StepBegin, StepBeginConnect, Reserve, Release;
    match e
    case Begin(c, operation, request, token, freshToken) =>
      BeginExtends(config, s, c, operation, request, token, freshToken);
    case BeginConnect(c, request, token, freshToken) =>
      ConnectExtends(config, s, c, request, token, freshToken);
    case Tick(_) =>
    case _ =>
      hide StoreGood, Extends;
      ExtendsSelf(s);
      SameStore(config, s, s, Step(config, s, e).value);
  }

  lemma ExtendsSelf(s: State)
    ensures Extends(s, s)
  {}

  lemma BeginUse(config: Config, s: State, c: CallId, operation: Operation, request: Request, token: Option<string>,
                 freshToken: string)
    requires StoreGood(config, s) && IsSessionTool(operation)
    ensures var t := StepBegin(config, s, c, operation, request, token, freshToken);
      c in t.calls && UseOf(t.calls[c]).Some? ==> UseGood(config, t, c, UseOf(t.calls[c]).value)
  {
    hide Evaluate, EvaluateCall, FingerprintOf, WriteAccepted, IsSessionTool, StoreGood;
    PresentedGood(config, s, c, operation, request, token);
  }

  lemma ConnectUse(config: Config, s: State, c: CallId, request: Request, token: Option<string>, freshToken: string)
    requires StoreGood(config, s)
    ensures var t := StepBeginConnect(config, s, c, request, token, freshToken);
      c in t.calls && UseOf(t.calls[c]).Some? ==> UseGood(config, t, c, UseOf(t.calls[c]).value)
  {
    hide Evaluate, EvaluateCall, FingerprintOf, WriteAccepted, IsSessionTool, StoreGood;
    PresentedGood(config, s, c, ConnectTarget, request, token);
    ConnectIsNoWrite(config, request);
  }

  lemma AttemptChanges(config: Config, s: State, c: CallId, records: Records, decision: Decision, operation: Operation,
                       request: Request, token: Option<string>, freshToken: string)
    ensures var p := Presented(s, c, records, token);
      p.calls == s.calls && p.counters == s.counters && p.sessions == s.sessions && p.executed == s.executed
    ensures var r := Refused(config, Presented(s, c, records, token), c, decision, operation, request, freshToken);
      && r.calls == s.calls[c := Ended] && r.counters == s.counters && r.sessions == s.sessions
      && r.executed == s.executed
  {
    hide FingerprintOf;
  }

  /** A call that begins changes its own phase and the tokens, and nothing else that other calls see. */
  lemma BeginChanges(config: Config, s: State, c: CallId, operation: Operation, request: Request, token: Option<string>,
                     freshToken: string)
    ensures var t := StepBegin(config, s, c, operation, request, token, freshToken);
      && c in t.calls && t.calls == s.calls[c := t.calls[c]] && (t.calls[c].Authorized? || t.calls[c].Ended?)
      && t.counters == s.counters && t.sessions == s.sessions && t.executed == s.executed
  {
    hide EvaluateCall, WriteAccepted, Presented, Refused;
    var (decision, records) := EvaluateCall(config, s.records, s.clock, operation, request, token);
    AttemptChanges(config, s, c, records, decision, operation, request, token, freshToken);
  }

  lemma ConnectChanges(config: Config, s: State, c: CallId, request: Request, token: Option<string>, freshToken: string)
    ensures var t := StepBeginConnect(config, s, c, request, token, freshToken);
      && c in t.calls && t.calls == s.calls[c := t.calls[c]] && (t.calls[c].Connecting? || t.calls[c].Ended?)
      && t.counters == s.counters && t.sessions == s.sessions
      && (t.calls[c].Connecting? ==> config.limits.SessionCountOk(|s.sessions|))
      && t.executed == if t.calls[c].Connecting? then s.executed + [Execution(c, t.calls[c].use)] else s.executed
  {
    hide EvaluateCall, Presented, Refused;
    var (decision, records) := EvaluateCall(config, s.records, s.clock, ConnectTarget, request, token);
    AttemptChanges(config, s, c, records, decision, ConnectTarget, request, token, freshToken);
  }

  /** A new use, of the call that begins, is good. */
  lemma NewUse(config: Config, s: State, e: Event, c: CallId)
    requires StoreGood(config, s) && Step(config, s, e).Some? && c !in s.calls
    requires var t := Step(config, s, e).value; c in t.calls && UseOf(t.calls[c]).Some?
    ensures var t := Step(config, s, e).value; UseGood(config, t, c, UseOf(t.calls[c]).value)
  {
    hide StepBegin, StepBeginConnect, Reserve, Release, IsSessionTool, StoreGood, UseGood;
    if e.Begin? {
      BeginChanges(config, s, e.call, e.operation, e.request, e.token, e.freshToken);
      BeginUse(config, s, c, e.operation, e.request, e.token, e.freshToken);
    } else if e.BeginConnect? {
      ConnectChanges(config, s, e.call, e.request, e.token, e.freshToken);
      ConnectUse(config, s, c, e.request, e.token, e.freshToken);
    }
  }

  lemma ConnectIsNoWrite(config: Config, request: Request)
    ensures WriteAccepted(config, ConnectTarget, request)
  {}

  /** An event never changes the use of a call that goes on. */
  lemma UseKept(config: Config, s: State, e: Event, c: CallId)
    requires Step(config, s, e).Some? && c in s.calls
    requires var t := Step(config, s, e).value; c in t.calls && UseOf(t.calls[c]).Some?
    ensures UseOf(s.calls[c]) == UseOf(Step(config, s, e).value.calls[c])
  {
    hide EvaluateCall, Reserve, Release, WriteAccepted, IsSessionTool;
  }

  lemma CallsStayGood(config: Config, s: State, e: Event)
    requires AuthInv(config, s) && Step(config, s, e).Some?
    ensures CallsGood(config, Step(config, s, e).value)
  {
    hide Step, UseGood, StoreGood, Extends;
    var t := Step(config, s, e).value;
    StepExtends(config, s, e);
    forall c | c in t.calls && UseOf(t.calls[c]).Some? ensures UseGood(config, t, c, UseOf(t.calls[c]).value) {
      if c in s.calls {
        UseKept(config, s, e, c);
        UseStaysGood(config, s, t, c, UseOf(t.calls[c]).value);
      } else {
        NewUse(config, s, e, c);
      }
    }
  }

  /** The executed log grows only by the call of the event, with the use that call has. */
  lemma LogGrows(config: Config, s: State, e: Event)
    requires Step(config, s, e).Some?
    ensures var t := Step(config, s, e).value;
      || t.executed == s.executed
      || (exists c, use ::
            && t.executed == s.executed + [Execution(c, use)] && c in t.calls && UseOf(t.calls[c]) == Some(use)
            && (c in s.calls ==> s.calls[c].Authorized?))
    ensures var t := Step(config, s, e).value;
      forall c :: c in s.calls && !s.calls[c].Authorized? ==> c in t.calls && !t.calls[c].Authorized?
    ensures var t := Step(config, s, e).value;
      |t.executed| > |s.executed| ==> !t.calls[t.executed[|s.executed|].call].Authorized?
  {
    hide EvaluateCall, Release, WriteAccepted, IsSessionTool, Evaluate;
    var t := Step(config, s, e).value;
    if t.executed != s.executed {
      var c := e.call;
      assert t.executed == s.executed + [Execution(c, UseOf(t.calls[c]).value)];
    }
  }

  lemma ExecutedStaysGood(config: Config, s: State, e: Event)
    requires AuthInv(config, s) && Step(config, s, e).Some?
    ensures ExecutedGood(config, Step(config, s, e).value)
  {
    hide Step, UseGood, StoreGood, Extends;
    var t := Step(config, s, e).value;
    StepExtends(config, s, e);
    CallsStayGood(config, s, e);
    LogGrows(config, s, e);
    forall i | 0 <= i < |t.executed|
      ensures UseGood(config, t, t.executed[i].call, t.executed[i].use)
      ensures t.executed[i].call in t.calls && !t.calls[t.executed[i].call].Authorized?
    {
      if i < |s.executed| {
        assert t.executed[i] == s.executed[i];
        UseStaysGood(config, s, t, s.executed[i].call, s.executed[i].use);
      }
    }
  }

  lemma AuthKept(config: Config, s: State, e: Event)
    requires AuthInv(config, s) && Step(config, s, e).Some?
    ensures AuthInv(config, Step(config, s, e).value)
  {
    hide Step;
    StepExtends(config, s, e);
    CallsStayGood(config, s, e);
    ExecutedStaysGood(config, s, e);
  }
}
