/** What holds in every run of the service: authorization, conservation of reservations, and the session cap. */
module ServiceGuarantees {
  import opened Basics
  import opened Policy
  import opened Confirmation
  import Hex
  import opened HexText
  import opened ToolService
  import opened ServiceRuns

  // ----- authorization -----

  lemma {:induction false} RunKeepsAuth(config: Config, s: State, events: seq<Event>)
    requires AuthInv(config, s) && Run(config, s, events).Some?
    ensures AuthInv(config, Run(config, s, events).value)
    decreases |events|
  {
    hide Step, AuthInv;
    if events != [] {
      AuthKept(config, s, events[0]);
      RunKeepsAuth(config, Step(config, s, events[0]).value, events[1..]);
    }
  }

  /** The token that authorized an execution was issued for it in time, and the executing call itself consumed it. */
  ghost predicate IssuedFor(config: Config, s: State, c: CallId, use: Use) {
    && use.token.Some? && use.token.value in s.issued
    && use.token.value in s.consumed && s.consumed[use.token.value] == c
    && var issue := s.issued[use.token.value];
       && issue.operation == use.operation && issue.fingerprint == FingerprintOf(use.request)
       && issue.at <= use.at <= issue.at + config.ttlSeconds as real
  }

  /** What an executed operation must have behind it: a token issued for it where one is needed; nothing that changes
      the target in readonly mode; and for a memory write also the switch, full control, no production hardware, the
      size limit, and on lab hardware an allowlist entry. */
  ghost predicate ExecutionAuthorized(config: Config, s: State, c: CallId, use: Use) {
    && (NeedsToken(RequestFor(config, use.operation, None)) ==> IssuedFor(config, s, c, use))
    && (config.mode == ReadOnly ==> !Changes(use.operation))
    && (use.operation == WriteMemory ==>
          && config.memoryWriteEnabled && config.mode == FullControl && config.targetClass != ProductionHardware
          && IssuedFor(config, s, c, use)
          && (config.targetClass == LabHardware ==> WriteMemory in config.allowlist)
          && WriteLength(use.request).Some? && WriteLength(use.request).value <= config.limits.maxMemoryWriteBytes)
  }

  lemma UseAuthorized(config: Config, s: State, c: CallId, use: Use)
    requires UseGood(config, s, c, use)
    ensures ExecutionAuthorized(config, s, c, use)
  {
    hide FingerprintOf, Evaluate, WriteLength;
    AllowedExactly(RequestFor(config, use.operation, use.token));
  }

  /** Every execution is authorized, and no two executions used the same token. */
  lemma ExecutionsAuthorized(config: Config, events: seq<Event>, s: State)
    requires Run(config, INITIAL, events) == Some(s)
    ensures forall i :: 0 <= i < |s.executed| ==> ExecutionAuthorized(config, s, s.executed[i].call, s.executed[i].use)
    ensures forall i, j :: 0 <= i < j < |s.executed| && s.executed[i].use.token.Some? ==>
      s.executed[i].use.token != s.executed[j].use.token
  {
    RunKeepsAuth(config, INITIAL, events);
    forall i | 0 <= i < |s.executed|
      ensures ExecutionAuthorized(config, s, s.executed[i].call, s.executed[i].use)
    {
      UseAuthorized(config, s, s.executed[i].call, s.executed[i].use);
    }
  }

  /** Every call that is executing, or past the checks of a connect, is in the log of executions, as the use it is. */
  ghost predicate Logged(s: State) {
    forall c :: c in s.calls && (s.calls[c].Running? || s.calls[c].Connecting?) ==>
      Execution(c, s.calls[c].use) in s.executed
  }

  lemma LogKept(config: Config, s: State, e: Event)
    requires Logged(s) && Step(config, s, e).Some?
    ensures Logged(Step(config, s, e).value)
  {
    hide EvaluateCall, Reserve, Release, WriteAccepted, IsSessionTool, StepBegin, StepBeginConnect;
    match e
    case Begin(c, operation, request, token, freshToken) =>
      BeginChanges(config, s, c, operation, request, token, freshToken);
    case BeginConnect(c, request, token, freshToken) =>
      ConnectChanges(config, s, c, request, token, freshToken);
    case _ =>
  }

  lemma {:induction false} RunKeepsLog(config: Config, s: State, events: seq<Event>)
    requires Logged(s) && Run(config, s, events).Some?
    ensures Logged(Run(config, s, events).value)
    decreases |events|
  {
    hide Step, Logged;
    if events != [] {
      LogKept(config, s, events[0]);
      RunKeepsLog(config, Step(config, s, events[0]).value, events[1..]);
    }
  }

  /** In every run nothing executes without being in the log, so what holds of the log holds of every call that is
      executing: it is authorized. */
  lemma RunningAuthorized(config: Config, events: seq<Event>, s: State, c: CallId)
    requires Run(config, INITIAL, events) == Some(s)
    requires c in s.calls && (s.calls[c].Running? || s.calls[c].Connecting?)
    ensures Execution(c, s.calls[c].use) in s.executed && ExecutionAuthorized(config, s, c, s.calls[c].use)
  {
    hide Step, ExecutionAuthorized;
    RunKeepsLog(config, INITIAL, events);
    ExecutionsAuthorized(config, events, s);
  }

  /** A write is looked at further if and only if its data is hexadecimal text of no more bytes than the limit. */
  lemma WriteAcceptedExactly(config: Config, request: Request)
    ensures WriteAccepted(config, WriteMemory, request) <==>
      match FieldOf(request, "data_hex")
      case Text(hex) => IsHexText(hex) && |NoSpaces(hex)| / 2 <= config.limits.maxMemoryWriteBytes
      case _ => false
  {
    hide Hex.FromHex, IsHexText, NoSpaces, FieldOf;
    var data := FieldOf(request, "data_hex");
    if data.Text? {
      RejectedExactly(data.text);
      DecodedLength(data.text);
    }
  }

  lemma {:induction false} RunExtends(config: Config, s: State, events: seq<Event>)
    requires StoreGood(config, s) && Run(config, s, events).Some?
    ensures StoreGood(config, Run(config, s, events).value) && Extends(s, Run(config, s, events).value)
    decreases |events|
  {
    hide Step, StoreGood;
    if events != [] {
      var t := Step(config, s, events[0]).value;
      StepExtends(config, s, events[0]);
      RunExtends(config, t, events[1..]);
      ExtendsTrans(s, t, Run(config, s, events).value);
    }
  }

  /** A token that a call has consumed, whether or not it was accepted, authorizes nothing in any later state of the
      run, whatever operation, request and moment it is presented for. */
  lemma OneTime(config: Config, before: seq<Event>, s: State, events: seq<Event>, t: State, token: string,
                operation: Operation, request: Request, now: real)
    requires Run(config, INITIAL, before) == Some(s) && token in s.consumed && Run(config, s, events) == Some(t)
    ensures !Authorizes(t.records, token, operation, request, now)
  {
    hide Step;
    RunExtends(config, INITIAL, before);
    RunExtends(config, s, events);
  }

  /** Presenting a stored token consumes it on every path of the call, also when the call is refused. */
  lemma PresentingConsumes(config: Config, s: State, e: Event)
    requires (e.Begin? || e.BeginConnect?) && Step(config, s, e).Some? && e.token.Some? && e.token.value in s.records
    requires e.Begin? ==> WriteAccepted(config, e.operation, e.request)
    requires e.BeginConnect? ==> config.limits.SessionCountOk(|s.sessions|) && config.hasSessionFactory
    ensures e.token.value in Step(config, s, e).value.consumed
  {
    hide Evaluate, FingerprintOf, WriteAccepted, IsSessionTool, Authorizes;
  }

  /** A call that is refused before the decision, for malformed or oversized data, at the session limit or without a
      session factory, ends at once and leaves its token as it was. */
  lemma RefusedEarly(config: Config, s: State, e: Event)
    requires (e.Begin? || e.BeginConnect?) && Step(config, s, e).Some?
    requires e.Begin? ==> !WriteAccepted(config, e.operation, e.request)
    requires e.BeginConnect? ==> |s.sessions| >= config.limits.maxSessions || !config.hasSessionFactory
    ensures Step(config, s, e).value == s.(calls := s.calls[e.call := Ended])
  {
    hide Evaluate, FingerprintOf, WriteAccepted, IsSessionTool, Authorizes;
  }

  /** How far a call gets: a tool call is authorized exactly when its data is accepted, the decision allows it and its
      session is listed; it then runs exactly when both limits leave it a slot; and a connect starts exactly below the
      session limit, with a session factory, when the decision allows it. */
  lemma ProgressExactly(config: Config, s: State, e: Event)
    requires (e.Begin? || e.BeginConnect? || e.TakeSlot?) && Step(config, s, e).Some?
    ensures var after := Step(config, s, e).value.calls[e.call];
      match e
      case Begin(c, operation, request, token, _) =>
        after ==
        if WriteAccepted(config, operation, request) && request.sessionId in s.sessions
           && EvaluateCall(config, s.records, s.clock, operation, request, token).0.kind == Allow
        then Authorized(Use(operation, request, token, s.clock)) else Ended
      case BeginConnect(c, request, token, _) =>
        after ==
        if |s.sessions| < config.limits.maxSessions && config.hasSessionFactory
           && EvaluateCall(config, s.records, s.clock, ConnectTarget, request, token).0.kind == Allow
        then Connecting(Use(ConnectTarget, request, token, s.clock)) else Ended
      case TakeSlot(c) =>
        && c in s.calls && s.calls[c].Authorized?
        && after ==
           if s.counters.active < config.limits.maxConcurrentToolCalls
              && CountOf(s.counters.perSession, s.calls[c].use.request.sessionId) < config.limits.maxSessionOperations
           then Running(s.calls[c].use) else Ended
  {
    hide EvaluateCall, WriteAccepted, IsSessionTool, FingerprintOf, CountOf;
  }

  /** No call is ever stuck: one that is authorized can take a slot or be refused one, one that runs can give its slot
      back, and a connect can fail, or finish under any id that is not listed. */
  lemma NeverStuck(config: Config, s: State, c: CallId)
    requires c in s.calls
    ensures Step(config, s, TakeSlot(c)).Some? <==> s.calls[c].Authorized?
    ensures Step(config, s, GiveSlotBack(c)).Some? <==> s.calls[c].Running?
    ensures Step(config, s, FailConnect(c)).Some? <==> s.calls[c].Connecting?
    ensures forall id :: Step(config, s, FinishConnect(c, id)).Some? <==> s.calls[c].Connecting? && id !in s.sessions
    ensures Step(config, s, RemoveSession(c)).Some? <==>
      s.calls[c].Running? && s.calls[c].use.operation == DisconnectTarget
  {
    hide Reserve, Release, CountOf;
  }

  // ----- reservations -----

  ghost function RunningCalls(s: State): set<CallId> {
    set c | c in s.calls && s.calls[c].Running?
  }

  ghost function RunningOn(s: State, id: string): set<CallId> {
    set c | c in s.calls && s.calls[c].Running? && s.calls[c].use.request.sessionId == id
  }

  ghost predicate CountersGood(config: Config, s: State) {
    && s.counters.active == |RunningCalls(s)|
    && (s.counters.active > 0 ==> s.counters.active <= config.limits.maxConcurrentToolCalls)
    && (forall id :: CountOf(s.counters.perSession, id) == |RunningOn(s, id)|)
    && (forall id :: id in s.counters.perSession ==>
          1 <= s.counters.perSession[id] <= config.limits.maxSessionOperations)
    && Sum(s.counters.perSession) == s.counters.active
  }

  /** The same calls are running in both states. */
  ghost predicate SameRunners(s: State, t: State) {
    && (forall c :: c in t.calls && t.calls[c].Running? <==> c in s.calls && s.calls[c].Running?)
    && (forall c :: c in s.calls && s.calls[c].Running? ==> t.calls[c] == s.calls[c])
  }

  /** An event that reserves and releases nothing leaves the running calls alone. */
  lemma OtherEvents(config: Config, s: State, e: Event)
    requires Step(config, s, e).Some? && !e.GiveSlotBack?
    requires e.TakeSlot? ==> Reserve(config.limits, s.counters, Some(s.calls[e.call].use.request.sessionId)) == None
    ensures Step(config, s, e).value.counters == s.counters && SameRunners(s, Step(config, s, e).value)
  {
    hide EvaluateCall, WriteAccepted, IsSessionTool, Reserve, Release, FingerprintOf, CountOf, StepBegin,
      StepBeginConnect;
    match e
    case Begin(c, operation, request, token, freshToken) =>
      BeginChanges(config, s, c, operation, request, token, freshToken);
    case BeginConnect(c, request, token, freshToken) =>
      ConnectChanges(config, s, c, request, token, freshToken);
    case _ =>
  }

  lemma SameRunning(s: State, t: State)
    requires SameRunners(s, t)
    ensures RunningCalls(t) == RunningCalls(s) && forall id :: RunningOn(t, id) == RunningOn(s, id)
  {}

  lemma RunnersAfterTake(s: State, c: CallId, use: Use, id: string)
    requires c in s.calls && !s.calls[c].Running?
    ensures var t := s.(calls := s.calls[c := Running(use)]);
      && RunningCalls(t) == RunningCalls(s) + {c}
      && RunningOn(t, id) == if id == use.request.sessionId then RunningOn(s, id) + {c} else RunningOn(s, id)
  {}

  /** One more call runs, on one session. */
  lemma RunningAfterTake(s: State, c: CallId, use: Use, id: string)
    requires c in s.calls && !s.calls[c].Running?
    ensures var t := s.(calls := s.calls[c := Running(use)]);
      && |RunningCalls(t)| == |RunningCalls(s)| + 1
      && |RunningOn(t, id)| == |RunningOn(s, id)| + (if id == use.request.sessionId then 1 else 0)
  {
    var t := s.(calls := s.calls[c := Running(use)]);
    assert c !in RunningCalls(s) && c !in RunningOn(s, id);
    RunnersAfterTake(s, c, use, id);
    hide RunningCalls, RunningOn;
    assert |RunningCalls(s) + {c}| == |RunningCalls(s)| + 1;
    assert |RunningOn(s, id) + {c}| == |RunningOn(s, id)| + 1;
  }

  lemma SameCalls(s: State, t: State)
    requires s.calls == t.calls
    ensures RunningCalls(s) == RunningCalls(t) && forall id :: RunningOn(s, id) == RunningOn(t, id)
  {}

  lemma CountersAfterTake(config: Config, s: State, c: CallId)
    requires CountersGood(config, s) && c in s.calls && s.calls[c].Authorized?
    requires Reserve(config.limits, s.counters, Some(s.calls[c].use.request.sessionId)).Some?
    ensures CountersGood(config, Step(config, s, TakeSlot(c)).value)
  {
    hide RunningCalls, RunningOn, Sum;
    var t := Step(config, s, TakeSlot(c)).value;
    var use := s.calls[c].use;
    var id := use.request.sessionId;
    SameCalls(s.(calls := s.calls[c := Running(use)]), t);
    forall other ensures CountOf(t.counters.perSession, other) == |RunningOn(t, other)| {
      RunningAfterTake(s, c, use, other);
    }
    RunningAfterTake(s, c, use, id);
    SumUpdate(s.counters.perSession, id, CountOf(s.counters.perSession, id) + 1);
  }

  /** One call less runs. */
  lemma RunningAfterGive(s: State, c: CallId, id: string)
    requires c in s.calls && s.calls[c].Running?
    ensures var t := Ending(s, c);
      && |RunningCalls(t)| == |RunningCalls(s)| - 1
      && |RunningOn(t, id)| == |RunningOn(s, id)| - (if id == s.calls[c].use.request.sessionId then 1 else 0)
  {
    var t := Ending(s, c);
    assert c in RunningCalls(s) && RunningCalls(t) == RunningCalls(s) - {c};
    if id == s.calls[c].use.request.sessionId {
      assert c in RunningOn(s, id) && RunningOn(t, id) == RunningOn(s, id) - {c};
    } else {
      assert RunningOn(t, id) == RunningOn(s, id);
    }
  }

  lemma CountersAfterGive(config: Config, s: State, c: CallId)
    requires CountersGood(config, s) && InPhase(s, c, true)
    ensures CountersGood(config, Step(config, s, GiveSlotBack(c)).value)
    ensures Step(config, s, GiveSlotBack(c)).value.counters.active == s.counters.active - 1
  {
    hide RunningCalls, RunningOn, Sum;
    var t := Step(config, s, GiveSlotBack(c)).value;
    var id := s.calls[c].use.request.sessionId;
    SameCalls(Ending(s, c), t);
    RunningAfterGive(s, c, id);
    forall other ensures CountOf(t.counters.perSession, other) == |RunningOn(t, other)| {
      RunningAfterGive(s, c, other);
    }
    assert id in s.counters.perSession;
    SumWithout(s.counters.perSession, id);
    SumUpdate(s.counters.perSession, id, CountOf(s.counters.perSession, id) - 1);
  }

  lemma CountersKept(config: Config, s: State, e: Event)
    requires CountersGood(config, s) && Step(config, s, e).Some?
    ensures CountersGood(config, Step(config, s, e).value)
  {
    hide Reserve, Release, StepBegin, StepBeginConnect, Sum;
    if e.GiveSlotBack? {
      CountersAfterGive(config, s, e.call);
    } else if e.TakeSlot? && Reserve(config.limits, s.counters, Some(s.calls[e.call].use.request.sessionId)).Some? {
      CountersAfterTake(config, s, e.call);
    } else {
      OtherEvents(config, s, e);
      SameRunning(s, Step(config, s, e).value);
    }
  }

  lemma {:induction false} RunKeepsCounters(config: Config, s: State, events: seq<Event>)
    requires CountersGood(config, s) && Run(config, s, events).Some?
    ensures CountersGood(config, Run(config, s, events).value)
    decreases |events|
  {
    hide Step, CountersGood;
    if events != [] {
      CountersKept(config, s, events[0]);
      RunKeepsCounters(config, Step(config, s, events[0]).value, events[1..]);
    }
  }

  /** The total counter is the number of calls in flight and the sum of the per-session counters, each of these is
      within its limit, the clamp in the release never bites, and no counter is left when no call is in flight. */
  lemma ReservationsConserved(config: Config, events: seq<Event>, s: State)
    requires Run(config, INITIAL, events) == Some(s)
    ensures s.counters.active == |RunningCalls(s)| == Sum(s.counters.perSession)
    ensures s.counters.active > 0 ==> s.counters.active <= config.limits.maxConcurrentToolCalls
    ensures forall id :: CountOf(s.counters.perSession, id) == |RunningOn(s, id)|
    ensures forall id :: id in s.counters.perSession ==>
      1 <= s.counters.perSession[id] <= config.limits.maxSessionOperations
    ensures forall c :: c in RunningCalls(s) ==>
      Release(s.counters, Some(s.calls[c].use.request.sessionId)).active == s.counters.active - 1
    ensures RunningCalls(s) == {} ==> s.counters == Counters(0, map[])
  {
    InitialCounters(config);
    RunKeepsCounters(config, INITIAL, events);
    if RunningCalls(s) == {} {
      forall id ensures id !in s.counters.perSession {
        assert RunningOn(s, id) <= RunningCalls(s);
      }
      assert s.counters.perSession == map[];
    }
  }

  lemma InitialCounters(config: Config)
    ensures CountersGood(config, INITIAL)
  {
    assert RunningCalls(INITIAL) == {};
    assert forall id :: RunningOn(INITIAL, id) == {};
  }

  /** With one operation per session, or one call in all, two calls never run on the same session at once. */
  lemma OnePerSession(config: Config, events: seq<Event>, s: State, c: CallId, d: CallId)
    requires Run(config, INITIAL, events) == Some(s)
    requires config.limits.maxSessionOperations <= 1 || config.limits.maxConcurrentToolCalls <= 1
    requires c in RunningCalls(s) && d in RunningCalls(s)
    requires s.calls[c].use.request.sessionId == s.calls[d].use.request.sessionId
    ensures c == d
  {
    ReservationsConserved(config, events, s);
    var id := s.calls[c].use.request.sessionId;
    if c != d {
      assert {c, d} <= RunningOn(s, id) && {c, d} <= RunningCalls(s);
      SubsetSize({c, d}, RunningOn(s, id));
      SubsetSize({c, d}, RunningCalls(s));
    }
  }

  lemma {:induction false} SubsetSize(a: set<CallId>, b: set<CallId>)
    requires a <= b
    ensures |a| <= |b|
  {
    if a != {} {
      var x :| x in a;
      SubsetSize(a - {x}, b - {x});
    }
  }

  // ----- session cap -----

  ghost function Pending(s: State): set<CallId> {
    set c | c in s.calls && s.calls[c].Connecting?
  }

  /** At most `p` connects are past their count check in any state of the run. */
  ghost predicate AtMostPending(config: Config, s: State, events: seq<Event>, p: nat)
    requires Run(config, s, events).Some?
    decreases |events|
  {
    |Pending(s)| <= p && (events != [] ==> AtMostPending(config, Step(config, s, events[0]).value, events[1..], p))
  }

  function Cap(config: Config, p: nat): int {
    if config.limits.maxSessions - 1 + p > 0 then config.limits.maxSessions - 1 + p else 0
  }

  lemma PendingAfter(s: State, c: CallId, p: Phase)
    ensures var t := s.(calls := s.calls[c := p]);
      Pending(t) == if p.Connecting? then Pending(s) + {c} else Pending(s) - {c}
  {}

  lemma SamePending(s: State, t: State)
    requires s.calls == t.calls
    ensures Pending(s) == Pending(t)
  {}

  /** An event changes the phase of at most one call; only a connect past its count check becomes pending. */
  lemma PhaseChanges(config: Config, s: State, e: Event)
    requires Step(config, s, e).Some?
    ensures var t := Step(config, s, e).value;
      if e.Tick? || e.RemoveSession? then t.calls == s.calls
      else
        && t.calls == s.calls[e.call := t.calls[e.call]]
        && (t.calls[e.call].Connecting? ==> e.BeginConnect? && config.limits.SessionCountOk(|s.sessions|))
        && (e.call in s.calls && s.calls[e.call].Connecting? ==> e.FinishConnect? || e.FailConnect?)
  {
    hide StepBegin, StepBeginConnect, IsSessionTool, Reserve, Release;
    match e
    case Begin(c, operation, request, token, freshToken) =>
      BeginChanges(config, s, c, operation, request, token, freshToken);
    case BeginConnect(c, request, token, freshToken) =>
      ConnectChanges(config, s, c, request, token, freshToken);
    case _ =>
  }

  /** Only finishing a connect adds a session, and only removing one takes it away. */
  lemma SessionsChange(config: Config, s: State, e: Event)
    requires Step(config, s, e).Some?
    ensures |Step(config, s, e).value.sessions| <= |s.sessions| + (if e.FinishConnect? then 1 else 0)
    ensures !e.FinishConnect? && !e.RemoveSession? ==> Step(config, s, e).value.sessions == s.sessions
    ensures e.FinishConnect? ==> Step(config, s, e).value.sessions == s.sessions + {e.session}
    ensures e.RemoveSession? ==>
      e.call in s.calls && s.calls[e.call].Running? && s.calls[e.call].use.operation == DisconnectTarget
      && Step(config, s, e).value.sessions == s.sessions - {s.calls[e.call].use.request.sessionId}
    ensures e.FinishConnect? || e.FailConnect? ==> e.call in Pending(s)
  {
    hide StepBegin, StepBeginConnect, IsSessionTool, Reserve, Release;
    if e.Begin? { BeginChanges(config, s, e.call, e.operation, e.request, e.token, e.freshToken); }
    if e.BeginConnect? { ConnectChanges(config, s, e.call, e.request, e.token, e.freshToken); }
    if e.RemoveSession? {
      var id := s.calls[e.call].use.request.sessionId;
      if id !in s.sessions { assert s.sessions - {id} == s.sessions; }
    }
  }

  lemma CapKept(config: Config, s: State, e: Event, p: nat)
    requires |s.sessions| + |Pending(s)| <= Cap(config, p)
    requires Step(config, s, e).Some? && |Pending(Step(config, s, e).value)| <= p
    ensures var t := Step(config, s, e).value; |t.sessions| + |Pending(t)| <= Cap(config, p)
  {
    hide Step, Pending;
    var t := Step(config, s, e).value;
    PhaseChanges(config, s, e);
    SessionsChange(config, s, e);
    if e.Tick? || e.RemoveSession? {
      SamePending(s, t);
    } else {
      PendingAfter(s, e.call, t.calls[e.call]);
      SamePending(s.(calls := s.calls[e.call := t.calls[e.call]]), t);
      if !(e.FinishConnect? || e.FailConnect? || t.calls[e.call].Connecting?) {
        NotPending(s, e.call);
        assert Pending(s) - {e.call} == Pending(s);
      }
    }
  }

  lemma NotPending(s: State, c: CallId)
    ensures c in Pending(s) <==> c in s.calls && s.calls[c].Connecting?
  {}

  /** Live sessions plus pending connects never exceed max_sessions - 1 + p. */
  lemma {:induction false} CapHolds(config: Config, s: State, events: seq<Event>, p: nat)
    requires Run(config, s, events).Some? && AtMostPending(config, s, events, p)
    requires |s.sessions| + |Pending(s)| <= Cap(config, p)
    ensures var t := Run(config, s, events).value; |t.sessions| + |Pending(t)| <= Cap(config, p)
    decreases |events|
  {
    hide Step, Pending;
    if events != [] {
      var t := Step(config, s, events[0]).value;
      assert AtMostPending(config, t, events[1..], p);
      CapKept(config, s, events[0], p);
      CapHolds(config, t, events[1..], p);
    }
  }
}
