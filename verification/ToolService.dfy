/** The parts of mcp_server/service.py and sessions/manager.py that every tool call goes through: the session table,
    the policy decision with its one-time token, and the reservation of a slot around the call. */
module ToolService {
  import opened Basics
  import opened Policy
  import opened Confirmation
  import opened Hex
  import opened HexText
  import opened Limits

  datatype Config = Config(
    mode: PermissionLevel,
    targetClass: TargetClass,
    memoryWriteEnabled: bool,
    allowlist: set<Operation>,
    ttlSeconds: int,
    hasSessionFactory: bool,
    limits: ResourceLimits)

  // ----- session table -----

  class SessionManager<Session> {
    var sessions: map<string, Session>

    constructor ()
      ensures sessions == map[]
    {
      sessions := map[];
    }

    method Add(id: string, session: Session)
      modifies this
      ensures sessions == old(sessions)[id := session]
    {
      sessions := sessions[id := session];
    }

    method Get(id: string) returns (r: Option<Session>)
      ensures r == if id in sessions then Some(sessions[id]) else None
    {
      r := if id in sessions then Some(sessions[id]) else None;
    }

    /** An unknown id raises and changes nothing. */
    method Remove(id: string) returns (r: Option<Session>)
      modifies this
      ensures r == if id in old(sessions) then Some(old(sessions)[id]) else None
      ensures sessions == old(sessions) - {id}
    {
      if id !in sessions { return None; }
      r := Some(sessions[id]);
      sessions := sessions - {id};
    }
  }

  // ----- reservations -----

  datatype Counters = Counters(active: int, perSession: map<string, int>)

  function CountOf(perSession: map<string, int>, id: string): int {
    if id in perSession then perSession[id] else 0
  }

  /** `_try_reserve_operation`: the counters afterwards, or nothing when a limit is reached. */
  function Reserve(limits: ResourceLimits, c: Counters, id: Option<string>): Option<Counters> {
    if !limits.ToolConcurrencyOk(c.active) then None
    else match id
      case None => Some(c.(active := c.active + 1))
      case Some(s) =>
        var n := CountOf(c.perSession, s);
        if !limits.SessionOperationsOk(n) then None
        else Some(Counters(c.active + 1, c.perSession[s := n + 1]))
  }

  /** `_release_operation`, with its clamp at zero. */
  function Release(c: Counters, id: Option<string>): Counters {
    var active := if c.active - 1 > 0 then c.active - 1 else 0;
    match id
    case None => Counters(active, c.perSession)
    case Some(s) =>
      var n := CountOf(c.perSession, s);
      Counters(active, if n <= 1 then c.perSession - {s} else c.perSession[s := n - 1])
  }

  /** Releasing undoes reserving. */
  lemma ReleaseUndoesReserve(limits: ResourceLimits, c: Counters, id: Option<string>)
    requires c.active >= 0 && (forall s :: s in c.perSession ==> c.perSession[s] >= 1)
    requires Reserve(limits, c, id).Some?
    ensures Release(Reserve(limits, c, id).value, id) == c
  {
    if id.Some? {
      var m := Reserve(limits, c, id).value.perSession;
      if id.value in c.perSession {
        assert m[id.value := c.perSession[id.value]] == c.perSession;
      } else {
        assert m - {id.value} == c.perSession;
      }
    }
  }

  /** The sum of all per-session counters. */
  ghost function Sum(m: map<string, int>): int
    decreases |m|
  {
    if m == map[] then 0 else
    var k :| k in m;
    m[k] + Sum(m - {k})
  }

  lemma {:induction false} SumWithout(m: map<string, int>, k: string)
    requires k in m
    ensures Sum(m) == m[k] + Sum(m - {k})
    decreases |m|
  {
    var j :| j in m && Sum(m) == m[j] + Sum(m - {j});
    if j != k {
      SumWithout(m - {j}, k);
      SumWithout(m - {k}, j);
      assert m - {j} - {k} == m - {k} - {j};
    }
  }

  lemma SumUpdate(m: map<string, int>, k: string, n: int)
    ensures Sum(m[k := n]) == Sum(m) - CountOf(m, k) + n
  {
    SumWithout(m[k := n], k);
    assert m[k := n] - {k} == m - {k};
    if k in m { SumWithout(m, k); } else { assert m - {k} == m; }
  }

  // ----- decisions -----

  function RequestFor(config: Config, operation: Operation, token: Option<string>): PolicyRequest {
    PolicyRequest(config.mode, operation, config.targetClass, false, config.memoryWriteEnabled, token, config.allowlist)
  }

  /** `_evaluate`: a token that is presented is consumed; one that does not authorize the call denies it, and the policy
      only ever sees tokens that do. */
  function EvaluateCall(config: Config, records: Records, now: real, operation: Operation, request: Request,
                        token: Option<string>): (Decision, Records)
  {
    match token
    case None => (Evaluate(RequestFor(config, operation, None)), records)
    case Some(t) =>
      (if Authorizes(records, t, operation, request, now) then Evaluate(RequestFor(config, operation, token))
       else Decision(Deny, ConfirmRequired, TokenRejected),
       records - {t})
  }

  /** The tokens a call presents. */
  function Shown(token: Option<string>): set<string> {
    if token.Some? then {token.value} else {}
  }

  /** The decision about a call, from the configuration, the token and the stored tokens alone. */
  lemma DecisionExactly(config: Config, records: Records, now: real, operation: Operation, request: Request,
                        token: Option<string>)
    ensures var (d, left) := EvaluateCall(config, records, now, operation, request, token);
      var badToken := token.Some? && !Authorizes(records, token.value, operation, request, now);
      var shown := token.Some? && token.value != "";
      var changes := operation !in {ReadRegisters, ReadMemory, DebugSnapshot, AnalyzeFault, CompareSnapshots,
                                    ExplainCurrentState, InspectPeripheral, SuggestNextDebugSteps};
      var write := operation == WriteMemory;
      var production := config.targetClass == ProductionHardware;
      var open := config.targetClass !in {LabHardware, ProductionHardware} || operation in config.allowlist;
      var askedOnProduction := operation in {DisconnectTarget, Halt, Resume, StepInstruction, ResetTarget};
      var confirm := changes &&
        match config.mode
        case ReadOnly => true
        case ConfirmRequired => write || production || !shown
        case FullControl => !shown && (write || (production && askedOnProduction));
      && left == records - Shown(token)
      && (!badToken ==> d == Evaluate(PolicyRequest(config.mode, operation, config.targetClass, false,
                                                    config.memoryWriteEnabled, token, config.allowlist)))
      && (if badToken then d == Decision(Deny, ConfirmRequired, TokenRejected)
          else if changes && !open then d.kind == Deny && d.reason == InterlockClosed
          else if write && !config.memoryWriteEnabled then d.kind == Deny && d.reason == WritesDisabled
          else if write && production && config.mode == FullControl then
            d.kind == Deny && d.reason == ProductionWritesDenied
          else if confirm then d.kind == RequireConfirmation
          else d.kind == Allow)
  {
    hide Authorizes, Evaluate;
    DecisionTable(RequestFor(config, operation, token));
    EveryOperationIsClassified(operation);
  }

  datatype ToolError =
    | ConfirmationRequired(token: string)
    | InvalidConfirmationToken
    | PermissionDenied(reason: Reason)
    | SessionNotFound
    | ResourceLimitExceeded
    | ToolExecutionFailed
    | ValidationFailed
    | SessionFactoryUnavailable

  class Service {
    const config: Config
    const store: ConfirmationTokenStore
    var activeToolCalls: int
    var activeSessionOperations: map<string, int>

    constructor (config: Config)
      ensures this.config == config && fresh(store) && store.ttlSeconds == config.ttlSeconds && store.records == map[]
      ensures Count() == Counters(0, map[])
    {
      this.config := config;
      store := new ConfirmationTokenStore(config.ttlSeconds);
      activeToolCalls := 0;
      activeSessionOperations := map[];
    }

    function Count(): Counters
      reads this
    {
      Counters(activeToolCalls, activeSessionOperations)
    }

    method TryReserveOperation(id: Option<string>) returns (granted: bool)
      modifies this
      ensures granted <==>
        && old(activeToolCalls) < config.limits.maxConcurrentToolCalls
        && (id.Some? ==> CountOf(old(activeSessionOperations), id.value) < config.limits.maxSessionOperations)
      ensures activeToolCalls == if granted then old(activeToolCalls) + 1 else old(activeToolCalls)
      ensures activeSessionOperations ==
        if granted && id.Some?
        then old(activeSessionOperations)[id.value := CountOf(old(activeSessionOperations), id.value) + 1]
        else old(activeSessionOperations)
      ensures granted <==> Reserve(config.limits, old(Count()), id).Some?
      ensures granted ==> Count() == Reserve(config.limits, old(Count()), id).value
    {
      if !config.limits.ToolConcurrencyOk(activeToolCalls) { return false; }
      if id.Some? {
        var sessionActive := CountOf(activeSessionOperations, id.value);
        if !config.limits.SessionOperationsOk(sessionActive) { return false; }
        activeSessionOperations := activeSessionOperations[id.value := sessionActive + 1];
      }
      activeToolCalls := activeToolCalls + 1;
      granted := true;
    }

    method ReleaseOperation(id: Option<string>)
      modifies this
      ensures Count() == Release(old(Count()), id)
      ensures activeToolCalls == if old(activeToolCalls) >= 1 then old(activeToolCalls) - 1 else 0
      ensures id == None ==> activeSessionOperations == old(activeSessionOperations)
      ensures id.Some? ==>
        activeSessionOperations ==
        if CountOf(old(activeSessionOperations), id.value) >= 2
        then old(activeSessionOperations)[id.value := old(activeSessionOperations)[id.value] - 1]
        else old(activeSessionOperations) - {id.value}
    {
      activeToolCalls := if activeToolCalls - 1 > 0 then activeToolCalls - 1 else 0;
      if id == None { return; }
      var sessionActive := CountOf(activeSessionOperations, id.value);
      if sessionActive <= 1 {
        activeSessionOperations := activeSessionOperations - {id.value};
      } else {
        activeSessionOperations := activeSessionOperations[id.value := sessionActive - 1];
      }
    }

    method EvaluateOperation(operation: Operation, request: Request, token: Option<string>, now: real)
      returns (decision: Decision)
      modifies store
      ensures (decision, store.records) == EvaluateCall(config, old(store.records), now, operation, request, token)
    {
      var validated: Option<string> := None;
      if token.Some? {
        var verified := store.Verify(token.value, operation, request, now);
        if verified.Failure? { return Decision(Deny, ConfirmRequired, TokenRejected); }
        validated := token;
      }
      decision := Evaluate(RequestFor(config, operation, validated));
    }

    /** Only a refusal that asks for confirmation hands out a token, bound to the refused operation and request. */
    method PolicyFailure(decision: Decision, operation: Operation, request: Request, freshToken: string, now: real)
      returns (error: ToolError)
      requires decision.kind != Allow
      modifies store
      ensures error == ConfirmationRequired(freshToken) <==> decision.kind == RequireConfirmation
      ensures error == InvalidConfirmationToken <==> decision.kind == Deny && decision.reason == TokenRejected
      ensures error.PermissionDenied? <==> decision.kind == Deny && decision.reason != TokenRejected
      ensures error.PermissionDenied? ==> error.reason == decision.reason
      ensures decision.kind == RequireConfirmation ==>
        && store.records == old(store.records)[
             freshToken := Confirmed(operation, FingerprintOf(request), now + store.ttlSeconds as real)]
        && Authorizes(store.records, freshToken, operation, request, now) == (store.ttlSeconds >= 0)
      ensures decision.kind == Deny ==> store.records == old(store.records)
    {
      if decision.kind == RequireConfirmation {
        store.Issue(operation, request, freshToken, now);
        return ConfirmationRequired(freshToken);
      }
      error := if decision.reason == TokenRejected then InvalidConfirmationToken else PermissionDenied(decision.reason);
    }

    /** The checks of `write_memory` on its data, before the token is looked at. */
    method CheckWrite(dataHex: string) returns (error: Option<ToolError>)
      ensures error == Some(ValidationFailed) <==> !IsHexText(dataHex)
      ensures error == Some(ResourceLimitExceeded) <==>
        IsHexText(dataHex) && |NoSpaces(dataHex)| / 2 > config.limits.maxMemoryWriteBytes
      ensures error == None <==>
        IsHexText(dataHex) && |NoSpaces(dataHex)| / 2 <= config.limits.maxMemoryWriteBytes
    {
      hide FromHex, IsHexText, NoSpaces;
      RejectedExactly(dataHex);
      DecodedLength(dataHex);
      var data := FromHex(dataHex);
      if data == None { return Some(ValidationFailed); }
      if !config.limits.MemoryWriteOk(|data.value|) { return Some(ResourceLimitExceeded); }
      error := None;
    }

    /** `connect_target` for one call running alone: the session limit and the missing factory refuse it before the
        token is looked at. `connected` is the id of the session when creating and connecting it succeed. */
    method ConnectTarget(sessions: SessionManager<()>, request: Request, token: Option<string>, now: real,
                         freshToken: string, connected: Option<string>)
      returns (r: Result<(), ToolError>)
      modifies store, sessions
      ensures
        var full := |old(sessions.sessions)| >= config.limits.maxSessions;
        var badToken :=
          token.Some? && !Authorizes(old(store.records), token.value, Operation.ConnectTarget, request, now);
        var open :=
          config.targetClass !in {LabHardware, ProductionHardware} || Operation.ConnectTarget in config.allowlist;
        var confirm :=
          || config.mode == ReadOnly
          || (config.mode == ConfirmRequired
              && (config.targetClass == ProductionHardware || token == None || token == Some("")));
        var passed := !full && config.hasSessionFactory && !badToken && open;
        && r == (if full then Failure(ResourceLimitExceeded)
                 else if !config.hasSessionFactory then Failure(SessionFactoryUnavailable)
                 else if badToken then Failure(InvalidConfirmationToken)
                 else if !open then Failure(PermissionDenied(InterlockClosed))
                 else if confirm then Failure(ConfirmationRequired(freshToken))
                 else if connected == None then Failure(ToolExecutionFailed)
                 else Success(()))
        && sessions.sessions ==
             (if r.Success? then old(sessions.sessions)[connected.value := ()] else old(sessions.sessions))
        && store.records ==
             (if full || !config.hasSessionFactory then old(store.records)
              else if passed && confirm then (old(store.records) - Shown(token))[freshToken :=
                Confirmed(Operation.ConnectTarget, FingerprintOf(request), now + store.ttlSeconds as real)]
              else old(store.records) - Shown(token))
    {
      hide Authorizes, Evaluate, FingerprintOf;
      if !config.limits.SessionCountOk(|sessions.sessions|) { return Failure(ResourceLimitExceeded); }
      if !config.hasSessionFactory { return Failure(SessionFactoryUnavailable); }
      DecisionExactly(config, store.records, now, Operation.ConnectTarget, request, token);
      var decision := EvaluateOperation(Operation.ConnectTarget, request, token, now);
      if decision.kind != Allow {
        var error := PolicyFailure(decision, Operation.ConnectTarget, request, freshToken, now);
        return Failure(error);
      }
      if connected == None { return Failure(ToolExecutionFailed); }
      sessions.Add(connected.value, ());
      r := Success(());
    }

    /** `_with_session` for one call running alone. `call` says whether the session operation returns or raises; on
        every path the reservation is given back. */
    method WithSession(sessions: SessionManager<()>, operation: Operation, request: Request, token: Option<string>,
                       now: real, freshToken: string, call: bool)
      returns (r: Result<(), ToolError>, executed: bool)
      requires activeToolCalls >= 0 && forall s :: s in activeSessionOperations ==> activeSessionOperations[s] >= 1
      modifies this, store
      ensures Count() == old(Count())
      ensures
        var badToken := token.Some? && !Authorizes(old(store.records), token.value, operation, request, now);
        var shown := token.Some? && token.value != "";
        var changes := operation !in {ReadRegisters, ReadMemory, DebugSnapshot, AnalyzeFault, CompareSnapshots,
                                      ExplainCurrentState, InspectPeripheral, SuggestNextDebugSteps};
        var write := operation == WriteMemory;
        var production := config.targetClass == ProductionHardware;
        var open := config.targetClass !in {LabHardware, ProductionHardware} || operation in config.allowlist;
        var askedOnProduction := operation in {DisconnectTarget, Halt, Resume, StepInstruction, ResetTarget};
        var confirm := changes &&
          match config.mode
          case ReadOnly => true
          case ConfirmRequired => write || production || !shown
          case FullControl => !shown && (write || (production && askedOnProduction));
        var listed := request.sessionId in sessions.sessions;
        var slot :=
          && old(activeToolCalls) < config.limits.maxConcurrentToolCalls
          && CountOf(old(activeSessionOperations), request.sessionId) < config.limits.maxSessionOperations;
        var asks := !badToken && open && confirm && (write ==> config.memoryWriteEnabled)
          && !(write && production && config.mode == FullControl);
        && r == (if badToken then Failure(InvalidConfirmationToken)
                 else if changes && !open then Failure(PermissionDenied(InterlockClosed))
                 else if write && !config.memoryWriteEnabled then Failure(PermissionDenied(WritesDisabled))
                 else if write && production && config.mode == FullControl then
                   Failure(PermissionDenied(ProductionWritesDenied))
                 else if confirm then Failure(ConfirmationRequired(freshToken))
                 else if !listed then Failure(SessionNotFound)
                 else if !slot then Failure(ResourceLimitExceeded)
                 else if call then Success(())
                 else Failure(ToolExecutionFailed))
        && executed == (r.Success? || r == Failure(ToolExecutionFailed))
        && store.records ==
             (if asks then (old(store.records) - Shown(token))[freshToken :=
                Confirmed(operation, FingerprintOf(request), now + store.ttlSeconds as real)]
              else old(store.records) - Shown(token))
    {
      hide Authorizes, Evaluate, FingerprintOf;
      ghost var before := Count();
      executed := false;
      DecisionExactly(config, store.records, now, operation, request, token);
      var decision := EvaluateOperation(operation, request, token, now);
      if decision.kind != Allow {
        var error := PolicyFailure(decision, operation, request, freshToken, now);
        return Failure(error), false;
      }
      var session := sessions.Get(request.sessionId);
      if session == None { return Failure(SessionNotFound), false; }
      var granted := TryReserveOperation(Some(request.sessionId));
      if !granted { return Failure(ResourceLimitExceeded), false; }
      executed := true;
      ReleaseOperation(Some(request.sessionId));
      ReleaseUndoesReserve(config.limits, before, Some(request.sessionId));
      r := if call then Success(()) else Failure(ToolExecutionFailed);
    }
  }
}
