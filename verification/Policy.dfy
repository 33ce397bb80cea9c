/** The permission policy of safety/policy.py. */
module Policy {
  import opened Basics

  datatype PermissionLevel = ReadOnly | ConfirmRequired | FullControl

  datatype Operation =
    | ConnectTarget | DisconnectTarget | Halt | Resume | StepInstruction | ResetTarget
    | ReadRegisters | ReadMemory | WriteMemory | SetBreakpoint | ClearBreakpoint
    | DebugSnapshot | AnalyzeFault | CompareSnapshots | ExplainCurrentState
    | InspectPeripheral | SuggestNextDebugSteps

  datatype TargetClass = Emulator | DevelopmentHardware | LabHardware | ProductionHardware | UnknownTarget

  datatype DecisionKind = Allow | Deny | RequireConfirmation

  /** Why a decision was taken; `TokenRejected` is the service's own denial of a bad confirmation token. */
  datatype Reason =
    | ReadOnlyAllowed | UnsupportedOperation | InterlockClosed
    | ProductionNeedsFullControl | ProductionNeedsToken | ChangeNeedsConfirmation | TokenAccepted
    | ChangeNeedsToken | FullControlAllows
    | WritesDisabled | WritesNeedFullControl | ProductionWritesDenied | WritesNeedToken | WriteAllowed
    | TokenRejected

  datatype Decision = Decision(kind: DecisionKind, required: PermissionLevel, reason: Reason)

  datatype PolicyRequest = PolicyRequest(
    mode: PermissionLevel,
    operation: Operation,
    targetClass: TargetClass,
    productionTarget: bool,
    memoryWriteEnabled: bool,
    token: Option<string>,
    allowlist: set<Operation>)

  const READ_ONLY_OPERATIONS := {
    ReadRegisters, ReadMemory, AnalyzeFault, CompareSnapshots, DebugSnapshot, ExplainCurrentState,
    InspectPeripheral, SuggestNextDebugSteps}

  const TARGET_CHANGING_OPERATIONS := {
    ConnectTarget, DisconnectTarget, Halt, Resume, StepInstruction, ResetTarget, SetBreakpoint, ClearBreakpoint}

  const PRODUCTION_CONFIRMATION_OPERATIONS := {
    DisconnectTarget, Halt, Resume, StepInstruction, ResetTarget, WriteMemory}

  /** `request.confirmation_token` is truthy. */
  predicate HasToken(r: PolicyRequest) {
    r.token.Some? && r.token.value != ""
  }

  function Evaluate(r: PolicyRequest): Decision {
    if r.operation == WriteMemory then EvaluateMemoryWrite(r)
    else if r.operation in READ_ONLY_OPERATIONS then Decision(Allow, ReadOnly, ReadOnlyAllowed)
    else if r.operation in TARGET_CHANGING_OPERATIONS then EvaluateTargetChanging(r)
    else Decision(Deny, FullControl, UnsupportedOperation)
  }

  predicate InterlockBlocks(r: PolicyRequest) {
    (r.targetClass == LabHardware || r.targetClass == ProductionHardware) && r.operation !in r.allowlist
  }

  function EvaluateTargetChanging(r: PolicyRequest): Decision {
    var production := r.productionTarget || r.targetClass == ProductionHardware;
    if InterlockBlocks(r) then Decision(Deny, FullControl, InterlockClosed)
    else if production && r.mode != FullControl then
      Decision(RequireConfirmation, FullControl, ProductionNeedsFullControl)
    else if production && r.operation in PRODUCTION_CONFIRMATION_OPERATIONS && !HasToken(r) then
      Decision(RequireConfirmation, FullControl, ProductionNeedsToken)
    else if r.mode == ReadOnly then Decision(RequireConfirmation, ConfirmRequired, ChangeNeedsConfirmation)
    else if r.mode == ConfirmRequired then
      (if HasToken(r) then Decision(Allow, ConfirmRequired, TokenAccepted)
       else Decision(RequireConfirmation, ConfirmRequired, ChangeNeedsToken))
    else Decision(Allow, FullControl, FullControlAllows)
  }

  function EvaluateMemoryWrite(r: PolicyRequest): Decision {
    if InterlockBlocks(r) then Decision(Deny, FullControl, InterlockClosed)
    else if !r.memoryWriteEnabled then Decision(Deny, FullControl, WritesDisabled)
    else if r.mode != FullControl then Decision(RequireConfirmation, FullControl, WritesNeedFullControl)
    else if r.targetClass == ProductionHardware then Decision(Deny, FullControl, ProductionWritesDenied)
    else if !HasToken(r) then Decision(RequireConfirmation, FullControl, WritesNeedToken)
    else Decision(Allow, FullControl, WriteAllowed)
  }

  // ----- what the policy guarantees -----

  predicate Changes(operation: Operation) {
    operation in TARGET_CHANGING_OPERATIONS || operation == WriteMemory
  }

  lemma EveryOperationIsClassified(operation: Operation)
    ensures operation in READ_ONLY_OPERATIONS <==> !Changes(operation)
  {}

  /** The whole decision for every request: the condition of each reason, and what the reason decides. */
  lemma DecisionTable(r: PolicyRequest)
    ensures var d := Evaluate(r);
      var changing := r.operation in {ConnectTarget, DisconnectTarget, Halt, Resume, StepInstruction, ResetTarget,
                                      SetBreakpoint, ClearBreakpoint};
      var write := r.operation == WriteMemory;
      var closed := r.targetClass in {LabHardware, ProductionHardware} && r.operation !in r.allowlist;
      var production := r.productionTarget || r.targetClass == ProductionHardware;
      var askedOnProduction := r.operation in {DisconnectTarget, Halt, Resume, StepInstruction, ResetTarget};
      var shown := r.token.Some? && r.token.value != "";
      var refused := production && (r.mode != FullControl || (askedOnProduction && !shown));
      && (d.reason == ReadOnlyAllowed <==>
            r.operation in {ReadRegisters, ReadMemory, DebugSnapshot, AnalyzeFault, CompareSnapshots,
                            ExplainCurrentState, InspectPeripheral, SuggestNextDebugSteps})
      && (d.reason == InterlockClosed <==> (changing || write) && closed)
      && (d.reason == ProductionNeedsFullControl <==>
            changing && !closed && production && r.mode != FullControl)
      && (d.reason == ProductionNeedsToken <==>
            changing && !closed && production && r.mode == FullControl && askedOnProduction && !shown)
      && (d.reason == ChangeNeedsConfirmation <==> changing && !closed && !refused && r.mode == ReadOnly)
      && (d.reason == ChangeNeedsToken <==> changing && !closed && !refused && r.mode == ConfirmRequired && !shown)
      && (d.reason == TokenAccepted <==> changing && !closed && !refused && r.mode == ConfirmRequired && shown)
      && (d.reason == FullControlAllows <==> changing && !closed && !refused && r.mode == FullControl)
      && (d.reason == WritesDisabled <==> write && !closed && !r.memoryWriteEnabled)
      && (d.reason == WritesNeedFullControl <==> write && !closed && r.memoryWriteEnabled && r.mode != FullControl)
      && (d.reason == ProductionWritesDenied <==>
            write && !closed && r.memoryWriteEnabled && r.mode == FullControl && r.targetClass == ProductionHardware)
      && (d.reason == WritesNeedToken <==>
            && write && !closed && r.memoryWriteEnabled && r.mode == FullControl
            && r.targetClass != ProductionHardware && !shown)
      && (d.reason == WriteAllowed <==>
            && write && !closed && r.memoryWriteEnabled && r.mode == FullControl
            && r.targetClass != ProductionHardware && shown)
    ensures var d := Evaluate(r);
      && d.reason !in {UnsupportedOperation, TokenRejected}
      && (d.kind == Allow <==> d.reason in {ReadOnlyAllowed, TokenAccepted, FullControlAllows, WriteAllowed})
      && (d.kind == Deny <==> d.reason in {InterlockClosed, WritesDisabled, ProductionWritesDenied})
      && (d.required == ReadOnly <==> d.reason == ReadOnlyAllowed)
      && (d.required == ConfirmRequired <==> d.reason in {ChangeNeedsConfirmation, ChangeNeedsToken, TokenAccepted})
  {
    EveryOperationIsClassified(r.operation);
  }

  /** The cases in which the documentation asks for a confirmation token. */
  predicate NeedsToken(r: PolicyRequest) {
    || r.operation == WriteMemory
    || (r.operation in TARGET_CHANGING_OPERATIONS
        && (r.mode == ConfirmRequired
            || ((r.productionTarget || r.targetClass == ProductionHardware)
                && r.operation in PRODUCTION_CONFIRMATION_OPERATIONS)))
  }

  /** What is allowed: read-only operations always; changes only outside readonly mode, through an open interlock,
      with a token where one is needed, and on production targets only in full control; writes only when enabled, in
      full control, and never on production hardware. */
  lemma AllowedExactly(r: PolicyRequest)
    ensures Evaluate(r).kind == Allow <==>
      || !Changes(r.operation)
      || (&& r.mode != ReadOnly && !InterlockBlocks(r)
          && (NeedsToken(r) ==> HasToken(r))
          && (r.productionTarget || r.targetClass == ProductionHardware ==>
                r.mode == FullControl || (r.operation == WriteMemory && r.targetClass != ProductionHardware))
          && (r.operation == WriteMemory ==>
                r.memoryWriteEnabled && r.mode == FullControl && r.targetClass != ProductionHardware))
  {
    EveryOperationIsClassified(r.operation);
  }

  /** What is denied outright: changes through a closed interlock, writes while they are disabled, and full-control
      writes on production hardware. Everything else that is not allowed asks for confirmation. */
  lemma DeniedExactly(r: PolicyRequest)
    ensures Evaluate(r).kind == Deny <==>
      && Changes(r.operation)
      && (|| InterlockBlocks(r)
          || (r.operation == WriteMemory
              && (!r.memoryWriteEnabled || (r.mode == FullControl && r.targetClass == ProductionHardware))))
  {
    EveryOperationIsClassified(r.operation);
  }

  /** A decision depends on the token only through whether there is one, and having one never hurts. */
  lemma TokenOnlyHelps(r: PolicyRequest, token: Option<string>)
    requires Evaluate(r).kind == Allow
    requires HasToken(r) ==> HasToken(r.(token := token))
    ensures Evaluate(r.(token := token)).kind == Allow
  {
    AllowedExactly(r);
    AllowedExactly(r.(token := token));
  }

  function Rank(mode: PermissionLevel): nat {
    match mode case ReadOnly => 0 case ConfirmRequired => 1 case FullControl => 2
  }

  /** A higher permission level never loses an operation. */
  lemma HigherLevelsAllowMore(r: PolicyRequest, mode: PermissionLevel)
    requires Evaluate(r).kind == Allow && Rank(r.mode) <= Rank(mode)
    ensures Evaluate(r.(mode := mode)).kind == Allow
  {
    AllowedExactly(r);
    AllowedExactly(r.(mode := mode));
  }

  /** A refusal that hands out a token is worth confirming only in some modes: retrying with a token is allowed exactly
      when the level is already high enough. In readonly mode the token that was handed out can never be used. */
  lemma RetryHelpsExactly(r: PolicyRequest, token: string)
    requires Evaluate(r).kind == RequireConfirmation && token != ""
    ensures Evaluate(r.(token := Some(token))).kind == Allow
      <==> (r.mode == FullControl
            || (r.mode == ConfirmRequired && r.operation != WriteMemory
                && !r.productionTarget && r.targetClass != ProductionHardware))
  {}
}
