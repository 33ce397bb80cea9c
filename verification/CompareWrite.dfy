/** Compare-before-write on one session. Commands reach GDB through a pipe as lines; GDB handles them in order but at
    any later moment, also after the call that sent them has timed out or been cancelled, and its answers are read in
    order by whoever holds the command lock. Memory changes only when GDB handles a write command, or a line that stands
    behind a line break of a command, of which nothing is assumed. */
module CompareWrite {
  import opened Basics
  import opened Hex
  import opened Limits
  import opened ToolService
  import opened MILines

  type CallId = nat

  type Memory = map<nat, Byte>

  /** Which texts callers put into commands: any, or none that makes a line begin with a number behind the first line of
      a command, or none with line breaks at all. */
  datatype Discipline = AnyText | NoTokenBehind | NoBreaks

  /** The session of interest, the limits, the number that GDB resolves each address text to, and the texts in use. */
  datatype Setup = Setup(
    limits: ResourceLimits, session: string, addresses: map<string, nat>, discipline: Discipline)

  datatype WriteRequest = WriteRequest(address: string, dataHex: string, expectedOldHex: Option<string>)

  datatype WriteData = WriteData(address: string, bytesWritten: nat, verifiedOldValue: bool)

  datatype Operation = Write(request: WriteRequest) | Other

  datatype Command =
    | ReadBytes(address: string, length: nat)
    | WriteBytes(address: string, dataHex: string)
    | Plain(command: MICommands.Command)   // any other command

  /** `data_read_memory_bytes` and `data_write_memory_bytes`. */
  function MICommandOf(c: Command): MICommands.Command {
    match c
    case ReadBytes(address, length) =>
      MICommands.Command(MICommands.DataReadMemoryBytes, [address, Text.DecimalText(length)])
    case WriteBytes(address, hex) => MICommands.Command(MICommands.DataWriteMemoryBytes, [address, hex])
    case Plain(command) => command
  }

  predicate Obeys(d: Discipline, command: MICommands.Command) {
    match d
    case AnyText => true
    case NoTokenBehind => !TokenBehind(command)
    case NoBreaks => !HasBreak(command)
  }

  datatype Answer = Contents(text: string) | Completed | Failed

  /** What a line is to GDB: a whole command, the first line of one that a line break has cut, whose quote is not
      closed, or a line behind it. */
  datatype Task = Do(command: Command) | Cut | Behind

  /** A line on the way to GDB: whose it is, the token in front of it, and what it is. */
  datatype Line = Line(call: CallId, token: Option<nat>, task: Task)

  /** The lines of a command that call `c` writes with a token. */
  function LinesFor(c: CallId, token: nat, command: Command): seq<Line> {
    var texts := CommandLines(MICommandOf(command), token);
    seq(|texts|, i requires 0 <= i < |texts| =>
      Line(c, LeadingToken(texts[i]), if i > 0 then Behind else if |texts| == 1 then Do(command) else Cut))
  }

  /** A phase that awaits a reply knows the line its command begins with. */
  datatype Phase =
    | Started(operation: Operation)                   // holds a slot on the session, nothing awaited
    | AwaitingRead(request: WriteRequest, k: nat)
    | Compared(request: WriteRequest)                 // the old bytes matched, the write is not sent yet
    | AwaitingWrite(request: WriteRequest, k: nat)
    | AwaitingOther(k: nat)
    | Leaving(operation: Operation, result: Option<WriteData>)   // slot not given back yet
    | Ended(operation: Operation, result: Option<WriteData>)

  /** A line GDB has handled: its answer, the memory just before, and how many bytes it stored. */
  datatype Handled = Handled(answer: Answer, before: Memory, stored: nat)

  /** `cursor` is the number of answers that have been read. */
  datatype State = State(
    counters: Counters,
    nextToken: nat,
    holder: Option<CallId>,
    calls: map<CallId, Phase>,
    lines: seq<Line>,
    handled: seq<Handled>,
    cursor: nat,
    memory: Memory)

  function Initial(memory: Memory): State {
    State(Counters(0, map[]), 1, None, map[], [], [], 0, memory)
  }

  datatype Event =
    | Elsewhere(counters: Counters)                  // calls on other sessions take and give back slots; the total
                                                     // stays at least the number of calls on this session
    | Enter(call: CallId, operation: Operation)
    | Send(call: CallId)                             // a memory write sends its next command
    | SendOther(call: CallId, command: MICommands.Command)
    | LoseToken(call: CallId)                        // a write to the pipe fails
    | Read(call: CallId)                             // the holder of the lock reads the next answer
    | Abandon(call: CallId)                          // timeout, error, cancellation; the end of another operation
    | Leave(call: CallId)
    | Handle(stored: nat, answer: Answer, memory: Memory)   // GDB handles the next line

  // ----- memory -----

  predicate ByteAt(memory: Memory, address: nat, byte: Byte) {
    address in memory && memory[address] == byte
  }

  predicate Holds(memory: Memory, base: nat, data: seq<Byte>) {
    forall i: nat :: i < |data| ==> ByteAt(memory, base + i, data[i])
  }

  function Store(memory: Memory, base: nat, data: seq<Byte>): Memory {
    if data == [] then memory else
    var last := |data| - 1;
    Store(memory, base, data[..last])[base + last := data[last]]
  }

  /** Storing bytes makes the memory hold them, and changes nothing else. */
  lemma {:induction false} StoreExact(memory: Memory, base: nat, data: seq<Byte>)
    ensures Holds(Store(memory, base, data), base, data)
    ensures forall a: nat :: a < base || base + |data| <= a ==>
      (a in Store(memory, base, data) <==> a in memory) && (a in memory ==> Store(memory, base, data)[a] == memory[a])
    decreases |data|
  {
    if data != [] {
      var last := |data| - 1;
      var rest := Store(memory, base, data[..last]);
      StoreExact(memory, base, data[..last]);
      forall i: nat | i < |data| ensures ByteAt(Store(memory, base, data), base + i, data[i]) {
        if i < last { assert ByteAt(rest, base + i, data[..last][i]); }
      }
    }
  }

  /** The text of a reply to a read: a readable block within the range, in hexadecimal of either case. */
  ghost predicate ShowsMemory(memory: Memory, base: nat, length: nat, text: string) {
    exists offset: nat, block :: ShowsBlock(memory, base, length, text, offset, block)
  }

  predicate ShowsBlock(memory: Memory, base: nat, length: nat, text: string, offset: nat, block: seq<Byte>) {
    offset + |block| <= length && LowerText(text) == ToHex(block) && Holds(memory, base + offset, block)
  }

  /** What GDB may do with a command: a write that fails may have stored a part of its bytes. */
  ghost predicate Possible(setup: Setup, memory: Memory, command: Command, stored: nat, answer: Answer) {
    match command
    case ReadBytes(a, n) =>
      && stored == 0
      && (answer.Failed?
          || (answer.Contents? && a in setup.addresses && ShowsMemory(memory, setup.addresses[a], n, answer.text)))
    case WriteBytes(a, hex) =>
      && (stored == 0 || (FromHex(hex).Some? && a in setup.addresses && stored <= |FromHex(hex).value|))
      && (answer.Failed?
          || (answer.Completed? && FromHex(hex).Some? && a in setup.addresses && stored == |FromHex(hex).value|))
    case Plain(_) => stored == 0
  }

  function After(setup: Setup, memory: Memory, command: Command, stored: nat): Memory {
    if command.WriteBytes? && command.address in setup.addresses && FromHex(command.dataHex).Some?
       && stored <= |FromHex(command.dataHex).value|
    then Store(memory, setup.addresses[command.address], FromHex(command.dataHex).value[..stored])
    else memory
  }

  /** What GDB may do with a line: a cut command is an error, and nothing is known of a line behind it. */
  ghost predicate Handles(setup: Setup, before: Memory, task: Task, stored: nat, answer: Answer, after: Memory) {
    match task
    case Do(command) =>
      Possible(setup, before, command, stored, answer) && after == After(setup, before, command, stored)
    case Cut => answer.Failed? && after == before
    case Behind => true
  }

  // ----- steps -----

  /** `write_memory` refuses malformed and oversized data before it asks for a slot. */
  predicate Accepted(setup: Setup, request: WriteRequest) {
    FromHex(request.dataHex).Some? && setup.limits.MemoryWriteOk(|FromHex(request.dataHex).value|)
  }

  predicate InFlight(p: Phase) {
    !p.Ended?
  }

  predicate Awaiting(p: Phase) {
    p.AwaitingRead? || p.AwaitingWrite? || p.AwaitingOther?
  }

  function OperationOf(p: Phase): Operation {
    match p
    case Started(operation) => operation
    case Leaving(operation, _) => operation
    case Ended(operation, _) => operation
    case AwaitingOther(_) => Other
    case _ => Write(p.request)
  }

  function ResultOf(p: Phase): Option<WriteData> {
    if p.Leaving? || p.Ended? then p.result else None
  }

  /** A call takes the lock and a token and writes its command. */
  function Sends(s: State, c: CallId, command: Command, p: Phase): State {
    s.(lines := s.lines + LinesFor(c, s.nextToken, command), nextToken := s.nextToken + 1, holder := Some(c),
       calls := s.calls[c := p])
  }

  function ReadCommand(request: WriteRequest, length: nat): Command {
    ReadBytes(request.address, length)
  }

  function WriteCommand(request: WriteRequest): Command {
    WriteBytes(request.address, request.dataHex)
  }

  /** The command a memory write sends next and the phase it then enters, or nothing when it raises instead. */
  function NextCommand(p: Phase, k: nat): Option<(Command, Phase)>
    requires p.Compared? || (p.Started? && p.operation.Write?)
  {
    match p
    case Compared(r) => Some((WriteCommand(r), AwaitingWrite(r, k)))
    case Started(Write(r)) =>
      match r.expectedOldHex
      case None => Some((WriteCommand(r), AwaitingWrite(r, k)))
      case Some(hex) =>
        match FromHex(hex)
        case None => None
        case Some(expected) => Some((ReadCommand(r, |expected|), AwaitingRead(r, k)))
  }

  /** The comparison ignores the case of letters and nothing else. */
  predicate Matches(request: WriteRequest, answer: Answer) {
    && answer.Contents? && request.expectedOldHex.Some?
    && LowerText(answer.text) == LowerText(request.expectedOldHex.value)
  }

  /** What a call does with the reply to its command. */
  function Replied(p: Phase, answer: Answer): Phase
    requires Awaiting(p)
  {
    match p
    case AwaitingRead(r, _) => if Matches(r, answer) then Compared(r) else Leaving(Write(r), None)
    case AwaitingWrite(r, _) =>
      if answer.Failed? || FromHex(r.dataHex).None? then Leaving(Write(r), None)
      else Leaving(Write(r), Some(WriteData(r.address, |FromHex(r.dataHex).value|, r.expectedOldHex.Some?)))
    case AwaitingOther(_) => Started(Other)
  }

  /** One turn of a read loop: an answer with another token is read past. */
  function StepRead(s: State, c: CallId): State
    requires c in s.calls && Awaiting(s.calls[c]) && s.cursor < |s.handled| <= |s.lines| && s.calls[c].k < |s.lines|
  {
    var t := s.(cursor := s.cursor + 1);
    if s.lines[s.cursor].token != s.lines[s.calls[c].k].token then t
    else t.(holder := None, calls := s.calls[c := Replied(s.calls[c], s.handled[s.cursor].answer)])
  }

  /** The state after an event, if the event can happen. */
  ghost function Step(setup: Setup, s: State, e: Event): Option<State> {
    match e
    case Elsewhere(counters) =>
      if CountOf(counters.perSession, setup.session) == CountOf(s.counters.perSession, setup.session) <= counters.active
      then Some(s.(counters := counters)) else None
    case Enter(c, operation) =>
      if c in s.calls then None
      else if operation.Write? && !Accepted(setup, operation.request) then
        Some(s.(calls := s.calls[c := Ended(operation, None)]))
      else (match Reserve(setup.limits, s.counters, Some(setup.session))
            case None => Some(s.(calls := s.calls[c := Ended(operation, None)]))
            case Some(counters) => Some(s.(counters := counters, calls := s.calls[c := Started(operation)])))
    case Send(c) =>
      if !(c in s.calls && (s.calls[c].Compared? || (s.calls[c].Started? && s.calls[c].operation.Write?))) then None
      else (match NextCommand(s.calls[c], |s.lines|)
            case None => Some(s.(calls := s.calls[c := Leaving(s.calls[c].operation, None)]))
            case Some((command, p)) =>
              if s.holder == None && Obeys(setup.discipline, MICommandOf(command))
              then Some(Sends(s, c, command, p)) else None)
    case SendOther(c, command) =>
      if c in s.calls && s.calls[c] == Started(Other) && s.holder == None && Obeys(setup.discipline, command)
         && command.name != MICommands.DataWriteMemoryBytes
      then Some(Sends(s, c, Plain(command), AwaitingOther(|s.lines|))) else None
    case LoseToken(c) =>
      if !(c in s.calls && (s.calls[c].Compared? || s.calls[c].Started?) && s.holder == None) then None
      else Some(s.(nextToken := s.nextToken + 1, calls := s.calls[c := Leaving(OperationOf(s.calls[c]), None)]))
    case Read(c) =>
      if c in s.calls && Awaiting(s.calls[c]) && s.cursor < |s.handled| <= |s.lines| && s.calls[c].k < |s.lines|
      then Some(StepRead(s, c)) else None
    case Abandon(c) =>
      if !(c in s.calls && InFlight(s.calls[c]) && !s.calls[c].Leaving?) then None
      else Some(s.(calls := s.calls[c := Leaving(OperationOf(s.calls[c]), None)],
                   holder := if s.holder == Some(c) then None else s.holder))
    case Leave(c) =>
      if !(c in s.calls && s.calls[c].Leaving?) then None
      else Some(s.(counters := Release(s.counters, Some(setup.session)),
                   calls := s.calls[c := Ended(s.calls[c].operation, s.calls[c].result)]))
    case Handle(stored, answer, memory) =>
      if |s.handled| >= |s.lines| || !Handles(setup, s.memory, s.lines[|s.handled|].task, stored, answer, memory)
      then None
      else Some(s.(handled := s.handled + [Handled(answer, s.memory, stored)], memory := memory))
  }

  ghost function Run(setup: Setup, s: State, events: seq<Event>): Option<State>
    decreases |events|
  {
    if events == [] then Some(s) else
    match Step(setup, s, events[0])
    case None => None
    case Some(t) => Run(setup, t, events[1..])
  }

  // ----- what every reachable state satisfies -----

  ghost function InFlightCalls(s: State): set<CallId> {
    set c | c in s.calls && InFlight(s.calls[c])
  }

  /** The session's counter is the number of its calls in flight; these are within both limits. */
  ghost predicate Counted(setup: Setup, s: State) {
    && CountOf(s.counters.perSession, setup.session) == |InFlightCalls(s)| <= s.counters.active
    && (|InFlightCalls(s)| > 0 ==>
          && |InFlightCalls(s)| <= setup.limits.maxSessionOperations
          && |InFlightCalls(s)| <= setup.limits.maxConcurrentToolCalls)
  }

  /** The limits never let two calls run on the session at once. */
  predicate OneAtATime(limits: ResourceLimits) {
    limits.maxSessionOperations <= 1 || limits.maxConcurrentToolCalls <= 1
  }

  /** The memory after GDB handled line `k`. */
  function MemoryAfter(s: State, k: nat): Memory
    requires k < |s.handled|
  {
    if k + 1 < |s.handled| then s.handled[k + 1].before else s.memory
  }

  ghost predicate HandledRight(setup: Setup, s: State, k: nat)
    requires k < |s.handled| <= |s.lines|
  {
    Handles(setup, s.handled[k].before, s.lines[k].task, s.handled[k].stored, s.handled[k].answer, MemoryAfter(s, k))
  }

  /** GDB has handled a prefix of the lines, and a prefix of its answers has been read. */
  ghost predicate LogGood(setup: Setup, s: State) {
    && s.cursor <= |s.handled| <= |s.lines|
    && forall k: nat :: k < |s.handled| ==> HandledRight(setup, s, k)
  }

  /** Line `k` is the first of a command, and its token has been taken. */
  predicate FirstLine(s: State, k: nat) {
    k < |s.lines| && s.lines[k].task != Behind && s.lines[k].token.Some? && 1 <= s.lines[k].token.value < s.nextToken
  }

  /** Every command has its own token, and no line behind one has a number that could be one. */
  ghost predicate TokensGood(setup: Setup, s: State) {
    && s.nextToken >= 1
    && (forall k: nat :: k < |s.lines| ==>
          FirstLine(s, k) || (s.lines[k].task == Behind && !Positive(s.lines[k].token)))
    && (forall j: nat, k: nat :: j < k && FirstLine(s, j) && FirstLine(s, k) ==>
          s.lines[j].token.value < s.lines[k].token.value)
    && (setup.discipline == NoBreaks ==> forall k: nat :: k < |s.lines| ==> s.lines[k].task.Do?)
  }

  /** The memory at the address holds the bytes the request expects. */
  ghost predicate OldHolds(setup: Setup, memory: Memory, request: WriteRequest) {
    && request.expectedOldHex.Some? && FromHex(request.expectedOldHex.value).Some?
    && request.address in setup.addresses
    && Holds(memory, setup.addresses[request.address], FromHex(request.expectedOldHex.value).value)
  }

  /** The last command begins at line `k`; it is call `c`'s and is this command, if no line break cuts it. */
  ghost predicate LastCommand(s: State, c: CallId, k: nat, command: Command) {
    && FirstLine(s, k) && s.lines[k].call == c
    && (forall j: nat :: k < j < |s.lines| ==> s.lines[j].task == Behind)
    && (s.lines[k].task == Cut || (s.lines[k].task == Do(command) && k == |s.lines| - 1))
  }

  predicate Decodes(request: WriteRequest) {
    request.expectedOldHex.Some? && FromHex(request.expectedOldHex.value).Some?
  }

  /** The read that the comparison needs. */
  function ComparingRead(request: WriteRequest): Command
    requires Decodes(request)
  {
    ReadCommand(request, |FromHex(request.expectedOldHex.value).value|)
  }

  /** What the phase of a call says about the lines and the memory, when it is alone on the session. */
  ghost predicate PhaseGood(setup: Setup, s: State, c: CallId, p: Phase) {
    match p
    case Started(Write(r)) => Accepted(setup, r)
    case AwaitingRead(r, k) =>
      && Accepted(setup, r) && Decodes(r) && LastCommand(s, c, k, ComparingRead(r))
      && (k < |s.handled| && s.lines[k].task != Cut ==>
            Possible(setup, s.memory, ComparingRead(r), 0, s.handled[k].answer))
    case Compared(r) => Accepted(setup, r) && |s.handled| == |s.lines| && OldHolds(setup, s.memory, r)
    case AwaitingWrite(r, k) =>
      && Accepted(setup, r) && LastCommand(s, c, k, WriteCommand(r))
      && (r.expectedOldHex.Some? ==>
            k <= |s.handled| && OldHolds(setup, if k < |s.handled| then s.handled[k].before else s.memory, r))
    case AwaitingOther(k) => FirstLine(s, k)
    case _ => true
  }

  ghost predicate PhasesGood(setup: Setup, s: State) {
    forall c :: c in s.calls && InFlight(s.calls[c]) ==> PhaseGood(setup, s, c, s.calls[c])
  }

  /** Line `k` is the write that the call reports: GDB completed it, it stored exactly the bytes asked for, and if an
      old value was given, the memory held that value when GDB handled it. */
  ghost predicate Reports(setup: Setup, s: State, c: CallId, r: WriteRequest, data: WriteData, k: nat) {
    && k < |s.handled| <= |s.lines|
    && s.lines[k].call == c && s.lines[k].task == Do(WriteCommand(r))
    && s.handled[k].answer != Failed
    && r.address in setup.addresses && FromHex(r.dataHex).Some?
    && data == WriteData(r.address, |FromHex(r.dataHex).value|, r.expectedOldHex.Some?)
    && data.bytesWritten <= setup.limits.maxMemoryWriteBytes
    && MemoryAfter(s, k) == Store(s.handled[k].before, setup.addresses[r.address], FromHex(r.dataHex).value)
    && (data.verifiedOldValue ==> OldHolds(setup, s.handled[k].before, r))
  }

  ghost predicate ReportGood(setup: Setup, s: State, c: CallId, p: Phase) {
    ResultOf(p).Some? ==>
      OperationOf(p).Write? && exists k: nat :: Reports(setup, s, c, OperationOf(p).request, ResultOf(p).value, k)
  }

  ghost predicate ReportsGood(setup: Setup, s: State) {
    forall c :: c in s.calls ==> ReportGood(setup, s, c, s.calls[c])
  }

  ghost predicate Inv(setup: Setup, s: State) {
    Counted(setup, s) && LogGood(setup, s) && TokensGood(setup, s) && PhasesGood(setup, s) && ReportsGood(setup, s)
  }

  // ----- one operation at a time -----

  lemma FlightAfter(s: State, c: CallId, p: Phase)
    ensures var a, b := InFlightCalls(s), InFlightCalls(s.(calls := s.calls[c := p]));
      |b| == if c in a then (if InFlight(p) then |a| else |a| - 1) else (if InFlight(p) then |a| + 1 else |a|)
    ensures c in InFlightCalls(s) <==> c in s.calls && InFlight(s.calls[c])
  {
    var a, b := InFlightCalls(s), InFlightCalls(s.(calls := s.calls[c := p]));
    if InFlight(p) {
      assert b == a + {c};
      if c in a { assert a + {c} == a; }
    } else {
      assert b == a - {c};
      if c !in a { assert a - {c} == a; }
    }
  }

  lemma SameFlight(s: State, t: State)
    requires s.calls == t.calls
    ensures InFlightCalls(s) == InFlightCalls(t)
  {}

  lemma CountKept(setup: Setup, s: State, e: Event)
    requires Counted(setup, s) && Step(setup, s, e).Some?
    ensures Counted(setup, Step(setup, s, e).value)
  {
    hide Handles, Accepted, InFlightCalls, Matches, FromHex, LinesFor, Obeys;
    var t := Step(setup, s, e).value;
    if e.Elsewhere? || e.Handle? {
      SameFlight(s, t);
    } else {
      OnlyCall(setup, s, e);
      FlightAfter(s, e.call, t.calls[e.call]);
      SameFlight(s.(calls := s.calls[e.call := t.calls[e.call]]), t);
    }
  }

  /** An event of a call changes no other call's phase. */
  lemma OnlyCall(setup: Setup, s: State, e: Event)
    requires Step(setup, s, e).Some? && !e.Elsewhere? && !e.Handle?
    ensures var t := Step(setup, s, e).value; e.call in t.calls && t.calls == s.calls[e.call := t.calls[e.call]]
  {
    hide Accepted, Matches, FromHex, LinesFor, Obeys, Reserve, Release, CountOf;
  }

  /** With one operation at a time, no two calls are in flight. */
  lemma Alone(setup: Setup, s: State, c: CallId, d: CallId)
    requires Counted(setup, s) && OneAtATime(setup.limits)
    requires c in s.calls && InFlight(s.calls[c]) && d in s.calls && InFlight(s.calls[d])
    ensures c == d
  {
    var a := InFlightCalls(s);
    assert |a - {c}| == 0;
    assert d !in a - {c};
  }

  // ----- lines, memory and their log -----

  lemma LogKept(setup: Setup, s: State, e: Event)
    requires LogGood(setup, s) && Step(setup, s, e).Some?
    ensures LogGood(setup, Step(setup, s, e).value)
    ensures s.lines <= Step(setup, s, e).value.lines && s.handled <= Step(setup, s, e).value.handled
    ensures forall k: nat :: k < |s.handled| ==> MemoryAfter(Step(setup, s, e).value, k) == MemoryAfter(s, k)
  {
    hide Handles, Accepted, Replied, FromHex, Reserve, Release, CountOf, LinesFor, Obeys, NextCommand;
    var t := Step(setup, s, e).value;
    forall k: nat | k < |t.handled| ensures HandledRight(setup, t, k) {
      if k < |s.handled| { assert HandledRight(setup, s, k); }
    }
  }

  /** The lines of a command: the first has its token, and the others have none that could be one. */
  lemma LinesForGood(d: Discipline, c: CallId, token: nat, command: Command)
    requires d != AnyText && Obeys(d, MICommandOf(command))
    ensures var lines := LinesFor(c, token, command);
      && lines != [] && lines[0].call == c && lines[0].token == Some(token)
      && (lines[0].task == Cut || (lines == [Line(c, Some(token), Do(command))]))
      && (forall i :: 0 < i < |lines| ==> lines[i].task == Behind && !Positive(lines[i].token))
      && (d == NoBreaks ==> |lines| == 1)
  {
    hide CommandLines, LinesBehind, LeadingToken, HasBreak, TokenBehind;
    var mi := MICommandOf(command);
    var texts, lines := CommandLines(mi, token), LinesFor(c, token, command);
    LinesOfCommand(mi, token);
    OneLineExactly(mi, token);
    if d == NoBreaks { NoBreakNoToken(mi); }
    forall i | 0 < i < |lines| ensures !Positive(lines[i].token) {
      assert texts[i] == texts[1..][i - 1];
      NoneBehind(mi, i - 1);
    }
  }

  lemma NoneBehind(command: MICommands.Command, l: nat)
    requires !TokenBehind(command) && l < |LinesBehind(command)|
    ensures !Positive(LeadingToken(LinesBehind(command)[l]))
  {
    hide LinesBehind, LeadingToken;
  }

  /** The lines after a command has been sent: those before are as they were, and the first new one is a first line. */
  ghost predicate Appended(s: State, t: State, c: CallId, command: Command) {
    && |s.lines| < |t.lines| && t.nextToken == s.nextToken + 1
    && (forall k: nat :: k < |s.lines| ==> t.lines[k] == s.lines[k])
    && t.lines[|s.lines|].call == c && t.lines[|s.lines|].token == Some(s.nextToken)
    && (t.lines[|s.lines|].task == Cut || (t.lines[|s.lines|].task == Do(command) && |t.lines| == |s.lines| + 1))
    && (forall k: nat :: |s.lines| < k < |t.lines| ==> t.lines[k].task == Behind && !Positive(t.lines[k].token))
  }

  lemma SendsAppends(setup: Setup, s: State, c: CallId, command: Command, p: Phase)
    requires setup.discipline != AnyText && Obeys(setup.discipline, MICommandOf(command))
    ensures Appended(s, Sends(s, c, command, p), c, command)
  {
    hide LinesFor, Obeys, MICommandOf;
    LinesForGood(setup.discipline, c, s.nextToken, command);
    AppendedLines(s, Sends(s, c, command, p), c, command, LinesFor(c, s.nextToken, command));
  }

  lemma AppendedLines(s: State, t: State, c: CallId, command: Command, added: seq<Line>)
    requires t.lines == s.lines + added && t.nextToken == s.nextToken + 1
    requires added != [] && added[0].call == c && added[0].token == Some(s.nextToken)
    requires added[0].task == Cut || (added == [Line(c, Some(s.nextToken), Do(command))])
    requires forall i :: 0 < i < |added| ==> added[i].task == Behind && !Positive(added[i].token)
    ensures Appended(s, t, c, command)
  {
    var n := |s.lines|;
    assert t.lines[n] == added[0];
    forall k: nat | n < k < |t.lines| ensures t.lines[k].task == Behind && !Positive(t.lines[k].token) {
      assert t.lines[k] == added[k - n];
    }
  }

  lemma AppendedLast(s: State, t: State, c: CallId, command: Command)
    requires Appended(s, t, c, command) && s.nextToken >= 1
    ensures LastCommand(t, c, |s.lines|, command)
  {}

  /** Sending a command keeps the tokens in order, and makes it the last command. */
  lemma AppendedTokens(setup: Setup, s: State, t: State, c: CallId, command: Command)
    requires TokensGood(setup, s) && Appended(s, t, c, command)
    requires setup.discipline == NoBreaks ==> |t.lines| == |s.lines| + 1 && t.lines[|s.lines|].task.Do?
    ensures TokensGood(setup, t)
  {
    var n := |s.lines|;
    forall k: nat | k < |t.lines|
      ensures k < n ==> (FirstLine(t, k) <==> FirstLine(s, k))
      ensures k == n ==> FirstLine(t, k)
      ensures k > n ==> !FirstLine(t, k)
    {
      if k < n { assert FirstLine(s, k) || s.lines[k].task == Behind; }
    }
  }

  lemma SendsGood(setup: Setup, s: State, c: CallId, command: Command, p: Phase)
    requires TokensGood(setup, s) && setup.discipline != AnyText && Obeys(setup.discipline, MICommandOf(command))
    ensures TokensGood(setup, Sends(s, c, command, p)) && LastCommand(Sends(s, c, command, p), c, |s.lines|, command)
  {
    hide LinesFor, Obeys, MICommandOf, LastCommand;
    var t := Sends(s, c, command, p);
    SendsAppends(setup, s, c, command, p);
    AppendedLast(s, t, c, command);
    if setup.discipline == NoBreaks { UncutLine(setup, c, s.nextToken, command, s, p); }
    hide Sends;
    AppendedTokens(setup, s, t, c, command);
  }

  lemma UncutLine(setup: Setup, c: CallId, token: nat, command: Command, s: State, p: Phase)
    requires setup.discipline == NoBreaks && Obeys(NoBreaks, MICommandOf(command)) && token == s.nextToken
    ensures |Sends(s, c, command, p).lines| == |s.lines| + 1
    ensures Sends(s, c, command, p).lines[|s.lines|].task == Do(command)
  {
    hide CommandLines, HasBreak;
    OneLineExactly(MICommandOf(command), token);
  }

  lemma TokensKept(setup: Setup, s: State, e: Event)
    requires TokensGood(setup, s) && setup.discipline != AnyText && Step(setup, s, e).Some?
    ensures TokensGood(setup, Step(setup, s, e).value)
  {
    hide Handles, Accepted, Replied, FromHex, Reserve, Release, CountOf, LinesFor, Obeys, TokensGood, MICommandOf;
    if e.Send? && NextCommand(s.calls[e.call], |s.lines|).Some? {
      var (command, p) := NextCommand(s.calls[e.call], |s.lines|).value;
      SendsGood(setup, s, e.call, command, p);
    } else if e.SendOther? {
      assert MICommandOf(Plain(e.command)) == e.command by { PlainIs(e.command); }
      SendsGood(setup, s, e.call, Plain(e.command), AwaitingOther(|s.lines|));
    } else {
      SameTokens(setup, s, Step(setup, s, e).value);
    }
  }

  lemma PlainIs(command: MICommands.Command)
    ensures MICommandOf(Plain(command)) == command
  {}

  lemma SameTokens(setup: Setup, s: State, t: State)
    requires TokensGood(setup, s) && t.lines == s.lines && s.nextToken <= t.nextToken
    ensures TokensGood(setup, t)
  {
    assert forall k: nat :: FirstLine(s, k) ==> FirstLine(t, k);
    forall k: nat | FirstLine(t, k) ensures FirstLine(s, k) { assert s.lines[k].task != Behind; }
  }

  /** The answer with a command's token is the answer to its first line. */
  lemma OwnAnswer(setup: Setup, s: State, i: nat, k: nat)
    requires TokensGood(setup, s) && FirstLine(s, k) && i < |s.lines| && s.lines[i].token == s.lines[k].token
    ensures i == k
  {
    assert FirstLine(s, i) || !Positive(s.lines[i].token);
  }

  lemma ReportKept(setup: Setup, s: State, t: State, c: CallId, p: Phase)
    requires ReportGood(setup, s, c, p)
    requires |s.handled| <= |s.lines| && |t.handled| <= |t.lines| && s.lines <= t.lines && s.handled <= t.handled
    requires forall k: nat :: k < |s.handled| ==> MemoryAfter(t, k) == MemoryAfter(s, k)
    ensures ReportGood(setup, t, c, p)
  {
    hide OldHolds, FromHex, Store, MemoryAfter;
    if ResultOf(p).Some? {
      var k: nat :| Reports(setup, s, c, OperationOf(p).request, ResultOf(p).value, k);
      assert Reports(setup, t, c, OperationOf(p).request, ResultOf(p).value, k);
    }
  }

  /** A reply that matches shows that the memory held the expected bytes. */
  lemma MatchMeansHolds(setup: Setup, memory: Memory, r: WriteRequest, answer: Answer)
    requires Decodes(r) && Possible(setup, memory, ComparingRead(r), 0, answer) && Matches(r, answer)
    ensures OldHolds(setup, memory, r)
  {
    hide FromHex, ToHex, LowerText;
    var base, n := setup.addresses[r.address], |FromHex(r.expectedOldHex.value).value|;
    var offset: nat, block :| ShowsBlock(memory, base, n, answer.text, offset, block);
    SameLowerDecodes(r.expectedOldHex.value, block);
  }

  lemma PhaseAfterSend(setup: Setup, s: State, c: CallId)
    requires LogGood(setup, s) && TokensGood(setup, s) && setup.discipline != AnyText
    requires Step(setup, s, Send(c)).Some? && PhaseGood(setup, s, c, s.calls[c])
    ensures var t := Step(setup, s, Send(c)).value; PhaseGood(setup, t, c, t.calls[c])
  {
    hide FromHex, Possible, OldHolds, HandledRight, LinesFor, Obeys, TokensGood, MICommandOf, LastCommand, Accepted,
      FirstLine;
    if NextCommand(s.calls[c], |s.lines|).Some? {
      var (command, p) := NextCommand(s.calls[c], |s.lines|).value;
      SendsGood(setup, s, c, command, p);
    }
  }

  /** The reply a call is given, when it is alone on the session: the answer to its own command. */
  lemma ReplyIsOwn(setup: Setup, s: State, c: CallId)
    requires LogGood(setup, s) && TokensGood(setup, s)
    requires Step(setup, s, Read(c)).Some? && PhaseGood(setup, s, c, s.calls[c])
    ensures FirstLine(s, s.calls[c].k)
    ensures s.lines[s.cursor].token == s.lines[s.calls[c].k].token ==> s.cursor == s.calls[c].k < |s.handled|
  {
    hide HandledRight, TokensGood, Possible, OldHolds, Accepted, FromHex, Replied;
    var k := s.calls[c].k;
    if s.lines[s.cursor].token == s.lines[k].token { OwnAnswer(setup, s, s.cursor, k); }
  }

  lemma CutFails(setup: Setup, s: State, k: nat)
    requires LogGood(setup, s) && k < |s.handled| && s.lines[k].task == Cut
    ensures s.handled[k].answer == Failed
  {
    assert HandledRight(setup, s, k);
  }

  lemma PhaseAfterRead(setup: Setup, s: State, c: CallId)
    requires LogGood(setup, s) && TokensGood(setup, s)
    requires Step(setup, s, Read(c)).Some? && PhaseGood(setup, s, c, s.calls[c])
    ensures var t := Step(setup, s, Read(c)).value; PhaseGood(setup, t, c, t.calls[c])
  {
    hide FromHex, Possible, Holds, Matches, TokensGood, HandledRight, Accepted, OldHolds;
    ReplyIsOwn(setup, s, c);
    var p := s.calls[c];
    if p.AwaitingRead? && s.cursor == p.k && Matches(p.request, s.handled[p.k].answer) {
      if s.lines[p.k].task == Cut { CutFails(setup, s, p.k); FailedMatches(p.request); }
      MatchMeansHolds(setup, s.memory, p.request, s.handled[p.k].answer);
    }
  }

  lemma FailedMatches(r: WriteRequest)
    ensures !Matches(r, Failed)
  {}

  /** The write whose reply is read is the one the result reports. */
  lemma ReportAfterRead(setup: Setup, s: State, c: CallId)
    requires LogGood(setup, s) && TokensGood(setup, s)
    requires Step(setup, s, Read(c)).Some? && PhaseGood(setup, s, c, s.calls[c])
    ensures var t := Step(setup, s, Read(c)).value; ReportGood(setup, t, c, t.calls[c])
  {
    hide Matches, TokensGood, FromHex, Holds, ShowsMemory, PhaseGood;
    ReplyIsOwn(setup, s, c);
    var p, t := s.calls[c], Step(setup, s, Read(c)).value;
    if p.AwaitingWrite? && s.cursor == p.k && s.handled[p.k].answer != Failed {
      var r := p.request;
      WriteReported(setup, s, t, c, r, p.k);
      var data := WriteData(r.address, |FromHex(r.dataHex).value|, r.expectedOldHex.Some?);
      assert t.calls[c] == Leaving(Write(r), Some(data));
      assert Reports(setup, t, c, OperationOf(t.calls[c]).request, ResultOf(t.calls[c]).value, p.k);
    }
  }

  lemma WriteReported(setup: Setup, s: State, t: State, c: CallId, r: WriteRequest, k: nat)
    requires LogGood(setup, s) && PhaseGood(setup, s, c, AwaitingWrite(r, k)) && k < |s.handled|
    requires s.handled[k].answer != Failed
    requires t.lines == s.lines && t.handled == s.handled && t.memory == s.memory
    ensures FromHex(r.dataHex).Some?
    ensures Reports(setup, t, c, r, WriteData(r.address, |FromHex(r.dataHex).value|, r.expectedOldHex.Some?), k)
  {
    hide FromHex, Holds, ShowsMemory;
    assert HandledRight(setup, s, k);
    var bytes := FromHex(r.dataHex).value;
    assert bytes[..|bytes|] == bytes;
    assert MemoryAfter(t, k) == MemoryAfter(s, k);
  }

  lemma PhaseAfterHandle(setup: Setup, s: State, e: Event, c: CallId)
    requires LogGood(setup, s) && Step(setup, s, e).Some? && e.Handle?
    requires c in s.calls && PhaseGood(setup, s, c, s.calls[c])
    ensures PhaseGood(setup, Step(setup, s, e).value, c, s.calls[c])
  {
    hide FromHex, ShowsMemory, OldHolds, Accepted, HandledRight;
  }

  lemma PhasesKept(setup: Setup, s: State, e: Event)
    requires Inv(setup, s) && OneAtATime(setup.limits) && setup.discipline != AnyText && Step(setup, s, e).Some?
    ensures PhasesGood(setup, Step(setup, s, e).value)
  {
    hide Counted, TokensGood, Step, PhaseGood, LogGood, ReportsGood, InFlight;
    var t := Step(setup, s, e).value;
    CountKept(setup, s, e);
    if !e.Handle? && !e.Elsewhere? { OnlyCall(setup, s, e); }
    forall c | c in t.calls && InFlight(t.calls[c]) ensures PhaseGood(setup, t, c, t.calls[c]) {
      if e.Handle? || e.Elsewhere? {
        SameCalls(setup, s, e);
        if e.Handle? { PhaseAfterHandle(setup, s, e, c); } else { PhaseElsewhere(setup, s, e, c); }
      } else if InFlight(t.calls[e.call]) {
        Alone(setup, t, c, e.call);
        OwnPhaseKept(setup, s, e);
      } else {
        StillFlying(s, t, e.call, c);
        Quiet(setup, s, e);
        SamePhase(setup, s, t, c, s.calls[c]);
      }
    }
  }

  lemma StillFlying(s: State, t: State, ended: CallId, c: CallId)
    requires ended in t.calls && t.calls == s.calls[ended := t.calls[ended]]
    requires !InFlight(t.calls[ended]) && c in t.calls && InFlight(t.calls[c])
    ensures c in s.calls && s.calls[c] == t.calls[c]
  {}

  lemma SameCalls(setup: Setup, s: State, e: Event)
    requires Step(setup, s, e).Some? && (e.Handle? || e.Elsewhere?)
    ensures Step(setup, s, e).value.calls == s.calls
  {
    hide Handles, CountOf;
  }

  lemma PhaseElsewhere(setup: Setup, s: State, e: Event, c: CallId)
    requires Step(setup, s, e).Some? && e.Elsewhere? && c in s.calls && PhaseGood(setup, s, c, s.calls[c])
    ensures PhaseGood(setup, Step(setup, s, e).value, c, s.calls[c])
  {
    hide CountOf, PhaseGood;
    SamePhase(setup, s, Step(setup, s, e).value, c, s.calls[c]);
  }

  /** Only the lines, the answers and the memory matter for a phase. */
  lemma SamePhase(setup: Setup, s: State, t: State, c: CallId, p: Phase)
    requires PhaseGood(setup, s, c, p) && t.lines == s.lines && t.handled == s.handled && t.memory == s.memory
    requires s.nextToken <= t.nextToken
    ensures PhaseGood(setup, t, c, p)
  {
    hide FromHex, Possible, OldHolds, Accepted;
  }

  lemma OwnPhaseKept(setup: Setup, s: State, e: Event)
    requires LogGood(setup, s) && TokensGood(setup, s) && setup.discipline != AnyText
    requires Step(setup, s, e).Some? && !e.Handle? && !e.Elsewhere?
    requires e.call in s.calls && InFlight(s.calls[e.call]) ==> PhaseGood(setup, s, e.call, s.calls[e.call])
    ensures var t := Step(setup, s, e).value; e.call in t.calls && PhaseGood(setup, t, e.call, t.calls[e.call])
  {
    hide LogGood, TokensGood, Matches, FromHex, LinesFor, Obeys, Reserve, Release, CountOf, OldHolds, Possible,
      LastCommand, MICommandOf, NextCommand;
    match e
    case Send(c) => PhaseAfterSend(setup, s, c);
    case Read(c) => PhaseAfterRead(setup, s, c);
    case SendOther(c, command) =>
      PlainIs(command);
      SendsGood(setup, s, c, Plain(command), AwaitingOther(|s.lines|));
      LastIsFirst(Sends(s, c, Plain(command), AwaitingOther(|s.lines|)), c, |s.lines|, Plain(command));
    case _ =>
  }

  lemma LastIsFirst(s: State, c: CallId, k: nat, command: Command)
    requires LastCommand(s, c, k, command)
    ensures FirstLine(s, k)
  {}

  /** A call that ends leaves the lines and the memory alone. */
  lemma Quiet(setup: Setup, s: State, e: Event)
    requires Step(setup, s, e).Some? && !e.Handle? && !e.Elsewhere?
    requires var t := Step(setup, s, e).value; e.call in t.calls && !InFlight(t.calls[e.call])
    ensures var t := Step(setup, s, e).value;
      t.lines == s.lines && t.handled == s.handled && t.memory == s.memory && t.nextToken == s.nextToken
  {
    hide Accepted, Matches, FromHex, Reserve, Release, CountOf, LinesFor, Obeys;
  }

  /** Only reading a reply gives a call a result. */
  lemma SameReport(setup: Setup, s: State, e: Event, c: CallId)
    requires Step(setup, s, e).Some? && !(e.Read? && e.call == c)
    requires c in Step(setup, s, e).value.calls && ResultOf(Step(setup, s, e).value.calls[c]).Some?
    ensures var p := Step(setup, s, e).value.calls[c];
      c in s.calls && ResultOf(p) == ResultOf(s.calls[c]) && OperationOf(p) == OperationOf(s.calls[c])
  {
    hide Accepted, Matches, FromHex, Reserve, Release, CountOf, LinesFor, Obeys, Handles;
  }

  lemma ReportsKept(setup: Setup, s: State, e: Event)
    requires LogGood(setup, s) && ReportsGood(setup, s) && Step(setup, s, e).Some?
    requires var t := Step(setup, s, e).value;
      e.Read? ==> e.call in t.calls && ReportGood(setup, t, e.call, t.calls[e.call])
    ensures ReportsGood(setup, Step(setup, s, e).value)
  {
    hide Step, LogGood, Reports;
    var t := Step(setup, s, e).value;
    LogKept(setup, s, e);
    LogSizes(setup, s);
    LogSizes(setup, t);
    forall c | c in t.calls ensures ReportGood(setup, t, c, t.calls[c]) {
      if !(e.Read? && e.call == c) && ResultOf(t.calls[c]).Some? {
        SameReport(setup, s, e, c);
        ReportKept(setup, s, t, c, s.calls[c]);
      }
    }
  }

  lemma LogSizes(setup: Setup, s: State)
    requires LogGood(setup, s)
    ensures |s.handled| <= |s.lines|
  {}

  /** The call of a read is in flight. */
  lemma ReaderFlies(setup: Setup, s: State, c: CallId)
    requires Step(setup, s, Read(c)).Some?
    ensures c in s.calls && InFlight(s.calls[c]) && c in Step(setup, s, Read(c)).value.calls
  {
    hide Replied;
  }

  lemma StepKeepsInv(setup: Setup, s: State, e: Event)
    requires Inv(setup, s) && OneAtATime(setup.limits) && setup.discipline != AnyText && Step(setup, s, e).Some?
    ensures Inv(setup, Step(setup, s, e).value)
  {
    hide Step, Counted, LogGood, TokensGood, ReportsGood, PhaseGood, InFlight;
    CountKept(setup, s, e);
    LogKept(setup, s, e);
    TokensKept(setup, s, e);
    PhasesKept(setup, s, e);
    if e.Read? {
      assert e == Read(e.call);
      ReaderFlies(setup, s, e.call);
      ReportAfterRead(setup, s, e.call);
    }
    ReportsKept(setup, s, e);
  }

  lemma {:induction false} RunKeepsInv(setup: Setup, s: State, events: seq<Event>)
    requires Inv(setup, s) && OneAtATime(setup.limits) && setup.discipline != AnyText
    requires Run(setup, s, events).Some?
    ensures Inv(setup, Run(setup, s, events).value)
    decreases |events|
  {
    hide Step, Inv;
    if events != [] {
      StepKeepsInv(setup, s, events[0]);
      RunKeepsInv(setup, Step(setup, s, events[0]).value, events[1..]);
    }
  }

  // ----- the guarantee -----

  /** Every write reported in this state was a single completed write of the reported size, and every one reported as
      verified happened when the memory at its address held the expected bytes. */
  ghost predicate ReportsTrue(setup: Setup, s: State) {
    forall c :: c in s.calls && ResultOf(s.calls[c]).Some? ==>
      && OperationOf(s.calls[c]).Write?
      && exists k: nat :: Reports(setup, s, c, OperationOf(s.calls[c]).request, ResultOf(s.calls[c]).value, k)
  }

  lemma VerifiedWritesAtomic(setup: Setup, memory: Memory, events: seq<Event>, s: State)
    requires OneAtATime(setup.limits) && setup.discipline != AnyText
    requires Run(setup, Initial(memory), events) == Some(s)
    ensures ReportsTrue(setup, s)
  {
    hide Step;
    assert InFlightCalls(Initial(memory)) == {};
    RunKeepsInv(setup, Initial(memory), events);
    ReportsGoodTrue(setup, s);
  }

  lemma ReportsGoodTrue(setup: Setup, s: State)
    requires ReportsGood(setup, s)
    ensures ReportsTrue(setup, s)
  {
    hide Reports;
    forall c | c in s.calls && ResultOf(s.calls[c]).Some?
      ensures OperationOf(s.calls[c]).Write?
      ensures exists k: nat :: Reports(setup, s, c, OperationOf(s.calls[c]).request, ResultOf(s.calls[c]).value, k)
    {
      assert ReportGood(setup, s, c, s.calls[c]);
    }
  }
}
