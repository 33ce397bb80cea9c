/** Which limits, and which texts in commands, make the reports of compare-before-write true in all runs. */
module CompareWriteLimits {
  import opened Basics
  import opened Hex
  import opened Limits
  import opened ToolService
  import opened MILines
  import opened CompareWrite
  import MICorrelation

  // ----- where no write gets through, nothing is reported -----

  /** The limits admit no call on the session, or no write of any size. */
  predicate NoWrites(limits: ResourceLimits) {
    limits.maxSessionOperations <= 0 || limits.maxConcurrentToolCalls <= 0 || limits.maxMemoryWriteBytes < 0
  }

  ghost predicate NoWriters(s: State) {
    forall c :: c in s.calls ==>
      ResultOf(s.calls[c]) == None && (InFlight(s.calls[c]) ==> OperationOf(s.calls[c]) == Other)
  }

  /** No memory write is ever admitted. */
  lemma NoneEnters(setup: Setup, s: State, c: CallId, r: WriteRequest)
    requires Counted(setup, s) && NoWrites(setup.limits) && Step(setup, s, Enter(c, Write(r))).Some?
    ensures Step(setup, s, Enter(c, Write(r))).value.calls == s.calls[c := Ended(Write(r), None)]
  {
    hide FromHex, InFlightCalls;
  }

  lemma NoWritersKept(setup: Setup, s: State, e: Event)
    requires Counted(setup, s) && NoWriters(s) && NoWrites(setup.limits) && Step(setup, s, e).Some?
    ensures NoWriters(Step(setup, s, e).value)
  {
    hide Counted, Accepted, Matches, FromHex, LinesFor, Obeys, Reserve, Release, CountOf, Handles, NoWrites;
    if e.Enter? && e.operation.Write? {
      assert e == Enter(e.call, Write(e.operation.request));
      NoneEnters(setup, s, e.call, e.operation.request);
    }
  }

  lemma {:induction false} NoWritersRun(setup: Setup, s: State, events: seq<Event>)
    requires Counted(setup, s) && NoWriters(s) && NoWrites(setup.limits) && Run(setup, s, events).Some?
    ensures NoWriters(Run(setup, s, events).value)
    decreases |events|
  {
    hide Step, Counted, NoWriters;
    if events != [] {
      CountKept(setup, s, events[0]);
      NoWritersKept(setup, s, events[0]);
      NoWritersRun(setup, Step(setup, s, events[0]).value, events[1..]);
    }
  }

  // ----- where no byte may be written and no command is cut, the memory never changes -----

  /** Every write command sent is empty, and the memory has been the same all along. */
  ghost predicate Frozen(setup: Setup, s: State) {
    && LogGood(setup, s) && TokensGood(setup, s)
    && (forall k: nat :: k < |s.lines| ==> EmptyWrite(s.lines[k].task))
    && (forall k: nat :: k < |s.handled| ==> s.handled[k].before == s.memory)
  }

  predicate EmptyWrite(task: Task) {
    task.Do? && (task.command.WriteBytes? ==> FromHex(task.command.dataHex) == Some([]))
  }

  /** Line `k` is this command of call `c`. */
  predicate IsCommand(s: State, c: CallId, k: nat, command: Command) {
    FirstLine(s, k) && s.lines[k].call == c && s.lines[k].task == Do(command)
  }

  /** What the phase of a call says then, however many calls there are. */
  ghost predicate FrozenPhase(setup: Setup, s: State, c: CallId, p: Phase) {
    match p
    case Started(Write(r)) => Accepted(setup, r)
    case AwaitingRead(r, k) => Accepted(setup, r) && Decodes(r) && IsCommand(s, c, k, ComparingRead(r))
    case Compared(r) => Accepted(setup, r) && OldHolds(setup, s.memory, r)
    case AwaitingWrite(r, k) =>
      && Accepted(setup, r) && IsCommand(s, c, k, WriteCommand(r))
      && (r.expectedOldHex.Some? ==> OldHolds(setup, s.memory, r))
    case AwaitingOther(k) => FirstLine(s, k)
    case _ => true
  }

  ghost predicate FrozenPhases(setup: Setup, s: State) {
    forall c :: c in s.calls && InFlight(s.calls[c]) ==> FrozenPhase(setup, s, c, s.calls[c])
  }

  lemma NothingToWrite(setup: Setup, r: WriteRequest)
    requires setup.limits.maxMemoryWriteBytes <= 0 && Accepted(setup, r)
    ensures FromHex(r.dataHex) == Some([])
  {}

  lemma NoBytesNoChange(setup: Setup, memory: Memory, task: Task, stored: nat, answer: Answer, after: Memory)
    requires EmptyWrite(task) && Handles(setup, memory, task, stored, answer, after)
    ensures after == memory
  {
    hide FromHex, ShowsMemory;
  }

  /** A command without line breaks is one line. */
  lemma OneLineFor(c: CallId, token: nat, command: Command)
    requires !HasBreak(MICommandOf(command))
    ensures LinesFor(c, token, command) == [Line(c, Some(token), Do(command))]
  {
    hide CommandLines, HasBreak, LeadingToken;
    OneLineExactly(MICommandOf(command), token);
    LinesOfCommand(MICommandOf(command), token);
  }

  lemma FrozenSends(setup: Setup, s: State, c: CallId, command: Command, p: Phase)
    requires Frozen(setup, s) && setup.discipline == NoBreaks && Obeys(NoBreaks, MICommandOf(command))
    requires EmptyWrite(Do(command))
    ensures Frozen(setup, Sends(s, c, command, p)) && IsCommand(Sends(s, c, command, p), c, |s.lines|, command)
  {
    hide LinesFor, HandledRight, MICommandOf, EmptyWrite, Handles, HasBreak;
    OneLineFor(c, s.nextToken, command);
    SendsGood(setup, s, c, command, p);
    assert forall k: nat :: k < |s.handled| ==> HandledRight(setup, s, k);
    SentLog(setup, s, Sends(s, c, command, p));
  }

  lemma SentLog(setup: Setup, s: State, t: State)
    requires LogGood(setup, s) && s.lines <= t.lines && t.handled == s.handled && t.cursor == s.cursor
    requires t.memory == s.memory
    ensures LogGood(setup, t)
  {
    hide Handles;
    forall k: nat | k < |t.handled| ensures HandledRight(setup, t, k) { assert HandledRight(setup, s, k); }
  }

  lemma FrozenKept(setup: Setup, s: State, e: Event)
    requires Frozen(setup, s) && FrozenPhases(setup, s) && setup.limits.maxMemoryWriteBytes <= 0
    requires setup.discipline == NoBreaks && Step(setup, s, e).Some?
    ensures Frozen(setup, Step(setup, s, e).value) && Step(setup, s, e).value.memory == s.memory
  {
    hide Frozen, Replied, FromHex, Reserve, Release, CountOf, LinesFor, OldHolds, Accepted, Handles, Obeys, MICommandOf;
    if e.Send? && NextCommand(s.calls[e.call], |s.lines|).Some? {
      var (command, p) := NextCommand(s.calls[e.call], |s.lines|).value;
      WritesAreEmpty(setup, s, e.call);
      FrozenSends(setup, s, e.call, command, p);
    } else if e.SendOther? {
      PlainIs(e.command);
      FrozenSends(setup, s, e.call, Plain(e.command), AwaitingOther(|s.lines|));
    } else if e.Handle? {
      FrozenHandles(setup, s, e);
    } else {
      FrozenSame(setup, s, e);
    }
  }

  lemma WritesAreEmpty(setup: Setup, s: State, c: CallId)
    requires FrozenPhases(setup, s) && setup.limits.maxMemoryWriteBytes <= 0 && c in s.calls
    requires s.calls[c].Compared? || (s.calls[c].Started? && s.calls[c].operation.Write?)
    requires NextCommand(s.calls[c], |s.lines|).Some?
    ensures EmptyWrite(Do(NextCommand(s.calls[c], |s.lines|).value.0))
  {
    hide FromHex, OldHolds, Accepted;
    NothingToWrite(setup, OperationOf(s.calls[c]).request);
  }

  lemma FrozenHandles(setup: Setup, s: State, e: Event)
    requires Frozen(setup, s) && e.Handle? && Step(setup, s, e).Some?
    ensures Frozen(setup, Step(setup, s, e).value) && Step(setup, s, e).value.memory == s.memory
  {
    hide Handles, EmptyWrite;
    LogKept(setup, s, e);
    SameTokens(setup, s, Step(setup, s, e).value);
    NoBytesNoChange(setup, s.memory, s.lines[|s.handled|].task, e.stored, e.answer, e.memory);
  }

  lemma FrozenSame(setup: Setup, s: State, e: Event)
    requires Frozen(setup, s) && Step(setup, s, e).Some? && !e.Handle? && !e.SendOther?
    requires e.Send? ==> NextCommand(s.calls[e.call], |s.lines|) == None
    ensures Frozen(setup, Step(setup, s, e).value) && Step(setup, s, e).value.memory == s.memory
  {
    hide HandledRight, Replied, FromHex, Reserve, Release, CountOf, LinesFor, Accepted, EmptyWrite, TokensGood;
    LogKept(setup, s, e);
    SameTokens(setup, s, Step(setup, s, e).value);
  }

  lemma FrozenRead(setup: Setup, s: State, c: CallId)
    requires Frozen(setup, s) && setup.limits.maxMemoryWriteBytes <= 0
    requires Step(setup, s, Read(c)).Some? && FrozenPhase(setup, s, c, s.calls[c])
    ensures var t := Step(setup, s, Read(c)).value;
      FrozenPhase(setup, t, c, t.calls[c]) && ReportGood(setup, t, c, t.calls[c])
  {
    hide FromHex, Holds, Matches, ShowsMemory, TokensGood, EmptyWrite, Accepted;
    var p, t := s.calls[c], Step(setup, s, Read(c)).value;
    if s.lines[s.cursor].token == s.lines[p.k].token {
      OwnAnswer(setup, s, s.cursor, p.k);
      assert HandledRight(setup, s, p.k);
      if p.AwaitingRead? {
        if Matches(p.request, s.handled[p.k].answer) {
          MatchMeansHolds(setup, s.memory, p.request, s.handled[p.k].answer);
        }
      } else if p.AwaitingWrite? && s.handled[p.k].answer != Failed {
        var r, k := p.request, p.k;
        NothingToWrite(setup, r);
        var data := WriteData(r.address, 0, r.expectedOldHex.Some?);
        assert t.calls[c] == Leaving(Write(r), Some(data));
        FrozenReport(setup, s, t, c, r, k);
        assert Reports(setup, t, c, OperationOf(t.calls[c]).request, ResultOf(t.calls[c]).value, k);
      }
    }
  }

  lemma FrozenReport(setup: Setup, s: State, t: State, c: CallId, r: WriteRequest, k: nat)
    requires Frozen(setup, s) && FrozenPhase(setup, s, c, AwaitingWrite(r, k)) && k < |s.handled|
    requires s.handled[k].answer != Failed && FromHex(r.dataHex) == Some([])
    requires t.lines == s.lines && t.handled == s.handled && t.memory == s.memory
    ensures Reports(setup, t, c, r, WriteData(r.address, 0, r.expectedOldHex.Some?), k)
  {
    hide FromHex, Holds, ShowsMemory, TokensGood, EmptyWrite;
    assert HandledRight(setup, s, k);
    assert MemoryAfter(t, k) == MemoryAfter(s, k);
  }

  /** The phase a write enters when it sends its next command. */
  lemma NextPhase(setup: Setup, s: State, c: CallId, k: nat)
    requires c in s.calls && FrozenPhase(setup, s, c, s.calls[c])
    requires s.calls[c].Compared? || (s.calls[c].Started? && s.calls[c].operation.Write?)
    requires NextCommand(s.calls[c], k).Some?
    ensures match NextCommand(s.calls[c], k).value
      case (command, AwaitingRead(r, l)) => l == k && Accepted(setup, r) && Decodes(r) && command == ComparingRead(r)
      case (command, AwaitingWrite(r, l)) =>
        && l == k && Accepted(setup, r) && command == WriteCommand(r)
        && (r.expectedOldHex.Some? ==> OldHolds(setup, s.memory, r))
      case _ => false
  {
    hide FromHex, Holds, Accepted;
  }

  lemma FrozenSend(setup: Setup, s: State, c: CallId)
    requires Frozen(setup, s) && FrozenPhases(setup, s) && setup.limits.maxMemoryWriteBytes <= 0
    requires setup.discipline == NoBreaks && Step(setup, s, Send(c)).Some?
    ensures var t := Step(setup, s, Send(c)).value; FrozenPhase(setup, t, c, t.calls[c])
  {
    hide FromHex, OldHolds, Accepted, Frozen, LinesFor, Obeys, MICommandOf, IsCommand, EmptyWrite, NextCommand, Decodes;
    if NextCommand(s.calls[c], |s.lines|).Some? {
      var (command, p) := NextCommand(s.calls[c], |s.lines|).value;
      WritesAreEmpty(setup, s, c);
      FrozenSends(setup, s, c, command, p);
      NextPhase(setup, s, c, |s.lines|);
    }
  }

  /** A phase stays as it is when lines are added and the memory stays. */
  lemma FrozenPhaseStays(setup: Setup, s: State, t: State, c: CallId, p: Phase)
    requires FrozenPhase(setup, s, c, p) && s.lines <= t.lines && s.nextToken <= t.nextToken && t.memory == s.memory
    ensures FrozenPhase(setup, t, c, p)
  {
    hide FromHex, OldHolds, Accepted;
  }

  lemma TokensGrow(setup: Setup, s: State, e: Event)
    requires Step(setup, s, e).Some?
    ensures s.nextToken <= Step(setup, s, e).value.nextToken
  {
    hide Handles, Accepted, Replied, FromHex, Reserve, Release, CountOf, LinesFor, Obeys, NextCommand;
  }

  lemma FrozenPhasesKept(setup: Setup, s: State, e: Event)
    requires Frozen(setup, s) && FrozenPhases(setup, s) && setup.limits.maxMemoryWriteBytes <= 0
    requires setup.discipline == NoBreaks && Step(setup, s, e).Some?
    ensures FrozenPhases(setup, Step(setup, s, e).value)
  {
    hide Frozen, Step, FrozenPhase, InFlight;
    var t := Step(setup, s, e).value;
    FrozenKept(setup, s, e);
    FrozenLog(setup, s);
    LogKept(setup, s, e);
    TokensGrow(setup, s, e);
    if !e.Handle? && !e.Elsewhere? { OnlyCall(setup, s, e); } else { SameCalls(setup, s, e); }
    forall c | c in t.calls && InFlight(t.calls[c]) ensures FrozenPhase(setup, t, c, t.calls[c]) {
      if !e.Handle? && !e.Elsewhere? && c == e.call {
        FrozenOwn(setup, s, e);
      } else {
        FrozenPhaseStays(setup, s, t, c, s.calls[c]);
      }
    }
  }

  lemma FrozenLog(setup: Setup, s: State)
    requires Frozen(setup, s)
    ensures LogGood(setup, s)
  {}

  lemma FrozenOwn(setup: Setup, s: State, e: Event)
    requires Frozen(setup, s) && FrozenPhases(setup, s) && setup.limits.maxMemoryWriteBytes <= 0
    requires setup.discipline == NoBreaks && Step(setup, s, e).Some? && !e.Handle? && !e.Elsewhere?
    ensures var t := Step(setup, s, e).value; e.call in t.calls && FrozenPhase(setup, t, e.call, t.calls[e.call])
  {
    hide Frozen, Replied, FromHex, Reserve, Release, CountOf, LinesFor, OldHolds, MICommandOf, Obeys, NextCommand,
      IsCommand;
    match e
    case Send(c) => FrozenSend(setup, s, c);
    case Read(c) => FrozenRead(setup, s, c);
    case SendOther(c, command) =>
      PlainIs(command);
      FrozenSends(setup, s, c, Plain(command), AwaitingOther(|s.lines|));
      CommandIsFirst(Sends(s, c, Plain(command), AwaitingOther(|s.lines|)), c, |s.lines|, Plain(command));
    case _ =>
  }

  lemma CommandIsFirst(s: State, c: CallId, k: nat, command: Command)
    requires IsCommand(s, c, k, command)
    ensures FirstLine(s, k)
  {}

  lemma {:induction false} FrozenRun(setup: Setup, s: State, events: seq<Event>)
    requires Frozen(setup, s) && FrozenPhases(setup, s) && ReportsGood(setup, s)
    requires setup.limits.maxMemoryWriteBytes <= 0 && setup.discipline == NoBreaks && Run(setup, s, events).Some?
    ensures ReportsGood(setup, Run(setup, s, events).value)
    decreases |events|
  {
    hide Step, Frozen, FrozenPhase, ReportsGood, InFlight;
    if events != [] {
      var e := events[0];
      FrozenKept(setup, s, e);
      FrozenPhasesKept(setup, s, e);
      if e.Read? {
        assert e == Read(e.call);
        ReaderFlies(setup, s, e.call);
        FrozenRead(setup, s, e.call);
      }
      FrozenLog(setup, s);
      ReportsKept(setup, s, e);
      FrozenRun(setup, Step(setup, s, e).value, events[1..]);
    }
  }

  lemma StartFrozen(setup: Setup, memory: Memory)
    ensures Frozen(setup, Initial(memory)) && FrozenPhases(setup, Initial(memory))
    ensures ReportsGood(setup, Initial(memory))
  {}

  // ----- runs with a false report -----

  lemma {:induction false} RunThen(setup: Setup, s: State, events: seq<Event>, t: State, e: Event, u: State)
    requires Run(setup, s, events) == Some(t) && Step(setup, t, e) == Some(u)
    ensures Run(setup, s, events + [e]) == Some(u)
    decreases |events|
  {
    hide Step;
    if events == [] {
      assert (events + [e])[1..] == [];
      assert Run(setup, u, []) == Some(u);
    } else {
      assert (events + [e])[0] == events[0] && (events + [e])[1..] == events[1..] + [e];
      RunThen(setup, Step(setup, s, events[0]).value, events[1..], t, e, u);
    }
  }

  /** A session whose GDB resolves one address text. */
  function Board(limits: ResourceLimits, d: Discipline): Setup {
    Setup(limits, "s", map["0" := 0], d)
  }

  /** A write that wants a zero byte to be at address 0. */
  ghost predicate Wants(limits: ResourceLimits, r: WriteRequest) {
    && r.address == "0" && r.expectedOldHex == Some("00") && Unbroken(r.dataHex)
    && FromHex(r.dataHex).Some? && |FromHex(r.dataHex).value| <= limits.maxMemoryWriteBytes
  }

  lemma OneByte(hi: char, lo: char)
    requires IsHexDigit(hi) && IsHexDigit(lo)
    ensures FromHex([hi, lo]) == Some([(16 * HexValue(hi) + HexValue(lo)) as Byte])
  {
    var byte := (16 * HexValue(hi) + HexValue(lo)) as Byte;
    assert [hi, lo][2..] == "" && [byte] + [] == [byte];
  }

  lemma HexFacts()
    ensures FromHex("00") == Some([0]) && FromHex("01") == Some([1]) && FromHex("02") == Some([2])
    ensures LowerText("00") == ToHex([0])
  {
    OneByte('0', '0');
    OneByte('0', '1');
    OneByte('0', '2');
    assert ToHex([0]) == "00" by { assert [0][1..] == []; }
    assert LowerText("00") == "00";
  }

  lemma UnbrokenDigits(s: string)
    requires Text.AllDigits(s)
    ensures Unbroken(s)
  {}

  lemma PlainArgs(name: MICommands.CommandName, a: string, b: string)
    requires Unbroken(a) && Unbroken(b)
    ensures !HasBreak(MICommands.Command(name, [a, b]))
  {
    hide Unbroken;
  }

  /** The commands of such a write have no line breaks. */
  lemma WantsPlain(limits: ResourceLimits, r: WriteRequest)
    requires Wants(limits, r)
    ensures !HasBreak(MICommandOf(ReadCommand(r, 1))) && !HasBreak(MICommandOf(WriteCommand(r)))
  {
    hide HasBreak, FromHex;
    assert Unbroken("0");
    UnbrokenDigits(Text.DecimalText(1));
    PlainArgs(MICommands.DataReadMemoryBytes, "0", Text.DecimalText(1));
    PlainArgs(MICommands.DataWriteMemoryBytes, "0", r.dataHex);
  }

  lemma PlainObeys(d: Discipline, command: MICommands.Command)
    requires !HasBreak(command)
    ensures Obeys(d, command)
  {
    hide HasBreak, TokenBehind;
    NoBreakNoToken(command);
  }

  /** What the memory of a zero byte at address 0 reads as. */
  lemma ZeroShown(setup: Setup, memory: Memory)
    requires setup == Board(setup.limits, setup.discipline) && 0 in memory && memory[0] == 0
    ensures Possible(setup, memory, ReadBytes("0", 1), 0, Contents("00"))
  {
    HexFacts();
    hide FromHex, LowerText, ToHex;
    assert ShowsBlock(memory, 0, 1, "00", 0, [0]);
  }

  lemma ZeroMatches(limits: ResourceLimits, r: WriteRequest)
    requires Wants(limits, r)
    ensures Decodes(r) && ComparingRead(r) == ReadBytes("0", 1) && Matches(r, Contents("00"))
  {
    HexFacts();
    hide FromHex;
  }

  /** A call enters an idle session. */
  lemma EnterStep(setup: Setup, s: State, c: CallId, op: Operation)
    requires c !in s.calls && (op.Write? ==> Accepted(setup, op.request))
    requires setup.session == "s" && Reserve(setup.limits, s.counters, Some("s")).Some?
    ensures Step(setup, s, Enter(c, op))
      == Some(s.(counters := Reserve(setup.limits, s.counters, Some("s")).value, calls := s.calls[c := Started(op)]))
  {
    hide FromHex;
  }

  /** A write sends its next command, which has no line breaks. */
  lemma SendStep(setup: Setup, s: State, c: CallId, command: Command, p: Phase)
    requires c in s.calls && (s.calls[c].Compared? || (s.calls[c].Started? && s.calls[c].operation.Write?))
    requires NextCommand(s.calls[c], |s.lines|) == Some((command, p))
    requires s.holder == None && !HasBreak(MICommandOf(command))
    ensures Step(setup, s, Send(c))
      == Some(s.(lines := s.lines + [Line(c, Some(s.nextToken), Do(command))], nextToken := s.nextToken + 1,
                 holder := Some(c), calls := s.calls[c := p]))
  {
    hide LinesFor, NextCommand, HasBreak, Obeys, MICommandOf;
    PlainObeys(setup.discipline, MICommandOf(command));
    OneLineFor(c, s.nextToken, command);
  }

  lemma ReadComesFirst(limits: ResourceLimits, r: WriteRequest, k: nat)
    requires Wants(limits, r)
    ensures NextCommand(Started(Write(r)), k) == Some((ReadBytes("0", 1), AwaitingRead(r, k)))
  {
    HexFacts();
    hide FromHex;
  }

  /** A write sends the read it compares with. */
  lemma SendReadStep(setup: Setup, s: State, c: CallId, r: WriteRequest)
    requires c in s.calls && s.calls[c] == Started(Write(r)) && s.holder == None && Wants(setup.limits, r)
    ensures var n := |s.lines|;
      Step(setup, s, Send(c))
      == Some(s.(lines := s.lines + [Line(c, Some(s.nextToken), Do(ReadBytes("0", 1)))], nextToken := s.nextToken + 1,
                 holder := Some(c), calls := s.calls[c := AwaitingRead(r, n)]))
  {
    hide Step, NextCommand, HasBreak, MICommandOf, FromHex;
    ReadComesFirst(setup.limits, r, |s.lines|);
    WantsPlain(setup.limits, r);
    SendStep(setup, s, c, ReadBytes("0", 1), AwaitingRead(r, |s.lines|));
  }

  /** A write that has compared sends its data. */
  lemma SendWriteStep(setup: Setup, s: State, c: CallId, r: WriteRequest)
    requires c in s.calls && s.calls[c] == Compared(r) && s.holder == None && Wants(setup.limits, r)
    ensures var n := |s.lines|;
      Step(setup, s, Send(c))
      == Some(s.(lines := s.lines + [Line(c, Some(s.nextToken), Do(WriteCommand(r)))], nextToken := s.nextToken + 1,
                 holder := Some(c), calls := s.calls[c := AwaitingWrite(r, n)]))
  {
    hide Step, HasBreak, MICommandOf, FromHex;
    WantsPlain(setup.limits, r);
    SendStep(setup, s, c, WriteCommand(r), AwaitingWrite(r, |s.lines|));
  }

  lemma HandleStep(setup: Setup, s: State, stored: nat, answer: Answer, memory: Memory)
    requires |s.handled| < |s.lines| && Handles(setup, s.memory, s.lines[|s.handled|].task, stored, answer, memory)
    ensures Step(setup, s, Handle(stored, answer, memory))
      == Some(s.(handled := s.handled + [Handled(answer, s.memory, stored)], memory := memory))
  {
    hide Handles;
  }

  /** An answer with another token is read past. */
  lemma SkipStep(setup: Setup, s: State, c: CallId)
    requires c in s.calls && Awaiting(s.calls[c]) && s.cursor < |s.handled| <= |s.lines| && s.calls[c].k < |s.lines|
    requires s.lines[s.cursor].token != s.lines[s.calls[c].k].token
    ensures Step(setup, s, Read(c)) == Some(s.(cursor := s.cursor + 1))
  {
    hide Replied;
  }

  lemma ReplyStep(setup: Setup, s: State, c: CallId)
    requires c in s.calls && Awaiting(s.calls[c]) && s.cursor < |s.handled| <= |s.lines| && s.calls[c].k < |s.lines|
    requires s.lines[s.cursor].token == s.lines[s.calls[c].k].token
    ensures Step(setup, s, Read(c))
      == Some(s.(cursor := s.cursor + 1, holder := None,
                 calls := s.calls[c := Replied(s.calls[c], s.handled[s.cursor].answer)]))
  {
    hide Replied;
  }

  lemma {:induction false} SkipTo(setup: Setup, start: State, before: seq<Event>, s: State, c: CallId)
    returns (events: seq<Event>, t: State)
    requires Run(setup, start, before) == Some(s)
    requires c in s.calls && Awaiting(s.calls[c]) && s.cursor <= s.calls[c].k < |s.handled| <= |s.lines|
    requires forall i :: s.cursor <= i < s.calls[c].k ==> s.lines[i].token != s.lines[s.calls[c].k].token
    ensures Run(setup, start, events) == Some(t) && t == s.(cursor := s.calls[c].k)
    decreases s.calls[c].k - s.cursor
  {
    hide Step, Run;
    if s.cursor == s.calls[c].k { return before, s; }
    SkipStep(setup, s, c);
    RunThen(setup, start, before, s, Read(c), s.(cursor := s.cursor + 1));
    events, t := SkipTo(setup, start, before + [Read(c)], s.(cursor := s.cursor + 1), c);
  }

  /** A call has compared and sends its write when the memory no longer holds the old value. */
  ghost predicate TooLate(setup: Setup, s: State, c: CallId, r: WriteRequest) {
    && setup == Board(setup.limits, setup.discipline) && Wants(setup.limits, r)
    && c in s.calls && s.calls[c] == Compared(r) && s.holder == None
    && s.cursor <= |s.handled| == |s.lines|
    && 0 in s.memory && s.memory[0] != 0
    && (forall i: nat :: i < |s.lines| ==> s.lines[i].call != c || s.lines[i].task != Do(WriteCommand(r)))
    && (forall i: nat :: s.cursor <= i < |s.lines| ==> s.lines[i].token != Some(s.nextToken))
  }

  /** Such a call still reports a verified write. */
  lemma FalseReport(setup: Setup, start: State, before: seq<Event>, s: State, c: CallId, r: WriteRequest)
    returns (events: seq<Event>, t: State)
    requires Run(setup, start, before) == Some(s) && TooLate(setup, s, c, r)
    ensures Run(setup, start, events) == Some(t) && !ReportsTrue(setup, t)
  {
    hide Step, Run, FromHex, Reports, Handles, Store, Replied, ReportsTrue;
    var n, bytes := |s.lines|, FromHex(r.dataHex).value;
    var a := s.(lines := s.lines + [Line(c, Some(s.nextToken), Do(WriteCommand(r)))], nextToken := s.nextToken + 1,
                holder := Some(c), calls := s.calls[c := AwaitingWrite(r, n)]);
    SendWriteStep(setup, s, c, r);
    RunThen(setup, start, before, s, Send(c), a);
    var after := Store(s.memory, 0, bytes);
    var b := a.(handled := a.handled + [Handled(Completed, s.memory, |bytes|)], memory := after);
    StoresAll(setup, s.memory, r);
    HandleStep(setup, a, |bytes|, Completed, after);
    RunThen(setup, start, before + [Send(c)], a, Handle(|bytes|, Completed, after), b);
    var d;
    events, d := SkipTo(setup, start, before + [Send(c)] + [Handle(|bytes|, Completed, after)], b, c);
    ReplyStep(setup, d, c);
    t := d.(cursor := n + 1, holder := None, calls := d.calls[c := Replied(d.calls[c], Completed)]);
    RunThen(setup, start, events, d, Read(c), t);
    events := events + [Read(c)];
    NotTrue(setup, t, c, r, n);
  }

  lemma StoresAll(setup: Setup, memory: Memory, r: WriteRequest)
    requires setup == Board(setup.limits, setup.discipline) && Wants(setup.limits, r)
    ensures var bytes := FromHex(r.dataHex).value;
      Handles(setup, memory, Do(WriteCommand(r)), |bytes|, Completed, Store(memory, 0, bytes))
  {
    hide FromHex, Store;
    var bytes := FromHex(r.dataHex).value;
    assert bytes[..|bytes|] == bytes;
  }

  lemma NotTrue(setup: Setup, t: State, c: CallId, r: WriteRequest, n: nat)
    requires setup == Board(setup.limits, setup.discipline) && Wants(setup.limits, r)
    requires n < |t.handled| <= |t.lines| && 0 in t.handled[n].before && t.handled[n].before[0] != 0
    requires forall i: nat :: i < |t.lines| && i != n ==>
      t.lines[i].call != c || t.lines[i].task != Do(WriteCommand(r))
    requires c in t.calls && t.calls[c] == Replied(AwaitingWrite(r, n), Completed)
    ensures !ReportsTrue(setup, t)
  {
    HexFacts();
    hide FromHex, Store;
    var data := WriteData(r.address, |FromHex(r.dataHex).value|, true);
    assert t.calls[c] == Leaving(Write(r), Some(data));
    forall k: nat ensures !Reports(setup, t, c, r, data, k) {
      if k == n {
        var before := t.handled[n].before;
        assert !Holds(before, 0, [0]) by { assert !ByteAt(before, 0 + 0, [0][0]); }
      }
    }
  }

  // ----- two calls at once -----

  function Two(a: Phase, b: Phase): map<CallId, Phase> {
    map[0 := a, 1 := b]
  }

  const ZERO := map[0 := 0]
  const FIRST_READ := Line(0, Some(1), Do(ReadBytes("0", 1)))
  const SHOWN := Handled(Contents("00"), ZERO, 0)

  /** A write has compared while another call is about to start. */
  function ComparedFirst(r: WriteRequest, other: Operation): State {
    State(Counters(2, map["s" := 2]), 2, None, Two(Compared(r), Started(other)), [FIRST_READ], [SHOWN], 1, ZERO)
  }

  lemma BothEnter(limits: ResourceLimits, d: Discipline, r: WriteRequest, other: Operation) returns (events: seq<Event>)
    requires !OneAtATime(limits) && Wants(limits, r) && (other.Write? ==> Accepted(Board(limits, d), other.request))
    ensures Run(Board(limits, d), Initial(ZERO), events)
      == Some(State(Counters(2, map["s" := 2]), 1, None, Two(Started(Write(r)), Started(other)), [], [], 0, ZERO))
  {
    hide Step, FromHex, Run;
    var setup, start := Board(limits, d), Initial(ZERO);
    var a := start.(counters := Counters(1, map["s" := 1]), calls := map[0 := Started(Write(r))]);
    var b := a.(counters := Counters(2, map["s" := 2]), calls := Two(Started(Write(r)), Started(other)));
    EnterStep(setup, start, 0, Write(r));
    EnterStep(setup, a, 1, other);
    assert map["s" := 1]["s" := 2] == map["s" := 2] && a.calls[1 := Started(other)] == b.calls;
    RunNothing(setup, start);
    RunThen(setup, start, [], start, Enter(0, Write(r)), a);
    RunThen(setup, start, [] + [Enter(0, Write(r))], a, Enter(1, other), b);
    events := [] + [Enter(0, Write(r))] + [Enter(1, other)];
  }

  lemma RunNothing(setup: Setup, s: State)
    ensures Run(setup, s, []) == Some(s)
  {}

  /** The write has sent its comparing read. */
  lemma ReadFirst(limits: ResourceLimits, d: Discipline, r: WriteRequest, other: Operation)
    returns (events: seq<Event>, b: State)
    requires !OneAtATime(limits) && Wants(limits, r) && (other.Write? ==> Accepted(Board(limits, d), other.request))
    ensures Run(Board(limits, d), Initial(ZERO), events) == Some(b)
    ensures b == State(Counters(2, map["s" := 2]), 2, Some(0), Two(AwaitingRead(r, 0), Started(other)),
                       [FIRST_READ], [], 0, ZERO)
  {
    hide Step, FromHex, Run, Wants, Accepted, OneAtATime;
    var setup, start, o := Board(limits, d), Initial(ZERO), Started(other);
    events := BothEnter(limits, d, r, other);
    var a := State(Counters(2, map["s" := 2]), 1, None, Two(Started(Write(r)), o), [], [], 0, ZERO);
    b := a.(lines := [FIRST_READ], nextToken := 2, holder := Some(0), calls := Two(AwaitingRead(r, 0), o));
    assert [] + [FIRST_READ] == [FIRST_READ] && a.calls[0 := AwaitingRead(r, 0)] == b.calls;
    SendReadStep(setup, a, 0, r);
    RunThen(setup, start, events, a, Send(0), b);
    events := events + [Send(0)];
  }

  lemma CompareFirst(limits: ResourceLimits, d: Discipline, r: WriteRequest, other: Operation)
    returns (events: seq<Event>)
    requires !OneAtATime(limits) && Wants(limits, r) && (other.Write? ==> Accepted(Board(limits, d), other.request))
    ensures Run(Board(limits, d), Initial(ZERO), events) == Some(ComparedFirst(r, other))
  {
    hide Step, FromHex, Run, Possible, Matches, Wants, Accepted, OneAtATime, Decodes;
    var setup, start, b := Board(limits, d), Initial(ZERO), Initial(ZERO);
    events, b := ReadFirst(limits, d, r, other);
    var c := b.(handled := [SHOWN]);
    assert [] + [SHOWN] == [SHOWN];
    ZeroShown(setup, ZERO);
    HandleStep(setup, b, 0, Contents("00"), ZERO);
    RunThen(setup, start, events, b, Handle(0, Contents("00"), ZERO), c);
    ZeroMatches(limits, r);
    ReplyStep(setup, c, 0);
    assert c.calls[0 := Compared(r)] == Two(Compared(r), Started(other));
    RunThen(setup, start, events + [Handle(0, Contents("00"), ZERO)], c, Read(0), ComparedFirst(r, other));
    events := events + [Handle(0, Contents("00"), ZERO)] + [Read(0)];
  }

  const TWO := WriteRequest("0", "02", None)

  const WRITE_TWO := Line(1, Some(2), Do(WriteBytes("0", "02")))

  lemma SendTwo(setup: Setup, s: State)
    requires 1 in s.calls && s.calls[1] == Started(Write(TWO)) && s.holder == None && s.nextToken == 2
    ensures Step(setup, s, Send(1))
      == Some(s.(lines := s.lines + [WRITE_TWO], nextToken := 3, holder := Some(1),
                 calls := s.calls[1 := AwaitingWrite(TWO, |s.lines|)]))
  {
    hide Step, HasBreak;
    assert Unbroken("0") && Unbroken("02");
    PlainArgs(MICommands.DataWriteMemoryBytes, "0", "02");
    SendStep(setup, s, 1, WriteCommand(TWO), AwaitingWrite(TWO, |s.lines|));
  }

  /** Another call's write slips in between the comparison and the write that is reported as verified. */
  lemma TwoOperationsBreakIt(limits: ResourceLimits, d: Discipline, r: WriteRequest)
    returns (events: seq<Event>, t: State)
    requires !OneAtATime(limits) && limits.maxMemoryWriteBytes >= 1 && Wants(limits, r)
    ensures Run(Board(limits, d), Initial(ZERO), events) == Some(t) && !ReportsTrue(Board(limits, d), t)
  {
    hide Step, FromHex, Run, Handles, ReportsTrue, Replied;
    HexFacts();
    var setup, start := Board(limits, d), Initial(ZERO);
    events := CompareFirst(limits, d, r, Write(TWO));
    var s := ComparedFirst(r, Write(TWO));
    var a := s.(lines := [FIRST_READ] + [WRITE_TWO], nextToken := 3, holder := Some(1),
                calls := s.calls[1 := AwaitingWrite(TWO, 1)]);
    SendTwo(setup, s);
    RunThen(setup, start, events, s, Send(1), a);
    var b := a.(handled := [SHOWN] + [Handled(Completed, ZERO, 1)], memory := map[0 := 2]);
    TwoStored(setup);
    HandleStep(setup, a, 1, Completed, map[0 := 2]);
    RunThen(setup, start, events + [Send(1)], a, Handle(1, Completed, map[0 := 2]), b);
    ReplyStep(setup, b, 1);
    var c := b.(cursor := 2, holder := None, calls := b.calls[1 := Replied(b.calls[1], Completed)]);
    RunThen(setup, start, events + [Send(1)] + [Handle(1, Completed, map[0 := 2])], b, Read(1), c);
    assert TooLate(setup, c, 0, r);
    events, t := FalseReport(setup, start,
                             events + [Send(1)] + [Handle(1, Completed, map[0 := 2])] + [Read(1)], c, 0, r);
  }

  lemma TwoStored(setup: Setup)
    requires setup == Board(setup.limits, setup.discipline)
    ensures Handles(setup, ZERO, WRITE_TWO.task, 1, Completed, map[0 := 2])
  {
    HexFacts();
    hide FromHex;
    assert [2][..1] == [2] && [2][..0] == [];
    assert Store(ZERO, 0, [2]) == Store(ZERO, 0, [])[0 := 2];
    assert ZERO[0 := 2] == map[0 := 2];
  }

  // ----- a line behind a line break that has no number -----

  /** A memory read whose address holds two line breaks and a write command between them. */
  const CUT_READ := MICommands.Command(MICommands.DataReadMemoryBytes, ["0" + "\n" + INNER_WRITE + "\n" + ""] + ["1"])

  const INNER_WRITE := "-data-write-memory-bytes 0 02"

  lemma CutReadLines()
    ensures LinesBehind(CUT_READ) == [INNER_WRITE, "\" 1"] && !TokenBehind(CUT_READ)
    ensures LeadingToken(INNER_WRITE) == None && LeadingToken("\" 1") == None
  {
    hide Unbroken, NoQuotes, LinesBehind, Lines, MICommands.QuoteArg, LeadingToken;
    InnerWriteIsPlain();
    InnerLine(MICommands.DataReadMemoryBytes, "0", INNER_WRITE, "", ["1"]);
    MICorrelation.LastLine();
    NoNumber();
  }

  lemma NoNumber()
    ensures LeadingToken(INNER_WRITE) == None && LeadingToken("\" 1") == None
  {}

  lemma InnerWriteIsPlain()
    ensures Unbroken("0") && Unbroken(INNER_WRITE) && NoQuotes("0" + "\n" + INNER_WRITE + "\n" + "")
  {
    assert forall k :: 0 <= k < |INNER_WRITE| ==> MICorrelation.IsWordChar(INNER_WRITE[k]);
  }

  /** A command with two lines behind its first. */
  lemma ThreeLines(c: CallId, token: nat, command: MICommands.Command, inner: string, last: string)
    requires LinesBehind(command) == [inner, last]
    ensures LinesFor(c, token, Plain(command))
      == [Line(c, Some(token), Cut), Line(c, LeadingToken(inner), Behind), Line(c, LeadingToken(last), Behind)]
  {
    hide LinesBehind, LeadingToken, CommandLines;
    PlainIs(command);
    LinesOfCommand(command, token);
    var texts := CommandLines(command, token);
    assert texts == [texts[0]] + texts[1..];
  }

  lemma SendOtherStep(setup: Setup, s: State, c: CallId, command: MICommands.Command, added: seq<Line>)
    requires c in s.calls && s.calls[c] == Started(Other) && s.holder == None && Obeys(setup.discipline, command)
    requires command.name != MICommands.DataWriteMemoryBytes && LinesFor(c, s.nextToken, Plain(command)) == added
    ensures Step(setup, s, SendOther(c, command))
      == Some(s.(lines := s.lines + added, nextToken := s.nextToken + 1, holder := Some(c),
                 calls := s.calls[c := AwaitingOther(|s.lines|)]))
  {
    hide LinesFor, Obeys;
  }

  const CUT_LINES := [Line(1, Some(2), Cut), Line(1, None, Behind), Line(1, None, Behind)]

  /** Another call sends the read that changes the memory. */
  lemma SendCut(limits: ResourceLimits, r: WriteRequest) returns (events: seq<Event>, a: State)
    requires !OneAtATime(limits) && Wants(limits, r)
    ensures Run(Board(limits, NoTokenBehind), Initial(ZERO), events) == Some(a)
    ensures a == ComparedFirst(r, Other).(lines := [FIRST_READ] + CUT_LINES, nextToken := 3, holder := Some(1),
                                          calls := Two(Compared(r), AwaitingOther(1)))
  {
    hide Step, FromHex, Run, LeadingToken, LinesBehind, TokenBehind, LinesFor, Wants, Awaiting;
    var setup, start, s := Board(limits, NoTokenBehind), Initial(ZERO), ComparedFirst(r, Other);
    events := CompareFirst(limits, NoTokenBehind, r, Other);
    CutReadLines();
    ThreeLines(1, 2, CUT_READ, INNER_WRITE, "\" 1");
    SendOtherStep(setup, s, 1, CUT_READ, CUT_LINES);
    a := s.(lines := [FIRST_READ] + CUT_LINES, nextToken := 3, holder := Some(1),
            calls := Two(Compared(r), AwaitingOther(1)));
    assert s.calls[1 := AwaitingOther(1)] == a.calls;
    RunThen(setup, start, events, s, SendOther(1, CUT_READ), a);
    events := events + [SendOther(1, CUT_READ)];
  }

  /** A line of another call's command changes the memory between the comparison and the write. */
  lemma CutCommandBreaksIt(limits: ResourceLimits, r: WriteRequest) returns (events: seq<Event>, t: State)
    requires !OneAtATime(limits) && Wants(limits, r)
    ensures var setup := Board(limits, NoTokenBehind);
      Run(setup, Initial(ZERO), events) == Some(t) && !ReportsTrue(setup, t)
  {
    hide Step, Run, ReportsTrue, Wants;
    var setup, start, two := Board(limits, NoTokenBehind), Initial(ZERO), map[0 := 2];
    var a;
    events, a := SendCut(limits, r);
    var b := a.(handled := [SHOWN] + [Handled(Failed, ZERO, 0)]);
    HandleStep(setup, a, 0, Failed, ZERO);
    RunThen(setup, start, events, a, Handle(0, Failed, ZERO), b);
    var c := b.(handled := b.handled + [Handled(Completed, ZERO, 1)], memory := two);
    HandleStep(setup, b, 1, Completed, two);
    RunThen(setup, start, events + [Handle(0, Failed, ZERO)], b, Handle(1, Completed, two), c);
    events := events + [Handle(0, Failed, ZERO)] + [Handle(1, Completed, two)];
    var d := c.(handled := c.handled + [Handled(Failed, two, 0)]);
    HandleStep(setup, c, 0, Failed, two);
    RunThen(setup, start, events, c, Handle(0, Failed, two), d);
    ReplyStep(setup, d, 1);
    var e := d.(cursor := 2, holder := None, calls := d.calls[1 := Started(Other)]);
    RunThen(setup, start, events + [Handle(0, Failed, two)], d, Read(1), e);
    assert TooLate(setup, e, 0, r);
    events, t := FalseReport(setup, start, events + [Handle(0, Failed, two)] + [Read(1)], e, 0, r);
  }

  // ----- a line behind a line break that begins with a number -----

  const ONE := map[0 := 1]

  const BROKEN := [Line(0, Some(1), Cut), Line(0, Some(2), Behind), Line(0, None, Behind)]

  /** A call sends a read that reaches GDB as three lines. */
  lemma SendBroken(limits: ResourceLimits) returns (events: seq<Event>, s: State)
    requires !NoWrites(limits)
    ensures Run(Board(limits, AnyText), Initial(ONE), events) == Some(s)
    ensures s == State(Counters(1, map["s" := 1]), 2, Some(0), map[0 := AwaitingOther(0)], BROKEN, [], 0, ONE)
  {
    hide Step, Run, LeadingToken, LinesBehind, TokenBehind, LinesFor, HasBreak, Awaiting;
    var setup, start := Board(limits, AnyText), Initial(ONE);
    MICorrelation.BrokenReadLines();
    MICorrelation.BrokenReadHasToken();
    ThreeLines(0, 1, MICorrelation.BROKEN_READ, MICorrelation.INNER_READ, "\" 1");
    var a := start.(counters := Counters(1, map["s" := 1]), calls := map[0 := Started(Other)]);
    EnterStep(setup, start, 0, Other);
    RunNothing(setup, start);
    RunThen(setup, start, [], start, Enter(0, Other), a);
    SendOtherStep(setup, a, 0, MICorrelation.BROKEN_READ, BROKEN);
    s := a.(lines := BROKEN, nextToken := 2, holder := Some(0), calls := map[0 := AwaitingOther(0)]);
    assert [] + BROKEN == BROKEN && a.calls[0 := AwaitingOther(0)] == s.calls;
    RunThen(setup, start, [] + [Enter(0, Other)], a, SendOther(0, MICorrelation.BROKEN_READ), s);
    events := [] + [Enter(0, Other)] + [SendOther(0, MICorrelation.BROKEN_READ)];
  }

  const BROKEN_HANDLED := [Handled(Failed, ONE, 0), Handled(Contents("00"), ONE, 0)]

  /** The call is given the error to the first line and leaves; the answer to the second stays unread. */
  lemma BrokenReadFirst(limits: ResourceLimits) returns (events: seq<Event>, s: State)
    requires !NoWrites(limits)
    ensures Run(Board(limits, AnyText), Initial(ONE), events) == Some(s)
    ensures s == State(Counters(0, map[]), 2, None, map[0 := Ended(Other, None)], BROKEN, BROKEN_HANDLED, 1, ONE)
  {
    hide Step, Run, NoWrites;
    var setup, start := Board(limits, AnyText), Initial(ONE);
    var b;
    events, b := SendBroken(limits);
    var c := b.(handled := [Handled(Failed, ONE, 0)]);
    assert [] + [Handled(Failed, ONE, 0)] == [Handled(Failed, ONE, 0)];
    assert [Handled(Failed, ONE, 0)] + [Handled(Contents("00"), ONE, 0)] == BROKEN_HANDLED;
    HandleStep(setup, b, 0, Failed, ONE);
    RunThen(setup, start, events, b, Handle(0, Failed, ONE), c);
    var d := c.(handled := BROKEN_HANDLED);
    HandleStep(setup, c, 0, Contents("00"), ONE);
    RunThen(setup, start, events + [Handle(0, Failed, ONE)], c, Handle(0, Contents("00"), ONE), d);
    events := events + [Handle(0, Failed, ONE)] + [Handle(0, Contents("00"), ONE)];
    var e := d.(cursor := 1, holder := None, calls := map[0 := Started(Other)]);
    ReplyStep(setup, d, 0);
    assert d.calls[0 := Started(Other)] == e.calls;
    RunThen(setup, start, events, d, Read(0), e);
    events, s := LeaveFirst(setup, start, events + [Read(0)], e);
  }

  lemma LeaveFirst(setup: Setup, start: State, before: seq<Event>, e: State) returns (events: seq<Event>, s: State)
    requires Run(setup, start, before) == Some(e) && setup.session == "s" && e.holder == None
    requires e.calls == map[0 := Started(Other)] && e.counters == Counters(1, map["s" := 1])
    ensures Run(setup, start, events) == Some(s)
    ensures s == e.(counters := Counters(0, map[]), calls := map[0 := Ended(Other, None)])
  {
    hide Run;
    var f := e.(calls := map[0 := Leaving(Other, None)]);
    assert e.calls[0 := Leaving(Other, None)] == f.calls;
    RunThen(setup, start, before, e, Abandon(0), f);
    s := f.(counters := Counters(0, map[]), calls := map[0 := Ended(Other, None)]);
    assert map["s" := 1] - {"s"} == map[] && f.calls[0 := Ended(Other, None)] == s.calls;
    RunThen(setup, start, before + [Abandon(0)], f, Leave(0), s);
    events := before + [Abandon(0)] + [Leave(0)];
  }

  const SECOND_READ := Line(1, Some(2), Do(ReadBytes("0", 1)))

  /** The next call sends its comparing read, which has the number of the line inside the earlier command. */
  lemma ReadAfterBroken(limits: ResourceLimits, r: WriteRequest) returns (events: seq<Event>, b: State)
    requires !NoWrites(limits) && Wants(limits, r)
    ensures Run(Board(limits, AnyText), Initial(ONE), events) == Some(b)
    ensures b == State(Counters(1, map["s" := 1]), 3, Some(1), Two(Ended(Other, None), AwaitingRead(r, 3)),
                       BROKEN + [SECOND_READ], BROKEN_HANDLED, 1, ONE)
  {
    hide Step, FromHex, Run, Matches, Decodes;
    var setup, start := Board(limits, AnyText), Initial(ONE);
    var s;
    events, s := BrokenReadFirst(limits);
    var a := s.(counters := Counters(1, map["s" := 1]), calls := Two(Ended(Other, None), Started(Write(r))));
    EnterStep(setup, s, 1, Write(r));
    assert s.calls[1 := Started(Write(r))] == a.calls;
    RunThen(setup, start, events, s, Enter(1, Write(r)), a);
    b := a.(lines := BROKEN + [SECOND_READ], nextToken := 3, holder := Some(1),
            calls := Two(Ended(Other, None), AwaitingRead(r, 3)));
    SendReadStep(setup, a, 1, r);
    assert a.calls[1 := AwaitingRead(r, 3)] == b.calls;
    RunThen(setup, start, events + [Enter(1, Write(r))], a, Send(1), b);
    events := events + [Enter(1, Write(r))] + [Send(1)];
  }

  /** One call at a time: the answer to a line inside an earlier command, which is read as the reply to the comparing
      read that has its number, makes a write be reported as verified that overwrites other bytes. */
  lemma ForeignReplyBreaksIt(limits: ResourceLimits, r: WriteRequest) returns (events: seq<Event>, t: State)
    requires !NoWrites(limits) && Wants(limits, r)
    ensures var setup := Board(limits, AnyText);
      Run(setup, Initial(ONE), events) == Some(t) && !ReportsTrue(setup, t)
  {
    hide Step, Run, ReportsTrue, Matches, Decodes, Wants, NoWrites;
    var setup, start := Board(limits, AnyText), Initial(ONE);
    var b;
    events, b := ReadAfterBroken(limits, r);
    var c := b.(handled := BROKEN_HANDLED + [Handled(Failed, ONE, 0)]);
    HandleStep(setup, b, 0, Failed, ONE);
    RunThen(setup, start, events, b, Handle(0, Failed, ONE), c);
    var d := c.(handled := c.handled + [Handled(Failed, ONE, 0)]);
    HandleStep(setup, c, 0, Failed, ONE);
    RunThen(setup, start, events + [Handle(0, Failed, ONE)], c, Handle(0, Failed, ONE), d);
    events := events + [Handle(0, Failed, ONE)] + [Handle(0, Failed, ONE)];
    ZeroMatches(limits, r);
    ReplyStep(setup, d, 1);
    var e := d.(cursor := 2, holder := None, calls := Two(Ended(Other, None), Compared(r)));
    assert d.calls[1 := Compared(r)] == e.calls;
    RunThen(setup, start, events, d, Read(1), e);
    assert TooLate(setup, e, 1, r);
    events, t := FalseReport(setup, start, events + [Read(1)], e, 1, r);
  }

  // ----- exactly -----

  /** A write of no bytes, in a form the request schema accepts. */
  const NOTHING := WriteRequest("0", "  ", Some("00"))

  lemma NothingWants(limits: ResourceLimits)
    requires limits.maxMemoryWriteBytes >= 0
    ensures Wants(limits, NOTHING)
  {
    assert "  "[1..] == " " && " "[1..] == "";
  }

  /** Reports are true in all runs under these limits and this discipline. */
  ghost predicate AlwaysTrue(limits: ResourceLimits, d: Discipline) {
    forall setup: Setup, memory, events, s ::
      setup.limits == limits && setup.discipline == d && Run(setup, Initial(memory), events) == Some(s) ==>
        ReportsTrue(setup, s)
  }

  /** For all limits: every report is true, in all runs, if and only if no write gets through at all; or no command has
      a number in front of a line behind its first and the limits let one call at a time run on the session; or no
      command has a line break and no byte may be written. */
  lemma CompareBeforeWriteExactly(limits: ResourceLimits, d: Discipline)
    ensures AlwaysTrue(limits, d) <==>
      || NoWrites(limits)
      || (d != AnyText && OneAtATime(limits))
      || (d == NoBreaks && limits.maxMemoryWriteBytes <= 0)
  {
    hide Run, ReportsTrue, ReportsGood, Reports, Frozen, FrozenPhases, Wants;
    if NoWrites(limits) || (d != AnyText && OneAtATime(limits)) || (d == NoBreaks && limits.maxMemoryWriteBytes <= 0) {
      forall setup: Setup, memory, events, s |
        setup.limits == limits && setup.discipline == d && Run(setup, Initial(memory), events) == Some(s)
        ensures ReportsTrue(setup, s)
      {
        if NoWrites(limits) {
          NoWritesTrue(setup, memory, events, s);
        } else if OneAtATime(limits) && d != AnyText {
          VerifiedWritesAtomic(setup, memory, events, s);
        } else {
          StartFrozen(setup, memory);
          FrozenRun(setup, Initial(memory), events);
          ReportsGoodTrue(setup, s);
        }
      }
    } else {
      NothingWants(limits);
      var events, t;
      if d == AnyText {
        events, t := ForeignReplyBreaksIt(limits, NOTHING);
      } else if d == NoTokenBehind {
        events, t := CutCommandBreaksIt(limits, NOTHING);
      } else {
        events, t := TwoOperationsBreakIt(limits, d, NOTHING);
      }
    }
  }

  lemma NoWritesTrue(setup: Setup, memory: Memory, events: seq<Event>, s: State)
    requires NoWrites(setup.limits) && Run(setup, Initial(memory), events) == Some(s)
    ensures ReportsTrue(setup, s)
  {
    hide Step, Reports;
    assert InFlightCalls(Initial(memory)) == {};
    NoWritersRun(setup, Initial(memory), events);
  }
}
