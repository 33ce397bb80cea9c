/** Many callers on one controller. A run is any sequence of events: an event is the code one call executes between
    two suspension points, a timeout, error or cancellation at one, or GDB emitting a line. */
module MIProtocol {
  import opened Basics
  import opened MIRecords
  import opened MIController
  import opened MICommands
  import opened MILines

  type CallId = nat

  datatype Phase =
    | Waiting                      // admitted, waiting for the command lock
    | Draining(token: nat)         // holds the lock, has written its command
    | InLoop(reading: Reading)     // holds the lock, in the read loop
    | Leaving(outcome: Outcome)    // lock given up, queue slot not yet
    | Ended(outcome: Outcome)

  datatype Write = Write(call: CallId, token: nat, command: Command)

  /** A line that GDB reads: line `line` of the text written at `write`. */
  datatype Source = Source(write: nat, line: nat)

  /** A line from GDB; `answers` says which line GDB read made it say so, when it is a reply. */
  datatype Emission = Emission(line: string, answers: Option<Source>)

  /** One read loop: the lines of the input from `start` up to `end`. */
  datatype Span = Span(call: CallId, start: nat, end: nat)

  /** `written`, `input` and `spans` record what has happened; the controller itself keeps the first three fields. */
  datatype State = State(
    nextToken: nat,
    queued: int,
    holder: Option<CallId>,
    calls: map<CallId, Phase>,
    written: seq<Write>,
    input: seq<Emission>,
    spans: seq<Span>)

  const INITIAL := State(1, 0, None, map[], [], [], [])

  datatype Event =
    | Arrive(call: CallId)
    | LockAndWrite(call: CallId, command: Command)
    | LockAndFail(call: CallId)
    | Drained(call: CallId)
    | ReadNext(call: CallId)
    | Abandon(call: CallId, error: ControllerError)
    | Release(call: CallId)
    | Emit(emission: Emission)

  /** How many lines have been consumed. */
  function Cursor(s: State): nat {
    if s.spans == [] then 0 else s.spans[|s.spans| - 1].end
  }

  /** The current read loop has consumed one more line. */
  function Longer(spans: seq<Span>): seq<Span>
    requires spans != []
  {
    var last := spans[|spans| - 1];
    spans[|spans| - 1 := last.(end := last.end + 1)]
  }

  predicate Holds(p: Phase) {
    p.Draining? || p.InLoop?
  }

  /** Between admission and release of the queue slot. */
  predicate Active(p: Phase) {
    !p.Ended?
  }

  function ActiveCalls(s: State): set<CallId> {
    set c | c in s.calls && Active(s.calls[c])
  }

  /** GDB has read the line, and this token stands in front of it. */
  predicate HasRead(written: seq<Write>, source: Source, token: nat) {
    && source.write < |written|
    && var w := written[source.write];
       source.line < |CommandLines(w.command, w.token)|
       && LeadingToken(CommandLines(w.command, w.token)[source.line]) == Some(token)
  }

  /** GDB puts the token of a line it reads on the reply to that line, and on no other result record. */
  predicate Honest(written: seq<Write>, e: Emission) {
    match MIParser.RecordOf(e.line)
    case Failure(_) => true
    case Success(r) =>
      r.MIRecord? && r.kind == ResultKind && r.token.Some? ==>
        e.answers.Some? && HasRead(written, e.answers.value, r.token.value)
  }

  function InputLines(input: seq<Emission>): seq<string> {
    seq(|input|, i requires 0 <= i < |input| => input[i].line)
  }

  function Leave(s: State, c: CallId, outcome: Outcome): State
    requires c in s.calls
  {
    s.(calls := s.calls[c := Leaving(outcome)], holder := if s.holder == Some(c) then None else s.holder)
  }

  /** The state after an event, if the event can happen. */
  function Step(max: int, s: State, e: Event): Option<State> {
    match e
    case Arrive(c) =>
      if c in s.calls then None
      else if s.queued >= max then Some(s.(calls := s.calls[c := Ended(Failure(QueueFull))]))
      else Some(s.(calls := s.calls[c := Waiting], queued := s.queued + 1))
    case LockAndWrite(c, command) =>
      if !(c in s.calls && s.calls[c].Waiting? && s.holder == None) then None
      else Some(s.(calls := s.calls[c := Draining(s.nextToken)], holder := Some(c),
                   nextToken := s.nextToken + 1, written := s.written + [Write(c, s.nextToken, command)]))
    case LockAndFail(c) =>
      if !(c in s.calls && s.calls[c].Waiting? && s.holder == None) then None
      else Some(s.(calls := s.calls[c := Leaving(Failure(TransportFailed))], nextToken := s.nextToken + 1))
    case Drained(c) =>
      if !(c in s.calls && s.calls[c].Draining?) then None
      else Some(s.(calls := s.calls[c := InLoop(Reading(s.calls[c].token, [], []))],
                   spans := s.spans + [Span(c, Cursor(s), Cursor(s))]))
    case ReadNext(c) =>
      if !(c in s.calls && s.calls[c].InLoop? && s.spans != [] && Cursor(s) < |s.input|) then None else
      var t := s.(spans := Longer(s.spans));
      (match ReadOne(s.calls[c].reading, s.input[Cursor(s)].line)
       case More(reading) => Some(t.(calls := s.calls[c := InLoop(reading)]))
       case Done(outcome) => Some(Leave(t, c, outcome)))
    case Abandon(c, error) =>
      if c in s.calls && CanAbandon(s.calls[c], error) then Some(Leave(s, c, Failure(error))) else None
    case Release(c) =>
      if !(c in s.calls && s.calls[c].Leaving?) then None
      else Some(s.(calls := s.calls[c := Ended(s.calls[c].outcome)], queued := Released(s.queued)))
    case Emit(emission) =>
      if Honest(s.written, emission) then Some(s.(input := s.input + [emission])) else None
  }

  /** The timeout covers the read loop only; a cancellation can come at any suspension point. */
  predicate CanAbandon(p: Phase, error: ControllerError) {
    match error
    case TimedOut => p.InLoop?
    case TransportFailed => Holds(p)
    case Cancelled => p.Waiting? || Holds(p)
    case _ => false
  }

  function Run(max: int, s: State, events: seq<Event>): Option<State>
    decreases |events|
  {
    if events == [] then Some(s) else
    match Step(max, s, events[0])
    case None => None
    case Some(t) => Run(max, t, events[1..])
  }

  // ----- what every reachable state satisfies -----

  /** The calls in flight are counted exactly, and at most `max` are admitted. */
  ghost predicate Counted(max: int, s: State) {
    s.queued == |ActiveCalls(s)| && s.queued <= (if max > 0 then max else 0)
  }

  /** The lock has one holder, and only the holder is between writing its command and leaving the read loop. */
  ghost predicate OneHolder(s: State) {
    forall c :: c in s.calls ==> (Holds(s.calls[c]) <==> s.holder == Some(c))
  }

  ghost predicate HolderExists(s: State) {
    s.holder.Some? ==> s.holder.value in s.calls
  }

  /** Written tokens increase and have all been allocated. */
  ghost predicate TokensIncrease(s: State) {
    && s.nextToken >= 1
    && (forall i, j :: 0 <= i < j < |s.written| ==> s.written[i].token < s.written[j].token)
    && (forall i :: 0 <= i < |s.written| ==> 1 <= s.written[i].token < s.nextToken)
    && |s.written| < s.nextToken
  }

  function TokenOf(p: Phase): Option<nat> {
    match p
    case Draining(token) => Some(token)
    case InLoop(reading) => Some(reading.token)
    case _ => None
  }

  predicate LastWriteOf(s: State, c: CallId, token: nat)
    requires s.written != []
  {
    s.written[|s.written| - 1].call == c && s.written[|s.written| - 1].token == token
  }

  /** The holder's command is the last one written. */
  ghost predicate HolderWroteLast(s: State) {
    forall c :: c in s.calls && Holds(s.calls[c]) ==>
      s.written != [] && LastWriteOf(s, c, TokenOf(s.calls[c]).value)
  }

  /** The read loops partition the consumed part of the input, in order. */
  ghost predicate SpansPartition(s: State) {
    && (forall i :: 0 <= i < |s.spans| ==> s.spans[i].start <= s.spans[i].end)
    && (forall i :: 0 < i < |s.spans| ==> s.spans[i].start == s.spans[i - 1].end)
    && (s.spans != [] ==> s.spans[0].start == 0)
    && Cursor(s) <= |s.input|
  }

  /** The lines of read loop `k`. */
  function SpanLines(s: State, k: nat): seq<string>
    requires k < |s.spans| && s.spans[k].start <= s.spans[k].end <= |s.input|
  {
    InputLines(s.input[s.spans[k].start..s.spans[k].end])
  }

  ghost predicate SpanOk(s: State, k: nat) {
    k < |s.spans| && s.spans[k].start <= s.spans[k].end <= |s.input|
  }

  /** A call in its read loop has collected everything its loop has consumed. */
  ghost predicate LoopCollects(s: State) {
    forall c :: c in s.calls && s.calls[c].InLoop? ==>
      && s.spans != [] && s.spans[|s.spans| - 1].call == c && SpanOk(s, |s.spans| - 1)
      && var r := s.calls[c].reading;
         Collected(SpanLines(s, |s.spans| - 1), r.token, r.asyncRecords, r.streamRecords)
  }

  function OutcomeOf(p: Phase): Option<Outcome> {
    match p
    case Leaving(o) => Some(o)
    case Ended(o) => Some(o)
    case _ => None
  }

  /** The result of a call is what one of its own read loops delivered for the token of a command it wrote. */
  ghost predicate Returned(s: State, c: CallId, result: CommandResult, k: nat, w: nat) {
    && SpanOk(s, k) && s.spans[k].call == c
    && w < |s.written| && s.written[w].call == c
    && Delivered(SpanLines(s, k), s.written[w].token, result)
  }

  ghost predicate ResultsReturned(s: State) {
    forall c :: c in s.calls && OutcomeOf(s.calls[c]).Some? && OutcomeOf(s.calls[c]).value.Success? ==>
      exists k: nat, w: nat :: Returned(s, c, OutcomeOf(s.calls[c]).value.value, k, w)
  }

  /** The error of a call is what one of its own read loops was refused with. */
  ghost predicate RefusedIn(s: State, c: CallId, error: ControllerError, k: nat, w: nat) {
    && SpanOk(s, k) && s.spans[k].call == c
    && w < |s.written| && s.written[w].call == c
    && Refused(SpanLines(s, k), s.written[w].token, error)
  }

  /** The errors that come from a line. */
  predicate FromLine(p: Phase) {
    match OutcomeOf(p)
    case Some(Failure(error)) => error.BadLine? || error.CommandFailed?
    case _ => false
  }

  ghost predicate RefusalsRead(s: State) {
    forall c :: c in s.calls && FromLine(s.calls[c]) ==>
      exists k: nat, w: nat :: RefusedIn(s, c, OutcomeOf(s.calls[c]).value.error, k, w)
  }

  ghost predicate InputHonest(s: State) {
    forall i :: 0 <= i < |s.input| ==> Honest(s.written, s.input[i])
  }

  ghost predicate Inv(max: int, s: State) {
    && Counted(max, s) && OneHolder(s) && HolderExists(s) && TokensIncrease(s) && HolderWroteLast(s)
    && SpansPartition(s) && LoopCollects(s) && ResultsReturned(s) && RefusalsRead(s)
    && InputHonest(s)
  }

  // ----- counting -----

  /** One call changing its phase changes the number of active calls accordingly. */
  lemma ActiveAfter(s: State, c: CallId, p: Phase)
    ensures var n, m := |ActiveCalls(s)|, |ActiveCalls(s.(calls := s.calls[c := p]))|;
      m == if c in ActiveCalls(s) then (if Active(p) then n else n - 1) else (if Active(p) then n + 1 else n)
  {
    var was, now := ActiveCalls(s), ActiveCalls(s.(calls := s.calls[c := p]));
    if Active(p) {
      assert now == was + {c};
      if c in was { assert was + {c} == was; }
    } else {
      assert now == was - {c};
      if c !in was { assert was - {c} == was; }
    }
  }

  lemma SameCalls(s: State, t: State)
    requires s.calls == t.calls
    ensures ActiveCalls(s) == ActiveCalls(t)
  {}

  lemma CountKept(max: int, s: State, e: Event)
    requires Counted(max, s) && Step(max, s, e).Some?
    ensures Counted(max, Step(max, s, e).value)
  {
    hide ReadOne, ActiveCalls, Longer, Honest;
    var t := Step(max, s, e).value;
    if e.Emit? {
      SameCalls(s, t);
    } else {
      ActiveAfter(s, e.call, t.calls[e.call]);
      SameCalls(s.(calls := s.calls[e.call := t.calls[e.call]]), t);
      InActive(s, e.call);
    }
  }

  lemma InActive(s: State, c: CallId)
    ensures c in ActiveCalls(s) <==> c in s.calls && Active(s.calls[c])
  {}

  lemma HolderKept(max: int, s: State, e: Event)
    requires OneHolder(s) && HolderExists(s) && Step(max, s, e).Some?
    ensures OneHolder(Step(max, s, e).value) && HolderExists(Step(max, s, e).value)
  {
    hide ReadOne, Longer, Delivered, Collected, Honest;
  }

  lemma TokensKept(max: int, s: State, e: Event)
    requires TokensIncrease(s) && Step(max, s, e).Some?
    ensures TokensIncrease(Step(max, s, e).value)
  {
    hide ReadOne, Longer, Delivered, Collected, Honest;
  }

  lemma LastWriteKept(max: int, s: State, e: Event)
    requires OneHolder(s) && HolderWroteLast(s) && Step(max, s, e).Some?
    ensures HolderWroteLast(Step(max, s, e).value)
  {
    hide Longer, Honest, ReadOne;
    if e.ReadNext? {
      ReadOneToken(s.calls[e.call].reading, s.input[Cursor(s)].line);
    }
  }

  /** A turn of the read loop keeps the token. */
  lemma ReadOneToken(reading: Reading, line: string)
    ensures ReadOne(reading, line).More? ==> ReadOne(reading, line).reading.token == reading.token
  {
    hide MIParser.RecordOf;
  }

  lemma LongerPartition(s: State)
    requires SpansPartition(s) && s.spans != [] && Cursor(s) < |s.input|
    ensures SpansPartition(s.(spans := Longer(s.spans)))
  {}

  lemma SpansKept(max: int, s: State, e: Event)
    requires SpansPartition(s) && Step(max, s, e).Some?
    ensures SpansPartition(Step(max, s, e).value)
  {
    hide ReadOne, Longer, Delivered, Collected, Honest;
    if e.ReadNext? { LongerPartition(s); }
  }

  lemma LinesGrow(input: seq<Emission>, a: nat, b: nat)
    requires a <= b < |input|
    ensures InputLines(input[a..b + 1]) == InputLines(input[a..b]) + [input[b].line]
  {
    assert input[a..b + 1] == input[a..b] + [input[b]];
  }

  /** Emitting a line leaves the lines of earlier read loops as they were. */
  lemma SpanLinesKept(s: State, t: State, k: nat)
    requires SpanOk(s, k) && k < |t.spans| && t.spans[k] == s.spans[k] && s.input <= t.input
    ensures SpanOk(t, k) && SpanLines(t, k) == SpanLines(s, k)
  {
    var a, b := s.spans[k].start, s.spans[k].end;
    assert t.input[a..b] == s.input[a..b];
  }

  /** The lines of the current read loop after one more line has been consumed. */
  lemma LoopLines(s: State)
    requires SpansPartition(s) && s.spans != [] && Cursor(s) < |s.input|
    ensures var t, k := s.(spans := Longer(s.spans)), |s.spans| - 1;
      SpanOk(s, k) && SpanOk(t, k) && SpanLines(t, k) == SpanLines(s, k) + [s.input[Cursor(s)].line]
  {
    LinesGrow(s.input, s.spans[|s.spans| - 1].start, Cursor(s));
  }

  lemma LoopTurn(s: State, c: CallId)
    requires SpansPartition(s) && LoopCollects(s) && c in s.calls && s.calls[c].InLoop? && Cursor(s) < |s.input|
    ensures s.spans != []
    ensures var t, k := s.(spans := Longer(s.spans)), |s.spans| - 1;
      SpanOk(t, k) && t.spans[k].call == c &&
      match ReadOne(s.calls[c].reading, s.input[Cursor(s)].line)
      case More(r) => Collected(SpanLines(t, k), r.token, r.asyncRecords, r.streamRecords)
      case Done(Success(result)) => Delivered(SpanLines(t, k), s.calls[c].reading.token, result)
      case Done(Failure(error)) => Refused(SpanLines(t, k), s.calls[c].reading.token, error)
  {
    hide ReadOne, Collected, Delivered, Refused, SpanLines;
    LoopLines(s);
    ReadOneCollects(SpanLines(s, |s.spans| - 1), s.calls[c].reading, s.input[Cursor(s)].line);
  }

  lemma LoopStarts(max: int, s: State, c: CallId)
    requires SpansPartition(s) && Step(max, s, Drained(c)).Some?
    ensures var t := Step(max, s, Drained(c)).value;
      && |t.spans| == |s.spans| + 1 && t.spans[|s.spans|].call == c && t.calls[c].InLoop?
      && t.calls[c].reading == Reading(s.calls[c].token, [], [])
    ensures var t := Step(max, s, Drained(c)).value;
      SpanOk(t, |s.spans|) && Collected(SpanLines(t, |s.spans|), s.calls[c].token, [], [])
  {
    hide Collected;
    CollectedNothing(s.calls[c].token);
    assert SpanLines(Step(max, s, Drained(c)).value, |s.spans|) == [];
  }

  /** Other events leave a read loop alone. */
  lemma LoopUndisturbed(max: int, s: State, e: Event, c: CallId)
    requires OneHolder(s) && Step(max, s, e).Some? && !((e.Drained? || e.ReadNext?) && e.call == c)
    requires var t := Step(max, s, e).value; c in t.calls && t.calls[c].InLoop?
    ensures var t := Step(max, s, e).value;
      c in s.calls && t.calls[c] == s.calls[c] && t.spans == s.spans && s.input <= t.input
  {
    hide ReadOne, Honest, Longer;
  }

  lemma LoopKept(max: int, s: State, e: Event)
    requires OneHolder(s) && SpansPartition(s) && LoopCollects(s) && Step(max, s, e).Some?
    ensures LoopCollects(Step(max, s, e).value)
  {
    hide Collected, ReadOne, Honest, SpanLines, Step, OneHolder, SpansPartition;
    var t := Step(max, s, e).value;
    forall c | c in t.calls && t.calls[c].InLoop?
      ensures t.spans != [] && t.spans[|t.spans| - 1].call == c && SpanOk(t, |t.spans| - 1)
      ensures var r := t.calls[c].reading;
        Collected(SpanLines(t, |t.spans| - 1), r.token, r.asyncRecords, r.streamRecords)
    {
      if e.Drained? && e.call == c {
        assert e == Drained(c);
        LoopStarts(max, s, c);
      } else if e.ReadNext? && e.call == c {
        assert e == ReadNext(c);
        LoopTurns(max, s, c);
      } else {
        LoopUndisturbed(max, s, e, c);
        SpanLinesKept(s, t, |s.spans| - 1);
      }
    }
  }

  lemma LoopTurns(max: int, s: State, c: CallId)
    requires SpansPartition(s) && LoopCollects(s) && Step(max, s, ReadNext(c)).Some?
    requires Step(max, s, ReadNext(c)).value.calls[c].InLoop?
    ensures var t, k := Step(max, s, ReadNext(c)).value, |s.spans| - 1;
      s.spans != [] && |t.spans| == k + 1 && t.spans[k].call == c && SpanOk(t, k)
    ensures var t, k := Step(max, s, ReadNext(c)).value, |s.spans| - 1;
      var r := t.calls[c].reading; Collected(SpanLines(t, k), r.token, r.asyncRecords, r.streamRecords)
  {
    hide Collected, Delivered, Refused, ReadOne, SpanLines, LoopCollects;
    LoopTurn(s, c);
    SpanLinesKept(s.(spans := Longer(s.spans)), Step(max, s, ReadNext(c)).value, |s.spans| - 1);
  }

  lemma ReturnedKept(s: State, t: State, c: CallId, result: CommandResult, k: nat, w: nat)
    requires Returned(s, c, result, k, w)
    requires k < |t.spans| && t.spans[k] == s.spans[k] && s.input <= t.input && s.written <= t.written
    ensures Returned(t, c, result, k, w)
  {
    SpanLinesKept(s, t, k);
  }

  /** A finished read loop of a call that is not in its read loop now is not the one growing. */
  lemma SpanFixed(max: int, s: State, e: Event, k: nat, c: CallId)
    requires OneHolder(s) && LoopCollects(s) && Step(max, s, e).Some? && k < |s.spans| && s.spans[k].call == c
    requires c in s.calls && OutcomeOf(s.calls[c]).Some?
    ensures var t := Step(max, s, e).value; k < |t.spans| && t.spans[k] == s.spans[k]
  {
    hide ReadOne, Collected, Delivered, SpanLines, Honest;
  }

  lemma ResultsKept(max: int, s: State, e: Event)
    requires OneHolder(s) && HolderWroteLast(s) && SpansPartition(s) && LoopCollects(s) && ResultsReturned(s)
    requires Step(max, s, e).Some?
    ensures ResultsReturned(Step(max, s, e).value)
  {
    hide ReadOne, Collected, Delivered, SpanLines, Honest;
    var t := Step(max, s, e).value;
    forall c | c in t.calls && OutcomeOf(t.calls[c]).Some? && OutcomeOf(t.calls[c]).value.Success?
      ensures exists k: nat, w: nat :: Returned(t, c, OutcomeOf(t.calls[c]).value.value, k, w)
    {
      var result := OutcomeOf(t.calls[c]).value.value;
      if e.ReadNext? && e.call == c {
        LoopTurn(s, c);
        SpanLinesKept(s.(spans := Longer(s.spans)), t, |s.spans| - 1);
        assert Returned(t, c, result, |s.spans| - 1, |s.written| - 1);
      } else {
        assert c in s.calls && OutcomeOf(s.calls[c]) == OutcomeOf(t.calls[c]);
        var k: nat, w: nat :| Returned(s, c, result, k, w);
        SpanFixed(max, s, e, k, c);
        ReturnedKept(s, t, c, result, k, w);
      }
    }
  }

  lemma RefusalsKept(max: int, s: State, e: Event)
    requires OneHolder(s) && HolderWroteLast(s) && SpansPartition(s) && LoopCollects(s) && RefusalsRead(s)
    requires Step(max, s, e).Some?
    ensures RefusalsRead(Step(max, s, e).value)
  {
    hide ReadOne, Collected, Refused, Delivered, SpanLines, Honest;
    var t := Step(max, s, e).value;
    forall c | c in t.calls && FromLine(t.calls[c])
      ensures exists k: nat, w: nat :: RefusedIn(t, c, OutcomeOf(t.calls[c]).value.error, k, w)
    {
      var error := OutcomeOf(t.calls[c]).value.error;
      if e.ReadNext? && e.call == c {
        LoopTurn(s, c);
        SpanLinesKept(s.(spans := Longer(s.spans)), t, |s.spans| - 1);
        assert RefusedIn(t, c, error, |s.spans| - 1, |s.written| - 1);
      } else {
        assert c in s.calls && OutcomeOf(s.calls[c]) == OutcomeOf(t.calls[c]);
        var k: nat, w: nat :| RefusedIn(s, c, error, k, w);
        SpanFixed(max, s, e, k, c);
        SpanLinesKept(s, t, k);
        assert RefusedIn(t, c, error, k, w);
      }
    }
  }

  lemma HonestKept(max: int, s: State, e: Event)
    requires InputHonest(s) && Step(max, s, e).Some?
    ensures InputHonest(Step(max, s, e).value)
  {
    hide CommandLines, LeadingToken, ReadOne, Longer, MIParser.RecordOf;
  }

  lemma StepKeepsInv(max: int, s: State, e: Event)
    requires Inv(max, s) && Step(max, s, e).Some?
    ensures Inv(max, Step(max, s, e).value)
  {
    CountKept(max, s, e);
    HolderKept(max, s, e);
    TokensKept(max, s, e);
    LastWriteKept(max, s, e);
    SpansKept(max, s, e);
    LoopKept(max, s, e);
    ResultsKept(max, s, e);
    RefusalsKept(max, s, e);
    HonestKept(max, s, e);
  }

  lemma {:induction false} RunKeepsInv(max: int, s: State, events: seq<Event>)
    requires Inv(max, s) && Run(max, s, events).Some?
    ensures Inv(max, Run(max, s, events).value)
    decreases |events|
  {
    if events != [] {
      StepKeepsInv(max, s, events[0]);
      RunKeepsInv(max, Step(max, s, events[0]).value, events[1..]);
    }
  }

  // ----- the protocol's guarantees, for every run -----

  lemma ReachableInv(max: int, events: seq<Event>)
    requires Run(max, INITIAL, events).Some?
    ensures Inv(max, Run(max, INITIAL, events).value)
  {
    assert ActiveCalls(INITIAL) == {};
    RunKeepsInv(max, INITIAL, events);
  }

  /** Queue and lock: the counter is the number of calls between admission and release and never exceeds the limit;
      the clamp in the release never bites; at most one call is between writing its command and leaving its read
      loop. */
  lemma QueueConserved(max: int, events: seq<Event>, s: State)
    requires Run(max, INITIAL, events) == Some(s)
    ensures s.queued == |ActiveCalls(s)| && (max > 0 ==> s.queued <= max) && (max <= 0 ==> s.queued == 0)
    ensures ActiveCalls(s) == {} ==> s.queued == 0
    ensures forall c :: c in s.calls && s.calls[c].Leaving? ==> Released(s.queued) == s.queued - 1
    ensures forall c, d :: c in s.calls && d in s.calls && Holds(s.calls[c]) && Holds(s.calls[d]) ==> c == d
  {
    ReachableInv(max, events);
    forall c | c in s.calls && s.calls[c].Leaving? ensures Released(s.queued) == s.queued - 1 {
      assert c in ActiveCalls(s);
    }
  }

  /** A call that arrives is admitted exactly when fewer than `max` calls are in flight, and else ends with a full
      queue. */
  lemma AdmittedExactly(max: int, events: seq<Event>, s: State, c: CallId, t: State)
    requires Run(max, INITIAL, events) == Some(s) && Step(max, s, Arrive(c)) == Some(t)
    ensures c !in s.calls
    ensures t.calls[c] == if |ActiveCalls(s)| < max then Waiting else Ended(Failure(QueueFull))
  {
    hide ActiveCalls;
    ReachableInv(max, events);
  }

  /** Where a call can be given up: a cancellation can come at every suspension point up to the end of the read loop, a
      transport error from the write on, and a timeout only in the read loop. So no call is ever stuck. */
  lemma AbandonedExactly(max: int, s: State, c: CallId)
    requires c in s.calls
    ensures var p := s.calls[c];
      && (Step(max, s, Abandon(c, Cancelled)).Some? <==> p.Waiting? || p.Draining? || p.InLoop?)
      && (Step(max, s, Abandon(c, TransportFailed)).Some? <==> p.Draining? || p.InLoop?)
      && (Step(max, s, Abandon(c, TimedOut)).Some? <==> p.InLoop?)
      && (Step(max, s, Release(c)).Some? <==> p.Leaving?)
    ensures forall error :: Step(max, s, Abandon(c, error)).Some? ==>
      var t := Step(max, s, Abandon(c, error)).value;
      t.calls[c] == Leaving(Failure(error)) && t.holder != Some(c) && t.written == s.written
  {
    hide ReadOne;
  }

  /** One turn of a read loop: a line that is no record or is the reply ends it at once, with the outcome the line calls
      for; after any other line the call reads on. */
  lemma TurnExactly(max: int, events: seq<Event>, s: State, c: CallId, t: State)
    requires Run(max, INITIAL, events) == Some(s) && Step(max, s, ReadNext(c)) == Some(t)
    ensures c in s.calls && s.calls[c].InLoop? && Cursor(s) < |s.input|
    ensures
      var token := s.calls[c].reading.token;
      match MIParser.RecordOf(s.input[Cursor(s)].line)
      case Failure(e) => t.calls[c] == Leaving(Failure(BadLine(e)))
      case Success(r) =>
        if r.MIRecord? && r.kind == ResultKind && r.token == Some(token) then
          if r.recordClass == "error" then t.calls[c] == Leaving(Failure(CommandFailed(r)))
          else t.calls[c].Leaving? && t.calls[c].outcome.Success? && t.calls[c].outcome.value.resultRecord == r
        else
          t.calls[c].InLoop? && t.calls[c].reading.token == token
    ensures t.holder == if t.calls[c].InLoop? then Some(c) else None
  {
    hide MIParser.RecordOf, Run;
    ReachableInv(max, events);
  }

  /** An outcome is final: no event changes it, whatever call the event is about. */
  lemma {:induction false} OutcomeFinal(max: int, s: State, events: seq<Event>, c: CallId)
    requires Run(max, s, events).Some? && c in s.calls && OutcomeOf(s.calls[c]).Some?
    ensures var t := Run(max, s, events).value; c in t.calls && OutcomeOf(t.calls[c]) == OutcomeOf(s.calls[c])
    decreases |events|
  {
    hide Step, OutcomeOf;
    if events != [] {
      OutcomeStays(max, s, events[0], c);
      OutcomeFinal(max, Step(max, s, events[0]).value, events[1..], c);
    }
  }

  lemma OutcomeStays(max: int, s: State, e: Event, c: CallId)
    requires Step(max, s, e).Some? && c in s.calls && OutcomeOf(s.calls[c]).Some?
    ensures var t := Step(max, s, e).value; c in t.calls && OutcomeOf(t.calls[c]) == OutcomeOf(s.calls[c])
  {
    hide ReadOne, Longer, Honest;
  }

  /** A call that has timed out has been in its read loop, and one that found the queue full has written nothing. */
  ghost predicate ErrorsInPlace(s: State) {
    && (forall c :: c in s.calls && OutcomeOf(s.calls[c]) == Some(Failure(TimedOut)) ==> HasLoop(s, c))
    && (forall c :: c in s.calls && s.calls[c].InLoop? ==> HasLoop(s, c))
    && (forall c :: c in s.calls && OutcomeOf(s.calls[c]) == Some(Failure(QueueFull)) ==> !HasWritten(s, c))
    && (forall c :: c !in s.calls || s.calls[c].Waiting? ==> !HasWritten(s, c))
  }

  ghost predicate HasLoop(s: State, c: CallId) {
    exists k: nat :: k < |s.spans| && s.spans[k].call == c
  }

  ghost predicate HasWritten(s: State, c: CallId) {
    exists w: nat :: w < |s.written| && s.written[w].call == c
  }

  lemma LoopsGrow(max: int, s: State, e: Event, c: CallId)
    requires Step(max, s, e).Some?
    ensures HasLoop(s, c) ==> HasLoop(Step(max, s, e).value, c)
    ensures e == Drained(c) ==> HasLoop(Step(max, s, e).value, c)
    ensures HasWritten(Step(max, s, e).value, c) <==> HasWritten(s, c) || (e.LockAndWrite? && e.call == c)
  {
    hide ReadOne, Honest;
    var t := Step(max, s, e).value;
    if k: nat :| k < |s.spans| && s.spans[k].call == c { assert t.spans[k].call == c; }
    if e == Drained(c) { assert t.spans[|s.spans|].call == c; }
    assert s.written <= t.written;
    if w: nat :| w < |s.written| && s.written[w].call == c { assert t.written[w].call == c; }
    if e.LockAndWrite? && e.call == c { assert t.written[|s.written|].call == c; }
  }

  lemma ErrorsStayInPlace(max: int, s: State, e: Event)
    requires ErrorsInPlace(s) && Step(max, s, e).Some?
    ensures ErrorsInPlace(Step(max, s, e).value)
  {
    hide HasLoop, HasWritten, Longer, Honest, MIParser.RecordOf;
    var t := Step(max, s, e).value;
    forall c { LoopsGrow(max, s, e, c); }
  }

  lemma {:induction false} RunKeepsErrors(max: int, s: State, events: seq<Event>)
    requires ErrorsInPlace(s) && Run(max, s, events).Some?
    ensures ErrorsInPlace(Run(max, s, events).value)
    decreases |events|
  {
    hide Step, ErrorsInPlace;
    if events != [] {
      ErrorsStayInPlace(max, s, events[0]);
      RunKeepsErrors(max, Step(max, s, events[0]).value, events[1..]);
    }
  }

  /** In every run only a call in its read loop times out, and a call that finds the queue full writes no command. */
  lemma TimeoutsAndRefusals(max: int, events: seq<Event>, s: State, c: CallId)
    requires Run(max, INITIAL, events) == Some(s) && c in s.calls && OutcomeOf(s.calls[c]).Some?
    ensures OutcomeOf(s.calls[c]).value == Failure(TimedOut) ==> HasLoop(s, c)
    ensures OutcomeOf(s.calls[c]).value == Failure(QueueFull) ==> !HasWritten(s, c)
  {
    hide Step, HasLoop, HasWritten;
    assert ErrorsInPlace(INITIAL) by { NothingWritten(); }
    RunKeepsErrors(max, INITIAL, events);
  }

  lemma NothingWritten()
    ensures forall c :: !HasWritten(INITIAL, c)
  {}

  /** Input line `i` is GDB's reply to the first line of the command written at `w`, which was call `c`'s. */
  ghost predicate RepliesTo(s: State, i: nat, w: nat, c: CallId) {
    && i < |s.input| && w < |s.written|
    && s.input[i].answers == Some(Source(w, 0)) && s.written[w].call == c
  }

  /** A call that has returned was given the line GDB produced for the command that call wrote, with its token. */
  ghost predicate Correlated(s: State, c: CallId) {
    c in s.calls && OutcomeOf(s.calls[c]).Some? && OutcomeOf(s.calls[c]).value.Success? ==>
      exists i: nat, w: nat ::
        && RepliesTo(s, i, w, c)
        && MIParser.RecordOf(s.input[i].line) == Success(OutcomeOf(s.calls[c]).value.value.resultRecord)
        && IsReply(OutcomeOf(s.calls[c]).value.value.resultRecord, s.written[w].token)
  }

  lemma {:induction false} WrittenWere(max: int, s: State, events: seq<Event>)
    requires forall w :: 0 <= w < |s.written| ==> !TokenBehind(s.written[w].command)
    requires forall j :: 0 <= j < |events| && events[j].LockAndWrite? ==> !TokenBehind(events[j].command)
    requires Run(max, s, events).Some?
    ensures var t := Run(max, s, events).value;
      forall w :: 0 <= w < |t.written| ==> !TokenBehind(t.written[w].command)
    decreases |events|
  {
    hide TokenBehind, ReadOne, Longer, Honest;
    if events != [] {
      assert forall j :: 0 <= j < |events[1..]| ==> events[1..][j] == events[j + 1];
      WrittenWere(max, Step(max, s, events[0]).value, events[1..]);
    }
  }

  /** Reply correlation, in every run whose commands have no number in front of a line behind their first: a call that
      returns has been given the line GDB produced for the command that call wrote, with the token it wrote; so a late
      reply to an abandoned command is never returned as another call's result. */
  lemma ReplyCorrelated(max: int, events: seq<Event>, s: State, c: CallId)
    requires Run(max, INITIAL, events) == Some(s)
    requires forall j :: 0 <= j < |events| && events[j].LockAndWrite? ==> !TokenBehind(events[j].command)
    ensures Correlated(s, c)
  {
    hide Delivered, SpanLines, TokenBehind, Step, IsReply, Honest, MIParser.RecordOf;
    ReachableInv(max, events);
    WrittenWere(max, INITIAL, events);
    if c in s.calls && OutcomeOf(s.calls[c]).Some? && OutcomeOf(s.calls[c]).value.Success? {
      var result := OutcomeOf(s.calls[c]).value.value;
      var k: nat, w: nat :| Returned(s, c, result, k, w);
      ReplyOf(s, c, result, k, w);
    }
  }

  lemma BehindIsBehind(w: Write, l: nat)
    requires 0 < l < |CommandLines(w.command, w.token)| && Positive(LeadingToken(CommandLines(w.command, w.token)[l]))
    ensures TokenBehind(w.command)
  {
    hide CommandLines, LeadingToken;
    LinesOfCommand(w.command, w.token);
    assert CommandLines(w.command, w.token)[l] == LinesBehind(w.command)[l - 1];
  }

  /** A line that begins with the token of a command is the first line of that command. */
  lemma OnlyFirstLine(s: State, source: Source, w: nat)
    requires TokensIncrease(s) && w < |s.written| && HasRead(s.written, source, s.written[w].token)
    requires !TokenBehind(s.written[source.write].command)
    ensures source == Source(w, 0)
  {
    hide CommandLines, LeadingToken, TokenBehind, LinesBehind, TokensIncrease;
    TokenPositive(s, w);
    var v := s.written[source.write];
    LinesOfCommand(v.command, v.token);
    if source.line > 0 { BehindIsBehind(v, source.line); }
    TokenIsUnique(s, source.write, w);
  }

  lemma TokenPositive(s: State, w: nat)
    requires TokensIncrease(s) && w < |s.written|
    ensures s.written[w].token > 0
  {}

  lemma TokenIsUnique(s: State, v: nat, w: nat)
    requires TokensIncrease(s) && v < |s.written| && w < |s.written|
    ensures s.written[v].token == s.written[w].token ==> v == w
  {
    assert v < w ==> s.written[v].token < s.written[w].token;
    assert w < v ==> s.written[w].token < s.written[v].token;
  }

  lemma ReplyOf(s: State, c: CallId, result: CommandResult, k: nat, w: nat)
    requires TokensIncrease(s) && InputHonest(s) && Returned(s, c, result, k, w)
    requires forall v :: 0 <= v < |s.written| ==> !TokenBehind(s.written[v].command)
    ensures s.spans[k].start < s.spans[k].end
    ensures var i := s.spans[k].end - 1;
      && RepliesTo(s, i, w, c) && MIParser.RecordOf(s.input[i].line) == Success(result.resultRecord)
      && IsReply(result.resultRecord, s.written[w].token)
  {
    hide Collected, MIParser.RecordOf, HasRead, TokenBehind, TokensIncrease;
    var lines, i := SpanLines(s, k), s.spans[k].end - 1;
    assert lines[|lines| - 1] == s.input[i].line;
    assert Honest(s.written, s.input[i]);
    ReadBefore(s.written, s.input[i].answers.value, s.written[w].token);
    OnlyFirstLine(s, s.input[i].answers.value, w);
  }

  lemma ReadBefore(written: seq<Write>, source: Source, token: nat)
    requires HasRead(written, source, token)
    ensures source.write < |written|
  {}

  /** Two calls never return the same reply. */
  lemma RepliesDistinct(max: int, events: seq<Event>, s: State, c: CallId, d: CallId)
    requires Run(max, INITIAL, events) == Some(s) && c != d
    requires c in s.calls && OutcomeOf(s.calls[c]).Some? && OutcomeOf(s.calls[c]).value.Success?
    requires d in s.calls && OutcomeOf(s.calls[d]).Some? && OutcomeOf(s.calls[d]).value.Success?
    ensures OutcomeOf(s.calls[c]).value.value.resultRecord.token != OutcomeOf(s.calls[d]).value.value.resultRecord.token
  {
    ReachableInv(max, events);
    var k: nat, w: nat :| Returned(s, c, OutcomeOf(s.calls[c]).value.value, k, w);
    var l: nat, v: nat :| Returned(s, d, OutcomeOf(s.calls[d]).value.value, l, v);
    assert w != v;
    assert w < v ==> s.written[w].token < s.written[v].token;
    assert v < w ==> s.written[v].token < s.written[w].token;
  }

  /** Line `i` was read in loop `k`. */
  predicate ReadIn(s: State, i: nat, k: nat) {
    k < |s.spans| && s.spans[k].start <= i < s.spans[k].end
  }

  /** Every consumed line was read in exactly one read loop, and no other line in any. */
  lemma InputConserved(max: int, events: seq<Event>, s: State, i: nat)
    requires Run(max, INITIAL, events) == Some(s)
    ensures i < Cursor(s) <==> exists k: nat :: ReadIn(s, i, k)
    ensures forall j: nat, k: nat :: ReadIn(s, i, j) && ReadIn(s, i, k) ==> j == k
  {
    ReachableInv(max, events);
    forall j: nat, k: nat | ReadIn(s, i, j) && ReadIn(s, i, k) ensures j == k {
      if j < k { SpansOrdered(s, j, k); }
      if k < j { SpansOrdered(s, k, j); }
    }
    if i < Cursor(s) {
      var k := FindSpan(s, i, |s.spans| - 1);
      assert ReadIn(s, i, k);
    }
    if k: nat :| ReadIn(s, i, k) {
      if k < |s.spans| - 1 { SpansOrdered(s, k, |s.spans| - 1); }
    }
  }

  lemma {:induction false} SpansOrdered(s: State, j: nat, k: nat)
    requires SpansPartition(s) && j < k < |s.spans|
    ensures s.spans[j].end <= s.spans[k].start
    decreases k
  {
    if j < k - 1 { SpansOrdered(s, j, k - 1); }
  }

  lemma {:induction false} FindSpan(s: State, i: nat, n: nat) returns (k: nat)
    requires SpansPartition(s) && n < |s.spans| && i < s.spans[n].end
    ensures ReadIn(s, i, k)
    decreases n
  {
    if s.spans[n].start <= i { k := n; } else { k := FindSpan(s, i, n - 1); }
  }

  /** The async records a call has collected, in its read loop or in its result. */
  function AsyncOf(p: Phase): Option<seq<Record>> {
    if p.InLoop? then Some(p.reading.asyncRecords)
    else match OutcomeOf(p)
      case Some(Success(result)) => Some(result.asyncRecords)
      case _ => None
  }

  /** The token of the command a call awaits or awaited. */
  function AwaitedToken(p: Phase): Option<nat> {
    if p.InLoop? then Some(p.reading.token)
    else match OutcomeOf(p)
      case Some(Success(result)) => result.resultRecord.token
      case _ => None
  }

  /** The call read input line `i`. */
  ghost predicate ReadBy(s: State, i: nat, c: CallId, k: nat) {
    ReadIn(s, i, k) && s.spans[k].call == c
  }

  /** The records are those of the input lines at these places, which are in order and all the places of a line of this
      kind in read loop `k` in front of its last line. */
  ghost predicate Located(s: State, k: nat, places: seq<nat>, records: seq<Record>, stream: bool)
    requires SpanOk(s, k)
  {
    && |places| == |records|
    && (forall j :: 0 <= j < |places| ==> s.spans[k].start <= places[j] < s.spans[k].end - 1)
    && (forall j :: 0 <= j < |places| ==> MIParser.RecordOf(s.input[places[j]].line) == Success(records[j]))
    && (forall i, j :: 0 <= i < j < |places| ==> places[i] < places[j])
    && (forall i: nat :: s.spans[k].start <= i < s.spans[k].end - 1 && OfKind(s.input[i].line, stream) ==> i in places)
  }

  lemma PicksLocated(s: State, k: nat, lines: seq<string>, places: seq<nat>, records: seq<Record>, stream: bool)
    returns (found: seq<nat>)
    requires SpanOk(s, k) && |lines| == s.spans[k].end - s.spans[k].start - 1
    requires forall i :: 0 <= i < |lines| ==> lines[i] == s.input[s.spans[k].start + i].line
    requires Picks(lines, places, records, stream)
    ensures Located(s, k, found, records, stream)
  {
    found := Shifted(places, s.spans[k].start);
    FoundRecords(s, k, lines, places, records, found);
    AllFound(s, k, lines, places, found, stream);
    forall i, j | 0 <= i < j < |found| ensures found[i] < found[j] { assert places[i] < places[j]; }
    hide MIParser.RecordOf, OfKind, Shifted, Picks;
  }

  lemma FoundRecords(s: State, k: nat, lines: seq<string>, places: seq<nat>, records: seq<Record>, found: seq<nat>)
    requires SpanOk(s, k) && |lines| == s.spans[k].end - s.spans[k].start - 1
    requires forall i :: 0 <= i < |lines| ==> lines[i] == s.input[s.spans[k].start + i].line
    requires |found| == |places| == |records|
    requires forall j :: 0 <= j < |places| ==> found[j] == s.spans[k].start + places[j]
    requires forall j :: 0 <= j < |places| ==> places[j] < |lines|
    requires forall j :: 0 <= j < |places| ==> MIParser.RecordOf(lines[places[j]]) == Success(records[j])
    ensures forall j :: 0 <= j < |found| ==> s.spans[k].start <= found[j] < s.spans[k].end - 1
    ensures forall j :: 0 <= j < |found| ==> MIParser.RecordOf(s.input[found[j]].line) == Success(records[j])
  {
    hide MIParser.RecordOf;
    forall j | 0 <= j < |found| ensures s.spans[k].start <= found[j] < s.spans[k].end - 1
                                     && MIParser.RecordOf(s.input[found[j]].line) == Success(records[j])
    {
      var p := places[j];
      assert lines[p] == s.input[s.spans[k].start + p].line;
    }
  }

  function Shifted(places: seq<nat>, start: nat): (found: seq<nat>)
    ensures |found| == |places| && forall j :: 0 <= j < |places| ==> found[j] == start + places[j]
  {
    seq(|places|, j requires 0 <= j < |places| => start + places[j])
  }

  lemma AllFound(s: State, k: nat, lines: seq<string>, places: seq<nat>, found: seq<nat>, stream: bool)
    requires SpanOk(s, k) && |lines| == s.spans[k].end - s.spans[k].start - 1
    requires forall i :: 0 <= i < |lines| ==> lines[i] == s.input[s.spans[k].start + i].line
    requires |found| == |places| && forall j :: 0 <= j < |places| ==> found[j] == s.spans[k].start + places[j]
    requires forall i: nat :: i < |lines| && OfKind(lines[i], stream) ==> i in places
    ensures forall i: nat ::
      s.spans[k].start <= i < s.spans[k].end - 1 && OfKind(s.input[i].line, stream) ==> i in found
  {
    hide OfKind;
    var start := s.spans[k].start;
    forall i: nat | start <= i < s.spans[k].end - 1 && OfKind(s.input[i].line, stream) ensures i in found {
      assert lines[i - start] == s.input[i].line;
      var j :| 0 <= j < |places| && places[j] == i - start;
      assert found[j] == i;
    }
  }

  /** In every run a call that returns has in its result, each once and in the order in which GDB said them, all the
      stream records and all the other records of the input lines it read in front of the reply. */
  lemma RecordsInOrder(max: int, events: seq<Event>, s: State, c: CallId, result: CommandResult)
    returns (k: nat, asyncPlaces: seq<nat>, streamPlaces: seq<nat>)
    requires Run(max, INITIAL, events) == Some(s)
    requires c in s.calls && OutcomeOf(s.calls[c]) == Some(Success(result))
    ensures SpanOk(s, k) && s.spans[k].call == c && s.spans[k].start < s.spans[k].end
    ensures MIParser.RecordOf(s.input[s.spans[k].end - 1].line) == Success(result.resultRecord)
    ensures Located(s, k, asyncPlaces, result.asyncRecords, false)
    ensures Located(s, k, streamPlaces, result.streamRecords, true)
  {
    hide MIParser.RecordOf, Located, Picks, Inv, Run, AllPass;
    ReachableInv(max, events);
    InvParts(max, s);
    var l: nat, w: nat :| Returned(s, c, result, l, w);
    k := l;
    var front := ReturnedFront(s, c, result, k, w);
    hide Returned, SpanLines;
    var a: seq<nat> :| Picks(front, a, result.asyncRecords, false);
    var b: seq<nat> :| Picks(front, b, result.streamRecords, true);
    asyncPlaces := PicksLocated(s, k, front, a, result.asyncRecords, false);
    streamPlaces := PicksLocated(s, k, front, b, result.streamRecords, true);
  }

  /** The lines of a finished read loop in front of its reply. */
  lemma ReturnedFront(s: State, c: CallId, result: CommandResult, k: nat, w: nat) returns (front: seq<string>)
    requires Returned(s, c, result, k, w)
    ensures s.spans[k].start < s.spans[k].end && |front| == s.spans[k].end - s.spans[k].start - 1
    ensures forall i :: 0 <= i < |front| ==> front[i] == s.input[s.spans[k].start + i].line
    ensures MIParser.RecordOf(s.input[s.spans[k].end - 1].line) == Success(result.resultRecord)
    ensures InOrder(front, result.asyncRecords, false) && InOrder(front, result.streamRecords, true)
  {
    hide MIParser.RecordOf, InOrder, AllPass, IsReply;
    var lines := SpanLines(s, k);
    front := lines[..|lines| - 1];
    assert lines[|lines| - 1] == s.input[s.spans[k].end - 1].line;
  }

  lemma InvRefusals(max: int, s: State)
    requires Inv(max, s)
    ensures RefusalsRead(s)
  {}

  lemma RefusedLines(s: State, c: CallId, error: ControllerError, k: nat, w: nat)
    requires RefusedIn(s, c, error, k, w)
    ensures s.spans[k].start < s.spans[k].end
    ensures match MIParser.RecordOf(s.input[s.spans[k].end - 1].line)
      case Failure(e) => error == BadLine(e)
      case Success(r) => IsReply(r, s.written[w].token) && r.recordClass == "error" && error == CommandFailed(r)
    ensures forall i :: s.spans[k].start <= i < s.spans[k].end - 1 ==> Passes(s.input[i].line, s.written[w].token)
  {
    hide MIParser.RecordOf, IsReply, Passes;
    var lines := SpanLines(s, k);
    assert lines[|lines| - 1] == s.input[s.spans[k].end - 1].line;
    forall i | s.spans[k].start <= i < s.spans[k].end - 1 ensures Passes(s.input[i].line, s.written[w].token) {
      assert lines[..|lines| - 1][i - s.spans[k].start] == s.input[i].line;
    }
  }

  /** In every run a call that fails because of a line has read that line last, and no reply before it: the line is no
      record, or the reply with the token of the call's own command and the class "error". */
  lemma FailureExplained(max: int, events: seq<Event>, s: State, c: CallId, error: ControllerError)
    returns (k: nat, w: nat)
    requires Run(max, INITIAL, events) == Some(s)
    requires c in s.calls && OutcomeOf(s.calls[c]) == Some(Failure(error))
    requires error !in {QueueFull, TimedOut, TransportFailed, Cancelled}
    ensures SpanOk(s, k) && s.spans[k].call == c && s.spans[k].start < s.spans[k].end
    ensures w < |s.written| && s.written[w].call == c
    ensures match MIParser.RecordOf(s.input[s.spans[k].end - 1].line)
      case Failure(e) => error == BadLine(e)
      case Success(r) =>
        && r.MIRecord? && r.kind == ResultKind && r.token == Some(s.written[w].token) && r.recordClass == "error"
        && error == CommandFailed(r)
    ensures forall i :: s.spans[k].start <= i < s.spans[k].end - 1 ==>
      var r := MIParser.RecordOf(s.input[i].line);
      r.Success? && !(r.value.MIRecord? && r.value.kind == ResultKind && r.value.token == Some(s.written[w].token))
  {
    hide MIParser.RecordOf, Run, Inv, Refused, SpanLines;
    ReachableInv(max, events);
    InvRefusals(max, s);
    var l: nat, v: nat :| RefusedIn(s, c, error, l, v);
    k, w := l, v;
    RefusedLines(s, c, error, k, w);
  }

  /** A call has at most one read loop. */
  ghost predicate OneLoop(s: State) {
    && (forall k, l :: 0 <= k < l < |s.spans| ==> s.spans[k].call != s.spans[l].call)
    && (forall k :: 0 <= k < |s.spans| ==>
          s.spans[k].call in s.calls && !s.calls[s.spans[k].call].Waiting? && !s.calls[s.spans[k].call].Draining?)
  }

  lemma OneLoopKept(max: int, s: State, e: Event)
    requires OneLoop(s) && Step(max, s, e).Some?
    ensures OneLoop(Step(max, s, e).value)
  {
    hide ReadOne, Delivered, Collected, Honest;
  }

  lemma {:induction false} RunKeepsOneLoop(max: int, s: State, events: seq<Event>)
    requires OneLoop(s) && Run(max, s, events).Some?
    ensures OneLoop(Run(max, s, events).value)
    decreases |events|
  {
    hide Step, OneLoop;
    if events != [] {
      OneLoopKept(max, s, events[0]);
      RunKeepsOneLoop(max, Step(max, s, events[0]).value, events[1..]);
    }
  }

  lemma InvParts(max: int, s: State)
    requires Inv(max, s)
    ensures LoopCollects(s) && SpansPartition(s)
    ensures forall c :: c in s.calls && OutcomeOf(s.calls[c]).Some? && OutcomeOf(s.calls[c]).value.Success? ==>
      exists k: nat, w: nat :: Returned(s, c, OutcomeOf(s.calls[c]).value.value, k, w)
  {}

  lemma LoopHolds(s: State, c: CallId, i: nat, k: nat)
    requires LoopCollects(s) && OneLoop(s) && ReadBy(s, i, c, k) && i < |s.input|
    requires c in s.calls && s.calls[c].InLoop?
    requires MIParser.RecordOf(s.input[i].line).Success? && MIParser.RecordOf(s.input[i].line).value.MIRecord?
    ensures MIParser.RecordOf(s.input[i].line).value in s.calls[c].reading.asyncRecords
  {
    hide MIParser.RecordOf, InOrder, AllPass;
    var lines := SpanLines(s, |s.spans| - 1);
    assert k == |s.spans| - 1;
    assert lines[i - s.spans[k].start] == s.input[i].line;
    InOrderHolds(lines, s.calls[c].reading.asyncRecords, false, i - s.spans[k].start);
  }

  lemma SameLoop(s: State, k: nat, l: nat)
    requires OneLoop(s) && k < |s.spans| && l < |s.spans| && s.spans[k].call == s.spans[l].call
    ensures k == l
  {
    assert k < l || l <= k;
  }

  lemma ResultHolds(s: State, c: CallId, result: CommandResult, l: nat, w: nat, i: nat, k: nat)
    requires Returned(s, c, result, l, w) && OneLoop(s) && ReadBy(s, i, c, k)
    requires i < |s.input| && MIParser.RecordOf(s.input[i].line).Success?
    requires var r := MIParser.RecordOf(s.input[i].line).value; r.MIRecord? && r.token != result.resultRecord.token
    ensures MIParser.RecordOf(s.input[i].line).value in result.asyncRecords
  {
    hide MIParser.RecordOf, InOrder, AllPass;
    SameLoop(s, k, l);
    hide OneLoop;
    var lines, n := SpanLines(s, k), i - s.spans[k].start;
    assert lines[n] == s.input[i].line;
    var before := lines[..|lines| - 1];
    assert before[n] == lines[n];
    InOrderHolds(before, result.asyncRecords, false, n);
  }

  /** In every run, a reply to an abandoned command that a call reads is among the async records the call has collected
      or returned: a result record with another token than the call's own is never lost and never its result. */
  lemma LateReplyIsAsync(max: int, events: seq<Event>, s: State, c: CallId, i: nat, k: nat)
    requires Run(max, INITIAL, events) == Some(s) && ReadBy(s, i, c, k) && i < |s.input|
    requires c in s.calls && AsyncOf(s.calls[c]).Some?
    requires var r := MIParser.RecordOf(s.input[i].line);
      r.Success? && r.value.MIRecord? && r.value.kind == ResultKind && r.value.token != AwaitedToken(s.calls[c])
    ensures MIParser.RecordOf(s.input[i].line).value in AsyncOf(s.calls[c]).value
  {
    hide Inv, LoopCollects, ResultsReturned, Returned, MIParser.RecordOf, Run;
    ReachableInv(max, events);
    RunKeepsOneLoop(max, INITIAL, events);
    InvParts(max, s);
    if s.calls[c].InLoop? {
      LoopHolds(s, c, i, k);
    } else {
      var l: nat, w: nat :| Returned(s, c, OutcomeOf(s.calls[c]).value.value, l, w);
      ResultHolds(s, c, OutcomeOf(s.calls[c]).value.value, l, w, i, k);
    }
  }
}
