/** Exactly when replies are correlated: the commands in use must have no number in front of a line behind their first.
    Otherwise GDB answers such a line as if it were a command with that token, and the call that owns the token is
    given the answer. */
module MICorrelation {
  import opened Basics
  import opened MIRecords
  import opened MIController
  import opened MICommands
  import opened MILines
  import opened MIProtocol
  import MIPrinter

  /** Every command written comes from the given ones. */
  ghost predicate Uses(events: seq<Event>, commands: iset<Command>) {
    forall j :: 0 <= j < |events| && events[j].LockAndWrite? ==> events[j].command in commands
  }

  // ----- a queue without room writes nothing -----

  lemma {:induction false} NothingWritten(max: int, s: State, events: seq<Event>)
    requires Inv(max, s) && max <= 0 && Run(max, s, events).Some?
    ensures forall j :: 0 <= j < |events| ==> !events[j].LockAndWrite?
    decreases |events|
  {
    hide Inv, Step;
    if events != [] {
      StepKeepsInv(max, s, events[0]);
      NothingWritten(max, Step(max, s, events[0]).value, events[1..]);
      NoRoom(max, s, events[0]);
      forall j | 0 <= j < |events| ensures !events[j].LockAndWrite? {
        if j > 0 { assert events[1..][j - 1] == events[j]; }
      }
    }
  }

  lemma NoRoom(max: int, s: State, e: Event)
    requires Inv(max, s) && max <= 0 && Step(max, s, e).Some?
    ensures !e.LockAndWrite?
  {
    hide ReadOne, Honest, Longer, LoopCollects, ResultsReturned, InputHonest;
    if e.LockAndWrite? { InActive(s, e.call); }
  }

  // ----- a command with a number behind its first line breaks the correlation -----

  lemma {:induction false} RunThen(max: int, s: State, events: seq<Event>, t: State, e: Event, u: State)
    requires Run(max, s, events) == Some(t) && Step(max, t, e) == Some(u)
    ensures Run(max, s, events + [e]) == Some(u)
    decreases |events|
  {
    hide Step;
    if events == [] {
      assert (events + [e])[1..] == [];
      assert Run(max, u, []) == Some(u);
    } else {
      assert (events + [e])[0] == events[0] && (events + [e])[1..] == events[1..] + [e];
      RunThen(max, Step(max, s, events[0]).value, events[1..], t, e, u);
    }
  }

  /** A run from the beginning that uses only the given commands. */
  ghost predicate Reaches(max: int, commands: iset<Command>, events: seq<Event>, s: State) {
    Run(max, INITIAL, events) == Some(s) && Uses(events, commands)
  }

  lemma ReachesThen(max: int, commands: iset<Command>, events: seq<Event>, s: State, e: Event, t: State)
    requires Reaches(max, commands, events, s) && Step(max, s, e) == Some(t)
    requires e.LockAndWrite? ==> e.command in commands
    ensures Reaches(max, commands, events + [e], t)
  {
    hide Step;
    RunThen(max, INITIAL, events, s, e, t);
  }

  /** Nobody is in flight, GDB has said nothing, and call ids are below the next token. */
  ghost predicate Idle(s: State) {
    && s.holder == None && s.queued == 0 && s.input == [] && s.spans == []
    && forall c :: c in s.calls ==> c < s.nextToken
  }

  /** A call arrives, its write fails, and it leaves: one token is used up. */
  lemma LoseToken(max: int, commands: iset<Command>, events: seq<Event>, s: State)
    returns (more: seq<Event>, t: State)
    requires max >= 1 && Reaches(max, commands, events, s) && Idle(s)
    ensures Reaches(max, commands, more, t) && Idle(t)
    ensures t.nextToken == s.nextToken + 1 && t.written == s.written
  {
    hide Reaches;
    var c := s.nextToken;
    var a := s.(calls := s.calls[c := Waiting], queued := 1);
    var b := a.(calls := a.calls[c := Leaving(Failure(TransportFailed))], nextToken := s.nextToken + 1);
    t := b.(calls := b.calls[c := Ended(Failure(TransportFailed))], queued := 0);
    ReachesThen(max, commands, events, s, Arrive(c), a);
    ReachesThen(max, commands, events + [Arrive(c)], a, LockAndFail(c), b);
    ReachesThen(max, commands, events + [Arrive(c)] + [LockAndFail(c)], b, Release(c), t);
    more := events + [Arrive(c)] + [LockAndFail(c)] + [Release(c)];
  }

  lemma {:induction false} LoseTokens(max: int, commands: iset<Command>, events: seq<Event>, s: State, token: nat)
    returns (more: seq<Event>, t: State)
    requires max >= 1 && Reaches(max, commands, events, s) && Idle(s) && s.nextToken <= token
    ensures Reaches(max, commands, more, t) && Idle(t) && t.nextToken == token && t.written == s.written
    decreases token - s.nextToken
  {
    hide Reaches, Idle;
    if s.nextToken == token { return events, s; }
    more, t := LoseToken(max, commands, events, s);
    more, t := LoseTokens(max, commands, more, t, token);
  }

  /** A call writes the command and is cancelled before it reads anything. */
  lemma WriteAndCancel(max: int, commands: iset<Command>, command: Command) returns (events: seq<Event>, s: State)
    requires max >= 1 && command in commands
    ensures Reaches(max, commands, events, s) && Idle(s) && s.nextToken == 2 && s.written == [Write(0, 1, command)]
  {
    var a := INITIAL.(calls := map[0 := Waiting], queued := 1);
    var b := a.(calls := map[0 := Draining(1)], holder := Some(0), nextToken := 2, written := [Write(0, 1, command)]);
    var c := b.(calls := map[0 := Leaving(Failure(Cancelled))], holder := None);
    s := c.(calls := map[0 := Ended(Failure(Cancelled))], queued := 0);
    assert [] + [Write(0, 1, command)] == [Write(0, 1, command)];
    assert a.calls[0 := Draining(1)] == b.calls && b.calls[0 := Leaving(Failure(Cancelled))] == c.calls;
    assert c.calls[0 := Ended(Failure(Cancelled))] == s.calls;
    assert Reaches(max, commands, [], INITIAL);
    hide Reaches;
    ReachesThen(max, commands, [], INITIAL, Arrive(0), a);
    ReachesThen(max, commands, [] + [Arrive(0)], a, LockAndWrite(0, command), b);
    var two := [] + [Arrive(0)] + [LockAndWrite(0, command)];
    ReachesThen(max, commands, two, b, Abandon(0, Cancelled), c);
    ReachesThen(max, commands, two + [Abandon(0, Cancelled)], c, Release(0), s);
    events := two + [Abandon(0, Cancelled)] + [Release(0)];
  }

  /** A reply with the token, as GDB prints it. */
  function DoneWith(token: nat, line: string): Record {
    MIRecord(ResultKind, "done", [], line, Some(token))
  }

  lemma DoneLine(token: nat) returns (line: string)
    ensures MIParser.RecordOf(line) == Success(DoneWith(token, line))
  {
    MIPrinter.RoundTrip(DoneWith(token, ""));
    line := MIPrinter.Print(DoneWith(token, ""));
  }

  /** One call alone: it writes, GDB says one line for `source`, and the call returns it. */
  lemma ReadForeign(max: int, commands: iset<Command>, events: seq<Event>, s: State, command: Command, source: Source)
    returns (more: seq<Event>, t: State, c: CallId)
    requires max >= 1 && command in commands && Reaches(max, commands, events, s) && Idle(s)
    requires HasRead(s.written + [Write(s.nextToken, s.nextToken, command)], source, s.nextToken)
    ensures Reaches(max, commands, more, t) && |t.input| == 1 && t.input[0].answers == Some(source)
    ensures c in t.calls && OutcomeOf(t.calls[c]).Some? && OutcomeOf(t.calls[c]).value.Success?
  {
    hide Reaches, HasRead, MIParser.RecordOf;
    c := s.nextToken;
    var token := s.nextToken;
    var line := DoneLine(token);
    var a := s.(calls := s.calls[c := Waiting], queued := 1);
    var b := a.(calls := a.calls[c := Draining(token)], holder := Some(c), nextToken := token + 1,
                written := s.written + [Write(c, token, command)]);
    var d := b.(calls := b.calls[c := InLoop(Reading(token, [], []))], spans := [Span(c, 0, 0)]);
    var e := d.(input := [Emission(line, Some(source))]);
    var result := CommandResult(DoneWith(token, line), [], []);
    t := e.(calls := e.calls[c := Leaving(Success(result))], holder := None, spans := [Span(c, 0, 1)]);
    assert [] + [Span(c, 0, 0)] == [Span(c, 0, 0)] && [Span(c, 0, 0)][0 := Span(c, 0, 1)] == [Span(c, 0, 1)];
    assert [] + [Emission(line, Some(source))] == [Emission(line, Some(source))];
    assert Honest(d.written, Emission(line, Some(source)));
    assert Step(max, e, ReadNext(c)) == Some(t) by { ReadLast(max, e, c, token, line, source, result); }
    ReachesThen(max, commands, events, s, Arrive(c), a);
    var two := events + [Arrive(c)];
    ReachesThen(max, commands, two, a, LockAndWrite(c, command), b);
    var three := two + [LockAndWrite(c, command)];
    ReachesThen(max, commands, three, b, Drained(c), d);
    var four := three + [Drained(c)];
    ReachesThen(max, commands, four, d, Emit(Emission(line, Some(source))), e);
    var five := four + [Emit(Emission(line, Some(source)))];
    ReachesThen(max, commands, five, e, ReadNext(c), t);
    more := five + [ReadNext(c)];
  }

  lemma ReadLast(max: int, e: State, c: CallId, token: nat, line: string, source: Source, result: CommandResult)
    requires e.input == [Emission(line, Some(source))] && e.spans == [Span(c, 0, 0)] && e.holder == Some(c)
    requires c in e.calls && e.calls[c] == InLoop(Reading(token, [], []))
    requires result == CommandResult(DoneWith(token, line), [], [])
    requires MIParser.RecordOf(line) == Success(DoneWith(token, line))
    ensures Step(max, e, ReadNext(c))
         == Some(e.(calls := e.calls[c := Leaving(Success(result))], holder := None, spans := [Span(c, 0, 1)]))
  {
    hide MIParser.RecordOf;
    assert [Span(c, 0, 0)][0 := Span(c, 0, 1)] == [Span(c, 0, 1)];
  }

  /** A run that returns the reply to a line behind the first one of a command. */
  lemma ForeignReply(max: int, commands: iset<Command>, command: Command)
    returns (events: seq<Event>, s: State, c: CallId)
    requires max >= 1 && command in commands && TokenBehind(command)
    ensures Reaches(max, commands, events, s) && !Correlated(s, c)
  {
    hide Reaches, LeadingToken, CommandLines, LinesBehind, Correlated;
    var l :| 0 <= l < |LinesBehind(command)| && Positive(LeadingToken(LinesBehind(command)[l]));
    var token := LeadingToken(LinesBehind(command)[l]).value;
    var source := Source(0, l + 1);
    LinesOfCommand(command, 1);
    assert CommandLines(command, 1)[l + 1] == LinesBehind(command)[l];
    if token == 1 {
      StartIdle(max, commands);
      assert ([] + [Write(1, 1, command)])[0] == Write(1, 1, command);
      events, s, c := ReadForeign(max, commands, [], INITIAL, command, source);
    } else {
      events, s := WriteAndCancel(max, commands, command);
      events, s := LoseTokens(max, commands, events, s, token);
      assert (s.written + [Write(token, token, command)])[0] == Write(0, 1, command);
      events, s, c := ReadForeign(max, commands, events, s, command, source);
    }
    NotCorrelated(s, c, l + 1);
  }

  lemma StartIdle(max: int, commands: iset<Command>)
    ensures Reaches(max, commands, [], INITIAL) && Idle(INITIAL)
  {}

  lemma NotCorrelated(s: State, c: CallId, line: nat)
    requires line > 0 && |s.input| == 1 && s.input[0].answers == Some(Source(0, line))
    requires c in s.calls && OutcomeOf(s.calls[c]).Some? && OutcomeOf(s.calls[c]).value.Success?
    ensures !Correlated(s, c)
  {
    hide MIParser.RecordOf;
  }

  /** Replies are correlated, in all runs that use the given commands, if and only if none of them has a number in front
      of a line behind its first, or the queue admits nobody. */
  lemma ReplyCorrelatedExactly(max: int, commands: iset<Command>)
    ensures (forall events, s, c :: Reaches(max, commands, events, s) ==> Correlated(s, c))
      <==> max <= 0 || forall command :: command in commands ==> !TokenBehind(command)
  {
    hide Correlated, TokenBehind, Run, Inv;
    if max <= 0 || forall command :: command in commands ==> !TokenBehind(command) {
      forall events, s, c | Reaches(max, commands, events, s) ensures Correlated(s, c) {
        if max <= 0 {
          StartInv(max);
          NothingWritten(max, INITIAL, events);
        }
        ReplyCorrelated(max, events, s, c);
      }
    } else {
      var command :| command in commands && TokenBehind(command);
      var events, s, c := ForeignReply(max, commands, command);
    }
  }

  lemma StartInv(max: int)
    ensures Inv(max, INITIAL)
  {
    assert Run(max, INITIAL, []) == Some(INITIAL);
    ReachableInv(max, []);
  }

  /** A memory read whose address holds two line breaks, with a number behind the first. */
  const BROKEN_READ := Command(DataReadMemoryBytes, ["0" + "\n" + INNER_READ + "\n" + ""] + ["1"])

  const INNER_READ := "2-data-read-memory-bytes 4 1"

  lemma InnerIsPlain()
    ensures Unbroken("0") && Unbroken(INNER_READ) && NoQuotes("0" + "\n" + INNER_READ + "\n" + "")
  {
    assert forall k :: 0 <= k < |INNER_READ| ==> IsWordChar(INNER_READ[k]);
  }

  predicate IsWordChar(c: char) {
    Text.IsLetter(c) || Text.IsDigit(c) || c == '-' || c == ' '
  }

  /** What GDB reads behind the first line of the broken read. */
  lemma BrokenReadLines()
    ensures LinesBehind(BROKEN_READ) == [INNER_READ, "\" 1"]
  {
    hide Unbroken, NoQuotes, LinesBehind, Lines, QuoteArg;
    InnerIsPlain();
    InnerLine(DataReadMemoryBytes, "0", INNER_READ, "", ["1"]);
    LastLine();
  }

  lemma LastLine()
    ensures Lines("" + "\"" + ArgsText(["1"]) + "\n") == ["\" 1"]
  {
    hide Lines;
    assert ArgsText(["1"]) == " 1" by { assert ["1"][1..] == []; }
    OneLine("\" 1");
    assert "" + "\"" + " 1" + "\n" == "\" 1" + "\n";
  }

  lemma BrokenReadHasToken()
    ensures HasBreak(BROKEN_READ) && TokenBehind(BROKEN_READ)
    ensures LeadingToken(INNER_READ) == Some(2) && LeadingToken("\" 1") == None
  {
    hide LinesBehind, Lines;
    BrokenReadLines();
    TwoFirst(INNER_READ);
    assert Positive(LeadingToken(LinesBehind(BROKEN_READ)[0]));
    assert BROKEN_READ.args[0][1] == '\n';
  }

  lemma TwoFirst(line: string)
    requires |line| >= 2 && line[0] == '2' && line[1] == '-'
    ensures LeadingToken(line) == Some(2)
  {
    assert MIParserSpec.DigitsEnd(line, 0) == 1;
    assert line[..1] == "2" && "2"[..0] == "";
  }

  /** A run in which a call is given the answer to a line inside the address of a cancelled memory read. */
  lemma BrokenReadBreaksCorrelation(max: int) returns (events: seq<Event>, s: State, c: CallId)
    requires max >= 1
    ensures Reaches(max, iset{BROKEN_READ}, events, s) && !Correlated(s, c)
  {
    hide Reaches, TokenBehind, HasBreak, LinesBehind, Correlated;
    BrokenReadHasToken();
    events, s, c := ForeignReply(max, iset{BROKEN_READ}, BROKEN_READ);
  }
}
