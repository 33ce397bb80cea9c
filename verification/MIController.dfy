/** The controller of mi/controller.py: bounded admission, increasing tokens, and the read loop that picks the
    reply to one command out of everything GDB says. */
module MIController {
  import opened Basics
  import opened MIRecords
  import opened MIParserSpec
  import opened MICommands
  import MIParser

  datatype CommandResult = CommandResult(resultRecord: Record, asyncRecords: seq<Record>, streamRecords: seq<Record>)

  datatype ControllerError =
    | QueueFull
    | BadLine(error: ParseError)
    | CommandFailed(record: Record)
    | TimedOut
    | TransportFailed
    | Cancelled

  type Outcome = Result<CommandResult, ControllerError>

  // ----- what a read loop does with the lines it is given -----

  /** A result record that carries the token of the command. */
  predicate IsReply(record: Record, token: nat) {
    record.MIRecord? && record.kind == ResultKind && record.token == Some(token)
  }

  /** A line the loop reads past: it parses, and it is not the reply. */
  predicate Passes(line: string, token: nat) {
    var r := MIParser.RecordOf(line);
    r.Success? && !IsReply(r.value, token)
  }

  predicate AllPass(lines: seq<string>, token: nat) {
    forall k :: 0 <= k < |lines| ==> Passes(lines[k], token)
  }

  /** The line is a record of the kind asked for: a stream record, or any other. */
  predicate OfKind(line: string, stream: bool) {
    var r := MIParser.RecordOf(line);
    r.Success? && r.value.MIStreamRecord? == stream
  }

  /** The records are those of the lines at these places, which are in order and all the places of a line of the
      kind. */
  ghost predicate Picks(lines: seq<string>, places: seq<nat>, records: seq<Record>, stream: bool) {
    && |places| == |records|
    && (forall k :: 0 <= k < |places| ==> places[k] < |lines| && OfKind(lines[places[k]], stream))
    && (forall k :: 0 <= k < |places| ==> MIParser.RecordOf(lines[places[k]]) == Success(records[k]))
    && (forall j, k :: 0 <= j < k < |places| ==> places[j] < places[k])
    && (forall i: nat :: i < |lines| && OfKind(lines[i], stream) ==> i in places)
  }

  /** The records of one kind among the lines, each once and in order. */
  ghost predicate InOrder(lines: seq<string>, records: seq<Record>, stream: bool) {
    exists places: seq<nat> :: Picks(lines, places, records, stream)
  }

  /** The lines read so far without a reply, and what was collected from them. */
  ghost predicate Collected(lines: seq<string>, token: nat, asyncRecords: seq<Record>, streamRecords: seq<Record>) {
    AllPass(lines, token) && InOrder(lines, asyncRecords, false) && InOrder(lines, streamRecords, true)
  }

  lemma PicksTake(lines: seq<string>, places: seq<nat>, records: seq<Record>, stream: bool, line: string)
    requires Picks(lines, places, records, stream) && OfKind(line, stream)
    ensures Picks(lines + [line], places + [|lines|], records + [MIParser.RecordOf(line).value], stream)
  {
    var all, now := lines + [line], places + [|lines|];
    assert MIParser.RecordOf(line).Success?;
    hide MIParser.RecordOf, OfKind;
    forall k | 0 <= k < |now| ensures all[now[k]] == if k < |places| then lines[places[k]] else line {}
    forall i: nat | i < |all| && OfKind(all[i], stream) ensures i in now {
      if i < |lines| { assert i in places; } else { assert now[|places|] == i; }
    }
  }

  lemma PicksPass(lines: seq<string>, places: seq<nat>, records: seq<Record>, stream: bool, line: string)
    requires Picks(lines, places, records, stream) && !OfKind(line, stream)
    ensures Picks(lines + [line], places, records, stream)
  {
    hide MIParser.RecordOf, OfKind;
    var all := lines + [line];
    forall k | 0 <= k < |places| ensures all[places[k]] == lines[places[k]] {}
    forall i: nat | i < |all| && OfKind(all[i], stream) ensures i in places { assert OfKind(lines[i], stream); }
  }

  lemma InOrderGrows(lines: seq<string>, records: seq<Record>, stream: bool, line: string)
    requires InOrder(lines, records, stream)
    ensures InOrder(lines + [line],
      if OfKind(line, stream) then records + [MIParser.RecordOf(line).value] else records, stream)
  {
    var places: seq<nat> :| Picks(lines, places, records, stream);
    if OfKind(line, stream) {
      PicksTake(lines, places, records, stream, line);
    } else {
      PicksPass(lines, places, records, stream, line);
    }
  }

  lemma PicksFront(lines: seq<string>, places: seq<nat>, records: seq<Record>, stream: bool)
    requires lines != [] && OfKind(lines[|lines| - 1], stream) && Picks(lines, places, records, stream)
    ensures places != [] && places[|places| - 1] == |lines| - 1
    ensures records != []
    ensures MIParser.RecordOf(lines[|lines| - 1]).Success?
    ensures records[|records| - 1] == MIParser.RecordOf(lines[|lines| - 1]).value
    ensures Picks(lines[..|lines| - 1], places[..|places| - 1], records[..|records| - 1], stream)
  {
    hide MIParser.RecordOf, OfKind;
    var n, front := |lines| - 1, places[..|places| - 1];
    var k :| 0 <= k < |places| && places[k] == n;
    forall i: nat | i < n && OfKind(lines[..n][i], stream) ensures i in front {
      var j :| 0 <= j < |places| && places[j] == i;
      assert front[j] == i;
    }
    forall j | 0 <= j < |front| ensures front[j] < n && lines[..n][front[j]] == lines[places[j]] {}
  }

  lemma PicksSkip(lines: seq<string>, places: seq<nat>, records: seq<Record>, stream: bool)
    requires lines != [] && !OfKind(lines[|lines| - 1], stream) && Picks(lines, places, records, stream)
    ensures Picks(lines[..|lines| - 1], places, records, stream)
  {
    hide MIParser.RecordOf, OfKind;
    var n := |lines| - 1;
    forall k | 0 <= k < |places| ensures places[k] < n && lines[..n][places[k]] == lines[places[k]] {}
    forall i: nat | i < n && OfKind(lines[..n][i], stream) ensures i in places { assert OfKind(lines[i], stream); }
  }

  lemma SplitLast(records: seq<Record>)
    ensures records != [] ==> records == records[..|records| - 1] + [records[|records| - 1]]
  {}

  lemma InOrderLast(lines: seq<string>, records: seq<Record>, stream: bool) returns (front: seq<Record>)
    requires lines != [] && InOrder(lines, records, stream)
    ensures OfKind(lines[|lines| - 1], stream) ==> records == front + [MIParser.RecordOf(lines[|lines| - 1]).value]
    ensures !OfKind(lines[|lines| - 1], stream) ==> records == front
    ensures InOrder(lines[..|lines| - 1], front, stream)
  {
    var places: seq<nat> :| Picks(lines, places, records, stream);
    hide MIParser.RecordOf, Picks;
    if OfKind(lines[|lines| - 1], stream) {
      PicksFront(lines, places, records, stream);
      front := records[..|records| - 1];
      SplitLast(records);
      assert Picks(lines[..|lines| - 1], places[..|places| - 1], front, stream);
    } else {
      PicksSkip(lines, places, records, stream);
      front := records;
    }
  }

  lemma InOrderHolds(lines: seq<string>, records: seq<Record>, stream: bool, i: nat)
    requires InOrder(lines, records, stream) && i < |lines| && OfKind(lines[i], stream)
    ensures MIParser.RecordOf(lines[i]).value in records
  {
    hide MIParser.RecordOf;
    var places: seq<nat> :| Picks(lines, places, records, stream);
    var k :| 0 <= k < |places| && places[k] == i;
    assert records[k] == MIParser.RecordOf(lines[i]).value;
  }

  /** The lines are everything a successful read loop consumed: an order-preserving merge of the stream records
      and the async records it returns, and then the first reply. */
  ghost predicate Delivered(lines: seq<string>, token: nat, result: CommandResult) {
    && lines != []
    && Collected(lines[..|lines| - 1], token, result.asyncRecords, result.streamRecords)
    && MIParser.RecordOf(lines[|lines| - 1]) == Success(result.resultRecord)
    && IsReply(result.resultRecord, token) && result.resultRecord.recordClass != "error"
  }

  /** The lines are everything a refused read loop consumed: the last is no record, or the reply with an error. */
  ghost predicate Refused(lines: seq<string>, token: nat, error: ControllerError) {
    && lines != []
    && AllPass(lines[..|lines| - 1], token)
    && match MIParser.RecordOf(lines[|lines| - 1])
       case Failure(e) => error == BadLine(e)
       case Success(r) => IsReply(r, token) && r.recordClass == "error" && error == CommandFailed(r)
  }

  /** How a read loop over `lines` ends after the first `consumed` of them: with the reply, with the first line that is
      no record or an error reply, or, when the lines run out, with what is raised in the pending read. */
  ghost predicate EndsWith(lines: seq<string>, token: nat, ending: ControllerError, outcome: Outcome, consumed: nat) {
    consumed <= |lines| &&
    match outcome
    case Success(result) => Delivered(lines[..consumed], token, result)
    case Failure(error) =>
      || (consumed == |lines| && AllPass(lines, token) && error == ending)
      || Refused(lines[..consumed], token, error)
  }

  /** The end of a read loop, line by line: the first line that is no record or is a result record with the token
      decides, and is the last one consumed. */
  lemma LoopExactly(lines: seq<string>, token: nat, ending: ControllerError, outcome: Outcome, consumed: nat, n: nat)
    requires EndsWith(lines, token, ending, outcome, consumed) && n <= |lines|
    requires forall k :: 0 <= k < n ==>
      var r := MIParser.RecordOf(lines[k]);
      r.Success? && !(r.value.MIRecord? && r.value.kind == ResultKind && r.value.token == Some(token))
    requires n < |lines| ==>
      var r := MIParser.RecordOf(lines[n]);
      r.Success? ==> r.value.MIRecord? && r.value.kind == ResultKind && r.value.token == Some(token)
    ensures n == |lines| ==> consumed == n && outcome == Failure(ending)
    ensures n < |lines| ==> consumed == n + 1
    ensures n < |lines| ==>
      match MIParser.RecordOf(lines[n])
      case Failure(e) => outcome == Failure(BadLine(e))
      case Success(r) =>
        if r.recordClass == "error" then outcome == Failure(CommandFailed(r))
        else
          && outcome.Success? && outcome.value.resultRecord == r
          && InOrder(lines[..n], outcome.value.asyncRecords, false)
          && InOrder(lines[..n], outcome.value.streamRecords, true)
  {
    hide MIParser.RecordOf, InOrder;
    forall k | 0 <= k < n ensures Passes(lines[k], token) {}
    if n < |lines| { assert !Passes(lines[n], token); }
    var front := lines[..consumed];
    assert forall k :: 0 <= k < consumed ==> front[k] == lines[k];
    if consumed > 0 {
      assert front[..consumed - 1] == lines[..consumed - 1];
      assert forall k :: 0 <= k < consumed - 1 ==> front[..consumed - 1][k] == lines[k];
    }
  }

  /** The records of lines that all parse. */
  function Records(lines: seq<string>): seq<Record>
    requires forall k :: 0 <= k < |lines| ==> MIParser.RecordOf(lines[k]).Success?
  {
    if lines == [] then [] else Records(lines[..|lines| - 1]) + [MIParser.RecordOf(lines[|lines| - 1]).value]
  }

  /** No record is lost or duplicated: those returned are exactly those read. */
  lemma {:induction false} NothingLost(lines: seq<string>, token: nat, asyncRecords: seq<Record>,
                                       streamRecords: seq<Record>)
    requires Collected(lines, token, asyncRecords, streamRecords)
    ensures multiset(Records(lines)) == multiset(streamRecords) + multiset(asyncRecords)
    decreases |lines|
  {
    if lines == [] {
      NoneInOrder(asyncRecords, false);
      NoneInOrder(streamRecords, true);
    } else {
      var front := lines[..|lines| - 1];
      var before, others := CollectedLast(lines, token, asyncRecords, streamRecords);
      NothingLost(front, token, before, others);
      RecordsLast(lines);
      hide Records, Collected, MIParser.RecordOf, OfKind;
      var line := lines[|lines| - 1];
      OneMore(Records(front), before, others, MIParser.RecordOf(line).value, OfKind(line, true), asyncRecords,
              streamRecords);
    }
  }

  lemma RecordsLast(lines: seq<string>)
    requires lines != [] && forall k :: 0 <= k < |lines| ==> MIParser.RecordOf(lines[k]).Success?
    ensures Records(lines) == Records(lines[..|lines| - 1]) + [MIParser.RecordOf(lines[|lines| - 1]).value]
  {}

  lemma OneMore(all: seq<Record>, before: seq<Record>, others: seq<Record>, r: Record, stream: bool,
                asyncRecords: seq<Record>, streamRecords: seq<Record>)
    requires multiset(all) == multiset(others) + multiset(before)
    requires if stream then asyncRecords == before && streamRecords == others + [r]
             else asyncRecords == before + [r] && streamRecords == others
    ensures multiset(all + [r]) == multiset(streamRecords) + multiset(asyncRecords)
  {}

  /** What was collected before the last line. */
  lemma CollectedLast(lines: seq<string>, token: nat, asyncRecords: seq<Record>, streamRecords: seq<Record>)
    returns (before: seq<Record>, others: seq<Record>)
    requires lines != [] && Collected(lines, token, asyncRecords, streamRecords)
    ensures MIParser.RecordOf(lines[|lines| - 1]).Success?
    ensures Collected(lines[..|lines| - 1], token, before, others)
    ensures var line := lines[|lines| - 1];
      var r := MIParser.RecordOf(line).value;
      if OfKind(line, true) then asyncRecords == before && streamRecords == others + [r]
      else asyncRecords == before + [r] && streamRecords == others
  {
    var n := |lines| - 1;
    assert Passes(lines[n], token) && AllPass(lines[..n], token);
    OneKind(lines[n], token);
    hide OfKind, Passes, AllPass, InOrder, MIParser.RecordOf;
    before := InOrderLast(lines, asyncRecords, false);
    others := InOrderLast(lines, streamRecords, true);
  }

  lemma OneKind(line: string, token: nat)
    requires Passes(line, token)
    ensures MIParser.RecordOf(line).Success? && (OfKind(line, true) <==> !OfKind(line, false))
  {
    hide MIParser.RecordOf;
  }

  lemma NoneInOrder(records: seq<Record>, stream: bool)
    requires InOrder([], records, stream)
    ensures records == []
  {
    var places: seq<nat> :| Picks([], places, records, stream);
    FirstPlace(places);
  }

  lemma FirstPlace(places: seq<nat>)
    ensures places != [] ==> places[0] >= 0
  {}

  datatype Reading = Reading(token: nat, asyncRecords: seq<Record>, streamRecords: seq<Record>)

  datatype ReadStep = More(reading: Reading) | Done(outcome: Outcome)

  /** One turn of the read loop. */
  function ReadOne(reading: Reading, line: string): ReadStep {
    match MIParser.RecordOf(line)
    case Failure(error) => Done(Failure(BadLine(error)))
    case Success(record) =>
      if record.MIStreamRecord? then More(reading.(streamRecords := reading.streamRecords + [record]))
      else if record.kind != ResultKind || record.token != Some(reading.token) then
        More(reading.(asyncRecords := reading.asyncRecords + [record]))
      else if record.recordClass == "error" then Done(Failure(CommandFailed(record)))
      else Done(Success(CommandResult(record, reading.asyncRecords, reading.streamRecords)))
  }

  /** A turn keeps the account of the lines read, and ends the loop with the account complete. */
  lemma ReadOneCollects(lines: seq<string>, reading: Reading, line: string)
    requires Collected(lines, reading.token, reading.asyncRecords, reading.streamRecords)
    ensures match ReadOne(reading, line)
      case More(next) =>
        next.token == reading.token && Collected(lines + [line], next.token, next.asyncRecords, next.streamRecords)
      case Done(Success(result)) => Delivered(lines + [line], reading.token, result)
      case Done(Failure(error)) => Refused(lines + [line], reading.token, error)
  {
    hide MIParser.RecordOf, InOrder;
    assert (lines + [line])[..|lines|] == lines;
    InOrderGrows(lines, reading.asyncRecords, false, line);
    InOrderGrows(lines, reading.streamRecords, true, line);
  }

  lemma CollectedNothing(token: nat)
    ensures Collected([], token, [], [])
  {
    assert Picks([], [], [], false) && Picks([], [], [], true);
  }

  // ----- the controller -----

  class Controller {
    var nextToken: nat
    var queuedCommands: int
    const maxQueuedCommands: int

    constructor (maxQueuedCommands: int)
      ensures nextToken == 1 && queuedCommands == 0 && this.maxQueuedCommands == maxQueuedCommands
    {
      this.nextToken := 1;
      this.queuedCommands := 0;
      this.maxQueuedCommands := maxQueuedCommands;
    }

    method AllocateToken() returns (token: nat)
      modifies this`nextToken
      ensures token == old(nextToken) && nextToken == old(nextToken) + 1
    {
      token := nextToken;
      nextToken := nextToken + 1;
    }

    /** The slot is granted exactly when the queue is not full. */
    method ReserveQueueSlot() returns (granted: bool)
      modifies this`queuedCommands
      ensures granted <==> old(queuedCommands) < maxQueuedCommands
      ensures queuedCommands == if granted then old(queuedCommands) + 1 else old(queuedCommands)
    {
      if queuedCommands >= maxQueuedCommands { return false; }
      queuedCommands := queuedCommands + 1;
      granted := true;
    }

    method ReleaseQueueSlot()
      modifies this`queuedCommands
      ensures queuedCommands == if old(queuedCommands) >= 1 then old(queuedCommands) - 1 else 0
      ensures queuedCommands == Released(old(queuedCommands))
    {
      queuedCommands := if queuedCommands - 1 > 0 then queuedCommands - 1 else 0;
    }

    /** The read loop over the lines the transport delivers; when they run out, `ending` is raised in the pending
        read. */
    method ReadUntilResult(token: nat, lines: seq<string>, ending: ControllerError)
      returns (outcome: Outcome, consumed: nat)
      ensures EndsWith(lines, token, ending, outcome, consumed)
    {
      hide MIParser.RecordOf, InOrder, AllPass, Passes;
      var asyncRecords: seq<Record> := [];
      var streamRecords: seq<Record> := [];
      consumed := 0;
      CollectedNothing(token);
      while consumed < |lines|
        invariant 0 <= consumed <= |lines|
        invariant Collected(lines[..consumed], token, asyncRecords, streamRecords)
      {
        var line := lines[consumed];
        ghost var step := ReadOne(Reading(token, asyncRecords, streamRecords), line);
        ReadOneCollects(lines[..consumed], Reading(token, asyncRecords, streamRecords), line);
        consumed := consumed + 1;
        assert lines[..consumed] == lines[..consumed - 1] + [line];
        var parsed := MIParser.ParseMiRecord(line);
        if parsed.Failure? { return Failure(BadLine(parsed.error)), consumed; }
        var record := parsed.value;
        if record.MIStreamRecord? {
          streamRecords := streamRecords + [record];
          continue;
        }
        if record.kind != ResultKind {
          asyncRecords := asyncRecords + [record];
          continue;
        }
        if record.token != Some(token) {
          asyncRecords := asyncRecords + [record];
          continue;
        }
        if record.recordClass == "error" { return Failure(CommandFailed(record)), consumed; }
        return Success(CommandResult(record, asyncRecords, streamRecords)), consumed;
      }
      assert lines[..consumed] == lines;
      outcome := Failure(ending);
    }

    /** One call running alone: the slot is given back on every path, and one token is used unless the queue is full. */
    method Execute(command: Command, lines: seq<string>, ending: ControllerError)
      returns (outcome: Outcome, written: seq<string>, consumed: nat)
      modifies this
      ensures 0 <= old(queuedCommands) ==> queuedCommands == old(queuedCommands)
      ensures old(queuedCommands) >= maxQueuedCommands ==>
        outcome == Failure(QueueFull) && written == [] && consumed == 0 && nextToken == old(nextToken)
      ensures old(queuedCommands) < maxQueuedCommands ==>
        && nextToken == old(nextToken) + 1
        && written == [CommandText(command, Some(old(nextToken)))]
        && EndsWith(lines, old(nextToken), ending, outcome, consumed)
    {
      var granted := ReserveQueueSlot();
      if !granted { return Failure(QueueFull), [], 0; }
      var token := AllocateToken();
      var text := Serialize(command, Some(token));
      written := [text];
      outcome, consumed := ReadUntilResult(token, lines, ending);
      ReleaseQueueSlot();
    }
  }

  /** `max(0, queued - 1)`. */
  function Released(queued: int): int {
    if queued - 1 > 0 then queued - 1 else 0
  }
}
