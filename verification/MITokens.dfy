/** The tokens written in a run of the controller, as a function of its events: every call that gets the command lock
    takes the next token, also when its write fails before the command goes out. */
module MITokens {
  import opened Basics
  import opened MIController
  import opened MICommands
  import opened MIProtocol

  /** How many tokens were taken. */
  function Taken(events: seq<Event>): nat {
    if events == [] then 0 else
    var last := events[|events| - 1];
    Taken(events[..|events| - 1]) + if last.LockAndWrite? || last.LockAndFail? then 1 else 0
  }

  /** How many of them were lost to a failed write. */
  function Lost(events: seq<Event>): nat {
    if events == [] then 0 else
    Lost(events[..|events| - 1]) + if events[|events| - 1].LockAndFail? then 1 else 0
  }

  /** The commands written, each with the number of its turn at the lock. */
  function WrittenBy(events: seq<Event>): seq<Write> {
    if events == [] then [] else
    var before, last := events[..|events| - 1], events[|events| - 1];
    WrittenBy(before) + if last.LockAndWrite? then [Write(last.call, Taken(before) + 1, last.command)] else []
  }

  predicate Consecutive(written: seq<Write>) {
    forall i :: 0 <= i < |written| ==> written[i].token == i + 1
  }

  /** The write at `j` comes after a failed one at `i`. */
  predicate WriteAfterFailure(events: seq<Event>, i: nat, j: nat) {
    i < j < |events| && events[i].LockAndFail? && events[j].LockAndWrite?
  }

  lemma {:induction false} RunPrefix(max: int, s: State, events: seq<Event>)
    requires events != [] && Run(max, s, events).Some?
    ensures var n := |events| - 1; Run(max, s, events[..n]).Some?
    ensures var n := |events| - 1; Step(max, Run(max, s, events[..n]).value, events[n]) == Run(max, s, events)
    decreases |events|
  {
    hide Step;
    var n := |events| - 1;
    if n > 0 {
      var t := Step(max, s, events[0]).value;
      RunPrefix(max, t, events[1..]);
      assert events[1..][..n - 1] == events[..n][1..];
    } else {
      var t := Step(max, s, events[0]).value;
      assert Run(max, t, events[1..]) == Some(t);
    }
  }

  /** The tokens an event takes and the command it writes. */
  lemma StepTokens(max: int, s: State, e: Event)
    requires Step(max, s, e).Some?
    ensures var t := Step(max, s, e).value;
      && t.nextToken == s.nextToken + (if e.LockAndWrite? || e.LockAndFail? then 1 else 0)
      && t.written == s.written + (if e.LockAndWrite? then [Write(e.call, s.nextToken, e.command)] else [])
  {
    hide ReadOne, Longer, Honest;
    assert s.written + [] == s.written;
  }

  lemma {:induction false} TokensOfEvents(max: int, events: seq<Event>, s: State)
    requires Run(max, INITIAL, events) == Some(s)
    ensures s.nextToken == Taken(events) + 1 && s.written == WrittenBy(events)
    decreases |events|
  {
    hide Step;
    if events != [] {
      var n := |events| - 1;
      RunPrefix(max, INITIAL, events);
      var t := Run(max, INITIAL, events[..n]).value;
      TokensOfEvents(max, events[..n], t);
      StepTokens(max, t, events[n]);
    }
  }

  lemma {:induction false} TakenOrLost(events: seq<Event>)
    ensures Taken(events) == |WrittenBy(events)| + Lost(events)
    ensures forall i :: 0 <= i < |WrittenBy(events)| ==> WrittenBy(events)[i].token <= Taken(events)
    decreases |events|
  {
    if events != [] { TakenOrLost(events[..|events| - 1]); }
  }

  lemma {:induction false} Increasing(events: seq<Event>)
    ensures forall i, j :: 0 <= i < j < |WrittenBy(events)| ==> WrittenBy(events)[i].token < WrittenBy(events)[j].token
    decreases |events|
  {
    if events != [] {
      TakenOrLost(events[..|events| - 1]);
      Increasing(events[..|events| - 1]);
    }
  }

  lemma {:induction false} LostExactly(events: seq<Event>)
    ensures Lost(events) > 0 <==> exists i :: 0 <= i < |events| && events[i].LockAndFail?
    decreases |events|
  {
    if events != [] {
      var n := |events| - 1;
      LostExactly(events[..n]);
      assert forall i :: 0 <= i < n ==> events[..n][i] == events[i];
    }
  }

  /** The failing pairs of a run are those of the run before its last event, and those with its last event. */
  lemma LastPair(events: seq<Event>)
    requires events != []
    ensures var n := |events| - 1;
      (exists i: nat, j: nat :: WriteAfterFailure(events, i, j)) <==>
        || (exists i: nat, j: nat :: WriteAfterFailure(events[..n], i, j))
        || (events[n].LockAndWrite? && Lost(events[..n]) > 0)
  {
    var n := |events| - 1;
    LostExactly(events[..n]);
    if i: nat, j: nat :| WriteAfterFailure(events, i, j) {
      if j < n { assert WriteAfterFailure(events[..n], i, j); } else { assert events[..n][i].LockAndFail?; }
    }
    if i: nat, j: nat :| WriteAfterFailure(events[..n], i, j) { assert WriteAfterFailure(events, i, j); }
    if events[n].LockAndWrite? && Lost(events[..n]) > 0 {
      var i :| 0 <= i < n && events[..n][i].LockAndFail?;
      assert WriteAfterFailure(events, i, n);
    }
  }

  lemma {:induction false} ConsecutiveExactly(events: seq<Event>)
    ensures Consecutive(WrittenBy(events)) <==> !exists i: nat, j: nat :: WriteAfterFailure(events, i, j)
    decreases |events|
  {
    if events != [] {
      var n := |events| - 1;
      var before, all := WrittenBy(events[..n]), WrittenBy(events);
      ConsecutiveExactly(events[..n]);
      TakenOrLost(events[..n]);
      LastPair(events);
      if Consecutive(all) {
        forall i | 0 <= i < |before| ensures before[i].token == i + 1 { assert all[i] == before[i]; }
      }
      if events[n].LockAndWrite? { assert all[|before|].token == Taken(events[..n]) + 1; }
    }
  }

  /** In every run: each command goes out with the number of its turn at the lock, so tokens increase and never repeat;
      as many were taken in vain as writes failed; and the tokens are 1, 2, 3, ... if and only if no command was written
      after a failed write. */
  lemma TokensWritten(max: int, events: seq<Event>, s: State)
    requires Run(max, INITIAL, events) == Some(s)
    ensures s.written == WrittenBy(events)
    ensures forall i, j :: 0 <= i < j < |s.written| ==> s.written[i].token < s.written[j].token
    ensures s.nextToken - 1 - |s.written| == Lost(events)
    ensures Consecutive(s.written) <==> !exists i: nat, j: nat :: WriteAfterFailure(events, i, j)
  {
    TokensOfEvents(max, events, s);
    TakenOrLost(events);
    Increasing(events);
    ConsecutiveExactly(events);
  }

  /** A run in which the first command goes out with token 2: the write before it failed. */
  lemma FailedWriteSkipsToken(max: int, command: Command) returns (s: State)
    requires max >= 2
    ensures Run(max, INITIAL, [Arrive(0), Arrive(1), LockAndFail(0), LockAndWrite(1, command)]) == Some(s)
    ensures s.written == [Write(1, 2, command)] && !Consecutive(s.written)
  {
    var events := [Arrive(0), Arrive(1), LockAndFail(0), LockAndWrite(1, command)];
    var a := INITIAL.(calls := map[0 := Waiting], queued := 1);
    var b := a.(calls := a.calls[1 := Waiting], queued := 2);
    var c := b.(calls := b.calls[0 := Leaving(Failure(TransportFailed))], nextToken := 2);
    s := c.(calls := c.calls[1 := Draining(2)], holder := Some(1), nextToken := 3, written := [Write(1, 2, command)]);
    assert c.written + [Write(1, 2, command)] == [Write(1, 2, command)];
    assert Step(max, INITIAL, events[0]) == Some(a) && Step(max, a, events[1]) == Some(b);
    assert Step(max, b, events[2]) == Some(c) && Step(max, c, events[3]) == Some(s);
    RunFour(max, INITIAL, events, a, b, c, s);
    assert s.written[0].token == 2;
  }

  lemma RunFour(max: int, s: State, events: seq<Event>, a: State, b: State, c: State, d: State)
    requires |events| == 4
    requires Step(max, s, events[0]) == Some(a) && Step(max, a, events[1]) == Some(b)
    requires Step(max, b, events[2]) == Some(c) && Step(max, c, events[3]) == Some(d)
    ensures Run(max, s, events) == Some(d)
  {
    hide Step;
    var rest := events[1..];
    assert rest[1..] == events[2..] && events[2..][1..] == events[3..] && events[3..][1..] == [];
    assert Run(max, d, []) == Some(d);
    assert Run(max, c, events[3..]) == Some(d);
    assert Run(max, b, events[2..]) == Some(d);
  }
}
