/** The rules a memory write follows in CompareWrite, read off the texts of the request and the reply. */
module WriteRules {
  import opened Basics
  import opened CompareWrite
  import opened Hex
  import opened HexText
  import MICommands
  import Text
  import opened ToolService

  lemma Decoded(s: string)
    ensures FromHex(s).Some? <==> IsHexText(s)
    ensures FromHex(s).Some? ==> |FromHex(s).value| == |NoSpaces(s)| / 2
  {
    hide FromHex, IsHexText, NoSpaces;
    RejectedExactly(s);
    DecodedLength(s);
  }

  /** A write gets past its first checks if and only if its data is hexadecimal text of no more bytes than the limit. */
  lemma AcceptedExactly(setup: Setup, request: WriteRequest)
    ensures Accepted(setup, request)
      <==> IsHexText(request.dataHex) && |NoSpaces(request.dataHex)| / 2 <= setup.limits.maxMemoryWriteBytes
  {
    hide FromHex, IsHexText, NoSpaces;
    Decoded(request.dataHex);
  }

  /** A reply matches if and only if it is the expected text up to the case of letters. */
  lemma MatchesExactly(request: WriteRequest, answer: Answer)
    ensures Matches(request, answer)
      <==> answer.Contents? && request.expectedOldHex.Some?
           && EqualIgnoringCase(answer.text, request.expectedOldHex.value)
  {
    hide LowerText, EqualIgnoringCase;
    if answer.Contents? && request.expectedOldHex.Some? {
      LowerTextExactly(answer.text, request.expectedOldHex.value);
    }
  }

  /** What is sent: the write at once when no old value is given or when it has been found, and before that a read of as
      many bytes as the old value has; nothing when that is no hexadecimal text. */
  lemma SentExactly(request: WriteRequest, k: nat)
    ensures NextCommand(Compared(request), k)
      == Some((WriteBytes(request.address, request.dataHex), AwaitingWrite(request, k)))
    ensures request.expectedOldHex == None ==>
      NextCommand(Started(Write(request)), k)
      == Some((WriteBytes(request.address, request.dataHex), AwaitingWrite(request, k)))
    ensures request.expectedOldHex.Some? ==>
      NextCommand(Started(Write(request)), k)
      == if !IsHexText(request.expectedOldHex.value) then None
         else Some((ReadBytes(request.address, |NoSpaces(request.expectedOldHex.value)| / 2),
                    AwaitingRead(request, k)))
  {
    hide FromHex, IsHexText, NoSpaces;
    if request.expectedOldHex.Some? { Decoded(request.expectedOldHex.value); }
  }

  /** What is reported: the address, the number of bytes, and whether an old value was given, and this only for a
      completed write. */
  lemma ReportedExactly(request: WriteRequest, k: nat, answer: Answer)
    ensures ResultOf(Replied(AwaitingWrite(request, k), answer))
      == if answer.Failed? || !IsHexText(request.dataHex) then None
         else Some(WriteData(request.address, |NoSpaces(request.dataHex)| / 2, request.expectedOldHex.Some?))
    ensures !Replied(AwaitingWrite(request, k), answer).Compared?
    ensures Replied(AwaitingRead(request, k), answer)
      == if Matches(request, answer) then Compared(request) else Leaving(Write(request), None)
  {
    hide FromHex, IsHexText, NoSpaces;
    Decoded(request.dataHex);
  }

  /** A write enters exactly when its data is accepted and both limits leave it a slot. */
  lemma EntersExactly(setup: Setup, s: State, c: CallId, request: WriteRequest, t: State)
    requires Step(setup, s, Enter(c, Write(request))) == Some(t)
    ensures t.calls[c]
      == if Accepted(setup, request) && s.counters.active < setup.limits.maxConcurrentToolCalls
            && CountOf(s.counters.perSession, setup.session) < setup.limits.maxSessionOperations
         then Started(Write(request)) else Ended(Write(request), None)
  {
    hide Accepted, CountOf;
  }

  /** A turn of the read loop takes one answer: one with another token than the call's command is read past and changes
      nothing else, and the one with its token is its reply. */
  lemma ReadsExactly(setup: Setup, s: State, c: CallId, t: State)
    requires Step(setup, s, Read(c)) == Some(t)
    ensures c in s.calls && Awaiting(s.calls[c]) && s.calls[c].k < |s.lines| && s.cursor < |s.handled| <= |s.lines|
    ensures t.cursor == s.cursor + 1 && t.lines == s.lines && t.handled == s.handled && t.memory == s.memory
    ensures if s.lines[s.cursor].token == s.lines[s.calls[c].k].token
      then t.calls == s.calls[c := Replied(s.calls[c], s.handled[s.cursor].answer)] && t.holder == None
      else t.calls == s.calls && t.holder == s.holder
  {
    hide Replied;
  }

  /** No call is ever stuck: one that has entered can be given up until it leaves, and then it can end. */
  lemma NeverStuck(setup: Setup, s: State, c: CallId)
    requires c in s.calls
    ensures Step(setup, s, Abandon(c)).Some? <==> !s.calls[c].Leaving? && !s.calls[c].Ended?
    ensures Step(setup, s, Leave(c)).Some? <==> s.calls[c].Leaving?
    ensures Step(setup, s, Abandon(c)).Some? ==>
      var t := Step(setup, s, Abandon(c)).value;
      t.calls[c].Leaving? && ResultOf(t.calls[c]) == None && t.lines == s.lines && t.holder != Some(c)
  {
    hide Release;
  }

  /** The two commands: their names, the address, and the length in decimal or the data. */
  lemma CommandsSent(address: string, length: nat, dataHex: string)
    ensures var read := MICommandOf(ReadBytes(address, length));
      MICommands.NameText(read.name) == "data-read-memory-bytes" && read.args == [address, Text.DecimalText(length)]
    ensures var write := MICommandOf(WriteBytes(address, dataHex));
      MICommands.NameText(write.name) == "data-write-memory-bytes" && write.args == [address, dataHex]
  {}

  /** A report is final: no event changes or withdraws it. */
  lemma {:induction false} ReportFinal(setup: Setup, s: State, events: seq<Event>, c: CallId)
    requires Run(setup, s, events).Some? && c in s.calls && (s.calls[c].Leaving? || s.calls[c].Ended?)
    ensures var t := Run(setup, s, events).value;
      c in t.calls && (t.calls[c].Leaving? || t.calls[c].Ended?) && ResultOf(t.calls[c]) == ResultOf(s.calls[c])
    decreases |events|
  {
    hide Step, ResultOf;
    if events != [] {
      ReportStays(setup, s, events[0], c);
      ReportFinal(setup, Step(setup, s, events[0]).value, events[1..], c);
    }
  }

  lemma ReportStays(setup: Setup, s: State, e: Event, c: CallId)
    requires Step(setup, s, e).Some? && c in s.calls && (s.calls[c].Leaving? || s.calls[c].Ended?)
    ensures var t := Step(setup, s, e).value;
      c in t.calls && (t.calls[c].Leaving? || t.calls[c].Ended?) && ResultOf(t.calls[c]) == ResultOf(s.calls[c])
  {
    hide Handles, Accepted, Matches, FromHex, LinesFor, Obeys, Reserve, Release, CountOf;
  }
}
