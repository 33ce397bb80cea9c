# ProbeMCP: verified model

ProbeMCP lets an AI client debug a microcontroller through GDB. This project models the parts of it where a
mistake would be hard to notice, and proves what they promise:

* the **GDB/MI wire layer** (`MIGrammar`, `MIParserSpec`, `MILanguage`, `MIMeaning`, `MIErrors`, `MIForms`, `MIParser`,
  `MIPrinter`, `MICommands`, `MILines`): the recursive-descent parser as a class with a cursor, an inductive grammar of
  syntax trees, what lines say as relations on text, a printer, the command serializer, and the lines GDB reads when
  commands are written. The parser accepts exactly the grammar, the grammar is unambiguous, a line is parsed to exactly
  the record it says, an error is reported exactly where a line can go on no longer, printing and parsing undo each
  other, and no two commands share a text;
* the **MI controller** (`MIController`, `MIProtocol`, `MITokens`, `MICorrelation`): the class, and a transition system
  of many callers whose steps are the code between two suspension points, with timeouts, errors, cancellations and late
  replies;
* the **tool service** (`Policy`, `Confirmation`, `Limits`, `ToolService`, `ServiceRuns`, `ServiceGuarantees`,
  `SessionCap`, `CompareWrite`, `WriteRules`, `CompareWriteLimits`): the policy, the one-time tokens, the
  reservations and the session table, alone and under arbitrary interleavings;
* the **debug session and the target leases** (`SessionState`, `DebugSessions`, `SessionRuns`, `Inventory`,
  `LeaseRuns`);
* the **register arithmetic** (`Hex`, `HexText`, `Numerals`, `Bits`, `Svd`, `FaultAnalyzer`, `FaultReports`): from
  bytes in target memory to hexadecimal text, to integers, to named fault bits of the Armv7-M Architecture Reference
  Manual (DDI 0403, sections B3.2.15, B3.2.16 and B1.5.6).

A concurrent component has two models that share their functions. A class whose methods change fields as the code does
is proved against functions of the old state. A transition system (`Event`, `Step`, `Run`) applies the same functions
to interleaved calls, and what is proved about it holds for every run from the initial state. Fields of a run's state
such as `written`, `executed`, `issued`, `spans`, `lines`, `handled` and `grants` are records of what has happened; the program
has no such fields.

Where a promise fails, there is a lemma that says exactly when it holds:

* The session limit is checked before the first suspension point of a connect, and the session is added after the
  last. For every configuration, the limit holds in all runs with at most p overlapping connects exactly when connects do
  not overlap, or none can ever be allowed, or the limit is at most zero (`SessionCap.SessionLimitExactly`). A connect can be
  allowed outside readonly mode, on a target whose interlock is open, with a session factory; where confirmation is asked
  for, also only if the target is no production hardware and the lifetime of tokens is not negative
  (`SessionCap.ConnectPossible`).
* The serializer puts an argument with a line break in quotes and leaves the break in it, so that GDB reads the command
  as several lines. Every command is one line exactly when no argument has a line break (`MILines.CommandsFramedExactly`).
  Replies are correlated with calls in all runs exactly when no command in use has a line behind its first that begins
  with a positive number, which GDB takes for a token (`MICorrelation.ReplyCorrelatedExactly`, with a run in
  `MICorrelation.BrokenReadBreaksCorrelation`).
* The reports of compare-before-write are true in all runs exactly when no such line is behind a command and the limits
  let one call at a time run on a session, by either limit; or when there are no line breaks and no byte may be written;
  or when no write gets through at all (`CompareWriteLimits.CompareBeforeWriteExactly`, with a run for each way to fail:
  `TwoOperationsBreakIt`, `CutCommandBreaksIt`, `ForeignReplyBreaksIt`).
* Written tokens are 1, 2, 3, ... exactly when no command is written after a failed write, because a failed write uses up
  its token (`MITokens.TokensWritten`, with a run in `MITokens.FailedWriteSkipsToken`).
* docs/safety-model.md:102-103 promises the state `unknown` after a failed interrupt. The code makes it `degraded`
  (src/probemcp/debug/session.py:104-109); the model follows the code
  (`SessionRuns.FailedInterruptUnknownExactly`, with a run in `SessionRuns.FailedInterruptDegrades`).
* In readonly mode a refused target-changing operation hands out a confirmation token that can never be used
  (`Policy.RetryHelpsExactly`).
* After a failed `gdb-exit` the session is disconnected but stays listed (`DebugSessions.DisconnectAndRemove`).

## Assumptions

* Letters and digits are ASCII; white space is what `str.isspace` accepts. Python's recursion limit and its limit on
  the digits of an integer are not reached.
* SHA-256 over the canonical request is injective. Confirmation tokens, session ids and lock ids are fresh when they
  are made. Clocks never go back.
* GDB takes a number at the beginning of a line it reads, behind white space, for a token, and puts it on the reply to
  that line and on no other result record. It handles lines in the order they were written, and resolves an address text
  to a fixed number.
* In `CompareWrite`, GDB answers the first line of a command that a line break cuts, whose quote is not closed, with an
  error; of the lines behind it nothing is assumed. Otherwise target memory changes only by write commands of the session.
* The code between two suspension points is atomic, as in asyncio; locks are exclusive. Nothing is assumed about the
  order in which waiting calls proceed.
* `CompareWrite` has the session's controller in it: the lock, the tokens, the lines and the answers read in order. It
  lets calls on other sessions change the total of calls in flight, but not below the calls on its own session;
  `ServiceGuarantees.ReservationsConserved` proves this of the service.

## Model

| member | source | states |
|---|---|---|
| MILanguage.ExactLanguage | src/probemcp/mi/parser.py:26-215 | A line is accepted if and only if it is the text of a well-formed syntax tree, and the parser finds the only such tree |
| MILanguage.Unambiguous | src/probemcp/mi/parser.py:97-158 | Two different well-formed trees never have the same text, despite bare values, result-style list items and trailing commas |
| MILanguage.LineSound | src/probemcp/mi/parser.py:26-95 | An accepted line is consumed to its end and is the text of the tree found |
| MILanguage.LineComplete | src/probemcp/mi/parser.py:26-95 | Every text of a well-formed tree is accepted, with that tree |
| MILanguage.ValueSound | src/probemcp/mi/parser.py:113-149 | The text of a parsed value stands exactly between the two cursor positions, and a bare value ends where it must |
| MILanguage.ValueComplete | src/probemcp/mi/parser.py:113-149 | A value's text followed by a possible end of value parses to that value and stops just behind it |
| MILanguage.BareLookahead | src/probemcp/mi/parser.py:151-158 | The unbounded lookahead never leaves the list item: it reports a result exactly when the item's own text begins with an identifier and `=` |
| MIMeaning.ParsesExactly | src/probemcp/mi/parser.py:14-242 | Parsing a line gives a record if and only if the line says it: what text says is defined by relations between text and records alone, without trees, positions or a cursor |
| MIErrors.ErrorsTellTruth | src/probemcp/mi/parser.py:65-242 | Every parse error tells the truth: what stands in front of its position can still become a record, by the character it asks for or as it stands when it is about what follows; with the character at that position it no longer can |
| MIForms.ResultAsItem | src/probemcp/mi/parser.py:137-141 | A result at any place of a list, among any printed values, stands for a dictionary with that one entry |
| MIForms.BareValue | src/probemcp/mi/parser.py:208-215 | Bare text behind a key is taken as it stands |
| MIForms.BareItem | src/probemcp/mi/parser.py:132-149 | Bare text as a list item is taken as it stands unless it begins like a result |
| MIForms.EscapedText | src/probemcp/mi/parser.py:188-206 | A backslash in front of any characters but n, r and t leaves them as they are |
| MIForms.ControlCharacters | src/probemcp/mi/parser.py:192-200 | Escaped n, r and t are newline, carriage return and tab |
| MIForms.LastValueWins | src/probemcp/mi/parser.py:97-106 | The second value of a key replaces the first, in the first one's place |
| MIForms.TrailingComma | src/probemcp/mi/parser.py:97-106 | A comma behind the last result changes nothing |
| MIParser.ParseMiRecord | src/probemcp/mi/parser.py:14-18 | Total: every line, less its line ending, gives the record it says, keys of result-style list items included, or an error at a position within the line when it says none |
| MIParser.RStrip | src/probemcp/mi/parser.py:17 | Removes exactly the trailing carriage returns and newlines |
| MIParser.Parser.Parse | src/probemcp/mi/parser.py:26-54 | Returns the meaning of the line's tree, or an error at the place where the cursor stopped; a successful parse of anything but the prompt, which is compared as a whole, consumes the line |
| MIParser.Parser.ParseToken | src/probemcp/mi/parser.py:56-63 | Consumes the maximal run of digits and returns its decimal value, or nothing |
| MIParser.Parser.ConsumeMarker | src/probemcp/mi/parser.py:65-70 | Takes one character, or reports a missing marker without moving |
| MIParser.Parser.ReadResultOrAsync | src/probemcp/mi/parser.py:72-89 | The record of the line's tree: class, dictionary of results, token and raw text; trailing data is an error at its position |
| MIParser.Parser.ReadStream | src/probemcp/mi/parser.py:91-95 | The stream record of the line's tree; anything behind the closing quote is an error |
| MIParser.Parser.ReadResultList | src/probemcp/mi/parser.py:97-106 | The loop builds the dictionary that the result list means, the last value of a key winning and keeping the key's place |
| MIParser.Parser.ReadResult | src/probemcp/mi/parser.py:108-111 | Key, equals sign and value, or the error of the first of them that is missing |
| MIParser.Parser.ReadValue | src/probemcp/mi/parser.py:113-121 | The meaning of the value's tree, and the cursor behind it |
| MIParser.Parser.ReadTuple | src/probemcp/mi/parser.py:123-130 | The dictionary a tuple means, empty and trailing-comma forms included; without an opening brace an error in place |
| MIParser.Parser.ReadList | src/probemcp/mi/parser.py:132-149 | The loop builds the items in order, each a value or, where the lookahead sees a key, a dictionary of that one key and its value; without an opening bracket an error in place |
| MIParser.Parser.NextValueIsResult | src/probemcp/mi/parser.py:151-158 | The lookahead's answer, with the cursor left where it was |
| MIParser.Parser.ReadIdentifier | src/probemcp/mi/parser.py:160-169 | The maximal identifier at the cursor, hyphens allowed behind its first character |
| MIParser.Parser.ReadCString | src/probemcp/mi/parser.py:171-186 | The loop collects the unescaped meaning of the pieces up to the closing quote; an unterminated string is an error at the end of the line |
| MIParser.Parser.ReadEscape | src/probemcp/mi/parser.py:188-206 | `n`, `r` and `t` are control characters, every other escaped character stands for itself |
| MIParser.Parser.ReadBareValue | src/probemcp/mi/parser.py:208-215 | The non-empty text up to the next comma or closing bracket |
| MIParser.Parser.Expect | src/probemcp/mi/parser.py:217-220 | Consumes the expected character or fails without moving |
| MIRecords.PutThenLookup | src/probemcp/mi/parser.py:101 | After an assignment a key reads as the last value assigned, and other keys as before |
| MIRecords.PutKeys | src/probemcp/mi/parser.py:101 | An assigned key keeps its place and a new one comes last |
| MIPrinter.RoundTrip | src/probemcp/mi/parser.py:26-206 | Printing any record (any token or none, any kind, nested values, distinct identifier keys) and parsing the line gives that record back |
| MIPrinter.ParsedIsPrintable | src/probemcp/mi/parser.py:26-215 | Every record the parser returns is printable, so printing it and parsing again gives it back |
| MIPrinter.PrintInjective | src/probemcp/mi/parser.py:26-206 | Records with the same printed text are the same up to their raw text |
| MICommands.TwoReplacesEscape | src/probemcp/mi/commands.py:146-148 | The two successive replacements equal escaping in one pass |
| MICommands.QuoteThenParse | src/probemcp/mi/commands.py:143-149 | Reading a quoted argument gives the argument and stops behind its closing quote whatever follows; an unquoted one has no space, quote or backslash |
| MICommands.QuoteArgExactly | src/probemcp/mi/commands.py:143-149 | Exactly the non-empty arguments without white space, quote or backslash stay as they are; the others get the two replacements and quotes |
| MICommands.ArgumentAt | src/probemcp/mi/commands.py:47-49 | Each argument stands in its place behind one space |
| MICommands.CommandForm | src/probemcp/mi/commands.py:46-49 | The text is the decimal token if there is one, a hyphen, the name and the arguments |
| MICommands.NamesOfCommands | src/probemcp/mi/commands.py:14-26 | The names of the thirteen commands |
| MICommands.Serialize | src/probemcp/mi/commands.py:43-49 | The loop over the arguments builds the one text of the command and token, which SplitSerialized takes apart |
| MICommands.SplitSerialized | src/probemcp/mi/commands.py:43-49 | Splitting a serialized command gives back its token, name and argument list, for any argument strings |
| MICommands.SerializationInjective | src/probemcp/mi/commands.py:43-49 | Equal text implies equal token, name and arguments |
| MILines.BreaksExactly | src/probemcp/mi/commands.py:143-149 | A serialized command has a line break if and only if one of its arguments has one |
| MILines.FramingExactly | src/probemcp/mi/controller.py:174-176 | The lines of the stream are the texts written if and only if no text has a line break |
| MILines.CommandsFramedExactly | src/probemcp/mi/commands.py:43-49 | GDB reads exactly the commands written, one a line, if and only if no argument has a line break |
| MILines.LinesOfCommand | src/probemcp/mi/controller.py:69-72 | The first line of a command begins with its token, and the lines behind it are the same whatever the token |
| MILines.InnerLine | src/probemcp/mi/commands.py:143-149 | Text between two line breaks of an argument without quotes and backslashes reaches GDB as a line of its own, whatever it says |
| MIController.Controller.AllocateToken | src/probemcp/mi/controller.py:87-90 | Hands out the next token and moves past it |
| MIController.Controller.ReserveQueueSlot | src/probemcp/mi/controller.py:92-99 | A slot is granted exactly when the queue is not full, and counted exactly then |
| MIController.Controller.ReleaseQueueSlot | src/probemcp/mi/controller.py:101-103 | The clamped decrement whose clamp MIProtocol.QueueConserved proves idle |
| MIController.Controller.ReadUntilResult | src/probemcp/mi/controller.py:105-137 | On success the async and stream records are those of the lines in front of the first reply with the caller's token, each once and in the order of the lines (a strictly increasing sequence of places that holds every place of the kind); otherwise the first line that is no record, or the error reply, or what ended the reads decides |
| MIController.Controller.Execute | src/probemcp/mi/controller.py:65-80 | The queue counter is restored on every path, one token is used unless the queue is full, and the call ends with the reply to that token, its records in order, or with exactly the error its read loop ended with |
| MIController.LoopExactly | src/probemcp/mi/controller.py:110-137 | Line by line: the first line that is no record or is a result record with the token is the last one consumed, and decides between the parse error, the error reply and the result with all records before it in order |
| MIController.NothingLost | src/probemcp/mi/controller.py:105-126 | The records collected are exactly those read, as a multiset, none lost or duplicated |
| MIController.ReadOneCollects | src/probemcp/mi/controller.py:111-137 | One turn of the loop keeps the account of what has been read, and ends with it complete |
| MIProtocol.QueueConserved | src/probemcp/mi/controller.py:65-103 | In every run the counter is the number of calls between admission and release, never above the limit; the clamp never bites; at most one call is between writing and leaving the read loop |
| MIProtocol.AdmittedExactly | src/probemcp/mi/controller.py:92-99 | In every run a call is admitted exactly when fewer calls than the limit are in flight |
| MIProtocol.TurnExactly | src/probemcp/mi/controller.py:111-137 | In every run a line that is no record or is the reply ends the call's read loop at once with the outcome it calls for, and any other line does not |
| MIProtocol.RecordsInOrder | src/probemcp/mi/controller.py:106-137 | In every run a returning call has in its result, each once and in the order in which GDB said them, all stream records and all other records of the input lines it read in front of the reply |
| MIProtocol.FailureExplained | src/probemcp/mi/controller.py:111-137 | In every run a call that fails because of a line has read that line last and no reply before it: the line is no record, or the error reply to the call's own token |
| MIProtocol.TimeoutsAndRefusals | src/probemcp/mi/controller.py:65-80 | In every run only a call in its read loop times out, and a call that finds the queue full writes nothing |
| MIProtocol.AbandonedExactly | src/probemcp/mi/controller.py:65-80 | Where a call can be cancelled, fail or time out, and that it then gives up the lock: no call is ever stuck |
| MIProtocol.OutcomeFinal | src/probemcp/mi/controller.py:65-80 | The outcome of a call never changes in any continuation of a run |
| MITokens.TokensWritten | src/probemcp/mi/controller.py:65-90 | In every run each command goes out with the number of its turn at the lock; tokens increase; as many are lost as writes failed; they are 1, 2, 3, ... if and only if no command is written after a failed write |
| MITokens.FailedWriteSkipsToken | src/probemcp/mi/controller.py:70-72 | A run whose first written command carries token 2, the write before it having failed |
| MIProtocol.ReplyCorrelated | src/probemcp/mi/controller.py:65-137 | In every run whose commands have no number in front of a line behind their first, a call that returns was given the reply GDB produced for the command that very call wrote |
| MICorrelation.ReplyCorrelatedExactly | src/probemcp/mi/controller.py:65-137 | For any commands in use: replies are correlated in all runs if and only if none of the commands has a positive number in front of a line behind its first, or the queue admits nobody |
| MICorrelation.BrokenReadBreaksCorrelation | src/probemcp/mi/commands.py:71-74 | A run in which a call is given the answer to a line inside the address of another call's memory read |
| MIProtocol.RepliesDistinct | src/probemcp/mi/controller.py:65-137 | In every run two calls never return the same reply |
| MIProtocol.LateReplyIsAsync | src/probemcp/mi/controller.py:120-130 | In every run, a reply to another command that a call reads is among the async records the call has collected or returned |
| MIProtocol.InputConserved | src/probemcp/mi/controller.py:65-137 | In every run each consumed line was read in exactly one read loop, and an unconsumed one in none |
| Policy.AllowedExactly | src/probemcp/safety/policy.py:163-314 | Exactly what is allowed: never a change in readonly mode or through a closed interlock, a token where one is needed, writes only enabled, in full control and never on production hardware |
| Policy.DeniedExactly | src/probemcp/safety/policy.py:163-314 | Exactly what is denied outright: a change through a closed interlock, a write while writes are disabled, a full-control write on production hardware; every other refusal asks for confirmation |
| Policy.DecisionTable | src/probemcp/safety/policy.py:163-314 | The whole decision for every request: the exact condition of each reason, and the kind and the required level that go with it |
| Policy.TokenOnlyHelps | src/probemcp/safety/policy.py:187-298 | What is allowed stays allowed when a token is added or exchanged |
| Policy.HigherLevelsAllowMore | src/probemcp/safety/policy.py:187-298 | A higher permission level never loses an operation |
| Policy.RetryHelpsExactly | src/probemcp/safety/policy.py:187-298 | Confirming a refusal with a token helps exactly when the level is already high enough, so never in readonly mode |
| Confirmation.FingerprintExact | src/probemcp/safety/confirmation.py:63-71 | Two requests share a fingerprint if and only if session and every field agree, nested values included, absent fields counting as not there at every depth |
| Confirmation.FingerprintChanges | src/probemcp/safety/confirmation.py:63-71 | Another value of any field, or another session, changes the fingerprint; an absent field does not |
| Confirmation.ConfirmationTokenStore.Issue | src/probemcp/safety/confirmation.py:38-47 | Exactly one record is added, bound to the operation, the request and the expiry |
| Confirmation.ConfirmationTokenStore.Verify | src/probemcp/safety/confirmation.py:49-60 | A presented token is consumed on every path; verification succeeds exactly for a known, unexpired token of this operation and request, and each error has its exact condition |
| ServiceGuarantees.OneTime | src/probemcp/safety/confirmation.py:49-60 | In every run, a token once consumed by a call, accepted or not, authorizes nothing in any later state, for any operation, request and moment |
| ServiceGuarantees.PresentingConsumes | src/probemcp/mcp_server/service.py:806-835 | A call that reaches the decision with a stored token consumes it, also when it is refused |
| ToolService.SessionManager.Add | src/probemcp/sessions/manager.py:20-23 | The session is listed under its id and nothing else changes |
| ToolService.SessionManager.Get | src/probemcp/sessions/manager.py:25-31 | The session of the id, or the not-found error |
| ToolService.SessionManager.Remove | src/probemcp/sessions/manager.py:33-39 | The session is returned and unlisted; an unknown id changes nothing |
| ToolService.Service.TryReserveOperation | src/probemcp/mcp_server/service.py:779-793 | Granted exactly below both limits; both counters then go up by one, and otherwise neither changes |
| ToolService.Service.ReleaseOperation | src/probemcp/mcp_server/service.py:795-804 | The total goes down to zero at least and the session's counter by one, its entry dropped when it reaches zero |
| ToolService.ReleaseUndoesReserve | src/probemcp/mcp_server/service.py:779-804 | A release after a reservation restores both counters exactly |
| ToolService.Service.EvaluateOperation | src/probemcp/mcp_server/service.py:806-835 | A presented token is consumed; one that does not fit denies the call before the policy sees it |
| ToolService.Service.PolicyFailure | src/probemcp/mcp_server/service.py:837-870 | The error for each refusal; only one that asks for confirmation issues a token, which authorizes the refused call unless its lifetime is negative; a denial leaves the tokens as they are |
| ToolService.Service.WithSession | src/probemcp/mcp_server/service.py:710-777 | The exact error for every configuration, token and table: a presented token that does not authorize the call; a closed interlock, disabled writes or a full-control write on production hardware; confirmation; an unlisted session; no slot. The operation runs exactly in no such case, the counters are restored on every path, the token is consumed, and a new one issued exactly for confirmation |
| ToolService.DecisionExactly | src/probemcp/mcp_server/service.py:806-835 | The decision from configuration, token and stored tokens alone; the token presented is gone on every path |
| ToolService.Service.ConnectTarget | src/probemcp/mcp_server/service.py:110-175 | The exact error of a connect: the session limit and a missing factory refuse it before the token is consumed; the session is listed exactly on success |
| ToolService.Service.CheckWrite | src/probemcp/mcp_server/service.py:327-352 | Data that is no hexadecimal text is a validation error, more bytes than the limit a limit error, and nothing else is refused |
| ServiceRuns.AuthKept | src/probemcp/mcp_server/service.py:710-835 | Every event keeps: stored tokens are issued and unconsumed, and every use and execution has its own token behind it |
| ServiceGuarantees.ExecutionsAuthorized | src/probemcp/mcp_server/service.py:710-835 | In every run each executed operation that needs a token has one issued for it, used in time and consumed by the very call; no two share one; readonly mode executes no change; a write meets every condition of the policy and the size limit |
| ServiceGuarantees.RunningAuthorized | src/probemcp/mcp_server/service.py:710-777 | In every run nothing executes that is not in the log of executions, so every executing call is authorized |
| ServiceGuarantees.WriteAcceptedExactly | src/probemcp/mcp_server/service.py:327-352 | A write goes on to the decision if and only if its data is hexadecimal text of no more bytes than the limit |
| ServiceGuarantees.RefusedEarly | src/probemcp/mcp_server/service.py:118-134 | A call refused before the decision ends at once and leaves its token as it was |
| ServiceGuarantees.ProgressExactly | src/probemcp/mcp_server/service.py:710-793 | How far a call gets: authorized exactly when accepted, allowed and on a listed session; running exactly when both limits leave a slot; a connect starts exactly below the session limit, with a factory, when allowed |
| ServiceGuarantees.NeverStuck | src/probemcp/mcp_server/service.py:710-777 | Every call in flight can go on to its end, and a session is removed only by a running disconnect |
| ServiceGuarantees.ReservationsConserved | src/probemcp/mcp_server/service.py:744-804 | In every run the total is the number of calls in flight and the sum of the session counters, each within its limit; the clamp never bites; no counter is left when no call is in flight |
| ServiceGuarantees.OnePerSession | src/probemcp/safety/limits.py:72-94 | With one operation per session, or one call in all, no run has two calls executing on the same session |
| ServiceGuarantees.CapHolds | src/probemcp/mcp_server/service.py:110-175 | With at most p connects past their count check at once, sessions plus those connects never exceed max_sessions - 1 + p |
| SessionCap.CapReached | src/probemcp/mcp_server/service.py:110-175 | Wherever a connect can be allowed, with a token or without, the bound max_sessions - 1 + p is reached by some run, for every positive p |
| SessionCap.SomeSessionExactly | src/probemcp/mcp_server/service.py:110-175 | Some run has a session if and only if the configuration can allow a connect and the limit allows a session |
| SessionCap.SessionLimitExactly | src/probemcp/mcp_server/service.py:110-175 | For every configuration and p: the session limit holds in all runs with at most p overlapping connects if and only if p is at most 1, or no connect can ever be allowed, or the limit is at most zero |
| SessionCap.OnePerSessionExactly | src/probemcp/safety/limits.py:72-94 | For every configuration: no run has two calls executing on one session if and only if one of the two limits allows only one, or no session can ever be listed |
| CompareWrite.MatchMeansHolds | src/probemcp/debug/session.py:161-168 | A reply that equals the expected text up to letter case shows that memory held the expected bytes, partial reads and odd spellings included |
| WriteRules.AcceptedExactly | src/probemcp/mcp_server/service.py:327-352 | A write gets past its checks if and only if its data is hexadecimal text of no more bytes than the limit |
| WriteRules.MatchesExactly | src/probemcp/debug/session.py:167 | A reply matches if and only if it is the expected text up to the case of letters |
| WriteRules.SentExactly | src/probemcp/debug/session.py:161-173 | Which command is sent when: the write at once without an old value or after a match, before it a read of as many bytes as the old value has, nothing when that is no hexadecimal |
| WriteRules.EntersExactly | src/probemcp/mcp_server/service.py:744-793 | A write enters exactly when its data is accepted and both limits leave it a slot |
| WriteRules.CommandsSent | src/probemcp/mi/commands.py:71-79 | The two commands GDB is sent: their names, the address, and the decimal length or the data |
| WriteRules.ReadsExactly | src/probemcp/mi/controller.py:111-137 | A turn of the read loop takes one answer: another command's is read past and changes nothing else, the call's own is its reply |
| WriteRules.NeverStuck | src/probemcp/debug/session.py:152-179 | A call can be given up at any point before it leaves, without a report, and can then end |
| WriteRules.ReportedExactly | src/probemcp/debug/session.py:174-179 | A completed write reports its address, its number of bytes and whether an old value was given; nothing else reports |
| WriteRules.ReportFinal | src/probemcp/debug/session.py:152-179 | In no continuation of a run is a report changed or withdrawn |
| CompareWrite.StoreExact | src/probemcp/debug/session.py:170-179 | Storing bytes makes memory hold them and changes nothing else |
| CompareWrite.VerifiedWritesAtomic | src/probemcp/debug/session.py:152-179 | With one call at a time on the session, by either limit, and no number in front of a line behind a command's first, in every run each reported write was one completed write of the reported size within the limit, and a verified one happened when memory held the expected bytes |
| CompareWriteLimits.TwoOperationsBreakIt | src/probemcp/debug/session.py:152-179 | With two calls at a time and a byte to write there is a run, without line breaks, in which a write reported as verified overwrites other bytes |
| CompareWriteLimits.CutCommandBreaksIt | src/probemcp/debug/session.py:152-179 | With two calls at a time there is such a run in which a line behind another command's first, without a number, changes the memory |
| CompareWriteLimits.ForeignReplyBreaksIt | src/probemcp/debug/session.py:152-179 | With one call at a time there is such a run in which the comparing read is given the answer to a line inside an earlier command |
| CompareWriteLimits.CompareBeforeWriteExactly | src/probemcp/mcp_server/service.py:319-369 | For all limits and each discipline on texts: reports of writes are true in all runs if and only if no write gets through; or lines behind a command's first have no number and one call at a time runs on a session; or there are no line breaks and no byte may be written |
| SessionState.DebugSessionStateMachine.CanTransition | src/probemcp/debug/state.py:90-95 | A transition is possible exactly when it is legal or stays |
| SessionState.DebugSessionStateMachine.MoveTo | src/probemcp/debug/state.py:97-111 | A possible transition is made, recorded last and returned; another raises and changes nothing |
| SessionState.ReachedFrom | src/probemcp/debug/state.py:25-68 | The transition table by columns: from which states each state is reached |
| SessionState.GatePassed | src/probemcp/debug/state.py:25-68 | A history that leaves a set of states closed except for some gates has passed a gate on the way |
| SessionState.ReconnectFirst | src/probemcp/debug/state.py:25-68 | A disconnected session is halted or running again only after CONNECTING, a degraded one only after CONNECTING or UNKNOWN |
| DebugSessions.DebugSession.Connect | src/probemcp/debug/session.py:63-78 | The exact ending and history for every state, endpoint and backend: no endpoint, or halted or running, raises without a change; a failing backend leaves the session connecting; otherwise it is in the state the backend reports |
| DebugSessions.DebugSession.Disconnect | src/probemcp/debug/session.py:80-87 | The exact ending: disconnected, and so recorded, exactly when the transport closes, whatever gdb-exit does; the error of the close, or else of gdb-exit, is raised |
| DebugSessions.DebugSession.Halt | src/probemcp/debug/session.py:89-95 | Ends halted, and so recorded, exactly when the interrupt succeeds and the session is neither disconnected nor degraded; otherwise the exact error and no change |
| DebugSessions.DebugSession.Resume | src/probemcp/debug/session.py:97-114 | A completed run ends RUNNING, except from a disconnected or degraded session, where it raises; a failed or cancelled run is raised; after a timeout it never ends RUNNING: UNKNOWN without the interrupt, HALTED when that succeeds and the session can halt, else DEGRADED; every raised error leaves the state as it was |
| DebugSessions.DebugSession.StepInstruction | src/probemcp/debug/session.py:116-122 | Ends halted, and so recorded, exactly when the step succeeds and the session is neither disconnected nor degraded; otherwise the exact error and no change |
| DebugSessions.DebugSession.ResetTarget | src/probemcp/debug/session.py:214-227 | Ends in the state the backend reports, or without a backend path in the state the mode asks for, exactly where the state machine allows it; otherwise the exact error and no change |
| DebugSessions.DebugSession.WriteMemory | src/probemcp/debug/session.py:152-179 | The exact commands sent and the exact ending for every request and outcome: malformed old value, failed read, mismatch, failed write, malformed data, or the report |
| DebugSessions.DisconnectAndRemove | src/probemcp/mcp_server/service.py:706-708 | The session is unlisted exactly when its disconnect returns normally, so it stays listed, disconnected, after a failed gdb-exit; a session already unlisted makes the removal raise |
| SessionRuns.HistoryIsChain | src/probemcp/debug/state.py:97-111 | In every interleaving, raising ones included, the history is a chain of allowed transitions from the initial state to the current one and is never rewritten |
| SessionRuns.NoShortcut | src/probemcp/debug/state.py:25-68 | In every interleaving, between a disconnected or degraded state and a later halted or running one lies CONNECTING (or UNKNOWN, from degraded) |
| SessionRuns.OperationsEndRight | src/probemcp/debug/session.py:63-122 | In every interleaving each operation ends with exactly the state and exception that its outcomes and the state before its last segment call for, a completed resume in RUNNING |
| SessionRuns.FailedInterruptUnknownExactly | src/probemcp/debug/session.py:103-111 | After a timed-out resume whose interrupt did not succeed the state is unknown only if it was before and the interrupt was cancelled |
| SessionRuns.FailedInterruptDegrades | src/probemcp/debug/session.py:103-109 | A run in which a failed interrupt makes the session degraded, against docs/safety-model.md |
| Inventory.TargetInventory.Add | src/probemcp/lab/inventory.py:45-48 | The target becomes known and nothing else changes |
| Inventory.TargetInventory.Acquire | src/probemcp/lab/inventory.py:55-71 | Granted exactly when the target is known and its stored lock, if any, has expired; the new lock replaces it, and a refusal names its reason and changes nothing |
| Inventory.TargetInventory.Release | src/probemcp/lab/inventory.py:73-80 | Deletes one lock with the id, or raises without a change when there is none |
| LeaseRuns.LeasesExclusive | src/probemcp/lab/inventory.py:55-80 | In every run no two leases for one target are in force at the same moment |
| LeaseRuns.GrantedExactly | src/probemcp/lab/inventory.py:32-71 | In every run each lock is stored under its own target, and a request is granted exactly when every earlier lease of the target has expired or been released |
| LeaseRuns.AcquiredExactly | src/probemcp/lab/inventory.py:55-71 | In every run a request is granted exactly when the target is known and every earlier lease of it is over; the new lease then has its own owner, id and expiry, and a refusal changes only the clock |
| LeaseRuns.KnownExactly | src/probemcp/lab/inventory.py:45-48 | The known targets are those there were at first and those added |
| LeaseRuns.ReleasedExactly | src/probemcp/lab/inventory.py:73-80 | In every run a release succeeds exactly when the lease is unreleased and not replaced, and then frees that target only; a replaced owner's release raises and keeps the new owner's lock |
| Hex.SameLowerDecodes | src/probemcp/debug/session.py:167 | Text equal to some bytes' hexadecimal form up to letter case decodes to those bytes |
| HexText.FromHexExactly | src/probemcp/debug/session.py:176 | Text decodes to bytes if and only if it writes them: two digits in either case for each byte, ASCII white space only between the pairs |
| HexText.RejectedExactly | src/probemcp/mcp_server/service.py:327-341 | Text is rejected if and only if white space splits a pair, the number of digits is odd, or it has another character |
| HexText.ToHexDigits | src/probemcp/snapshots/service.py:104-107 | Encoding writes the two lower-case digits of each byte in order |
| HexText.LowerTextExactly | src/probemcp/debug/session.py:167 | Lower-case forms are equal if and only if the texts differ at most in the case of letters |
| Hex.HexRoundTrip | src/probemcp/snapshots/service.py:104-107 | Bytes survive hexadecimal text |
| Hex.LittleEndianRoundTrip | src/probemcp/analyzers/cortexm/fault_analyzer.py:244-247 | A value that fits survives its little-endian bytes |
| Numerals.LittleEndianByte | src/probemcp/snapshots/service.py:106 | Byte i of the bytes is the value's digit of weight 256 to the i |
| Numerals.LittleEndianWord | src/probemcp/snapshots/service.py:104-107 | The value of four bytes, lowest first |
| Hex.Hex08RoundTrip | src/probemcp/snapshots/service.py:107 | A value survives its zero-padded hexadecimal text and the parse with automatic base |
| Numerals.Hex08Form | src/probemcp/snapshots/service.py:107 | The format writes 0x and lower-case digits, at least eight, and more only without a leading zero |
| Numerals.ParseIntExactly | src/probemcp/analyzers/cortexm/fault_analyzer.py:213-219 | Text gives a number if and only if between its outer white space stands an integer literal of that value: sign, base prefix, single underscores, and no leading zero in a decimal number but zero |
| Numerals.SpaceTable | src/probemcp/mi/commands.py:146 | The 29 characters that count as white space |
| FaultAnalyzer.RegisterPipeline | src/probemcp/snapshots/service.py:96-107 | The integer the analyzer parses is the little-endian value of the bytes in target memory |
| FaultAnalyzer.ReadFaultRegisters | src/probemcp/snapshots/service.py:96-101 | All five registers are captured from their five addresses under their names, each as the padded little-endian value of the bytes the answer writes, or nothing when one answer is no hexadecimal text |
| FaultAnalyzer.ClassifyFault | src/probemcp/analyzers/cortexm/fault_analyzer.py:149-181 | The report is the one for the values of the two registers, a missing one counting as zero (FaultReports.ReportExactly says what that is) |
| FaultReports.ReportExactly | src/probemcp/analyzers/cortexm/fault_analyzer.py:149-185 | The whole report for every pair of register values: which of the 21 bits gives which name, their order, the titles, the lines of evidence and the priority of the groups |
| FaultAnalyzer.NamesSetExactly | src/probemcp/analyzers/cortexm/fault_analyzer.py:184-185 | A name is reported if and only if its bit is set in the register |
| FaultAnalyzer.DecodeIsNamesSet | src/probemcp/analyzers/cortexm/fault_analyzer.py:149-185 | Shifting and masking a byte out first does not change which names are decoded |
| FaultAnalyzer.NoFaultExactly | src/probemcp/analyzers/cortexm/fault_analyzer.py:149-181 | No fault is reported if and only if none of the 19 CFSR bits and neither HFSR bit 30 nor 1 is set |
| FaultAnalyzer.AnalyzeFaultRegisters | src/probemcp/analyzers/cortexm/fault_analyzer.py:42-63 | Whatever bytes the two answers write, in either case, the fault reported is the one their little-endian values name |
| FaultAnalyzer.FrameRoundTrip | src/probemcp/analyzers/cortexm/fault_analyzer.py:235-248 | Eight words stacked by the processor decode to themselves under their names, whatever bytes follow |
| FaultAnalyzer.FrameExactly | src/probemcp/analyzers/cortexm/fault_analyzer.py:235-248 | A frame is decoded if and only if the text writes at least 32 bytes, and then word i under its name from the four bytes at 4i |
| FaultAnalyzer.AddFaultAddressEvidence | src/probemcp/analyzers/cortexm/fault_analyzer.py:188-210 | An address counts as valid exactly when bit 7 or 15 of CFSR is set and as invalid exactly when a captured one's bit is clear; exactly a captured valid one adds its line of evidence |
| Svd.Field.Decode | src/probemcp/svd.py:22-26 | A decoded field is below 2 to its width |
| Svd.DecodedBits | src/probemcp/svd.py:22-40 | Each field is decoded under its own name, in order, and its bit b is bit offset + b of the register |
| Svd.DecodeLossless | src/probemcp/svd.py:22-40 | Fields that are disjoint and tile bits 0 to n - 1 sum, each in its place, to the value modulo 2 to the n |
| Svd.DecodeInjective | src/probemcp/svd.py:37-40 | Registers with such fields decode alike if and only if they agree modulo 2 to the n |

## Left out

- CompareWrite.VerifiedWritesAtomic: memory changed by another session on the same target, by the running program or by a peripheral is not modelled; the code has no protection against it.
- ServiceGuarantees.ExecutionsAuthorized: a token is bound to the operation and the request, not to the target, although docs/safety-model.md speaks of a target fingerprint; the code has none.
- Messages, warnings and hypotheses: error texts, transition reasons, policy warnings, fault hypotheses and recommended actions are represented by constructors or not at all.
- Transports and processes: spawning GDB, pipes and decoding; a transport is the sequence of lines it delivers and the way its reads end.
- Audit log, snapshots, redaction, configuration, command line, server wiring and schemas: file formats and declarative tables.
- Tools without a session: analyze_fault, compare_snapshots, explain_current_state and suggest_next_debug_steps take no slot and touch no session.
- Breakpoints, register reads, symbol context and the backends' own commands: sequences of plain commands without a state of their own.
- Command builders: target_select, break_insert and the others only choose a name and arguments; the serializer is proved for every name and argument list.
- Reply dictionaries: picking the memory contents, registers or stop reason out of a result record is not modelled; the contents text of a memory reply is an input.
- Time in the controller and the session: a timeout is an event that can come at any moment of a read loop; durations appear only in tokens and leases.
- Parsing SVD files: a field is the data the loader produced.
- EXC_RETURN, xPSR, register-name normalization and peripheral and RTOS summaries: one-branch decodings.
- The production_target flag of a policy request: modelled in Policy, always false in the service, as in the code.
- Liveness and fairness: that a waiting call gets its turn is not stated.
- Unicode letters and digits in identifiers and tokens: the character classes are ASCII.
