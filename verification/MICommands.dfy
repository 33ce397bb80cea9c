/** Command serialization of mi/commands.py, and the proof that no two commands share a text. */
module MICommands {
  import opened Basics
  import opened Text
  import opened MIGrammar
  import opened MIParserSpec
  import MILanguage

  datatype CommandName =
    | TargetSelect | GdbExit | DataListRegisterValues | DataReadMemoryBytes | DataWriteMemoryBytes
    | ExecInterrupt | ExecContinue | ExecStepInstruction | BreakInsert | BreakDelete
    | InterpreterExec | StackInfoFrame | DataDisassemble

  datatype Command = Command(name: CommandName, args: seq<string>)

  function NameText(name: CommandName): string {
    match name
    case TargetSelect => "target-select"
    case GdbExit => "gdb-exit"
    case DataListRegisterValues => "data-list-register-values"
    case DataReadMemoryBytes => "data-read-memory-bytes"
    case DataWriteMemoryBytes => "data-write-memory-bytes"
    case ExecInterrupt => "exec-interrupt"
    case ExecContinue => "exec-continue"
    case ExecStepInstruction => "exec-step-instruction"
    case BreakInsert => "break-insert"
    case BreakDelete => "break-delete"
    case InterpreterExec => "interpreter-exec"
    case StackInfoFrame => "stack-info-frame"
    case DataDisassemble => "data-disassemble"
  }

  const ALL_NAMES := [
    TargetSelect, GdbExit, DataListRegisterValues, DataReadMemoryBytes, DataWriteMemoryBytes,
    ExecInterrupt, ExecContinue, ExecStepInstruction, BreakInsert, BreakDelete,
    InterpreterExec, StackInfoFrame, DataDisassemble
  ]

  // ----- quoting -----

  /** `s.replace(c, by)` for a one-character pattern. */
  function Replace(s: string, c: char, w: string): string {
    if s == "" then "" else (if s[0] == c then w else [s[0]]) + Replace(s[1..], c, w)
  }

  predicate NeedsQuotes(arg: string) {
    exists k :: 0 <= k < |arg| && (IsSpace(arg[k]) || arg[k] == '"' || arg[k] == '\\')
  }

  function QuoteArg(arg: string): string {
    if arg == "" then "\"\""
    else if NeedsQuotes(arg) then "\"" + Replace(Replace(arg, '\\', "\\\\"), '"', "\\\"") + "\""
    else arg
  }

  /** One-pass escaping: the c-string pieces of an argument. */
  function ArgPieces(arg: string): seq<Piece> {
    if arg == "" then []
    else [if arg[0] == '"' || arg[0] == '\\' then Escaped(arg[0]) else Plain(arg[0])] + ArgPieces(arg[1..])
  }

  lemma Associate(a: string, b: string, c: string)
    ensures a + (b + c) == a + b + c
  {}

  lemma {:induction false} ReplaceConcat(a: string, b: string, c: char, w: string)
    ensures Replace(a + b, c, w) == Replace(a, c, w) + Replace(b, c, w)
  {
    if a == "" {
      assert a + b == b;
    } else {
      ReplaceConcat(a[1..], b, c, w);
      assert (a + b)[0] == a[0] && (a + b)[1..] == a[1..] + b;
      var head := if a[0] == c then w else [a[0]];
      Associate(head, Replace(a[1..], c, w), Replace(b, c, w));
    }
  }

  /** The two successive replacements equal escaping in one pass. */
  lemma {:induction false} TwoReplacesEscape(arg: string)
    ensures Replace(Replace(arg, '\\', "\\\\"), '"', "\\\"") == PiecesText(ArgPieces(arg))
  {
    if arg != "" {
      TwoReplacesEscape(arg[1..]);
      var head := if arg[0] == '\\' then "\\\\" else [arg[0]];
      ReplaceConcat(head, Replace(arg[1..], '\\', "\\\\"), '"', "\\\"");
      ReplaceOne(head);
      assert ArgPieces(arg)[1..] == ArgPieces(arg[1..]);
    }
  }

  lemma ReplaceOne(head: string)
    requires head == "\\\\" || |head| == 1
    ensures Replace(head, '"', "\\\"") == if head == "\"" then "\\\"" else head
  {
    assert head[1..] == if |head| == 1 then "" else "\\";
    if |head| == 2 { assert Replace("\\", '"', "\\\"") == "\\" + Replace("", '"', "\\\""); }
  }

  lemma {:induction false} ArgPiecesCorrect(arg: string)
    ensures WfPieces(ArgPieces(arg)) && PiecesMeaning(ArgPieces(arg)) == arg
  {
    if arg != "" {
      ArgPiecesCorrect(arg[1..]);
      assert ArgPieces(arg)[1..] == ArgPieces(arg[1..]);
    }
  }

  lemma QuoteIsCString(arg: string)
    requires arg == "" || NeedsQuotes(arg)
    ensures QuoteArg(arg) == TreeText(Quoted(ArgPieces(arg)))
  {
    TwoReplacesEscape(arg);
  }

  /** Unquoting undoes quoting whatever text follows: the parser's c-string reader returns the argument and
      stops just behind the closing quote. An argument left unquoted has no space, quote or backslash. */
  lemma QuoteThenParse(arg: string, suffix: string)
    ensures if arg == "" || NeedsQuotes(arg)
      then var p := ParseQuoted(QuoteArg(arg) + suffix, 0);
        p.Parsed? && PiecesMeaning(p.value) == arg && p.next == |QuoteArg(arg)|
      else QuoteArg(arg) == arg && forall k :: 0 <= k < |arg| ==> !IsSpace(arg[k]) && arg[k] != '"' && arg[k] != '\\'
  {
    if arg == "" || NeedsQuotes(arg) {
      hide QuoteArg, ArgPieces, PiecesMeaning, ParsePieces, NeedsQuotes;
      assert forall k :: 0 <= k < |QuoteArg(arg)| ==> QuoteArg(arg)[k] == (QuoteArg(arg) + suffix)[0 + k];
      QuotedAt(QuoteArg(arg) + suffix, 0, arg);
    }
  }

  /** Exactly the arguments without white space, quote or backslash that are not empty stay as they are; in the others a
      backslash is put in front of each backslash and then of each quote, and quotes around the whole. */
  lemma QuoteArgExactly(arg: string)
    ensures QuoteArg(arg) == arg
      <==> arg != "" && forall k :: 0 <= k < |arg| ==> !IsSpace(arg[k]) && arg[k] != '"' && arg[k] != '\\'
    ensures QuoteArg(arg) != arg ==>
      QuoteArg(arg) == "\"" + Replace(Replace(arg, '\\', "\\\\"), '"', "\\\"") + "\""
  {
    hide IsSpace;
    if arg != "" && NeedsQuotes(arg) {
      GrowsAtMost(arg, '\\', "\\\\");
      GrowsAtMost(Replace(arg, '\\', "\\\\"), '"', "\\\"");
      assert |QuoteArg(arg)| > |arg|;
    } else if arg == "" {
      assert Replace("", '\\', "\\\\") == "" && "\"" + "" + "\"" == "\"\"";
    }
  }

  lemma {:induction false} GrowsAtMost(s: string, c: char, w: string)
    requires |w| >= 1
    ensures |Replace(s, c, w)| >= |s|
  {
    if s != "" { GrowsAtMost(s[1..], c, w); }
  }

  lemma QuotedAt(s: string, i: nat, arg: string)
    requires (arg == "" || NeedsQuotes(arg)) && Occurs(s, i, QuoteArg(arg))
    ensures At(s, i, '"') && ParsePieces(s, i + 1) == Parsed(ArgPieces(arg), i + |QuoteArg(arg)|)
    ensures PiecesMeaning(ArgPieces(arg)) == arg
  {
    hide ArgPieces, PiecesText, PiecesMeaning, TreeText, Occurs, ParsePieces, QuoteArg, NeedsQuotes, WfPieces;
    QuoteIsCString(arg);
    ArgPiecesCorrect(arg);
    MILanguage.QuotedOccurs(s, i, ArgPieces(arg));
    MILanguage.PiecesComplete(s, i + 1, ArgPieces(arg));
  }

  // ----- serializing -----

  /** `str(n)`. */
  function IntText(n: int): string {
    if n < 0 then "-" + DecimalText(-n) else DecimalText(n)
  }

  function PrefixText(token: Option<int>): string {
    match token
    case None => ""
    case Some(n) => IntText(n)
  }

  function ArgsText(args: seq<string>): string {
    if args == [] then "" else " " + QuoteArg(args[0]) + ArgsText(args[1..])
  }

  function CommandText(command: Command, token: Option<int>): string {
    PrefixText(token) + ("-" + NameText(command.name) + ArgsText(command.args))
  }

  /** The names GDB knows the commands by. */
  lemma NamesOfCommands()
    ensures NameText(TargetSelect) == "target-select" && NameText(GdbExit) == "gdb-exit"
    ensures NameText(DataListRegisterValues) == "data-list-register-values"
    ensures NameText(DataReadMemoryBytes) == "data-read-memory-bytes"
    ensures NameText(DataWriteMemoryBytes) == "data-write-memory-bytes"
    ensures NameText(ExecInterrupt) == "exec-interrupt" && NameText(ExecContinue) == "exec-continue"
    ensures NameText(ExecStepInstruction) == "exec-step-instruction"
    ensures NameText(BreakInsert) == "break-insert" && NameText(BreakDelete) == "break-delete"
    ensures NameText(InterpreterExec) == "interpreter-exec" && NameText(StackInfoFrame) == "stack-info-frame"
    ensures NameText(DataDisassemble) == "data-disassemble"
  {}

  /** The arguments stand behind the command in order, each behind one space. */
  lemma {:induction false} ArgumentAt(args: seq<string>, i: nat)
    requires i < |args|
    ensures ArgsText(args) == ArgsText(args[..i]) + (" " + QuoteArg(args[i])) + ArgsText(args[i + 1..])
    decreases |args|
  {
    hide QuoteArg;
    if i == 0 {
      assert args[..0] == [] && ArgsText([]) == "";
    } else {
      ArgumentAt(args[1..], i - 1);
      assert args[1..][i - 1] == args[i] && args[1..][i..] == args[i + 1..] && args[..i][1..] == args[1..][..i - 1];
      Associate(" " + QuoteArg(args[0]), ArgsText(args[1..][..i - 1]), " " + QuoteArg(args[i]));
    }
  }

  /** A command is its token, if it has one, a hyphen, its name, and its arguments. */
  lemma CommandForm(command: Command, token: Option<int>)
    ensures token == None ==> CommandText(command, token) == "-" + NameText(command.name) + ArgsText(command.args)
    ensures token.Some? && token.value >= 0 ==>
      CommandText(command, token)
      == DecimalText(token.value) + ("-" + NameText(command.name) + ArgsText(command.args))
    ensures command.args == [] ==> ArgsText(command.args) == ""
  {
    assert "" + ("-" + NameText(command.name) + ArgsText(command.args))
      == "-" + NameText(command.name) + ArgsText(command.args);
  }

  /** `" ".join(parts)`. */
  function Join(parts: seq<string>): string {
    if parts == [] then "" else if |parts| == 1 then parts[0] else parts[0] + " " + Join(parts[1..])
  }

  function QuoteAll(args: seq<string>): seq<string> {
    if args == [] then [] else [QuoteArg(args[0])] + QuoteAll(args[1..])
  }

  lemma {:induction false} JoinArgs(first: string, args: seq<string>)
    ensures Join([first] + QuoteAll(args)) == first + ArgsText(args)
    decreases |args|
  {
    var parts := [first] + QuoteAll(args);
    if args != [] {
      assert parts[1..] == [QuoteArg(args[0])] + QuoteAll(args[1..]);
      JoinArgs(QuoteArg(args[0]), args[1..]);
    }
  }

  lemma QuoteAllStep(args: seq<string>, i: nat)
    requires i < |args|
    ensures QuoteAll(args[i..]) == [QuoteArg(args[i])] + QuoteAll(args[i + 1..])
  {
    hide QuoteArg;
    assert args[i..][1..] == args[i + 1..];
  }

  lemma NothingLeft(args: seq<string>)
    ensures QuoteAll(args[|args|..]) == []
  {}

  /** `MICommand.serialize`. */
  method Serialize(command: Command, token: Option<int>) returns (text: string)
    ensures text == CommandText(command, token)
  {
    hide QuoteArg, Join, QuoteAll, NameText;
    var first := PrefixText(token) + ("-" + NameText(command.name));
    var parts := [first];
    var i := 0;
    assert command.args[0..] == command.args;
    while i < |command.args|
      invariant 0 <= i <= |command.args|
      invariant parts + QuoteAll(command.args[i..]) == [first] + QuoteAll(command.args)
    {
      QuoteAllStep(command.args, i);
      assert parts + ([QuoteArg(command.args[i])] + QuoteAll(command.args[i + 1..]))
          == parts + [QuoteArg(command.args[i])] + QuoteAll(command.args[i + 1..]);
      parts := parts + [QuoteArg(command.args[i])];
      i := i + 1;
    }
    NothingLeft(command.args);
    assert parts == parts + [];
    JoinArgs(first, command.args);
    text := Join(parts);
    assert first + ArgsText(command.args) == CommandText(command, token);
  }

  // ----- splitting -----

  function SpaceFrom(s: string, i: nat): (j: nat)
    requires i <= |s|
    ensures i <= j <= |s| && (j < |s| ==> s[j] == ' ')
    ensures forall k :: i <= k < j ==> s[k] != ' '
    decreases |s| - i
  {
    if i == |s| || s[i] == ' ' then i else SpaceFrom(s, i + 1)
  }

  function FindName(text: string, names: seq<CommandName>): Option<CommandName> {
    if names == [] then None
    else if NameText(names[0]) == text then Some(names[0]) else FindName(text, names[1..])
  }

  /** The arguments of a serialized command, from the space in front of the first one on. */
  function SplitArgs(s: string, i: nat): Option<seq<string>>
    requires i <= |s|
    decreases |s| - i
  {
    if i == |s| then Some([])
    else if s[i] != ' ' then None
    else if At(s, i + 1, '"') then
      match ParsePieces(s, i + 2)
      case Rejected(_) => None
      case Parsed(ps, next) => Cons(PiecesMeaning(ps), SplitArgs(s, next))
    else
      var j := SpaceFrom(s, i + 1);
      Cons(s[i + 1..j], SplitArgs(s, j))
  }

  function Cons(arg: string, rest: Option<seq<string>>): Option<seq<string>> {
    match rest
    case None => None
    case Some(args) => Some([arg] + args)
  }

  function Signed(negative: bool, digits: string): int
    requires AllDigits(digits)
  {
    if negative then -(DecimalValue(digits) as int) else DecimalValue(digits)
  }

  datatype Split = Split(token: Option<int>, command: Command)

  /** The token in front of a command, and where it ends. */
  function SplitToken(s: string): (r: (Option<int>, nat))
    ensures r.1 <= |s|
  {
    var negative := At(s, 0, '-') && 1 < |s| && IsDigit(s[1]);
    var start := if negative then 1 else 0;
    var j := DigitsEnd(s, start);
    (if j == start then None else Some(Signed(negative, s[start..j])), j)
  }

  function SplitBody(s: string, j: nat): Option<Command>
    requires j <= |s|
  {
    if !At(s, j, '-') then None else
    var k := SpaceFrom(s, j + 1);
    match FindName(s[j + 1..k], ALL_NAMES)
    case None => None
    case Some(name) =>
      match SplitArgs(s, k)
      case None => None
      case Some(args) => Some(Command(name, args))
  }

  /** Token, name and arguments of a serialized command. */
  function SplitCommand(s: string): Option<Split> {
    var (token, j) := SplitToken(s);
    match SplitBody(s, j)
    case None => None
    case Some(command) => Some(Split(token, command))
  }

  lemma SpaceFromIs(s: string, i: nat, j: nat)
    requires i <= j <= |s| && (j < |s| ==> s[j] == ' ')
    requires forall k :: i <= k < j ==> s[k] != ' '
    ensures SpaceFrom(s, i) == j
  {}

  lemma {:induction false} ArgsSplit(s: string, i: nat, args: seq<string>)
    requires Occurs(s, i, ArgsText(args)) && i + |ArgsText(args)| == |s|
    ensures SplitArgs(s, i) == Some(args)
    decreases |args|
  {
    hide QuoteArg;
    if args != [] {
      var arg, rest := args[0], args[1..];
      var q := QuoteArg(arg);
      assert ArgsText(args) == [' '] + (q + ArgsText(rest));
      OccursSplit(s, i, [' '], q + ArgsText(rest));
      OccursChar(s, i, ' ');
      OccursSplit(s, i + 1, q, ArgsText(rest));
      ArgsSplit(s, i + 1 + |q|, rest);
      assert [arg] + rest == args;
      if rest != [] { assert ArgsText(rest)[0] == s[i + 1 + |q| + 0]; }
      OneArg(s, i, arg);
    }
  }

  lemma OneArg(s: string, i: nat, arg: string)
    requires At(s, i, ' ') && Occurs(s, i + 1, QuoteArg(arg))
    requires var j := i + 1 + |QuoteArg(arg)|; j < |s| ==> s[j] == ' '
    ensures SplitArgs(s, i) == Cons(arg, SplitArgs(s, i + 1 + |QuoteArg(arg)|))
  {
    var q := QuoteArg(arg);
    if arg == "" || NeedsQuotes(arg) {
      QuotedAt(s, i + 1, arg);
    } else {
      PlainArg(s, i + 1, arg);
      SpaceFromIs(s, i + 1, i + 1 + |q|);
    }
  }

  lemma PlainArg(s: string, i: nat, arg: string)
    requires arg != "" && !NeedsQuotes(arg) && Occurs(s, i, arg)
    ensures s[i..i + |arg|] == arg && s[i] != '"'
    ensures forall k :: i <= k < i + |arg| ==> s[k] != ' '
  {
    OccursSlice(s, i, arg);
    assert s[i] == arg[0];
    forall k | i <= k < i + |arg| ensures s[k] != ' ' {
      assert arg[k - i] == s[i + (k - i)];
    }
  }

  /** No space and no line break. */
  predicate NoSpace(s: string) {
    forall k :: 0 <= k < |s| ==> s[k] != ' ' && s[k] != '\n'
  }

  lemma NameShape(name: CommandName)
    ensures NameText(name) != "" && IsLetter(NameText(name)[0]) && NoSpace(NameText(name))
  {
    DataNameHasNoSpace(name);
    ExecNameHasNoSpace(name);
    LongNameHasNoSpace(name);
    OtherNameHasNoSpace(name);
  }

  predicate IsDataName(name: CommandName) {
    name.DataListRegisterValues? || name.DataReadMemoryBytes? || name.DataWriteMemoryBytes? || name.DataDisassemble?
  }

  lemma DataNameHasNoSpace(name: CommandName)
    ensures IsDataName(name) ==> NoSpace(NameText(name))
  {}

  predicate IsLongName(name: CommandName) {
    name.InterpreterExec? || name.StackInfoFrame?
  }

  predicate IsExecName(name: CommandName) {
    name.ExecInterrupt? || name.ExecContinue? || name.ExecStepInstruction?
  }

  lemma ExecNameHasNoSpace(name: CommandName)
    ensures IsExecName(name) ==> NoSpace(NameText(name))
  {}

  lemma OtherNameHasNoSpace(name: CommandName)
    ensures !IsDataName(name) && !IsExecName(name) && !IsLongName(name) ==> NoSpace(NameText(name))
  {}

  lemma LongNameHasNoSpace(name: CommandName)
    ensures IsLongName(name) ==> NoSpace(NameText(name))
  {}

  lemma NameFound(name: CommandName)
    ensures FindName(NameText(name), ALL_NAMES) == Some(name)
  {
    FindNameFrom(name, 0);
    assert ALL_NAMES[0..] == ALL_NAMES;
  }

  lemma {:induction false} FindNameFrom(name: CommandName, i: nat)
    requires i < |ALL_NAMES| && name in ALL_NAMES[i..]
    ensures FindName(NameText(name), ALL_NAMES[i..]) == Some(name)
    decreases |ALL_NAMES| - i
  {
    assert ALL_NAMES[i..][1..] == ALL_NAMES[i + 1..];
    if NameText(ALL_NAMES[i]) == NameText(name) {
      NameTextInjective(ALL_NAMES[i], name);
    } else {
      FindNameFrom(name, i + 1);
    }
  }

  lemma NameTextInjective(a: CommandName, b: CommandName)
    requires NameText(a) == NameText(b)
    ensures a == b
  {
    assert |NameText(a)| == |NameText(b)|;
    assert NameText(a)[0] == NameText(b)[0] && NameText(a)[5] == NameText(b)[5];
  }

  lemma NameSplit(s: string, i: nat, name: CommandName, args: string)
    requires i + |NameText(name)| <= |s| && s[i..] == NameText(name) + args && (args != "" ==> args[0] == ' ')
    ensures SpaceFrom(s, i) == i + |NameText(name)| && FindName(s[i..SpaceFrom(s, i)], ALL_NAMES) == Some(name)
  {
    hide NameText, FindName, NoSpace, SpaceFrom;
    var n := |NameText(name)|;
    NameShape(name);
    NameFound(name);
    assert s[i..i + n] == NameText(name);
    forall k | i <= k < i + n ensures s[k] != ' ' {
      assert s[i..i + n][k - i] == s[k];
    }
    if args != "" { assert s[i..][n] == args[0]; }
    SpaceFromIs(s, i, i + n);
  }

  lemma TextShape(prefix: string, name: string, args: string)
    requires name != ""
    ensures var s, j := prefix + ("-" + name + args), |prefix|;
      && prefix <= s && s[j] == '-' && s[j + 1] == name[0]
      && s[j + 1..] == name + args && s[j + 1 + |name|..] == args
  {}

  lemma ArgsHead(args: seq<string>)
    ensures ArgsText(args) != "" ==> ArgsText(args)[0] == ' '
  {}

  lemma PrefixSplit(s: string, token: Option<int>)
    requires PrefixText(token) <= s && |PrefixText(token)| + 1 < |s|
    requires s[|PrefixText(token)|] == '-' && !IsDigit(s[|PrefixText(token)| + 1])
    ensures SplitToken(s) == (token, |PrefixText(token)|)
  {
    hide DecimalText, DecimalValue, DigitsEnd;
    if token.Some? {
      var n := token.value;
      var m := if n < 0 then -n else n;
      var start := if n < 0 then 1 else 0;
      DecimalRoundTrip(m);
      assert s[start..start + |DecimalText(m)|] == DecimalText(m) by { PrefixDigits(s, n); }
      DigitsAt(s, start, DecimalText(m));
    } else {
      NoDigits(s);
    }
  }

  lemma PrefixDigits(s: string, n: int)
    requires IntText(n) <= s
    ensures var m, start := (if n < 0 then -n else n), (if n < 0 then 1 else 0);
      start + |DecimalText(m)| <= |s| && s[start..start + |DecimalText(m)|] == DecimalText(m)
  {
    hide DecimalText;
  }

  lemma NoDigits(s: string)
    requires |s| > 1 && s[0] == '-' && !IsDigit(s[1])
    ensures DigitsEnd(s, 0) == 0
  {}

  lemma DigitsAt(s: string, i: nat, digits: string)
    requires i + |digits| < |s| && s[i..i + |digits|] == digits && AllDigits(digits) && digits != ""
    requires !IsDigit(s[i + |digits|])
    ensures DigitsEnd(s, i) == i + |digits| && IsDigit(s[i])
  {
    forall k | i <= k < i + |digits| ensures IsDigit(s[k]) {
      assert s[i..i + |digits|][k - i] == s[k];
    }
  }

  lemma BodySplit(s: string, j: nat, command: Command)
    requires j < |s| && s[j] == '-' && s[j + 1..] == NameText(command.name) + ArgsText(command.args)
    ensures SplitBody(s, j) == Some(command)
  {
    hide NameText, FindName, SplitArgs, ArgsText, SpaceFrom;
    var k := j + 1 + |NameText(command.name)|;
    ArgsHead(command.args);
    NameSplit(s, j + 1, command.name, ArgsText(command.args));
    assert s[k..] == s[j + 1..][|NameText(command.name)|..];
    assert forall i :: 0 <= i < |s[k..]| ==> s[k..][i] == s[k + i];
    ArgsSplit(s, k, command.args);
  }

  /** The splitter recovers token, name and arguments of every command. */
  lemma SplitSerialized(command: Command, token: Option<int>)
    ensures SplitCommand(CommandText(command, token)) == Some(Split(token, command))
  {
    hide NameText, ArgsText, PrefixText, SplitBody, SplitToken;
    NameShape(command.name);
    TextShape(PrefixText(token), NameText(command.name), ArgsText(command.args));
    PrefixSplit(CommandText(command, token), token);
    BodySplit(CommandText(command, token), |PrefixText(token)|, command);
  }

  /** Serialization is injective: equal text means equal token, command name and arguments. */
  lemma SerializationInjective(c: Command, t: Option<int>, d: Command, u: Option<int>)
    requires CommandText(c, t) == CommandText(d, u)
    ensures c == d && t == u
  {
    SplitSerialized(c, t);
    SplitSerialized(d, u);
  }
}
