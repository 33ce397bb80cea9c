/** Commands on the wire. The transport ends each command with a line break and GDB reads line by line, so a line break
    inside a quoted argument, which the serializer leaves as it is, makes GDB see several lines. */
module MILines {
  import opened Basics
  import opened Text
  import opened MIParserSpec
  import opened MICommands
  import Hex

  /** The text has no line break. */
  predicate Unbroken(s: string) {
    forall k :: 0 <= k < |s| ==> s[k] != '\n'
  }

  /** Where the first line break is, or the length of the text. */
  function BreakAt(s: string): (n: nat)
    ensures n <= |s| && Unbroken(s[..n]) && (n < |s| ==> s[n] == '\n')
    ensures n == |s| <==> Unbroken(s)
  {
    if s == "" || s[0] == '\n' then 0 else 1 + BreakAt(s[1..])
  }

  /** The complete lines of a stream; what stands behind the last line break is not a line yet. */
  function Lines(stream: string): (lines: seq<string>)
    ensures forall line :: line in lines ==> Unbroken(line)
    decreases |stream|
  {
    var n := BreakAt(stream);
    if n == |stream| then [] else [stream[..n]] + Lines(stream[n + 1..])
  }

  /** What `write_line` sends for a sequence of texts. */
  function Stream(texts: seq<string>): string {
    if texts == [] then "" else texts[0] + "\n" + Stream(texts[1..])
  }

  lemma {:induction false} BreakIs(s: string, n: nat)
    requires n < |s| && s[n] == '\n' && Unbroken(s[..n])
    ensures BreakAt(s) == n
  {
    if n > 0 {
      assert s[..n][0] == s[0] && s[1..][..n - 1] == s[..n][1..];
      BreakIs(s[1..], n - 1);
    }
  }

  /** A line in front of a stream. */
  lemma LineFirst(line: string, rest: string)
    requires Unbroken(line)
    ensures Lines(line + "\n" + rest) == [line] + Lines(rest)
  {
    hide Unbroken;
    var s := line + "\n" + rest;
    assert s[..|line|] == line && s[|line|] == '\n' && s[|line| + 1..] == rest;
    BreakIs(s, |line|);
  }

  lemma OneLine(line: string)
    requires Unbroken(line)
    ensures Lines(line + "\n") == [line]
  {
    hide Unbroken;
    LineFirst(line, "");
    assert line + "\n" == line + "\n" + "";
  }

  /** A text and its line break, taken apart at a line break of the text. */
  lemma TextSplit(text: string, n: nat)
    requires n < |text| && text[n] == '\n'
    ensures text + "\n" == text[..n] + "\n" + (text[n + 1..] + "\n")
  {
    assert text == text[..n] + "\n" + text[n + 1..];
  }

  /** A text with its line break is read line by line. */
  lemma LinesOfText(text: string)
    ensures var n := BreakAt(text);
      Lines(text + "\n") == [text[..n]] + if n == |text| then [] else Lines(text[n + 1..] + "\n")
  {
    hide Lines, BreakAt, Unbroken;
    var n := BreakAt(text);
    if n == |text| {
      assert text[..n] == text;
      OneLine(text);
    } else {
      TextSplit(text, n);
      LineFirst(text[..n], text[n + 1..] + "\n");
    }
  }

  /** Splitting the stream gives back the texts written if and only if none of them has a line break. */
  lemma FramingExactly(texts: seq<string>)
    ensures Lines(Stream(texts)) == texts <==> forall i :: 0 <= i < |texts| ==> Unbroken(texts[i])
  {
    hide Lines, Unbroken;
    if forall i :: 0 <= i < |texts| ==> Unbroken(texts[i]) { FramingKept(texts); }
    if Lines(Stream(texts)) == texts {
      forall i | 0 <= i < |texts| ensures Unbroken(texts[i]) { assert texts[i] in Lines(Stream(texts)); }
    }
  }

  lemma {:induction false} FramingKept(texts: seq<string>)
    requires forall i :: 0 <= i < |texts| ==> Unbroken(texts[i])
    ensures Lines(Stream(texts)) == texts
  {
    hide BreakAt, Unbroken;
    if texts != [] {
      FramingKept(texts[1..]);
      LineFirst(texts[0], Stream(texts[1..]));
      assert [texts[0]] + texts[1..] == texts;
    }
  }

  // ----- line breaks in a serialized command come from its arguments -----

  predicate HasBreak(command: Command) {
    exists k :: 0 <= k < |command.args| && !Unbroken(command.args[k])
  }

  lemma UnbrokenConcat(a: string, b: string)
    ensures Unbroken(a + b) <==> Unbroken(a) && Unbroken(b)
  {
    if Unbroken(a + b) {
      assert forall k :: 0 <= k < |a| ==> a[k] == (a + b)[k];
      assert forall k :: 0 <= k < |b| ==> b[k] == (a + b)[|a| + k];
    }
  }

  lemma {:induction false} ReplaceBreaks(s: string, c: char, w: string)
    requires c != '\n' && Unbroken(w)
    ensures Unbroken(Replace(s, c, w)) <==> Unbroken(s)
  {
    if s != "" {
      ReplaceBreaks(s[1..], c, w);
      assert s == [s[0]] + s[1..];
      UnbrokenConcat([s[0]], s[1..]);
      UnbrokenConcat(if s[0] == c then w else [s[0]], Replace(s[1..], c, w));
    }
  }

  lemma QuoteBreaks(arg: string)
    ensures Unbroken(QuoteArg(arg)) <==> Unbroken(arg)
  {
    hide Replace;
    var inner := Replace(arg, '\\', "\\\\");
    ReplaceBreaks(arg, '\\', "\\\\");
    ReplaceBreaks(inner, '"', "\\\"");
    UnbrokenConcat("\"", Replace(inner, '"', "\\\""));
    UnbrokenConcat("\"" + Replace(inner, '"', "\\\""), "\"");
  }

  lemma {:induction false} ArgsBreaks(args: seq<string>)
    ensures Unbroken(ArgsText(args)) <==> forall k :: 0 <= k < |args| ==> Unbroken(args[k])
  {
    hide QuoteArg;
    if args != [] {
      var first, rest := args[0], args[1..];
      QuoteBreaks(first);
      ArgsBreaks(rest);
      UnbrokenConcat(" " + QuoteArg(first), ArgsText(rest));
      UnbrokenConcat(" ", QuoteArg(first));
      hide Unbroken;
      assert args == [first] + rest;
      assert forall k :: 0 <= k < |rest| ==> rest[k] == args[k + 1];
    }
  }

  /** A serialized command has a line break if and only if one of its arguments has one. */
  lemma BreaksExactly(command: Command, token: Option<nat>)
    ensures Unbroken(CommandText(command, token)) <==> !HasBreak(command)
  {
    hide ArgsText, NameText;
    var prefix, name, args := PrefixText(token), NameText(command.name), ArgsText(command.args);
    NameShape(command.name);
    ArgsBreaks(command.args);
    UnbrokenConcat(prefix, "-" + name + args);
    UnbrokenConcat("-" + name, args);
    UnbrokenConcat("-", name);
  }

  /** Every command is one line on the wire, so that GDB reads exactly the commands written, if and only if no argument
      has a line break. */
  lemma CommandsFramedExactly(commands: seq<Command>, tokens: seq<nat>)
    requires |tokens| == |commands|
    ensures var texts := seq(|commands|, i requires 0 <= i < |commands| => CommandText(commands[i], Some(tokens[i])));
      Lines(Stream(texts)) == texts <==> forall i :: 0 <= i < |commands| ==> !HasBreak(commands[i])
  {
    hide CommandText, HasBreak, Unbroken, Lines;
    var texts := seq(|commands|, i requires 0 <= i < |commands| => CommandText(commands[i], Some(tokens[i])));
    FramingExactly(texts);
    forall i | 0 <= i < |commands| ensures Unbroken(texts[i]) <==> !HasBreak(commands[i]) {
      BreaksExactly(commands[i], Some(tokens[i]));
    }
  }

  // ----- the lines of one command -----

  /** The token GDB finds in front of a line, behind white space. */
  function LeadingToken(line: string): Option<nat> {
    if line != "" && Hex.IsAsciiSpace(line[0]) then LeadingToken(line[1..])
    else
      var n := DigitsEnd(line, 0);
      assert line[0..n] == line[..n];
      if n == 0 then None else Some(DecimalValue(line[..n]))
  }

  /** The lines GDB reads when a command is written. */
  function CommandLines(command: Command, token: nat): seq<string> {
    Lines(CommandText(command, Some(token)) + "\n")
  }

  /** The lines behind the first one, which do not depend on the token. */
  function LinesBehind(command: Command): seq<string> {
    var lines := Lines(CommandText(command, None) + "\n");
    if lines == [] then [] else lines[1..]
  }

  /** A line behind the first begins with a number that the controller can use as a token. */
  predicate TokenBehind(command: Command) {
    exists l :: 0 <= l < |LinesBehind(command)| && Positive(LeadingToken(LinesBehind(command)[l]))
  }

  predicate Positive(token: Option<nat>) {
    token.Some? && token.value > 0
  }

  /** Digits in front of a text stay in front of its first line. */
  lemma PrefixedLines(prefix: string, text: string)
    requires AllDigits(prefix)
    ensures var lines := Lines(text + "\n");
      lines != [] && Lines(prefix + text + "\n") == [prefix + lines[0]] + lines[1..]
  {
    hide Lines, BreakAt;
    var n, s := BreakAt(text), prefix + text;
    LinesOfText(text);
    LinesOfText(s);
    PrefixedBreak(prefix, text);
    assert s[..|prefix| + n] == prefix + text[..n];
    if n < |text| { assert s[|prefix| + n + 1..] == text[n + 1..]; }
  }

  lemma PrefixedBreak(prefix: string, text: string)
    requires AllDigits(prefix)
    ensures BreakAt(prefix + text) == |prefix| + BreakAt(text)
  {
    var n, s := BreakAt(text), prefix + text;
    assert Unbroken(prefix);
    if n < |text| {
      UnbrokenConcat(prefix, text[..n]);
      assert s[..|prefix| + n] == prefix + text[..n];
      BreakIs(s, |prefix| + n);
    } else {
      UnbrokenConcat(prefix, text);
    }
  }

  lemma FirstToken(token: nat, rest: string)
    requires rest != "" && rest[0] == '-'
    ensures LeadingToken(DecimalText(token) + rest) == Some(token)
  {
    var d := DecimalText(token);
    var line := d + rest;
    assert line[0] == d[0] && line[|d|] == '-' && line[0..|d|] == d && line[..|d|] == d;
    DigitsAt(line, 0, d);
    DecimalRoundTrip(token);
  }

  /** The first line of a command begins with its token; the others are the same whatever the token. */
  lemma LinesOfCommand(command: Command, token: nat)
    ensures var lines := CommandLines(command, token);
      lines != [] && lines[1..] == LinesBehind(command) && LeadingToken(lines[0]) == Some(token)
  {
    hide ArgsText, NameText, LeadingToken, Lines;
    var text := CommandText(command, None);
    assert CommandText(command, Some(token)) == DecimalText(token) + text;
    assert text[0] == '-';
    PrefixedLines(DecimalText(token), text);
    LinesOfText(text);
    assert Lines(text + "\n")[0] == text[..BreakAt(text)];
    StartsWithDash(text);
    FirstToken(token, text[..BreakAt(text)]);
  }

  lemma StartsWithDash(text: string)
    requires text != "" && text[0] == '-'
    ensures BreakAt(text) > 0 && text[..BreakAt(text)][0] == '-'
  {}

  /** A command is a single line if and only if no argument has a line break. */
  lemma OneLineExactly(command: Command, token: nat)
    ensures |CommandLines(command, token)| == 1 <==> !HasBreak(command)
    ensures LinesBehind(command) == [] <==> !HasBreak(command)
  {
    hide CommandText, HasBreak, LeadingToken, Lines, BreakAt, Unbroken;
    var text := CommandText(command, Some(token));
    BreaksExactly(command, Some(token));
    LinesOfText(text);
    LinesOfCommand(command, token);
    var n := BreakAt(text);
    if n < |text| { LinesOfText(text[n + 1..]); }
  }

  /** Without line breaks nothing stands behind the first line. */
  lemma NoBreakNoToken(command: Command)
    requires !HasBreak(command)
    ensures !TokenBehind(command)
  {
    OneLineExactly(command, 0);
  }

  predicate NoQuotes(s: string) {
    forall k :: 0 <= k < |s| ==> s[k] != '"' && s[k] != '\\'
  }

  lemma {:induction false} ReplaceNothing(s: string, c: char, w: string)
    requires forall k :: 0 <= k < |s| ==> s[k] != c
    ensures Replace(s, c, w) == s
  {
    if s != "" {
      ReplaceNothing(s[1..], c, w);
      assert [s[0]] + s[1..] == s;
    }
  }

  lemma QuotedPlainly(arg: string)
    requires !Unbroken(arg) && NoQuotes(arg)
    ensures QuoteArg(arg) == "\"" + arg + "\""
  {
    ReplaceNothing(arg, '\\', "\\\\");
    ReplaceNothing(arg, '"', "\\\"");
    assert NeedsQuotes(arg) by {
      var k :| 0 <= k < |arg| && arg[k] == '\n';
      assert IsSpace(arg[k]);
    }
  }

  /** Text between two line breaks of an argument without quotes reaches GDB as a line of its own; the rest follows. */
  lemma InnerLine(name: CommandName, before: string, inner: string, after: string, rest: seq<string>)
    requires Unbroken(before) && Unbroken(inner) && NoQuotes(before + "\n" + inner + "\n" + after)
    ensures LinesBehind(Command(name, [before + "\n" + inner + "\n" + after] + rest))
         == [inner] + Lines(after + "\"" + ArgsText(rest) + "\n")
  {
    hide NameText, Unbroken, NoQuotes, Lines, ArgsText, QuoteArg;
    var arg := before + "\n" + inner + "\n" + after;
    var args := [arg] + rest;
    assert args[0] == arg && args[1..] == rest;
    var text := CommandText(Command(name, args), None);
    var head, tail := "-" + NameText(name) + " " + "\"" + before, after + "\"" + ArgsText(rest);
    InnerText(name, before, inner, after, rest);
    assert text == head + "\n" + (inner + "\n" + tail);
    HeadUnbroken(name, before);
    assert text[..|head|] == head && text[|head|] == '\n' && text[|head| + 1..] == inner + "\n" + tail;
    BreakIs(text, |head|);
    LinesOfText(text);
    assert inner + "\n" + tail + "\n" == inner + "\n" + (tail + "\n");
    LineFirst(inner, tail + "\n");
  }

  lemma HeadUnbroken(name: CommandName, before: string)
    requires Unbroken(before)
    ensures Unbroken("-" + NameText(name) + " " + "\"" + before)
  {
    hide NameText;
    NameShape(name);
    UnbrokenConcat("-", NameText(name));
    UnbrokenConcat("-" + NameText(name), " ");
    UnbrokenConcat("-" + NameText(name) + " ", "\"");
    UnbrokenConcat("-" + NameText(name) + " " + "\"", before);
  }

  lemma InnerText(name: CommandName, before: string, inner: string, after: string, rest: seq<string>)
    requires NoQuotes(before + "\n" + inner + "\n" + after)
    ensures CommandText(Command(name, [before + "\n" + inner + "\n" + after] + rest), None)
         == "-" + NameText(name) + " " + "\"" + before + "\n" + (inner + "\n" + (after + "\"" + ArgsText(rest)))
  {
    hide NameText, NoQuotes, QuoteArg;
    var arg := before + "\n" + inner + "\n" + after;
    var args := [arg] + rest;
    assert args[0] == arg && args[1..] == rest;
    assert arg[|before|] == '\n';
    QuotedPlainly(arg);
    assert ArgsText(args) == " " + ("\"" + arg + "\"") + ArgsText(rest);
  }
}
