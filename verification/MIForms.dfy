/** Lines in forms that the printer does not use: results as list items, bare values, escapes of ordinary characters,
    repeated keys and trailing commas. Each is given as text, with the record that parsing it returns. */
module MIForms {
  import opened Basics
  import opened MIRecords
  import opened MIGrammar
  import opened MIMeaning
  import MIParser
  import MIParserSpec
  import MIPrinter

  // ----- lines put together from parts -----

  function Commas(parts: seq<string>): string {
    if parts == [] then "" else if |parts| == 1 then parts[0] else parts[0] + ("," + Commas(parts[1..]))
  }

  lemma {:induction false} CommasSayResults(parts: seq<string>, given: Dict)
    requires |parts| == |given| && forall i :: 0 <= i < |parts| ==> SaysResult(parts[i], given[i])
    ensures SaysResults(Commas(parts), given)
    decreases |parts|
  {
    hide SaysResult;
    if |parts| == 1 {
      ResultsOne(parts[0], given);
    } else if |parts| > 1 {
      CommasSayResults(parts[1..], given[1..]);
      ResultsMore(parts[0], Commas(parts[1..]), given);
    }
  }

  lemma {:induction false} CommasSayItems(parts: seq<string>, items: seq<MIValue>)
    requires |parts| == |items| && forall i :: 0 <= i < |parts| ==> SaysItem(parts[i], items[i])
    ensures SaysItems(Commas(parts), items)
    decreases |parts|
  {
    hide SaysItem;
    if |parts| == 1 {
      ItemsOne(parts[0], items);
    } else if |parts| > 1 {
      CommasSayItems(parts[1..], items[1..]);
      ItemsMore(parts[0], Commas(parts[1..]), items);
    }
  }

  predicate NoLineEnd(line: string) {
    line != "" && line[|line| - 1] != '\r' && line[|line| - 1] != '\n'
  }

  function Line(cls: string, results: string): string {
    "^" + cls + "," + results
  }

  function Keyed(key: string, value: string): string {
    key + "=" + value
  }

  function InBrackets(items: string): string {
    "[" + items + "]"
  }

  function InQuotes(text: string): string {
    "\"" + text + "\""
  }

  /** What parsing a result record without token returns. */
  function Parsed(line: string, cls: string, results: Dict): Result<Record, MIParserSpec.ParseError> {
    Success(MIRecord(ResultKind, cls, results, line, None))
  }

  lemma ClassAndResults(cls: string, results: string, given: Dict)
    requires IsName(cls) && SaysResults(results, given)
    ensures SaysBody(cls + "," + results, cls, Assigned(given, []))
  {
    hide SaysResults, Assigned, IsName;
    var w := cls + "," + results;
    assert w[|cls|] == ',' && w[|cls| + 1..] == results;
  }

  /** A result record says its class and its results. */
  lemma ResultLine(cls: string, results: string, given: Dict)
    requires IsName(cls) && SaysResults(results, given) && NoLineEnd(results)
    ensures var line := Line(cls, results); MIParser.RecordOf(line) == Parsed(line, cls, Assigned(given, []))
  {
    hide SaysResults, Assigned, IsName, SaysBody;
    var line := Line(cls, results);
    var r := MIRecord(ResultKind, cls, Assigned(given, []), line, None);
    assert line[..0] == "" && line[0..] == line && line[1..] == cls + "," + results;
    ClassAndResults(cls, results, given);
    assert MarkedAt(line, 0, r);
    assert NoLineEnd(line);
    hide SaysMarked, LineSays, Line;
    MIPrinter.NotStripped(line);
    ParsesExactly(line, r);
  }

  /** What the printer writes for a value. */
  function Printed(v: MIValue): string {
    TreeText(MIPrinter.Unparse(v))
  }

  lemma PrintedSays(v: MIValue)
    requires MIPrinter.Printable(v)
    ensures Says(Printed(v), v) && Printed(v) != "" && Printed(v)[0] in "\"{[" && NoLineEnd(Printed(v))
  {
    MIPrinter.UnparseCorrect(v);
    TreeSays(MIPrinter.Unparse(v));
    MIPrinter.ValueEnd(v);
  }

  lemma KeySays(key: string, w: string, v: MIValue)
    requires IsName(key) && Says(w, v)
    ensures SaysResult(Keyed(key, w), Entry(key, v))
    ensures NoLineEnd(w) ==> NoLineEnd(Keyed(key, w))
  {
    var t := Keyed(key, w);
    assert t[..|key|] == key && t[|key|] == '=' && t[|key| + 1..] == w;
  }

  /** A result record with one key. */
  lemma OneResult(cls: string, key: string, w: string, v: MIValue)
    requires IsName(cls) && IsName(key) && Says(w, v) && NoLineEnd(w)
    ensures var line := Line(cls, Keyed(key, w)); MIParser.RecordOf(line) == Parsed(line, cls, [Entry(key, v)])
  {
    hide Says, SaysResult, SaysResults, Line, Keyed, NoLineEnd, IsName;
    KeySays(key, w, v);
    var given := [Entry(key, v)];
    ResultsOne(Keyed(key, w), given);
    assert given[1..] == [];
    ResultLine(cls, Keyed(key, w), given);
  }

  /** A result record with one key and a list, whose items are written in any way. */
  lemma ListLine(cls: string, key: string, parts: seq<string>, items: seq<MIValue>)
    requires IsName(cls) && IsName(key)
    requires |parts| == |items| && forall i :: 0 <= i < |parts| ==> SaysItem(parts[i], items[i])
    ensures var line := Line(cls, Keyed(key, InBrackets(Commas(parts))));
      MIParser.RecordOf(line) == Parsed(line, cls, [Entry(key, MIList(items))])
  {
    hide SaysItem, Commas, SaysItems, IsName;
    var list := InBrackets(Commas(parts));
    CommasSayItems(parts, items);
    assert Inner(list) == Commas(parts);
    assert Says(list, MIList(items));
    hide Says;
    OneResult(cls, key, list, MIList(items));
  }

  // ----- results as list items -----

  function PrintedAll(items: seq<MIValue>): seq<string> {
    seq(|items|, i requires 0 <= i < |items| => Printed(items[i]))
  }

  /** A result at any place of a list stands for a dictionary with that one entry. */
  lemma ResultAsItem(cls: string, key: string, before: seq<MIValue>, k: string, v: MIValue, behind: seq<MIValue>)
    requires IsName(cls) && IsName(key) && IsName(k) && MIPrinter.Printable(v)
    requires forall i :: 0 <= i < |before| ==> MIPrinter.Printable(before[i])
    requires forall i :: 0 <= i < |behind| ==> MIPrinter.Printable(behind[i])
    ensures var parts := PrintedAll(before) + [Keyed(k, Printed(v))] + PrintedAll(behind);
      var line := Line(cls, Keyed(key, InBrackets(Commas(parts))));
      MIParser.RecordOf(line)
      == Parsed(line, cls, [Entry(key, MIList(before + [MIDict([Entry(k, v)])] + behind))])
  {
    PrintedSays(v);
    KeySays(k, Printed(v), v);
    assert SaysItem(Keyed(k, Printed(v)), MIDict([Entry(k, v)]));
    hide Says, SaysResult, SaysItem, Printed, PrintedAll, MIPrinter.Printable, Keyed, Line, InBrackets, IsName, Commas;
    ItemsPrinted(before);
    ItemsPrinted(behind);
    var parts := PrintedAll(before) + [Keyed(k, Printed(v))] + PrintedAll(behind);
    var items := before + [MIDict([Entry(k, v)])] + behind;
    Placed(PrintedAll(before), before, Keyed(k, Printed(v)), MIDict([Entry(k, v)]), PrintedAll(behind), behind);
    ListLine(cls, key, parts, items);
  }

  /** Items before, at and behind one place. */
  lemma Placed(lead: seq<string>, before: seq<MIValue>, part: string, item: MIValue, tail: seq<string>,
               behind: seq<MIValue>)
    requires |lead| == |before| && forall i :: 0 <= i < |lead| ==> SaysItem(lead[i], before[i])
    requires |tail| == |behind| && forall i :: 0 <= i < |tail| ==> SaysItem(tail[i], behind[i])
    requires SaysItem(part, item)
    ensures var parts, items := lead + [part] + tail, before + [item] + behind;
      |parts| == |items| && forall i :: 0 <= i < |parts| ==> SaysItem(parts[i], items[i])
  {
    hide SaysItem;
    var parts, items := lead + [part] + tail, before + [item] + behind;
    forall i | 0 <= i < |parts| ensures SaysItem(parts[i], items[i]) {
      if i < |lead| {
        assert SaysItem(lead[i], before[i]);
      } else if i > |lead| {
        assert SaysItem(tail[i - |lead| - 1], behind[i - |lead| - 1]);
      }
    }
  }

  lemma ItemsPrinted(items: seq<MIValue>)
    requires forall i :: 0 <= i < |items| ==> MIPrinter.Printable(items[i])
    ensures |PrintedAll(items)| == |items|
    ensures forall i :: 0 <= i < |items| ==> SaysItem(PrintedAll(items)[i], items[i])
  {
    hide SaysItem, Printed, MIPrinter.Printable;
    forall i | 0 <= i < |items| ensures SaysItem(PrintedAll(items)[i], items[i]) { ItemPrinted(items[i]); }
  }

  lemma ItemPrinted(v: MIValue)
    requires MIPrinter.Printable(v)
    ensures SaysItem(Printed(v), v)
  {
    PrintedSays(v);
    NotLikeResult(Printed(v));
  }

  // ----- bare values -----

  /** Bare text as the value of a result is taken as it stands. */
  lemma BareValue(cls: string, key: string, text: string)
    requires IsName(cls) && IsName(key) && NoLineEnd(text)
    requires text[0] !in "\"{[" && forall i :: 0 <= i < |text| ==> text[i] !in ",]}"
    ensures var line := Line(cls, Keyed(key, text));
      MIParser.RecordOf(line) == Parsed(line, cls, [Entry(key, MIString(text))])
  {
    assert Says(text, MIString(text));
    OneResult(cls, key, text, MIString(text));
  }

  /** Bare text as a list item, where it may end in anything but must not begin like a result. */
  lemma BareItem(cls: string, key: string, text: string)
    requires IsName(cls) && IsName(key) && text != "" && !BeginsLikeResult(text)
    requires text[0] !in "\"{[" && forall i :: 0 <= i < |text| ==> text[i] !in ",]}"
    ensures var line := Line(cls, Keyed(key, InBrackets(text)));
      MIParser.RecordOf(line) == Parsed(line, cls, [Entry(key, MIList([MIString(text)]))])
  {
    assert Says(text, MIString(text));
    assert Commas([text]) == text;
    ListLine(cls, key, [text], [MIString(text)]);
  }

  // ----- escapes -----

  /** The text with a backslash in front of each character. */
  function Backslashed(text: string): string {
    if text == "" then "" else ['\\', text[0]] + Backslashed(text[1..])
  }

  lemma {:induction false} BackslashedSays(text: string)
    requires 'n' !in text && 'r' !in text && 't' !in text
    ensures SaysText(Backslashed(text), text)
  {
    if text != "" {
      BackslashedSays(text[1..]);
      assert Backslashed(text)[2..] == Backslashed(text[1..]);
    }
  }

  lemma QuotesSay(w: string, text: string)
    requires SaysText(w, text)
    ensures Says(InQuotes(w), MIString(text)) && NoLineEnd(InQuotes(w))
  {
    hide SaysText;
    assert Inner(InQuotes(w)) == w;
  }

  /** A backslash may stand in front of any character but n, r and t without changing it. */
  lemma EscapedText(cls: string, key: string, text: string)
    requires IsName(cls) && IsName(key) && 'n' !in text && 'r' !in text && 't' !in text
    ensures var line := Line(cls, Keyed(key, InQuotes(Backslashed(text))));
      MIParser.RecordOf(line) == Parsed(line, cls, [Entry(key, MIString(text))])
  {
    BackslashedSays(text);
    hide SaysText, Says, Line, Keyed, IsName, InQuotes;
    QuotesSay(Backslashed(text), text);
    OneResult(cls, key, InQuotes(Backslashed(text)), MIString(text));
  }

  /** The three control characters. */
  lemma ControlCharacters(cls: string, key: string)
    requires IsName(cls) && IsName(key)
    ensures var line := Line(cls, Keyed(key, InQuotes("\\n\\r\\t")));
      MIParser.RecordOf(line) == Parsed(line, cls, [Entry(key, MIString("\n\r\t"))])
  {
    hide Says, Line, Keyed, IsName, InQuotes;
    assert SaysText("\\n\\r\\t", "\n\r\t") by {
      assert "\\n\\r\\t"[2..] == "\\r\\t" && "\\r\\t"[2..] == "\\t" && "\\t"[2..] == "";
      assert "\n\r\t"[1..] == "\r\t" && "\r\t"[1..] == "\t" && "\t"[1..] == "";
      assert SaysText("\\t", "\t") && SaysText("\\r\\t", "\r\t");
    }
    hide SaysText;
    QuotesSay("\\n\\r\\t", "\n\r\t");
    OneResult(cls, key, InQuotes("\\n\\r\\t"), MIString("\n\r\t"));
  }

  // ----- repeated keys and trailing commas -----

  /** The second value of a key replaces the first, in the place of the first. */
  lemma LastValueWins(cls: string, key: string, u: MIValue, other: string, v: MIValue, w: MIValue)
    requires IsName(cls) && IsName(key) && IsName(other) && key != other
    requires MIPrinter.Printable(u) && MIPrinter.Printable(v) && MIPrinter.Printable(w)
    ensures var parts := [Keyed(key, Printed(u)), Keyed(other, Printed(v)), Keyed(key, Printed(w))];
      var line := Line(cls, Commas(parts));
      MIParser.RecordOf(line) == Parsed(line, cls, [Entry(key, w), Entry(other, v)])
  {
    hide Says, SaysResult, SaysResults, Printed, IsName, Keyed, NoLineEnd, Commas, Line, Assigned;
    var parts := [Keyed(key, Printed(u)), Keyed(other, Printed(v)), Keyed(key, Printed(w))];
    var given := [Entry(key, u), Entry(other, v), Entry(key, w)];
    PrintedSays(u);
    PrintedSays(v);
    PrintedSays(w);
    KeySays(key, Printed(u), u);
    KeySays(other, Printed(v), v);
    KeySays(key, Printed(w), w);
    CommasSayResults(parts, given);
    Thrice(key, u, other, v, w);
    ThreeCommas(parts);
    ResultLine(cls, Commas(parts), given);
  }

  lemma Thrice(key: string, u: MIValue, other: string, v: MIValue, w: MIValue)
    requires key != other
    ensures Assigned([Entry(key, u), Entry(other, v), Entry(key, w)], []) == [Entry(key, w), Entry(other, v)]
  {
    var given := [Entry(key, u), Entry(other, v), Entry(key, w)];
    assert given[1..] == [Entry(other, v), Entry(key, w)] && given[1..][1..] == [Entry(key, w)];
    var one := [Entry(key, u)];
    var two := [Entry(key, u), Entry(other, v)];
    assert one[1..] == [] && two[1..] == [Entry(other, v)];
    assert Put([], key, u) == one;
    assert Put(one, other, v) == two;
    assert Put(two, key, w) == [Entry(key, w), Entry(other, v)];
    assert Assigned([Entry(key, w)], two) == [Entry(key, w), Entry(other, v)];
  }

  lemma ThreeCommas(parts: seq<string>)
    requires |parts| == 3 && NoLineEnd(parts[2])
    ensures NoLineEnd(Commas(parts))
  {
    assert parts[1..][1..] == [parts[2]];
    assert Commas(parts[1..]) == parts[1] + ("," + parts[2]);
    assert Commas(parts) == parts[0] + ("," + (parts[1] + ("," + parts[2])));
  }

  /** A trailing comma changes nothing. */
  lemma TrailingComma(cls: string, key: string, v: MIValue)
    requires IsName(cls) && IsName(key) && MIPrinter.Printable(v)
    ensures var line := Line(cls, Keyed(key, Printed(v)) + ",");
      MIParser.RecordOf(line) == Parsed(line, cls, [Entry(key, v)])
  {
    hide Says, SaysResult, SaysResults, Printed, IsName, Keyed, Line;
    PrintedSays(v);
    KeySays(key, Printed(v), v);
    var given := [Entry(key, v)];
    assert given[1..] == [];
    assert SaysResults("", given[1..]) by { NothingSays(); }
    ResultsMore(Keyed(key, Printed(v)), "", given);
    assert "," + "" == ",";
    ResultLine(cls, Keyed(key, Printed(v)) + ",", given);
  }

  lemma NothingSays()
    ensures SaysResults("", [])
  {}
}
