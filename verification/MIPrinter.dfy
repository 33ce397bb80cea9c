/** A printer of records in GDB/MI form, and the round trip: parsing what it prints gives the record back. */
module MIPrinter {
  import opened Basics
  import opened Text
  import opened MIRecords
  import opened MIGrammar
  import opened MIParserSpec
  import MILanguage
  import MIParser

  /** Strings as escaped c-strings, dictionaries as `{k=v,...}`, lists as `[v,...]`. */
  function Escape(text: string): seq<Piece> {
    if text == "" then [] else [EscapeChar(text[0])] + Escape(text[1..])
  }

  function EscapeChar(c: char): Piece {
    if c == '\n' then Escaped('n') else if c == '\r' then Escaped('r') else if c == '\t' then Escaped('t')
    else if c == '"' || c == '\\' then Escaped(c) else Plain(c)
  }

  function Unparse(v: MIValue): Tree {
    match v
    case MIString(text) => Quoted(Escape(text))
    case MIList(items) => List(UnparseItems(items))
    case MIDict(entries) => Tuple(UnparseEntries(entries))
  }

  function UnparseItems(items: seq<MIValue>): ItemList {
    if items == [] then NoItems
    else if |items| == 1 then LastItem(ValueItem(Unparse(items[0])))
    else MoreItems(ValueItem(Unparse(items[0])), UnparseItems(items[1..]))
  }

  function UnparseEntries(entries: Dict): ResultList {
    if entries == [] then NoResults
    else if |entries| == 1 then LastResult(entries[0].key, Unparse(entries[0].value))
    else MoreResults(entries[0].key, Unparse(entries[0].value), UnparseEntries(entries[1..]))
  }

  /** Every dictionary inside the value has distinct identifiers as keys. */
  ghost predicate Printable(v: MIValue) {
    match v
    case MIString(_) => true
    case MIList(items) => forall i :: 0 <= i < |items| ==> Printable(items[i])
    case MIDict(entries) => PrintableDict(entries)
  }

  ghost predicate PrintableDict(entries: Dict) {
    && DistinctKeys(entries)
    && forall i :: 0 <= i < |entries| ==> IsIdentifier(entries[i].key) && Printable(entries[i].value)
  }

  function MarkerOf(kind: RecordKind): char {
    match kind
    case ResultKind => '^'
    case ExecAsync => '*'
    case StatusAsync => '+'
    case NotifyAsync => '='
    case ConsoleStream => '~'
    case TargetStream => '@'
    case LogStream => '&'
    case PromptKind => '('
  }

  /** The records the parser can produce from printed lines: the prompt has its one form, and class and keys are
      identifiers. */
  ghost predicate PrintableRecord(r: Record) {
    match r
    case MIStreamRecord(kind, _, _, _) => IsStreamMarker(MarkerOf(kind))
    case MIRecord(kind, cls, results, _, token) =>
      if kind == PromptKind then cls == "prompt" && results == [] && token == None
      else IsRecordMarker(MarkerOf(kind)) && IsIdentifier(cls) && PrintableDict(results)
  }

  function TokenText(token: Option<nat>): string {
    match token
    case None => ""
    case Some(n) => DecimalText(n)
  }

  function UnparseRecord(r: Record): LineTree {
    match r
    case MIStreamRecord(kind, text, _, token) => StreamLine(TokenText(token), MarkerOf(kind), Escape(text))
    case MIRecord(kind, cls, results, _, token) =>
      if kind == PromptKind then PromptLine
      else
        var list := if results == [] then None else Some(UnparseEntries(results));
        RecordLine(TokenText(token), MarkerOf(kind), cls, list)
  }

  function Print(r: Record): string {
    LineText(UnparseRecord(r))
  }

  // ----- printed values are well formed and mean what was printed -----

  lemma {:induction false} EscapeCorrect(text: string)
    ensures WfPieces(Escape(text)) && PiecesMeaning(Escape(text)) == text
  {
    if text != "" {
      EscapeCorrect(text[1..]);
      assert Escape(text)[1..] == Escape(text[1..]);
    }
  }

  lemma {:induction false} UnparseCorrect(v: MIValue)
    requires Printable(v)
    ensures WfTree(Unparse(v)) && TreeMeaning(Unparse(v)) == v && !Unparse(v).Bare?
  {
    match v
    case MIString(text) => EscapeCorrect(text);
    case MIList(items) => UnparseItemsCorrect(items);
    case MIDict(entries) => UnparseEntriesCorrect(entries, []);
  }

  lemma {:induction false} UnparseItemsCorrect(items: seq<MIValue>)
    requires forall i :: 0 <= i < |items| ==> Printable(items[i])
    ensures WfItemList(UnparseItems(items)) && ItemListMeaning(UnparseItems(items)) == items
  {
    if items != [] {
      UnparseCorrect(items[0]);
      UnparseItemsCorrect(items[1..]);
      assert items == [items[0]] + items[1..];
    }
  }

  lemma {:induction false} UnparseEntriesCorrect(entries: Dict, before: Dict)
    requires DistinctKeys(before + entries)
    requires forall i :: 0 <= i < |entries| ==> IsIdentifier(entries[i].key) && Printable(entries[i].value)
    ensures WfResultList(UnparseEntries(entries))
    ensures ResultListMeaning(UnparseEntries(entries), before) == before + entries
    decreases entries
  {
    if entries == [] {
      assert before + entries == before;
    } else {
      var first := entries[0];
      UnparseCorrect(first.value);
      assert forall i :: 0 <= i < |before| ==> (before + entries)[i] == before[i];
      assert (before + entries)[|before|] == first;
      PutNew(before, first.key, first.value);
      assert before + [first] + entries[1..] == before + entries;
      UnparseEntriesCorrect(entries[1..], before + [first]);
      assert first == Entry(first.key, first.value);
    }
  }

  lemma TokenRoundTrip(token: Option<nat>)
    ensures AllDigits(TokenText(token)) && TokenMeaning(TokenText(token)) == token
  {
    if token.Some? { DecimalRoundTrip(token.value); }
  }

  lemma UnparseRecordCorrect(r: Record, raw: string)
    requires PrintableRecord(r)
    ensures WfLine(UnparseRecord(r)) && LineMeaning(UnparseRecord(r), raw) == r.(raw := raw)
  {
    TokenRoundTrip(r.token);
    match r
    case MIStreamRecord(_, text, _, _) => EscapeCorrect(text);
    case MIRecord(kind, _, results, _, _) =>
      if kind != PromptKind {
        assert [] + results == results;
        UnparseEntriesCorrect(results, []);
      }
  }

  lemma NotStripped(line: string)
    requires line != "" && line[|line| - 1] != '\r' && line[|line| - 1] != '\n'
    ensures MIParser.RStrip(line) == line
  {}

  /** No line of the grammar ends in white space that the parser would strip, unless a bare value does. */
  lemma PrintedEnd(r: Record)
    requires PrintableRecord(r)
    ensures Print(r) != "" && Print(r)[|Print(r)| - 1] != '\r' && Print(r)[|Print(r)| - 1] != '\n'
  {
    var t := UnparseRecord(r);
    match t
    case PromptLine =>
    case StreamLine(token, marker, ps) =>
      assert TreeText(Quoted(ps))[|TreeText(Quoted(ps))| - 1] == '"';
    case RecordLine(token, marker, cls, None) =>
      assert IsIdentifierPart(cls[|cls| - 1]);
    case RecordLine(token, marker, cls, Some(rs)) =>
      EntriesEnd(r.results);
  }

  lemma ValueEnd(v: MIValue)
    ensures var w := TreeText(Unparse(v)); w != "" && w[|w| - 1] != '\r' && w[|w| - 1] != '\n'
  {}

  lemma {:induction false} EntriesEnd(entries: Dict)
    requires entries != []
    ensures var w := ResultListText(UnparseEntries(entries)); w != "" && w[|w| - 1] != '\r' && w[|w| - 1] != '\n'
  {
    if |entries| == 1 { ValueEnd(entries[0].value); } else { EntriesEnd(entries[1..]); }
  }

  /** Parsing a printed record gives that record, with the printed line as its raw text. */
  lemma RoundTrip(r: Record)
    requires PrintableRecord(r)
    ensures MIParser.RecordOf(Print(r)) == Success(r.(raw := Print(r)))
  {
    PrintedEnd(r);
    NotStripped(Print(r));
    UnparseRecordCorrect(r, Print(r));
    MILanguage.LineComplete(UnparseRecord(r));
  }

  // ----- the parser produces printable records only -----

  lemma {:induction false} PutPrintable(d: Dict, key: string, v: MIValue)
    requires PrintableDict(d) && IsIdentifier(key) && Printable(v)
    ensures PrintableDict(Put(d, key, v))
  {
    PutKeepsDistinct(d, key, v);
    PutEntries(d, key, v);
    var p := Put(d, key, v);
    forall i | 0 <= i < |p| ensures IsIdentifier(p[i].key) && Printable(p[i].value) {
      assert p[i] in p;
    }
  }

  lemma {:induction false} PutEntries(d: Dict, key: string, v: MIValue)
    ensures forall e :: e in Put(d, key, v) ==> e in d || e == Entry(key, v)
  {
    if d != [] && d[0].key != key { PutEntries(d[1..], key, v); }
  }

  lemma {:induction false} MeaningPrintable(t: Tree)
    requires WfTree(t)
    ensures Printable(TreeMeaning(t))
  {
    match t
    case Quoted(_) =>
    case Bare(_) =>
    case Tuple(rs) => ResultsPrintable(rs, []);
    case List(items) => ItemsPrintable(items);
  }

  lemma {:induction false} ResultsPrintable(rs: ResultList, d: Dict)
    requires WfResultList(rs) && PrintableDict(d)
    ensures PrintableDict(ResultListMeaning(rs, d))
    decreases rs
  {
    match rs
    case NoResults =>
    case LastResult(k, v) =>
      MeaningPrintable(v);
      PutPrintable(d, k, TreeMeaning(v));
    case MoreResults(k, v, rest) =>
      MeaningPrintable(v);
      PutPrintable(d, k, TreeMeaning(v));
      ResultsPrintable(rest, Put(d, k, TreeMeaning(v)));
  }

  lemma {:induction false} ItemPrintable(item: Item)
    requires WfItem(item)
    ensures Printable(ItemMeaning(item))
    decreases item
  {
    MeaningPrintable(item.value);
  }

  lemma {:induction false} ItemsPrintable(items: ItemList)
    requires WfItemList(items)
    ensures forall i :: 0 <= i < |ItemListMeaning(items)| ==> Printable(ItemListMeaning(items)[i])
    decreases items
  {
    match items
    case NoItems =>
    case LastItem(item) => ItemPrintable(item);
    case MoreItems(item, rest) =>
      ItemPrintable(item);
      ItemsPrintable(rest);
  }

  lemma LinePrintable(t: LineTree, raw: string)
    requires WfLine(t)
    ensures PrintableRecord(LineMeaning(t, raw))
  {
    if t.RecordLine? && t.results.Some? { ResultsPrintable(t.results.value, []); }
  }

  /** Every record the parser returns is printable, so printing it and parsing again gives the same record. */
  lemma ParsedIsPrintable(line: string)
    requires MIParser.RecordOf(line).Success?
    ensures var r := MIParser.RecordOf(line).value;
      PrintableRecord(r) && MIParser.RecordOf(Print(r)) == Success(r.(raw := Print(r)))
  {
    var s := MIParser.RStrip(line);
    MILanguage.LineSound(s);
    LinePrintable(ParseTree(s).value, s);
    RoundTrip(MIParser.RecordOf(line).value);
  }

  /** Printing is injective up to the raw text, which printing ignores. */
  lemma PrintInjective(r: Record, q: Record)
    requires PrintableRecord(r) && PrintableRecord(q) && Print(r) == Print(q)
    ensures r.(raw := "") == q.(raw := "")
  {
    RoundTrip(r);
    RoundTrip(q);
  }
}
