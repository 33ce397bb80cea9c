/** What a GDB/MI output line says, as relations between text and records that know nothing of trees, positions or a
    cursor; and the theorem that parsing a line gives a record exactly when the line says it. */
module MIMeaning {
  import opened Basics
  import opened Text
  import opened MIRecords
  import opened MIGrammar
  import MIParserSpec
  import MILanguage
  import MIParser
  import Numerals

  // ----- what text says -----

  /** Inside quotes a backslash in front of n, r or t stands for the control character, in front of any other
      character for that character; everything else but a quote stands for itself. */
  predicate SaysText(w: string, text: string)
    decreases |w|
  {
    if w == "" then text == ""
    else if w[0] == '"' then false
    else if w[0] == '\\' then
      && |w| >= 2 && text != ""
      && text[0] == (if w[1] == 'n' then '\n' else if w[1] == 'r' then '\r' else if w[1] == 't' then '\t' else w[1])
      && SaysText(w[2..], text[1..])
    else
      text != "" && text[0] == w[0] && SaysText(w[1..], text[1..])
  }

  /** A letter or an underscore, and behind it also digits and hyphens. */
  predicate IsName(s: string) {
    && s != ""
    && ('a' <= s[0] <= 'z' || 'A' <= s[0] <= 'Z' || s[0] == '_')
    && forall k :: 0 <= k < |s| ==>
         'a' <= s[k] <= 'z' || 'A' <= s[k] <= 'Z' || '0' <= s[k] <= '9' || s[k] == '_' || s[k] == '-'
  }

  predicate Enclosed(w: string, open: char, close: char) {
    |w| >= 2 && w[0] == open && w[|w| - 1] == close
  }

  function Inner(w: string): string
    requires |w| >= 2
  {
    w[1..|w| - 1]
  }

  /** Text without quotes stands for itself, up to a comma or a closing bracket. */
  predicate IsBare(w: string) {
    && w != "" && w[0] != '"' && w[0] != '{' && w[0] != '['
    && forall k :: 0 <= k < |w| ==> w[k] != ',' && w[k] != ']' && w[k] != '}'
  }

  /** A string in quotes or bare, a dictionary in braces, a list in brackets. */
  ghost predicate Says(w: string, v: MIValue)
    decreases |w|, 1
  {
    match v
    case MIString(text) =>
      || (Enclosed(w, '"', '"') && SaysText(Inner(w), text))
      || (IsBare(w) && w == text)
    case MIDict(entries) =>
      Enclosed(w, '{', '}') && exists given: Dict :: SaysResults(Inner(w), given) && entries == Assigned(given, [])
    case MIList(items) => Enclosed(w, '[', ']') && SaysItems(Inner(w), items)
  }

  /** A name, an equals sign and a value. */
  ghost predicate SaysResult(w: string, e: Entry)
    decreases |w|, 2
  {
    && IsName(e.key) && |e.key| < |w| && w[..|e.key|] == e.key && w[|e.key|] == '='
    && Says(w[|e.key| + 1..], e.value)
  }

  /** The text is one part, or a part, a comma and a rest. */
  predicate SplitsAt(w: string, n: nat) {
    n <= |w| && (n < |w| ==> w[n] == ',')
  }

  function Behind(w: string, n: nat): string
    requires n <= |w|
  {
    if n < |w| then w[n + 1..] else ""
  }

  /** Results separated by commas; a last comma may have nothing behind it. */
  ghost predicate SaysResults(w: string, given: Dict)
    decreases |w|, 3
  {
    if given == [] then w == "" else
    exists n: nat :: SplitsAt(w, n) && SaysResult(w[..n], given[0]) && RestSays(w, n, given)
  }

  ghost predicate RestSays(w: string, n: nat, given: Dict)
    requires given != []
    decreases |w|, 2
  {
    if n < |w| then SaysResults(w[n + 1..], given[1..]) else |given| == 1
  }

  /** A list item: a result stands for a dictionary of its one entry, and nothing that begins like one is a value. */
  ghost predicate SaysItem(w: string, v: MIValue)
    decreases |w|, 3
  {
    || (v.MIDict? && |v.entries| == 1 && SaysResult(w, v.entries[0]))
    || (Says(w, v) && !BeginsLikeResult(w))
  }

  ghost predicate BeginsLikeResult(w: string) {
    exists n: nat :: n < |w| && IsName(w[..n]) && w[n] == '='
  }

  ghost predicate SaysItems(w: string, items: seq<MIValue>)
    decreases |w|, 5
  {
    if items == [] then w == "" else
    exists n: nat :: SplitsAt(w, n) && SaysItem(w[..n], items[0]) && RestSaysItems(w, n, items)
  }

  ghost predicate RestSaysItems(w: string, n: nat, items: seq<MIValue>)
    requires items != []
    decreases |w|, 4
  {
    if n < |w| then SaysItems(w[n + 1..], items[1..]) else |items| == 1
  }

  /** The assignments one after the other. */
  function Assigned(given: Dict, d: Dict): Dict
    decreases |given|
  {
    if given == [] then d else Assigned(given[1..], Put(d, given[0].key, given[0].value))
  }

  // ----- what the text of a tree says -----

  lemma NameIsIdentifier(s: string)
    ensures IsName(s) <==> IsIdentifier(s)
  {}

  lemma {:induction false} PiecesSay(ps: seq<Piece>)
    requires WfPieces(ps)
    ensures SaysText(PiecesText(ps), PiecesMeaning(ps))
  {
    if ps != [] {
      PiecesSay(ps[1..]);
      var w := PiecesText(ps);
      assert w[|PieceText(ps[0])|..] == PiecesText(ps[1..]);
      assert PiecesMeaning(ps)[1..] == PiecesMeaning(ps[1..]);
    }
  }

  /** The assignments of a result list. */
  function Given(rs: ResultList): Dict {
    match rs
    case NoResults => []
    case LastResult(k, v) => [Entry(k, TreeMeaning(v))]
    case MoreResults(k, v, rest) => [Entry(k, TreeMeaning(v))] + Given(rest)
  }

  lemma {:induction false} GivenAssigned(rs: ResultList, d: Dict)
    ensures ResultListMeaning(rs, d) == Assigned(Given(rs), d)
    decreases rs
  {
    match rs
    case NoResults =>
    case LastResult(k, v) =>
      assert Given(rs)[1..] == [];
    case MoreResults(k, v, rest) =>
      GivenAssigned(rest, Put(d, k, TreeMeaning(v)));
      assert Given(rs)[1..] == Given(rest);
  }

  lemma {:induction false} TreeSays(t: Tree)
    requires WfTree(t)
    ensures Says(TreeText(t), TreeMeaning(t))
    decreases t, 1
  {
    var w := TreeText(t);
    match t
    case Quoted(ps) =>
      PiecesSay(ps);
      assert Inner(w) == PiecesText(ps);
    case Bare(text) =>
    case Tuple(rs) =>
      ResultsSay(rs);
      GivenAssigned(rs, []);
      assert Inner(w) == ResultListText(rs);
    case List(items) =>
      ItemsSay(items);
      assert Inner(w) == ItemListText(items);
  }

  lemma {:induction false} ResultSays(key: string, v: Tree)
    requires IsIdentifier(key) && WfTree(v)
    ensures SaysResult(ResultText(key, v), Entry(key, TreeMeaning(v)))
    decreases v, 2
  {
    TreeSays(v);
    NameIsIdentifier(key);
    var w := ResultText(key, v);
    assert w[..|key|] == key && w[|key|] == '=' && w[|key| + 1..] == TreeText(v);
  }

  lemma {:induction false} ResultsSay(rs: ResultList)
    requires WfResultList(rs)
    ensures SaysResults(ResultListText(rs), Given(rs))
    decreases rs, 3
  {
    match rs
    case NoResults =>
    case LastResult(k, v) =>
      ResultSays(k, v);
      ResultsOne(ResultText(k, v), Given(rs));
    case MoreResults(k, v, rest) =>
      ResultSays(k, v);
      ResultsSay(rest);
      assert Given(rs)[1..] == Given(rest);
      ResultsMore(ResultText(k, v), ResultListText(rest), Given(rs));
  }

  lemma ResultsOne(w: string, given: Dict)
    requires |given| == 1 && SaysResult(w, given[0])
    ensures SaysResults(w, given)
  {
    assert w[..|w|] == w;
    assert SplitsAt(w, |w|) && SaysResult(w[..|w|], given[0]) && RestSays(w, |w|, given);
  }

  lemma ResultsMore(first: string, rest: string, given: Dict)
    requires given != [] && SaysResult(first, given[0]) && SaysResults(rest, given[1..])
    ensures SaysResults(first + ("," + rest), given)
  {
    var w, n := first + ("," + rest), |first|;
    assert w[..n] == first && w[n + 1..] == rest;
    assert SplitsAt(w, n) && SaysResult(w[..n], given[0]) && RestSays(w, n, given);
  }

  lemma LikeResult(w: string)
    ensures BeginsLikeResult(w) <==> LooksLikeResult(w)
  {
    if n: nat :| n < |w| && IsName(w[..n]) && w[n] == '=' { NameIsIdentifier(w[..n]); }
    if n :| 0 < n < |w| && IsIdentifier(w[..n]) && w[n] == '=' { NameIsIdentifier(w[..n]); }
  }

  /** Text in quotes or brackets does not begin like a result. */
  lemma NotLikeResult(w: string)
    requires w != "" && (w[0] == '"' || w[0] == '{' || w[0] == '[')
    ensures !BeginsLikeResult(w)
  {
    forall n: nat | 0 < n < |w| ensures !IsName(w[..n]) { assert w[..n][0] == w[0]; }
  }

  lemma {:induction false} ItemSays(item: Item)
    requires WfItem(item)
    ensures SaysItem(ItemText(item), ItemMeaning(item))
    decreases item, 3
  {
    match item
    case ResultItem(k, v) => ResultSays(k, v);
    case ValueItem(v) =>
      TreeSays(v);
      if v.Bare? { LikeResult(v.text); } else { NotLikeResult(TreeText(v)); }
  }

  lemma {:induction false} ItemsSay(items: ItemList)
    requires WfItemList(items)
    ensures SaysItems(ItemListText(items), ItemListMeaning(items))
    decreases items, 4
  {
    match items
    case NoItems =>
    case LastItem(item) =>
      ItemSays(item);
      ItemsOne(ItemText(item), ItemListMeaning(items));
    case MoreItems(item, rest) =>
      ItemSays(item);
      ItemsSay(rest);
      assert ItemListMeaning(items)[1..] == ItemListMeaning(rest);
      ItemsMore(ItemText(item), ItemListText(rest), ItemListMeaning(items));
  }

  lemma ItemsOne(w: string, items: seq<MIValue>)
    requires |items| == 1 && SaysItem(w, items[0])
    ensures SaysItems(w, items)
  {
    assert w[..|w|] == w;
    assert SplitsAt(w, |w|) && SaysItem(w[..|w|], items[0]) && RestSaysItems(w, |w|, items);
  }

  lemma ItemsMore(first: string, rest: string, items: seq<MIValue>)
    requires items != [] && SaysItem(first, items[0]) && SaysItems(rest, items[1..])
    ensures SaysItems(first + ("," + rest), items)
  {
    var w, n := first + ("," + rest), |first|;
    assert w[..n] == first && w[n + 1..] == rest;
    assert SplitsAt(w, n) && SaysItem(w[..n], items[0]) && RestSaysItems(w, n, items);
  }

  // ----- text that says something is the text of a tree that means it -----

  lemma {:induction false} TextPieces(w: string, text: string) returns (ps: seq<Piece>)
    requires SaysText(w, text)
    ensures WfPieces(ps) && PiecesText(ps) == w && PiecesMeaning(ps) == text
    decreases |w|
  {
    if w == "" {
      ps := [];
    } else {
      var p := if w[0] == '\\' then Escaped(w[1]) else Plain(w[0]);
      var rest := TextPieces(w[|PieceText(p)|..], text[1..]);
      ps := [p] + rest;
      assert ps[1..] == rest;
      assert w == PieceText(p) + w[|PieceText(p)|..] && text == [text[0]] + text[1..];
    }
  }

  lemma Rejoined(w: string)
    requires |w| >= 2
    ensures w == [w[0]] + Inner(w) + [w[|w| - 1]]
  {}

  lemma {:induction false} ValueTree(w: string, v: MIValue) returns (t: Tree)
    requires Says(w, v)
    ensures WfTree(t) && TreeText(t) == w && TreeMeaning(t) == v && (t.Bare? ==> IsBare(w))
    decreases |w|, 1
  {
    match v
    case MIString(text) =>
      if IsBare(w) && w == text {
        t := Bare(w);
      } else {
        var ps := TextPieces(Inner(w), text);
        Rejoined(w);
        t := Quoted(ps);
      }
    case MIDict(entries) =>
      var given: Dict :| SaysResults(Inner(w), given) && entries == Assigned(given, []);
      var rs := ResultsTree(Inner(w), given);
      GivenAssigned(rs, []);
      Rejoined(w);
      t := Tuple(rs);
    case MIList(items) =>
      var list := ItemsTree(Inner(w), items);
      Rejoined(w);
      t := List(list);
  }

  lemma {:induction false} ResultTree(w: string, e: Entry) returns (v: Tree)
    requires SaysResult(w, e)
    ensures IsIdentifier(e.key) && WfTree(v) && ResultText(e.key, v) == w && TreeMeaning(v) == e.value
    decreases |w|, 2
  {
    v := ValueTree(w[|e.key| + 1..], e.value);
    NameIsIdentifier(e.key);
    assert w == e.key + "=" + w[|e.key| + 1..];
  }

  lemma AtComma(w: string, n: nat)
    requires SplitsAt(w, n)
    ensures if n < |w| then w == w[..n] + ("," + w[n + 1..]) else w[..n] == w
  {}

  lemma FirstEntry(given: Dict)
    requires given != []
    ensures given == [Entry(given[0].key, given[0].value)] + given[1..]
    ensures |given| == 1 ==> given == [Entry(given[0].key, given[0].value)]
  {}

  lemma {:induction false} ResultsTree(w: string, given: Dict) returns (rs: ResultList)
    requires SaysResults(w, given)
    ensures WfResultList(rs) && ResultListText(rs) == w && Given(rs) == given
    decreases |w|, 3
  {
    if given == [] {
      rs := NoResults;
    } else {
      var n: nat :| SplitsAt(w, n) && SaysResult(w[..n], given[0]) && RestSays(w, n, given);
      AtComma(w, n);
      FirstEntry(given);
      hide SaysResult, IsIdentifier, WfTree, ResultText, TreeMeaning, SplitsAt;
      var v := ResultTree(w[..n], given[0]);
      if n < |w| {
        var rest := ResultsTree(w[n + 1..], given[1..]);
        rs := MoreResults(given[0].key, v, rest);
      } else {
        rs := LastResult(given[0].key, v);
      }
    }
  }

  lemma {:induction false} ItemTree(w: string, v: MIValue) returns (item: Item)
    requires SaysItem(w, v)
    ensures WfItem(item) && ItemText(item) == w && ItemMeaning(item) == v
    decreases |w|, 3
  {
    if v.MIDict? && |v.entries| == 1 && SaysResult(w, v.entries[0]) {
      var t := ResultTree(w, v.entries[0]);
      item := ResultItem(v.entries[0].key, t);
      assert v.entries == [v.entries[0]];
    } else {
      var t := ValueTree(w, v);
      LikeResult(w);
      item := ValueItem(t);
    }
  }

  lemma {:induction false} ItemsTree(w: string, items: seq<MIValue>) returns (list: ItemList)
    requires SaysItems(w, items)
    ensures WfItemList(list) && ItemListText(list) == w && ItemListMeaning(list) == items
    decreases |w|, 5
  {
    if items == [] {
      list := NoItems;
    } else {
      var n: nat :| SplitsAt(w, n) && SaysItem(w[..n], items[0]) && RestSaysItems(w, n, items);
      hide SaysItem, WfItem, ItemText, ItemMeaning;
      AtComma(w, n);
      hide SplitsAt;
      var item := ItemTree(w[..n], items[0]);
      if n < |w| {
        var rest := ItemsTree(w[n + 1..], items[1..]);
        list := MoreItems(item, rest);
        assert items == [items[0]] + items[1..];
      } else {
        list := LastItem(item);
        assert items == [items[0]];
      }
    }
  }

  // ----- lines -----

  /** Digits say a token, no digits say that there is none. */
  predicate SaysToken(w: string, token: Option<nat>) {
    && (forall k :: 0 <= k < |w| ==> '0' <= w[k] <= '9')
    && match token
       case None => w == ""
       case Some(n) => Numerals.Writes(10, w, n)
  }

  /** The class, and behind a comma the results. */
  ghost predicate SaysBody(w: string, recordClass: string, results: Dict) {
    && IsName(recordClass) && recordClass <= w
    && (|recordClass| == |w| ==> results == [])
    && (|recordClass| < |w| ==>
          && w[|recordClass|] == ','
          && exists given: Dict :: SaysResults(w[|recordClass| + 1..], given) && results == Assigned(given, []))
  }

  /** The part of a line from its marker on. */
  ghost predicate SaysMarked(w: string, r: Record) {
    && w != ""
    && match r
       case MIRecord(kind, recordClass, results, _, _) =>
         && (kind == ResultKind <==> w[0] == '^')
         && (kind == ExecAsync <==> w[0] == '*')
         && (kind == StatusAsync <==> w[0] == '+')
         && (kind == NotifyAsync <==> w[0] == '=')
         && w[0] in "^*+="
         && SaysBody(w[1..], recordClass, results)
       case MIStreamRecord(kind, text, _, _) =>
         && (kind == ConsoleStream <==> w[0] == '~')
         && (kind == TargetStream <==> w[0] == '@')
         && (kind == LogStream <==> w[0] == '&')
         && w[0] in "~@&"
         && Enclosed(w[1..], '"', '"') && SaysText(Inner(w[1..]), text)
  }

  /** A line says the prompt, or a token, a marker and what belongs to it. */
  ghost predicate LineSays(line: string, r: Record) {
    && r.raw == line
    && (|| (line == "(gdb)" && r == MIRecord(PromptKind, "prompt", [], line, None))
        || exists m: nat :: MarkedAt(line, m, r))
  }

  ghost predicate MarkedAt(line: string, m: nat, r: Record) {
    m <= |line| && SaysToken(line[..m], r.token) && SaysMarked(line[m..], r)
  }

  /** Reading the digits from the left and from the right gives the same number. */
  lemma {:induction false} DecimalExactly(s: string, n: nat)
    requires s != "" && AllDigits(s)
    ensures DecimalValue(s) == n <==> Numerals.Writes(10, s, n)
  {
    var last := |s| - 1;
    if last > 0 { DecimalExactly(s[..last], n / 10); } else { assert DecimalValue(s[..0]) == 0; }
    LastDigitIs(s[last], n % 10);
  }

  lemma LastDigitIs(c: char, d: nat)
    requires IsDigit(c) && d < 10
    ensures DigitValue(c) == d <==> Numerals.HexText.IsDigitOf(c, d)
  {}

  lemma TokenSays(w: string, token: Option<nat>)
    ensures SaysToken(w, token) <==> AllDigits(w) && TokenMeaning(w) == token
  {
    if w != "" && AllDigits(w) && token.Some? { DecimalExactly(w, token.value); }
    if token.Some? && w == "" { assert !Numerals.Writes(10, w, token.value); }
  }

  lemma BodySays(cls: string, results: Option<ResultList>)
    requires IsIdentifier(cls) && (results.Some? ==> WfResultList(results.value))
    ensures SaysBody(RecordBodyText(cls, results), cls,
      if results.Some? then ResultListMeaning(results.value, []) else [])
  {
    NameIsIdentifier(cls);
    var w := RecordBodyText(cls, results);
    if results.Some? {
      ResultsSay(results.value);
      GivenAssigned(results.value, []);
      assert w[|cls| + 1..] == ResultListText(results.value);
    }
  }

  lemma PromptTree()
    ensures WfLine(PromptLine) && LineText(PromptLine) == "(gdb)"
    ensures LineMeaning(PromptLine, "(gdb)") == MIRecord(PromptKind, "prompt", [], "(gdb)", None)
  {}

  lemma RecordLineSays(token: string, marker: char, cls: string, results: Option<ResultList>)
    requires WfLine(RecordLine(token, marker, cls, results))
    ensures var t := RecordLine(token, marker, cls, results);
      MarkedAt(LineText(t), |token|, LineMeaning(t, LineText(t)))
  {
    hide SaysBody, RecordBodyText, IsIdentifier, WfResultList, ResultListMeaning;
    var line := LineText(RecordLine(token, marker, cls, results));
    var r := LineMeaning(RecordLine(token, marker, cls, results), line);
    TokenSays(token, r.token);
    hide SaysToken, TokenMeaning;
    BodySays(cls, results);
    assert line[..|token|] == token && line[|token|..] == [marker] + RecordBodyText(cls, results);
    assert line[|token|..][1..] == RecordBodyText(cls, results);
  }

  lemma StreamLineSays(token: string, marker: char, ps: seq<Piece>)
    requires WfLine(StreamLine(token, marker, ps))
    ensures var t := StreamLine(token, marker, ps); MarkedAt(LineText(t), |token|, LineMeaning(t, LineText(t)))
  {
    hide PiecesText, PiecesMeaning, SaysText;
    var line := LineText(StreamLine(token, marker, ps));
    var r := LineMeaning(StreamLine(token, marker, ps), line);
    TokenSays(token, r.token);
    hide SaysToken, TokenMeaning;
    PiecesSay(ps);
    assert line[..|token|] == token && line[|token|..] == [marker] + TreeText(Quoted(ps));
    assert line[|token|..][1..] == TreeText(Quoted(ps)) && Inner(TreeText(Quoted(ps))) == PiecesText(ps);
  }

  /** The text of a line tree says what the tree means. */
  lemma LineTreeSays(t: LineTree)
    requires WfLine(t)
    ensures LineSays(LineText(t), LineMeaning(t, LineText(t)))
  {
    hide MarkedAt, WfLine;
    match t
    case PromptLine => PromptTree();
    case RecordLine(token, marker, cls, results) => RecordLineSays(token, marker, cls, results);
    case StreamLine(token, marker, ps) => StreamLineSays(token, marker, ps);
  }

  lemma BodyTree(w: string, cls: string, results: Dict) returns (list: Option<ResultList>)
    requires SaysBody(w, cls, results)
    ensures IsIdentifier(cls) && (list.Some? ==> WfResultList(list.value)) && RecordBodyText(cls, list) == w
    ensures results == if list.Some? then ResultListMeaning(list.value, []) else []
  {
    NameIsIdentifier(cls);
    if |cls| == |w| {
      list := None;
    } else {
      var given: Dict :| SaysResults(w[|cls| + 1..], given) && results == Assigned(given, []);
      var rs := ResultsTree(w[|cls| + 1..], given);
      GivenAssigned(rs, []);
      list := Some(rs);
      assert w == cls + ("," + w[|cls| + 1..]);
    }
  }

  lemma RecordTree(token: string, w: string, r: Record) returns (t: LineTree)
    requires SaysToken(token, r.token) && SaysMarked(w, r) && r.MIRecord? && r.raw == token + w
    ensures WfLine(t) && LineText(t) == token + w && LineMeaning(t, token + w) == r
  {
    TokenSays(token, r.token);
    hide SaysToken, SaysBody, TokenMeaning, IsIdentifier;
    var list := BodyTree(w[1..], r.recordClass, r.results);
    t := RecordLine(token, w[0], r.recordClass, list);
    assert w == [w[0]] + w[1..];
    assert RecordKindOf(w[0]) == r.kind;
  }

  lemma StreamTree(token: string, w: string, r: Record) returns (t: LineTree)
    requires SaysToken(token, r.token) && SaysMarked(w, r) && r.MIStreamRecord? && r.raw == token + w
    ensures WfLine(t) && LineText(t) == token + w && LineMeaning(t, token + w) == r
  {
    TokenSays(token, r.token);
    hide SaysToken, SaysText, TokenMeaning, PiecesText, WfPieces;
    var ps := TextPieces(Inner(w[1..]), r.text);
    Rejoined(w[1..]);
    t := StreamLine(token, w[0], ps);
    assert w == [w[0]] + w[1..];
    assert StreamKindOf(w[0]) == r.kind;
  }

  /** A line that says a record is the text of a tree that means it. */
  lemma LineTreeOf(line: string, r: Record) returns (t: LineTree)
    requires LineSays(line, r)
    ensures WfLine(t) && LineText(t) == line && LineMeaning(t, line) == r
  {
    hide SaysToken, SaysMarked, WfLine, LineText, LineMeaning;
    if line == "(gdb)" && r == MIRecord(PromptKind, "prompt", [], line, None) {
      t := PromptLine;
      PromptTree();
    } else {
      var m: nat :| MarkedAt(line, m, r);
      assert line == line[..m] + line[m..];
      if r.MIRecord? { t := RecordTree(line[..m], line[m..], r); } else { t := StreamTree(line[..m], line[m..], r); }
    }
  }

  /** Parsing a line gives a record if and only if the line, without line ends, says it. */
  lemma ParsesExactly(line: string, r: Record)
    ensures MIParser.RecordOf(line) == Success(r) <==> LineSays(MIParser.RStrip(line), r)
  {
    var s := MIParser.RStrip(line);
    if MIParser.RecordOf(line) == Success(r) {
      MILanguage.LineSound(s);
      LineTreeSays(MIParserSpec.ParseTree(s).value);
    } else if LineSays(s, r) {
      var t := LineTreeOf(s, r);
      MILanguage.LineComplete(t);
    }
  }
}
