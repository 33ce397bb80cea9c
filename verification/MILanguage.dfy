/** The parser accepts exactly the lines of the grammar, and a line has exactly one tree.
    Soundness: what is parsed is a well-formed tree whose text stands at the position parsed from.
    Completeness: wherever the text of a well-formed tree stands, that tree is what is parsed. */
module MILanguage {
  import opened Basics
  import opened Text
  import opened MIGrammar
  import opened MIParserSpec

  /** Result `r` of parsing at `i` is tree text `w` ending exactly where parsing stopped. */
  ghost predicate Spans<T>(r: Parsed<T>, s: string, i: nat, w: string)
    requires r.Parsed?
  {
    Occurs(s, i, w) && r.next == i + |w|
  }

  lemma EmptyOccurs(s: string, i: nat)
    requires i <= |s|
    ensures Occurs(s, i, "")
  {}

  /** Behind a value comes a delimiter or the end of the line. */
  predicate ValueEndsAt(s: string, j: nat) {
    j == |s| || (j < |s| && IsDelimiter(s[j]))
  }

  // ----- where the text of a compound stands, its parts stand -----

  lemma Bracketed(s: string, i: nat, open: char, w: string, close: char)
    ensures Occurs(s, i, [open] + w + [close])
      <==> At(s, i, open) && Occurs(s, i + 1, w) && At(s, i + 1 + |w|, close)
  {
    OccursSplit(s, i, [open] + w, [close]);
    OccursSplit(s, i, [open], w);
    OccursChar(s, i, open);
    OccursChar(s, i + 1 + |w|, close);
  }

  lemma QuotedOccurs(s: string, i: nat, ps: seq<Piece>)
    ensures Occurs(s, i, TreeText(Quoted(ps))) <==> At(s, i, '"') && Occurs(s, i + 1, PiecesText(ps) + "\"")
    ensures |TreeText(Quoted(ps))| == |PiecesText(ps)| + 2
  {
    Bracketed(s, i, '"', PiecesText(ps), '"');
    OccursSplit(s, i + 1, PiecesText(ps), "\"");
  }

  lemma TupleOccurs(s: string, i: nat, rs: ResultList)
    ensures Occurs(s, i, TreeText(Tuple(rs)))
      <==> At(s, i, '{') && Occurs(s, i + 1, ResultListText(rs)) && At(s, i + 1 + |ResultListText(rs)|, '}')
    ensures |TreeText(Tuple(rs))| == |ResultListText(rs)| + 2
  {
    Bracketed(s, i, '{', ResultListText(rs), '}');
  }

  lemma ListOccurs(s: string, i: nat, items: ItemList)
    ensures Occurs(s, i, TreeText(List(items)))
      <==> At(s, i, '[') && Occurs(s, i + 1, ItemListText(items)) && At(s, i + 1 + |ItemListText(items)|, ']')
    ensures |TreeText(List(items))| == |ItemListText(items)| + 2
  {
    Bracketed(s, i, '[', ItemListText(items), ']');
  }

  lemma ResultOccurs(s: string, i: nat, key: string, v: Tree)
    ensures Occurs(s, i, ResultText(key, v))
      <==> Occurs(s, i, key) && At(s, i + |key|, '=') && Occurs(s, i + |key| + 1, TreeText(v))
    ensures |ResultText(key, v)| == |key| + 1 + |TreeText(v)|
  {
    OccursSplit(s, i, key + "=", TreeText(v));
    OccursSplit(s, i, key, "=");
    OccursChar(s, i + |key|, '=');
  }

  lemma WithTail(s: string, i: nat, w: string, rest: string)
    ensures Occurs(s, i, w + ("," + rest))
      <==> Occurs(s, i, w) && At(s, i + |w|, ',') && Occurs(s, i + |w| + 1, rest)
  {
    OccursSplit(s, i, w, "," + rest);
    OccursSplit(s, i + |w|, ",", rest);
    OccursChar(s, i + |w|, ',');
  }

  lemma MoreResultsOccurs(s: string, i: nat, key: string, v: Tree, rest: ResultList)
    ensures var w := ResultText(key, v); var rs := MoreResults(key, v, rest);
      && |ResultListText(rs)| == |w| + 1 + |ResultListText(rest)|
      && (Occurs(s, i, ResultListText(rs))
          <==> Occurs(s, i, w) && At(s, i + |w|, ',') && Occurs(s, i + |w| + 1, ResultListText(rest)))
  {
    WithTail(s, i, ResultText(key, v), ResultListText(rest));
  }

  lemma MoreItemsOccurs(s: string, i: nat, item: Item, rest: ItemList)
    ensures var w := ItemText(item); var items := MoreItems(item, rest);
      && |ItemListText(items)| == |w| + 1 + |ItemListText(rest)|
      && (Occurs(s, i, ItemListText(items))
          <==> Occurs(s, i, w) && At(s, i + |w|, ',') && Occurs(s, i + |w| + 1, ItemListText(rest)))
  {
    WithTail(s, i, ItemText(item), ItemListText(rest));
  }

  // ----- soundness -----

  lemma {:induction false} PiecesSound(s: string, i: nat)
    requires i <= |s| && ParsePieces(s, i).Parsed?
    ensures var r := ParsePieces(s, i);
      WfPieces(r.value) && Spans(r, s, i, PiecesText(r.value) + "\"")
    decreases |s| - i
  {
    var r := ParsePieces(s, i);
    if s[i] != '"' {
      var p := if s[i] != '\\' then Plain(s[i]) else Escaped(s[i + 1]);
      var j := i + |PieceText(p)|;
      PiecesSound(s, j);
      var ps := ParsePieces(s, j).value;
      assert r.value == [p] + ps && r.value[1..] == ps;
      assert Occurs(s, i, PieceText(p));
      OccursSplit(s, i, PieceText(p), PiecesText(ps) + "\"");
      assert PieceText(p) + (PiecesText(ps) + "\"") == PiecesText(r.value) + "\"";
    }
  }

  lemma IdentifierSound(s: string, i: nat)
    requires i <= |s| && ParseIdentifier(s, i).Parsed?
    ensures var r := ParseIdentifier(s, i);
      IsIdentifier(r.value) && Spans(r, s, i, r.value)
  {}

  /** The end of an identifier is the one place where its characters stop. */
  lemma IdentifierEndIs(s: string, i: nat, j: nat)
    requires i <= j <= |s|
    requires forall k :: i <= k < j ==> IsIdentifierPart(s[k])
    requires j < |s| ==> !IsIdentifierPart(s[j])
    ensures IdentifierEnd(s, i) == j
  {}

  lemma BareEndIs(s: string, i: nat, j: nat)
    requires i <= j <= |s|
    requires forall k :: i <= k < j ==> !IsDelimiter(s[k])
    requires j < |s| ==> IsDelimiter(s[j])
    ensures BareEnd(s, i) == j
  {}

  lemma {:induction false} ValueSound(s: string, i: nat)
    requires i <= |s| && ParseValue(s, i).Parsed?
    ensures var r := ParseValue(s, i);
      WfTree(r.value) && Spans(r, s, i, TreeText(r.value)) && (r.value.Bare? ==> ValueEndsAt(s, r.next))
    decreases |s| - i, 1
  {
    hide ParsePieces, ParseResults, ParseItems, PiecesText, ResultListText, ItemListText;
    hide WfPieces, WfResultList, WfItemList;
    var r := ParseValue(s, i);
    if At(s, i, '"') {
      PiecesSound(s, i + 1);
      QuotedOccurs(s, i, r.value.pieces);
    } else if At(s, i, '{') {
      ResultsSound(s, i + 1, true);
      TupleOccurs(s, i, r.value.results);
    } else if At(s, i, '[') {
      ItemsSound(s, i + 1);
      ListOccurs(s, i, r.value.items);
    } else {
      BareSound(s, i);
    }
  }

  lemma BareSound(s: string, i: nat)
    requires i <= |s| && ParseBare(s, i).Parsed? && !At(s, i, '"') && !At(s, i, '{') && !At(s, i, '[')
    ensures var r := ParseBare(s, i);
      r.value.Bare? && WfBare(r.value.text) && Spans(r, s, i, r.value.text) && ValueEndsAt(s, r.next)
  {}

  lemma {:induction false} ResultSound(s: string, i: nat)
    requires i <= |s| && ParseResult(s, i).Parsed?
    ensures var r := ParseResult(s, i);
      IsIdentifier(r.value.0) && WfTree(r.value.1) && Spans(r, s, i, ResultText(r.value.0, r.value.1))
    decreases |s| - i, 2
  {
    IdentifierSound(s, i);
    var j := ParseIdentifier(s, i).next;
    ValueSound(s, j + 1);
    var r := ParseResult(s, i);
    ResultOccurs(s, i, r.value.0, r.value.1);
  }

  lemma {:induction false} ResultsSound(s: string, i: nat, inTuple: bool)
    requires i <= |s| && ParseResults(s, i, inTuple).Parsed?
    ensures var r := ParseResults(s, i, inTuple);
      WfResultList(r.value) && Spans(r, s, i, ResultListText(r.value))
    decreases |s| - i, 4
  {
    hide ResultText, Occurs, ParseResult, IsIdentifier;
    EmptyOccurs(s, i);
    if !(i == |s| || (inTuple && s[i] == '}')) {
      ResultSound(s, i);
      var first := ParseResult(s, i);
      var k, v, j := first.value.0, first.value.1, first.next;
      if At(s, j, ',') {
        ResultsSound(s, j + 1, inTuple);
        MoreResultsOccurs(s, i, k, v, ParseResults(s, j + 1, inTuple).value);
      }
    }
  }

  /** The lookahead over a bare value stays inside it, so it sees a result exactly when the text begins like one. */
  lemma BareLookahead(s: string, i: nat, text: string)
    requires WfBare(text) && Occurs(s, i, text) && ValueEndsAt(s, i + |text|)
    ensures NextIsResult(s, i) <==> LooksLikeResult(text)
  {
    if LooksLikeResult(text) {
      var n :| 0 < n < |text| && IsIdentifier(text[..n]) && text[n] == '=';
      forall k | i + 1 <= k < i + n ensures IsIdentifierPart(s[k]) {
        assert s[i + (k - i)] == text[k - i] == text[..n][k - i];
      }
      IdentifierEndIs(s, i + 1, i + n);
      assert s[i + 0] == text[..n][0];
      assert s[i + n] == text[n];
    }
    if NextIsResult(s, i) {
      var n := IdentifierEnd(s, i + 1) - i;
      assert forall k :: i <= k <= i + n ==> !IsDelimiter(s[k]);
      assert n < |text|;
      assert forall k :: 0 <= k < n ==> text[..n][k] == s[i + k];
      assert IsIdentifier(text[..n]) && s[i + n] == text[n] == '=';
    }
  }

  lemma {:induction false} ItemSound(s: string, i: nat)
    requires i <= |s| && ParseItem(s, i).Parsed?
    ensures var r := ParseItem(s, i);
      WfItem(r.value) && Spans(r, s, i, ItemText(r.value))
    decreases |s| - i, 3
  {
    if NextIsResult(s, i) {
      ResultSound(s, i);
    } else {
      ValueSound(s, i);
      var r := ParseValue(s, i);
      if r.value.Bare? { BareLookahead(s, i, r.value.text); }
    }
  }

  lemma {:induction false} ItemsSound(s: string, i: nat)
    requires i <= |s| && ParseItems(s, i).Parsed?
    ensures var r := ParseItems(s, i);
      WfItemList(r.value) && Spans(r, s, i, ItemListText(r.value))
    decreases |s| - i, 4
  {
    hide ParseItem, WfItem, ItemText;
    if !(i == |s| || s[i] == ']') {
      ItemSound(s, i);
      var Parsed(item, j) := ParseItem(s, i);
      if At(s, j, ',') {
        ItemsSound(s, j + 1);
        MoreItemsOccurs(s, i, item, ParseItems(s, j + 1).value);
      }
    }
  }

  // ----- completeness -----

  lemma {:induction false} PiecesComplete(s: string, i: nat, ps: seq<Piece>)
    requires WfPieces(ps) && Occurs(s, i, PiecesText(ps) + "\"")
    ensures ParsePieces(s, i) == Parsed(ps, i + |PiecesText(ps)| + 1)
    decreases |ps|
  {
    if ps == [] {
      assert PiecesText(ps) + "\"" == "\"";
      OccursChar(s, i, '"');
    } else {
      var w := PieceText(ps[0]);
      assert PiecesText(ps) + "\"" == w + (PiecesText(ps[1..]) + "\"");
      OccursSplit(s, i, w, PiecesText(ps[1..]) + "\"");
      PiecesComplete(s, i + |w|, ps[1..]);
      assert w[0] == s[i + 0];
      assert ps[0].Escaped? ==> w[1] == s[i + 1];
      assert [ps[0]] + ps[1..] == ps;
    }
  }

  lemma IdentifierComplete(s: string, i: nat, key: string)
    requires IsIdentifier(key) && Occurs(s, i, key)
    requires i + |key| == |s| || !IsIdentifierPart(s[i + |key|])
    ensures ParseIdentifier(s, i) == Parsed(key, i + |key|)
    ensures IdentifierEnd(s, i + 1) == i + |key| && IsIdentifierStart(s[i])
  {
    OccursSlice(s, i, key);
    assert key[0] == s[i + 0];
    forall k | i + 1 <= k < i + |key| ensures IsIdentifierPart(s[k]) { assert key[k - i] == s[i + (k - i)]; }
    IdentifierEndIs(s, i + 1, i + |key|);
  }

  lemma BareComplete(s: string, i: nat, text: string)
    requires WfBare(text) && Occurs(s, i, text) && ValueEndsAt(s, i + |text|)
    ensures ParseValue(s, i) == Parsed(Bare(text), i + |text|)
  {
    OccursSlice(s, i, text);
    assert text[0] == s[i + 0];
    forall k | i <= k < i + |text| ensures !IsDelimiter(s[k]) { assert text[k - i] == s[i + (k - i)]; }
    BareEndIs(s, i, i + |text|);
  }

  /** Every value has a first character, and it is no delimiter. */
  lemma ValueStarts(t: Tree)
    requires WfTree(t)
    ensures |TreeText(t)| > 0 && !IsDelimiter(TreeText(t)[0])
    ensures !t.Bare? ==> !IsIdentifierStart(TreeText(t)[0])
  {}

  lemma {:induction false} ValueComplete(s: string, i: nat, t: Tree)
    requires WfTree(t) && Occurs(s, i, TreeText(t)) && ValueEndsAt(s, i + |TreeText(t)|)
    ensures ParseValue(s, i) == Parsed(t, i + |TreeText(t)|)
    decreases t, 1
  {
    match t {
      case Bare(text) => BareComplete(s, i, text);
      case Quoted(ps) =>
        QuotedOccurs(s, i, ps);
        PiecesComplete(s, i + 1, ps);
      case Tuple(rs) =>
        TupleOccurs(s, i, rs);
        ResultsComplete(s, i + 1, rs, true);
      case List(items) =>
        ListOccurs(s, i, items);
        ItemsComplete(s, i + 1, items);
    }
  }

  lemma {:induction false} ResultComplete(s: string, i: nat, key: string, v: Tree)
    requires IsIdentifier(key) && WfTree(v) && Occurs(s, i, ResultText(key, v))
    requires ValueEndsAt(s, i + |ResultText(key, v)|)
    ensures ParseResult(s, i) == Parsed((key, v), i + |ResultText(key, v)|)
    ensures NextIsResult(s, i) && !IsDelimiter(s[i])
    decreases v, 2
  {
    ResultOccurs(s, i, key, v);
    IdentifierComplete(s, i, key);
    ValueComplete(s, i + |key| + 1, v);
  }

  lemma {:induction false} ResultsComplete(s: string, i: nat, rs: ResultList, inTuple: bool)
    requires WfResultList(rs) && Occurs(s, i, ResultListText(rs))
    requires var j := i + |ResultListText(rs)|; if inTuple then At(s, j, '}') else j == |s|
    ensures ParseResults(s, i, inTuple) == Parsed(rs, i + |ResultListText(rs)|)
    decreases rs
  {
    hide ParseResult, ResultText, IsIdentifier, WfTree, NextIsResult;
    match rs {
      case NoResults =>
      case LastResult(k, v) => ResultComplete(s, i, k, v);
      case MoreResults(k, v, rest) =>
        MoreResultsOccurs(s, i, k, v, rest);
        ResultComplete(s, i, k, v);
        ResultsComplete(s, i + |ResultText(k, v)| + 1, rest, inTuple);
    }
  }

  lemma {:induction false} ItemComplete(s: string, i: nat, item: Item)
    requires WfItem(item) && Occurs(s, i, ItemText(item)) && ValueEndsAt(s, i + |ItemText(item)|)
    ensures ParseItem(s, i) == Parsed(item, i + |ItemText(item)|)
    ensures i < |s| && s[i] != ']'
    decreases item
  {
    match item {
      case ResultItem(k, v) => ResultComplete(s, i, k, v);
      case ValueItem(v) =>
        ValueComplete(s, i, v);
        ValueStarts(v);
        assert TreeText(v)[0] == s[i + 0];
        if v.Bare? { BareLookahead(s, i, v.text); }
    }
  }

  lemma {:induction false} ItemsComplete(s: string, i: nat, items: ItemList)
    requires WfItemList(items) && Occurs(s, i, ItemListText(items)) && At(s, i + |ItemListText(items)|, ']')
    ensures ParseItems(s, i) == Parsed(items, i + |ItemListText(items)|)
    decreases items
  {
    match items {
      case NoItems =>
      case LastItem(item) => ItemComplete(s, i, item);
      case MoreItems(item, rest) =>
        MoreItemsOccurs(s, i, item, rest);
        ItemComplete(s, i, item);
        ItemsComplete(s, i + |ItemText(item)| + 1, rest);
    }
  }

  // ----- whole lines -----

  lemma DigitsEndIs(s: string, j: nat)
    requires j <= |s| && AllDigits(s[..j]) && (j < |s| ==> !IsDigit(s[j]))
    ensures DigitsEnd(s, 0) == j
  {
    assert forall k :: 0 <= k < j ==> s[..j][k] == s[k];
  }

  /** Token, marker and body of a line stand where the parser looks for them. */
  lemma MarkerPosition(s: string, token: string, marker: char, body: string)
    requires s == token + ([marker] + body) && AllDigits(token)
    requires IsRecordMarker(marker) || IsStreamMarker(marker)
    ensures DigitsEnd(s, 0) == |token| && s[..|token|] == token && s[|token|] == marker && s != PROMPT
    ensures Occurs(s, |token| + 1, body) && |token| + 1 + |body| == |s|
  {
    assert s[..|token|] == token && s[|token|] == marker && s[|token| + 1..] == body;
    DigitsEndIs(s, |token|);
    assert s[0] == if token == "" then marker else token[0];
    assert PROMPT[0] == '(';
  }

  lemma MarkerSplits(s: string, token: string, m: nat, body: string)
    requires m < |s| && token == s[..m] && Occurs(s, m + 1, body) && m + 1 + |body| == |s|
    ensures token + ([s[m]] + body) == s
  {}

  lemma RecordLineFits(s: string, m: nat, cls: string, results: Option<ResultList>)
    requires m < |s| && IsRecordMarker(s[m])
    requires Occurs(s, m + 1, RecordBodyText(cls, results)) && m + 1 + |RecordBodyText(cls, results)| == |s|
    ensures LineText(RecordLine(s[..m], s[m], cls, results)) == s
  {
    MarkerSplits(s, s[..m], m, RecordBodyText(cls, results));
  }

  lemma RecordBodySound(s: string, m: nat, token: string)
    requires m < |s| && token == s[..m] && AllDigits(token) && IsRecordMarker(s[m])
    requires ParseRecordBody(s, m + 1, token).Parsed?
    ensures var r := ParseRecordBody(s, m + 1, token);
      WfLine(r.value) && LineText(r.value) == s && r.next == |s|
  {
    hide ParseIdentifier, ParseResults, IsIdentifier, Occurs, ResultListText, LineText;
    IdentifierSound(s, m + 1);
    var Parsed(cls, j) := ParseIdentifier(s, m + 1);
    if At(s, j, ',') {
      ResultsSound(s, j + 1, false);
      var rs := ParseResults(s, j + 1, false).value;
      WithTail(s, m + 1, cls, ResultListText(rs));
      RecordLineFits(s, m, cls, Some(rs));
    } else {
      RecordLineFits(s, m, cls, None);
    }
  }

  lemma StreamBodySound(s: string, m: nat, token: string)
    requires m < |s| && token == s[..m] && AllDigits(token) && IsStreamMarker(s[m])
    requires ParseStreamBody(s, m + 1, token).Parsed?
    ensures var r := ParseStreamBody(s, m + 1, token);
      WfLine(r.value) && LineText(r.value) == s && r.next == |s|
  {
    PiecesSound(s, m + 2);
    var ps := ParsePieces(s, m + 2).value;
    QuotedOccurs(s, m + 1, ps);
    MarkerSplits(s, token, m, TreeText(Quoted(ps)));
  }

  /** What is accepted is a line of the grammar. */
  lemma LineSound(s: string)
    requires ParseTree(s).Parsed?
    ensures WfLine(ParseTree(s).value) && LineText(ParseTree(s).value) == s && ParseTree(s).next == |s|
  {
    if s == PROMPT {
      PromptComplete();
    } else {
      hide ParseRecordBody, ParseStreamBody, WfLine, LineText;
      var m := DigitsEnd(s, 0);
      if IsRecordMarker(s[m]) { RecordBodySound(s, m, s[..m]); } else { StreamBodySound(s, m, s[..m]); }
    }
  }

  lemma RecordBodyComplete(s: string, i: nat, token: string, cls: string, results: Option<ResultList>)
    requires 0 < i <= |s| && AllDigits(token) && IsRecordMarker(s[i - 1])
    requires IsIdentifier(cls) && (results.Some? ==> WfResultList(results.value))
    requires Occurs(s, i, RecordBodyText(cls, results)) && i + |RecordBodyText(cls, results)| == |s|
    ensures ParseRecordBody(s, i, token) == Parsed(RecordLine(token, s[i - 1], cls, results), |s|)
  {
    hide IsIdentifier, ResultListText, WfResultList, ParseResults, ParseIdentifier, Occurs;
    match results
    case None =>
      IdentifierComplete(s, i, cls);
    case Some(rs) =>
      WithTail(s, i, cls, ResultListText(rs));
      IdentifierComplete(s, i, cls);
      ResultsComplete(s, i + |cls| + 1, rs, false);
  }

  lemma RecordLineComplete(token: string, marker: char, cls: string, results: Option<ResultList>)
    requires WfLine(RecordLine(token, marker, cls, results))
    ensures var t := RecordLine(token, marker, cls, results); ParseTree(LineText(t)) == Parsed(t, |LineText(t)|)
  {
    hide RecordBodyText, Occurs, IsIdentifier, WfResultList, ParseRecordBody, ParseStreamBody, DigitsEnd;
    var s := LineText(RecordLine(token, marker, cls, results));
    MarkerPosition(s, token, marker, RecordBodyText(cls, results));
    RecordBodyComplete(s, |token| + 1, token, cls, results);
  }

  lemma StreamBodyComplete(s: string, i: nat, token: string, ps: seq<Piece>)
    requires 0 < i <= |s| && AllDigits(token) && IsStreamMarker(s[i - 1]) && WfPieces(ps)
    requires Occurs(s, i, TreeText(Quoted(ps))) && i + |TreeText(Quoted(ps))| == |s|
    ensures ParseStreamBody(s, i, token) == Parsed(StreamLine(token, s[i - 1], ps), |s|)
  {
    hide TreeText, PiecesText, Occurs, ParsePieces, WfPieces;
    QuotedOccurs(s, i, ps);
    PiecesComplete(s, i + 1, ps);
  }

  lemma StreamLineComplete(token: string, marker: char, ps: seq<Piece>)
    requires WfLine(StreamLine(token, marker, ps))
    ensures var t := StreamLine(token, marker, ps); ParseTree(LineText(t)) == Parsed(t, |LineText(t)|)
  {
    hide TreeText, Occurs, WfPieces, ParseRecordBody, ParseStreamBody, DigitsEnd;
    var s := LineText(StreamLine(token, marker, ps));
    MarkerPosition(s, token, marker, TreeText(Quoted(ps)));
    StreamBodyComplete(s, |token| + 1, token, ps);
  }

  /** Every line of the grammar is accepted, with its own tree. */
  lemma LineComplete(t: LineTree)
    requires WfLine(t)
    ensures ParseTree(LineText(t)) == Parsed(t, |LineText(t)|)
  {
    hide LineText, WfLine, ParseTree;
    match t {
      case PromptLine => PromptComplete();
      case RecordLine(token, marker, cls, results) => RecordLineComplete(token, marker, cls, results);
      case StreamLine(token, marker, ps) => StreamLineComplete(token, marker, ps);
    }
  }

  lemma PromptComplete()
    ensures ParseTree(LineText(PromptLine)) == Parsed(PromptLine, |LineText(PromptLine)|)
    ensures WfLine(PromptLine) && LineText(PromptLine) == PROMPT
  {}

  /** The exact language: a line is accepted if and only if it is the text of a well-formed tree, and the
      tree the parser finds is the only such tree. */
  lemma ExactLanguage(s: string)
    ensures ParseTree(s).Parsed? <==> exists t :: WfLine(t) && LineText(t) == s
    ensures forall t :: WfLine(t) && LineText(t) == s ==> ParseTree(s) == Parsed(t, |s|)
  {
    if ParseTree(s).Parsed? { LineSound(s); }
    forall t | WfLine(t) && LineText(t) == s ensures ParseTree(s) == Parsed(t, |s|) { LineComplete(t); }
  }

  /** The grammar is unambiguous: two different trees never have the same text. */
  lemma Unambiguous(t: LineTree, u: LineTree)
    requires WfLine(t) && WfLine(u) && LineText(t) == LineText(u)
    ensures t == u
  {
    LineComplete(t);
    LineComplete(u);
  }
}
