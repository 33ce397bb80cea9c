/** The parser of mi/parser.py: a cursor that only moves forward over one line. Every method is proved equal to
    the functions of MIParserSpec, on the value it returns, the error it raises, and where it leaves the cursor. */
module MIParser {
  import opened Basics
  import opened Text
  import opened MIRecords
  import opened MIGrammar
  import opened MIParserSpec
  import MILanguage

  /** Where the cursor stands afterwards: behind what was parsed, or at the reported error. */
  ghost function EndOf<T>(p: Parsed<T>): nat {
    match p
    case Parsed(_, next) => next
    case Rejected(error) => error.position
  }

  ghost function StringOutcome(p: Parsed<seq<Piece>>): Result<string, ParseError> {
    match p
    case Parsed(ps, _) => Success(PiecesMeaning(ps))
    case Rejected(error) => Failure(error)
  }

  /** The string a partly read c-string ends in, with `read` characters already collected. */
  ghost function PiecesOutcome(p: Parsed<seq<Piece>>, read: string): Result<string, ParseError> {
    match p
    case Parsed(ps, _) => Success(read + PiecesMeaning(ps))
    case Rejected(error) => Failure(error)
  }

  ghost function ValueOutcome(p: Parsed<Tree>): Result<MIValue, ParseError> {
    match p
    case Parsed(t, _) => Success(TreeMeaning(t))
    case Rejected(error) => Failure(error)
  }

  ghost function ItemOutcome(p: Parsed<Item>): Result<MIValue, ParseError> {
    match p
    case Parsed(item, _) => Success(ItemMeaning(item))
    case Rejected(error) => Failure(error)
  }

  ghost function PairOutcome(p: Parsed<(string, Tree)>): Result<(string, MIValue), ParseError> {
    match p
    case Parsed((k, v), _) => Success((k, TreeMeaning(v)))
    case Rejected(error) => Failure(error)
  }

  ghost function ResultsOutcome(p: Parsed<ResultList>, read: Dict): Result<Dict, ParseError> {
    match p
    case Parsed(rs, _) => Success(ResultListMeaning(rs, read))
    case Rejected(error) => Failure(error)
  }

  ghost function ListOutcome(p: Parsed<ItemList>): Result<seq<MIValue>, ParseError> {
    match p
    case Parsed(items, _) => Success(ItemListMeaning(items))
    case Rejected(error) => Failure(error)
  }

  ghost function ItemsOutcome(p: Parsed<ItemList>, read: seq<MIValue>): Result<seq<MIValue>, ParseError> {
    match p
    case Parsed(items, _) => Success(read + ItemListMeaning(items))
    case Rejected(error) => Failure(error)
  }

  function LineOutcome(p: Parsed<LineTree>, line: string): Result<Record, ParseError>
    requires p.Parsed? ==> WfHead(p.value)
  {
    match p
    case Parsed(t, _) => Success(LineMeaning(t, line))
    case Rejected(error) => Failure(error)
  }

  /** `line.rstrip("\r\n")`. */
  function RStrip(line: string): (s: string)
    ensures s <= line && (s != "" ==> s[|s| - 1] != '\r' && s[|s| - 1] != '\n')
    ensures forall k :: |s| <= k < |line| ==> line[k] == '\r' || line[k] == '\n'
  {
    if line != "" && (line[|line| - 1] == '\r' || line[|line| - 1] == '\n') then RStrip(line[..|line| - 1]) else line
  }

  /** What `parse_mi_record` returns or raises for a line. */
  function RecordOf(line: string): Result<Record, ParseError> {
    LineOutcome(ParseTree(RStrip(line)), RStrip(line))
  }

  class Parser {
    const line: string
    var position: nat

    ghost predicate Valid()
      reads this
    {
      position <= |line|
    }

    constructor (line: string)
      ensures Valid() && this.line == line && position == 0
    {
      this.line := line;
      position := 0;
    }

    function PeekAt(i: nat): Option<char> {
      if i < |line| then Some(line[i]) else None
    }

    function Peek(): Option<char>
      reads this
    {
      PeekAt(position)
    }

    predicate AtEnd()
      reads this
    {
      position >= |line|
    }

    function Error(problem: Problem): ParseError
      reads this
    {
      ParseError(problem, position)
    }

    method Expect(c: char) returns (r: Result<(), ParseError>)
      requires Valid()
      modifies this
      ensures Valid()
      ensures At(line, old(position), c) ==> r == Success(()) && position == old(position) + 1
      ensures !At(line, old(position), c)
        ==> position == old(position) && r == Failure(ParseError(Expected(c), old(position)))
    {
      if Peek() != Some(c) { return Failure(Error(Expected(c))); }
      position := position + 1;
      r := Success(());
    }

    method ParseToken() returns (token: Option<nat>)
      requires Valid()
      modifies this
      ensures Valid() && position == DigitsEnd(line, old(position))
      ensures token == TokenMeaning(line[old(position)..position])
    {
      var start := position;
      while Peek().Some? && IsDigit(Peek().value)
        invariant start <= position <= |line|
        invariant forall k :: start <= k < position ==> IsDigit(line[k])
        invariant DigitsEnd(line, start) == DigitsEnd(line, position)
        decreases |line| - position
      {
        position := position + 1;
      }
      if position == start { return None; }
      token := Some(DecimalValue(line[start..position]));
    }

    method ConsumeMarker() returns (r: Result<char, ParseError>)
      requires Valid()
      modifies this
      ensures Valid()
      ensures if old(position) < |line|
        then r == Success(line[old(position)]) && position == old(position) + 1
        else r == Failure(ParseError(MissingMarker, old(position))) && position == old(position)
    {
      if Peek() == None { return Failure(Error(MissingMarker)); }
      r := Success(Peek().value);
      position := position + 1;
    }

    method ReadIdentifier() returns (r: Result<string, ParseError>)
      requires Valid()
      modifies this
      ensures Valid() && position == EndOf(ParseIdentifier(line, old(position)))
      ensures match ParseIdentifier(line, old(position))
        case Parsed(key, _) => r == Success(key)
        case Rejected(error) => r == Failure(error)
      ensures r.Success? ==> old(position) < |line| && r.value == line[old(position)..position]
      ensures old(position) < |line| ==>
        var c := line[old(position)];
        (r.Success? <==> 'a' <= c <= 'z' || 'A' <= c <= 'Z' || c == '_')
      ensures r.Failure? ==> r.error == ParseError(ExpectedIdentifier, old(position))
    {
      var start := position;
      if Peek() == None || !IsIdentifierStart(Peek().value) { return Failure(Error(ExpectedIdentifier)); }
      position := position + 1;
      while Peek().Some? && IsIdentifierPart(Peek().value)
        invariant start < position <= |line|
        invariant IdentifierEnd(line, start + 1) == IdentifierEnd(line, position)
        decreases |line| - position
      {
        position := position + 1;
      }
      r := Success(line[start..position]);
    }

    /** The lookahead does not move the cursor. */
    method NextValueIsResult() returns (b: bool)
      requires Valid()
      ensures b == NextIsResult(line, position)
    {
      var cursor := position;
      if PeekAt(cursor) == None || !IsIdentifierStart(PeekAt(cursor).value) { return false; }
      cursor := cursor + 1;
      while PeekAt(cursor).Some? && IsIdentifierPart(PeekAt(cursor).value)
        invariant position < cursor <= |line|
        invariant IdentifierEnd(line, position + 1) == IdentifierEnd(line, cursor)
        decreases |line| - cursor
      {
        cursor := cursor + 1;
      }
      b := PeekAt(cursor) == Some('=');
    }

    method ReadEscape() returns (r: Result<char, ParseError>)
      requires Valid()
      modifies this
      ensures Valid()
      ensures if old(position) < |line|
        then r == Success(Unescape(line[old(position)])) && position == old(position) + 1
        else r == Failure(ParseError(UnterminatedEscape, old(position))) && position == old(position)
    {
      if AtEnd() { return Failure(Error(UnterminatedEscape)); }
      var escaped := Peek().value;
      position := position + 1;
      r := Success(if escaped == 'n' then '\n' else if escaped == 'r' then '\r' else if escaped == 't' then '\t'
                   else escaped);
    }

    method ReadCString() returns (r: Result<string, ParseError>)
      requires Valid()
      modifies this
      ensures Valid() && position == EndOf(ParseQuoted(line, old(position)))
      ensures r == StringOutcome(ParseQuoted(line, old(position)))
      ensures !At(line, old(position), '"') ==> r == Failure(ParseError(Expected('"'), old(position)))
      ensures At(line, old(position), '"') && r.Failure? ==>
        r.error in {ParseError(UnterminatedString, |line|), ParseError(UnterminatedEscape, |line|)}
    {
      var opening := Expect('"');
      if opening.Failure? { return Failure(opening.error); }
      var output := "";
      ghost var start := position;
      Unread(ParsePieces(line, start));
      while !AtEnd()
        invariant start <= position <= |line|
        invariant StringOutcome(ParsePieces(line, start)) == PiecesOutcome(ParsePieces(line, position), output)
        invariant EndOf(ParsePieces(line, start)) == EndOf(ParsePieces(line, position))
        decreases |line| - position
      {
        ghost var was := position;
        ghost var read := output;
        var current := Peek().value;
        position := position + 1;
        if current == '"' {
          assert output + "" == output;
          return Success(output);
        }
        if current == '\\' {
          var escape := ReadEscape();
          if escape.Failure? { return Failure(escape.error); }
          output := output + [escape.value];
          OnePiece(Escaped(line[was + 1]), ParsePieces(line, was + 2), read);
        } else {
          output := output + [current];
          OnePiece(Plain(current), ParsePieces(line, was + 1), read);
        }
      }
      r := Failure(Error(UnterminatedString));
    }

    method ReadBareValue() returns (r: Result<MIValue, ParseError>)
      requires Valid()
      modifies this
      ensures Valid() && position == EndOf(ParseBare(line, old(position)))
      ensures r == ValueOutcome(ParseBare(line, old(position)))
      ensures r.Failure? <==> old(position) == |line| || line[old(position)] in ",]}"
      ensures r.Failure? ==> r.error == ParseError(ExpectedValue, old(position))
      ensures r.Success? ==> r.value == MIString(line[old(position)..position])
    {
      var start := position;
      while !AtEnd() && !IsDelimiter(Peek().value)
        invariant start <= position <= |line|
        invariant BareEnd(line, start) == BareEnd(line, position)
        decreases |line| - position
      {
        position := position + 1;
      }
      if position == start { return Failure(Error(ExpectedValue)); }
      r := Success(MIString(line[start..position]));
    }

    method ReadValue() returns (r: Result<MIValue, ParseError>)
      requires Valid()
      modifies this
      ensures Valid() && position == EndOf(ParseValue(line, old(position)))
      ensures r == ValueOutcome(ParseValue(line, old(position)))
      decreases |line| - position, 1
    {
      var current := Peek();
      if current == Some('"') {
        var text := ReadCString();
        r := match text case Success(t) => Success(MIString(t)) case Failure(error) => Failure(error);
      } else if current == Some('{') {
        r := ReadTuple();
      } else if current == Some('[') {
        r := ReadList();
      } else {
        r := ReadBareValue();
      }
    }

    method ReadTuple() returns (r: Result<MIValue, ParseError>)
      requires Valid()
      modifies this
      ensures Valid()
      ensures At(line, old(position), '{') ==>
        position == EndOf(ParseValue(line, old(position))) && r == ValueOutcome(ParseValue(line, old(position)))
      ensures !At(line, old(position), '{') ==>
        position == old(position) && r == Failure(ParseError(Expected('{'), old(position)))
      decreases |line| - position, 0
    {
      var opening := Expect('{');
      if opening.Failure? { return Failure(opening.error); }
      if Peek() == Some('}') {
        position := position + 1;
        return Success(MIDict([]));
      }
      var values := ReadResultList(true);
      if values.Failure? { return Failure(values.error); }
      var closed := Expect('}');
      if closed.Failure? { return Failure(closed.error); }
      r := Success(MIDict(values.value));
    }

    method ReadList() returns (r: Result<MIValue, ParseError>)
      requires Valid()
      modifies this
      ensures Valid()
      ensures At(line, old(position), '[') ==>
        position == EndOf(ParseValue(line, old(position))) && r == ValueOutcome(ParseValue(line, old(position)))
      ensures !At(line, old(position), '[') ==>
        position == old(position) && r == Failure(ParseError(Expected('['), old(position)))
      decreases |line| - position, 0
    {
      hide ParseItem, ParseResults;
      var opening := Expect('[');
      if opening.Failure? { return Failure(opening.error); }
      var values: seq<MIValue> := [];
      ghost var start := position;
      NoneRead(ParseItems(line, start));
      while !AtEnd() && Peek() != Some(']')
        invariant old(position) < start <= position <= |line|
        invariant ListOutcome(ParseItems(line, start)) == ItemsOutcome(ParseItems(line, position), values)
        invariant EndOf(ParseItems(line, start)) == EndOf(ParseItems(line, position))
        decreases |line| - position
      {
        OneItem(line, position, values);
        var item := ReadItem();
        if item.Failure? { return Failure(item.error); }
        values := values + [item.value];
        if Peek() == Some(',') {
          position := position + 1;
          continue;
        }
        assert ListOutcome(ParseItems(line, start)) == Success(values);
        break;
      }
      if AtEnd() || Peek() == Some(']') { NoneLeft(line, position, values); }
      var closed := Expect(']');
      if closed.Failure? { return Failure(closed.error); }
      r := Success(MIList(values));
    }

    /** One turn of the list loop: the lookahead decides between a result and a value. */
    method ReadItem() returns (r: Result<MIValue, ParseError>)
      requires Valid()
      modifies this
      ensures Valid() && position == EndOf(ParseItem(line, old(position)))
      ensures r == ItemOutcome(ParseItem(line, old(position)))
      decreases |line| - position, 3
    {
      var isResult := NextValueIsResult();
      if isResult {
        var pair := ReadResult();
        r := match pair case Success((k, v)) => Success(MIDict([Entry(k, v)])) case Failure(error) => Failure(error);
      } else {
        r := ReadValue();
      }
    }

    method ReadResult() returns (r: Result<(string, MIValue), ParseError>)
      requires Valid()
      modifies this
      ensures Valid() && position == EndOf(ParseResult(line, old(position)))
      ensures r == PairOutcome(ParseResult(line, old(position)))
      decreases |line| - position, 2
    {
      var key := ReadIdentifier();
      if key.Failure? { return Failure(key.error); }
      var equals := Expect('=');
      if equals.Failure? { return Failure(equals.error); }
      var value := ReadValue();
      r := match value case Success(v) => Success((key.value, v)) case Failure(error) => Failure(error);
    }

    /** `_parse_result_list`; its `stop_chars` is a closing brace inside a tuple and empty at the top of a line. */
    method ReadResultList(inTuple: bool) returns (r: Result<Dict, ParseError>)
      requires Valid()
      modifies this
      ensures Valid() && position == EndOf(ParseResults(line, old(position), inTuple))
      ensures r == ResultsOutcome(ParseResults(line, old(position), inTuple), [])
      decreases |line| - position, 3
    {
      hide ParseResult;
      var results: Dict := [];
      ghost var start := position;
      while !AtEnd() && !(inTuple && Peek() == Some('}'))
        invariant start <= position <= |line|
        invariant ResultsOutcome(ParseResults(line, start, inTuple), [])
               == ResultsOutcome(ParseResults(line, position, inTuple), results)
        invariant EndOf(ParseResults(line, start, inTuple)) == EndOf(ParseResults(line, position, inTuple))
        decreases |line| - position
      {
        OneResult(line, position, inTuple, results);
        var pair := ReadResult();
        if pair.Failure? { return Failure(pair.error); }
        results := Put(results, pair.value.0, pair.value.1);
        if Peek() == Some(',') {
          position := position + 1;
          continue;
        }
        break;
      }
      r := Success(results);
    }

    method ReadResultOrAsync(kind: RecordKind, token: Option<nat>, ghost digits: string)
      returns (r: Result<Record, ParseError>)
      requires Valid() && 0 < position && IsRecordMarker(line[position - 1]) && kind == RecordKindOf(line[position - 1])
      requires digits == line[..position - 1] && AllDigits(digits) && token == TokenMeaning(digits)
      modifies this
      ensures Valid() && position == EndOf(ParseRecordBody(line, old(position), digits))
      ensures r == LineOutcome(ParseRecordBody(line, old(position), digits), line)
      ensures r.Failure? ==> r.error.problem != TrailingStreamData
    {
      hide ParseIdentifier, ParseResults, ResultListMeaning, RecordKindOf, TokenMeaning;
      var cls := ReadIdentifier();
      if cls.Failure? { return Failure(cls.error); }
      var results: Dict := [];
      if Peek() == Some(',') {
        position := position + 1;
        var list := ReadResultList(false);
        if list.Failure? { return Failure(list.error); }
        results := list.value;
      }
      if !AtEnd() { return Failure(Error(TrailingData)); }
      r := Success(MIRecord(kind, cls.value, results, line, token));
    }

    method ReadStream(kind: RecordKind, token: Option<nat>, ghost digits: string)
      returns (r: Result<Record, ParseError>)
      requires Valid() && 0 < position && IsStreamMarker(line[position - 1]) && kind == StreamKindOf(line[position - 1])
      requires digits == line[..position - 1] && AllDigits(digits) && token == TokenMeaning(digits)
      modifies this
      ensures Valid() && position == EndOf(ParseStreamBody(line, old(position), digits))
      ensures r == LineOutcome(ParseStreamBody(line, old(position), digits), line)
      ensures r.Failure? ==> r.error.problem != TrailingData
    {
      var text := ReadCString();
      if text.Failure? { return Failure(text.error); }
      if !AtEnd() { return Failure(Error(TrailingStreamData)); }
      r := Success(MIStreamRecord(kind, text.value, line, token));
    }

    /** The record the line stands for, or the error at the position the cursor stopped at. */
    method Parse() returns (r: Result<Record, ParseError>)
      requires position == 0
      modifies this
      ensures Valid()
      ensures r == LineOutcome(ParseTree(line), line)
      ensures r.Failure? ==> position == r.error.position <= |line|
      ensures r.Success? && line != PROMPT ==> position == |line|
    {
      hide ParseRecordBody, ParseStreamBody, WfLine, LineText, ResultListMeaning, RecordKindOf, StreamKindOf;
      if ParseTree(line).Parsed? { MILanguage.LineSound(line); }
      if line == PROMPT { return Success(MIRecord(PromptKind, "prompt", [], line, None)); }
      var token := ParseToken();
      ghost var digits := line[..position];
      assert digits == line[0..position];
      var marker := ConsumeMarker();
      if marker.Failure? { return Failure(marker.error); }
      if IsRecordMarker(marker.value) {
        r := ReadResultOrAsync(RecordKindOf(marker.value), token, digits);
      } else if IsStreamMarker(marker.value) {
        r := ReadStream(StreamKindOf(marker.value), token, digits);
      } else {
        r := Failure(Error(UnsupportedMarker(marker.value)));
      }
    }
  }

  lemma Unread(p: Parsed<seq<Piece>>)
    ensures StringOutcome(p) == PiecesOutcome(p, "")
  {
    if p.Parsed? { assert "" + PiecesMeaning(p.value) == PiecesMeaning(p.value); }
  }

  lemma OnePiece(p: Piece, rest: Parsed<seq<Piece>>, read: string)
    ensures PiecesOutcome(Prepend(p, rest), read) == PiecesOutcome(rest, read + [PieceMeaning(p)])
  {
    if rest.Parsed? {
      assert ([p] + rest.value)[1..] == rest.value;
      var more := PiecesMeaning(rest.value);
      assert read + ([PieceMeaning(p)] + more) == read + [PieceMeaning(p)] + more;
    }
  }

  lemma OneResult(s: string, i: nat, inTuple: bool, read: Dict)
    requires i < |s| && !(inTuple && s[i] == '}')
    ensures var p, all := ParseResult(s, i), ParseResults(s, i, inTuple);
      match p
      case Rejected(error) => all == Rejected(error)
      case Parsed((k, v), j) =>
        var now := Put(read, k, TreeMeaning(v));
        if At(s, j, ',')
        then var rest := ParseResults(s, j + 1, inTuple);
          ResultsOutcome(all, read) == ResultsOutcome(rest, now) && EndOf(all) == EndOf(rest)
        else ResultsOutcome(all, read) == Success(now) && EndOf(all) == j
  {
    hide ParseResult, TreeMeaning, Put;
  }

  lemma NoneRead(p: Parsed<ItemList>)
    ensures ListOutcome(p) == ItemsOutcome(p, [])
  {
    if p.Parsed? { assert [] + ItemListMeaning(p.value) == ItemListMeaning(p.value); }
  }

  lemma NoneLeft(s: string, i: nat, read: seq<MIValue>)
    requires i <= |s| && (i == |s| || s[i] == ']')
    ensures ItemsOutcome(ParseItems(s, i), read) == Success(read) && EndOf(ParseItems(s, i)) == i
  {
    assert read + [] == read;
  }

  lemma OneItem(s: string, i: nat, read: seq<MIValue>)
    requires i < |s| && s[i] != ']'
    ensures var p, all := ParseItem(s, i), ParseItems(s, i);
      match p
      case Rejected(error) => ItemsOutcome(all, read) == Failure(error) && EndOf(all) == error.position
      case Parsed(item, j) =>
        var now := read + [ItemMeaning(item)];
        if At(s, j, ',')
        then var rest := ParseItems(s, j + 1);
          ItemsOutcome(all, read) == ItemsOutcome(rest, now) && EndOf(all) == EndOf(rest)
        else ItemsOutcome(all, read) == Success(now) && EndOf(all) == j
  {
    if ParseItem(s, i).Parsed? && At(s, ParseItem(s, i).next, ',') && ParseItems(s, ParseItem(s, i).next + 1).Parsed? {
      var Parsed(item, j) := ParseItem(s, i);
      var rest := ItemListMeaning(ParseItems(s, j + 1).value);
      assert read + ([ItemMeaning(item)] + rest) == read + [ItemMeaning(item)] + rest;
    }
  }

  /** `parse_mi_record`. */
  method ParseMiRecord(line: string) returns (r: Result<Record, ParseError>)
    ensures r == RecordOf(line)
    ensures r.Failure? ==> r.error.position <= |line|
  {
    var parser := new Parser(RStrip(line));
    r := parser.Parse();
  }
}
