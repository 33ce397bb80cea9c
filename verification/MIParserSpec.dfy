/** What parsing does at each position of a line, as functions: a syntax tree and the position behind it, or the
    error and the position it is reported at. The parser class of MIParser is proved equal to these functions. */
module MIParserSpec {
  import opened Basics
  import opened Text
  import opened MIGrammar

  /** The messages of the parse errors raised in mi/parser.py. */
  datatype Problem =
    | MissingMarker
    | UnsupportedMarker(marker: char)
    | TrailingData
    | TrailingStreamData
    | ExpectedIdentifier
    | UnterminatedString
    | UnterminatedEscape
    | ExpectedValue
    | Expected(c: char)

  datatype ParseError = ParseError(problem: Problem, position: nat)

  datatype Parsed<+T> = Parsed(value: T, next: nat) | Rejected(error: ParseError)

  /** The problems that only the end of the line can be. */
  predicate AtEndOnly(problem: Problem) {
    problem == MissingMarker || problem == UnterminatedString || problem == UnterminatedEscape
  }

  /** The problems with what follows a complete record. */
  predicate AboutRest(problem: Problem) {
    problem == TrailingData || problem == TrailingStreamData
  }

  /** The problems with the marker of a line. */
  predicate AboutMarker(problem: Problem) {
    problem == MissingMarker || problem.UnsupportedMarker?
  }

  /** An error lies at or behind `from` and within the line, and one that is only the end of the line lies there. */
  predicate Fails(error: ParseError, from: nat, s: string) {
    from <= error.position <= |s| && (AtEndOnly(error.problem) ==> error.position == |s|)
  }

  /** Progress inside a line: a success lies behind `from` and an error at or behind it. */
  predicate Advances<T>(r: Parsed<T>, from: nat, s: string) {
    match r
    case Parsed(_, next) => from < next <= |s|
    case Rejected(error) => Fails(error, from, s) && !AboutRest(error.problem) && !AboutMarker(error.problem)
  }

  /** As `Advances`, for parts that may be empty. */
  predicate Stays<T>(r: Parsed<T>, from: nat, s: string) {
    match r
    case Parsed(_, next) => from <= next <= |s|
    case Rejected(error) => Fails(error, from, s) && !AboutRest(error.problem) && !AboutMarker(error.problem)
  }

  /** As `Stays`, for whole lines, of which something can be left over. */
  predicate Ends<T>(r: Parsed<T>, from: nat, s: string) {
    match r
    case Parsed(_, next) => from <= next <= |s|
    case Rejected(error) => Fails(error, from, s) && (AboutRest(error.problem) ==> error.position < |s|)
  }

  // ----- scanning -----

  function DigitsEnd(s: string, i: nat): (j: nat)
    requires i <= |s|
    ensures i <= j <= |s|
    ensures forall k :: i <= k < j ==> IsDigit(s[k])
    ensures j < |s| ==> !IsDigit(s[j])
    decreases |s| - i
  {
    if i < |s| && IsDigit(s[i]) then DigitsEnd(s, i + 1) else i
  }

  function IdentifierEnd(s: string, i: nat): (j: nat)
    requires i <= |s|
    ensures i <= j <= |s|
    ensures forall k :: i <= k < j ==> IsIdentifierPart(s[k])
    ensures j < |s| ==> !IsIdentifierPart(s[j])
    decreases |s| - i
  {
    if i < |s| && IsIdentifierPart(s[i]) then IdentifierEnd(s, i + 1) else i
  }

  function BareEnd(s: string, i: nat): (j: nat)
    requires i <= |s|
    ensures i <= j <= |s|
    ensures forall k :: i <= k < j ==> !IsDelimiter(s[k])
    ensures j < |s| ==> IsDelimiter(s[j])
    decreases |s| - i
  {
    if i < |s| && !IsDelimiter(s[i]) then BareEnd(s, i + 1) else i
  }

  /** The lookahead that decides whether a list item is a result. */
  predicate NextIsResult(s: string, i: nat)
    requires i <= |s|
  {
    i < |s| && IsIdentifierStart(s[i]) && At(s, IdentifierEnd(s, i + 1), '=')
  }

  // ----- parsing -----

  function ParseIdentifier(s: string, i: nat): (r: Parsed<string>)
    requires i <= |s|
    ensures Advances(r, i, s)
  {
    if i < |s| && IsIdentifierStart(s[i])
    then var j := IdentifierEnd(s, i + 1); Parsed(s[i..j], j)
    else Rejected(ParseError(ExpectedIdentifier, i))
  }

  /** The c-string body from behind the opening quote to behind the closing one. */
  function ParsePieces(s: string, i: nat): (r: Parsed<seq<Piece>>)
    requires i <= |s|
    ensures Advances(r, i, s)
    decreases |s| - i
  {
    if i == |s| then Rejected(ParseError(UnterminatedString, i))
    else if s[i] == '"' then Parsed([], i + 1)
    else if s[i] != '\\' then Prepend(Plain(s[i]), ParsePieces(s, i + 1))
    else if i + 1 == |s| then Rejected(ParseError(UnterminatedEscape, i + 1))
    else Prepend(Escaped(s[i + 1]), ParsePieces(s, i + 2))
  }

  function Prepend(p: Piece, r: Parsed<seq<Piece>>): Parsed<seq<Piece>> {
    match r
    case Parsed(ps, next) => Parsed([p] + ps, next)
    case Rejected(error) => Rejected(error)
  }

  function ParseQuoted(s: string, i: nat): (r: Parsed<seq<Piece>>)
    requires i <= |s|
    ensures Advances(r, i, s)
  {
    if At(s, i, '"') then ParsePieces(s, i + 1) else Rejected(ParseError(Expected('"'), i))
  }

  function ParseBare(s: string, i: nat): (r: Parsed<Tree>)
    requires i <= |s|
    ensures Advances(r, i, s)
  {
    var j := BareEnd(s, i);
    if j == i then Rejected(ParseError(ExpectedValue, i)) else Parsed(Bare(s[i..j]), j)
  }

  function ParseValue(s: string, i: nat): (r: Parsed<Tree>)
    requires i <= |s|
    ensures Advances(r, i, s)
    decreases |s| - i, 1
  {
    if At(s, i, '"') then
      match ParsePieces(s, i + 1)
      case Parsed(ps, next) => Parsed(Quoted(ps), next)
      case Rejected(error) => Rejected(error)
    else if At(s, i, '{') then
      match ParseResults(s, i + 1, true)
      case Parsed(rs, next) =>
        if At(s, next, '}') then Parsed(Tuple(rs), next + 1) else Rejected(ParseError(Expected('}'), next))
      case Rejected(error) => Rejected(error)
    else if At(s, i, '[') then
      match ParseItems(s, i + 1)
      case Parsed(items, next) =>
        if At(s, next, ']') then Parsed(List(items), next + 1) else Rejected(ParseError(Expected(']'), next))
      case Rejected(error) => Rejected(error)
    else ParseBare(s, i)
  }

  function ParseResult(s: string, i: nat): (r: Parsed<(string, Tree)>)
    requires i <= |s|
    ensures Advances(r, i, s)
    decreases |s| - i, 2
  {
    match ParseIdentifier(s, i)
    case Rejected(error) => Rejected(error)
    case Parsed(key, j) =>
      if !At(s, j, '=') then Rejected(ParseError(Expected('='), j)) else
      match ParseValue(s, j + 1)
      case Parsed(v, next) => Parsed((key, v), next)
      case Rejected(error) => Rejected(error)
  }

  /** A comma-separated result list; inside a tuple a closing brace ends it as well. */
  function ParseResults(s: string, i: nat, inTuple: bool): (r: Parsed<ResultList>)
    requires i <= |s|
    ensures Stays(r, i, s)
    decreases |s| - i, 4
  {
    if i == |s| || (inTuple && s[i] == '}') then Parsed(NoResults, i) else
    match ParseResult(s, i)
    case Rejected(error) => Rejected(error)
    case Parsed((k, v), j) =>
      if !At(s, j, ',') then Parsed(LastResult(k, v), j) else
      match ParseResults(s, j + 1, inTuple)
      case Parsed(rest, next) => Parsed(MoreResults(k, v, rest), next)
      case Rejected(error) => Rejected(error)
  }

  function ParseItem(s: string, i: nat): (r: Parsed<Item>)
    requires i <= |s|
    ensures Advances(r, i, s)
    decreases |s| - i, 3
  {
    if NextIsResult(s, i) then
      match ParseResult(s, i)
      case Parsed((k, v), next) => Parsed(ResultItem(k, v), next)
      case Rejected(error) => Rejected(error)
    else
      match ParseValue(s, i)
      case Parsed(v, next) => Parsed(ValueItem(v), next)
      case Rejected(error) => Rejected(error)
  }

  function ParseItems(s: string, i: nat): (r: Parsed<ItemList>)
    requires i <= |s|
    ensures Stays(r, i, s)
    decreases |s| - i, 4
  {
    if i == |s| || s[i] == ']' then Parsed(NoItems, i) else
    match ParseItem(s, i)
    case Rejected(error) => Rejected(error)
    case Parsed(item, j) =>
      if !At(s, j, ',') then Parsed(LastItem(item), j) else
      match ParseItems(s, j + 1)
      case Parsed(rest, next) => Parsed(MoreItems(item, rest), next)
      case Rejected(error) => Rejected(error)
  }

  /** The part of a result or async record behind its marker. */
  function ParseRecordBody(s: string, i: nat, token: string): (r: Parsed<LineTree>)
    requires 0 < i <= |s| && AllDigits(token) && IsRecordMarker(s[i - 1])
    ensures Ends(r, i, s) && (r.Parsed? ==> WfHead(r.value)) && (r.Rejected? ==> !AboutMarker(r.error.problem))
  {
    match ParseIdentifier(s, i)
    case Rejected(error) => Rejected(error)
    case Parsed(cls, j) =>
      if At(s, j, ',') then
        match ParseResults(s, j + 1, false)
        case Rejected(error) => Rejected(error)
        case Parsed(rs, next) =>
          if next < |s| then Rejected(ParseError(TrailingData, next))
          else Parsed(RecordLine(token, s[i - 1], cls, Some(rs)), next)
      else if j < |s| then Rejected(ParseError(TrailingData, j))
      else Parsed(RecordLine(token, s[i - 1], cls, None), j)
  }

  function ParseStreamBody(s: string, i: nat, token: string): (r: Parsed<LineTree>)
    requires 0 < i <= |s| && AllDigits(token) && IsStreamMarker(s[i - 1])
    ensures Ends(r, i, s) && (r.Parsed? ==> WfHead(r.value)) && (r.Rejected? ==> !AboutMarker(r.error.problem))
  {
    match ParseQuoted(s, i)
    case Rejected(error) => Rejected(error)
    case Parsed(ps, j) =>
      if j < |s| then Rejected(ParseError(TrailingStreamData, j)) else Parsed(StreamLine(token, s[i - 1], ps), j)
  }

  function ParseTree(s: string): (r: Parsed<LineTree>)
    ensures Ends(r, 0, s) && (r.Parsed? ==> WfHead(r.value))
  {
    if s == PROMPT then Parsed(PromptLine, |s|) else
    var m := DigitsEnd(s, 0);
    if m == |s| then Rejected(ParseError(MissingMarker, m))
    else if IsRecordMarker(s[m]) then ParseRecordBody(s, m + 1, s[..m])
    else if IsStreamMarker(s[m]) then ParseStreamBody(s, m + 1, s[..m])
    else Rejected(ParseError(UnsupportedMarker(s[m]), m + 1))
  }
}
