/** The language of GDB/MI output lines that mi/parser.py accepts, as concrete syntax trees: the text of a
    tree, when a tree is well formed, and the value it stands for. Beside the GDB manual's section
    "GDB/MI Output Syntax" it has bare values, results as list items, and trailing commas; octal escapes are absent. */
module MIGrammar {
  import opened Basics
  import opened Text
  import opened MIRecords

  /** One character of a c-string: itself, or a backslash and the character behind it. */
  datatype Piece = Plain(c: char) | Escaped(c: char)

  datatype Tree =
    | Quoted(pieces: seq<Piece>)
    | Tuple(results: ResultList)
    | List(items: ItemList)
    | Bare(text: string)

  /** `MoreResults` has a comma behind its first result, so `MoreResults(k, v, NoResults)` ends in a comma. */
  datatype ResultList =
    | NoResults
    | LastResult(key: string, value: Tree)
    | MoreResults(key: string, value: Tree, rest: ResultList)

  datatype Item = ResultItem(key: string, value: Tree) | ValueItem(value: Tree)

  datatype ItemList = NoItems | LastItem(item: Item) | MoreItems(item: Item, rest: ItemList)

  datatype LineTree =
    | PromptLine
    | RecordLine(token: string, marker: char, recordClass: string, results: Option<ResultList>)
    | StreamLine(token: string, marker: char, pieces: seq<Piece>)

  const PROMPT := "(gdb)"

  predicate IsIdentifierStart(c: char) {
    IsLetter(c) || c == '_'
  }

  predicate IsIdentifierPart(c: char) {
    IsLetter(c) || IsDigit(c) || c == '_' || c == '-'
  }

  predicate IsIdentifier(s: string) {
    |s| > 0 && IsIdentifierStart(s[0]) && forall k :: 0 <= k < |s| ==> IsIdentifierPart(s[k])
  }

  /** The characters that end a bare value. */
  predicate IsDelimiter(c: char) {
    c == ',' || c == ']' || c == '}'
  }

  predicate IsRecordMarker(c: char) {
    c == '^' || c == '*' || c == '+' || c == '='
  }

  predicate IsStreamMarker(c: char) {
    c == '~' || c == '@' || c == '&'
  }

  // ----- text -----

  function PieceText(p: Piece): string {
    match p
    case Plain(c) => [c]
    case Escaped(c) => ['\\', c]
  }

  function PiecesText(ps: seq<Piece>): string {
    if ps == [] then "" else PieceText(ps[0]) + PiecesText(ps[1..])
  }

  function TreeText(t: Tree): string
    decreases t, 0
  {
    match t
    case Quoted(ps) => "\"" + PiecesText(ps) + "\""
    case Tuple(rs) => "{" + ResultListText(rs) + "}"
    case List(items) => "[" + ItemListText(items) + "]"
    case Bare(text) => text
  }

  function ResultText(key: string, value: Tree): string
    decreases value, 1
  {
    key + "=" + TreeText(value)
  }

  function ResultListText(rs: ResultList): string {
    match rs
    case NoResults => ""
    case LastResult(k, v) => ResultText(k, v)
    case MoreResults(k, v, rest) => ResultText(k, v) + ("," + ResultListText(rest))
  }

  function ItemText(item: Item): string {
    match item
    case ResultItem(k, v) => ResultText(k, v)
    case ValueItem(v) => TreeText(v)
  }

  function ItemListText(items: ItemList): string {
    match items
    case NoItems => ""
    case LastItem(item) => ItemText(item)
    case MoreItems(item, rest) => ItemText(item) + ("," + ItemListText(rest))
  }

  function RecordBodyText(cls: string, results: Option<ResultList>): string {
    match results
    case None => cls
    case Some(rs) => cls + ("," + ResultListText(rs))
  }

  function LineText(t: LineTree): string {
    match t
    case PromptLine => PROMPT
    case RecordLine(token, marker, cls, results) => token + ([marker] + RecordBodyText(cls, results))
    case StreamLine(token, marker, ps) => token + ([marker] + TreeText(Quoted(ps)))
  }

  // ----- well-formedness -----

  predicate WfPieces(ps: seq<Piece>) {
    forall k :: 0 <= k < |ps| ==> ps[k].Plain? ==> ps[k].c != '"' && ps[k].c != '\\'
  }

  predicate WfBare(text: string) {
    |text| > 0 && text[0] != '"' && text[0] != '{' && text[0] != '['
    && forall k :: 0 <= k < |text| ==> !IsDelimiter(text[k])
  }

  /** The text begins with an identifier and an equals sign. */
  ghost predicate LooksLikeResult(text: string) {
    exists n :: 0 < n < |text| && IsIdentifier(text[..n]) && text[n] == '='
  }

  ghost predicate WfTree(t: Tree) {
    match t
    case Quoted(ps) => WfPieces(ps)
    case Tuple(rs) => WfResultList(rs)
    case List(items) => WfItemList(items)
    case Bare(text) => WfBare(text)
  }

  ghost predicate WfResultList(rs: ResultList) {
    match rs
    case NoResults => true
    case LastResult(k, v) => IsIdentifier(k) && WfTree(v)
    case MoreResults(k, v, rest) => IsIdentifier(k) && WfTree(v) && WfResultList(rest)
  }

  /** A bare list item that begins like a result is a result. */
  ghost predicate WfItem(item: Item) {
    match item
    case ResultItem(k, v) => IsIdentifier(k) && WfTree(v)
    case ValueItem(v) => WfTree(v) && (v.Bare? ==> !LooksLikeResult(v.text))
  }

  ghost predicate WfItemList(items: ItemList) {
    match items
    case NoItems => true
    case LastItem(item) => WfItem(item)
    case MoreItems(item, rest) => WfItem(item) && WfItemList(rest)
  }

  /** Token and marker are as they should be. */
  predicate WfHead(t: LineTree) {
    match t
    case PromptLine => true
    case RecordLine(token, marker, _, _) => AllDigits(token) && IsRecordMarker(marker)
    case StreamLine(token, marker, _) => AllDigits(token) && IsStreamMarker(marker)
  }

  ghost predicate WfLine(t: LineTree) {
    WfHead(t) &&
    match t
    case PromptLine => true
    case RecordLine(_, _, cls, results) => IsIdentifier(cls) && (results.Some? ==> WfResultList(results.value))
    case StreamLine(_, _, ps) => WfPieces(ps)
  }

  // ----- meaning -----

  function Unescape(c: char): char {
    if c == 'n' then '\n' else if c == 'r' then '\r' else if c == 't' then '\t' else c
  }

  function PieceMeaning(p: Piece): char {
    match p
    case Plain(c) => c
    case Escaped(c) => Unescape(c)
  }

  function PiecesMeaning(ps: seq<Piece>): string {
    if ps == [] then "" else [PieceMeaning(ps[0])] + PiecesMeaning(ps[1..])
  }

  function TreeMeaning(t: Tree): MIValue {
    match t
    case Quoted(ps) => MIString(PiecesMeaning(ps))
    case Tuple(rs) => MIDict(ResultListMeaning(rs, []))
    case List(items) => MIList(ItemListMeaning(items))
    case Bare(text) => MIString(text)
  }

  /** The assignments of a result list, in order, on top of dictionary `d`. */
  function ResultListMeaning(rs: ResultList, d: Dict): Dict
    decreases rs
  {
    match rs
    case NoResults => d
    case LastResult(k, v) => Put(d, k, TreeMeaning(v))
    case MoreResults(k, v, rest) => ResultListMeaning(rest, Put(d, k, TreeMeaning(v)))
  }

  function ItemMeaning(item: Item): MIValue {
    match item
    case ResultItem(k, v) => MIDict([Entry(k, TreeMeaning(v))])
    case ValueItem(v) => TreeMeaning(v)
  }

  function ItemListMeaning(items: ItemList): seq<MIValue> {
    match items
    case NoItems => []
    case LastItem(item) => [ItemMeaning(item)]
    case MoreItems(item, rest) => [ItemMeaning(item)] + ItemListMeaning(rest)
  }

  function RecordKindOf(marker: char): RecordKind
    requires IsRecordMarker(marker)
  {
    if marker == '^' then ResultKind else if marker == '*' then ExecAsync
    else if marker == '+' then StatusAsync else NotifyAsync
  }

  function StreamKindOf(marker: char): RecordKind
    requires IsStreamMarker(marker)
  {
    if marker == '~' then ConsoleStream else if marker == '@' then TargetStream else LogStream
  }

  function TokenMeaning(token: string): Option<nat>
    requires AllDigits(token)
  {
    if token == "" then None else Some(DecimalValue(token))
  }

  /** The record a line stands for; `raw` is the line itself. */
  function LineMeaning(t: LineTree, raw: string): Record
    requires WfHead(t)
  {
    match t
    case PromptLine => MIRecord(PromptKind, "prompt", [], raw, None)
    case RecordLine(token, marker, cls, results) =>
      MIRecord(RecordKindOf(marker), cls, if results.Some? then ResultListMeaning(results.value, []) else [],
               raw, TokenMeaning(token))
    case StreamLine(token, marker, ps) =>
      MIStreamRecord(StreamKindOf(marker), PiecesMeaning(ps), raw, TokenMeaning(token))
  }
}
