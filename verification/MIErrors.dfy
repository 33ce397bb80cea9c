/** Where a line that is no record goes wrong: what stands in front of the reported place can still become a line, and
    with the character at that place it no longer can. */
module MIErrors {
  import opened Basics
  import opened Text
  import opened MIRecords
  import opened MIGrammar
  import opened MIParserSpec
  import MILanguage
  import opened MIMeaning
  import MIParser

  // ----- parsing depends on what it has looked at only -----

  /** The two lines agree in front of place `q`, which lies in both. */
  ghost predicate Agree(s: string, t: string, q: nat) {
    q <= |s| && q <= |t| && forall k :: 0 <= k < q ==> s[k] == t[k]
  }

  /** Where parsing stopped, behind what it accepted or at its error. */
  function Stop<T>(r: Parsed<T>): nat {
    match r
    case Parsed(_, next) => next
    case Rejected(error) => error.position
  }

  lemma SameAt(s: string, t: string, q: nat, i: nat, c: char)
    requires Agree(s, t, q) && i < q
    ensures At(s, i, c) <==> At(t, i, c)
  {}

  lemma SameIdentifierEnd(s: string, t: string, q: nat, i: nat)
    requires Agree(s, t, q) && i <= |s| && IdentifierEnd(s, i) < q
    ensures IdentifierEnd(t, i) == IdentifierEnd(s, i)
  {
    MILanguage.IdentifierEndIs(t, i, IdentifierEnd(s, i));
  }

  lemma SameBareEnd(s: string, t: string, q: nat, i: nat)
    requires Agree(s, t, q) && i <= |s| && BareEnd(s, i) < q
    ensures BareEnd(t, i) == BareEnd(s, i)
  {
    MILanguage.BareEndIs(t, i, BareEnd(s, i));
  }

  lemma SameSlice(s: string, t: string, q: nat, i: nat, j: nat)
    requires Agree(s, t, q) && i <= j <= q
    ensures s[i..j] == t[i..j]
  {}

  lemma SameIdentifier(s: string, t: string, q: nat, i: nat)
    requires Agree(s, t, q) && i <= |s| && Stop(ParseIdentifier(s, i)) < q
    ensures i <= |t| && ParseIdentifier(t, i) == ParseIdentifier(s, i)
  {
    if IsIdentifierStart(s[i]) {
      SameIdentifierEnd(s, t, q, i + 1);
      SameSlice(s, t, q, i, IdentifierEnd(s, i + 1));
    }
  }

  lemma {:induction false} SamePieces(s: string, t: string, q: nat, i: nat)
    requires Agree(s, t, q) && i <= |s| && Stop(ParsePieces(s, i)) < q
    ensures i <= |t| && ParsePieces(t, i) == ParsePieces(s, i)
    decreases |s| - i
  {
    if s[i] != '"' {
      SamePieces(s, t, q, if s[i] == '\\' then i + 2 else i + 1);
    }
  }

  lemma SameBare(s: string, t: string, q: nat, i: nat)
    requires Agree(s, t, q) && i <= |s| && Stop(ParseBare(s, i)) < q
    ensures i <= |t| && ParseBare(t, i) == ParseBare(s, i)
  {
    SameBareEnd(s, t, q, i);
    SameSlice(s, t, q, i, BareEnd(s, i));
  }

  lemma {:induction false} SameValue(s: string, t: string, q: nat, i: nat)
    requires Agree(s, t, q) && i <= |s| && Stop(ParseValue(s, i)) < q
    ensures i <= |t| && ParseValue(t, i) == ParseValue(s, i)
    decreases |s| - i, 1
  {
    SameAt(s, t, q, i, '"');
    SameAt(s, t, q, i, '{');
    SameAt(s, t, q, i, '[');
    hide ParsePieces, ParseResults, ParseItems, ParseBare, Agree;
    if At(s, i, '"') {
      SamePieces(s, t, q, i + 1);
    } else if At(s, i, '{') {
      SameResults(s, t, q, i + 1, true);
      SameAt(s, t, q, Stop(ParseResults(s, i + 1, true)), '}');
    } else if At(s, i, '[') {
      SameItems(s, t, q, i + 1);
      SameAt(s, t, q, Stop(ParseItems(s, i + 1)), ']');
    } else {
      SameBare(s, t, q, i);
    }
  }

  lemma {:induction false} SameResult(s: string, t: string, q: nat, i: nat)
    requires Agree(s, t, q) && i <= |s| && Stop(ParseResult(s, i)) < q
    ensures i <= |t| && ParseResult(t, i) == ParseResult(s, i)
    decreases |s| - i, 2
  {
    hide ParseIdentifier, ParseValue, Agree;
    SameIdentifier(s, t, q, i);
    if ParseIdentifier(s, i).Parsed? {
      var j := ParseIdentifier(s, i).next;
      SameAt(s, t, q, j, '=');
      if At(s, j, '=') { SameValue(s, t, q, j + 1); }
    }
  }

  lemma SameEnd(s: string, t: string, q: nat, i: nat)
    requires Agree(s, t, q) && i < q
    ensures i < |s| && i < |t| && s[i] == t[i]
  {}

  /** A result list whose first result is the last, or is rejected. */
  lemma SameFirst(s: string, t: string, i: nat, inTuple: bool)
    requires i < |s| && i < |t| && s[i] == t[i] && !(inTuple && s[i] == '}') && ParseResult(t, i) == ParseResult(s, i)
    requires ParseResult(s, i).Parsed? ==>
      !At(s, ParseResult(s, i).next, ',') && !At(t, ParseResult(s, i).next, ',')
    ensures ParseResults(t, i, inTuple) == ParseResults(s, i, inTuple)
  {
    hide ParseResult, At;
  }

  lemma SameRest(s: string, t: string, i: nat, inTuple: bool, j: nat)
    requires i < |s| && i < |t| && s[i] == t[i] && !(inTuple && s[i] == '}') && ParseResult(t, i) == ParseResult(s, i)
    requires ParseResult(s, i).Parsed? && j == ParseResult(s, i).next && At(s, j, ',') && At(t, j, ',')
    requires ParseResults(t, j + 1, inTuple) == ParseResults(s, j + 1, inTuple)
    ensures ParseResults(t, i, inTuple) == ParseResults(s, i, inTuple)
  {
    hide ParseResult;
  }

  lemma FirstStops(s: string, i: nat, inTuple: bool, q: nat)
    requires i < |s| && !(inTuple && s[i] == '}') && Stop(ParseResults(s, i, inTuple)) < q
    ensures Stop(ParseResult(s, i)) < q
    ensures ParseResult(s, i).Parsed? ==> i < ParseResult(s, i).next < q && ParseResult(s, i).next <= |s|
    ensures ParseResult(s, i).Parsed? && At(s, ParseResult(s, i).next, ',') ==>
      Stop(ParseResults(s, ParseResult(s, i).next + 1, inTuple)) < q
  {
    hide ParseResult;
  }

  lemma {:induction false} SameResults(s: string, t: string, q: nat, i: nat, inTuple: bool)
    requires Agree(s, t, q) && i <= |s| && Stop(ParseResults(s, i, inTuple)) < q
    ensures i <= |t| && ParseResults(t, i, inTuple) == ParseResults(s, i, inTuple)
    decreases |s| - i, 4
  {
    hide ParseResult, ParseResults, Agree, Stop, At, Advances;
    StopsBehind(ParseResults(s, i, inTuple), s, i);
    SameEnd(s, t, q, i);
    if inTuple && s[i] == '}' {
      ClosedHere(s, i);
      ClosedHere(t, i);
    } else {
      FirstStops(s, i, inTuple, q);
      SameResult(s, t, q, i);
      if ParseResult(s, i).Rejected? {
        SameFirst(s, t, i, inTuple);
      } else {
        var j := ParseResult(s, i).next;
        SameAt(s, t, q, j, ',');
        if At(s, j, ',') {
          CharAt(s, j, ',');
          CharAt(t, j, ',');
          SameResults(s, t, q, j + 1, inTuple);
          SameRest(s, t, i, inTuple, j);
        } else {
          SameFirst(s, t, i, inTuple);
        }
      }
    }
  }

  lemma StopsBehind<T>(r: Parsed<T>, s: string, i: nat)
    requires Stays(r, i, s)
    ensures Stop(r) >= i
  {}

  lemma ClosedHere(s: string, i: nat)
    requires i < |s| && s[i] == '}'
    ensures ParseResults(s, i, true) == Parsed(NoResults, i)
  {}

  lemma CharAt(s: string, j: nat, c: char)
    requires At(s, j, c)
    ensures j < |s|
  {}

  /** The lookahead never goes beyond what is parsed afterwards. */
  lemma SameLookahead(s: string, t: string, q: nat, i: nat)
    requires Agree(s, t, q) && i <= |s| && Stop(ParseItem(s, i)) < q
    ensures i < q && (NextIsResult(t, i) <==> NextIsResult(s, i))
  {
    if IsIdentifierStart(s[i]) {
      var j := IdentifierEnd(s, i + 1);
      if NextIsResult(s, i) {
        hide ParseValue;
        assert ParseIdentifier(s, i) == Parsed(s[i..j], j);
      } else {
        assert forall k :: i <= k < j ==> !IsDelimiter(s[k]);
        assert BareEnd(s, i) >= j;
        assert ParseValue(s, i) == ParseBare(s, i);
      }
      SameIdentifierEnd(s, t, q, i + 1);
    }
  }

  lemma {:induction false} SameItem(s: string, t: string, q: nat, i: nat)
    requires Agree(s, t, q) && i <= |s| && Stop(ParseItem(s, i)) < q
    ensures i <= |t| && ParseItem(t, i) == ParseItem(s, i)
    decreases |s| - i, 3
  {
    SameLookahead(s, t, q, i);
    hide ParseResult, ParseValue, NextIsResult, Agree;
    if NextIsResult(s, i) { SameResult(s, t, q, i); } else { SameValue(s, t, q, i); }
  }

  lemma {:induction false} SameItems(s: string, t: string, q: nat, i: nat)
    requires Agree(s, t, q) && i <= |s| && Stop(ParseItems(s, i)) < q
    ensures i <= |t| && ParseItems(t, i) == ParseItems(s, i)
    decreases |s| - i, 4
  {
    SameEnd(s, t, q, i);
    hide ParseItem, Agree;
    if s[i] != ']' {
      SameItem(s, t, q, i);
      if ParseItem(s, i).Parsed? {
        var j := ParseItem(s, i).next;
        SameAt(s, t, q, j, ',');
        if At(s, j, ',') { SameItems(s, t, q, j + 1); }
      }
    }
  }

  lemma BodyStops(s: string, i: nat, token: string, q: nat)
    requires 0 < i <= |s| && AllDigits(token) && IsRecordMarker(s[i - 1])
    requires ParseRecordBody(s, i, token).Rejected? && Stop(ParseRecordBody(s, i, token)) < q
    ensures Stop(ParseIdentifier(s, i)) < q
    ensures ParseIdentifier(s, i).Parsed? ==> ParseIdentifier(s, i).next < q
    ensures ParseIdentifier(s, i).Parsed? && At(s, ParseIdentifier(s, i).next, ',') ==>
      Stop(ParseResults(s, ParseIdentifier(s, i).next + 1, false)) < q
  {
    hide ParseIdentifier, ParseResults, AllDigits;
  }

  lemma SameClass(s: string, t: string, i: nat, token: string)
    requires 0 < i <= |s| && i <= |t| && AllDigits(token) && IsRecordMarker(s[i - 1]) && s[i - 1] == t[i - 1]
    requires ParseIdentifier(t, i) == ParseIdentifier(s, i)
    requires ParseIdentifier(s, i).Parsed? ==>
      var j := ParseIdentifier(s, i).next; j < |s| && j < |t| && !At(s, j, ',') && !At(t, j, ',')
    ensures ParseRecordBody(t, i, token) == ParseRecordBody(s, i, token)
  {
    hide ParseIdentifier, At;
  }

  lemma SameClassAndResults(s: string, t: string, i: nat, token: string, j: nat)
    requires 0 < i <= |s| && i <= |t| && AllDigits(token) && IsRecordMarker(s[i - 1]) && s[i - 1] == t[i - 1]
    requires ParseIdentifier(t, i) == ParseIdentifier(s, i) && ParseIdentifier(s, i).Parsed?
    requires j == ParseIdentifier(s, i).next && At(s, j, ',') && At(t, j, ',')
    requires ParseResults(t, j + 1, false) == ParseResults(s, j + 1, false)
    requires Stop(ParseResults(s, j + 1, false)) < |s| && Stop(ParseResults(s, j + 1, false)) < |t|
    ensures ParseRecordBody(t, i, token) == ParseRecordBody(s, i, token)
  {
    hide ParseIdentifier, ParseResults;
  }

  lemma SameBody(s: string, t: string, q: nat, i: nat, token: string)
    requires Agree(s, t, q) && 0 < i < q && AllDigits(token) && IsRecordMarker(s[i - 1])
    requires ParseRecordBody(s, i, token).Rejected? && Stop(ParseRecordBody(s, i, token)) < q
    ensures IsRecordMarker(t[i - 1]) && ParseRecordBody(t, i, token) == ParseRecordBody(s, i, token)
  {
    hide ParseRecordBody, ParseIdentifier, ParseResults, Agree, IsRecordMarker, At, AllDigits, Stop;
    SameEnd(s, t, q, i - 1);
    SameEnd(s, t, q, i);
    BodyStops(s, i, token, q);
    SameIdentifier(s, t, q, i);
    if ParseIdentifier(s, i).Rejected? {
      SameClass(s, t, i, token);
    } else {
      var j := ParseIdentifier(s, i).next;
      SameAt(s, t, q, j, ',');
      SameEnd(s, t, q, j);
      if At(s, j, ',') {
        SameResults(s, t, q, j + 1, false);
        SameEnd(s, t, q, Stop(ParseResults(s, j + 1, false)));
        SameClassAndResults(s, t, i, token, j);
      } else {
        SameClass(s, t, i, token);
      }
    }
  }

  lemma SameStream(s: string, t: string, q: nat, i: nat, token: string)
    requires Agree(s, t, q) && 0 < i < q && AllDigits(token) && IsStreamMarker(s[i - 1])
    requires ParseStreamBody(s, i, token).Rejected? && Stop(ParseStreamBody(s, i, token)) < q
    ensures IsStreamMarker(t[i - 1]) && ParseStreamBody(t, i, token) == ParseStreamBody(s, i, token)
  {
    SameEnd(s, t, q, i - 1);
    hide ParsePieces, Agree;
    SameAt(s, t, q, i, '"');
    if At(s, i, '"') {
      SamePieces(s, t, q, i + 1);
      SameEnd(s, t, q, Stop(ParsePieces(s, i + 1)));
    }
  }

  lemma SameDigits(s: string, t: string, q: nat)
    requires Agree(s, t, q) && DigitsEnd(s, 0) < q
    ensures DigitsEnd(t, 0) == DigitsEnd(s, 0) && t[..DigitsEnd(s, 0)] == s[..DigitsEnd(s, 0)]
  {
    var m := DigitsEnd(s, 0);
    assert forall k :: 0 <= k < m ==> t[..m][k] == s[k];
    MILanguage.DigitsEndIs(t, m);
  }

  /** A line with the same beginning up to and including the place of the error is rejected as well. */
  lemma SameError(s: string, t: string, p: nat)
    requires ParseTree(s).Rejected? && Stop(ParseTree(s)) == p < |s| && Agree(s, t, p + 1)
    requires !ParseTree(s).error.problem.UnsupportedMarker? && t != PROMPT
    ensures ParseTree(t).Rejected?
  {
    var m := DigitsEnd(s, 0);
    hide ParseRecordBody, ParseStreamBody;
    assert m < |s|;
    SameDigits(s, t, p + 1);
    SameEnd(s, t, p + 1, m);
    if IsRecordMarker(s[m]) {
      SameBody(s, t, p + 1, m + 1, s[..m]);
    } else if IsStreamMarker(s[m]) {
      SameStream(s, t, p + 1, m + 1, s[..m]);
    }
  }

  // ----- what stands in front of an error can go on -----

  /** The character that an error asks for, or one of them. */
  function Wanted(problem: Problem): Option<char> {
    match problem
    case MissingMarker => Some('^')
    case ExpectedIdentifier => Some('_')
    case ExpectedValue => Some('"')
    case Expected(c) => Some(c)
    case UnterminatedString => Some('"')
    case UnterminatedEscape => Some('_')
    case _ => None
  }

  /** The text `w` begins with what stands in `s` from `i` to `p`, and goes on with a given character. */
  ghost predicate Begins(s: string, i: nat, p: nat, next: Option<char>, w: string) {
    && i <= p <= |s| && p - i <= |w|
    && (forall k: nat :: k < p - i ==> w[k] == s[i + k])
    && (next.Some? ==> At(w, p - i, next.value))
  }

  /** The text begins as the line does in front of the error, and goes on with what the error asks for. */
  ghost predicate Mends<T>(s: string, i: nat, r: Parsed<T>, w: string)
    requires r.Rejected?
  {
    Begins(s, i, r.error.position, Wanted(r.error.problem), w)
  }

  lemma BeginsNothing(s: string, i: nat, c: char, w: string)
    requires i <= |s|
    ensures Begins(s, i, i, Some(c), [c] + w)
  {}

  lemma BeginsWhole(s: string, i: nat, w: string, next: Option<char>, more: string)
    requires Occurs(s, i, w) && (next.Some? ==> At(more, 0, next.value))
    ensures Begins(s, i, i + |w|, next, w + more)
  {}

  lemma BeginsBehind(s: string, i: nat, p: nat, next: Option<char>, a: string, b: string)
    requires Occurs(s, i, a) && Begins(s, i + |a|, p, next, b)
    ensures Begins(s, i, p, next, a + b)
  {
    forall k: nat | k < p - i ensures (a + b)[k] == s[i + k] {
      if k >= |a| { assert b[k - |a|] == s[i + |a| + (k - |a|)]; }
    }
  }

  lemma BeginsLonger(s: string, i: nat, p: nat, next: Option<char>, a: string, b: string)
    requires Begins(s, i, p, next, a)
    ensures Begins(s, i, p, next, a + b)
  {}

  lemma BeginsChar(s: string, i: nat, p: nat, next: Option<char>, c: char, b: string)
    requires At(s, i, c) && Begins(s, i + 1, p, next, b)
    ensures Begins(s, i, p, next, [c] + b)
  {
    OccursChar(s, i, c);
    BeginsBehind(s, i, p, next, [c], b);
  }

  lemma {:induction false} PiecesGoOn(s: string, i: nat) returns (ps: seq<Piece>)
    requires i <= |s| && ParsePieces(s, i).Rejected?
    ensures WfPieces(ps) && Mends(s, i, ParsePieces(s, i), PiecesText(ps) + "\"")
    decreases |s| - i
  {
    if i == |s| {
      ps := [];
    } else if s[i] == '\\' && i + 1 == |s| {
      ps := [Escaped('_')];
      assert PiecesText(ps) == ['\\', '_'] + PiecesText(ps[1..]);
    } else {
      var piece := if s[i] == '\\' then Escaped(s[i + 1]) else Plain(s[i]);
      var j := i + |PieceText(piece)|;
      var rest := PiecesGoOn(s, j);
      ps := [piece] + rest;
      PieceMends(s, i, piece, rest);
    }
  }

  lemma PieceMends(s: string, i: nat, piece: Piece, rest: seq<Piece>)
    requires i < |s| && Occurs(s, i, PieceText(piece)) && (piece.Plain? ==> piece.c != '"' && piece.c != '\\')
    requires ParsePieces(s, i + |PieceText(piece)|).Rejected? && WfPieces(rest)
    requires s[i] == '\\' <==> piece.Escaped?
    requires Mends(s, i + |PieceText(piece)|, ParsePieces(s, i + |PieceText(piece)|), PiecesText(rest) + "\"")
    ensures ParsePieces(s, i).Rejected? && WfPieces([piece] + rest)
    ensures Mends(s, i, ParsePieces(s, i), PiecesText([piece] + rest) + "\"")
  {
    hide ParsePieces, Begins, Occurs, PiecesText, PieceText, WfPieces;
    PieceRejected(s, i, piece);
    PiecesOfMore(piece, rest);
    var e := ParsePieces(s, i).error;
    BeginsBehind(s, i, e.position, Wanted(e.problem), PieceText(piece), PiecesText(rest) + "\"");
  }

  lemma PieceRejected(s: string, i: nat, piece: Piece)
    requires i < |s| && Occurs(s, i, PieceText(piece)) && (piece.Plain? ==> piece.c != '"' && piece.c != '\\')
    requires ParsePieces(s, i + |PieceText(piece)|).Rejected? && (s[i] == '\\' <==> piece.Escaped?)
    ensures ParsePieces(s, i) == ParsePieces(s, i + |PieceText(piece)|)
  {
    assert PieceText(piece)[0] == s[i];
    if piece.Escaped? { assert PieceText(piece)[1] == s[i + 1]; }
  }

  lemma PiecesOfMore(piece: Piece, rest: seq<Piece>)
    ensures PiecesText([piece] + rest) + "\"" == PieceText(piece) + (PiecesText(rest) + "\"")
    ensures WfPieces(rest) && (piece.Plain? ==> piece.c != '"' && piece.c != '\\') ==> WfPieces([piece] + rest)
  {
    assert ([piece] + rest)[1..] == rest;
  }

  const EMPTY := Quoted([])

  lemma QuotedMends(s: string, i: nat, ps: seq<Piece>)
    requires At(s, i, '"') && ParsePieces(s, i + 1).Rejected?
    requires Mends(s, i + 1, ParsePieces(s, i + 1), PiecesText(ps) + "\"")
    ensures ParseValue(s, i).Rejected? && Mends(s, i, ParseValue(s, i), TreeText(Quoted(ps)))
  {
    hide ParsePieces, Begins, PiecesText;
    var ParseError(problem, p) := ParsePieces(s, i + 1).error;
    BeginsChar(s, i, p, Wanted(problem), '"', PiecesText(ps) + "\"");
    assert TreeText(Quoted(ps)) == ['"'] + (PiecesText(ps) + "\"");
  }

  lemma TupleMends(s: string, i: nat, rs: ResultList)
    requires At(s, i, '{') && ParseValue(s, i).Rejected?
    requires var r := ParseResults(s, i + 1, true);
      if r.Rejected? then Mends(s, i + 1, r, ResultListText(rs))
      else MILanguage.Spans(r, s, i + 1, ResultListText(rs))
    ensures Mends(s, i, ParseValue(s, i), TreeText(Tuple(rs)))
  {
    hide ParseResults, Begins, Occurs, ResultListText;
    var ParseError(problem, p) := ParseValue(s, i).error;
    if ParseResults(s, i + 1, true).Rejected? {
      BeginsLonger(s, i + 1, p, Wanted(problem), ResultListText(rs), "}");
    } else {
      BeginsWhole(s, i + 1, ResultListText(rs), Some('}'), "}");
    }
    BeginsChar(s, i, p, Wanted(problem), '{', ResultListText(rs) + "}");
    assert TreeText(Tuple(rs)) == ['{'] + (ResultListText(rs) + "}");
  }

  lemma ListMends(s: string, i: nat, items: ItemList)
    requires At(s, i, '[') && ParseValue(s, i).Rejected?
    requires var r := ParseItems(s, i + 1);
      if r.Rejected? then Mends(s, i + 1, r, ItemListText(items))
      else MILanguage.Spans(r, s, i + 1, ItemListText(items))
    ensures Mends(s, i, ParseValue(s, i), TreeText(List(items)))
  {
    hide ParseItems, Begins, Occurs, ItemListText;
    var ParseError(problem, p) := ParseValue(s, i).error;
    if ParseItems(s, i + 1).Rejected? {
      BeginsLonger(s, i + 1, p, Wanted(problem), ItemListText(items), "]");
    } else {
      BeginsWhole(s, i + 1, ItemListText(items), Some(']'), "]");
    }
    BeginsChar(s, i, p, Wanted(problem), '[', ItemListText(items) + "]");
    assert TreeText(List(items)) == ['['] + (ItemListText(items) + "]");
  }

  lemma BareMends(s: string, i: nat)
    requires i <= |s| && ParseValue(s, i).Rejected? && !At(s, i, '"') && !At(s, i, '{') && !At(s, i, '[')
    ensures Mends(s, i, ParseValue(s, i), TreeText(EMPTY))
  {
    EmptyIsWf();
    BeginsNothing(s, i, '"', "\"");
  }

  lemma {:induction false} ValueGoesOn(s: string, i: nat) returns (t: Tree)
    requires i <= |s| && ParseValue(s, i).Rejected?
    ensures WfTree(t) && !t.Bare? && Mends(s, i, ParseValue(s, i), TreeText(t))
    decreases |s| - i, 1
  {
    PartRejected(s, i);
    hide ParseValue, ParsePieces, ParseResults, ParseItems, Mends, TreeText, WfPieces, WfResultList, WfItemList;
    if At(s, i, '"') {
      var ps := PiecesGoOn(s, i + 1);
      t := Quoted(ps);
      QuotedMends(s, i, ps);
    } else if At(s, i, '{') {
      var rs;
      if ParseResults(s, i + 1, true).Rejected? {
        rs := ResultsGoOn(s, i + 1, true);
      } else {
        MILanguage.ResultsSound(s, i + 1, true);
        rs := ParseResults(s, i + 1, true).value;
      }
      t := Tuple(rs);
      TupleMends(s, i, rs);
    } else if At(s, i, '[') {
      var items;
      if ParseItems(s, i + 1).Rejected? {
        items := ItemsGoOn(s, i + 1);
      } else {
        MILanguage.ItemsSound(s, i + 1);
        items := ParseItems(s, i + 1).value;
      }
      t := List(items);
      ListMends(s, i, items);
    } else {
      t := EMPTY;
      EmptyIsWf();
      BareMends(s, i);
    }
  }

  lemma PartRejected(s: string, i: nat)
    requires i <= |s| && ParseValue(s, i).Rejected?
    ensures At(s, i, '"') ==> ParsePieces(s, i + 1).Rejected?
  {}

  lemma EmptyIsWf()
    ensures WfTree(EMPTY) && TreeText(EMPTY) == ['"'] + "\"" && IsIdentifier("_") && ['_'] + "" == "_"
  {}

  lemma {:induction false} ResultGoesOn(s: string, i: nat) returns (key: string, v: Tree)
    requires i <= |s| && ParseResult(s, i).Rejected?
    ensures IsIdentifier(key) && WfTree(v) && Mends(s, i, ParseResult(s, i), ResultText(key, v))
    decreases |s| - i, 2
  {
    hide ParseIdentifier, ParseValue, Begins, Occurs, TreeText, WfTree, IsIdentifier;
    EmptyIsWf();
    if ParseIdentifier(s, i).Rejected? {
      key, v := "_", EMPTY;
      IdentifierStops(s, i);
      BeginsNothing(s, i, '_', "=" + TreeText(v));
      assert ['_'] + ("=" + TreeText(v)) == ResultText(key, v);
    } else {
      MILanguage.IdentifierSound(s, i);
      key := ParseIdentifier(s, i).value;
      var j := ParseIdentifier(s, i).next;
      if !At(s, j, '=') {
        v := EMPTY;
        BeginsWhole(s, i, key, Some('='), "=" + TreeText(v));
        assert key + ("=" + TreeText(v)) == ResultText(key, v);
      } else {
        v := ValueGoesOn(s, j + 1);
        var ParseError(problem, p) := ParseValue(s, j + 1).error;
        BeginsChar(s, j, p, Wanted(problem), '=', TreeText(v));
        BeginsBehind(s, i, p, Wanted(problem), key, "=" + TreeText(v));
        assert key + ("=" + TreeText(v)) == ResultText(key, v);
      }
    }
  }

  lemma IdentifierStops(s: string, i: nat)
    requires i <= |s| && ParseIdentifier(s, i).Rejected?
    ensures ParseIdentifier(s, i).error == ParseError(ExpectedIdentifier, i)
  {}

  /** A first part that stands in the line, a comma, and a rest that begins as the line goes on. */
  lemma BehindComma(s: string, i: nat, p: nat, next: Option<char>, first: string, rest: string)
    requires Occurs(s, i, first) && At(s, i + |first|, ',') && Begins(s, i + |first| + 1, p, next, rest)
    ensures Begins(s, i, p, next, first + ("," + rest))
  {
    hide Occurs, Begins;
    BeginsChar(s, i + |first|, p, next, ',', rest);
    BeginsBehind(s, i, p, next, first, "," + rest);
  }

  lemma {:induction false} ResultsGoOn(s: string, i: nat, inTuple: bool) returns (rs: ResultList)
    requires i <= |s| && ParseResults(s, i, inTuple).Rejected?
    ensures WfResultList(rs) && Mends(s, i, ParseResults(s, i, inTuple), ResultListText(rs))
    decreases |s| - i, 4
  {
    hide ParseResult, Begins, Occurs, ResultText, IsIdentifier, WfTree;
    if ParseResult(s, i).Rejected? {
      var k, v := ResultGoesOn(s, i);
      rs := LastResult(k, v);
    } else {
      MILanguage.ResultSound(s, i);
      var first := ParseResult(s, i);
      var k, v, j := first.value.0, first.value.1, first.next;
      var rest := ResultsGoOn(s, j + 1, inTuple);
      rs := MoreResults(k, v, rest);
      var ParseError(problem, p) := ParseResults(s, j + 1, inTuple).error;
      BehindComma(s, i, p, Wanted(problem), ResultText(k, v), ResultListText(rest));
    }
  }

  lemma {:induction false} ItemGoesOn(s: string, i: nat) returns (item: Item)
    requires i <= |s| && ParseItem(s, i).Rejected?
    ensures WfItem(item) && Mends(s, i, ParseItem(s, i), ItemText(item))
    decreases |s| - i, 3
  {
    hide ParseResult, ParseValue, NextIsResult, Begins, ResultText, TreeText, IsIdentifier, WfTree;
    if NextIsResult(s, i) {
      var k, v := ResultGoesOn(s, i);
      item := ResultItem(k, v);
    } else {
      var v := ValueGoesOn(s, i);
      item := ValueItem(v);
    }
  }

  lemma {:induction false} ItemsGoOn(s: string, i: nat) returns (items: ItemList)
    requires i <= |s| && ParseItems(s, i).Rejected?
    ensures WfItemList(items) && Mends(s, i, ParseItems(s, i), ItemListText(items))
    decreases |s| - i, 4
  {
    hide ParseItem, Begins, Occurs, ItemText, WfItem;
    if ParseItem(s, i).Rejected? {
      var item := ItemGoesOn(s, i);
      items := LastItem(item);
    } else {
      MILanguage.ItemSound(s, i);
      var item, j := ParseItem(s, i).value, ParseItem(s, i).next;
      var rest := ItemsGoOn(s, j + 1);
      items := MoreItems(item, rest);
      var ParseError(problem, p) := ParseItems(s, j + 1).error;
      BehindComma(s, i, p, Wanted(problem), ItemText(item), ItemListText(rest));
    }
  }

  lemma BodyGoesOn(s: string, i: nat, token: string) returns (cls: string, results: Option<ResultList>)
    requires 0 < i <= |s| && AllDigits(token) && IsRecordMarker(s[i - 1]) && ParseRecordBody(s, i, token).Rejected?
    ensures IsIdentifier(cls) && (results.Some? ==> WfResultList(results.value))
    ensures Mends(s, i, ParseRecordBody(s, i, token), RecordBodyText(cls, results))
    ensures ParseRecordBody(s, i, token).error.problem.TrailingData? ==>
      i + |RecordBodyText(cls, results)| == ParseRecordBody(s, i, token).error.position
  {
    hide ParseIdentifier, ParseResults, Begins, Occurs, ResultListText, IsIdentifier, WfResultList;
    EmptyIsWf();
    if ParseIdentifier(s, i).Rejected? {
      cls, results := "_", None;
      IdentifierStops(s, i);
      BeginsNothing(s, i, '_', "");
    } else {
      MILanguage.IdentifierSound(s, i);
      cls := ParseIdentifier(s, i).value;
      var j := ParseIdentifier(s, i).next;
      if !At(s, j, ',') {
        results := None;
        BeginsWhole(s, i, cls, None, "");
        assert cls + "" == cls;
      } else if ParseResults(s, j + 1, false).Rejected? {
        var rs := ResultsGoOn(s, j + 1, false);
        results := Some(rs);
        var ParseError(problem, p) := ParseResults(s, j + 1, false).error;
        BehindComma(s, i, p, Wanted(problem), cls, ResultListText(rs));
      } else {
        MILanguage.ResultsSound(s, j + 1, false);
        var rs := ParseResults(s, j + 1, false).value;
        results := Some(rs);
        BeginsWhole(s, j + 1, ResultListText(rs), None, "");
        assert ResultListText(rs) + "" == ResultListText(rs);
        BehindComma(s, i, ParseResults(s, j + 1, false).next, None, cls, ResultListText(rs));
      }
    }
  }

  lemma StreamGoesOn(s: string, i: nat, token: string) returns (ps: seq<Piece>)
    requires 0 < i <= |s| && AllDigits(token) && IsStreamMarker(s[i - 1]) && ParseStreamBody(s, i, token).Rejected?
    ensures WfPieces(ps) && Mends(s, i, ParseStreamBody(s, i, token), TreeText(Quoted(ps)))
    ensures ParseStreamBody(s, i, token).error.problem.TrailingStreamData? ==>
      i + |TreeText(Quoted(ps))| == ParseStreamBody(s, i, token).error.position
  {
    hide ParsePieces, Begins, Occurs, PiecesText, WfPieces;
    if !At(s, i, '"') {
      ps := [];
      NoPieces();
      BeginsNothing(s, i, '"', "\"");
    } else if ParsePieces(s, i + 1).Rejected? {
      ps := PiecesGoOn(s, i + 1);
      var ParseError(problem, p) := ParsePieces(s, i + 1).error;
      BeginsChar(s, i, p, Wanted(problem), '"', PiecesText(ps) + "\"");
      assert TreeText(Quoted(ps)) == ['"'] + (PiecesText(ps) + "\"");
    } else {
      MILanguage.PiecesSound(s, i + 1);
      ps := ParsePieces(s, i + 1).value;
      BeginsWhole(s, i + 1, PiecesText(ps) + "\"", None, "");
      assert PiecesText(ps) + "\"" + "" == PiecesText(ps) + "\"";
      BeginsChar(s, i, ParsePieces(s, i + 1).next, None, '"', PiecesText(ps) + "\"");
      assert TreeText(Quoted(ps)) == ['"'] + (PiecesText(ps) + "\"");
    }
  }

  lemma NoPieces()
    ensures WfPieces([]) && TreeText(Quoted([])) == ['"'] + "\""
  {}

  /** Token, marker and a body that begins as the line does behind its marker. */
  lemma HeadAndBody(s: string, m: nat, p: nat, next: Option<char>, body: string)
    requires m < |s| && Begins(s, m + 1, p, next, body)
    ensures Begins(s, 0, p, next, s[..m] + ([s[m]] + body))
    ensures |s[..m] + ([s[m]] + body)| == m + 1 + |body|
  {
    hide Begins, Occurs;
    TokenOccurs(s, m);
    BeginsChar(s, m, p, next, s[m], body);
    BeginsBehind(s, 0, p, next, s[..m], [s[m]] + body);
  }

  lemma DigitsOnlyGoOn(s: string) returns (t: LineTree)
    requires ParseTree(s).Rejected? && DigitsEnd(s, 0) == |s|
    ensures WfLine(t) && !t.PromptLine? && Mends(s, 0, ParseTree(s), LineText(t))
    ensures ParseTree(s).error.problem == MissingMarker
  {
    hide Begins, Occurs;
    EmptyIsWf();
    assert s[..|s|] == s;
    t := RecordLine(s, '^', "_", None);
    TokenOccurs(s, |s|);
    BeginsWhole(s, 0, s, Some('^'), ['^'] + "_");
  }

  lemma RecordGoesOn(s: string, m: nat) returns (t: LineTree)
    requires ParseTree(s).Rejected? && m == DigitsEnd(s, 0) < |s| && IsRecordMarker(s[m]) && s != PROMPT
    ensures WfLine(t) && !t.PromptLine? && Mends(s, 0, ParseTree(s), LineText(t))
    ensures Wanted(ParseTree(s).error.problem) == None ==> |LineText(t)| == ParseTree(s).error.position
  {
    assert AllDigits(s[..m]) && ParseTree(s) == ParseRecordBody(s, m + 1, s[..m]);
    hide ParseTree, ParseRecordBody, Begins, RecordBodyText, IsIdentifier, WfResultList;
    var ParseError(problem, p) := ParseRecordBody(s, m + 1, s[..m]).error;
    var cls, results := BodyGoesOn(s, m + 1, s[..m]);
    t := RecordLine(s[..m], s[m], cls, results);
    HeadAndBody(s, m, p, Wanted(problem), RecordBodyText(cls, results));
  }

  lemma StreamLineGoesOn(s: string, m: nat) returns (t: LineTree)
    requires ParseTree(s).Rejected? && m == DigitsEnd(s, 0) < |s| && IsStreamMarker(s[m]) && s != PROMPT
    ensures WfLine(t) && !t.PromptLine? && Mends(s, 0, ParseTree(s), LineText(t))
    ensures Wanted(ParseTree(s).error.problem) == None ==> |LineText(t)| == ParseTree(s).error.position
  {
    assert AllDigits(s[..m]) && ParseTree(s) == ParseStreamBody(s, m + 1, s[..m]);
    hide ParseTree, ParseStreamBody, Begins, TreeText, WfPieces;
    var ParseError(problem, p) := ParseStreamBody(s, m + 1, s[..m]).error;
    var ps := StreamGoesOn(s, m + 1, s[..m]);
    t := StreamLine(s[..m], s[m], ps);
    HeadAndBody(s, m, p, Wanted(problem), TreeText(Quoted(ps)));
  }

  /** What stands in front of the error is the beginning of a well-formed line that is not the prompt. */
  lemma LineGoesOn(s: string) returns (t: LineTree)
    requires ParseTree(s).Rejected? && !ParseTree(s).error.problem.UnsupportedMarker?
    ensures WfLine(t) && !t.PromptLine? && Mends(s, 0, ParseTree(s), LineText(t))
    ensures Wanted(ParseTree(s).error.problem) == None ==> |LineText(t)| == ParseTree(s).error.position
  {
    var m := DigitsEnd(s, 0);
    KnownMarker(s);
    hide ParseTree, LineText, WfLine, Mends, IsRecordMarker, IsStreamMarker;
    if m == |s| {
      t := DigitsOnlyGoOn(s);
    } else if IsRecordMarker(s[m]) {
      t := RecordGoesOn(s, m);
    } else {
      t := StreamLineGoesOn(s, m);
    }
  }

  lemma KnownMarker(s: string)
    requires ParseTree(s).Rejected? && !ParseTree(s).error.problem.UnsupportedMarker?
    ensures s != PROMPT
    ensures var m := DigitsEnd(s, 0); m < |s| ==> IsRecordMarker(s[m]) || IsStreamMarker(s[m])
  {}

  lemma TokenOccurs(s: string, m: nat)
    requires m <= |s|
    ensures Occurs(s, 0, s[..m])
  {}

  // ----- the place of an error -----

  /** The text is a line that says a record, other than the prompt. */
  ghost predicate IsRecord(s: string) {
    exists r: Record :: r.kind != PromptKind && LineSays(s, r)
  }

  /** The text is the beginning of such a line. */
  ghost predicate CanGoOn(s: string) {
    exists rest: string :: IsRecord(s + rest)
  }

  lemma IsRecordExactly(s: string)
    ensures IsRecord(s) <==> s != PROMPT && ParseTree(s).Parsed?
  {
    if r: Record :| r.kind != PromptKind && LineSays(s, r) {
      var t := LineTreeOf(s, r);
      MILanguage.LineComplete(t);
      if s == PROMPT { MILanguage.PromptComplete(); }
    }
    if s != PROMPT && ParseTree(s).Parsed? {
      MILanguage.LineSound(s);
      var t := ParseTree(s).value;
      LineTreeSays(t);
      assert LineMeaning(t, s).kind != PromptKind;
    }
  }

  lemma TreeIsRecord(t: LineTree)
    requires WfLine(t) && !t.PromptLine?
    ensures IsRecord(LineText(t))
  {
    LineTreeSays(t);
    assert LineMeaning(t, LineText(t)).kind != PromptKind;
  }

  lemma Prefix(s: string, p: nat, next: Option<char>, w: string)
    requires Begins(s, 0, p, next, w)
    ensures s[..p] <= w && (next.Some? ==> s[..p] + [next.value] <= w)
  {}

  lemma GoesOnTo(s: string, w: string)
    requires s <= w && IsRecord(w)
    ensures CanGoOn(s)
  {
    assert s + w[|s|..] == w;
  }

  lemma StopsHere(s: string, p: nat)
    requires ParseTree(s).Rejected? && ParseTree(s).error.position == p < |s|
    requires !ParseTree(s).error.problem.UnsupportedMarker?
    ensures !CanGoOn(s[..p + 1])
  {
    hide IsRecord, ParseTree;
    var head := s[..p + 1];
    forall rest: string ensures !IsRecord(head + rest) {
      var t := head + rest;
      IsRecordExactly(t);
      if t != PROMPT { SameError(s, t, p); }
    }
  }

  lemma DigitsGoOn(s: string, m: nat)
    requires m <= |s| && AllDigits(s[..m])
    ensures CanGoOn(s[..m])
  {
    var t := RecordLine(s[..m], '^', "_", None);
    EmptyIsWf();
    TreeIsRecord(t);
    GoesOnTo(s[..m], LineText(t));
  }

  /** No record begins with digits and another character than a marker. */
  lemma MarkerMissing(s: string, m: nat)
    requires m < |s| && AllDigits(s[..m]) && !IsDigit(s[m]) && !IsRecordMarker(s[m]) && !IsStreamMarker(s[m])
    ensures !CanGoOn(s[..m + 1])
  {
    hide IsRecord, ParseRecordBody, ParseStreamBody;
    var head := s[..m + 1];
    forall rest: string ensures !IsRecord(head + rest) {
      var u := head + rest;
      assert u[..m] == s[..m] && u[m] == s[m];
      MILanguage.DigitsEndIs(u, m);
      IsRecordExactly(u);
    }
  }

  lemma NoMarker(s: string)
    requires ParseTree(s).Rejected? && ParseTree(s).error.problem.UnsupportedMarker?
    ensures var ParseError(problem, p) := ParseTree(s).error;
      && p > 0 && s[p - 1] == problem.marker && problem.marker !in "^*+=~@&"
      && CanGoOn(s[..p - 1]) && !CanGoOn(s[..p])
  {
    hide ParseRecordBody, ParseStreamBody, CanGoOn;
    var m := MarkerPlace(s);
    assert forall k :: 0 <= k < m ==> s[..m][k] == s[k];
    DigitsGoOn(s, m);
    MarkerMissing(s, m);
  }

  lemma MarkerPlace(s: string) returns (m: nat)
    requires ParseTree(s).Rejected? && ParseTree(s).error.problem.UnsupportedMarker?
    ensures m < |s| && ParseTree(s).error == ParseError(UnsupportedMarker(s[m]), m + 1)
    ensures (forall k :: 0 <= k < m ==> IsDigit(s[k])) && !IsDigit(s[m])
    ensures !IsRecordMarker(s[m]) && !IsStreamMarker(s[m]) && s[m] !in "^*+=~@&"
  {
    m := DigitsEnd(s, 0);
  }

  /** A line that is no record goes wrong exactly where the error says: what stands in front of that place can still
      become a record, by the character the error asks for or as it stands when the error is about what follows, and
      with the character at that place it no longer can. An unsupported marker is reported behind it. */
  lemma ErrorsTellTruth(line: string, error: ParseError)
    requires MIParser.RecordOf(line) == Failure(error)
    ensures var s, p := MIParser.RStrip(line), error.position;
      p <= |s| &&
      match error.problem
      case UnsupportedMarker(c) =>
        p > 0 && s[p - 1] == c && c !in "^*+=~@&" && CanGoOn(s[..p - 1]) && !CanGoOn(s[..p])
      case TrailingData => p < |s| && IsRecord(s[..p]) && !CanGoOn(s[..p + 1])
      case TrailingStreamData => p < |s| && IsRecord(s[..p]) && !CanGoOn(s[..p + 1])
      case MissingMarker => p == |s| && CanGoOn(s[..p] + ['^'])
      case UnterminatedString => p == |s| && CanGoOn(s[..p] + ['"'])
      case UnterminatedEscape => p == |s| && CanGoOn(s[..p] + ['_'])
      case ExpectedIdentifier => CanGoOn(s[..p] + ['_']) && (p < |s| ==> !CanGoOn(s[..p + 1]))
      case ExpectedValue => CanGoOn(s[..p] + ['"']) && (p < |s| ==> !CanGoOn(s[..p + 1]))
      case Expected(c) => CanGoOn(s[..p] + [c]) && (p < |s| ==> !CanGoOn(s[..p + 1]))
  {
    hide IsRecord, ParseTree, CanGoOn, MIParser.RStrip, MIParser.RecordOf;
    var s := MIParser.RStrip(line);
    TreeRejected(line, error);
    if error.problem.UnsupportedMarker? {
      NoMarker(s);
    } else {
      GoesOnThere(s);
      if error.position < |s| { StopsHere(s, error.position); }
    }
  }

  lemma TreeRejected(line: string, error: ParseError)
    requires MIParser.RecordOf(line) == Failure(error)
    ensures var s := MIParser.RStrip(line);
      ParseTree(s) == Rejected(error) && error.position <= |s| && (AtEndOnly(error.problem) ==> error.position == |s|)
      && (AboutRest(error.problem) ==> error.position < |s|)
  {}

  lemma GoesOnThere(s: string)
    requires ParseTree(s).Rejected? && !ParseTree(s).error.problem.UnsupportedMarker?
    ensures var ParseError(problem, p) := ParseTree(s).error;
      match Wanted(problem)
      case None => IsRecord(s[..p])
      case Some(c) => CanGoOn(s[..p] + [c])
  {
    var ParseError(problem, p) := ParseTree(s).error;
    var t := LineGoesOn(s);
    TreeIsRecord(t);
    hide IsRecord, ParseTree, LineText, WfLine, CanGoOn, Wanted;
    Prefix(s, p, Wanted(problem), LineText(t));
    if Wanted(problem) == None {
      assert s[..p] == LineText(t);
    } else {
      GoesOnTo(s[..p] + [Wanted(problem).value], LineText(t));
    }
  }
}
