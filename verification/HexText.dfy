/** What hexadecimal text means, character by character: exactly which text `bytes.fromhex` accepts and with which
    bytes, what `bytes.hex` writes, and when two texts are equal up to the case of letters. */
module HexText {
  import opened Basics
  import opened Hex

  const LOWER_DIGITS := "0123456789abcdef"
  const UPPER_DIGITS := "0123456789ABCDEF"
  const ASCII_SPACES := " \t\n\r\U{0B}\U{0C}"

  /** `c` is the hexadecimal digit of `n`, in either case. */
  predicate IsDigitOf(c: char, n: nat)
    requires n < 16
  {
    c == LOWER_DIGITS[n] || c == UPPER_DIGITS[n]
  }

  function NoSpaces(s: string): (t: string)
    ensures |t| <= |s|
  {
    if s == "" then "" else (if s[0] in ASCII_SPACES then "" else [s[0]]) + NoSpaces(s[1..])
  }

  /** White space stands only where an even number of other characters is in front of it. */
  predicate PairsWhole(s: string) {
    forall i :: 0 <= i < |s| && s[i] in ASCII_SPACES ==> |NoSpaces(s[..i])| % 2 == 0
  }

  /** Pair `k` of the characters is the two digits of the byte. */
  predicate PairOf(t: string, k: nat, b: Byte) {
    2 * k + 1 < |t| && IsDigitOf(t[2 * k], b / 16) && IsDigitOf(t[2 * k + 1], b % 16)
  }

  /** The text writes the bytes: two digits in either case for each of them, with white space only between pairs. */
  predicate SpellsBytes(s: string, data: seq<Byte>) {
    PairsWhole(s) && PairsOf(NoSpaces(s), data)
  }

  predicate PairsOf(t: string, data: seq<Byte>) {
    |t| == 2 * |data| && forall k :: 0 <= k < |data| ==> PairOf(t, k, data[k])
  }

  /** The text writes some bytes. */
  predicate IsHexText(s: string) {
    var t := NoSpaces(s);
    && PairsWhole(s)
    && |t| % 2 == 0
    && forall k :: 0 <= k < |t| ==> t[k] in LOWER_DIGITS || t[k] in UPPER_DIGITS
  }

  // ----- single characters -----

  lemma SpaceExactly(c: char)
    ensures IsAsciiSpace(c) <==> c in ASCII_SPACES
  {
    if c in ASCII_SPACES {
      assert c == ' ' || c == '\t' || c == '\n' || c == '\r' || c == '\U{0B}' || c == '\U{0C}';
    }
    assert ASCII_SPACES[0] == ' ' && ASCII_SPACES[1] == '\t' && ASCII_SPACES[2] == '\n';
    assert ASCII_SPACES[3] == '\r' && ASCII_SPACES[4] == '\U{0B}' && ASCII_SPACES[5] == '\U{0C}';
  }

  lemma DigitExactly(c: char, n: nat)
    requires n < 16
    ensures IsHexDigit(c) && HexValue(c) == n <==> IsDigitOf(c, n)
    ensures HexDigit(n) == LOWER_DIGITS[n]
  {}

  lemma SomeDigit(c: char)
    ensures IsHexDigit(c) <==> c in LOWER_DIGITS || c in UPPER_DIGITS
  {
    if IsHexDigit(c) { DigitExactly(c, HexValue(c)); }
    if n :| 0 <= n < 16 && LOWER_DIGITS[n] == c { DigitExactly(c, n); }
    if n :| 0 <= n < 16 && UPPER_DIGITS[n] == c { DigitExactly(c, n); }
  }

  // ----- white space -----

  lemma {:induction false} PrefixLength(s: string, i: nat)
    requires 0 < i <= |s|
    ensures |NoSpaces(s[..i])| == (if s[0] in ASCII_SPACES then 0 else 1) + |NoSpaces(s[1..][..i - 1])|
  {
    assert s[..i][1..] == s[1..][..i - 1];
  }

  lemma WholeBehindSpace(s: string)
    requires s != "" && s[0] in ASCII_SPACES
    ensures PairsWhole(s) <==> PairsWhole(s[1..])
  {
    hide NoSpaces;
    forall i | 0 <= i < |s| ensures i > 0 ==> s[i] == s[1..][i - 1] && |NoSpaces(s[..i])| == |NoSpaces(s[1..][..i - 1])|
    {
      if i > 0 { PrefixLength(s, i); }
    }
    assert |NoSpaces(s[..0])| == 0 by { NoPrefix(s); }
    if PairsWhole(s) {
      forall i | 0 <= i < |s[1..]| && s[1..][i] in ASCII_SPACES ensures |NoSpaces(s[1..][..i])| % 2 == 0 {
        assert s[i + 1] == s[1..][i];
      }
    }
  }

  lemma NoPrefix(s: string)
    ensures |NoSpaces(s[..0])| == 0
  {}

  lemma WholeBehindPair(s: string)
    requires |s| >= 2 && s[0] !in ASCII_SPACES && s[1] !in ASCII_SPACES
    ensures PairsWhole(s) <==> PairsWhole(s[2..])
  {
    hide NoSpaces;
    forall i | 2 <= i < |s| ensures s[i] == s[2..][i - 2] && |NoSpaces(s[..i])| == 2 + |NoSpaces(s[2..][..i - 2])| {
      PrefixLength(s, i);
      PrefixLength(s[1..], i - 1);
      assert s[1..][1..] == s[2..];
    }
    if PairsWhole(s) {
      forall i | 0 <= i < |s[2..]| && s[2..][i] in ASCII_SPACES ensures |NoSpaces(s[2..][..i])| % 2 == 0 {
        assert s[i + 2] == s[2..][i];
      }
    }
  }

  lemma SplitPair(s: string)
    requires |s| >= 2 && s[0] !in ASCII_SPACES && s[1] in ASCII_SPACES
    ensures !PairsWhole(s)
  {
    PrefixLength(s, 1);
    NoPrefix(s[1..]);
  }

  lemma NoSpacesOfPair(s: string)
    requires |s| >= 2 && s[0] !in ASCII_SPACES && s[1] !in ASCII_SPACES
    ensures NoSpaces(s) == [s[0], s[1]] + NoSpaces(s[2..])
  {
    assert s[1..][1..] == s[2..];
  }

  // ----- the exact meaning -----

  /** Decoding gives these bytes if and only if the text writes them. */
  lemma {:induction false} FromHexExactly(s: string, data: seq<Byte>)
    ensures FromHex(s) == Some(data) <==> SpellsBytes(s, data)
    decreases |s|
  {
    if s == "" {
    } else if s[0] in ASCII_SPACES {
      SpaceExactly(s[0]);
      WholeBehindSpace(s);
      FromHexExactly(s[1..], data);
    } else if |s| == 1 {
      SpaceExactly(s[0]);
    } else if s[1] in ASCII_SPACES {
      SpaceExactly(s[0]);
      SpaceExactly(s[1]);
      SplitPair(s);
    } else {
      SpaceExactly(s[0]);
      PairExactly(s, data);
    }
  }

  lemma {:induction false} PairExactly(s: string, data: seq<Byte>)
    requires |s| >= 2 && s[0] !in ASCII_SPACES && s[1] !in ASCII_SPACES && !IsAsciiSpace(s[0])
    ensures FromHex(s) == Some(data) <==> SpellsBytes(s, data)
    decreases |s|, 0
  {
    NoSpacesOfPair(s);
    WholeBehindPair(s);
    if data == [] {
      hide FromHex, NoSpaces, PairsWhole;
      PairDecodes(s);
    } else {
      FromHexExactly(s[2..], data[1..]);
      PairsStep(NoSpaces(s), data);
      assert NoSpaces(s)[2..] == NoSpaces(s[2..]);
      DigitExactly(s[0], data[0] / 16);
      DigitExactly(s[1], data[0] % 16);
      FromHexStep(s, data);
      hide NoSpaces, PairsWhole, PairsOf, IsDigitOf, FromHex;
    }
  }

  lemma FromHexStep(s: string, data: seq<Byte>)
    requires data != [] && |s| >= 2 && !IsAsciiSpace(s[0])
    ensures FromHex(s) == Some(data)
      <==> (IsHexDigit(s[0]) && HexValue(s[0]) == data[0] / 16 && IsHexDigit(s[1]) && HexValue(s[1]) == data[0] % 16
        && FromHex(s[2..]) == Some(data[1..]))
  {
    hide IsHexDigit, HexValue;
    if IsHexDigit(s[0]) && IsHexDigit(s[1]) {
      NibblesOf(HexValue(s[0]), HexValue(s[1]), data[0]);
    }
    if FromHex(s) == Some(data) { assert data[1..] == FromHex(s[2..]).value; }
    if FromHex(s[2..]) == Some(data[1..]) { assert [data[0]] + data[1..] == data; }
  }

  lemma NibblesOf(high: nat, low: nat, b: Byte)
    requires high < 16 && low < 16
    ensures 16 * high + low == b <==> high == b / 16 && low == b % 16
  {}

  lemma PairDecodes(s: string)
    requires |s| >= 2 && !IsAsciiSpace(s[0])
    ensures FromHex(s) != Some([])
  {}

  lemma PairShift(t: string, u: string, k: nat, b: Byte)
    requires |t| == |u| + 2 && t[2..] == u
    ensures PairOf(u, k, b) <==> PairOf(t, k + 1, b)
  {
    hide IsDigitOf;
    if 2 * k + 1 < |u| { assert u[2 * k] == t[2 * (k + 1)] && u[2 * k + 1] == t[2 * (k + 1) + 1]; }
  }

  lemma PairsStep(t: string, data: seq<Byte>)
    requires data != [] && |t| >= 2
    ensures PairsOf(t, data)
      <==> IsDigitOf(t[0], data[0] / 16) && IsDigitOf(t[1], data[0] % 16) && PairsOf(t[2..], data[1..])
  {
    FirstPair(t, data[0]);
    hide IsDigitOf, PairOf;
    if PairsOf(t[2..], data[1..]) && PairOf(t, 0, data[0]) {
      forall k | 0 <= k < |data| ensures PairOf(t, k, data[k]) {
        if k > 0 {
          assert PairOf(t[2..], k - 1, data[1..][k - 1]);
          PairShift(t, t[2..], k - 1, data[k]);
        }
      }
    } else if PairsOf(t, data) {
      forall k | 0 <= k < |data[1..]| ensures PairOf(t[2..], k, data[1..][k]) {
        PairShift(t, t[2..], k, data[k + 1]);
      }
    }
  }

  lemma FirstPair(t: string, b: Byte)
    requires |t| >= 2
    ensures PairOf(t, 0, b) <==> IsDigitOf(t[0], b / 16) && IsDigitOf(t[1], b % 16)
  {}

  /** Text is rejected if and only if white space splits a pair, the number of digits is odd, or another character
      than a digit or white space stands in it. */
  lemma RejectedExactly(s: string)
    ensures FromHex(s) == None <==> !IsHexText(s)
  {
    hide NoSpaces, PairsWhole, FromHex;
    if FromHex(s).Some? {
      FromHexExactly(s, FromHex(s).value);
      SpelledIsHex(s, FromHex(s).value);
    } else if IsHexText(s) {
      var data := HexBytes(s);
      FromHexExactly(s, data);
    }
  }

  lemma SpelledIsHex(s: string, data: seq<Byte>)
    requires SpellsBytes(s, data)
    ensures IsHexText(s)
  {
    hide NoSpaces, PairsWhole;
    var t := NoSpaces(s);
    forall k | 0 <= k < |t| ensures t[k] in LOWER_DIGITS || t[k] in UPPER_DIGITS {
      assert PairOf(t, k / 2, data[k / 2]);
      assert k == 2 * (k / 2) || k == 2 * (k / 2) + 1;
    }
  }

  lemma HexBytes(s: string) returns (data: seq<Byte>)
    requires IsHexText(s)
    ensures SpellsBytes(s, data)
  {
    hide NoSpaces, PairsWhole;
    var t := NoSpaces(s);
    forall k | 0 <= k < |t| ensures IsHexDigit(t[k]) && IsDigitOf(t[k], HexValue(t[k])) {
      SomeDigit(t[k]);
      if IsHexDigit(t[k]) { DigitExactly(t[k], HexValue(t[k])); }
    }
    hide IsDigitOf, IsHexDigit, HexValue;
    data := seq(|t| / 2, k requires 0 <= k < |t| / 2 => (16 * HexValue(t[2 * k]) + HexValue(t[2 * k + 1])) as Byte);
    forall k | 0 <= k < |data| ensures PairOf(t, k, data[k]) {
      assert data[k] / 16 == HexValue(t[2 * k]) && data[k] % 16 == HexValue(t[2 * k + 1]);
    }
  }

  /** Decoding gives one byte for each two characters that are no white space. */
  lemma DecodedLength(s: string)
    ensures FromHex(s).Some? ==> |FromHex(s).value| == |NoSpaces(s)| / 2
  {
    if FromHex(s).Some? { FromHexExactly(s, FromHex(s).value); }
  }

  /** Encoding writes the two lower-case digits of each byte, in order and nothing else. */
  lemma {:induction false} ToHexDigits(data: seq<Byte>, k: nat)
    requires k < |data|
    ensures ToHex(data)[2 * k] == LOWER_DIGITS[data[k] / 16] && ToHex(data)[2 * k + 1] == LOWER_DIGITS[data[k] % 16]
  {
    if k == 0 {
      DigitExactly('0', data[0] / 16);
      DigitExactly('0', data[0] % 16);
    } else {
      ToHexDigits(data[1..], k - 1);
      assert ToHex(data)[2 * k] == ToHex(data[1..])[2 * (k - 1)];
      assert ToHex(data)[2 * k + 1] == ToHex(data[1..])[2 * (k - 1) + 1];
    }
  }

  // ----- the case of letters -----

  /** The same character, or the two forms of one letter, 32 places apart. */
  predicate SameLetter(c: char, d: char) {
    c == d || ('a' <= c <= 'z' && d as int + 32 == c as int) || ('a' <= d <= 'z' && c as int + 32 == d as int)
  }

  predicate EqualIgnoringCase(s: string, t: string) {
    |s| == |t| && forall i :: 0 <= i < |s| ==> SameLetter(s[i], t[i])
  }

  lemma SameLetterExactly(c: char, d: char)
    ensures Lower(c) == Lower(d) <==> SameLetter(c, d)
  {}

  /** Comparing lower-case forms is comparing up to the case of letters. */
  lemma LowerTextExactly(s: string, t: string)
    ensures LowerText(s) == LowerText(t) <==> EqualIgnoringCase(s, t)
  {
    hide Lower, SameLetter;
    forall i | 0 <= i < |s| && i < |t| ensures Lower(s[i]) == Lower(t[i]) <==> SameLetter(s[i], t[i]) {
      SameLetterExactly(s[i], t[i]);
    }
    assert |LowerText(s)| == |s| && |LowerText(t)| == |t|;
    if LowerText(s) == LowerText(t) {
      forall i | 0 <= i < |s| ensures SameLetter(s[i], t[i]) {
        assert LowerText(s)[i] == LowerText(t)[i];
      }
    }
  }
}
