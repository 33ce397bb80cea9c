/** Bytes, hexadecimal text and integers as Python's `bytes.fromhex`, `bytes.hex`, `int.from_bytes`, `f"0x{v:08x}"`
    and `int(text, 0)` treat them. */
module Hex {
  import opened Basics
  import opened Text

  type Byte = n: nat | n < 256

  predicate IsHexDigit(c: char) {
    IsDigit(c) || 'a' <= c <= 'f' || 'A' <= c <= 'F'
  }

  function HexValue(c: char): (n: nat)
    requires IsHexDigit(c)
    ensures n < 16
  {
    if IsDigit(c) then DigitValue(c) else if c >= 'a' then c as int - 87 else c as int - 55
  }

  function HexDigit(n: nat): (c: char)
    requires n < 16
    ensures IsHexDigit(c) && HexValue(c) == n && Lower(c) == c
  {
    if n < 10 then Digit(n) else (87 + n) as char
  }

  /** `c.lower()` for the characters that can be part of hexadecimal text. */
  function Lower(c: char): char {
    if 'A' <= c <= 'Z' then (c as int + 32) as char else c
  }

  function LowerText(s: string): string {
    seq(|s|, i requires 0 <= i < |s| => Lower(s[i]))
  }

  predicate IsAsciiSpace(c: char) {
    c == ' ' || 9 <= c as int <= 13
  }

  /** `bytes.fromhex(s)`: white space may stand between bytes, anything else but pairs of digits is an error. */
  function FromHex(s: string): Option<seq<Byte>> {
    if s == "" then Some([])
    else if IsAsciiSpace(s[0]) then FromHex(s[1..])
    else if |s| < 2 || !IsHexDigit(s[0]) || !IsHexDigit(s[1]) then None
    else match FromHex(s[2..])
      case None => None
      case Some(rest) => Some([(16 * HexValue(s[0]) + HexValue(s[1])) as Byte] + rest)
  }

  /** `data.hex()`. */
  function ToHex(data: seq<Byte>): (s: string)
    ensures |s| == 2 * |data|
  {
    if data == [] then "" else [HexDigit(data[0] / 16), HexDigit(data[0] % 16)] + ToHex(data[1..])
  }

  /** Text that is the hexadecimal form of some bytes up to the case of letters decodes to those bytes. */
  lemma {:induction false} SameLowerDecodes(s: string, data: seq<Byte>)
    requires LowerText(s) == ToHex(data)
    ensures FromHex(s) == Some(data)
    decreases |data|
  {
    assert |s| == |LowerText(s)|;
    if data != [] {
      assert Lower(s[0]) == LowerText(s)[0] == HexDigit(data[0] / 16);
      assert Lower(s[1]) == LowerText(s)[1] == HexDigit(data[0] % 16);
      assert LowerText(s[2..]) == LowerText(s)[2..] == ToHex(data[1..]);
      SameLowerDecodes(s[2..], data[1..]);
      assert [data[0]] + data[1..] == data;
    }
  }

  lemma {:induction false} ToHexIsLower(data: seq<Byte>)
    ensures LowerText(ToHex(data)) == ToHex(data)
  {
    if data != [] {
      ToHexIsLower(data[1..]);
      var s := ToHex(data);
      forall i | 0 <= i < |s| ensures Lower(s[i]) == s[i] {
        if i >= 2 { assert s[i] == ToHex(data[1..])[i - 2] == LowerText(ToHex(data[1..]))[i - 2]; }
      }
    }
  }

  /** Decoding undoes encoding. */
  lemma HexRoundTrip(data: seq<Byte>)
    ensures FromHex(ToHex(data)) == Some(data)
  {
    ToHexIsLower(data);
    SameLowerDecodes(ToHex(data), data);
  }

  // ----- integers -----

  /** `int.from_bytes(data, byteorder="little", signed=False)`. */
  function LittleEndian(data: seq<Byte>): nat {
    if data == [] then 0 else data[0] + 256 * LittleEndian(data[1..])
  }

  /** `value.to_bytes(n, "little")`, for values that fit. */
  function ToLittleEndian(value: nat, n: nat): (data: seq<Byte>)
    ensures |data| == n
  {
    if n == 0 then [] else [(value % 256) as Byte] + ToLittleEndian(value / 256, n - 1)
  }

  function Power(base: nat, n: nat): nat {
    if n == 0 then 1 else base * Power(base, n - 1)
  }

  lemma {:induction false} LittleEndianRoundTrip(value: nat, n: nat)
    requires value < Power(256, n)
    ensures LittleEndian(ToLittleEndian(value, n)) == value
    decreases n
  {
    if n > 0 {
      LittleEndianRoundTrip(value / 256, n - 1);
      assert ToLittleEndian(value, n)[1..] == ToLittleEndian(value / 256, n - 1);
    }
  }

  function HexNumber(value: nat): (s: string)
    ensures s != ""
  {
    if value < 16 then [HexDigit(value)] else HexNumber(value / 16) + [HexDigit(value % 16)]
  }

  function Zeros(n: int): string {
    if n <= 0 then "" else "0" + Zeros(n - 1)
  }

  /** `f"0x{value:08x}"`. */
  function Hex08(value: nat): string {
    "0x" + (Zeros(8 - |HexNumber(value)|) + HexNumber(value))
  }

  // ----- int(text, 0) -----

  function StripLeft(s: string): string {
    if s != "" && IsSpace(s[0]) then StripLeft(s[1..]) else s
  }

  function StripRight(s: string): string {
    if s != "" && IsSpace(s[|s| - 1]) then StripRight(s[..|s| - 1]) else s
  }

  function DigitIn(base: nat, c: char): Option<nat> {
    var d := if IsHexDigit(c) then HexValue(c) else base;
    if d < base then Some(d) else None
  }

  /** Digits with single underscores between them; `value` is what was read, `afterDigit` whether a digit was last. */
  function ReadDigits(base: nat, s: string, value: nat, afterDigit: bool): Option<nat> {
    if s == "" then (if afterDigit then Some(value) else None)
    else if s[0] == '_' then (if afterDigit then ReadDigits(base, s[1..], value, false) else None)
    else match DigitIn(base, s[0])
      case None => None
      case Some(d) => ReadDigits(base, s[1..], value * base + d, true)
  }

  /** Behind a base prefix one underscore is allowed. */
  function AfterPrefix(base: nat, s: string): Option<nat> {
    ReadDigits(base, if s != "" && s[0] == '_' then s[1..] else s, 0, false)
  }

  /** A number without sign; a decimal number with a leading zero must be zero. */
  function ReadUnsigned(s: string): Option<nat> {
    if |s| >= 2 && s[0] == '0' && (s[1] == 'x' || s[1] == 'X') then AfterPrefix(16, s[2..])
    else if |s| >= 2 && s[0] == '0' && (s[1] == 'o' || s[1] == 'O') then AfterPrefix(8, s[2..])
    else if |s| >= 2 && s[0] == '0' && (s[1] == 'b' || s[1] == 'B') then AfterPrefix(2, s[2..])
    else match ReadDigits(10, s, 0, false)
      case None => None
      case Some(v) => if s[0] == '0' && v != 0 then None else Some(v)
  }

  /** `_parse_int` of the fault analyzer: `int(text, 0)`, or nothing when there is no text or no number in it. */
  function ParseInt(text: Option<string>): Option<int> {
    match text
    case None => None
    case Some(t) =>
      var s := StripRight(StripLeft(t));
      var negative := s != "" && s[0] == '-';
      var body := if s != "" && (s[0] == '-' || s[0] == '+') then s[1..] else s;
      match ReadUnsigned(body)
      case None => None
      case Some(v) => Some(if negative then -(v as int) else v)
  }

  lemma {:induction false} ReadAppend(s: string, c: char, value: nat)
    requires s != "" && IsHexDigit(c) && forall i :: 0 <= i < |s| ==> IsHexDigit(s[i])
    ensures ReadDigits(16, s, value, true).Some?
    ensures ReadDigits(16, s + [c], value, true) == Some(16 * ReadDigits(16, s, value, true).value + HexValue(c))
    decreases |s|
  {
    assert (s + [c])[1..] == s[1..] + [c];
    if |s| == 1 {
      assert s[1..] == "" && s[1..] + [c] == [c] && [c][1..] == "";
      ReadEnd(c, value * 16 + HexValue(s[0]));
    } else {
      ReadAppend(s[1..], c, value * 16 + HexValue(s[0]));
    }
  }

  lemma ReadEnd(c: char, value: nat)
    requires IsHexDigit(c)
    ensures ReadDigits(16, [c], value, true) == Some(16 * value + HexValue(c))
  {
    assert [c][1..] == "";
  }

  lemma {:induction false} HexNumberReads(value: nat)
    ensures forall i :: 0 <= i < |HexNumber(value)| ==> IsHexDigit(HexNumber(value)[i])
    ensures ReadDigits(16, HexNumber(value), 0, true) == Some(value)
  {
    if value < 16 {
      ReadEnd(HexDigit(value), 0);
    } else {
      HexNumberReads(value / 16);
      ReadAppend(HexNumber(value / 16), HexDigit(value % 16), 0);
    }
  }

  lemma {:induction false} ZerosRead(n: int, s: string)
    ensures ReadDigits(16, Zeros(n) + s, 0, true) == ReadDigits(16, s, 0, true)
    decreases if n > 0 then n else 0
  {
    if n <= 0 {
      assert Zeros(n) + s == s;
    } else {
      ZerosRead(n - 1, s);
      assert (Zeros(n) + s)[0] == '0' && (Zeros(n) + s)[1..] == Zeros(n - 1) + s;
    }
  }

  /** Parsing undoes the eight-digit hexadecimal format, for every value. */
  lemma Hex08RoundTrip(value: nat)
    ensures ParseInt(Some(Hex08(value))) == Some(value)
  {
    var n := HexNumber(value);
    var z := Zeros(8 - |n|);
    var s := Hex08(value);
    HexNumberReads(value);
    ZerosRead(8 - |n|, n);
    assert s[0] == '0' && s[1] == 'x' && s[2..] == z + n;
    HexTail(z, n);
    assert s[|s| - 1] == n[|n| - 1];
    assert IsHexDigit(s[2]) by {
      assert s[2] == (z + n)[0];
      if 8 - |n| > 0 { assert z[0] == '0'; }
    }
    FirstDigit(z + n);
    assert StripLeft(s) == s && StripRight(s) == s;
  }

  lemma HexTail(z: string, n: string)
    requires n != "" && forall i :: 0 <= i < |n| ==> IsHexDigit(n[i])
    ensures !IsSpace((z + n)[|z + n| - 1])
  {
    assert (z + n)[|z + n| - 1] == n[|n| - 1];
  }

  /** In front of a digit it does not matter whether a digit came before. */
  lemma FirstDigit(s: string)
    requires s != "" && IsHexDigit(s[0])
    ensures ReadDigits(16, s, 0, false) == ReadDigits(16, s, 0, true)
    ensures AfterPrefix(16, s) == ReadDigits(16, s, 0, true)
  {}
}
