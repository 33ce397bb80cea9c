/** What the numerals between target memory and the fault analyzer mean, digit by digit: the value of little-endian
    bytes, the form of the padded hexadecimal text, and exactly which text `int(text, 0)` accepts with which value. */
module Numerals {
  import opened Basics
  import Bits
  import opened Hex
  import opened HexText
  import opened Text

  // ----- little-endian bytes -----

  /** Byte `i` of the bytes is the value's digit of weight 256^i, and there are no further digits. */
  lemma {:induction false} LittleEndianByte(data: seq<Byte>, i: nat)
    requires i < |data|
    ensures Power(256, i) > 0 && LittleEndian(data) / Power(256, i) % 256 == data[i]
  {
    hide Power, LittleEndian;
    FirstByte(data);
    if i == 0 {
      LowByte(data[0], LittleEndian(data[1..]));
    } else {
      LittleEndianByte(data[1..], i - 1);
      NextPower(i);
      Scaled(data[0], LittleEndian(data[1..]), Power(256, i - 1));
    }
  }

  lemma FirstByte(data: seq<Byte>)
    requires data != []
    ensures LittleEndian(data) == data[0] + 256 * LittleEndian(data[1..])
  {}

  lemma NextPower(i: nat)
    ensures Power(256, 0) == 1
    ensures i > 0 ==> Power(256, i) == 256 * Power(256, i - 1)
  {}

  lemma LowByte(low: Byte, rest: nat)
    ensures Power(256, 0) == 1 && (low + 256 * rest) / Power(256, 0) % 256 == low
  {
    Bits.DivUnique(low + 256 * rest, 256, rest, low);
  }

  lemma Scaled(low: int, rest: int, p: int)
    requires 0 <= low < 256 && p > 0
    ensures 256 * p > 0 && (low + 256 * rest) / (256 * p) == rest / p
  {
    var q, r := rest / p, rest % p;
    assert low + 256 * rest == (256 * p) * q + (low + 256 * r) by {
      assert rest == p * q + r;
      assert 256 * (p * q) == (256 * p) * q;
    }
    Bits.DivUnique(low + 256 * rest, 256 * p, q, low + 256 * r);
  }

  lemma {:induction false} LittleEndianBound(data: seq<Byte>)
    ensures LittleEndian(data) < Power(256, |data|)
  {
    if data != [] { LittleEndianBound(data[1..]); }
  }

  /** A word of four bytes. */
  lemma LittleEndianWord(b0: Byte, b1: Byte, b2: Byte, b3: Byte)
    ensures LittleEndian([b0, b1, b2, b3])
      == (b0 as int) + 0x100 * (b1 as int) + 0x1_0000 * (b2 as int) + 0x100_0000 * (b3 as int)
  {
    var data := [b0, b1, b2, b3];
    assert data[1..] == [b1, b2, b3] && data[1..][1..] == [b2, b3] && [b2, b3][1..] == [b3] && [b3][1..] == [];
    assert LittleEndian([b3]) == b3;
    assert LittleEndian([b2, b3]) == b2 + 256 * LittleEndian([b3]);
    assert LittleEndian([b1, b2, b3]) == b1 + 256 * LittleEndian([b2, b3]);
  }

  // ----- the padded hexadecimal text -----

  predicate LowerDigits(s: string) {
    forall i :: 0 <= i < |s| ==> s[i] in LOWER_DIGITS
  }

  lemma {:induction false} HexNumberForm(value: nat)
    ensures LowerDigits(HexNumber(value))
    ensures |HexNumber(value)| > 1 ==> HexNumber(value)[0] != '0'
    ensures HexNumber(value)[0] == '0' ==> value == 0
  {
    DigitExactly('0', value % 16);
    if value >= 16 {
      HexNumberForm(value / 16);
    } else {
      DigitExactly('0', 0);
    }
  }

  lemma {:induction false} ZerosForm(n: int)
    ensures |Zeros(n)| == (if n > 0 then n else 0)
    ensures forall i :: 0 <= i < |Zeros(n)| ==> Zeros(n)[i] == '0'
    decreases if n > 0 then n else 0
  {
    if n > 0 { ZerosForm(n - 1); }
  }

  /** The format writes "0x" and at least eight lower-case digits, more only for a value that needs them. With
      `Hex08RoundTrip` and `ParseIntExactly` this leaves one text for each value. */
  lemma Hex08Form(value: nat)
    ensures var s := Hex08(value);
      |s| >= 10 && s[..2] == "0x" && LowerDigits(s[2..]) && (|s| > 10 ==> s[2] != '0')
  {
    var n := HexNumber(value);
    HexNumberForm(value);
    ZerosForm(8 - |n|);
    assert Hex08(value)[2..] == Zeros(8 - |n|) + n;
    assert '0' in LOWER_DIGITS by { assert LOWER_DIGITS[0] == '0'; }
  }

  // ----- numerals -----

  /** The text writes `n` in this base, least digit last, with at most one underscore between two digits. */
  predicate Writes(base: nat, s: string, n: nat)
    requires 2 <= base <= 16
    decreases |s|
  {
    var last := |s| - 1;
    && s != ""
    && IsDigitOf(s[last], n % base)
    && if last == 0 then n < base
       else Writes(base, if s[last - 1] == '_' then s[..last - 1] else s[..last], n / base)
  }

  /** The decimal text of a number writes it, without a leading zero. */
  lemma {:induction false} DecimalTextForm(n: nat)
    ensures Writes(10, DecimalText(n), n)
    ensures |DecimalText(n)| > 1 ==> DecimalText(n)[0] != '0'
    ensures n > 0 ==> DecimalText(n)[0] != '0'
    ensures forall k :: 0 <= k < |DecimalText(n)| ==> '0' <= DecimalText(n)[k] <= '9'
  {
    var t, last := DecimalText(n), |DecimalText(n)| - 1;
    OneDigit(n % 10);
    if n >= 10 {
      DecimalTextForm(n / 10);
      assert t[..last] == DecimalText(n / 10) && t[last - 1] == DecimalText(n / 10)[last - 1];
    }
  }

  lemma OneDigit(d: nat)
    requires d < 10
    ensures IsDigitOf(Digit(d), d) && (d > 0 ==> Digit(d) != '0')
  {}

  /** What the digits say, read from the left: the value so far, and whether a digit was last. */
  ghost function Scan(base: nat, s: string, value: nat, afterDigit: bool): Option<(nat, bool)> {
    if s == "" then Some((value, afterDigit))
    else if s[0] == '_' then (if afterDigit then Scan(base, s[1..], value, false) else None)
    else match DigitIn(base, s[0])
      case None => None
      case Some(d) => Scan(base, s[1..], value * base + d, true)
  }

  lemma {:induction false} ReadIsScan(base: nat, s: string, value: nat, afterDigit: bool)
    ensures ReadDigits(base, s, value, afterDigit)
      == match Scan(base, s, value, afterDigit)
         case None => None
         case Some((v, a)) => if a then Some(v) else None
    decreases |s|
  {
    if s != "" {
      if s[0] == '_' {
        ReadIsScan(base, s[1..], value, false);
      } else if DigitIn(base, s[0]).Some? {
        ReadIsScan(base, s[1..], value * base + DigitIn(base, s[0]).value, true);
      }
    }
  }

  /** One more character at the end. */
  ghost function Extended(base: nat, before: Option<(nat, bool)>, c: char): Option<(nat, bool)> {
    if before == None then None
    else if c == '_' then (if before.value.1 then Some((before.value.0, false)) else None)
    else match DigitIn(base, c)
      case None => None
      case Some(d) => Some((before.value.0 * base + d, true))
  }

  lemma {:induction false} ScanExtends(base: nat, s: string, c: char, value: nat, afterDigit: bool)
    ensures Scan(base, s + [c], value, afterDigit) == Extended(base, Scan(base, s, value, afterDigit), c)
    decreases |s|
  {
    if s == "" {
      assert s + [c] == [c] && [c][1..] == "";
    } else {
      assert (s + [c])[1..] == s[1..] + [c];
      if s[0] == '_' {
        ScanExtends(base, s[1..], c, value, false);
      } else if DigitIn(base, s[0]).Some? {
        ScanExtends(base, s[1..], c, value * base + DigitIn(base, s[0]).value, true);
      }
    }
  }

  lemma DigitInExactly(base: nat, c: char, d: nat)
    requires 2 <= base <= 16 && d < base
    ensures DigitIn(base, c) == Some(d) <==> IsDigitOf(c, d)
    ensures IsDigitOf(c, d) ==> c != '_'
  {
    DigitExactly(c, d);
  }

  lemma LastDigit(m: nat, base: nat, d: nat, n: nat)
    requires d < base
    ensures m * base + d == n <==> m == n / base && d == n % base
  {
    if m * base + d == n { Bits.DivUnique(n, base, m, d); }
  }

  lemma ExtendedExactly(base: nat, before: Option<(nat, bool)>, c: char, n: nat)
    requires 2 <= base <= 16
    ensures Extended(base, before, c) == Some((n, true))
      <==> before.Some? && IsDigitOf(c, n % base) && before.value.0 == n / base
  {
    DigitInExactly(base, c, n % base);
    hide IsDigitOf;
    if before.Some? && DigitIn(base, c).Some? {
      LastDigit(before.value.0, base, DigitIn(base, c).value, n);
    }
  }

  lemma WritesLast(base: nat, s: string, n: nat)
    requires 2 <= base <= 16 && s != ""
    ensures |s| == 1 ==> (Writes(base, s, n) <==> IsDigitOf(s[0], n % base) && n < base)
    ensures |s| > 1 ==>
      var last := |s| - 1;
      var front := if s[last - 1] == '_' then s[..last - 1] else s[..last];
      (Writes(base, s, n) <==> IsDigitOf(s[last], n % base) && Writes(base, front, n / base))
  {}

  lemma NothingScanned(base: nat)
    ensures Scan(base, "", 0, false) == Some((0, false))
  {}

  /** Scanning from the left reads the value that the digits write from the right. */
  lemma {:induction false} ScanExactly(base: nat, s: string, n: nat)
    requires 2 <= base <= 16
    ensures Scan(base, s, 0, false) == Some((n, true)) <==> Writes(base, s, n)
    decreases |s|
  {
    NothingScanned(base);
    if s != "" {
      var last := |s| - 1;
      var front := s[..last];
      assert s == front + [s[last]];
      ScanExtends(base, front, s[last], 0, false);
      ExtendedExactly(base, Scan(base, front, 0, false), s[last], n);
      WritesLast(base, s, n);
      SmallQuotient(n, base);
      hide Extended, IsDigitOf, Scan, Writes;
      if last > 0 && s[last - 1] == '_' {
        UnderscoreBefore(base, front);
        ScanExactly(base, front[..last - 1], n / base);
        assert front[..last - 1] == s[..last - 1];
      } else if last > 0 {
        DigitBefore(base, front);
        ScanExactly(base, front, n / base);
      }
    }
  }

  lemma SmallQuotient(n: nat, base: nat)
    requires base > 0
    ensures n / base == 0 <==> n < base
  {}

  lemma UnderscoreBefore(base: nat, front: string)
    requires front != "" && front[|front| - 1] == '_'
    ensures forall m ::
      Scan(base, front, 0, false) == Some((m, false)) <==> Scan(base, front[..|front| - 1], 0, false) == Some((m, true))
    ensures Scan(base, front, 0, false).Some? ==> !Scan(base, front, 0, false).value.1
  {
    assert front == front[..|front| - 1] + ['_'];
    ScanExtends(base, front[..|front| - 1], '_', 0, false);
  }

  lemma DigitBefore(base: nat, front: string)
    requires front != "" && front[|front| - 1] != '_'
    ensures Scan(base, front, 0, false).Some? ==> Scan(base, front, 0, false).value.1
  {
    assert front == front[..|front| - 1] + [front[|front| - 1]];
    ScanExtends(base, front[..|front| - 1], front[|front| - 1], 0, false);
  }

  /** Digits are accepted with this value if and only if they write it. */
  lemma ReadDigitsExactly(base: nat, s: string, n: nat)
    requires 2 <= base <= 16
    ensures ReadDigits(base, s, 0, false) == Some(n) <==> Writes(base, s, n)
  {
    ReadIsScan(base, s, 0, false);
    ScanExactly(base, s, n);
  }

  /** The two characters announce a base. */
  predicate Announces(s: string, low: char, high: char) {
    |s| >= 2 && s[0] == '0' && (s[1] == low || s[1] == high)
  }

  predicate WritesBehind(base: nat, s: string, n: nat)
    requires 2 <= base <= 16 && |s| >= 2
  {
    Writes(base, s[2..], n) || (|s| > 2 && s[2] == '_' && Writes(base, s[3..], n))
  }

  /** An integer literal of Python without sign. */
  predicate IsUnsignedLiteral(s: string, n: nat) {
    if Announces(s, 'x', 'X') then WritesBehind(16, s, n)
    else if Announces(s, 'o', 'O') then WritesBehind(8, s, n)
    else if Announces(s, 'b', 'B') then WritesBehind(2, s, n)
    else Writes(10, s, n) && (s[0] == '0' ==> n == 0)
  }

  lemma AfterPrefixExactly(base: nat, s: string, n: nat)
    requires 2 <= base <= 16 && |s| >= 2
    ensures AfterPrefix(base, s[2..]) == Some(n) <==> WritesBehind(base, s, n)
  {
    var t := s[2..];
    ReadDigitsExactly(base, t, n);
    if t != "" && t[0] == '_' {
      assert t[1..] == s[3..];
      ReadDigitsExactly(base, s[3..], n);
      assert ReadDigits(base, t, 0, false) == None;
    }
  }

  lemma UnsignedExactly(s: string, n: nat)
    ensures ReadUnsigned(s) == Some(n) <==> IsUnsignedLiteral(s, n)
  {
    hide Writes, ReadDigits, AfterPrefix, WritesBehind;
    ReadDigitsExactly(10, s, n);
    if |s| >= 2 {
      AfterPrefixExactly(16, s, n);
      AfterPrefixExactly(8, s, n);
      AfterPrefixExactly(2, s, n);
    }
    NoDigitsNothing();
  }

  lemma NoDigitsNothing()
    ensures ReadDigits(10, "", 0, false) == None
  {}

  /** An integer literal with an optional sign. */
  predicate IsLiteral(s: string, v: int) {
    && s != ""
    && if s[0] == '-' then v <= 0 && IsUnsignedLiteral(s[1..], -v)
       else v >= 0 && IsUnsignedLiteral(if s[0] == '+' then s[1..] else s, v)
  }

  predicate AllSpace(s: string) {
    forall i :: 0 <= i < |s| ==> IsSpace(s[i])
  }

  /** The characters that count as white space. */
  lemma SpaceTable(c: char)
    ensures IsSpace(c) <==> c as int in {
      0x09, 0x0A, 0x0B, 0x0C, 0x0D, 0x1C, 0x1D, 0x1E, 0x1F, 0x20, 0x85, 0xA0, 0x1680, 0x2000, 0x2001, 0x2002, 0x2003,
      0x2004, 0x2005, 0x2006, 0x2007, 0x2008, 0x2009, 0x200A, 0x2028, 0x2029, 0x202F, 0x205F, 0x3000}
  {}

  predicate NoOuterSpace(s: string) {
    s != "" ==> !IsSpace(s[0]) && !IsSpace(s[|s| - 1])
  }

  lemma {:induction false} StripLeftRemoves(lead: string, s: string)
    requires AllSpace(lead) && (s != "" ==> !IsSpace(s[0]))
    ensures StripLeft(lead + s) == s
    decreases |lead|
  {
    hide IsSpace;
    if lead == "" {
      assert lead + s == s;
    } else {
      assert (lead + s)[0] == lead[0] && (lead + s)[1..] == lead[1..] + s;
      StripLeftRemoves(lead[1..], s);
    }
  }

  lemma {:induction false} StripRightRemoves(s: string, trail: string)
    requires AllSpace(trail) && (s != "" ==> !IsSpace(s[|s| - 1]))
    ensures StripRight(s + trail) == s
    decreases |trail|
  {
    hide IsSpace;
    if trail == "" {
      assert s + trail == s;
    } else {
      var n := |trail| - 1;
      assert (s + trail)[|s + trail| - 1] == trail[n] && (s + trail)[..|s + trail| - 1] == s + trail[..n];
      StripRightRemoves(s, trail[..n]);
    }
  }

  /** White space around a text, which every text has in exactly one way. */
  lemma {:induction false} Trimmed(t: string) returns (lead: string, core: string, trail: string)
    ensures t == lead + core + trail && AllSpace(lead) && AllSpace(trail) && NoOuterSpace(core)
    decreases |t|
  {
    hide IsSpace;
    if t != "" && IsSpace(t[0]) {
      lead, core, trail := Trimmed(t[1..]);
      assert t == [t[0]] + t[1..];
      lead := [t[0]] + lead;
      assert t == lead + core + trail;
    } else if t != "" && IsSpace(t[|t| - 1]) {
      lead, core, trail := TrimmedRight(t);
    } else {
      lead, core, trail := "", t, "";
    }
  }

  lemma {:induction false} TrimmedRight(t: string) returns (lead: string, core: string, trail: string)
    requires t != "" ==> !IsSpace(t[0])
    ensures t == lead + core + trail && AllSpace(lead) && AllSpace(trail) && NoOuterSpace(core)
    decreases |t|
  {
    hide IsSpace;
    if t != "" && IsSpace(t[|t| - 1]) {
      var n := |t| - 1;
      lead, core, trail := TrimmedRight(t[..n]);
      assert t == t[..n] + [t[n]];
      var longer := trail + [t[n]];
      assert t == lead + core + longer;
      trail := longer;
    } else {
      lead, core, trail := "", t, "";
    }
  }

  /** `int(text, 0)` gives this value if and only if what stands between the outer white space is a literal of it. */
  lemma ParseIntExactly(lead: string, core: string, trail: string, v: int)
    requires AllSpace(lead) && AllSpace(trail) && NoOuterSpace(core)
    ensures ParseInt(Some(lead + core + trail)) == Some(v) <==> IsLiteral(core, v)
  {
    hide IsSpace, StripLeft, StripRight, ReadUnsigned, IsUnsignedLiteral;
    if core == "" {
      NothingBetween(lead, trail);
    } else {
      assert lead + core + trail == lead + (core + trail);
      StripLeftRemoves(lead, core + trail);
      StripRightRemoves(core, trail);
      var body := if core[0] == '-' || core[0] == '+' then core[1..] else core;
      var size := if v < 0 then -v else v;
      UnsignedExactly(body, size);
    }
  }

  lemma NothingBetween(lead: string, trail: string)
    requires AllSpace(lead) && AllSpace(trail)
    ensures ParseInt(Some(lead + "" + trail)) == None
  {
    hide IsSpace, StripRight;
    assert lead + "" + trail == (lead + trail) + "";
    assert AllSpace(lead + trail);
    StripLeftRemoves(lead + trail, "");
    StripRightRemoves("", "");
    assert "" + "" == "";
    NoDigitsNothing();
  }
}
