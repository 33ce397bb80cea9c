/** Fault registers from target memory to named faults: snapshots/service.py and analyzers/cortexm/fault_analyzer.py.
    The registers are those of the Armv7-M Architecture Reference Manual (DDI 0403), sections B3.2.15 and B3.2.16. */
module FaultAnalyzer {
  import opened Basics
  import opened Bits
  import opened Hex
  import opened HexText

  datatype BitName = BitName(bit: nat, name: string)

  const USAGE_FAULT_BITS := [
    BitName(0, "UNDEFINSTR"), BitName(1, "INVSTATE"), BitName(2, "INVPC"),
    BitName(3, "NOCP"), BitName(8, "UNALIGNED"), BitName(9, "DIVBYZERO")]

  const BUS_FAULT_BITS := [
    BitName(0, "IBUSERR"), BitName(1, "PRECISERR"), BitName(2, "IMPRECISERR"),
    BitName(3, "UNSTKERR"), BitName(4, "STKERR"), BitName(5, "LSPERR"), BitName(7, "BFARVALID")]

  const MEMMANAGE_FAULT_BITS := [
    BitName(0, "IACCVIOL"), BitName(1, "DACCVIOL"), BitName(3, "MUNSTKERR"),
    BitName(4, "MSTKERR"), BitName(5, "MLSPERR"), BitName(7, "MMARVALID")]

  const NO_FAULT := "No Cortex-M fault bits set"

  // ----- classification -----

  /** `_decode_bit_names`: the names of the set bits, in table order. */
  function DecodeBitNames(value: int, names: seq<BitName>): seq<string> {
    if names == [] then []
    else (if Bit(value, names[0].bit) then [names[0].name] else []) + DecodeBitNames(value, names[1..])
  }

  /** The names of a table whose bits are set in the status register itself, where the table's byte or
      half-word begins at bit `base`. */
  ghost function NamesSet(register: int, base: nat, names: seq<BitName>): seq<string> {
    if names == [] then []
    else (if Bit(register, base + names[0].bit) then [names[0].name] else []) + NamesSet(register, base, names[1..])
  }

  /** Entry `i` of the table has this name, and its bit is set in the register. */
  predicate IsSet(register: int, base: nat, names: seq<BitName>, i: nat, name: string) {
    i < |names| && names[i].name == name && Bit(register, base + names[i].bit)
  }

  /** A name is reported if and only if its bit is set in the register. */
  lemma {:induction false} NamesSetExactly(register: int, base: nat, names: seq<BitName>, name: string)
    ensures name in NamesSet(register, base, names) <==> exists i: nat :: IsSet(register, base, names, i, name)
  {
    if names != [] {
      hide Bit, IsSet, NamesSet;
      NamesSetExactly(register, base, names[1..], name);
      FirstOrLater(register, base, names, name);
      NamesSetStep(register, base, names, name);
    }
  }

  lemma NamesSetStep(register: int, base: nat, names: seq<BitName>, name: string)
    requires names != []
    ensures name in NamesSet(register, base, names)
      <==> IsSet(register, base, names, 0, name) || name in NamesSet(register, base, names[1..])
  {
    hide Bit;
  }

  lemma Later(register: int, base: nat, names: seq<BitName>, i: nat, name: string)
    requires names != []
    ensures IsSet(register, base, names[1..], i, name) <==> IsSet(register, base, names, i + 1, name)
  {
    hide Bit;
  }

  lemma FirstOrLater(register: int, base: nat, names: seq<BitName>, name: string)
    requires names != []
    ensures (exists i: nat :: IsSet(register, base, names, i, name))
      <==> IsSet(register, base, names, 0, name) || exists i: nat :: IsSet(register, base, names[1..], i, name)
  {
    hide IsSet;
    if i: nat :| IsSet(register, base, names, i, name) {
      if i > 0 { Later(register, base, names, i - 1, name); }
    }
    if i: nat :| IsSet(register, base, names[1..], i, name) { Later(register, base, names, i, name); }
  }

  /** Decoding the shifted and masked byte finds the bits of the whole register. */
  lemma {:induction false} DecodeIsNamesSet(register: int, base: nat, width: nat, names: seq<BitName>)
    requires forall i :: 0 <= i < |names| ==> names[i].bit < width
    ensures DecodeBitNames((register / Pow2(base)) % Pow2(width), names) == NamesSet(register, base, names)
  {
    if names != [] {
      BitOfField(register, base, width, names[0].bit);
      forall i | 0 <= i < |names[1..]| ensures names[1..][i].bit < width { assert names[1..][i] == names[i + 1]; }
      DecodeIsNamesSet(register, base, width, names[1..]);
    }
  }

  lemma TablesFit()
    ensures forall i :: 0 <= i < |USAGE_FAULT_BITS| ==> USAGE_FAULT_BITS[i].bit < 16
    ensures forall i :: 0 <= i < |BUS_FAULT_BITS| ==> BUS_FAULT_BITS[i].bit < 8
    ensures forall i :: 0 <= i < |MEMMANAGE_FAULT_BITS| ==> MEMMANAGE_FAULT_BITS[i].bit < 8
  {}

  lemma GroupsDecoded(cfsr: int)
    ensures DecodeBitNames((cfsr / Pow2(16)) % Pow2(16), USAGE_FAULT_BITS) == NamesSet(cfsr, 16, USAGE_FAULT_BITS)
    ensures DecodeBitNames((cfsr / Pow2(8)) % Pow2(8), BUS_FAULT_BITS) == NamesSet(cfsr, 8, BUS_FAULT_BITS)
    ensures DecodeBitNames(cfsr % Pow2(8), MEMMANAGE_FAULT_BITS) == NamesSet(cfsr, 0, MEMMANAGE_FAULT_BITS)
  {
    TablesFit();
    assert cfsr / Pow2(0) == cfsr;
    hide DecodeBitNames, NamesSet, Pow2, USAGE_FAULT_BITS, BUS_FAULT_BITS, MEMMANAGE_FAULT_BITS;
    DecodeIsNamesSet(cfsr, 16, 16, USAGE_FAULT_BITS);
    DecodeIsNamesSet(cfsr, 8, 8, BUS_FAULT_BITS);
    DecodeIsNamesSet(cfsr, 0, 8, MEMMANAGE_FAULT_BITS);
  }

  function JoinNames(names: seq<string>): string {
    if names == [] then "" else if |names| == 1 then names[0] else names[0] + ", " + JoinNames(names[1..])
  }

  /** One line of evidence for each name. */
  function Lines(group: string, names: seq<string>): seq<string> {
    seq(|names|, i requires 0 <= i < |names| => group + names[i] + " is set.")
  }

  /** `register or 0`. */
  function OrZero(register: Option<int>): int {
    if register.Some? then register.value else 0
  }

  /** The fault a pair of status registers reports: the set names of the first group that has any, usage faults
      before bus faults before memory faults, and only then the HardFault bits. */
  ghost function Reported(cfsr: int, hfsr: int): (string, seq<string>) {
    var usage, bus, mem := NamesSet(cfsr, 16, USAGE_FAULT_BITS), NamesSet(cfsr, 8, BUS_FAULT_BITS),
      NamesSet(cfsr, 0, MEMMANAGE_FAULT_BITS);
    if usage != [] then ("UsageFault: " + JoinNames(usage), Lines("CFSR.UFSR.", usage))
    else if bus != [] then ("BusFault: " + JoinNames(bus), Lines("CFSR.BFSR.", bus))
    else if mem != [] then ("MemManageFault: " + JoinNames(mem), Lines("CFSR.MMFSR.", mem))
    else if Bit(hfsr, 30) then ("HardFault: FORCED", ["HFSR.FORCED is set."])
    else if Bit(hfsr, 1) then ("HardFault: VECTTBL", ["HFSR.VECTTBL is set."])
    else (NO_FAULT, [])
  }

  /** `_classify_fault`. */
  method ClassifyFault(cfsr: Option<int>, hfsr: Option<int>) returns (fault: string, evidence: seq<string>)
    ensures (fault, evidence)
      == Reported(if cfsr.Some? then cfsr.value else 0, if hfsr.Some? then hfsr.value else 0)
  {
    hide DecodeBitNames, NamesSet, Pow2, Lines, JoinNames, Bit;
    var cfsrValue, hfsrValue := OrZero(cfsr), OrZero(hfsr);
    evidence := [];
    var memBits := cfsrValue % Pow2(8);
    var busBits := (cfsrValue / Pow2(8)) % Pow2(8);
    var usageBits := (cfsrValue / Pow2(16)) % Pow2(16);
    GroupsDecoded(cfsrValue);

    var usageNames := DecodeBitNames(usageBits, USAGE_FAULT_BITS);
    if usageNames != [] {
      assert evidence + Lines("CFSR.UFSR.", usageNames) == Lines("CFSR.UFSR.", usageNames);
      evidence := evidence + Lines("CFSR.UFSR.", usageNames);
      return "UsageFault: " + JoinNames(usageNames), evidence;
    }
    var busNames := DecodeBitNames(busBits, BUS_FAULT_BITS);
    if busNames != [] {
      assert evidence + Lines("CFSR.BFSR.", busNames) == Lines("CFSR.BFSR.", busNames);
      evidence := evidence + Lines("CFSR.BFSR.", busNames);
      return "BusFault: " + JoinNames(busNames), evidence;
    }
    var memNames := DecodeBitNames(memBits, MEMMANAGE_FAULT_BITS);
    if memNames != [] {
      assert evidence + Lines("CFSR.MMFSR.", memNames) == Lines("CFSR.MMFSR.", memNames);
      evidence := evidence + Lines("CFSR.MMFSR.", memNames);
      return "MemManageFault: " + JoinNames(memNames), evidence;
    }
    if Bit(hfsrValue, 30) {
      assert evidence + ["HFSR.FORCED is set."] == ["HFSR.FORCED is set."];
      evidence := evidence + ["HFSR.FORCED is set."];
      return "HardFault: FORCED", evidence;
    }
    if Bit(hfsrValue, 1) {
      assert evidence + ["HFSR.VECTTBL is set."] == ["HFSR.VECTTBL is set."];
      evidence := evidence + ["HFSR.VECTTBL is set."];
      return "HardFault: VECTTBL", evidence;
    }
    fault := NO_FAULT;
  }

  /** The CFSR bits that Armv7-M defines. */
  predicate IsCfsrFaultBit(b: nat) {
    b == 0 || b == 1 || b == 3 || b == 4 || b == 5 || b == 7
    || 8 <= b <= 13 || b == 15
    || 16 <= b <= 19 || b == 24 || b == 25
  }

  /** "No fault" is reported if and only if none of the 19 CFSR bits nor HFSR bits 30 and 1 is set. */
  lemma NoFaultExactly(cfsr: int, hfsr: int)
    ensures Reported(cfsr, hfsr).0 == NO_FAULT
      <==> (forall b: nat :: IsCfsrFaultBit(b) ==> !Bit(cfsr, b)) && !Bit(hfsr, 30) && !Bit(hfsr, 1)
  {
    EmptyUsage(cfsr);
    EmptyBus(cfsr);
    EmptyMem(cfsr);
    assert NO_FAULT[0] == 'N';
    if forall b: nat :: IsCfsrFaultBit(b) ==> !Bit(cfsr, b) {
      assert forall b: nat :: 16 <= b <= 19 ==> IsCfsrFaultBit(b);
      assert IsCfsrFaultBit(24) && IsCfsrFaultBit(25);
    }
  }

  lemma EmptyUsage(cfsr: int)
    ensures NamesSet(cfsr, 16, USAGE_FAULT_BITS) == []
      <==> forall b: nat :: IsCfsrFaultBit(b) && b >= 16 ==> !Bit(cfsr, b)
  {
    hide NamesSet, Bit;
    EmptyExactly(cfsr, 16, USAGE_FAULT_BITS);
    var t := USAGE_FAULT_BITS;
    assert t[0].bit == 0 && t[1].bit == 1 && t[2].bit == 2 && t[3].bit == 3 && t[4].bit == 8 && t[5].bit == 9;
    forall i | 0 <= i < |t| ensures IsCfsrFaultBit(16 + t[i].bit) {}
  }

  lemma EmptyBus(cfsr: int)
    ensures NamesSet(cfsr, 8, BUS_FAULT_BITS) == []
      <==> forall b: nat :: IsCfsrFaultBit(b) && 8 <= b < 16 ==> !Bit(cfsr, b)
  {
    hide NamesSet, Bit;
    EmptyExactly(cfsr, 8, BUS_FAULT_BITS);
    var t := BUS_FAULT_BITS;
    assert t[0].bit == 0 && t[1].bit == 1 && t[2].bit == 2 && t[3].bit == 3;
    assert t[4].bit == 4 && t[5].bit == 5 && t[6].bit == 7;
    forall i | 0 <= i < |t| ensures IsCfsrFaultBit(8 + t[i].bit) {}
  }

  lemma EmptyMem(cfsr: int)
    ensures NamesSet(cfsr, 0, MEMMANAGE_FAULT_BITS) == []
      <==> forall b: nat :: IsCfsrFaultBit(b) && b < 8 ==> !Bit(cfsr, b)
  {
    hide NamesSet, Bit;
    EmptyExactly(cfsr, 0, MEMMANAGE_FAULT_BITS);
    var t := MEMMANAGE_FAULT_BITS;
    assert t[0].bit == 0 && t[1].bit == 1 && t[2].bit == 3 && t[3].bit == 4 && t[4].bit == 5 && t[5].bit == 7;
    forall i | 0 <= i < |t| ensures IsCfsrFaultBit(0 + t[i].bit) {}
  }

  lemma {:induction false} EmptyExactly(register: int, base: nat, names: seq<BitName>)
    ensures NamesSet(register, base, names) == []
      <==> forall i :: 0 <= i < |names| ==> !Bit(register, base + names[i].bit)
  {
    hide Bit;
    if names != [] {
      EmptyExactly(register, base, names[1..]);
      assert forall i :: 0 <= i < |names[1..]| ==> names[1..][i] == names[i + 1];
      if NamesSet(register, base, names) == [] {
        forall i | 0 <= i < |names| ensures !Bit(register, base + names[i].bit) {
          if i > 0 { assert names[1..][i - 1] == names[i]; }
        }
      }
    }
  }

  // ----- reading the registers -----

  /** `_little_endian_hex`; no result where `bytes.fromhex` raises. */
  function LittleEndianHex(dataHex: string): Option<string> {
    match FromHex(dataHex)
    case None => None
    case Some(data) => Some(Hex08(LittleEndian(data)))
  }

  datatype RegisterAddress = RegisterAddress(name: string, address: string)

  const FAULT_REGISTER_ADDRESSES := [
    RegisterAddress("cfsr", "0xE000ED28"), RegisterAddress("hfsr", "0xE000ED2C"), RegisterAddress("dfsr", "0xE000ED30"),
    RegisterAddress("mmfar", "0xE000ED34"), RegisterAddress("bfar", "0xE000ED38")]

  /** The text is the padded little-endian value of the bytes that the hexadecimal text writes. */
  ghost predicate Captures(text: string, dataHex: string) {
    forall data :: SpellsBytes(dataHex, data) ==> text == Hex08(LittleEndian(data))
  }

  lemma LittleEndianHexExactly(dataHex: string)
    ensures LittleEndianHex(dataHex).Some? <==> IsHexText(dataHex)
    ensures LittleEndianHex(dataHex).Some? ==> Captures(LittleEndianHex(dataHex).value, dataHex)
  {
    hide FromHex, LittleEndian, Hex08, SpellsBytes, IsHexText;
    RejectedExactly(dataHex);
    forall data | SpellsBytes(dataHex, data) ensures FromHex(dataHex) == Some(data) { FromHexExactly(dataHex, data); }
  }

  /** `_read_fault_registers`; `memory` answers each read with the hexadecimal text GDB returned. Nothing is
      returned when one of the answers is not hexadecimal. */
  method ReadFaultRegisters(memory: string -> string) returns (registers: Option<map<string, string>>)
    ensures registers.Some? <==>
      && IsHexText(memory("0xE000ED28")) && IsHexText(memory("0xE000ED2C")) && IsHexText(memory("0xE000ED30"))
      && IsHexText(memory("0xE000ED34")) && IsHexText(memory("0xE000ED38"))
    ensures registers.Some? ==>
      && registers.value.Keys == {"cfsr", "hfsr", "dfsr", "mmfar", "bfar"}
      && Captures(registers.value["cfsr"], memory("0xE000ED28"))
      && Captures(registers.value["hfsr"], memory("0xE000ED2C"))
      && Captures(registers.value["dfsr"], memory("0xE000ED30"))
      && Captures(registers.value["mmfar"], memory("0xE000ED34"))
      && Captures(registers.value["bfar"], memory("0xE000ED38"))
  {
    hide IsHexText, Captures, LittleEndianHex;
    var faultRegisters: map<string, string> := map[];
    var i := 0;
    while i < |FAULT_REGISTER_ADDRESSES|
      invariant 0 <= i <= |FAULT_REGISTER_ADDRESSES|
      invariant forall j :: 0 <= j < i ==> IsHexText(memory(FAULT_REGISTER_ADDRESSES[j].address))
      invariant forall name :: name in faultRegisters ==>
        exists j :: 0 <= j < i && FAULT_REGISTER_ADDRESSES[j].name == name
      invariant forall j :: 0 <= j < i ==>
        var r := FAULT_REGISTER_ADDRESSES[j];
        r.name in faultRegisters && Captures(faultRegisters[r.name], memory(r.address))
    {
      var r := FAULT_REGISTER_ADDRESSES[i];
      var value := LittleEndianHex(memory(r.address));
      LittleEndianHexExactly(memory(r.address));
      if value == None {
        Addresses();
        return None;
      }
      NamesDiffer(i);
      faultRegisters := faultRegisters[r.name := value.value];
      i := i + 1;
    }
    Addresses();
    registers := Some(faultRegisters);
  }

  lemma Addresses()
    ensures |FAULT_REGISTER_ADDRESSES| == 5
    ensures FAULT_REGISTER_ADDRESSES[0] == RegisterAddress("cfsr", "0xE000ED28")
    ensures FAULT_REGISTER_ADDRESSES[1] == RegisterAddress("hfsr", "0xE000ED2C")
    ensures FAULT_REGISTER_ADDRESSES[2] == RegisterAddress("dfsr", "0xE000ED30")
    ensures FAULT_REGISTER_ADDRESSES[3] == RegisterAddress("mmfar", "0xE000ED34")
    ensures FAULT_REGISTER_ADDRESSES[4] == RegisterAddress("bfar", "0xE000ED38")
  {}

  lemma NamesDiffer(i: nat)
    requires i < |FAULT_REGISTER_ADDRESSES|
    ensures forall j :: 0 <= j < i ==> FAULT_REGISTER_ADDRESSES[j].name != FAULT_REGISTER_ADDRESSES[i].name
  {
    var t := FAULT_REGISTER_ADDRESSES;
    assert t[0].name[0] == 'c' && t[1].name[0] == 'h' && t[2].name[0] == 'd';
    assert t[3].name[0] == 'm' && t[4].name[0] == 'b';
  }

  /** The integer the analyzer parses is the little-endian value of the bytes in target memory. */
  lemma RegisterPipeline(data: seq<Byte>)
    ensures LittleEndianHex(ToHex(data)).Some? && ParseInt(LittleEndianHex(ToHex(data))) == Some(LittleEndian(data))
  {
    HexRoundTrip(data);
    Hex08RoundTrip(LittleEndian(data));
  }

  /** Capture and classification together: whatever bytes the target holds at the two status registers, the fault
      reported is the one their little-endian values name. */
  method AnalyzeFaultRegisters(memory: string -> string) returns (report: Option<(string, seq<string>)>)
    ensures report.Some? <==>
      && IsHexText(memory("0xE000ED28")) && IsHexText(memory("0xE000ED2C")) && IsHexText(memory("0xE000ED30"))
      && IsHexText(memory("0xE000ED34")) && IsHexText(memory("0xE000ED38"))
    ensures forall cfsr, hfsr ::
      report.Some? && SpellsBytes(memory("0xE000ED28"), cfsr) && SpellsBytes(memory("0xE000ED2C"), hfsr) ==>
        report.value == Reported(LittleEndian(cfsr), LittleEndian(hfsr))
  {
    hide IsHexText, SpellsBytes, LittleEndian, Hex08, ParseInt, Reported;
    var registers := ReadFaultRegisters(memory);
    if registers == None { return None; }
    var cfsrText, hfsrText := registers.value["cfsr"], registers.value["hfsr"];
    var fault, evidence := ClassifyFault(ParseInt(Some(cfsrText)), ParseInt(Some(hfsrText)));
    report := Some((fault, evidence));
    forall cfsr, hfsr | SpellsBytes(memory("0xE000ED28"), cfsr) && SpellsBytes(memory("0xE000ED2C"), hfsr)
      ensures report.value == Reported(LittleEndian(cfsr), LittleEndian(hfsr))
    {
      Hex08RoundTrip(LittleEndian(cfsr));
      Hex08RoundTrip(LittleEndian(hfsr));
    }
  }

  // ----- the stacked exception frame (section B1.5.6) -----

  const FRAME_NAMES := ["r0", "r1", "r2", "r3", "r12", "lr", "pc", "xpsr"]

  datatype FrameWord = FrameWord(name: string, value: string)

  function Word(data: seq<Byte>, i: nat): nat
    requires 4 * i + 4 <= |data|
  {
    LittleEndian(data[4 * i..4 * i + 4])
  }

  /** `_decode_stacked_frame`: eight words, or nothing when the text is no hexadecimal or holds fewer than 32 bytes. */
  function DecodeStackedFrame(stackDataHex: string): Option<seq<FrameWord>> {
    match FromHex(stackDataHex)
    case None => None
    case Some(data) =>
      if |data| < 32 then None
      else Some(seq(8, i requires 0 <= i < 8 => FrameWord(FRAME_NAMES[i], Hex08(Word(data, i)))))
  }

  /** The words as the processor pushes them. */
  function Pack(words: seq<nat>): seq<Byte> {
    if words == [] then [] else ToLittleEndian(words[0], 4) + Pack(words[1..])
  }

  lemma FourBytes()
    ensures Power(256, 4) == 0x1_0000_0000
  {
    assert Power(256, 1) == 256 && Power(256, 2) == 65536 && Power(256, 3) == 0x100_0000;
  }

  lemma {:induction false} PackWord(words: seq<nat>, suffix: seq<Byte>, i: nat)
    requires i < |words| && forall k :: 0 <= k < |words| ==> words[k] < 0x1_0000_0000
    ensures |Pack(words)| == 4 * |words|
    ensures Word(Pack(words) + suffix, i) == words[i]
    decreases |words|
  {
    var head, rest := ToLittleEndian(words[0], 4), Pack(words[1..]);
    var all := Pack(words) + suffix;
    assert all == head + (rest + suffix);
    if |words| > 1 { PackWord(words[1..], suffix, if i > 0 then i - 1 else 0); }
    hide ToLittleEndian, LittleEndian;
    if i == 0 {
      assert all[0..4] == head;
      FourBytes();
      LittleEndianRoundTrip(words[0], 4);
    } else {
      assert all[4 * i..4 * i + 4] == (rest + suffix)[4 * (i - 1)..4 * (i - 1) + 4];
    }
  }

  /** Eight packed words decode to themselves, whatever bytes follow on the stack. */
  lemma FrameRoundTrip(words: seq<nat>, suffix: seq<Byte>)
    requires |words| == 8 && forall k :: 0 <= k < 8 ==> words[k] < 0x1_0000_0000
    ensures var frame := DecodeStackedFrame(ToHex(Pack(words) + suffix));
      frame.Some? && |frame.value| == 8 &&
      forall i :: 0 <= i < 8 ==>
        && frame.value[i].name == ["r0", "r1", "r2", "r3", "r12", "lr", "pc", "xpsr"][i]
        && ParseInt(Some(frame.value[i].value)) == Some(words[i])
  {
    var data := Pack(words) + suffix;
    HexRoundTrip(data);
    PackWord(words, suffix, 0);
    forall i | 0 <= i < 8 ensures ParseInt(Some(Hex08(Word(data, i)))) == Some(words[i]) {
      PackWord(words, suffix, i);
      Hex08RoundTrip(words[i]);
    }
  }

  /** A frame is decoded if and only if the text writes at least 32 bytes, and then word `i` is read from the four
      bytes at `4 * i`. */
  lemma FrameExactly(stackDataHex: string)
    ensures DecodeStackedFrame(stackDataHex).Some? <==> IsHexText(stackDataHex) && |NoSpaces(stackDataHex)| >= 64
    ensures forall data, i :: SpellsBytes(stackDataHex, data) && |data| >= 32 && 0 <= i < 8 ==>
      var frame := DecodeStackedFrame(stackDataHex);
      && frame.Some? && |frame.value| == 8
      && frame.value[i].name == ["r0", "r1", "r2", "r3", "r12", "lr", "pc", "xpsr"][i]
      && frame.value[i].value == Hex08(LittleEndian(data[4 * i..4 * i + 4]))
  {
    hide FromHex, NoSpaces, PairsWhole, LittleEndian, Hex08;
    RejectedExactly(stackDataHex);
    if FromHex(stackDataHex).Some? { FromHexExactly(stackDataHex, FromHex(stackDataHex).value); }
    forall data | SpellsBytes(stackDataHex, data) ensures FromHex(stackDataHex) == Some(data) {
      FromHexExactly(stackDataHex, data);
    }
  }

  // ----- fault addresses -----

  /** `_add_fault_address_evidence`: the flags in the decoded values and the lines of evidence. A register's flag is
      its VALID bit, and is left out when the bit is clear and the register was not captured. */
  method AddFaultAddressEvidence(mmfar: Option<string>, bfar: Option<string>, cfsr: Option<int>, evidence: seq<string>)
    returns (mmfarValid: Option<bool>, bfarValid: Option<bool>, now: seq<string>)
    ensures mmfarValid == Some(true) <==> cfsr.Some? && Bit(cfsr.value, 7)
    ensures mmfarValid == Some(false) <==> mmfar.Some? && !(cfsr.Some? && Bit(cfsr.value, 7))
    ensures bfarValid == Some(true) <==> cfsr.Some? && Bit(cfsr.value, 15)
    ensures bfarValid == Some(false) <==> bfar.Some? && !(cfsr.Some? && Bit(cfsr.value, 15))
    ensures now == evidence
      + (if mmfarValid == Some(true) && mmfar.Some? && mmfar.value != ""
         then ["MMFAR is valid at " + mmfar.value + "."] else [])
      + (if bfarValid == Some(true) && bfar.Some? && bfar.value != ""
         then ["BFAR is valid at " + bfar.value + "."] else [])
  {
    ZeroHasNoBits();
    var cfsrValue := OrZero(cfsr);
    var memBits, busBits := cfsrValue % Pow2(8), (cfsrValue / Pow2(8)) % Pow2(8);
    assert cfsrValue / Pow2(0) == cfsrValue;
    BitOfField(cfsrValue, 0, 8, 7);
    BitOfField(cfsrValue, 8, 8, 7);
    mmfarValid, bfarValid, now := None, None, evidence;
    if Bit(memBits, 7) {
      mmfarValid := Some(true);
      if mmfar.Some? && mmfar.value != "" { now := now + ["MMFAR is valid at " + mmfar.value + "."]; }
    } else if mmfar.Some? {
      mmfarValid := Some(false);
    }
    if Bit(busBits, 7) {
      bfarValid := Some(true);
      if bfar.Some? && bfar.value != "" { now := now + ["BFAR is valid at " + bfar.value + "."]; }
    } else if bfar.Some? {
      bfarValid := Some(false);
    }
  }

  lemma ZeroHasNoBits()
    ensures forall b: nat :: !Bit(0, b)
  {
    forall b: nat ensures !Bit(0, b) {
      DivUnique(0, Pow2(b), 0, 0);
    }
  }
}
