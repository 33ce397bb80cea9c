/** What a fault report says, in terms of the bits of the two status registers alone: sections B3.2.15 and B3.2.16 of
    the Armv7-M Architecture Reference Manual (DDI 0403) give each bit its name. */
module FaultReports {
  import opened Bits
  import opened FaultAnalyzer

  /** The name, or nothing. */
  function When(isSet: bool, name: string): seq<string> {
    if isSet then [name] else []
  }

  lemma FirstName(register: int, base: nat, names: seq<BitName>)
    requires names != []
    ensures NamesSet(register, base, names)
      == When(Bit(register, base + names[0].bit), names[0].name) + NamesSet(register, base, names[1..])
    ensures |names| == 1 ==>
      NamesSet(register, base, names) == When(Bit(register, base + names[0].bit), names[0].name)
  {
    hide Bit;
  }

  lemma NoNames(register: int, base: nat)
    ensures NamesSet(register, base, []) == []
  {}

  lemma {:induction false} LastName(register: int, base: nat, names: seq<BitName>)
    requires names != []
    ensures NamesSet(register, base, names)
      == NamesSet(register, base, names[..|names| - 1])
       + When(Bit(register, base + names[|names| - 1].bit), names[|names| - 1].name)
    decreases |names|
  {
    hide Bit, NamesSet, When;
    var front := names[..|names| - 1];
    FirstName(register, base, names);
    if |names| > 1 {
      FirstName(register, base, front);
      LastName(register, base, names[1..]);
      assert names[1..][..|names| - 2] == front[1..] && names[1..][|names| - 2] == names[|names| - 1];
    } else {
      assert front == [];
      NoNames(register, base);
    }
  }

  lemma NamesUpTo(register: int, base: nat, names: seq<BitName>, n: nat)
    requires n < |names|
    ensures NamesSet(register, base, names[..0]) == []
    ensures NamesSet(register, base, names[..n + 1])
      == NamesSet(register, base, names[..n]) + When(Bit(register, base + names[n].bit), names[n].name)
  {
    LastName(register, base, names[..n + 1]);
    assert names[..n + 1][..n] == names[..n];
  }

  /** The usage faults of CFSR, lowest bit first. */
  lemma UsageNames(cfsr: int)
    ensures NamesSet(cfsr, 16, USAGE_FAULT_BITS)
      == When(Bit(cfsr, 16), "UNDEFINSTR") + When(Bit(cfsr, 17), "INVSTATE") + When(Bit(cfsr, 18), "INVPC")
       + When(Bit(cfsr, 19), "NOCP") + When(Bit(cfsr, 24), "UNALIGNED") + When(Bit(cfsr, 25), "DIVBYZERO")
  {
    hide Bit, NamesSet, When;
    var t := USAGE_FAULT_BITS;
    NamesUpTo(cfsr, 16, t, 0);
    NamesUpTo(cfsr, 16, t, 1);
    NamesUpTo(cfsr, 16, t, 2);
    NamesUpTo(cfsr, 16, t, 3);
    NamesUpTo(cfsr, 16, t, 4);
    NamesUpTo(cfsr, 16, t, 5);
    assert t[..6] == t && forall x: seq<string> :: [] + x == x;
  }

  /** The bus faults of CFSR. */
  lemma BusNames(cfsr: int)
    ensures NamesSet(cfsr, 8, BUS_FAULT_BITS)
      == When(Bit(cfsr, 8), "IBUSERR") + When(Bit(cfsr, 9), "PRECISERR") + When(Bit(cfsr, 10), "IMPRECISERR")
       + When(Bit(cfsr, 11), "UNSTKERR") + When(Bit(cfsr, 12), "STKERR") + When(Bit(cfsr, 13), "LSPERR")
       + When(Bit(cfsr, 15), "BFARVALID")
  {
    hide Bit, NamesSet, When;
    var t := BUS_FAULT_BITS;
    NamesUpTo(cfsr, 8, t, 0);
    NamesUpTo(cfsr, 8, t, 1);
    NamesUpTo(cfsr, 8, t, 2);
    NamesUpTo(cfsr, 8, t, 3);
    NamesUpTo(cfsr, 8, t, 4);
    NamesUpTo(cfsr, 8, t, 5);
    NamesUpTo(cfsr, 8, t, 6);
    assert t[..7] == t && forall x: seq<string> :: [] + x == x;
  }

  /** The memory management faults of CFSR. */
  lemma MemNames(cfsr: int)
    ensures NamesSet(cfsr, 0, MEMMANAGE_FAULT_BITS)
      == When(Bit(cfsr, 0), "IACCVIOL") + When(Bit(cfsr, 1), "DACCVIOL") + When(Bit(cfsr, 3), "MUNSTKERR")
       + When(Bit(cfsr, 4), "MSTKERR") + When(Bit(cfsr, 5), "MLSPERR") + When(Bit(cfsr, 7), "MMARVALID")
  {
    hide Bit, NamesSet, When;
    var t := MEMMANAGE_FAULT_BITS;
    NamesUpTo(cfsr, 0, t, 0);
    NamesUpTo(cfsr, 0, t, 1);
    NamesUpTo(cfsr, 0, t, 2);
    NamesUpTo(cfsr, 0, t, 3);
    NamesUpTo(cfsr, 0, t, 4);
    NamesUpTo(cfsr, 0, t, 5);
    assert t[..6] == t && forall x: seq<string> :: [] + x == x;
  }

  /** The text is the names with a comma and a space between each two, built from the last one. */
  predicate Joined(text: string, names: seq<string>) {
    if names == [] then text == ""
    else if |names| == 1 then text == names[0]
    else
      var n := |names| - 1;
      var front := |text| - |names[n]| - 2;
      front >= 0 && text[front..] == ", " + names[n] && Joined(text[..front], names[..n])
  }

  lemma {:induction false} JoinLast(names: seq<string>)
    requires |names| > 1
    ensures JoinNames(names) == JoinNames(names[..|names| - 1]) + ", " + names[|names| - 1]
    decreases |names|
  {
    var n := |names| - 1;
    if |names| > 2 {
      JoinLast(names[1..]);
      assert names[1..][..n - 1] == names[..n][1..] && names[1..][n - 1] == names[n];
      assert JoinNames(names) == names[0] + ", " + (JoinNames(names[..n][1..]) + ", " + names[n]);
      assert JoinNames(names[..n]) == names[0] + ", " + JoinNames(names[..n][1..]);
    } else {
      assert names[..1] == [names[0]] && names[1..] == [names[1]];
    }
  }

  lemma {:induction false} JoinedNames(names: seq<string>)
    ensures Joined(JoinNames(names), names)
    decreases |names|
  {
    if |names| > 1 {
      JoinLast(names);
      JoinedNames(names[..|names| - 1]);
      var text, n := JoinNames(names), |names| - 1;
      var front := |text| - |names[n]| - 2;
      assert text == JoinNames(names[..n]) + (", " + names[n]);
      assert text[..front] == JoinNames(names[..n]) && text[front..] == ", " + names[n];
    }
  }

  /** The report is a group of faults: its title in front of the joined names, and one line of evidence for each. */
  predicate ReportsGroup(report: (string, seq<string>), title: string, prefix: string, names: seq<string>) {
    && |report.0| >= |title|
    && report.0[..|title|] == title
    && Joined(report.0[|title|..], names)
    && |report.1| == |names|
    && forall i :: 0 <= i < |names| ==> report.1[i] == prefix + names[i] + " is set."
  }

  lemma GroupReported(title: string, prefix: string, names: seq<string>)
    ensures ReportsGroup((title + JoinNames(names), FaultAnalyzer.Lines(prefix, names)), title, prefix, names)
  {
    JoinedNames(names);
    var text := title + JoinNames(names);
    assert text[..|title|] == title && text[|title|..] == JoinNames(names);
  }

  /** The whole report for every pair of registers: usage faults hide bus faults, these hide memory management faults,
      these hide the two hard fault bits. */
  lemma ReportExactly(cfsr: int, hfsr: int)
    ensures var report := Reported(cfsr, hfsr);
      var usage := When(Bit(cfsr, 16), "UNDEFINSTR") + When(Bit(cfsr, 17), "INVSTATE") + When(Bit(cfsr, 18), "INVPC")
        + When(Bit(cfsr, 19), "NOCP") + When(Bit(cfsr, 24), "UNALIGNED") + When(Bit(cfsr, 25), "DIVBYZERO");
      var bus := When(Bit(cfsr, 8), "IBUSERR") + When(Bit(cfsr, 9), "PRECISERR") + When(Bit(cfsr, 10), "IMPRECISERR")
        + When(Bit(cfsr, 11), "UNSTKERR") + When(Bit(cfsr, 12), "STKERR") + When(Bit(cfsr, 13), "LSPERR")
        + When(Bit(cfsr, 15), "BFARVALID");
      var mem := When(Bit(cfsr, 0), "IACCVIOL") + When(Bit(cfsr, 1), "DACCVIOL") + When(Bit(cfsr, 3), "MUNSTKERR")
        + When(Bit(cfsr, 4), "MSTKERR") + When(Bit(cfsr, 5), "MLSPERR") + When(Bit(cfsr, 7), "MMARVALID");
      && (usage != [] ==> ReportsGroup(report, "UsageFault: ", "CFSR.UFSR.", usage))
      && (usage == [] && bus != [] ==> ReportsGroup(report, "BusFault: ", "CFSR.BFSR.", bus))
      && (usage == [] && bus == [] && mem != [] ==> ReportsGroup(report, "MemManageFault: ", "CFSR.MMFSR.", mem))
      && (usage == [] && bus == [] && mem == [] ==>
            report == if Bit(hfsr, 30) then ("HardFault: FORCED", ["HFSR.FORCED is set."])
                      else if Bit(hfsr, 1) then ("HardFault: VECTTBL", ["HFSR.VECTTBL is set."])
                      else ("No Cortex-M fault bits set", []))
  {
    UsageNames(cfsr);
    BusNames(cfsr);
    MemNames(cfsr);
    GroupReported("UsageFault: ", "CFSR.UFSR.", NamesSet(cfsr, 16, USAGE_FAULT_BITS));
    GroupReported("BusFault: ", "CFSR.BFSR.", NamesSet(cfsr, 8, BUS_FAULT_BITS));
    GroupReported("MemManageFault: ", "CFSR.MMFSR.", NamesSet(cfsr, 0, MEMMANAGE_FAULT_BITS));
    hide Bit, NamesSet, When, ReportsGroup, JoinNames, FaultAnalyzer.Lines;
  }
}
