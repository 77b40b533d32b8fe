/** sysSetSystemClock, sysGetSystemClock and sysSetPllClock (wb_config.c). */
module ClockTree {
  import opened Bits
  import opened Division
  import opened Pll
  import opened PllSearch
  import opened ClockPlan
  import opened ClockFields
  import opened FieldValues
  import opened ClockSwitch

  /** `DivisionByZero` stands for the inputs on which the C code divides by zero. */
  datatype Result = Successful | ErrClk | DivisionByZero

  /** The crystal frequency read from the chip configuration. */
  function Crystal(chipcfg: bv32): (khz: Word)
    ensures khz == 12000 || khz == 27000
  {
    if chipcfg & 0xC == 0x8 then 12000 else 27000
  }

  /** The search for this PLL clock ends (PllSearch.EndsExactly). */
  predicate Searchable(crystal: Word, pll: Word) {
    !(crystal == 12000 && pll % 2 == 1)
  }

  // ---- The clocks that the hardware derives from the divider registers (w55fa93_reg.h) ----

  function Over(x: nat, field: nat): nat {
    x / (field + 1)
  }

  function HwSys(pll: nat, clkdiv0: bv32): nat {
    Over(Over(pll, Number(SystemN0(clkdiv0))), Number(SystemN1(clkdiv0)))
  }

  function HwCpu(sys: nat, clkdiv4: bv32): nat {
    Over(sys, Number(CpuN(clkdiv4)))
  }

  function HwHclk(sys: nat): nat { sys / 2 }

  /** HCLK1 is the lower of half the system clock and the CPU clock. */
  function HwApb(sys: nat, clkdiv4: bv32): nat {
    var cpu := HwCpu(sys, clkdiv4);
    Over(if HwHclk(sys) < cpu then HwHclk(sys) else cpu, Number(ApbN(clkdiv4)))
  }

  /** The clock source and the clocks that the hardware derives from the registers are those of the plan. */
  predicate HardwareAgrees(pll: Word, p: Plan, src: Source, clkdiv0: bv32, clkdiv4: bv32)
    requires p.Settings?
  {
    && SystemS(clkdiv0) == Code(src)
    && HwSys(pll, clkdiv0) == p.sysKHz && HwCpu(p.sysKHz, clkdiv4) == p.cpuKHz
    && HwHclk(p.sysKHz) == p.hclkKHz && HwApb(p.sysKHz, clkdiv4) == p.apbKHz
  }

  /** After a successful switch in the branch CPU <= 2 * HCLK the hardware agrees with the reported clocks
      exactly when the dividers fit their fields, which the source does not check. */
  lemma HardwareClocks(pll: Word, sys: Word, cpu: Word, hclk: Word, apb: Word, src: Source, x: bv32, y: bv32)
    requires src.Apll? || src.Upll?
    requires var p := PlanFor(pll, sys, cpu, hclk, apb); p.Settings? && !p.over
    ensures var p := PlanFor(pll, sys, cpu, hclk, apb);
            var x' := ClkDiv0After(src, x, ToBits(p.sysDiv));
            var y' := ClkDiv4After(src, x, y, ToBits(p.cpuDiv), ToBits(p.apbDiv));
            HardwareAgrees(pll, p, src, x', y') <==> p.sysDiv <= 7 && p.apbDiv <= 15
  {
    hide PlanFor, ClkDiv0After, ClkDiv4After, SystemN0, SystemN1, SystemS, CpuN, ApbN, Code, ToBits, Number, Over;
    hide ApbDivisor, Wrap, Overflows, HardwareAgrees;
    var p := PlanFor(pll, sys, cpu, hclk, apb);
    PlanBounds(pll, sys, cpu, hclk, apb);
    var x' := ClkDiv0After(src, x, ToBits(p.sysDiv));
    var y' := ClkDiv4After(src, x, y, ToBits(p.cpuDiv), ToBits(p.apbDiv));
    WrittenFields(src, x, y, p.sysDiv, p.cpuDiv, p.apbDiv);
    SysDecoded(pll, p.sysDiv, Number(SystemN0(x')), Number(SystemN1(x')));
    ApbDecoded(pll, sys, cpu, hclk, apb, Number(ApbN(y')));
    AgreesByField(pll, p, src, x', y');
  }

  /** The fields as numbers. */
  lemma WrittenFields(src: Source, x: bv32, y: bv32, sysDiv: Word, cpuDiv: Word, apbDiv: Word)
    requires (src.Apll? || src.Upll?) && cpuDiv <= 1
    ensures var x' := ClkDiv0After(src, x, ToBits(sysDiv));
            var n0, n1 := Number(SystemN0(x')), Number(SystemN1(x'));
            && (sysDiv <= 7 ==> n0 == sysDiv && n1 == 0 && SystemS(x') == Code(src))
            && (sysDiv > 7 ==> 2 * ((n0 + 1) * (n1 + 1)) <= sysDiv + 1)
    ensures var y' := ClkDiv4After(src, x, y, ToBits(cpuDiv), ToBits(apbDiv));
            var n := Number(ApbN(y'));
            && Number(CpuN(y')) == cpuDiv
            && n <= 15 && (apbDiv <= 15 ==> n == apbDiv) && (apbDiv > 15 ==> 2 * (n + 1) <= apbDiv + 1)
  {
    hide ClkDiv0After, ClkDiv4After, SystemN0, SystemN1, SystemS, CpuN, ApbN, Code, ToBits, Number;
    NarrowFields(src, x, y, ToBits(sysDiv), ToBits(cpuDiv), ToBits(apbDiv));
    SysField(sysDiv);
    FourBits(cpuDiv);
    FourBits(apbDiv);
  }

  lemma AgreesByField(pll: Word, p: Plan, src: Source, x: bv32, y: bv32)
    requires p.Settings? && p.cpuKHz == p.sysKHz / (p.cpuDiv + 1) && p.hclkKHz == p.sysKHz / 2 && p.hclkKHz <= p.cpuKHz
    requires Number(CpuN(y)) == p.cpuDiv
    ensures HardwareAgrees(pll, p, src, x, y) <==>
              && SystemS(x) == Code(src)
              && Over(Over(pll, Number(SystemN0(x))), Number(SystemN1(x))) == p.sysKHz
              && Over(p.hclkKHz, Number(ApbN(y))) == p.apbKHz
  {
    hide SystemN0, SystemN1, SystemS, CpuN, ApbN, Code, Number;
    CpuDecoded(p);
    hide Over;
  }

  lemma CpuDecoded(p: Plan)
    requires p.Settings? && p.cpuKHz == p.sysKHz / (p.cpuDiv + 1) && p.hclkKHz == p.sysKHz / 2 && p.hclkKHz <= p.cpuKHz
    ensures Over(p.sysKHz, p.cpuDiv) == p.cpuKHz && HwHclk(p.sysKHz) == p.hclkKHz
    ensures (if HwHclk(p.sysKHz) < p.cpuKHz then HwHclk(p.sysKHz) else p.cpuKHz) == p.hclkKHz
  {
  }

  lemma SysDecoded(pll: Word, d: Word, n0: nat, n1: nat)
    requires pll / (d + 1) > 0
    requires (d <= 7 && n0 == d && n1 == 0) || (d > 7 && 2 * ((n0 + 1) * (n1 + 1)) <= d + 1)
    ensures Over(Over(pll, n0), n1) == pll / (d + 1) <==> d <= 7
  {
    var s := pll / (d + 1);
    DivDiv(pll, n0 + 1, n1 + 1);
    if d > 7 { TooSmallDivisor(pll, d + 1, (n0 + 1) * (n1 + 1)); } else { assert (n0 + 1) * (n1 + 1) == d + 1; }
  }

  /** Dividing by at most half as much gives more. */
  lemma TooSmallDivisor(x: nat, d: nat, e: nat)
    requires e > 0 && 2 * e <= d && x / d > 0
    ensures x / e > x / d
  {
    var s := x / d;
    DivBounds(x, d);
    SmallerFactor(s, 2 * e, d);
    assert s * (2 * e) == 2 * s * e;
    QuotientAtLeast(x, e, 2 * s);
  }

  lemma ApbDecoded(pll: Word, sys: Word, cpu: Word, hclk: Word, apb: Word, n: nat)
    requires var p := PlanFor(pll, sys, cpu, hclk, apb);
             && p.Settings? && !p.over && n <= 15
             && (p.apbDiv <= 15 ==> n == p.apbDiv) && (p.apbDiv > 15 ==> 2 * (n + 1) <= p.apbDiv + 1)
    ensures var p := PlanFor(pll, sys, cpu, hclk, apb); Over(p.hclkKHz, n) == p.apbKHz <==> p.apbDiv <= 15
  {
    hide PlanFor;
    var p := PlanFor(pll, sys, cpu, hclk, apb);
    PlanBounds(pll, sys, cpu, hclk, apb);
    PlanFields(pll, sys, cpu, hclk, apb);
    if Overflows(p.sysKHz, apb) {
      OverflowField(p.sysKHz, apb);
      ApbOverflow(p.sysKHz, apb);
      QuotientAtLeast(p.hclkKHz, n + 1, 2) by { MulBound(2, 2, n + 1, 16); }
    } else {
      ApbDivisorIs(p.sysKHz, apb);
      ApbChoice(p.sysKHz, apb);
      DivDiv(p.sysKHz, 2, p.apbDiv + 1);
      hide ApbDivisor, ApbField, Wrap;
      if p.apbDiv > 15 { TooSmallDivisor(p.hclkKHz, p.apbDiv + 1, n + 1); }
    }
  }

  lemma OverflowField(s: Word, apb: Word)
    requires Overflows(s, apb) && ApbDivisor(s, apb) != 0
    ensures ApbField(s, apb) > 15
  {
    QuotientFits(s, apb);
    hide Quot;
    var n := Truncated(s - TWO32, 2);
    assert n <= 0 && n - 1 < 0;
    assert Wrap(n - 1) == n - 1 + TWO32;
  }

  /** A divider that does not fit: PLL 240, SYS and CPU 20, HCLK 10, APB 5 MHz from the APLL succeeds with
      system divider 11, and switches the system to the UPLL. */
  lemma WideDividerOccurs(x: bv32)
    ensures PlanFor(240000, 20000, 20000, 10000, 5000) == Settings(false, 11, 20000, 0, 20000, 10000, 1, 5000)
    ensures SystemS(ClkDiv0After(Apll, x, ToBits(11))) == Code(Upll)
  {
    WideDividerPlan();
    hide PlanFor, UnderPlan;
    assert ToBits(11) == 11;
    SwitchedFields(Apll, x, 0, 11, 0, 1);
    hide ClkDiv0After;
  }

  lemma WideDividerPlan()
    ensures PlanFor(240000, 20000, 20000, 10000, 5000) == Settings(false, 11, 20000, 0, 20000, 10000, 1, 5000)
  {
    hide PlanFor, UnderPlan, OverPlan;
    assert CeilMinus1(240000, 20000) == 11 && CeilMinus1(20000, 20000) == 0;
    assert Ceil(240000, 20000) == 11 && Ceil(20000, 20000) == 0;
    assert SysOf(240000, 20000) == 20000;
    PlanCases(240000, 20000, 20000, 10000, 5000);
    UnderCases(11, 20000, 20000, 5000);
    assert Quot(20000, 5000) == 4 && ApbDivisor(20000, 5000) == 4 && ApbField(20000, 5000) == 1;
  }

  /** In the branch CPU > 2 * HCLK the reported HCLK is SYS / 6, while the hardware always halves SYS: the two
      never agree. */
  lemma OverMisreportsHclk(pll: Word, sys: Word, cpu: Word, hclk: Word, apb: Word)
    requires var p := PlanFor(pll, sys, cpu, hclk, apb); p.Settings? && p.over
    ensures var p := PlanFor(pll, sys, cpu, hclk, apb);
            p.sysKHz >= 2 && p.hclkKHz == p.sysKHz / 6 < HwHclk(p.sysKHz)
  {
    hide PlanFor, OverPlan, UnderPlan, SysOf, ApbDivisor, Wrap, Ceil;
    PlanCases(pll, sys, cpu, hclk, apb);
    OverCases(Ceil(pll, sys), SysOf(pll, sys), cpu, apb);
    UnderCases(Ceil(pll, sys), SysOf(pll, sys), cpu, apb);
    OverSys(pll, sys, cpu, hclk, apb);
  }

  // ---- The driver ----

  datatype ClockRequest = ClockRequest(sys: Word, cpu: Word, hclk: Word, apb: Word)

  class Clocks {
    const hw: Hardware

    // The static variables of wb_config.c.
    var sysClkSrc: Source
    var upllKHz: Word
    var apllKHz: Word
    var sysKHz: Word
    var cpuKHz: Word
    var hclkKHz: Word
    var hclk1KHz: Word
    var apbKHz: Word
    var regApll: Word
    var regUpll: Word
    var sysDiv: Word
    var cpuDiv: Word
    var apbDiv: Word
    var over: bool
    var extClk: Word

    ghost predicate Holds(p: Plan)
      reads this
      requires p.Settings?
    {
      && over == p.over && sysDiv == p.sysDiv && sysKHz == p.sysKHz && cpuDiv == p.cpuDiv && cpuKHz == p.cpuKHz
      && hclkKHz == p.hclkKHz && apbDiv == p.apbDiv && apbKHz == p.apbKHz
    }

    constructor (hw: Hardware)
      ensures this.hw == hw
    {
      this.hw := hw;
      sysClkSrc, upllKHz, apllKHz, sysKHz, cpuKHz, hclkKHz := Ext, 240000, 240000, 120000, 60000, 60000;
      hclk1KHz, apbKHz, regApll, regUpll, sysDiv, cpuDiv, apbDiv, over, extClk := 0, 0, 0, 0, 0, 0, 0, false, 27000;
    }

    predicate PllSource()
      reads this
    {
      sysClkSrc.Apll? || sysClkSrc.Upll?
    }

    function PllKHz(): Word
      reads this
    {
      if sysClkSrc.Apll? then apllKHz else upllKHz
    }

    function RegPll(): Word
      reads this
    {
      if sysClkSrc.Apll? then regApll else regUpll
    }

    /** The static variables are those of a successful call for request q with a PLL source. */
    ghost predicate SetBy(q: ClockRequest)
      reads this
    {
      && PllSource()
      && PlanFor(PllKHz(), q.sys, q.cpu, q.hclk, q.apb).Settings?
      && Holds(PlanFor(PllKHz(), q.sys, q.cpu, q.hclk, q.apb))
      && exists k :: Found(extClk, PllKHz(), RegPll(), k)
    }

    /** The source selection of sysSetSystemClock for a PLL: the register search and its bookkeeping. */
    method SelectPll(src: Source, pll: Word)
      requires src.Apll? || src.Upll?
      requires (extClk == 12000 || extClk == 27000) && Searchable(extClk, pll)
      modifies this`sysClkSrc, this`apllKHz, this`upllKHz, this`regApll, this`regUpll
      ensures sysClkSrc == src && PllKHz() == pll && exists k :: Found(extClk, pll, RegPll(), k)
    {
      hide Found, Ends;
      sysClkSrc := src;
      EndsExactly(extClk, pll);
      var reg: Word;
      ghost var k: nat;
      if src.Apll? {
        apllKHz := pll;
        reg, k := GetPLLControlRegister(extClk, apllKHz);
        regApll := reg;
      } else {
        upllKHz := pll;
        reg, k := GetPLLControlRegister(extClk, upllKHz);
        regUpll := reg;
      }
      assert Found(extClk, pll, RegPll(), k);
    }

    /** sysSetSystemClock for APLL or UPLL as the source. */
    method SetPllSource(code: seq<bv8>, src: Source, pll: Word, sys: Word, cpu: Word, hclk: Word, apb: Word)
        returns (r: Result)
      requires src.Apll? || src.Upll?
      requires PlanFor(pll, sys, cpu, hclk, apb).Settings? ==> Searchable(Crystal(hw.r.chipcfg), pll)
      requires AllSafe(hw.log)
      modifies this, hw
      ensures AllSafe(hw.log) && old(hw.log) <= hw.log && hw.r.chipcfg == old(hw.r.chipcfg)
      ensures hw.r.imr == old(hw.r.imr) && hw.sram == old(hw.sram)
      ensures extClk == if hw.r.chipcfg & 0xC == 0x8 then 12000 else 27000
      ensures var p := PlanFor(pll, sys, cpu, hclk, apb);
              r == if p.Refused? || p.TooSlowCpu? then ErrClk
                   else if p.DivideByZero? then DivisionByZero else Successful
      ensures r == DivisionByZero <==> Faults(pll, sys, cpu, hclk, apb)
      ensures r != Successful ==> hw.r == old(hw.r) && hw.tmp == old(hw.tmp)
      ensures r == Successful ==>
                && hw.tmp == old(hw.sram)
                && SetBy(ClockRequest(sys, cpu, hclk, apb)) && sysClkSrc == src && PllKHz() == pll
                && Switched(old(hw.r), hw.r, src, ToBits(RegPll()), hclkKHz < 96000,
                            ToBits(sysDiv), ToBits(cpuDiv), ToBits(apbDiv))
                && exists k ::
                     && Found(extClk, pll, RegPll(), k)
                     && OutputOf(Number(if src.Apll? then hw.r.apllcon else hw.r.upllcon), extClk) == Round(pll, k)
    {
      hide PlanFor, Found, Switched, ToBits, AllSafe, Refreshing, Searchable, OutputOf, Round, ApllValue, Number;
      hide Faults, Masked, ToCrystal, OnCrystal, Select, Divide4, MaskOn, MaskOff, EndRefresh, Quot;
      hide Crystal;
      CrystalFrequency(hw.r.chipcfg);
      extClk := Crystal(hw.r.chipcfg);
      r := ChooseDividers(pll, sys, cpu, hclk, apb);
      FaultsExactly(pll, sys, cpu, hclk, apb);
      if r != Successful { return; }
      SelectPll(src, pll);
      ghost var k :| Found(extClk, pll, RegPll(), k);
      WrittenPll(extClk, pll, RegPll(), k);
      ReportedOrder(pll, sys, cpu, hclk, apb);
      var _ := Quot(sysKHz, cpuKHz);    // the CPU divider computed again, never used
      hw.ClockSwitchStart(code, src, ToBits(RegPll()), hclkKHz < 96000, ToBits(sysDiv), ToBits(cpuDiv), ToBits(apbDiv));
      SwitchedPll(old(hw.r), hw.r, src, ToBits(RegPll()), hclkKHz < 96000,
                  ToBits(sysDiv), ToBits(cpuDiv), ToBits(apbDiv));
      return Successful;
    }

    /** sysSetSystemClock for the crystal: no PLL, dividers 1, HCLK recorded as 27 MHz. */
    method SetExternal(code: seq<bv8>)
      requires AllSafe(hw.log)
      modifies this, hw
      ensures AllSafe(hw.log) && old(hw.log) <= hw.log
      ensures hw.r.imr == old(hw.r.imr) && hw.sram == old(hw.sram) && hw.tmp == old(hw.sram) && OnCrystal(hw.r.clkdiv0)
      ensures Switched(old(hw.r), hw.r, Ext, 0, true, 1, 1, 1)
      ensures extClk == if hw.r.chipcfg & 0xC == 0x8 then 12000 else 27000
      ensures sysClkSrc == Ext && !over && sysDiv == cpuDiv == apbDiv == 1 && hclkKHz == 27000
      ensures sysKHz == old(sysKHz) && cpuKHz == old(cpuKHz) && apbKHz == old(apbKHz)
    {
      hide Refreshing, AllSafe, Masked, Switched, OnCrystal;
      hide Crystal;
      CrystalFrequency(hw.r.chipcfg);
      extClk := Crystal(hw.r.chipcfg);
      sysClkSrc := Ext;
      hclkKHz, over, sysDiv, cpuDiv, apbDiv := 27000, false, 1, 1, 1;
      hw.ClockSwitchStart(code, Ext, 0, true, 1, 1, 1);
      CrystalAfter(old(hw.r), hw.r);
    }

    /** sysGetSystemClock: source, PLL, SYS, CPU, HCLK and APB clock. For a source that is no PLL the
        caller's PLL variable keeps its value. */
    method GetSystemClock(pllBefore: Word) returns (src: Source, pll: Word, sys: Word, cpu: Word, hclk: Word, apb: Word)
      ensures src == sysClkSrc && pll == (if PllSource() then PllKHz() else pllBefore)
      ensures sys == sysKHz && cpu == cpuKHz && hclk == hclkKHz && apb == apbKHz
    {
      src, pll := sysClkSrc, pllBefore;
      if sysClkSrc == Upll { pll := upllKHz; } else if sysClkSrc == Apll { pll := apllKHz; }
      sys, cpu, hclk, apb := sysKHz, cpuKHz, hclkKHz, apbKHz;
    }

    /** The divider computation of sysSetSystemClock for a source other than the crystal. */
    method ChooseDividers(pll: Word, sys: Word, cpu: Word, hclk: Word, apb: Word) returns (r: Result)
      modifies this`over, this`sysDiv, this`sysKHz, this`cpuDiv, this`cpuKHz, this`hclkKHz, this`hclk1KHz,
               this`apbDiv, this`apbKHz
      ensures match PlanFor(pll, sys, cpu, hclk, apb)
              case Refused =>
                r == ErrClk && over == old(over) && sysDiv == old(sysDiv)
                && sysKHz == old(sysKHz) && hclkKHz == old(hclkKHz)
                && cpuDiv == old(cpuDiv) && cpuKHz == old(cpuKHz) && apbDiv == old(apbDiv) && apbKHz == old(apbKHz)
              case TooSlowCpu(d, s, h, c) =>
                r == ErrClk && !over && sysDiv == d && sysKHz == s && hclkKHz == h && cpuDiv == c
                && cpuKHz == old(cpuKHz) && apbDiv == old(apbDiv) && apbKHz == old(apbKHz)
              case DivideByZero => r == DivisionByZero
              case Settings(_, _, _, _, _, _, _, _) => r == Successful && Holds(PlanFor(pll, sys, cpu, hclk, apb))
    {
      hide Wrap, Ceil, Signed, OverApbDiv;
      if sys == 0 { return DivisionByZero; }
      if sys > pll { return ErrClk; }
      if cpu > sys { return ErrClk; }
      if hclk > sys { return ErrClk; }
      if apb > hclk { return ErrClk; }
      if Wrap(Ceil(pll, sys) + 1) == 0 || cpu == 0 { return DivisionByZero; }
      over := cpu > Wrap(hclk * 2);
      sysDiv := Ceil(pll, sys);
      sysKHz := Quot(pll, Wrap(sysDiv + 1));
      if over { r := ChooseOver(cpu, apb); } else { r := ChooseUnder(cpu, apb); }
    }

    /** The branch CPU <= 2 * HCLK. A too slow CPU is reported only after the SYS, HCLK and CPU divider
        variables have been overwritten. */
    method ChooseUnder(cpu: Word, apb: Word) returns (r: Result)
      requires cpu > 0
      modifies this`cpuDiv, this`cpuKHz, this`hclkKHz, this`apbDiv, this`apbKHz
      ensures match UnderPlan(sysDiv, sysKHz, cpu, apb)
              case TooSlowCpu(d, s, h, c) =>
                r == ErrClk && hclkKHz == h && cpuDiv == c
                && cpuKHz == old(cpuKHz) && apbDiv == old(apbDiv) && apbKHz == old(apbKHz)
              case Settings(_, _, _, _, _, _, _, _) =>
                r == Successful && (var p := UnderPlan(sysDiv, sysKHz, cpu, apb);
                cpuDiv == p.cpuDiv && cpuKHz == p.cpuKHz && hclkKHz == p.hclkKHz
                && apbDiv == p.apbDiv && apbKHz == p.apbKHz)
              case _ => r == DivisionByZero
    {
      hide Wrap, Ceil, Quot;
      hclkKHz := sysKHz / 2;
      cpuDiv := Ceil(sysKHz, cpu);
      if cpuDiv > 1 { return ErrClk; }
      cpuKHz := Quot(sysKHz, cpuDiv + 1);
      var div := 2;    // the larger of the CPU divider (0 or 1 here) and 2
      if apb == 0 { return DivisionByZero; }
      apbDiv := Wrap(Truncated(Signed(Quot(sysKHz, apb)), div) - 1);
      if Wrap(Wrap(apbDiv + 1) * div) == 0 { return DivisionByZero; }
      apbKHz := Quot(sysKHz, Wrap(Wrap(apbDiv + 1) * div));
      return Successful;
    }

    /** The branch CPU > 2 * HCLK. */
    method ChooseOver(cpu: Word, apb: Word) returns (r: Result)
      requires cpu > 0
      modifies this`cpuDiv, this`cpuKHz, this`hclkKHz, this`hclk1KHz, this`apbDiv, this`apbKHz
      ensures match OverPlan(sysDiv, sysKHz, cpu, apb)
              case Settings(_, _, _, _, _, _, _, _) =>
                r == Successful && (var p := OverPlan(sysDiv, sysKHz, cpu, apb);
                cpuDiv == p.cpuDiv && cpuKHz == p.cpuKHz && hclkKHz == p.hclkKHz
                && apbDiv == p.apbDiv && apbKHz == p.apbKHz)
              case _ => r == DivisionByZero
    {
      hide Wrap, Ceil, Signed, Quot, OverApbDiv;
      hclkKHz := sysKHz / 6;
      var div := Ceil(sysKHz, cpu);
      if div == 0 { div := 1; } else if Signed(div) > 5 { div := 5; }
      cpuDiv := div;
      if Wrap(cpuDiv + 1) == 0 { return DivisionByZero; }
      cpuKHz := Quot(sysKHz, Wrap(cpuDiv + 1));
      hclk1KHz := sysKHz / 6;
      if apb == 0 { return DivisionByZero; }
      apbDiv := OverApbDiv(sysKHz, apb);
      OverDivisor(sysKHz, apb);
      apbKHz := Quot(sysKHz, Wrap(Wrap(apbDiv + 1) * 6));
      return Successful;
    }
  }

  lemma CrystalFrequency(chipcfg: bv32)
    ensures Crystal(chipcfg) == if chipcfg & 0xC == 0x8 then 12000 else 27000
  {
  }

  /** The register found runs the PLL at the frequency found, with and without the bits set above it. */
  lemma WrittenPll(fin: Word, pll: Word, reg: Word, k: nat)
    requires Found(fin, pll, reg, k)
    ensures OutputOf(Number(ApllValue(ToBits(reg))), fin) == Round(pll, k)
    ensures OutputOf(Number(ToBits(reg)), fin) == Round(pll, k)
  {
    hide OutputOf, Pack, Hit, ApllValue, Round, ToBits, Number, NoneBelow, Attainable;
    var o, i, f :| First(fin, Round(pll, k), o, i, f) && reg == Pack(o, i, f);
    FoundRegister(fin, pll, reg, k);
    ToBitsValue(reg);
    ApllNumber(reg);
    UnpackedOutput(Number(ToBits(reg)), fin, Round(pll, k), o, i, f);
    UnpackedOutput(Number(ApllValue(ToBits(reg))), fin, Round(pll, k), o, i, f);
  }

  lemma SwitchedPll(r: Regs, r': Regs, src: Source, pllReg: bv32, low: bool, sysDiv: bv32, cpuDiv: bv32, apbDiv: bv32)
    requires Switched(r, r', src, pllReg, low, sysDiv, cpuDiv, apbDiv)
    ensures src.Apll? ==> r'.apllcon == ApllValue(pllReg)
    ensures src.Upll? ==> r'.upllcon == pllReg
  {
    hide ApllValue, ClkDiv0After, ClkDiv4After, SdcmdAfter, SdemrAfter, SdopmAfter;
  }

  lemma ApllNumber(reg: Word)
    requires reg < 0x1_0000
    ensures Number(ApllValue(ToBits(reg))) == 0x00F8_0000 + reg
  {
    ToBitsValue(reg);
    hide ToBits, Number;
    WithApllBits(ToBits(reg));
  }

  /** The low byte of CLKDIV0 is clear, and with it the source field. */
  lemma CrystalAfter(r: Regs, r': Regs)
    requires Switched(r, r', Ext, 0, true, 1, 1, 1)
    ensures OnCrystal(r'.clkdiv0)
  {
    hide ClkDiv4After, SdcmdAfter, SdemrAfter, SdopmAfter;
  }

  /** sysSetPllClock, on the two PLL registers. If the PLL drives the system its present output is
      returned; otherwise it is set to the first attainable frequency of target, target - 4000, ...
      For a source that is no PLL nothing is written, and the UPLL output is returned, because the
      source assigns the parameter where it means to compare it. */
  method SetPllClock(crystal: Word, systemS: Source, apll: Word, upll: Word, src: Source, target: Word)
      returns (khz: Word, apll': Word, upll': Word, ghost k: nat)
    requires crystal == 12000 || crystal == 27000
    requires (src.Apll? && systemS.Apll?) || (src.Upll? && systemS.Upll?) || Searchable(crystal, target)
    ensures src.Apll? && systemS.Apll? ==> apll' == apll && upll' == upll && khz == OutputOf(apll, crystal)
    ensures src.Upll? && systemS.Upll? ==> apll' == apll && upll' == upll && khz == OutputOf(upll, crystal)
    ensures src.Apll? && !systemS.Apll? ==>
              Found(crystal, target, apll', k) && khz == Round(target, k) == OutputOf(apll', crystal) && upll' == upll
    ensures src.Upll? && !systemS.Upll? ==>
              Found(crystal, target, upll', k) && khz == Round(target, k) == OutputOf(upll', crystal) && apll' == apll
    ensures !src.Apll? && !src.Upll? ==> apll' == apll && upll' == upll && khz == OutputOf(upll, crystal)
  {
    hide OutputOf, Found;
    apll', upll', k := apll, upll, 0;
    if systemS.Upll? && src.Upll? { return OutputOf(upll, crystal), apll, upll, 0; }
    if systemS.Apll? && src.Apll? { return OutputOf(apll, crystal), apll, upll, 0; }
    var reg;
    EndsExactly(crystal, target);
    reg, k := GetPLLControlRegister(crystal, target);
    FoundRegister(crystal, target, reg, k);
    if src.Apll? { apll' := reg; } else if src.Upll? { upll' := reg; }
    khz := OutputOf(if src.Apll? then apll' else upll', crystal);
  }
}
