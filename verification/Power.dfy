/** sysPMStart (wb_power.c): reading the clocks before power saving and setting them again after it. */
module Power {
  import opened Bits
  import opened Pll
  import opened PllSearch
  import opened ClockPlan
  import opened ClockFields
  import opened ClockSwitch
  import opened ClockTree

  /** The power modes for which sysPMStart prepares an SRAM function; `Other` is any invalid value. */
  datatype Mode = Midle | PowerDown | Other

  datatype PmResult = Done | TypeFail | IrqFail | ClockFault

  /** One of EXTINT0..3 (channels 2 to 5) or the ADC (channel 22) is selected as a wake-up source. */
  predicate CanWake(pmIrq: bv32) {
    pmIrq & 0x0040_003C != 0
  }

  lemma WakeSources(pmIrq: bv32)
    ensures CanWake(pmIrq) <==>
              || pmIrq & (1 << 2) != 0 || pmIrq & (1 << 3) != 0 || pmIrq & (1 << 4) != 0 || pmIrq & (1 << 5) != 0
              || pmIrq & (1 << 22) != 0
  {
  }

  /** The outcome of setting the clocks that are reported now. */
  function Reported(c: Clocks): Plan
    reads c
  {
    PlanFor(c.PllKHz(), c.sysKHz, c.cpuKHz, c.hclkKHz, c.apbKHz)
  }

  /** The plan in force before power saving. */
  function Before(pll: Word, q: ClockRequest): Plan {
    PlanFor(pll, q.sys, q.cpu, q.hclk, q.apb)
  }

  /** Reading the clocks and setting them again, with the crystal or a PLL as the source. */
  method RestoreClocks(c: Clocks, code: seq<bv8>, ghost q: ClockRequest) returns (r: Result)
    requires c.sysClkSrc.Ext? || (c.SetBy(q) && c.extClk == Crystal(c.hw.r.chipcfg))
    requires AllSafe(c.hw.log)
    modifies c, c.hw
    ensures AllSafe(c.hw.log) && c.hw.r.imr == old(c.hw.r.imr) && c.hw.sram == old(c.hw.sram)
    ensures r == ClockTree.Successful <==> old(c.sysClkSrc.Ext? || Reported(c).Settings?)
    ensures r == DivisionByZero <==> old(!c.sysClkSrc.Ext? && Reported(c).DivideByZero?)
    ensures c.hw.tmp == if r == ClockTree.Successful then old(c.hw.sram) else old(c.hw.tmp)
    ensures r == ClockTree.Successful ==> c.sysClkSrc == old(c.sysClkSrc)
    ensures r == ClockTree.Successful && old(!c.sysClkSrc.Ext?) ==>
              c.PllKHz() == old(c.PllKHz()) && c.RegPll() == old(c.RegPll()) && c.Holds(old(Reported(c)))
    ensures old(!c.sysClkSrc.Ext? && !c.over) ==>
              ((r == ClockTree.Successful && c.Holds(Before(old(c.PllKHz()), q)))
                <==> Restorable(old(c.PllKHz()), Before(old(c.PllKHz()), q)))
    ensures old(!c.sysClkSrc.Ext? && !c.over && Restorable(c.PllKHz(), Before(c.PllKHz(), q))) ==> c.SetBy(q)
    ensures old(c.sysClkSrc.Ext?) ==> OnCrystal(c.hw.r.clkdiv0)
  {
    hide PlanFor, Found, Faults, Restorable, AllSafe, Clocks.Holds, ClkDiv0After, ClkDiv4After;
    if c.sysClkSrc.Ext? {
      c.SetExternal(code);
      return ClockTree.Successful;
    }
    ghost var fin, regBefore, p := c.extClk, c.RegPll(), Before(c.PllKHz(), q);
    ghost var k0 :| Found(fin, c.PllKHz(), regBefore, k0);
    SameFields(c, p);
    RestoreStep(c.PllKHz(), q);
    FoundSearchable(fin, c.PllKHz(), regBefore, k0);
    var src, pll, sys, cpu, hclk, apb := c.GetSystemClock(0);
    r := c.SetPllSource(code, src, pll, sys, cpu, hclk, apb);
    if r == ClockTree.Successful {
      ghost var k1 :| Found(fin, pll, c.RegPll(), k1);
      FoundOnce(fin, pll, regBefore, k0, c.RegPll(), k1);
      assert Found(c.extClk, c.PllKHz(), c.RegPll(), k1);
      SamePlan(c, PlanFor(pll, p.sysKHz, p.cpuKHz, p.hclkKHz, p.apbKHz), p);
    }
  }

  lemma SameFields(c: Clocks, p: Plan)
    requires p.Settings? && c.Holds(p)
    ensures c.sysKHz == p.sysKHz && c.cpuKHz == p.cpuKHz && c.hclkKHz == p.hclkKHz && c.apbKHz == p.apbKHz
    ensures c.over == p.over
  {
  }

  lemma SamePlan(c: Clocks, p: Plan, p': Plan)
    requires p.Settings? && p'.Settings? && c.Holds(p)
    ensures c.Holds(p') <==> p == p'
  {
  }

  lemma RestoreStep(pll: Word, q: ClockRequest)
    requires Before(pll, q).Settings?
    ensures var p := Before(pll, q);
            !p.over ==> (PlanFor(pll, p.sysKHz, p.cpuKHz, p.hclkKHz, p.apbKHz) == p <==> Restorable(pll, p))
  {
    hide PlanFor, Restorable;
    if !Before(pll, q).over { RestoreExactly(pll, q.sys, q.cpu, q.hclk, q.apb); }
  }

  lemma FoundSearchable(fin: Word, pll: Word, reg: Word, k: nat)
    requires (fin == 12000 || fin == 27000) && Found(fin, pll, reg, k)
    ensures Searchable(fin, pll)
  {
    hide Found;
    FoundRegister(fin, pll, reg, k);
    EndsExactly(fin, pll);
  }

  /** _sysEnterPowerSavingMode: enables the wake-up sources, asks the SDRAM to self-refresh and turns off
      the crystal (bit 0 of PWRCON) and the CPU clock (bit 0 of AHBCLK); the sleep itself is left out. */
  method EnterPowerSaving(hw: Hardware, irq: bv32)
    modifies hw`r
    ensures hw.r == old(hw.r).(imr := old(hw.r.imr) | irq, sdcmd := old(hw.r.sdcmd) | 0x28,
                               pwrcon := old(hw.r.pwrcon) & 0xFFFF_FFFE, ahbclk := old(hw.r.ahbclk) & 0xFFFF_FFFE)
  {
    hw.EnableMask(irq);
    hw.r := hw.r.(sdcmd := SelfRefresh(hw.r.sdcmd));
    hw.r := hw.r.(pwrcon := hw.r.pwrcon & 0xFFFF_FFFE, ahbclk := hw.r.ahbclk & 0xFFFF_FFFE);
  }

  /** sysPMStart, with the crystal or a PLL as the clock source. The interrupt mask always comes back. The
      SRAM block does not: the nested clock switch saves its own copy into the same buffer, so exactly when
      the reported clocks can be set again the block is left holding the power-saving code. */
  method PMStart(c: Clocks, mode: Mode, pmIrq: bv32, pmCode: seq<bv8>, switchCode: seq<bv8>, ghost q: ClockRequest)
      returns (r: PmResult)
    requires c.sysClkSrc.Ext? || (c.SetBy(q) && c.extClk == Crystal(c.hw.r.chipcfg))
    requires AllSafe(c.hw.log)
    modifies c, c.hw
    ensures r == TypeFail <==> mode == Other
    ensures r == IrqFail <==> mode == PowerDown && !CanWake(pmIrq)
    ensures r == ClockFault <==>
              !(mode == Other || (mode == PowerDown && !CanWake(pmIrq)))
              && old(!c.sysClkSrc.Ext? && Reported(c).DivideByZero?)
    ensures r == TypeFail || r == IrqFail ==>
              c.hw.r == old(c.hw.r) && c.hw.sram == old(c.hw.sram) && c.RegPll() == old(c.RegPll())
              && (old(c.SetBy(q)) ==> c.SetBy(q))
    ensures AllSafe(c.hw.log)
    ensures r != ClockFault ==> c.hw.r.imr == old(c.hw.r.imr)
    ensures r == Done ==> c.hw.sram == if old(c.sysClkSrc.Ext? || Reported(c).Settings?) then pmCode else old(c.hw.sram)
    ensures r == Done && old(!c.sysClkSrc.Ext? && Reported(c).Settings?) ==>
              c.sysClkSrc == old(c.sysClkSrc) && c.PllKHz() == old(c.PllKHz()) && c.RegPll() == old(c.RegPll())
              && c.Holds(old(Reported(c)))
    ensures r == Done && old(!c.sysClkSrc.Ext? && !c.over) ==>
              ((old(Reported(c)).Settings? && c.Holds(Before(old(c.PllKHz()), q)))
                <==> Restorable(old(c.PllKHz()), Before(old(c.PllKHz()), q)))
  {
    hide PlanFor, Found, Restorable, AllSafe, Clocks.Holds, CanWake, MaskOn, MaskOff, SelfRefresh;
    if mode == Other { return TypeFail; }
    if mode == PowerDown && !CanWake(pmIrq) { return IrqFail; }
    var status := c.hw.r.imr;
    c.hw.DisableMask(0xFFFF_FFFF);
    c.hw.tmp := c.hw.sram;
    c.hw.sram := pmCode;
    EnterPowerSaving(c.hw, pmIrq);
    var clocks := RestoreClocks(c, switchCode, q);
    if clocks == DivisionByZero { return ClockFault; }
    c.hw.sram := c.hw.tmp;
    Remasked(c.hw.r.imr, status);
    c.hw.DisableMask(0xFFFF_FFFF);
    c.hw.EnableMask(status);
    return Done;
  }
}
