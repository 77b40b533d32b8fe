/** The clock-switch sequence of wb_config.c over the clock, SDRAM and interrupt-mask registers. */
module ClockSwitch {
  import opened ClockFields

  datatype Regs = Regs(
    chipcfg: bv32, clkdiv0: bv32, clkdiv4: bv32, apllcon: bv32, upllcon: bv32,
    sdcmd: bv32, sdemr: bv32, sdopm: bv32, imr: bv32, pwrcon: bv32, ahbclk: bv32)

  datatype Reg = ClkDiv0 | ClkDiv4 | ApllCon | UpllCon

  /** A write to a clock register: the value, and all registers as they stood just before it. */
  datatype Write = Write(reg: Reg, value: bv32, before: Regs)

  /** Clock registers are written with every interrupt source masked and the SDRAM refresh command set;
      the APLL is reprogrammed only while the crystal drives the system. */
  predicate Safe(w: Write) {
    Masked(w.before.imr) && Refreshing(w.before.sdcmd) && (w.reg.ApllCon? ==> OnCrystal(w.before.clkdiv0))
  }

  ghost predicate AllSafe(log: seq<Write>) {
    forall k | 0 <= k < |log| :: Safe(log[k])
  }

  function Put(r: Regs, reg: Reg, value: bv32): Regs {
    match reg
    case ClkDiv0 => r.(clkdiv0 := value)
    case ClkDiv4 => r.(clkdiv4 := value)
    case ApllCon => r.(apllcon := value)
    case UpllCon => r.(upllcon := value)
  }

  /** The SDRAM registers in self-refresh: for DDR2 the DLL is disabled and the low-frequency bit follows HCLK. */
  function Refreshed(r: Regs, lowHclk: bool): Regs {
    r.(sdcmd := SelfRefresh(r.sdcmd),
       sdemr := if IsDdr2(r.chipcfg) then DllOff(r.sdemr) else r.sdemr,
       sdopm := if IsDdr2(r.chipcfg) then LowFreq(r.sdopm, lowHclk) else r.sdopm)
  }

  /** What is done twice for the crystal is done once. */
  lemma RefreshTwice(src: Source, r: Regs, low: bool)
    ensures var s := Refreshed(r, low);
            && (if src.Ext? && IsDdr(r.chipcfg) then DllOff(s.sdemr) else s.sdemr)
               == SdemrAfter(src, r.chipcfg, r.sdemr)
            && (if src.Ext? && IsDdr(r.chipcfg) then LowFreq(s.sdopm, true) else s.sdopm)
               == SdopmAfter(src, r.chipcfg, r.sdopm, low)
  {
    hide DllOff, LowFreq, IsDdr, IsDdr2, SelfRefresh;
    RamInNumbers(r.chipcfg);
    DllInNumbers(r.sdemr);
    LowFreqInNumbers(r.sdopm, low);
  }

  lemma RefreshFrame(r: Regs, lowHclk: bool)
    ensures var s := Refreshed(r, lowHclk);
            && s.imr == r.imr && s.chipcfg == r.chipcfg && s.clkdiv0 == r.clkdiv0 && s.clkdiv4 == r.clkdiv4
            && s.apllcon == r.apllcon && s.upllcon == r.upllcon && s.pwrcon == r.pwrcon && s.ahbclk == r.ahbclk
            && s.sdcmd == SelfRefresh(r.sdcmd)
  {
    hide Refreshing, SelfRefresh, IsDdr2, DllOff, LowFreq;
  }

  /** All registers after a switch, in numbers. */
  predicate Switched(r: Regs, r': Regs, src: Source, pllReg: bv32, lowHclk: bool,
                     sysDiv: bv32, cpuDiv: bv32, apbDiv: bv32)
  {
    && r'.clkdiv0 == ClkDiv0After(src, r.clkdiv0, sysDiv)
    && r'.clkdiv4 == ClkDiv4After(src, r.clkdiv0, r.clkdiv4, cpuDiv, apbDiv)
    && r'.apllcon == (if src.Apll? then ApllValue(pllReg) else r.apllcon)
    && r'.upllcon == (if src.Upll? then pllReg else r.upllcon)
    && r'.sdcmd == SdcmdAfter(r.sdcmd)
    && r'.sdemr == SdemrAfter(src, r.chipcfg, r.sdemr)
    && r'.sdopm == SdopmAfter(src, r.chipcfg, r.sdopm, lowHclk)
    && r'.imr == r.imr && r'.chipcfg == r.chipcfg && r'.pwrcon == r.pwrcon && r'.ahbclk == r.ahbclk
  }

  class Hardware {
    var r: Regs
    var sram: seq<bv8>    // the 4 KB block at PD_RAM_BASE
    var tmp: seq<bv8>     // _tmp_buf
    ghost var log: seq<Write>

    method Out(reg: Reg, value: bv32)
      modifies this`r, this`log
      ensures r == Put(old(r), reg, value)
      ensures log == old(log) + [Write(reg, value, old(r))]
    {
      log := log + [Write(reg, value, r)];
      r := Put(r, reg, value);
    }

    /** Writes to REG_AIC_MDCR and REG_AIC_MECR. */
    method DisableMask(bits: bv32)
      modifies this`r
      ensures r == old(r).(imr := MaskOff(old(r.imr), bits))
    {
      r := r.(imr := MaskOff(r.imr, bits));
    }

    method EnableMask(bits: bv32)
      modifies this`r
      ensures r == old(r).(imr := MaskOn(old(r.imr), bits))
    {
      r := r.(imr := MaskOn(r.imr, bits));
    }

    /** The SDRAM part of the sequence: self-refresh, and for DDR2 the DLL and low-frequency bits. */
    method EnterRefresh(lowHclk: bool)
      modifies this`r
      ensures Refreshing(r.sdcmd) && r == Refreshed(old(r), lowHclk)
    {
      RamInNumbers(r.chipcfg);
      hide SelfRefresh, Refreshing, EndRefresh, SdcmdAfter, IsDdr2, DllOff, LowFreq;
      r := r.(sdcmd := SelfRefresh(r.sdcmd));
      if r.chipcfg & SDRAMSEL == 0x20 {
        SetDll();
        SetLowFreq(lowHclk);
      }
    }

    method SetDll()
      modifies this`r
      ensures r == old(r).(sdemr := DllOff(old(r.sdemr)))
    {
      DllInNumbers(r.sdemr);
      hide DllOff;
      r := r.(sdemr := r.sdemr | DLLEN);
    }

    method SetLowFreq(low: bool)
      modifies this`r
      ensures r == old(r).(sdopm := LowFreq(old(r.sdopm), low))
    {
      LowFreqInNumbers(r.sdopm, low);
      hide LowFreq;
      r := r.(sdopm := if low then r.sdopm | LOWFREQ else r.sdopm & !LOWFREQ);
    }

    /** Leaving self-refresh: REF_CMD is cleared, AUTOEXSELFREF stays set. */
    method LeaveRefresh()
      modifies this`r
      ensures r == old(r).(sdcmd := EndRefresh(old(r.sdcmd)))
    {
      r := r.(sdcmd := EndRefresh(r.sdcmd));
    }

    /** The switch to the crystal. */
    method ToExternal(sysDiv: bv32)
      requires Masked(r.imr) && Refreshing(r.sdcmd) && AllSafe(log)
      modifies this`r, this`log
      ensures AllSafe(log) && old(log) <= log
      ensures r == old(r).(clkdiv0 := ClkDiv0After(Ext, old(r.clkdiv0), sysDiv),
                           sdemr := if IsDdr(r.chipcfg) then DllOff(old(r.sdemr)) else old(r.sdemr),
                           sdopm := if IsDdr(r.chipcfg) then LowFreq(old(r.sdopm), true) else old(r.sdopm))
    {
      ExtInNumbers(r.clkdiv0, sysDiv);
      RamInNumbers(r.chipcfg);
      hide Masked, Refreshing, ToCrystal, Predivide, OnExt, DllOff, LowFreq, IsDdr;
      Out(ClkDiv0, Predivide(r.clkdiv0, sysDiv));
      if r.chipcfg & SDRAMSEL != 0 {
        SetDll();
        SetLowFreq(true);
      }
      Out(ClkDiv0, ToCrystal(r.clkdiv0));
    }

    /** The divider writes that end both PLL paths. */
    method SetDividers(src: Source, sysDiv: bv32, cpuDiv: bv32, apbDiv: bv32)
      requires Masked(r.imr) && Refreshing(r.sdcmd) && AllSafe(log)
      modifies this`r, this`log
      ensures AllSafe(log) && old(log) <= log && |log| == |old(log)| + 2
      ensures r == old(r).(clkdiv0 := Select(old(r.clkdiv0), src, sysDiv),
                           clkdiv4 := Divide4(old(r.clkdiv4), cpuDiv, apbDiv))
    {
      hide Masked, Refreshing, Select, Divide4;
      Out(ClkDiv0, Select(r.clkdiv0, src, sysDiv));
      Out(ClkDiv4, Divide4(r.clkdiv4, cpuDiv, apbDiv));
    }

    /** The switch to the UPLL. The source writes UPLLCON without first leaving the UPLL: the system
        runs from the UPLL at that write if and only if it did on entry. */
    method ToUpll(pllReg: bv32, sysDiv: bv32, cpuDiv: bv32, apbDiv: bv32)
      requires Masked(r.imr) && Refreshing(r.sdcmd) && AllSafe(log)
      modifies this`r, this`log
      ensures AllSafe(log) && |log| == |old(log)| + 4 && old(log) <= log
      ensures log[|old(log)|] == Write(ClkDiv0, Slower(old(r.clkdiv0)), old(r))
      ensures var w := log[|old(log)| + 1];
              && w.reg == UpllCon && w.value == pllReg
              && (OnUpll(w.before.clkdiv0) <==> OnUpll(old(r.clkdiv0)))
      ensures r == old(r).(clkdiv0 := ClkDiv0After(Upll, old(r.clkdiv0), sysDiv), upllcon := pllReg,
                           clkdiv4 := ClkDiv4After(Upll, old(r.clkdiv0), old(r.clkdiv4), cpuDiv, apbDiv))
    {
      SelectUpll(r.clkdiv0, sysDiv);
      DivideInNumbers(r.clkdiv4, cpuDiv, apbDiv);
      SlowerKeeps(r.clkdiv0, sysDiv);
      hide FromUpll, CpuApb, OnUpll;
      hide Masked, Refreshing, Select, Divide4, Slower, OnUpll, OnCrystal;
      Out(ClkDiv0, Slower(r.clkdiv0));
      Out(UpllCon, pllReg);
      SetDividers(Upll, sysDiv, cpuDiv, apbDiv);
    }

    /** The switch to the APLL, from the UPLL or from the APLL itself. */
    method ToApll(pllReg: bv32, sysDiv: bv32, cpuDiv: bv32, apbDiv: bv32)
      requires Masked(r.imr) && Refreshing(r.sdcmd) && AllSafe(log)
      modifies this`r, this`log
      ensures AllSafe(log) && old(log) <= log
      ensures r == old(r).(clkdiv0 := ClkDiv0After(Apll, old(r.clkdiv0), sysDiv), apllcon := ApllValue(pllReg),
                           clkdiv4 := ClkDiv4After(Apll, old(r.clkdiv0), old(r.clkdiv4), cpuDiv, apbDiv))
    {
      SelectApll(r.clkdiv0, sysDiv);
      DivideInNumbers(if OnUpll(r.clkdiv0) then 0x100 else r.clkdiv4, cpuDiv, apbDiv);
      assert OnUpll(r.clkdiv0) <==> r.clkdiv0 & SYSTEM_S == SYSTEM_S;
      hide FromApll, CpuApb, OnUpll, ApllValue;
      hide Masked, Refreshing, Select, Divide4, ToCrystal, OnUpll, OnCrystal;
      if r.clkdiv0 & SYSTEM_S == SYSTEM_S {
        LeaveUpll(pllReg);
      } else {
        Out(ClkDiv0, ToCrystal(r.clkdiv0));
        Out(ApllCon, ApllValue(pllReg));
      }
      SetDividers(Apll, sysDiv, cpuDiv, apbDiv);
    }

    /** The way from the UPLL to the APLL: the crystal first, an intermediate APLL setting, then the new one. */
    method LeaveUpll(pllReg: bv32)
      requires Masked(r.imr) && Refreshing(r.sdcmd) && AllSafe(log)
      modifies this`r, this`log
      ensures AllSafe(log) && old(log) <= log && |log| == |old(log)| + 8
      ensures var n := |old(log)|;
              && log[n] == Write(ClkDiv0, ToCrystal(old(r.clkdiv0)), old(r))
              && log[n + 1].reg == ClkDiv4 && log[n + 1].value == 0x100
              && log[n + 2].reg == ApllCon && log[n + 2].value == 0x00F8_801C
              && forall k | n + 3 <= k < n + 8 :: log[k].reg == ApllCon && log[k].value == ApllValue(pllReg)
      ensures r == old(r).(clkdiv0 := ToCrystal(old(r.clkdiv0)), clkdiv4 := 0x100, apllcon := ApllValue(pllReg))
    {
      hide Masked, Refreshing, ToCrystal, OnCrystal, ApllValue;
      Out(ClkDiv0, ToCrystal(r.clkdiv0));
      Out(ClkDiv4, 0x100);
      Out(ApllCon, 0x00F8_801C);
      ReprogramApll(pllReg);
    }

    /** The assembler loop that stores the new APLL setting five times. */
    method ReprogramApll(pllReg: bv32)
      requires Masked(r.imr) && Refreshing(r.sdcmd) && AllSafe(log) && OnCrystal(r.clkdiv0)
      modifies this`r, this`log
      ensures AllSafe(log) && old(log) <= log && |log| == |old(log)| + 5
      ensures forall k | |old(log)| <= k < |log| :: log[k].reg == ApllCon && log[k].value == ApllValue(pllReg)
      ensures r == old(r).(apllcon := ApllValue(pllReg))
    {
      hide Masked, Refreshing, OnCrystal, ApllValue;
      var n := 5;
      while n != 0
        invariant 0 <= n <= 5 && AllSafe(log) && old(log) <= log && |log| == |old(log)| + 5 - n
        invariant forall k | |old(log)| <= k < |log| :: log[k].reg == ApllCon && log[k].value == ApllValue(pllReg)
        invariant r == old(r).(apllcon := r.apllcon) && (n < 5 ==> r.apllcon == ApllValue(pllReg))
      {
        Out(ApllCon, ApllValue(pllReg));
        n := n - 1;
      }
    }

    /** The three branches of sysClockSwitch; a switch to the 32 kHz clock writes nothing. */
    method Dispatch(src: Source, pllReg: bv32, sysDiv: bv32, cpuDiv: bv32, apbDiv: bv32)
      requires Masked(r.imr) && Refreshing(r.sdcmd) && AllSafe(log)
      modifies this`r, this`log
      ensures AllSafe(log) && old(log) <= log
      ensures r == old(r).(clkdiv0 := ClkDiv0After(src, old(r.clkdiv0), sysDiv),
                           clkdiv4 := ClkDiv4After(src, old(r.clkdiv0), old(r.clkdiv4), cpuDiv, apbDiv),
                           apllcon := if src.Apll? then ApllValue(pllReg) else old(r.apllcon),
                           upllcon := if src.Upll? then pllReg else old(r.upllcon),
                           sdemr := if src.Ext? && IsDdr(r.chipcfg) then DllOff(old(r.sdemr)) else old(r.sdemr),
                           sdopm := if src.Ext? && IsDdr(r.chipcfg) then LowFreq(old(r.sdopm), true)
                                    else old(r.sdopm))
    {
      hide Masked, Refreshing, Select, Divide4, ToCrystal, OnUpll, OnCrystal, Predivide, AllSafe, ApllValue;
      hide OnExt, FromUpll, FromApll, CpuApb, OnUpll, IsDdr, DllOff, LowFreq;
      match src {
        case Ext => ToExternal(sysDiv);
        case Upll => ToUpll(pllReg, sysDiv, cpuDiv, apbDiv);
        case Apll => ToApll(pllReg, sysDiv, cpuDiv, apbDiv);
        case X32k =>
      }
    }

    /** sysClockSwitch, which runs from the SRAM block. */
    method ClockSwitch(src: Source, pllReg: bv32, lowHclk: bool, sysDiv: bv32, cpuDiv: bv32, apbDiv: bv32)
      requires AllSafe(log)
      modifies this`r, this`log
      ensures AllSafe(log) && old(log) <= log
      ensures r.imr == old(r.imr) && r.chipcfg == old(r.chipcfg) && !Refreshing(r.sdcmd)
      ensures Switched(old(r), r, src, pllReg, lowHclk, sysDiv, cpuDiv, apbDiv)
    {
      hide Masked, Refreshing, ClkDiv0After, ClkDiv4After, AllSafe, MaskOff, MaskOn, EndRefresh;
      hide Refreshed;
      var saved := r.imr;
      DisableMask(0xFFFF_FFFE);
      RefreshFrame(r, lowHclk);
      RefreshTwice(src, r, lowHclk);
      RefreshEnded(r.sdcmd);
      EnterRefresh(lowHclk);
      NowMasked(saved);
      Dispatch(src, pllReg, sysDiv, cpuDiv, apbDiv);
      RefreshOver(r.sdcmd);
      LeaveRefresh();
      EnableMask(saved);
      Unmasked(saved);
    }

    /** sysClockSwitchStart: copies the switch code into SRAM, runs it there and puts everything back. */
    method ClockSwitchStart(code: seq<bv8>, src: Source, pllReg: bv32, lowHclk: bool,
                            sysDiv: bv32, cpuDiv: bv32, apbDiv: bv32)
      requires AllSafe(log)
      modifies this`r, this`log, this`sram, this`tmp
      ensures AllSafe(log) && old(log) <= log
      ensures r.imr == old(r.imr) && sram == old(sram) && tmp == old(sram) && r.chipcfg == old(r.chipcfg)
      ensures !Refreshing(r.sdcmd)
      ensures Switched(old(r), r, src, pllReg, lowHclk, sysDiv, cpuDiv, apbDiv)
    {
      hide Masked, Refreshing, ClkDiv0After, ClkDiv4After, AllSafe, MaskOff, MaskOn, EndRefresh;
      var status := r.imr;
      DisableMask(0xFFFF_FFFF);
      tmp := sram;
      sram := code;
      ClockSwitch(src, pllReg, lowHclk, sysDiv, cpuDiv, apbDiv);
      sram := tmp;
      DisableMask(0xFFFF_FFFF);
      EnableMask(status);
      Remasked(old(r.imr), status);
    }
  }
}
