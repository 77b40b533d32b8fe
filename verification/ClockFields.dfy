/** The fields of the clock, SDRAM and interrupt-mask registers that the clock switch of wb_config.c changes:
    the operations of the source, and what they come to in numbers. */
module ClockFields {
  datatype Source = Ext | X32k | Apll | Upll

  function Code(s: Source): (c: bv32)
    ensures c == 0 || c == 1 || c == 2 || c == 3
  {
    match s
    case Ext => 0
    case X32k => 1
    case Apll => 2
    case Upll => 3
  }

  const REF_CMD: bv32 := 0x08
  const AUTOEXSELFREF: bv32 := 0x20
  const SDRAMSEL: bv32 := 0x30
  const DLLEN: bv32 := 0x01
  const LOWFREQ: bv32 := 0x4_0000
  const SYSTEM_S: bv32 := 0x18

  predicate Masked(imr: bv32) {
    imr & 0xFFFF_FFFE == 0
  }

  predicate Refreshing(sdcmd: bv32) {
    sdcmd & 0x08 != 0
  }

  /** SYSTEM_S selects the crystal. */
  predicate OnCrystal(clkdiv0: bv32) {
    clkdiv0 & 0x18 == 0
  }

  predicate OnUpll(clkdiv0: bv32) {
    clkdiv0 & 0x18 == 0x18
  }

  /** CLKDIV0 with its low byte cleared: the crystal, undivided. */
  function ToCrystal(clkdiv0: bv32): (x: bv32)
    ensures OnCrystal(x)
  {
    clkdiv0 & !0xFF
  }

  /** CLKDIV0 with a new source and pre-divider and SYSTEM_N1 cleared. */
  function Select(clkdiv0: bv32, src: Source, sysDiv: bv32): bv32 {
    (clkdiv0 & !0xF1F) | ((Code(src) << 3) | sysDiv)
  }

  /** CLKDIV4 with new CPU and APB dividers. */
  function Divide4(clkdiv4: bv32, cpuDiv: bv32, apbDiv: bv32): bv32 {
    (clkdiv4 & !0xF0F) | (cpuDiv | (apbDiv << 8))
  }

  function Predivide(clkdiv0: bv32, sysDiv: bv32): bv32 {
    (clkdiv0 & !0x7) | sysDiv
  }

  function ApllValue(pllReg: bv32): bv32 {
    0x00F8_0000 | pllReg
  }

  /** APLLCON takes the low 17 bits and bits 24 to 31 of the setting and has bits 19 to 23 set. */
  lemma ApllInNumbers(pllReg: bv32)
    ensures ApllValue(pllReg) & 0x1_FFFF == pllReg & 0x1_FFFF
    ensures ApllValue(pllReg) & 0x00F8_0000 == 0x00F8_0000
    ensures ApllValue(pllReg) & 0xFF07_FFFF == pllReg & 0xFF07_FFFF
  {
  }

  /** CLKDIV0 with bit 1 set ("safe consider" in the source). */
  function Slower(clkdiv0: bv32): bv32 {
    clkdiv0 | 0x02
  }

  /** It keeps the source of the clock and does not show after the switch. */
  lemma SlowerKeeps(x: bv32, n: bv32)
    ensures OnUpll(Slower(x)) <==> OnUpll(x)
    ensures Select(Slower(x), Upll, n) == Select(x, Upll, n)
  {
  }

  // The registers after a switch to `src`, in numbers.

  function OnExt(clkdiv0: bv32, sysDiv: bv32): bv32 { ((clkdiv0 & 0xFFFF_FFF8) | sysDiv) & 0xFFFF_FF00 }
  function FromUpll(clkdiv0: bv32, sysDiv: bv32): bv32 { (clkdiv0 & 0xFFFF_F0E0) | 0x18 | sysDiv }
  function FromApll(clkdiv0: bv32, sysDiv: bv32): bv32 { (clkdiv0 & 0xFFFF_F000) | 0x10 | sysDiv }
  function CpuApb(clkdiv4: bv32, cpuDiv: bv32, apbDiv: bv32): bv32 { (clkdiv4 & !0xF0F) | (cpuDiv | (apbDiv << 8)) }

  function ClkDiv0After(src: Source, clkdiv0: bv32, sysDiv: bv32): bv32 {
    match src
    case Ext => OnExt(clkdiv0, sysDiv)
    case X32k => clkdiv0
    case Upll => FromUpll(clkdiv0, sysDiv)
    case Apll => FromApll(clkdiv0, sysDiv)
  }

  function ClkDiv4After(src: Source, clkdiv0: bv32, clkdiv4: bv32, cpuDiv: bv32, apbDiv: bv32): bv32 {
    match src
    case Ext => clkdiv4
    case X32k => clkdiv4
    case Upll => CpuApb(clkdiv4, cpuDiv, apbDiv)
    case Apll => CpuApb(if OnUpll(clkdiv0) then 0x100 else clkdiv4, cpuDiv, apbDiv)
  }

  /** DDR2 SDRAM, and any DDR SDRAM. */
  predicate IsDdr2(chipcfg: bv32) { chipcfg & 0x30 == 0x20 }
  predicate IsDdr(chipcfg: bv32) { chipcfg & 0x30 != 0 }

  function DllOff(sdemr: bv32): bv32 { sdemr | 1 }
  function LowFreq(sdopm: bv32, low: bool): bv32 {
    if low then sdopm | 0x4_0000 else sdopm & 0xFFFB_FFFF
  }

  /** For DDR2 the DLL is disabled; a switch to the crystal does so for any DDR SDRAM. */
  function SdemrAfter(src: Source, chipcfg: bv32, sdemr: bv32): bv32 {
    if IsDdr2(chipcfg) || (src.Ext? && IsDdr(chipcfg)) then DllOff(sdemr) else sdemr
  }

  /** And the low-frequency bit follows HCLK, or is set for the crystal. */
  function SdopmAfter(src: Source, chipcfg: bv32, sdopm: bv32, lowHclk: bool): bv32 {
    if src.Ext? && IsDdr(chipcfg) then LowFreq(sdopm, true)
    else if IsDdr2(chipcfg) then LowFreq(sdopm, lowHclk) else sdopm
  }

  /** Automatic exit from self-refresh stays enabled, and no command is left pending. */
  function SdcmdAfter(sdcmd: bv32): bv32 { (sdcmd | 0x20) & 0xFFFF_FFF7 }

  // Each step of the sequence in numbers.

  lemma ExtInNumbers(x: bv32, n: bv32)
    ensures ToCrystal(Predivide(x, n)) == OnExt(x, n)
  {
    hide OnCrystal;
  }

  lemma SelectUpll(x: bv32, n: bv32)
    ensures Select(x, Upll, n) == FromUpll(x, n)
  {
  }

  lemma SelectApll(x: bv32, n: bv32)
    ensures Select(ToCrystal(x), Apll, n) == FromApll(x, n)
  {
    hide OnCrystal;
  }

  lemma DivideInNumbers(y: bv32, cpu: bv32, apb: bv32)
    ensures Divide4(y, cpu, apb) == CpuApb(y, cpu, apb)
  {
  }

  // SYSTEM_N0, SYSTEM_S and SYSTEM_N1 of CLKDIV0; CPU_N and APB_N of CLKDIV4.
  function SystemN0(x: bv32): bv32 { x & 0x7 }
  function SystemS(x: bv32): bv32 { (x >> 3) & 0x3 }
  function SystemN1(x: bv32): bv32 { (x >> 8) & 0xF }
  function CpuN(y: bv32): bv32 { y & 0xF }
  function ApbN(y: bv32): bv32 { (y >> 8) & 0xF }

  /** The fields that the switch leaves in CLKDIV0 and CLKDIV4. The dividers are or-ed in unmasked, so wide
      ones reach into the source field and into SYSTEM_N1. */
  lemma SwitchedFields(src: Source, clkdiv0: bv32, clkdiv4: bv32, sysDiv: bv32, cpuDiv: bv32, apbDiv: bv32)
    requires src.Apll? || src.Upll?
    ensures var x := ClkDiv0After(src, clkdiv0, sysDiv);
            && SystemN0(x) == SystemN0(sysDiv) && SystemN1(x) == SystemN1(sysDiv)
            && (src.Apll? ==> SystemS(x) == 2 | SystemS(sysDiv))
            && (src.Upll? ==> SystemS(x) == 3 | SystemS(sysDiv))
    ensures var y := ClkDiv4After(src, clkdiv0, clkdiv4, cpuDiv, apbDiv);
            CpuN(y) == CpuN(cpuDiv) && ApbN(y) == (ApbN(cpuDiv) | CpuN(apbDiv))
  {
    hide SystemN0, SystemS, SystemN1, CpuN, ApbN, FromApll, FromUpll, CpuApb, OnUpll;
    ApllFields(clkdiv0, sysDiv);
    UpllFields(clkdiv0, sysDiv);
    DivideFields(if src.Apll? && OnUpll(clkdiv0) then 0x100 else clkdiv4, cpuDiv, apbDiv);
  }

  /** Dividers that fit leave the source alone. */
  lemma NarrowFields(src: Source, clkdiv0: bv32, clkdiv4: bv32, sysDiv: bv32, cpuDiv: bv32, apbDiv: bv32)
    requires src.Apll? || src.Upll?
    ensures SystemS(sysDiv) == 0 ==> SystemS(ClkDiv0After(src, clkdiv0, sysDiv)) == Code(src)
    ensures ApbN(cpuDiv) == 0 ==> ApbN(ClkDiv4After(src, clkdiv0, clkdiv4, cpuDiv, apbDiv)) == CpuN(apbDiv)
    ensures SystemN0(ClkDiv0After(src, clkdiv0, sysDiv)) == SystemN0(sysDiv)
    ensures SystemN1(ClkDiv0After(src, clkdiv0, sysDiv)) == SystemN1(sysDiv)
    ensures CpuN(ClkDiv4After(src, clkdiv0, clkdiv4, cpuDiv, apbDiv)) == CpuN(cpuDiv)
  {
    hide ClkDiv0After, ClkDiv4After, SystemS, ApbN, CpuN, SystemN0, SystemN1;
    SwitchedFields(src, clkdiv0, clkdiv4, sysDiv, cpuDiv, apbDiv);
    assert 0 | CpuN(apbDiv) == CpuN(apbDiv);
  }

  lemma ApllFields(x: bv32, n: bv32)
    ensures var v := FromApll(x, n);
            SystemN0(v) == SystemN0(n) && SystemS(v) == (2 | SystemS(n)) && SystemN1(v) == SystemN1(n)
  {
  }

  lemma UpllFields(x: bv32, n: bv32)
    ensures var v := FromUpll(x, n);
            SystemN0(v) == SystemN0(n) && SystemS(v) == (3 | SystemS(n)) && SystemN1(v) == SystemN1(n)
  {
  }

  lemma DivideFields(x: bv32, cpu: bv32, apb: bv32)
    ensures var v := CpuApb(x, cpu, apb);
            CpuN(v) == CpuN(cpu) && ApbN(v) == (ApbN(cpu) | CpuN(apb))
  {
  }

  /** Effect of writes to REG_AIC_MDCR and REG_AIC_MECR on the mask. */
  function MaskOff(imr: bv32, bits: bv32): bv32 {
    imr & !bits
  }

  function MaskOn(imr: bv32, bits: bv32): bv32 {
    imr | bits
  }

  function EndRefresh(sdcmd: bv32): bv32 {
    sdcmd & !REF_CMD
  }

  function SelfRefresh(sdcmd: bv32): (x: bv32)
    ensures Refreshing(x)
  {
    RefreshBits(sdcmd);
    sdcmd | (AUTOEXSELFREF | REF_CMD)
  }

  lemma DllInNumbers(x: bv32)
    ensures x | DLLEN == DllOff(x) && DllOff(DllOff(x)) == DllOff(x)
  {
  }

  lemma LowFreqInNumbers(x: bv32, low: bool)
    ensures (if low then x | LOWFREQ else x & !LOWFREQ) == LowFreq(x, low)
    ensures LowFreq(LowFreq(x, low), true) == LowFreq(x, true)
  {
  }

  lemma RamInNumbers(chipcfg: bv32)
    ensures chipcfg & SDRAMSEL == 0x20 <==> IsDdr2(chipcfg)
    ensures chipcfg & SDRAMSEL != 0 <==> IsDdr(chipcfg)
    ensures IsDdr2(chipcfg) ==> IsDdr(chipcfg)
  {
  }

  lemma RefreshEnded(sdcmd: bv32)
    ensures EndRefresh(SelfRefresh(sdcmd)) == SdcmdAfter(sdcmd)
  {
    hide Refreshing;
  }

  lemma NowMasked(saved: bv32)
    ensures Masked(MaskOff(saved, 0xFFFF_FFFE))
  {
  }

  lemma Unmasked(saved: bv32)
    ensures MaskOn(MaskOff(saved, 0xFFFF_FFFE), saved) == saved
  {
  }

  lemma Remasked(imr: bv32, status: bv32)
    ensures MaskOn(MaskOff(imr, 0xFFFF_FFFF), status) == status
    ensures MaskOn(MaskOff(MaskOff(imr, 0xFFFF_FFFF), 0xFFFF_FFFF), status) == status
  {
  }

  lemma RefreshOver(sdcmd: bv32)
    ensures !Refreshing(EndRefresh(sdcmd))
  {
  }

  lemma RefreshBits(x: bv32)
    ensures (x | (AUTOEXSELFREF | REF_CMD)) & REF_CMD != 0
  {
  }
}
