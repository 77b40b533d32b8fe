/** The branch of sysSetSystemClock (wb_config.c) for a CPU clock above twice HCLK, in full, and the dividers of
    either branch as the least ones that serve. */
module ClockOver {
  import opened Bits
  import opened Division
  import opened ClockPlan

  /** The system divider is the least that keeps SYS at or below the request; with CPU at most twice HCLK the CPU
      divider is the least that keeps CPU at or below its request. */
  lemma LeastDividers(pll: Word, sys: Word, cpu: Word, hclk: Word, apb: Word)
    requires PlanFor(pll, sys, cpu, hclk, apb).Settings?
    ensures var p := PlanFor(pll, sys, cpu, hclk, apb);
            && p.sysDiv * sys < pll <= (p.sysDiv + 1) * sys
            && p.sysKHz == pll / (p.sysDiv + 1)
    ensures var p := PlanFor(pll, sys, cpu, hclk, apb);
            !p.over ==> p.cpuDiv * cpu < p.sysKHz <= (p.cpuDiv + 1) * cpu && p.cpuKHz == p.sysKHz / (p.cpuDiv + 1)
  {
    hide PlanFor, OverPlan, UnderPlan, Wrap, Ceil, ApbDivisor, CeilMinus1;
    PlanCases(pll, sys, cpu, hclk, apb);
    SysChoice(pll, sys);
    CeilBounds(pll, sys);
    var s := SysOf(pll, sys);
    UnderCases(Ceil(pll, sys), s, cpu, apb);
    OverCases(Ceil(pll, sys), s, cpu, apb);
    CeilWord(s, cpu);
    CeilBounds(s, cpu);
  }

  /** Which requests are refused for a too slow CPU clock, and what has been overwritten by then. */
  lemma TooSlowExactly(pll: Word, sys: Word, cpu: Word, hclk: Word, apb: Word)
    ensures PlanFor(pll, sys, cpu, hclk, apb).TooSlowCpu? <==>
              && 0 < sys && Ordered(pll, sys, cpu, hclk, apb) && 0 < cpu <= Wrap(hclk * 2) && SysOf(pll, sys) > 2 * cpu
    ensures var p := PlanFor(pll, sys, cpu, hclk, apb);
            p.TooSlowCpu? ==>
              && p.sysDiv * sys < pll <= (p.sysDiv + 1) * sys
              && p.sysKHz == pll / (p.sysDiv + 1) && p.hclkKHz == p.sysKHz / 2
              && p.cpuDiv * cpu < p.sysKHz <= (p.cpuDiv + 1) * cpu
  {
    hide PlanFor, OverPlan, Wrap, Ceil, ApbDivisor, CeilMinus1;
    PlanCases(pll, sys, cpu, hclk, apb);
    if 0 < sys && Ordered(pll, sys, cpu, hclk, apb) && cpu > 0 {
      SysChoice(pll, sys);
      CeilBounds(pll, sys);
      var s := SysOf(pll, sys);
      UnderCases(Ceil(pll, sys), s, cpu, apb);
      OverCases(Ceil(pll, sys), s, cpu, apb);
      CeilWord(s, cpu);
      CeilBounds(s, cpu);
      hide SysOf, ApbField;
    }
  }

  /** The CPU divider: the least that keeps CPU at or below its request, but between 1 and 5; except that it
      passes through a signed int, so that for a request of 1 kHz a divider from 2^31 up is not limited. */
  lemma OverCpuDivider(s: Word, cpu: Word)
    requires s > 0 && cpu > 0
    ensures var c := Ceil(s, cpu);
            var d := if c == 0 then 1 else if Signed(c) > 5 then 5 else c;
            if cpu == 1 && s > 0x8000_0000 then d == s - 1
            else 1 <= d <= 5 && (d > 1 ==> d * cpu < s) && (d < 5 ==> s <= (d + 1) * cpu)
  {
    CeilWord(s, cpu);
    CeilBounds(s, cpu);
    var c := CeilMinus1(s, cpu);
    hide CeilMinus1, Ceil;
    MulMono(c, if cpu == 1 then c else 2, 1);
    if cpu >= 2 { assert c < 0x8000_0000 by { MulHalf(c, cpu, s); } }
    if c > 5 { MulMono(c, 5, cpu); }
    if c == 0 { assert (c + 1) * cpu == cpu; }
  }

  lemma MulHalf(c: nat, cpu: nat, s: Word)
    requires c * cpu < s && cpu >= 2
    ensures c < 0x8000_0000
  {
    SmallerFactor(c, 2, cpu);
  }

  /** The APB clock when SYS / APB fits a signed int. */
  lemma OverApbChoice(s: Word, apb: Word)
    requires apb > 0 && !Overflows(s, apb)
    ensures var d := OverApbDiv(s, apb);
            && Wrap(Wrap(d + 1) * 6) == 6 * (d + 1)
            && (if 6 * apb <= s then d == s / apb / 6 - 1 && apb <= s / (6 * (d + 1)) < 2 * apb
                else d == 0 && s / 6 < apb)
  {
    OverQuotient(s, apb);
    var q := s / apb;
    DivBounds(s, apb);
    hide OverApbDiv, Wrap;
    if 6 * apb <= s {
      QuotientAtLeast(s, apb, 6);
      SixfoldBounds(s, apb, q, q / 6);
    } else {
      QuotientBelow(s, apb, 6);
      QuotientBelow(s, 6, apb);
    }
  }

  lemma OverQuotient(s: Word, apb: Word)
    requires apb > 0 && !Overflows(s, apb)
    ensures var q, d := s / apb, OverApbDiv(s, apb);
            d == (if q < 6 then 0 else q / 6 - 1) && Wrap(Wrap(d + 1) * 6) == 6 * (d + 1)
  {
    QuotientFits(s, apb);
    var q := Quot(s, apb);
    hide Quot;
    SixTimesWord(q);
  }

  lemma SixTimesWord(q: Word)
    requires q < 0x8000_0000
    ensures var n := Wrap(Truncated(Signed(q), 6));
            var d := if n > 0 then n - 1 else n;
            d == (if q < 6 then 0 else q / 6 - 1) && Wrap(Wrap(d + 1) * 6) == 6 * (d + 1)
  {
    WrapSmall(q / 6);
  }

  lemma SixfoldBounds(s: nat, apb: nat, q: nat, n: nat)
    requires q * apb <= s < (q + 1) * apb && q >= 6 && n == q / 6
    ensures apb <= s / (6 * n) < 2 * apb
  {
    SmallerFactor(apb, 6 * n, q);
    assert q * apb == apb * q && (q + 1) * apb == apb * (q + 1);
    QuotientAtLeast(s, 6 * n, apb);
    SmallerFactor(apb, q + 1, 12 * n);
    assert apb * (12 * n) == 2 * apb * (6 * n);
    QuotientBelow(s, 6 * n, 2 * apb);
  }

  /** And when it does not: APB 1 kHz and SYS from 2^31 kHz up. */
  lemma OverApbOverflow(s: Word)
    requires s >= 0x8000_0000
    ensures var d := Wrap(Wrap(OverApbDiv(s, 1) + 1) * 6);
            d > 0 && s / d == if s > 0xFFFF_FFFA then s / 6 else if s % 6 == 4 then 1 else 0
  {
    var m := (TWO32 - s) / 6;
    OverflowDivisor(s, m);
    hide OverApbDiv, Wrap;
    if m > 0 {
      assert 6 * m == TWO32 - s <==> s % 6 == 4;
      DivUnique(s, TWO32 - 6 * m, if TWO32 - 6 * m == s then 1 else 0);
    }
  }

  lemma OverflowDivisor(s: Word, m: nat)
    requires s >= 0x8000_0000 && m == (TWO32 - s) / 6
    ensures Wrap(Wrap(OverApbDiv(s, 1) + 1) * 6) == if m == 0 then 6 else TWO32 - 6 * m
  {
    assert Quot(s, 1) == s;
    assert Signed(s) == s - TWO32;
    assert Truncated(Signed(s), 6) == -(m as int);
    hide Quot, Signed;
    if m > 0 {
      assert OverApbDiv(s, 1) == TWO32 - m - 1;
      var x: int := -6 * m;
      WrapShift(x, 6);
      WrapShift(x, 1);
      assert (TWO32 - m) * 6 == x + TWO32 * 6;
    }
  }

  /** HCLK and CPU clock that a successful call reports in this branch. */
  lemma OverCpuBounds(pll: Word, sys: Word, cpu: Word, hclk: Word, apb: Word)
    requires var p := PlanFor(pll, sys, cpu, hclk, apb); p.Settings? && p.over
    ensures var p := PlanFor(pll, sys, cpu, hclk, apb);
            && p.hclkKHz == p.sysKHz / 6
            && (if cpu == 1 && p.sysKHz > 0x8000_0000 then p.cpuDiv == p.sysKHz - 1 && p.cpuKHz == 1
                else
                  && 1 <= p.cpuDiv <= 5 && p.cpuKHz == p.sysKHz / (p.cpuDiv + 1)
                  && (p.cpuDiv > 1 ==> p.cpuDiv * cpu < p.sysKHz)
                  && (p.cpuDiv < 5 ==> p.sysKHz <= (p.cpuDiv + 1) * cpu))
  {
    hide PlanFor, OverPlan, Wrap, Ceil, Signed, OverApbDiv;
    OverIs(pll, sys, cpu, hclk, apb);
    hide SysOf;
    var s := SysOf(pll, sys);
    OverFields(Ceil(pll, sys), s, cpu, apb);
    OverCpuDivider(s, cpu);
    if cpu == 1 && s > 0x8000_0000 { DivUnique(s, s, 1); }
  }

  /** And the APB clock. */
  lemma OverApbBounds(pll: Word, sys: Word, cpu: Word, hclk: Word, apb: Word)
    requires var p := PlanFor(pll, sys, cpu, hclk, apb); p.Settings? && p.over
    ensures apb > 0
    ensures var p := PlanFor(pll, sys, cpu, hclk, apb);
            if apb == 1 && p.sysKHz >= 0x8000_0000
            then p.apbKHz == if p.sysKHz > 0xFFFF_FFFA then p.sysKHz / 6 else if p.sysKHz % 6 == 4 then 1 else 0
            else
              && p.apbKHz == p.sysKHz / (6 * (p.apbDiv + 1))
              && (if 6 * apb <= p.sysKHz then p.apbDiv == p.sysKHz / apb / 6 - 1 && apb <= p.apbKHz < 2 * apb
                  else p.apbDiv == 0 && p.apbKHz < apb)
  {
    hide PlanFor, OverPlan, Wrap, Ceil, Signed, OverApbDiv;
    OverIs(pll, sys, cpu, hclk, apb);
    hide SysOf;
    var s := SysOf(pll, sys);
    OverFields(Ceil(pll, sys), s, cpu, apb);
    if Overflows(s, apb) { OverApbOverflow(s); } else { OverApbChoice(s, apb); }
  }

  lemma OverIs(pll: Word, sys: Word, cpu: Word, hclk: Word, apb: Word)
    requires var p := PlanFor(pll, sys, cpu, hclk, apb); p.Settings? && p.over
    ensures 0 < sys <= pll && cpu > 0
    ensures PlanFor(pll, sys, cpu, hclk, apb) == OverPlan(Ceil(pll, sys), SysOf(pll, sys), cpu, apb)
  {
    hide PlanFor, OverPlan, UnderPlan, Wrap, Ceil, Signed, SysOf;
    PlanCases(pll, sys, cpu, hclk, apb);
    if 0 < sys <= pll && cpu > 0 { UnderCases(Ceil(pll, sys), SysOf(pll, sys), cpu, apb); }
  }

  lemma OverFields(sysDiv: Word, s: Word, cpu: Word, apb: Word)
    requires cpu > 0 && s > 0 && OverPlan(sysDiv, s, cpu, apb).Settings?
    ensures apb > 0
    ensures var c := Ceil(s, cpu);
            var d := if c == 0 then 1 else if Signed(c) > 5 then 5 else c;
            var p := OverPlan(sysDiv, s, cpu, apb);
            && p.sysKHz == s && p.hclkKHz == s / 6 && p.cpuDiv == d && d < TWO32 - 1 && p.cpuKHz == s / (d + 1)
            && p.apbDiv == OverApbDiv(s, apb)
            && var e := Wrap(Wrap(OverApbDiv(s, apb) + 1) * 6); e > 0 && p.apbKHz == s / e
  {
    OverCpu(s, cpu);
    hide Ceil, Signed, Wrap, OverApbDiv;
    OverDivisor(s, apb);
  }

  /** The unlimited divider occurs: twice an HCLK of 2^31 kHz wraps to 0, so a CPU request of 1 kHz is above it. */
  lemma WideCpuDividerOccurs()
    ensures var p := PlanFor(0xFFFF_FFFF, 0xFFFF_FFFF, 1, 0x8000_0000, 1);
            p.Settings? && p.over && p.cpuDiv == 0xFFFF_FFFE && p.cpuKHz == 1
  {
    hide PlanFor, OverPlan, UnderPlan;
    assert CeilMinus1(0xFFFF_FFFF, 0xFFFF_FFFF) == 0;
    assert SysOf(0xFFFF_FFFF, 0xFFFF_FFFF) == 0xFFFF_FFFF;
    assert Wrap(0x8000_0000 * 2) == 0;
    PlanCases(0xFFFF_FFFF, 0xFFFF_FFFF, 1, 0x8000_0000, 1);
    OverCases(0, 0xFFFF_FFFF, 1, 1);
    OverCpuBounds(0xFFFF_FFFF, 0xFFFF_FFFF, 1, 0x8000_0000, 1);
  }
}
