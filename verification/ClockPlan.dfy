/** The divider arithmetic of sysSetSystemClock (wb_config.c) and what it guarantees. */
module ClockPlan {
  import opened Bits
  import opened Division

  /** `Refused`: the order checks fail. `TooSlowCpu`: the CPU divider would exceed 1.
      `DivideByZero`: the C code divides by zero. Divider values are the register values (divisor - 1). */
  datatype Plan =
    | Refused
    | TooSlowCpu(sysDiv: Word, sysKHz: Word, hclkKHz: Word, cpuDiv: Word)
    | DivideByZero
    | Settings(over: bool, sysDiv: Word, sysKHz: Word, cpuDiv: Word, cpuKHz: Word,
                   hclkKHz: Word, apbDiv: Word, apbKHz: Word)

  function Quot(x: Word, d: nat): (q: Word)
    requires d > 0
    ensures q <= x
  {
    DivAnti(x, 1, d);
    x / d
  }

  function Ceil(x: Word, y: Word): Word
    requires y > 0
  {
    Wrap(CeilMinus1(x, y))
  }

  /** The computation for a PLL source, in the unsigned arithmetic and the order of the source. */
  function PlanFor(pll: Word, sys: Word, cpu: Word, hclk: Word, apb: Word): Plan {
    if sys == 0 then DivideByZero
    else if sys > pll || cpu > sys || hclk > sys || apb > hclk then Refused
    else
      var sysDiv := Ceil(pll, sys);
      if Wrap(sysDiv + 1) == 0 then DivideByZero
      else
        var s := Quot(pll, Wrap(sysDiv + 1));
        if cpu == 0 then DivideByZero
        else if cpu > Wrap(hclk * 2) then OverPlan(sysDiv, s, cpu, apb)
        else UnderPlan(sysDiv, s, cpu, apb)
  }

  /** CPU at most twice HCLK. */
  function UnderPlan(sysDiv: Word, s: Word, cpu: Word, apb: Word): Plan
    requires cpu > 0
  {
    var cpuDiv := Ceil(s, cpu);
    if cpuDiv > 1 then TooSlowCpu(sysDiv, s, s / 2, cpuDiv)
    else if apb == 0 then DivideByZero
    else
      var apbDiv := ApbField(s, apb);
      if Wrap(Wrap(apbDiv + 1) * 2) == 0 then DivideByZero
      else Settings(false, sysDiv, s, cpuDiv, Quot(s, cpuDiv + 1), s / 2, apbDiv, Quot(s, Wrap(Wrap(apbDiv + 1) * 2)))
  }

  /** APB divider with HCLK1 taken as SYS / 2. The quotient passes through a signed int. */
  function ApbField(s: Word, apb: Word): Word
    requires apb > 0
  {
    Wrap(Truncated(Signed(Quot(s, apb)), 2) - 1)
  }

  /** CPU above twice HCLK: the CPU divider is forced between 1 and 5, and HCLK1 is taken as SYS / 6. */
  function OverPlan(sysDiv: Word, s: Word, cpu: Word, apb: Word): Plan
    requires cpu > 0
  {
    var c := Ceil(s, cpu);
    var cpuDiv := if c == 0 then 1 else if Signed(c) > 5 then 5 else c;
    if apb == 0 || Wrap(cpuDiv + 1) == 0 then DivideByZero
    else
      var apbDiv := OverApbDiv(s, apb);
      OverDivisor(s, apb);
      Settings(true, sysDiv, s, cpuDiv, Quot(s, Wrap(cpuDiv + 1)), s / 6, apbDiv, Quot(s, Wrap(Wrap(apbDiv + 1) * 6)))
  }

  /** C's division of a signed int: towards zero. */
  function Truncated(i: int, d: nat): (q: int)
    requires d > 0
    ensures i >= 0 ==> q == i / d
  {
    if i >= 0 then i / d else -(-i / d)
  }

  /** APB divider with HCLK1 taken as SYS / 6. The quotient passes through a signed int. */
  function OverApbDiv(s: Word, apb: Word): Word
    requires apb > 0
  {
    var n := Wrap(Truncated(Signed(Quot(s, apb)), 6));
    if n > 0 then n - 1 else n
  }

  /** The divisor of the APB clock in the branch above twice HCLK is never zero and at least 6. */
  lemma OverDivisor(s: Word, apb: Word)
    requires apb > 0
    ensures Wrap(Wrap(OverApbDiv(s, apb) + 1) * 6) >= 6
  {
    var q := Quot(s, apb);
    hide Quot;
    var i := Signed(q);
    hide Signed, Wrap;
    var n := Truncated(i, 6);
    SixTimes(n, Wrap(n));
    assert i < 0 ==> n <= 0 && n * 6 >= i >= -0x8000_0000;
  }

  lemma SixTimes(n: int, w: Word)
    requires w == Wrap(n) && -0x8000_0000 <= 6 * n < 0x8000_0000
    ensures var d := if w > 0 then w - 1 else w; Wrap(Wrap(d + 1) * 6) >= 6
  {
    if n < 0 {
      assert w == n + TWO32;
      assert Wrap(w * 6) == 6 * n + TWO32 by { WrapShift(6 * n, 6); }
    }
  }

  lemma WrapShift(x: int, k: int)
    ensures Wrap(x + TWO32 * k) == Wrap(x)
  {
  }

  // ---- Dividers chosen ----

  /** The system clock: the least divider that keeps it at or below the request. */
  lemma SysChoice(pll: Word, sys: Word)
    requires 0 < sys <= pll
    ensures var d := CeilMinus1(pll, sys);
            && Ceil(pll, sys) == d && 0 <= d && d + 1 < TWO32
            && 1 <= pll / (d + 1) <= sys
            && (d > 0 ==> pll > d * sys)
  {
    var d := CeilMinus1(pll, sys);
    CeilBounds(pll, sys);
    MulMono(sys, 1, d);
    assert d * sys == sys * d && (d + 1) * sys == sys * (d + 1);
    QuotientAtMost(pll, d + 1, sys);
    DivMono(d + 1, pll, d + 1);
    WrapSmall(d);
  }

  /** The CPU clock in the branch CPU <= 2 * HCLK. */
  lemma CpuChoice(s: Word, cpu: Word)
    requires s > 0 && cpu > 0 && Ceil(s, cpu) <= 1
    ensures s / (Ceil(s, cpu) + 1) <= cpu && s / 2 <= s / (Ceil(s, cpu) + 1) <= s
  {
    CeilBounds(s, cpu);
    var c := CeilMinus1(s, cpu);
    CeilWord(s, cpu);
    assert (c + 1) * cpu == cpu * (c + 1);
    QuotientAtMost(s, c + 1, cpu);
  }

  lemma CeilWord(x: Word, y: Word)
    requires x > 0 && y > 0
    ensures Ceil(x, y) == CeilMinus1(x, y)
  {
    CeilBounds(x, y);
    MulMono(y, 1, CeilMinus1(x, y));
    var c := CeilMinus1(x, y);
    assert c * y == y * c;
    WrapSmall(c);
  }

  /** The quotient SYS / APB does not fit a signed int: only for APB = 1 kHz and SYS from 2^31 kHz up. */
  predicate Overflows(s: Word, apb: Word) {
    apb == 1 && s >= 0x8000_0000
  }

  /** The divisor of the APB clock in the branch CPU <= 2 * HCLK. */
  function ApbDivisor(s: Word, apb: Word): Word
    requires apb > 0
  {
    if Overflows(s, apb) then Wrap(s + s % 2) else 2 * (Quot(s, apb) / 2)
  }

  lemma ApbDivisorIs(s: Word, apb: Word)
    requires apb > 0
    ensures var d := ApbField(s, apb); Wrap(Wrap(d + 1) * 2) == Wrap(2 * (d + 1)) == ApbDivisor(s, apb)
    ensures !Overflows(s, apb) && 2 * apb <= s ==> ApbField(s, apb) == s / apb / 2 - 1
  {
    QuotientFits(s, apb);
    var q := Quot(s, apb);
    if 2 * apb <= s { QuotientAtLeast(s, apb, 2); }
    hide Quot;
    if Overflows(s, apb) { TwiceNegative(s); } else { TwicePositive(q); }
  }

  lemma QuotientFits(s: Word, apb: Word)
    requires apb > 0
    ensures Quot(s, apb) < 0x8000_0000 <==> !Overflows(s, apb)
    ensures Overflows(s, apb) ==> Quot(s, apb) == s
  {
    if apb >= 2 {
      DivAnti(s, 2, apb);
    }
  }

  lemma TwicePositive(q: Word)
    requires q < 0x8000_0000
    ensures Signed(q) == q
    ensures var d := Wrap(q / 2 - 1); Wrap(Wrap(d + 1) * 2) == Wrap(2 * (d + 1)) == 2 * (q / 2)
    ensures q >= 2 ==> Wrap(q / 2 - 1) == q / 2 - 1
  {
  }

  lemma TwiceNegative(s: Word)
    requires s >= 0x8000_0000
    ensures var d := Wrap(Truncated(Signed(s), 2) - 1); Wrap(Wrap(d + 1) * 2) == Wrap(2 * (d + 1)) == Wrap(s + s % 2)
  {
    var n := Truncated(s - TWO32, 2);
    assert 2 * n == s - TWO32 + s % 2;
    var d := Wrap(n - 1);
    assert d == n - 1 + TWO32;
    WrapShift(2 * n, 2);
    WrapShift(2 * n, 1);
    assert Wrap((d as int) + 1) == Wrap(n);
    if n == 0 { assert Wrap(n) == 0; } else { assert Wrap(n) == n + TWO32; }
  }

  /** The APB clock: at least the request and below twice the request, unless the quotient overflows. */
  lemma ApbChoice(s: Word, apb: Word)
    requires 0 < apb && 2 * apb <= s && !Overflows(s, apb)
    ensures var n := s / apb / 2;
            && 1 <= n && ApbDivisor(s, apb) == 2 * n
            && apb <= s / (2 * n) < 2 * apb && s / (2 * n) <= s / 2
  {
    var q := s / apb;
    DivBounds(s, apb);
    QuotientAtLeast(s, apb, 2);
    ApbBounds(s, apb, q, q / 2);
    DivAnti(s, 2, 2 * (q / 2));
  }

  /** After an overflow the reported APB clock is 1 kHz for an even SYS and 0 for an odd one. */
  lemma ApbOverflow(s: Word, apb: Word)
    requires Overflows(s, apb) && ApbDivisor(s, apb) != 0
    ensures s / ApbDivisor(s, apb) == 1 - s % 2
  {
    var d := s + s % 2;
    assert d < TWO32;
    DivUnique(s, d, 1 - s % 2);
  }

  lemma ApbBounds(s: nat, apb: nat, q: nat, n: nat)
    requires q * apb <= s < (q + 1) * apb && 2 <= q && n == q / 2
    ensures apb <= s / (2 * n) < 2 * apb
  {
    ApbAtLeast(s, apb, q, n);
    ApbBelow(s, apb, q, n);
  }

  lemma ApbAtLeast(s: nat, apb: nat, q: nat, n: nat)
    requires q * apb <= s && 2 * n <= q && n >= 1
    ensures apb <= s / (2 * n)
  {
    SmallerFactor(apb, 2 * n, q);
    assert q * apb == apb * q;
    QuotientAtLeast(s, 2 * n, apb);
  }

  lemma ApbBelow(s: nat, apb: nat, q: nat, n: nat)
    requires s < (q + 1) * apb && q + 1 <= 4 * n && n >= 1
    ensures s / (2 * n) < 2 * apb
  {
    SmallerFactor(apb, q + 1, 4 * n);
    assert (q + 1) * apb == apb * (q + 1);
    assert apb * (4 * n) == 2 * apb * (2 * n);
    QuotientBelow(s, 2 * n, 2 * apb);
  }

  // ---- The computation, case by case ----

  /** The order checks on a request. */
  predicate Ordered(pll: Word, sys: Word, cpu: Word, hclk: Word, apb: Word) {
    cpu <= sys <= pll && hclk <= sys && apb <= hclk
  }

  /** The system clock chosen for a request. */
  function SysOf(pll: Word, sys: Word): (s: Word)
    requires 0 < sys <= pll
    ensures 1 <= s <= sys
  {
    SysChoice(pll, sys);
    Quot(pll, CeilMinus1(pll, sys) + 1)
  }

  lemma PlanCases(pll: Word, sys: Word, cpu: Word, hclk: Word, apb: Word)
    ensures var p := PlanFor(pll, sys, cpu, hclk, apb);
            if sys == 0 then p == DivideByZero
            else if !Ordered(pll, sys, cpu, hclk, apb) then p == Refused
            else if cpu == 0 then p == DivideByZero
            else if cpu > Wrap(hclk * 2) then p == OverPlan(Ceil(pll, sys), SysOf(pll, sys), cpu, apb)
            else p == UnderPlan(Ceil(pll, sys), SysOf(pll, sys), cpu, apb)
  {
    hide Wrap, Ceil, OverPlan, UnderPlan;
    if 0 < sys <= pll {
      SysChoice(pll, sys);
      WrapSmall(CeilMinus1(pll, sys) + 1);
    }
  }

  lemma ApbZero(s: Word, apb: Word)
    requires apb > 0
    ensures ApbDivisor(s, apb) == 0 <==> 2 * apb > s || (apb == 1 && s == 0xFFFF_FFFF)
  {
    if !Overflows(s, apb) {
      if 2 * apb <= s { QuotientAtLeast(s, apb, 2); } else { QuotientBelow(s, apb, 2); }
    }
  }

  lemma UnderCases(sysDiv: Word, s: Word, cpu: Word, apb: Word)
    requires cpu > 0 && s > 0
    ensures var p := UnderPlan(sysDiv, s, cpu, apb);
            if s > 2 * cpu then p.TooSlowCpu?
            else if apb == 0 || ApbDivisor(s, apb) == 0 then p == DivideByZero
            else p == Settings(false, sysDiv, s, Ceil(s, cpu), Quot(s, Ceil(s, cpu) + 1), s / 2,
                               ApbField(s, apb), Quot(s, ApbDivisor(s, apb)))
    ensures s <= 2 * cpu <==> Ceil(s, cpu) <= 1
  {
    CpuFits(s, cpu);
    if apb > 0 { ApbDivisorIs(s, apb); }
    hide Wrap, Ceil, Quot, ApbField, ApbDivisor;
  }

  /** The branch above twice HCLK. Its CPU clock is never zero, so neither is the later division by it. */
  lemma OverCases(sysDiv: Word, s: Word, cpu: Word, apb: Word)
    requires cpu > 0 && s > 0
    ensures var p := OverPlan(sysDiv, s, cpu, apb);
            if apb == 0 then p == DivideByZero
            else p.Settings? && p.over && p.sysDiv == sysDiv && p.sysKHz == s && p.hclkKHz == s / 6
                 && p.apbKHz <= s / 6 && p.cpuKHz <= s && (s >= 2 ==> p.cpuKHz > 0)
  {
    OverCpu(s, cpu);
    hide Ceil, Signed, Wrap, Quot, OverApbDiv;
    if apb > 0 {
      OverDivisor(s, apb);
      OverApb(s, Wrap(Wrap(OverApbDiv(s, apb) + 1) * 6));
    }
  }

  lemma OverApb(s: Word, d: Word)
    requires d >= 6
    ensures Quot(s, d) <= s / 6
  {
    DivAnti(s, 6, d);
  }

  lemma OverCpu(s: Word, cpu: Word)
    requires cpu > 0 && s > 0
    ensures var c := Ceil(s, cpu);
            var d := if c == 0 then 1 else if Signed(c) > 5 then 5 else c;
            Wrap(d + 1) == d + 1 && Quot(s, d + 1) <= s && (s >= 2 ==> Quot(s, d + 1) > 0)
  {
    CeilWord(s, cpu);
    CeilBounds(s, cpu);
    var c := CeilMinus1(s, cpu);
    MulMono(cpu, 1, c);
    assert c * cpu == cpu * c;
    var d := if c == 0 then 1 else if Signed(c) > 5 then 5 else c;
    assert d < s || s == 1;
    hide Ceil, Signed;
    if s >= 2 { QuotientAtLeast(s, d + 1, 1); }
    WrapSmall(d + 1);
  }

  /** A request above twice HCLK leaves a system clock of at least 2 kHz. */
  lemma OverSys(pll: Word, sys: Word, cpu: Word, hclk: Word, apb: Word)
    requires Ordered(pll, sys, cpu, hclk, apb) && 0 < sys && apb > 0 && cpu > Wrap(hclk * 2)
    ensures SysOf(pll, sys) >= 2
  {
    assert sys >= 3;
    CeilBounds(pll, sys);
    var d := CeilMinus1(pll, sys);
    MulMono(sys, 3, d);
    assert d * sys == sys * d;
    if d == 0 {
      assert pll <= sys;
    } else {
      QuotientAtLeast(pll, d + 1, 2);
    }
  }

  // ---- Which calls divide by zero ----

  /** A test on the request alone. */
  predicate Faults(pll: Word, sys: Word, cpu: Word, hclk: Word, apb: Word) {
    sys == 0 ||
    (Ordered(pll, sys, cpu, hclk, apb) &&
      (cpu == 0 ||
       if cpu > Wrap(hclk * 2) then apb == 0
       else
         var s := SysOf(pll, sys);
         s <= 2 * cpu && (apb == 0 || 2 * apb > s || (apb == 1 && s == 0xFFFF_FFFF))))
  }

  /** sysSetSystemClock divides by zero exactly for these requests: a zero clock, or, with CPU at most twice
      HCLK and a CPU clock that is not refused as too slow, two APB periods that do not fit in SYS. */
  lemma FaultsExactly(pll: Word, sys: Word, cpu: Word, hclk: Word, apb: Word)
    ensures PlanFor(pll, sys, cpu, hclk, apb).DivideByZero? <==> Faults(pll, sys, cpu, hclk, apb)
  {
    hide PlanFor, OverPlan, UnderPlan, SysOf, Wrap, Ceil, ApbDivisor;
    PlanCases(pll, sys, cpu, hclk, apb);
    if sys > 0 && Ordered(pll, sys, cpu, hclk, apb) && cpu > 0 {
      var s := SysOf(pll, sys);
      if cpu > Wrap(hclk * 2) { OverCases(Ceil(pll, sys), s, cpu, apb); } else {
        UnderCases(Ceil(pll, sys), s, cpu, apb);
        if apb > 0 { ApbZero(s, apb); }
      }
    }
  }

  /** For example, 240 MHz PLL, 120 MHz SYS and CPU, 100 MHz APB. */
  lemma FaultOccurs()
    ensures PlanFor(240000, 120000, 120000, 120000, 100000) == DivideByZero
  {
    assert CeilMinus1(240000, 120000) == 1;
    assert SysOf(240000, 120000) == 120000;
    FaultsExactly(240000, 120000, 120000, 120000, 100000);
  }

  // ---- What a successful plan promises ----

  /** In the branch CPU <= 2 * HCLK: APB <= HCLK <= CPU <= SYS <= PLL, SYS and CPU at most the request. The
      APB clock lies between the request and twice the request, except when SYS / APB overflows a signed
      int and SYS is odd. */
  lemma PlanBounds(pll: Word, sys: Word, cpu: Word, hclk: Word, apb: Word)
    requires var p := PlanFor(pll, sys, cpu, hclk, apb); p.Settings? && !p.over
    ensures var p := PlanFor(pll, sys, cpu, hclk, apb);
            && p.sysDiv + 1 < TWO32 && p.cpuDiv <= 1 && apb > 0 && 2 * apb <= p.sysKHz
            && p.sysKHz == pll / (p.sysDiv + 1) && p.cpuKHz == p.sysKHz / (p.cpuDiv + 1) && p.hclkKHz == p.sysKHz / 2
            && Wrap(2 * (p.apbDiv + 1)) == ApbDivisor(p.sysKHz, apb) != 0
            && p.apbKHz == p.sysKHz / ApbDivisor(p.sysKHz, apb)
            && p.apbKHz <= p.hclkKHz <= p.cpuKHz <= p.sysKHz <= pll
            && p.sysKHz <= sys && p.cpuKHz <= cpu
            && (apb <= p.apbKHz < 2 * apb <==> !(Overflows(p.sysKHz, apb) && p.sysKHz % 2 == 1))
  {
    hide PlanFor, OverPlan, UnderPlan, Wrap, Ceil, CeilMinus1;
    PlanCases(pll, sys, cpu, hclk, apb);
    SysChoice(pll, sys);
    var d, s := Ceil(pll, sys), SysOf(pll, sys);
    OverCases(d, s, cpu, apb);
    UnderCases(d, s, cpu, apb);
    CpuChoice(s, cpu);
    ApbBetween(s, apb);
    DivAnti(pll, 1, d + 1);
    hide SysOf, ApbDivisor;
  }

  lemma ApbBetween(s: Word, apb: Word)
    requires apb > 0 && ApbDivisor(s, apb) != 0
    ensures 2 * apb <= s && Wrap(2 * (ApbField(s, apb) + 1)) == ApbDivisor(s, apb)
    ensures var a := s / ApbDivisor(s, apb); a <= s / 2 && (apb <= a < 2 * apb <==> !(Overflows(s, apb) && s % 2 == 1))
  {
    hide ApbField, ApbDivisor;
    ApbZero(s, apb);
    ApbDivisorIs(s, apb);
    if Overflows(s, apb) { ApbOverflow(s, apb); } else { ApbChoice(s, apb); }
  }

  /** The exception occurs: PLL, SYS and CPU 2^31 + 1 kHz, HCLK 2^31 - 1 kHz and APB 1 kHz report an APB
      clock of 0. */
  lemma ApbOverflowOccurs()
    ensures var p := PlanFor(0x8000_0001, 0x8000_0001, 0x8000_0001, 0x7FFF_FFFF, 1);
            p.Settings? && !p.over && p.sysKHz == 0x8000_0001 && p.apbKHz == 0
  {
    hide PlanFor, OverPlan, UnderPlan;
    assert CeilMinus1(0x8000_0001, 0x8000_0001) == 0;
    assert SysOf(0x8000_0001, 0x8000_0001) == 0x8000_0001;
    assert Wrap(0x7FFF_FFFF * 2) == 0xFFFF_FFFE;
    PlanCases(0x8000_0001, 0x8000_0001, 0x8000_0001, 0x7FFF_FFFF, 1);
    UnderCases(Ceil(0x8000_0001, 0x8000_0001), 0x8000_0001, 0x8000_0001, 1);
    assert ApbDivisor(0x8000_0001, 1) == 0x8000_0002;
    ApbOverflow(0x8000_0001, 1);
  }

  /** In either branch the reported clocks are ordered APB <= HCLK <= SYS and CPU <= SYS <= PLL, and the CPU
      clock is not zero. */
  lemma ReportedOrder(pll: Word, sys: Word, cpu: Word, hclk: Word, apb: Word)
    requires PlanFor(pll, sys, cpu, hclk, apb).Settings?
    ensures var p := PlanFor(pll, sys, cpu, hclk, apb);
            p.apbKHz <= p.hclkKHz <= p.sysKHz <= pll && 0 < p.cpuKHz <= p.sysKHz
  {
    hide PlanFor, OverPlan, UnderPlan, SysOf, Wrap, Ceil;
    var p := PlanFor(pll, sys, cpu, hclk, apb);
    PlanCases(pll, sys, cpu, hclk, apb);
    if p.over {
      SysBelow(pll, sys);
      UnderCases(Ceil(pll, sys), SysOf(pll, sys), cpu, apb);
      OverCases(Ceil(pll, sys), SysOf(pll, sys), cpu, apb);
      OverSys(pll, sys, cpu, hclk, apb);
    } else {
      PlanBounds(pll, sys, cpu, hclk, apb);
      hide ApbDivisor;
      assert p.sysKHz >= 2;
    }
  }

  lemma SysBelow(pll: Word, sys: Word)
    requires 0 < sys <= pll
    ensures SysOf(pll, sys) <= pll
  {
  }

  /** Which calls succeed, in terms of the request. */
  lemma SuccessExactly(pll: Word, sys: Word, cpu: Word, hclk: Word, apb: Word)
    ensures var p := PlanFor(pll, sys, cpu, hclk, apb);
            p.Settings? <==>
              && Ordered(pll, sys, cpu, hclk, apb) && sys > 0 && cpu > 0 && apb > 0
              && (cpu > Wrap(hclk * 2)
                  || var s := SysOf(pll, sys); s <= 2 * cpu && 2 * apb <= s && !(apb == 1 && s == 0xFFFF_FFFF))
    ensures var p := PlanFor(pll, sys, cpu, hclk, apb); p.Settings? ==> (p.over <==> cpu > Wrap(hclk * 2))
  {
    hide PlanFor, OverPlan, UnderPlan, SysOf, Wrap, Ceil, ApbDivisor;
    PlanCases(pll, sys, cpu, hclk, apb);
    if Ordered(pll, sys, cpu, hclk, apb) && sys > 0 && cpu > 0 {
      OverCases(Ceil(pll, sys), SysOf(pll, sys), cpu, apb);
      UnderCases(Ceil(pll, sys), SysOf(pll, sys), cpu, apb);
      if apb > 0 { ApbZero(SysOf(pll, sys), apb); }
    }
  }

  lemma CpuFits(s: Word, cpu: Word)
    requires s > 0 && cpu > 0
    ensures Ceil(s, cpu) <= 1 <==> s <= 2 * cpu
  {
    CeilWord(s, cpu);
    var c := CeilMinus1(s, cpu);
    CeilBounds(s, cpu);
    MulMono(c + 1, 2, cpu);
    MulMono(c, 2, cpu);
    MulMono(2, c + 1, cpu);
  }

  // ---- Feeding the reported clocks back, as sysPMStart does ----

  lemma SysAgain(pll: Word, d: nat)
    requires 0 < pll / (d + 1)
    ensures CeilMinus1(pll, pll / (d + 1)) == d <==> pll % (d + 1) == 0
  {
    var s := pll / (d + 1);
    DivMod(pll, d + 1);
    if s * (d + 1) <= pll { SysRemainder(pll, d, s, pll % (d + 1)); }
  }

  lemma SysRemainder(pll: nat, d: nat, s: nat, r: nat)
    requires s > 0 && pll == s * (d + 1) + r && pll > 0
    ensures CeilMinus1(pll, s) == d <==> r == 0
  {
    CeilBounds(pll, s);
    assert s * (d + 1) == (d + 1) * s && (d + 1) * s == d * s + s;
    if r == 0 { CeilUnique(pll, s, d); }
  }

  lemma CpuAgain(s: Word, c: nat)
    requires c <= 1 && s >= 1 && (c == 1 ==> s >= 2)
    ensures s / (c + 1) > 0
    ensures s / (c + 1) <= Wrap(s / 2 * 2) && Ceil(s, s / (c + 1)) == c <==> s % 2 == 0
  {
    hide Wrap, Ceil;
    WrapSmall(s / 2 * 2);
    var k := s / (c + 1);
    CeilWord(s, k);
    if c == 0 {
      assert k == s;
      CeilUnique(s, s, 0);
    } else {
      assert k == s / 2;
      CeilBounds(s, k);
      if s % 2 == 0 { CeilUnique(s, k, 1); }
    }
  }

  lemma ApbAgain(s: nat, n: nat, a: nat)
    requires n > 0 && a == s / (2 * n) && a > 0
    ensures s / a / 2 == n <==> s % (2 * n) < 2 * a
  {
    DivMod(s, 2 * n);
    ApbRemainder(s, n, a, s % (2 * n));
  }

  lemma ApbRemainder(s: nat, n: nat, a: nat, r: nat)
    requires n > 0 && a > 0 && s == a * (2 * n) + r
    ensures s / a / 2 == n <==> r < 2 * a
  {
    assert a * (2 * n) == 2 * n * a && (2 * n + 2) * a == 2 * n * a + 2 * a;
    QuotientAtLeast(s, a, 2 * n);
    if r < 2 * a { QuotientBelow(s, a, 2 * n + 2); } else { QuotientAtLeast(s, a, 2 * n + 2); }
  }

  /** The plan made from the reported clocks is the same plan, dividers and clocks alike, exactly when
      the PLL clock divides evenly, SYS is even, and the APB remainder is below twice the APB clock. */
  lemma RestoreExactly(pll: Word, sys: Word, cpu: Word, hclk: Word, apb: Word)
    requires var p := PlanFor(pll, sys, cpu, hclk, apb); p.Settings? && !p.over
    ensures var p := PlanFor(pll, sys, cpu, hclk, apb);
            PlanFor(pll, p.sysKHz, p.cpuKHz, p.hclkKHz, p.apbKHz) == p <==> Restorable(pll, p)
  {
    hide PlanFor, Wrap, ApbDivisor, ApbField, Restorable;
    PlanBounds(pll, sys, cpu, hclk, apb);
    PlanFields(pll, sys, cpu, hclk, apb);
    RestoreSteps(pll, PlanFor(pll, sys, cpu, hclk, apb), apb);
  }

  lemma RestoreSteps(pll: Word, p: Plan, apb: Word)
    requires p.Settings? && !p.over && p.cpuDiv <= 1 && p.sysDiv + 1 < TWO32 && apb > 0 && p.sysKHz >= 2
    requires p.sysKHz == pll / (p.sysDiv + 1) && p.cpuKHz == p.sysKHz / (p.cpuDiv + 1) && p.hclkKHz == p.sysKHz / 2
    requires Wrap(2 * (p.apbDiv + 1)) == ApbDivisor(p.sysKHz, apb) != 0 && p.apbDiv == ApbField(p.sysKHz, apb)
    requires p.apbKHz == p.sysKHz / ApbDivisor(p.sysKHz, apb)
    requires p.apbKHz <= p.hclkKHz <= p.cpuKHz <= p.sysKHz <= pll && p.cpuKHz > 0
    ensures PlanFor(pll, p.sysKHz, p.cpuKHz, p.hclkKHz, p.apbKHz) == p <==> Restorable(pll, p)
  {
    hide PlanFor, Wrap, Ceil, ApbDivisor, ApbField;
    SysAgain(pll, p.sysDiv);
    CeilWord(pll, p.sysKHz);
    hide CeilMinus1;
    CpuAgain(p.sysKHz, p.cpuDiv);
    if p.sysKHz % 2 == 0 { ApbAgainField(p.sysKHz, apb, p.apbKHz); }
    PlanAgain(pll, p);
  }

  /** A plan whose reported clocks set the same dividers and clocks again. */
  predicate Restorable(pll: Word, p: Plan)
    requires p.Settings?
  {
    && pll % (p.sysDiv + 1) == 0
    && p.sysKHz % 2 == 0
    && Wrap(2 * (p.apbDiv + 1)) != 0 && p.sysKHz % Wrap(2 * (p.apbDiv + 1)) < 2 * p.apbKHz
  }

  lemma PlanFields(pll: Word, sys: Word, cpu: Word, hclk: Word, apb: Word)
    requires var p := PlanFor(pll, sys, cpu, hclk, apb); p.Settings? && !p.over
    ensures var p := PlanFor(pll, sys, cpu, hclk, apb);
            && apb > 0 && p.apbDiv == ApbField(p.sysKHz, apb) && p.sysKHz >= 2
  {
    hide PlanFor, Wrap, Ceil, OverPlan, UnderPlan, SysOf, ApbDivisor, ApbField;
    PlanBounds(pll, sys, cpu, hclk, apb);
    PlanCases(pll, sys, cpu, hclk, apb);
    OverCases(Ceil(pll, sys), SysOf(pll, sys), cpu, apb);
    UnderCases(Ceil(pll, sys), SysOf(pll, sys), cpu, apb);
  }

  /** The APB divider that the reported APB clock leads to. */
  lemma ApbAgainField(s: Word, apb: Word, a: Word)
    requires apb > 0 && ApbDivisor(s, apb) != 0 && a == s / ApbDivisor(s, apb) && s % 2 == 0
    ensures a > 0
    ensures ApbField(s, a) == ApbField(s, apb) <==> s % ApbDivisor(s, apb) < 2 * a
    ensures ApbField(s, a) == ApbField(s, apb) ==> ApbDivisor(s, a) == ApbDivisor(s, apb)
  {
    hide ApbField;
    ApbZero(s, apb);
    ApbDivisorIs(s, apb);
    if Overflows(s, apb) {
      ApbOverflow(s, apb);
      assert ApbDivisor(s, apb) == s;
    } else {
      ApbChoice(s, apb);
      var n := s / apb / 2;
      ApbAgain(s, n, a);
      ApbStays(s, apb, a);
      ApbDivisorIs(s, a);
      hide ApbDivisor;
    }
  }

  lemma ApbStays(s: Word, apb: Word, a: Word)
    requires 0 < apb <= a <= s / 2 && !Overflows(s, apb)
    ensures !Overflows(s, a) && 2 * a <= s
  {
  }

  /** The second computation, step by step. */
  lemma PlanAgain(pll: Word, p: Plan)
    requires p.Settings? && !p.over && p.cpuDiv <= 1
    requires p.sysDiv + 1 < TWO32 && p.sysKHz == pll / (p.sysDiv + 1) && p.cpuKHz == p.sysKHz / (p.cpuDiv + 1)
    requires p.hclkKHz == p.sysKHz / 2
    requires p.apbKHz <= p.hclkKHz <= p.cpuKHz <= p.sysKHz <= pll && 0 < p.cpuKHz
    ensures PlanFor(pll, p.sysKHz, p.cpuKHz, p.hclkKHz, p.apbKHz) == p <==>
              && Ceil(pll, p.sysKHz) == p.sysDiv
              && (p.cpuKHz <= Wrap(p.hclkKHz * 2) && Ceil(p.sysKHz, p.cpuKHz) == p.cpuDiv)
              && p.apbKHz > 0 && ApbDivisor(p.sysKHz, p.apbKHz) != 0
              && ApbField(p.sysKHz, p.apbKHz) == p.apbDiv && Quot(p.sysKHz, ApbDivisor(p.sysKHz, p.apbKHz)) == p.apbKHz
  {
    hide PlanFor, Wrap, Ceil, OverPlan, UnderPlan, ApbDivisor, ApbField, CeilMinus1;
    PlanCases(pll, p.sysKHz, p.cpuKHz, p.hclkKHz, p.apbKHz);
    var s := SysOf(pll, p.sysKHz);
    SysOfAgain(pll, p.sysKHz, p.sysDiv);
    OverCases(Ceil(pll, p.sysKHz), s, p.cpuKHz, p.apbKHz);
    UnderCases(Ceil(pll, p.sysKHz), s, p.cpuKHz, p.apbKHz);
    hide SysOf, Quot;
  }

  lemma SysOfAgain(pll: Word, sys: Word, d: Word)
    requires 0 < sys <= pll && sys == pll / (d + 1) && d + 1 < TWO32
    ensures Ceil(pll, sys) == d ==> SysOf(pll, sys) == sys
  {
    SysChoice(pll, sys);
  }
}
