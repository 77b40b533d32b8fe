/** Register values as numbers, and the dividers as they land in the fields of CLKDIV0 and CLKDIV4. */
module FieldValues {
  import opened Bits
  import opened Division
  import opened ClockFields

  // ---- Register values as numbers and as bit patterns ----

  function Number(x: bv32): Word {
    x as nat
  }

  function Append(x: bv32, b: bool): bv32 {
    if b then (x << 1) | 1 else x << 1
  }

  /** A register value as the bit pattern that is written. */
  function ToBits(w: Word): bv32 {
    if w == 0 then 0 else Append(ToBits(w / 2), w % 2 == 1)
  }

  lemma {:induction false} ToBitsValue(w: Word)
    ensures Number(ToBits(w)) == w
  {
    ToBitsStep(w);
    ZeroBits();
    hide Append, ToBits, Number;
    if w > 0 {
      ToBitsValue(w / 2);
      AppendValue(ToBits(w / 2), w % 2 == 1);
    }
  }

  lemma ZeroBits()
    ensures Number(0) == 0
  {
  }

  lemma ToBitsStep(w: Word)
    ensures ToBits(w) == if w == 0 then 0 else Append(ToBits(w / 2), w % 2 == 1)
  {
    hide Append;
  }

  lemma AppendValue(x: bv32, b: bool)
    ensures Number(x) < 0x8000_0000 ==> Number(Append(x, b)) == 2 * Number(x) + if b then 1 else 0
  {
    TopBit(x);
    if x < 0x8000_0000 {
      OddValue(x);
      EvenValue(x);
    }
  }

  lemma TopBit(x: bv32)
    ensures x as nat < 0x8000_0000 ==> x < 0x8000_0000
  {
  }

  lemma OddValue(x: bv32)
    requires x < 0x8000_0000
    ensures ((x << 1) | 1) as nat == 2 * (x as nat) + 1
  {
  }

  lemma EvenValue(x: bv32)
    requires x < 0x8000_0000
    ensures (x << 1) as nat == 2 * (x as nat)
  {
  }

  /** A small number is a small bit pattern. */
  lemma BitsBelow(x: bv32)
    ensures (Number(x) < 8 <==> x < 8) && (Number(x) < 16 <==> x < 16)
    ensures (Number(x) < 32 <==> x < 32) && (Number(x) < 256 <==> x < 256)
  {
  }

  /** The bits that the source sets above a PLL setting. */
  lemma WithApllBits(x: bv32)
    requires Number(x) < 0x1_0000
    ensures Number(0x00F8_0000 | x) == 0x00F8_0000 + Number(x)
  {
  }

  /** A system divider as it lands in SYSTEM_N0, SYSTEM_S and SYSTEM_N1. One that does not fit divides by at
      most half of what is meant. */
  lemma SysField(d: Word)
    ensures var n0, n1 := Number(SystemN0(ToBits(d))), Number(SystemN1(ToBits(d)));
            && (d <= 7 ==> n0 == d && n1 == 0 && SystemS(ToBits(d)) == 0)
            && (d > 7 ==> 2 * ((n0 + 1) * (n1 + 1)) <= d + 1)
  {
    FieldWidths(ToBits(d));
    if d < 256 { NarrowSys(d); }
    hide ToBits, SystemN0, SystemN1, SystemS, Number;
    Halved(d, Number(SystemN0(ToBits(d))), Number(SystemN1(ToBits(d))));
  }

  lemma Halved(d: nat, n0: nat, n1: nat)
    requires n0 <= 7 && n1 <= 15 && (d < 256 ==> n1 == 0) && (8 <= d < 16 ==> n0 == d - 8)
    ensures d > 7 ==> 2 * ((n0 + 1) * (n1 + 1)) <= d + 1
  {
    MulBound(n0 + 1, 8, n1 + 1, 16);
    if d < 256 { assert (n0 + 1) * (n1 + 1) == n0 + 1; }
  }

  lemma FieldWidths(x: bv32)
    ensures Number(SystemN0(x)) <= 7 && Number(SystemN1(x)) <= 15 && Number(CpuN(x)) <= 15
  {
  }

  lemma NarrowSys(d: Word)
    requires d < 256
    ensures SystemN1(ToBits(d)) == 0
    ensures d <= 7 ==> Number(SystemN0(ToBits(d))) == d && SystemS(ToBits(d)) == 0
    ensures 8 <= d < 16 ==> Number(SystemN0(ToBits(d))) == d - 8
  {
    hide ToBits, SystemN0, SystemN1, SystemS, Number;
    ToBitsValue(d);
    BitsBelow(ToBits(d));
    NoHighField(ToBits(d));
    if d < 8 { ThreeBits(ToBits(d)); } else if d < 16 { FourthBit(ToBits(d)); }
  }

  lemma NoHighField(x: bv32)
    requires x < 256
    ensures SystemN1(x) == 0
  {
  }

  lemma ThreeBits(x: bv32)
    requires x < 8
    ensures SystemN0(x) == x && SystemS(x) == 0
  {
  }

  lemma FourthBit(x: bv32)
    requires 8 <= x < 16
    ensures Number(SystemN0(x)) == Number(x) - 8
  {
    assert SystemN0(x) == x - 8;
  }

  /** An APB or CPU divider as it lands in its four-bit field. */
  lemma FourBits(d: Word)
    ensures var n := Number(CpuN(ToBits(d)));
            n <= 15 && (d <= 15 ==> n == d && ApbN(ToBits(d)) == 0) && (d > 15 ==> 2 * (n + 1) <= d + 1)
  {
    FieldWidths(ToBits(d));
    LowFour(d);
    hide ToBits, CpuN, ApbN, Number;
  }

  lemma LowFour(d: Word)
    ensures d <= 15 ==> Number(CpuN(ToBits(d))) == d && ApbN(ToBits(d)) == 0
    ensures 16 <= d < 32 ==> Number(CpuN(ToBits(d))) == d - 16
  {
    hide ToBits, CpuN, ApbN, Number;
    ToBitsValue(d);
    BitsBelow(ToBits(d));
    if d < 16 { FitsFour(ToBits(d)); } else if d < 32 { FifthBit(ToBits(d)); }
  }

  lemma FitsFour(x: bv32)
    requires x < 16
    ensures CpuN(x) == x && ApbN(x) == 0
  {
  }

  lemma FifthBit(x: bv32)
    requires 16 <= x < 32
    ensures Number(CpuN(x)) == Number(x) - 16
  {
    assert CpuN(x) == x - 16;
  }
}
