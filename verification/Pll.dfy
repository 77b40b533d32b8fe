/** The PLL search of wb_config.c: which register sysGetPLLControlRegister finds, and when it ends. */
module Pll {
  import opened Bits
  import opened Division

  const STEP: nat := 4000

  /** Output divider selected by OUT_DV. */
  function No(o: nat): (n: nat)
    requires o < 4
    ensures 1 <= n <= 4
  {
    [1, 2, 2, 4][o]
  }

  function Nr(i: nat): nat { 2 * (i + 2) }

  function Nf(f: nat): nat { 2 * (f + 2) }

  /** The four range checks on a candidate, in 32-bit unsigned arithmetic. */
  predicate Passes(fin: Word, i: nat, f: nat) {
    && fin / Nr(i) >= 1000
    && fin / Nr(i) <= 15000
    && Wrap(fin / Nr(i) * Nf(f)) >= 100000
    && Wrap(fin / Nr(i) * Nf(f)) <= 500000
  }

  function Output(fin: Word, o: nat, i: nat, f: nat): Word
    requires o < 4
  {
    Divide(Wrap(fin * Nf(f)), Nr(i), No(o))
  }

  function Divide(x: Word, d1: nat, d2: nat): Word
    requires d1 > 0 && d2 > 0
  {
    x / d1 / d2
  }

  predicate Hit(fin: Word, target: Word, o: nat, i: nat, f: nat) {
    o < 4 && i < 32 && f < 512 && Passes(fin, i, f) && Output(fin, o, i, f) == target
  }

  ghost predicate Attainable(fin: Word, target: Word) {
    exists o, i, f :: Hit(fin, target, o, i, f)
  }

  /** An accepted candidate's products fit in 32 bits, so its output is the exact quotient and the
      filters hold of the true frequencies. */
  lemma AcceptedIsExact(fin: Word, target: Word, o: nat, i: nat, f: nat)
    requires Hit(fin, target, o, i, f)
    ensures fin * Nf(f) < TWO32 && target == fin * Nf(f) / Nr(i) / No(o)
    ensures 1000 <= fin / Nr(i) <= 15000 && 100000 <= fin / Nr(i) * Nf(f) <= 500000
  {
    hide No, Wrap;
    CandidateBounds(fin, Nr(i), Nf(f));
    WrapSmall(fin * Nf(f));
    WrapSmall(fin / Nr(i) * Nf(f));
  }

  lemma CandidateBounds(fin: nat, nr: nat, nf: nat)
    requires 0 < nr <= 66 && nf <= 1026 && fin / nr <= 15000
    ensures fin * nf < TWO32 && fin / nr * nf < TWO32
  {
    DivBounds(fin, nr);
    MulBound(fin / nr + 1, 15001, nr, 66);
    MulBound(fin, 990066, nf, 1026);
    MulBound(fin / nr, 15000, nf, 1026);
  }

  // ---- The register ----

  function Pack(o: nat, i: nat, f: nat): nat {
    Or(Or(Shl(o, 14), Shl(i, 9)), f)
  }

  lemma PackValue(o: nat, i: nat, f: nat)
    requires o < 4 && i < 32 && f < 512
    ensures Pack(o, i, f) == o * 0x4000 + i * 0x200 + f < 0x1_0000
  {
    hide Or;
    ShlValues(1);
    ShlValues(o);
    ShlValues(i);
    OrAdds(o, Shl(i, 9), 14);
    ShlValues(o * 32 + i);
    OrAdds(o * 32 + i, f, 9);
  }

  /** The fields of a control register, by position. */
  lemma Fields(reg: Word)
    ensures And(reg, 0x1FF) == reg % 0x200
    ensures And(reg, 0x3E00) / 0x200 == reg / 0x200 % 32
    ensures And(reg, 0xC000) / 0x4000 == reg / 0x4000 % 4
    ensures And(reg, 0x1_0000) == reg / 0x1_0000 % 2 * 0x1_0000
  {
    FbField(reg);
    InField(reg);
    OutField(reg);
    PdField(reg);
  }

  lemma FbField(reg: Word)
    ensures And(reg, 0x1FF) == reg % 0x200
  {
    hide And;
    ShlValues(1);
    ShlValues(reg / 0x200);
    AndLow(reg / 0x200, reg % 0x200, 9);
  }

  lemma AndZero(x: nat)
    ensures And(x, 0) == 0
  {
  }

  lemma InField(reg: Word)
    ensures And(reg, 0x3E00) / 0x200 == reg / 0x200 % 32
  {
    hide And;
    ShlValues(1);
    var hi := reg / 0x200;
    ShlValues(hi);
    ShlValues(0x1F);
    AndJoin(hi, reg % 0x200, 0x1F, 0, 9);
    AndZero(reg % 0x200);
    ShlValues(hi / 32);
    AndLow(hi / 32, hi % 32, 5);
    ShlValues(And(hi, 0x1F));
  }

  lemma OutField(reg: Word)
    ensures And(reg, 0xC000) / 0x4000 == reg / 0x4000 % 4
  {
    hide And;
    ShlValues(1);
    var hi := reg / 0x4000;
    ShlValues(hi);
    ShlValues(3);
    AndJoin(hi, reg % 0x4000, 3, 0, 14);
    AndZero(reg % 0x4000);
    ShlValues(hi / 4);
    AndLow(hi / 4, hi % 4, 2);
    ShlValues(And(hi, 3));
  }

  lemma PdField(reg: Word)
    ensures And(reg, 0x1_0000) == reg / 0x1_0000 % 2 * 0x1_0000
  {
    hide And;
    ShlValues(1);
    var hi := reg / 0x1_0000;
    ShlValues(hi);
    AndJoin(hi, reg % 0x1_0000, 1, 0, 16);
    AndZero(reg % 0x1_0000);
    assert Shl(hi / 2, 1) == 2 * (hi / 2) && Shl(1, 1) == 2;
    AndLow(hi / 2, hi % 2, 1);
    ShlValues(And(hi, 1));
  }

  /** The frequency that sysGetPLLOutputKhz computes from a PLL control register. */
  function OutputOf(reg: Word, fin: Word): Word {
    if And(reg, 0x1_0000) != 0 then 0
    else
      var nf := And(reg, 0x1FF) + 2;
      var nr := And(reg, 0x3E00) / 0x200 + 2;
      OutField(reg);
      var no := No(And(reg, 0xC000) / 0x4000);
      Divide(Wrap(fin * nf), nr, no)
  }

  /** That frequency in terms of the register's fields: 0 with the power-down bit set, otherwise the crystal times
      FB_DV + 2, divided by IN_DV + 2 and by the output divider. */
  lemma OutputInNumbers(reg: Word, fin: Word)
    ensures OutputOf(reg, fin)
         == if reg / 0x1_0000 % 2 == 1 then 0
            else Wrap(fin * (reg % 0x200 + 2)) / (reg / 0x200 % 32 + 2) / [1, 2, 2, 4][reg / 0x4000 % 4]
  {
    hide And, Wrap;
    Fields(reg);
  }

  /** Unpacking a register made from an accepted candidate gives back the target frequency, although
      the search works with doubled NR and NF. The bits from 17 up, such as 0x00F80000, do not matter. */
  lemma UnpackedOutput(reg: Word, fin: Word, target: Word, o: nat, i: nat, f: nat)
    requires Hit(fin, target, o, i, f) && reg % 0x2_0000 == Pack(o, i, f)
    ensures OutputOf(reg, fin) == target
  {
    hide And, Pack, No, Divide;
    AcceptedIsExact(fin, target, o, i, f);
    PackValue(o, i, f);
    Fields(reg);
    FieldsOfPacked(reg, o, i, f);
    SameQuotient(fin, o, i, f);
  }

  lemma SameQuotient(fin: Word, o: nat, i: nat, f: nat)
    requires o < 4 && fin * Nf(f) < TWO32
    ensures 0 <= fin * (f + 2) < TWO32 && Divide(Wrap(fin * (f + 2)), i + 2, No(o)) == Output(fin, o, i, f)
  {
    hide No;
    var x: int := fin * (f + 2);
    assert fin * Nf(f) == 2 * x by { assert fin * (2 * (f + 2)) == 2 * (fin * (f + 2)); }
    MulMono(f + 2, 0, fin);
    assert x == (f + 2) * fin;
    HalvedQuotient(x, i + 2);
    hide Wrap;
    WrapSmall(x);
    WrapSmall(2 * x);
  }

  lemma FieldsOfPacked(reg: Word, o: nat, i: nat, f: nat)
    requires o < 4 && i < 32 && f < 512 && reg % 0x2_0000 == o * 0x4000 + i * 0x200 + f
    ensures reg % 0x200 == f && reg / 0x200 % 32 == i && reg / 0x4000 % 4 == o && reg / 0x1_0000 % 2 == 0
  {
    LowFields(reg, reg / 0x2_0000 * 8 + o, i, f);
    HighFields(reg, reg / 0x2_0000, o, i * 0x200 + f);
  }

  lemma LowFields(reg: nat, h: nat, i: nat, f: nat)
    requires i < 32 && f < 512 && reg == h * 0x4000 + i * 0x200 + f
    ensures reg % 0x200 == f && reg / 0x200 % 32 == i
  {
    QuotRem(reg, 0x200, h * 32 + i, f);
    QuotRem(h * 32 + i, 32, h, i);
  }

  lemma HighFields(reg: nat, h: nat, o: nat, low: nat)
    requires o < 4 && low < 0x4000 && reg == h * 0x2_0000 + o * 0x4000 + low
    ensures reg / 0x4000 % 4 == o && reg / 0x1_0000 % 2 == 0
  {
    QuotRem(reg, 0x4000, h * 8 + o, low);
    QuotRem(h * 8 + o, 4, h * 2, o);
    QuotRem(reg, 0x1_0000, h * 2, o * 0x4000 + low);
    QuotRem(h * 2, 2, h, 0);
  }
}
