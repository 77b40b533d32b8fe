/** n3290x_lib_ex_gpio.c: masked writes to the port registers, 2-bit interrupt groups, edge selection. */
module Gpio {
  // ---- Interrupt source groups: sixteen 2-bit fields per port ----

  function Field(w: bv32, p: bv6): bv32
    requires p < 16
  {
    (w >> (2 * p)) & 3
  }

  predicate Pin(mask: bv32, p: bv6)
    requires p < 16
  {
    mask & (1 << p) != 0
  }

  /** The fields of the masked pins among the first i, all ones; the other bits zero. */
  ghost predicate Spread(m: bv32, mask: bv32, i: bv6)
    requires i <= 16
  {
    forall p: bv6 | p < 16 :: Field(m, p) == if p < i && Pin(mask, p) then 3 else 0
  }

  /** One round of the loop of gpio_setsrcgrp. */
  function Bump(m: bv32, i: bv6): bv32
    requires i < 16
  {
    m + (3 << (i << 1))
  }

  function Merge(m: bv32, i: bv6): bv32
    requires i < 16
  {
    m | (3 << (i << 1))
  }

  lemma AddIsOr(m: bv32, i: bv6)
    requires i < 16 && Field(m, i) == 0
    ensures Bump(m, i) == Merge(m, i)
  {
  }

  lemma MergeField(m: bv32, i: bv6, p: bv6)
    requires i < 16 && p < 16
    ensures Field(Merge(m, i), p) == if p == i then 3 else Field(m, p)
  {
  }

  /** The addition touches one empty field. */
  lemma BumpSpreads(m: bv32, mask: bv32, i: bv6)
    requires i < 16 && Spread(m, mask, i)
    ensures Spread(if Pin(mask, i) then Bump(m, i) else m, mask, i + 1)
  {
    hide Field, Pin, Bump, Merge;
    var m' := if Pin(mask, i) then Bump(m, i) else m;
    assert Field(m, i) == 0;
    AddIsOr(m, i);
    forall p: bv6 | p < 16
      ensures Field(m', p) == if p < i + 1 && Pin(mask, p) then 3 else 0
    {
      MergeField(m, i, p);
      Below(p, i);
      assert Field(m, p) == if p < i && Pin(mask, p) then 3 else 0;
    }
  }

  lemma Below(p: bv6, i: bv6)
    requires i < 16
    ensures p < i + 1 <==> p < i || p == i
  {
  }

  /** The table of replicated group numbers. */
  function Replicated(irq: bv32): bv32
    requires irq < 4
  {
    if irq == 0 then 0 else if irq == 1 then 0x5555_5555 else if irq == 2 then 0xAAAA_AAAA else 0xFFFF_FFFF
  }

  /** The two register writes that end gpio_setsrcgrp. */
  function Regroup(w: bv32, m: bv32, irq: bv32): bv32
    requires irq < 4
  {
    (w & !m) | (m & Replicated(irq))
  }

  lemma RegroupField(w: bv32, m: bv32, irq: bv32, p: bv6)
    requires irq < 4 && p < 16 && (Field(m, p) == 0 || Field(m, p) == 3)
    ensures Field(Regroup(w, m, irq), p) == if Field(m, p) == 3 then irq else Field(w, p)
  {
  }

  /** Bits 2p and 2p + 1 have become `irq` where bit p of the mask is set, and are as before elsewhere. */
  ghost predicate Regrouped(w': bv32, w: bv32, mask: bv32, irq: bv32) {
    forall p: bv6 | p < 16 ::
      && Field(w', p) == (w' >> (2 * p)) & 3 && Field(w, p) == (w >> (2 * p)) & 3
      && Field(w', p) == if mask & (1 << p) != 0 then irq else Field(w, p)
  }

  lemma FieldsRegrouped(w': bv32, w: bv32, mask: bv32, irq: bv32)
    requires forall p: bv6 | p < 16 :: Field(w', p) == if Pin(mask, p) then irq else Field(w, p)
    ensures Regrouped(w', w, mask, irq)
  {
  }

  // ---- Masked writes to 16-bit ports ----

  // The two register writes of gpio_setportdir, gpio_setportval and gpio_setportpull.
  function ClearMasked(w: bv32, mask: bv32, v: bv32): bv32 { w & !(mask & (mask ^ v)) }
  function SetMasked(w: bv32, mask: bv32, v: bv32): bv32 { w | (mask & v) }

  function MaskedWrite(w: bv32, mask: bv32, v: bv32): bv32 {
    SetMasked(ClearMasked(w, mask, v), mask, v)
  }

  /** Masked bits take the new value, all others keep theirs. */
  lemma MaskedBits(w: bv32, mask: bv32, v: bv32)
    ensures MaskedWrite(w, mask, v) & mask == v & mask
    ensures MaskedWrite(w, mask, v) & !mask == w & !mask
  {
  }

  // ---- Edge selection: rising edges in the high half, falling edges in the low half ----

  // The two register writes of gpio_setintmode.
  function ClearEdges(w: bv32, mask: bv32): bv32 { w & !((mask << 16) | mask) }
  function SetEdges(w: bv32, mask: bv32, falling: bv32, rising: bv32): bv32 {
    w | (((mask & rising) << 16) | (mask & falling))
  }

  function WithEdges(w: bv32, mask: bv32, falling: bv32, rising: bv32): bv32 {
    SetEdges(ClearEdges(w, mask), mask, falling, rising)
  }

  function Rising(w: bv32): bv32 { w >> 16 }
  function Falling(w: bv32): bv32 { w & 0xFFFF }

  /** gpio_getintmode after gpio_setintmode: masked pins report the edges just set, the others their old edges. */
  lemma RisingRoundTrip(w: bv32, mask: bv32, falling: bv32, rising: bv32)
    requires mask & 0xFFFF == mask
    ensures Rising(WithEdges(w, mask, falling, rising)) & mask == rising & mask
    ensures Rising(WithEdges(w, mask, falling, rising)) & !mask == Rising(w) & !mask
  {
  }

  lemma FallingRoundTrip(w: bv32, mask: bv32, falling: bv32, rising: bv32)
    requires mask & 0xFFFF == mask
    ensures Falling(WithEdges(w, mask, falling, rising)) & mask == falling & mask
    ensures Falling(WithEdges(w, mask, falling, rising)) & !mask == Falling(w) & !mask
  {
  }

  // ---- The driver ----

  /** Ports A to E are numbered 1, 2, 4, 8 and 16. */
  function PortIndex(port: bv32): int {
    if port == 1 then 0 else if port == 2 then 1 else if port == 4 then 2 else if port == 8 then 3
    else if port == 16 then 4 else -1
  }

  /** Output mode, output value and pull-up registers. */
  datatype Bank = Omd | Dout | Puen

  class Ports {
    var banks: map<Bank, seq<bv32>>
    var srcgrp: seq<bv32>
    var inten: seq<bv32>

    ghost predicate Valid()
      reads this
    {
      && |srcgrp| == |inten| == 5
      && Omd in banks && Dout in banks && Puen in banks
      && |banks[Omd]| == |banks[Dout]| == |banks[Puen]| == 5
    }

    constructor ()
      ensures Valid()
    {
      var zeros: seq<bv32> := seq(5, _ => 0);
      banks := map[Omd := zeros, Dout := zeros, Puen := zeros];
      srcgrp, inten := zeros, zeros;
    }

    /** gpio_setportdir, gpio_setportval and gpio_setportpull, which differ in the register bank only. */
    method SetPort(bank: Bank, port: bv32, mask: bv32, v: bv32) returns (ok: bool)
      requires Valid()
      modifies this`banks
      ensures Valid() && ok == (port == 1 || port == 2 || port == 4 || port == 8 || port == 16)
      ensures !ok ==> banks == old(banks)
      ensures forall k | 0 <= k < 5 && port == [1, 2, 4, 8, 16][k] ::
                banks == old(banks)[bank := old(banks)[bank][k := MaskedWrite(old(banks)[bank][k], mask, v)]]
    {
      hide ClearMasked, SetMasked;
      var k := PortIndex(port);
      if k < 0 { return false; }
      var regs := banks[bank];
      regs := regs[k := ClearMasked(regs[k], mask, v)];
      regs := regs[k := SetMasked(regs[k], mask, v)];
      assert regs == banks[bank][k := MaskedWrite(banks[bank][k], mask, v)];
      banks := banks[bank := regs];
      return true;
    }

    /** gpio_setsrcgrp: exactly the masked pins' fields become `irq`. */
    method SetSrcGrp(port: bv32, mask: bv32, irq: bv32) returns (ok: bool)
      requires Valid() && mask <= 0xFFFF
      modifies this`srcgrp
      ensures Valid() && ok == (irq <= 3 && (port == 1 || port == 2 || port == 4 || port == 8 || port == 16))
      ensures !ok ==> srcgrp == old(srcgrp)
      ensures forall k | 0 <= k < 5 && ok && port == [1, 2, 4, 8, 16][k] ::
                && (forall j | 0 <= j < 5 && j != k :: srcgrp[j] == old(srcgrp)[j])
                && Regrouped(srcgrp[k], old(srcgrp)[k], mask, irq)
    {
      hide Field, Pin, Bump, Regroup, Regrouped;
      if irq > 3 { return false; }
      var m := SpreadMask(mask);
      var k := PortIndex(port);
      if k < 0 { return false; }
      ghost var w := srcgrp[k];
      srcgrp := srcgrp[k := Regroup(srcgrp[k], m, irq)];
      forall p: bv6 | p < 16
        ensures Field(srcgrp[k], p) == if Pin(mask, p) then irq else Field(w, p)
      {
        assert Field(m, p) == if p < 16 && Pin(mask, p) then 3 else 0;
        RegroupField(w, m, irq, p);
      }
      FieldsRegrouped(srcgrp[k], w, mask, irq);
      return true;
    }

    /** gpio_setintmode. */
    method SetIntMode(port: bv32, mask: bv32, falling: bv32, rising: bv32) returns (ok: bool)
      requires Valid()
      modifies this`inten
      ensures Valid() && ok == (port == 1 || port == 2 || port == 4 || port == 8 || port == 16)
      ensures !ok ==> inten == old(inten)
      ensures forall k | 0 <= k < 5 && port == [1, 2, 4, 8, 16][k] ::
                inten == old(inten)[k := WithEdges(old(inten)[k], mask, falling, rising)]
    {
      hide ClearEdges, SetEdges;
      var k := PortIndex(port);
      if k < 0 { return false; }
      inten := inten[k := ClearEdges(inten[k], mask)];
      inten := inten[k := SetEdges(inten[k], mask, falling, rising)];
      return true;
    }

    /** gpio_getintmode. */
    method GetIntMode(port: bv32) returns (ok: bool, falling: bv32, rising: bv32)
      requires Valid()
      ensures ok == (port == 1 || port == 2 || port == 4 || port == 8 || port == 16)
      ensures forall k | 0 <= k < 5 && port == [1, 2, 4, 8, 16][k] ::
                falling == Falling(inten[k]) && rising == Rising(inten[k])
    {
      var k := PortIndex(port);
      if k < 0 { return false, 0, 0; }
      return true, inten[k] & 0xFFFF, inten[k] >> 16;
    }
  }

  /** The mask-building loop of gpio_setsrcgrp. */
  method SpreadMask(mask: bv32) returns (m: bv32)
    ensures Spread(m, mask, 16)
  {
    hide Pin, Bump;
    m := 0;
    var i: bv6 := 0;
    assert Spread(m, mask, 0) by { EmptySpread(mask); }
    hide Field, Spread;
    while i < 16
      invariant i <= 16 && Spread(m, mask, i)
      decreases 16 - i
    {
      BumpSpreads(m, mask, i);
      if Pin(mask, i) { m := Bump(m, i); }
      i := i + 1;
    }
  }

  lemma EmptySpread(mask: bv32)
    ensures Spread(0, mask, 0)
  {
  }
}
