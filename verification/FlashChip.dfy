/** The SPI NOR flash chip as a state machine over bytes, and the shifting of words onto the wire. */
module FlashChip {
  import opened Bits

  const SIZE: nat := 0x100_0000
  const PAGE: nat := 256
  const BLOCK: nat := 0x1_0000

  type Byte = x: nat | x < 256

  /** A command that took effect or was dropped when chip select was released, with the state of the
      write-enable latch and of the busy flag at that moment. */
  datatype Command = Command(frame: seq<Byte>, wel: bool, wip: bool)

  /** `busy` is how many more status reads will report the operation in progress. */
  datatype Chip = Chip(mem: seq<Byte>, wel: bool, wip: bool, busy: nat,
      selected: bool, frame: seq<Byte>, log: seq<Command>)

  /** Address bytes 1 to 3 of a frame, most significant first. */
  function Address(frame: seq<Byte>): (a: nat)
    requires |frame| >= 4
    ensures a < SIZE
  {
    Value24(frame[1], frame[2], frame[3])
  }

  function Value24(b2: nat, b1: nat, b0: nat): nat {
    b2 * 0x1_0000 + b1 * 0x100 + b0
  }

  /** Offset of cell `a` from the start of a page program at `addr`, counted around the page. */
  function Around(a: nat, addr: nat): nat {
    (a % PAGE + PAGE - addr % PAGE) % PAGE
  }

  /** Index of the last of n data bytes that falls on offset k. */
  function LastAt(k: nat, n: nat): (j: nat)
    requires k < n
    ensures j < n
  {
    k + (n - 1 - k) / PAGE * PAGE
  }

  /** Page program: data wraps around within the page, and programming only clears bits. */
  function PageProgram(mem: seq<Byte>, addr: nat, data: seq<Byte>): (m: seq<Byte>)
    ensures |m| == |mem|
  {
    seq(|mem|, a requires 0 <= a < |mem| =>
      if a / PAGE == addr / PAGE && Around(a, addr) < |data|
      then Cleared(mem[a], data[LastAt(Around(a, addr), |data|)]) else mem[a])
  }

  function Cleared(x: Byte, y: Byte): Byte {
    AndBound(x, y);
    And(x, y)
  }

  function EraseBlock(mem: seq<Byte>, addr: nat): (m: seq<Byte>)
    ensures |m| == |mem|
  {
    seq(|mem|, a requires 0 <= a < |mem| => if a / BLOCK == addr / BLOCK then 0xFF else mem[a])
  }

  /** The operation that a finished frame starts; None for frames that start none. */
  function Started(mem: seq<Byte>, frame: seq<Byte>): seq<Byte> {
    if |frame| >= 5 && frame[0] == 0x02 then PageProgram(mem, Address(frame), frame[4..])
    else if |frame| == 4 && frame[0] == 0xD8 then EraseBlock(mem, Address(frame))
    else seq(|mem|, _ => 0xFF)
  }

  predicate Modifies(frame: seq<Byte>) {
    || (|frame| >= 5 && frame[0] == 0x02)
    || (|frame| == 4 && frame[0] == 0xD8)
    || (|frame| == 1 && frame[0] == 0xC7)
  }

  function Select(c: Chip): Chip {
    c.(selected := true, frame := [])
  }

  /** Chip select released: the frame is executed unless the chip is busy; an operation that changes the
      memory also needs the write-enable latch. It will stay busy for `delay` status reads. */
  function Deselect(c: Chip, delay: nat): Chip {
    var d := c.(selected := false, frame := [], log := c.log + [Command(c.frame, c.wel, c.wip)]);
    if c.wip then d
    else if c.frame == [0x06] then d.(wel := true)
    else if c.frame == [0x04] then d.(wel := false)
    else if Modifies(c.frame) && c.wel then d.(mem := Started(c.mem, c.frame), wip := true, busy := delay)
    else d
  }

  /** One byte shifted in while one byte is shifted out. Status reads see the busy flag fall, and with it
      the write-enable latch; array reads run on through the address space. */
  function Exchange(c: Chip, b: Byte): (r: (Chip, Byte))
    requires |c.mem| == SIZE
    ensures |r.0.mem| == SIZE
  {
    var d := c.(frame := c.frame + [b]);
    if !c.selected then (c, 0xFF)
    else if |c.frame| >= 1 && c.frame[0] == 0x05 then
      if c.wip && c.busy > 0 then (d.(busy := c.busy - 1), (if c.wel then 0x03 else 0x01))
      else if c.wip then (d.(wip := false, wel := false), 0x00)
      else (d, if c.wel then 0x02 else 0x00)
    else if |c.frame| >= 4 && c.frame[0] == 0x03 && !c.wip then
      (d, c.mem[(Address(c.frame) + |c.frame| - 4) % SIZE])
    else (d, 0xFF)
  }

  /** Several bytes in a row: the chip afterwards and the bytes it sent. */
  function Shift(c: Chip, bytes: seq<Byte>): (r: (Chip, seq<Byte>))
    requires |c.mem| == SIZE
    ensures |r.0.mem| == SIZE && |r.1| == |bytes|
    decreases |bytes|
  {
    if bytes == [] then (c, [])
    else
      var (d, out) := Exchange(c, bytes[0]);
      var (e, rest) := Shift(d, bytes[1..]);
      (e, [out] + rest)
  }

  // ---- Words on the wire ----

  function Byte0(w: Word): Byte { w % 0x100 }
  function Byte1(w: Word): Byte { w / 0x100 % 0x100 }
  function Byte2(w: Word): Byte { w / 0x1_0000 % 0x100 }
  function Byte3(w: Word): Byte { w / 0x100_0000 }

  function Join(b3: nat, b2: nat, b1: nat, b0: nat): nat {
    b3 * 0x100_0000 + b2 * 0x1_0000 + b1 * 0x100 + b0
  }

  lemma JoinBytes(b3: Byte, b2: Byte, b1: Byte, b0: Byte)
    ensures var w := Join(b3, b2, b1, b0);
            w < TWO32 && Byte3(w) == b3 && Byte2(w) == b2 && Byte1(w) == b1 && Byte0(w) == b0
  {
    var w := Join(b3, b2, b1, b0);
    assert w / 0x100 == b3 * 0x1_0000 + b2 * 0x100 + b1;
    assert w / 0x1_0000 == b3 * 0x100 + b2;
  }

  /** The most significant byte goes first. */
  function Wire32(w: Word): seq<Byte> { [Byte3(w), Byte2(w), Byte1(w), Byte0(w)] }
  function Wire24(w: Word): seq<Byte> { [Byte2(w), Byte1(w), Byte0(w)] }

  /** The byte swap of spiFlashWrite and spiFlashRead, with the masks and shifts of the source. */
  function Swap(w: Word): nat {
    Or(Or(Or(Shl(And(w, 0xFF), 24), Shl(And(w, 0xFF00), 8)), And(w, 0xFF_0000) / 0x100),
       And(w, 0xFF00_0000) / 0x100_0000)
  }

  lemma SwapIs(w: Word)
    ensures Swap(w) == Join(Byte0(w), Byte1(w), Byte2(w), Byte3(w))
  {
    hide And, Or, Shl;
    MaskBytes(w);
    hide Byte0, Byte1, Byte2, Byte3;
    SwapOrs(Byte0(w), Byte1(w), Byte2(w), Byte3(w));
    assert Byte2(w) * 0x1_0000 / 0x100 == Byte2(w) * 0x100;
    assert Byte3(w) * 0x100_0000 / 0x100_0000 == Byte3(w);
  }

  lemma SwapOrs(b0: nat, b1: nat, b2: nat, b3: nat)
    requires b0 < 256 && b1 < 256 && b2 < 256 && b3 < 256
    ensures Or(Or(Or(Shl(b0, 24), Shl(b1 * 0x100, 8)), b2 * 0x100), b3) == Join(b0, b1, b2, b3)
  {
    hide Or, Shl;
    SwapShifts(b0, b1);
    OrFour(b0, b1, b2, b3);
  }

  lemma SwapShifts(b0: nat, b1: nat)
    ensures Shl(b0, 24) == b0 * 0x100_0000 && Shl(b1 * 0x100, 8) == b1 * 0x1_0000
  {
    hide Shl;
    ShlValues(b0);
    ShlValues(b1 * 0x100);
  }

  lemma OrFour(b0: nat, b1: nat, b2: nat, b3: nat)
    requires b0 < 256 && b1 < 256 && b2 < 256 && b3 < 256
    ensures Or(Or(Or(b0 * 0x100_0000, b1 * 0x1_0000), b2 * 0x100), b3) == Join(b0, b1, b2, b3)
  {
    hide Or;
    OrBelow24(b0, b1 * 0x1_0000);
    var h := b0 * 0x100 + b1;
    OrBelow16(h, b2 * 0x100);
    OrBelow8(h * 0x100 + b2, b3);
  }

  lemma OrBelow24(a: nat, y: nat)
    requires y < 0x100_0000
    ensures Or(a * 0x100_0000, y) == a * 0x100_0000 + y
  {
    ShlValues(1);
    ShlValues(a);
    OrAdds(a, y, 24);
  }

  lemma OrBelow16(a: nat, y: nat)
    requires y < 0x1_0000
    ensures Or(a * 0x1_0000, y) == a * 0x1_0000 + y
  {
    ShlValues(1);
    ShlValues(a);
    OrAdds(a, y, 16);
  }

  lemma OrBelow8(a: nat, y: nat)
    requires y < 0x100
    ensures Or(a * 0x100, y) == a * 0x100 + y
  {
    ShlValues(1);
    ShlValues(a);
    OrAdds(a, y, 8);
  }

  lemma MaskBytes(w: Word)
    ensures And(w, 0xFF) == Byte0(w) && And(w, 0xFF00) == Byte1(w) * 0x100
    ensures And(w, 0xFF_0000) == Byte2(w) * 0x1_0000 && And(w, 0xFF00_0000) == Byte3(w) * 0x100_0000
  {
    hide And;
    LowByte(w);
    ByteAt8(w);
    ByteAt16(w);
    ByteAt24(w);
  }

  lemma LowByte(w: nat)
    ensures And(w, 0xFF) == w % 0x100
  {
    hide And;
    ShlValues(1);
    ShlValues(w / 0x100);
    AndLow(w / 0x100, w % 0x100, 8);
  }

  lemma AndNone(x: nat)
    ensures And(x, 0) == 0
  {
  }

  lemma ByteAt8(w: nat)
    ensures And(w, 0xFF00) == w / 0x100 % 0x100 * 0x100
  {
    hide And;
    ShlValues(1);
    ShlValues(w / 0x100);
    ShlValues(0xFF);
    AndJoin(w / 0x100, w % 0x100, 0xFF, 0, 8);
    AndNone(w % 0x100);
    LowByte(w / 0x100);
    ShlValues(And(w / 0x100, 0xFF));
  }

  lemma ByteAt16(w: nat)
    ensures And(w, 0xFF_0000) == w / 0x1_0000 % 0x100 * 0x1_0000
  {
    hide And;
    ShlValues(1);
    ShlValues(w / 0x1_0000);
    ShlValues(0xFF);
    AndJoin(w / 0x1_0000, w % 0x1_0000, 0xFF, 0, 16);
    AndNone(w % 0x1_0000);
    LowByte(w / 0x1_0000);
    ShlValues(And(w / 0x1_0000, 0xFF));
  }

  lemma ByteAt24(w: Word)
    ensures And(w, 0xFF00_0000) == w / 0x100_0000 * 0x100_0000
  {
    hide And;
    ShlValues(1);
    ShlValues(w / 0x100_0000);
    ShlValues(0xFF);
    AndHigh(w / 0x100_0000, w % 0x100_0000, 8, 24);
  }
}
