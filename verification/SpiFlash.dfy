/** n3290x_lib_ex_spiflash.c: the flash driver, one chip-select frame at a time. */
module SpiFlash {
  import opened Bits
  import opened FlashChip
  import opened FlashMap

  // ---- The command protocol ----

  /** A frame the driver may send: one of its six commands, complete; nothing but status reads while the
      chip is busy; programs and erases with the write-enable latch set; if `inPage`, no program past its page. */
  predicate Proper(c: Command, inPage: bool) {
    var f := c.frame;
    && f != [] && (c.wip ==> f[0] == 0x05)
    && (f[0] == 0x02 ==> c.wel && 8 <= |f| && (inPage ==> Address(f) % PAGE + |f| - 4 <= PAGE))
    && (f[0] == 0xD8 ==> c.wel && |f| == 4)
    && (f[0] == 0xC7 ==> c.wel && |f| == 1)
    && (f[0] == 0x06 ==> |f| == 1)
    && (f[0] == 0x03 ==> |f| >= 4)
    && f[0] in {0x02, 0x03, 0x05, 0x06, 0xC7, 0xD8}
  }

  ghost predicate AllProper(log: seq<Command>, inPage: bool) {
    forall k | 0 <= k < |log| :: Proper(log[k], inPage)
  }

  /** Between calls: chip select inactive, nothing in progress. */
  predicate Resting(c: Chip) {
    |c.mem| == SIZE && !c.selected && c.frame == [] && !c.wip
  }

  // ---- Shifting lemmas ----

  /** Bytes that the chip only collects. */
  lemma {:induction false} ShiftQuiet(c: Chip, bytes: seq<Byte>)
    requires |c.mem| == SIZE && c.selected
    requires c.frame + bytes != [] ==>
               var op, n := (c.frame + bytes)[0], |c.frame| + |bytes|;
               (op == 0x05 ==> n <= 1) && (op == 0x03 ==> n <= 4)
    ensures Shift(c, bytes).0 == c.(frame := c.frame + bytes)
    decreases |bytes|
  {
    if bytes == [] {
      assert c.frame + bytes == c.frame;
    } else {
      var d := Exchange(c, bytes[0]).0;
      assert (c.frame + bytes)[0] == if c.frame == [] then bytes[0] else c.frame[0];
      assert d == c.(frame := c.frame + [bytes[0]]);
      assert c.frame + [bytes[0]] + bytes[1..] == c.frame + bytes;
      ShiftQuiet(d, bytes[1..]);
    }
  }

  /** The chip is streaming the array; `Cursor` is the next address it will send. */
  predicate Streaming(c: Chip) {
    |c.mem| == SIZE && c.selected && !c.wip && |c.frame| >= 4 && c.frame[0] == 0x03
  }

  function Cursor(c: Chip): nat
    requires Streaming(c)
  {
    Address(c.frame) + |c.frame| - 4
  }

  lemma StreamStep(c: Chip, b: Byte)
    requires Streaming(c)
    ensures var r := Exchange(c, b);
            && r.0 == c.(frame := c.frame + [b]) && r.1 == c.mem[Cursor(c) % SIZE]
            && Streaming(r.0) && Cursor(r.0) == Cursor(c) + 1
  {
    assert Address(c.frame + [b]) == Address(c.frame);
  }

  /** Bytes read out of the array. */
  lemma {:induction false} ShiftReads(c: Chip, bytes: seq<Byte>)
    requires Streaming(c)
    ensures Shift(c, bytes).0 == c.(frame := c.frame + bytes)
    ensures forall k | 0 <= k < |bytes| :: Shift(c, bytes).1[k] == c.mem[(Cursor(c) + k) % SIZE]
    decreases |bytes|
  {
    hide Exchange, Address;
    if bytes == [] {
      assert c.frame + bytes == c.frame;
    } else {
      StreamStep(c, bytes[0]);
      var (d, out) := Exchange(c, bytes[0]);
      assert c.frame + [bytes[0]] + bytes[1..] == c.frame + bytes;
      ShiftReads(d, bytes[1..]);
      var rest := Shift(d, bytes[1..]).1;
      assert Shift(c, bytes).1 == [out] + rest;
      ReadsShift(c, d, out, rest, |bytes|);
    }
  }

  lemma ReadsShift(c: Chip, d: Chip, out: Byte, rest: seq<Byte>, n: nat)
    requires Streaming(c) && Streaming(d) && d.mem == c.mem && Cursor(d) == Cursor(c) + 1
    requires |rest| + 1 == n && out == c.mem[Cursor(c) % SIZE]
    requires forall k | 0 <= k < |rest| :: rest[k] == d.mem[(Cursor(d) + k) % SIZE]
    ensures forall k | 0 <= k < n :: ([out] + rest)[k] == c.mem[(Cursor(c) + k) % SIZE]
  {
    hide Cursor;
    forall k | 0 <= k < n ensures ([out] + rest)[k] == c.mem[(Cursor(c) + k) % SIZE] {
      if k > 0 { assert rest[k - 1] == d.mem[(Cursor(d) + (k - 1)) % SIZE]; }
    }
  }

  /** A caller's buffer whose first k bytes have been read from `addr`. */
  function Filled(mem: seq<Byte>, addr: nat, k: nat, out0: seq<Byte>): seq<Byte>
    requires addr + k <= |mem| && k <= |out0|
  {
    mem[addr..addr + k] + out0[k..]
  }

  class Driver {
    var chip: Chip
    var rx: seq<Byte>            // bytes captured in REG_SPI0_RX0 by the last transfer
    ghost const inPage: bool     // whether all writes are known to fit their pages

    constructor (chip: Chip, ghost inPage: bool)
      ensures this.chip == chip && this.inPage == inPage
    {
      this.chip, rx, this.inPage := chip, [], inPage;
    }

    /** outpw(TX0), spiTxLen, spiActive: shift bytes out and capture the reply. */
    method Transfer(bytes: seq<Byte>)
      requires |chip.mem| == SIZE
      modifies this
      ensures chip == Shift(old(chip), bytes).0 && rx == Shift(old(chip), bytes).1
    {
      var (c, out) := Shift(chip, bytes);
      chip, rx := c, out;
    }

    method SelectChip()
      modifies this`chip
      ensures chip == Select(old(chip))
    {
      chip := Select(chip);
    }

    /** Chip select released; how long the chip stays busy afterwards is its own affair. */
    method DeselectChip() returns (ghost delay: nat)
      modifies this`chip
      ensures chip == Deselect(old(chip), delay)
    {
      var d := ChipDelay();
      delay := d;
      chip := Deselect(chip, d);
    }

    /** An arbitrary number. */
    method ChipDelay() returns (d: nat)
    {
      var x: int := *;
      d := if x < 0 then -x else x;
    }

    /** usiWriteEnable. */
    method WriteEnable()
      requires Resting(chip) && AllProper(chip.log, inPage)
      modifies this
      ensures Resting(chip) && AllProper(chip.log, inPage)
      ensures chip == old(chip).(wel := true, log := chip.log)
    {
      SelectChip();
      ShiftQuiet(chip, [0x06]);
      Transfer([0x06]);
      var _ := DeselectChip();
    }

    /** usiCheckBusy: status reads until the busy flag is down. */
    method CheckBusy()
      requires |chip.mem| == SIZE && !chip.selected && AllProper(chip.log, inPage)
      modifies this
      ensures Resting(chip) && AllProper(chip.log, inPage)
      ensures chip.mem == old(chip.mem) && chip.wel == (old(chip.wel) && !old(chip.wip))
    {
      SelectChip();
      ShiftQuiet(chip, [0x05]);
      Transfer([0x05]);
      ghost var c0 := chip;
      while true
        invariant |chip.mem| == SIZE && chip.selected && chip.mem == old(chip.mem) && chip.log == old(chip.log)
        invariant chip.frame != [] && chip.frame[0] == 0x05
        invariant chip.wip == old(chip.wip) && chip.wel == old(chip.wel)
        decreases chip.busy
      {
        StatusStep(chip);
        Transfer([0xFF]);
        if And(rx[0], 0x01) != 0x01 { break; }
      }
      var _ := DeselectChip();
    }

    /** Chip select, an opcode and a 24-bit address. */
    method Command24(op: Byte, addr: Word)
      requires Resting(chip) && op != 0x05
      modifies this
      ensures chip == old(chip).(selected := true, frame := [op] + Wire24(addr))
    {
      SelectChip();
      ShiftQuiet(chip, [op]);
      Transfer([op]);
      ShiftQuiet(chip, Wire24(addr));
      Transfer(Wire24(addr));
    }

    /** One round of spiFlashEraseSector. */
    method EraseOne(addr: Word)
      requires Resting(chip) && AllProper(chip.log, inPage) && addr < SIZE
      modifies this
      ensures Resting(chip) && AllProper(chip.log, inPage) && !chip.wel && chip.mem == EraseBlock(old(chip.mem), addr)
    {
      hide EraseBlock;
      WriteEnable();
      Command24(0xD8, addr);
      AddressOf(0xD8, addr);
      var _ := DeselectChip();
      CheckBusy();
    }

    /** spiFlashEraseSector: exactly `secCount` blocks of 64 KB become 0xFF. */
    method EraseSector(addr: Word, secCount: Word) returns (ok: bool)
      requires Resting(chip) && AllProper(chip.log, inPage)
      requires addr % BLOCK == 0 ==> addr + secCount * BLOCK <= SIZE
      modifies this
      ensures Resting(chip) && AllProper(chip.log, inPage) && ok == (addr % BLOCK == 0)
      ensures !ok ==> chip == old(chip)
      ensures ok ==> chip.mem == Erased(old(chip.mem), addr, secCount)
      ensures ok ==> forall a | 0 <= a < SIZE ::
                chip.mem[a] == if addr <= a < addr + secCount * 0x1_0000 then 0xFF else old(chip.mem)[a]
      ensures (ok && secCount > 0) || !old(chip.wel) ==> !chip.wel
    {
      hide Erased, EraseBlock;
      if addr % (64 * 1024) != 0 { return false; }
      EraseNone(chip.mem, addr);
      var i := 0;
      while i < secCount
        invariant 0 <= i <= secCount && Resting(chip) && AllProper(chip.log, inPage)
        invariant chip.mem == Erased(old(chip.mem), addr, i) && (i > 0 || !old(chip.wel) ==> !chip.wel)
      {
        EraseNext(old(chip.mem), addr, i);
        EraseOne(addr + i * 64 * 1024);
        i := i + 1;
      }
      return true;
    }

    /** spiFlashEraseAll. */
    method EraseAll()
      requires Resting(chip) && AllProper(chip.log, inPage)
      modifies this
      ensures Resting(chip) && AllProper(chip.log, inPage) && !chip.wel && chip.mem == seq(SIZE, _ => 0xFF)
    {
      WriteEnable();
      SelectChip();
      ShiftQuiet(chip, [0xC7]);
      Transfer([0xC7]);
      var _ := DeselectChip();
      CheckBusy();
    }

    /** One page of spiFlashWrite: the command, then whole words until `page` bytes are covered. */
    method WritePage(addr: Word, page: nat, buf: seq<Word>, start: nat)
      requires Resting(chip) && AllProper(chip.log, inPage)
      requires 0 < page && start + Words(page) <= |buf| && addr < SIZE
      requires inPage ==> addr % PAGE + 4 * Words(page) <= PAGE
      modifies this
      ensures Resting(chip) && AllProper(chip.log, inPage) && !chip.wel
      ensures chip.mem == PageProgram(old(chip.mem), addr, BufBytes(buf[start..start + Words(page)]))
    {
      hide PageProgram, Address, Shift, BufBytes;
      WriteEnable();
      Command24(0x02, addr);
      ghost var c0 := chip;
      var p: int, k := page, 0;
      BufNone(buf, start);
      while p > 0
        invariant 0 <= k <= Words(page) && p == page - 4 * k
        invariant chip == c0.(frame := [0x02] + Wire24(addr) + BufBytes(buf[start..start + k]))
      {
        var w := buf[start + k];
        SwapWire(w);
        var u32Tmp := Swap(w);
        QuietData(c0, addr, BufBytes(buf[start..start + k]), Wire32(u32Tmp));
        Transfer(Wire32(u32Tmp));
        BufNext(buf, start, k);
        k := k + 1;
        p := p - 4;
      }
      BufLength(buf, start, k);
      ProgramFrame(addr, BufBytes(buf[start..start + k]), chip.mem);
      var _ := DeselectChip();
      CheckBusy();
    }

    /** spiFlashWrite: one page program for every 256 bytes of the buffer. For calls whose pages fit, the
        words of the buffer are programmed at `addr`. */
    method Write(addr: Word, len: Word, buf: seq<Word>)
      requires Resting(chip) && AllProper(chip.log, inPage)
      requires Words(len) <= |buf| && addr + 4 * Words(len) <= SIZE && (inPage ==> Fits(addr, len))
      modifies this
      ensures Resting(chip) && AllProper(chip.log, inPage) && (len > 0 || !old(chip.wel) ==> !chip.wel)
      ensures chip.mem == Written(old(chip.mem), addr, len, buf, Pages(len))
      ensures Fits(addr, len) ==> chip.mem == Programmed(old(chip.mem), addr, BufBytes(buf[..Words(len)]))
    {
      hide Programmed, BufBytes, PageProgram, AllProper, Resting;
      WrittenNone(chip.mem, addr, len, buf);
      hide Written, Words, PageLen, Left, Fits;
      var count := len / 256;
      if len % 256 != 0 { count := count + 1; }
      var left := len;
      assert count == Pages(len) && left == Left(len, 0) by { LeftAll(len); }
      hide Pages;
      var i := 0;
      while i < count
        invariant 0 <= i <= count && Resting(chip) && AllProper(chip.log, inPage)
                  && (i > 0 || !old(chip.wel) ==> !chip.wel)
        invariant left == Left(len, i)
        invariant chip.mem == Written(old(chip.mem), addr, len, buf, i)
      {
        var page := left;
        if left >= 256 {
          page := 256;
          left := left - 256;
        }
        LeftStep(len, i);
        PageInRange(addr, len, i);
        WrittenNext(old(chip.mem), addr, len, buf, i);
        WritePage(addr + i * 256, page, buf, 64 * i);
        i := i + 1;
      }
      if Fits(addr, len) { WrittenIsRange(old(chip.mem), addr, len, buf, count); }
    }

    /** One 32-bit transfer of spiFlashRead, swapped and stored as little-endian word i of the buffer. */
    method ReadWord(out: array<Byte>, i: nat, ghost addr: nat, ghost out0: seq<Byte>)
      requires Streaming(chip) && Cursor(chip) == addr + 4 * i && addr + 4 * i + 4 <= SIZE
      requires 4 * i + 4 <= out.Length == |out0| && |chip.mem| == SIZE && out[..] == Filled(chip.mem, addr, 4 * i, out0)
      modifies this, out
      ensures chip == old(chip).(frame := chip.frame) && Streaming(chip) && Cursor(chip) == addr + 4 * i + 4
      ensures out[..] == Filled(chip.mem, addr, 4 * i + 4, out0)
    {
      hide Shift, Streaming, Cursor, Byte0, Byte1, Byte2, Byte3, Filled;
      ReadStep(chip, [0xFF, 0xFF, 0xFF, 0xFF]);
      ghost var start, mem, was := addr + 4 * i, chip.mem, out[..];
      WordStep(was, mem, addr, 4 * i, out0);
      Transfer([0xFF, 0xFF, 0xFF, 0xFF]);
      assert rx == mem[start..start + 4];
      var w := Unswap(rx);
      StoreWord(out, 4 * i, w, rx);
    }

    /** `*buf++ = w`: the four bytes of w in little-endian order. */
    method StoreWord(out: array<Byte>, at: nat, w: Word, ghost bytes: seq<Byte>)
      requires at + 4 <= out.Length && bytes == [Byte0(w), Byte1(w), Byte2(w), Byte3(w)]
      modifies out
      ensures out[..] == old(out[..])[..at] + bytes + old(out[..])[at + 4..]
    {
      hide Byte0, Byte1, Byte2, Byte3;
      out[at] := Byte0(w);
      out[at + 1] := Byte1(w);
      out[at + 2] := Byte2(w);
      out[at + 3] := Byte3(w);
    }

    /** spiFlashRead: the first `len` bytes of the caller's buffer become the flash contents. */
    method Read(addr: Word, len: Word, out: array<Byte>)
      requires Resting(chip) && AllProper(chip.log, inPage)
      requires addr < SIZE && addr + len <= SIZE && len <= out.Length
      modifies this, out
      ensures Resting(chip) && AllProper(chip.log, inPage)
              && chip == old(chip).(selected := false, frame := [], log := chip.log)
      ensures out[..] == chip.mem[addr..addr + len] + old(out[..])[len..]
    {
      hide Streaming, Cursor, Resting, AllProper;
      BeginRead(addr);
      ghost var out0 := out[..];
      ReadWords(out, len / 4, addr);
      if len % 4 != 0 {
        ReadTail(out, 4 * (len / 4), len, addr, out0);
      }
      EndRead();
    }

    /** The word loop of spiFlashRead. */
    method ReadWords(out: array<Byte>, n: nat, ghost addr: nat)
      requires Streaming(chip) && Cursor(chip) == addr && addr + 4 * n <= SIZE && 4 * n <= out.Length
      requires |chip.mem| == SIZE
      modifies this, out
      ensures chip == old(chip).(frame := chip.frame) && Streaming(chip) && Cursor(chip) == addr + 4 * n
      ensures out[..] == Filled(chip.mem, addr, 4 * n, old(out[..]))
    {
      ghost var out0 := out[..];
      assert Filled(chip.mem, addr, 0, out0) == out0;
      hide Filled, Streaming, Cursor;
      var i := 0;
      while i < n
        invariant 0 <= i <= n
        invariant chip == old(chip).(frame := chip.frame) && Streaming(chip) && Cursor(chip) == addr + 4 * i
        invariant out[..] == Filled(chip.mem, addr, 4 * i, out0)
      {
        ReadWord(out, i, addr, out0);
        i := i + 1;
      }
    }

    /** The read command: afterwards the chip streams from `addr`. */
    method BeginRead(addr: Word)
      requires Resting(chip) && addr < SIZE
      modifies this
      ensures chip == old(chip).(selected := true, frame := chip.frame) && Streaming(chip) && Cursor(chip) == addr
      ensures |chip.mem| == SIZE
    {
      Command24(0x03, addr);
      AddressOf(0x03, addr);
    }

    method EndRead()
      requires Streaming(chip) && AllProper(chip.log, inPage)
      modifies this
      ensures Resting(chip) && AllProper(chip.log, inPage)
      ensures chip == old(chip).(selected := false, frame := [], log := chip.log)
    {
      var _ := DeselectChip();
    }

    /** The byte loop at the end of spiFlashRead. */
    method ReadTail(out: array<Byte>, first: nat, len: nat, ghost addr: nat, ghost out0: seq<Byte>)
      requires Streaming(chip) && Cursor(chip) == addr + first && first <= len && addr + len <= SIZE
      requires len <= out.Length == |out0| && out[..] == chip.mem[addr..addr + first] + out0[first..]
      modifies this, out
      ensures chip == old(chip).(frame := chip.frame) && Streaming(chip)
      ensures out[..] == chip.mem[addr..addr + len] + out0[len..]
    {
      var k := first;
      while k < len
        invariant first <= k <= len
        invariant chip == old(chip).(frame := chip.frame) && Streaming(chip) && Cursor(chip) == addr + k
        invariant out[..] == chip.mem[addr..addr + k] + out0[k..]
      {
        ReadStep(chip, [0xFF]);
        ghost var was := out[..];
        TransferOne();
        out[k] := rx[0];
        assert out[..] == was[k := chip.mem[addr + k]];
        TailStep(was, chip.mem, addr, k, out0);
        k := k + 1;
      }
    }

    /** An 8-bit transfer that clocks in the next byte. */
    method TransferOne()
      requires Streaming(chip) && Cursor(chip) < SIZE
      modifies this
      ensures chip == old(chip).(frame := chip.frame) && Streaming(chip) && Cursor(chip) == old(Cursor(chip)) + 1
      ensures rx == [chip.mem[old(Cursor(chip))]]
    {
      ReadStep(chip, [0xFF]);
      hide Shift;
      Transfer([0xFF]);
    }
  }

  /** Writing to a blank range and reading it back returns the bytes that were written, whenever the bytes
      asked for stay in their page (FlashMap.RoundTripExactly); other bytes are unchanged if the words do. */
  method WriteThenRead(d: Driver, addr: Word, len: Word, buf: seq<Word>, out: array<Byte>)
    requires Resting(d.chip) && AllProper(d.chip.log, d.inPage)
    requires Words(len) <= |buf| && addr < SIZE && addr + 4 * Words(len) <= SIZE && len <= out.Length
    requires BytesFit(addr, len) && (d.inPage ==> Fits(addr, len)) && Blank(d.chip.mem, addr, len)
    modifies d, out
    ensures out[..len] == BufBytes(buf)[..len]
    ensures forall k | 0 <= k < len :: out[k] == buf[k / 4] / [1, 0x100, 0x1_0000, 0x100_0000][k % 4] % 0x100
    ensures Resting(d.chip) && AllProper(d.chip.log, d.inPage)
    ensures Fits(addr, len) ==>
              forall a | 0 <= a < SIZE && !(addr <= a < addr + 4 * Words(len)) :: d.chip.mem[a] == old(d.chip.mem)[a]
  {
    hide BufBytes, Programmed, AllProper, Written, Blank, BytesFit;
    HoldsIfFits(d.chip.mem, addr, len, buf);
    d.Write(addr, len, buf);
    d.Read(addr, len, out);
    forall k | 0 <= k < len ensures out[k] == buf[k / 4] / [1, 0x100, 0x1_0000, 0x100_0000][k % 4] % 0x100 {
      assert out[k] == out[..len][k] == BufBytes(buf)[..len][k];
      BufInNumbers(buf, k);
    }
  }

  // ---- Any run of calls ----

  /** One call of the driver. */
  datatype Call = EraseSectors(addr: Word, count: Word) | EraseChip | WriteBytes(addr: Word, len: Word, buf: seq<Word>)
                | ReadBytes(addr: Word, len: Word)

  predicate InRange(c: Call, inPage: bool) {
    match c
    case EraseSectors(addr, count) => addr % BLOCK == 0 ==> addr + count * BLOCK <= SIZE
    case EraseChip => true
    case WriteBytes(addr, len, buf) =>
      Words(len) <= |buf| && addr + 4 * Words(len) <= SIZE && (inPage ==> Fits(addr, len))
    case ReadBytes(addr, len) => addr < SIZE && addr + len <= SIZE
  }

  /** The contents after a call. */
  function AfterCall(mem: seq<Byte>, c: Call): (m: seq<Byte>)
    requires InRange(c, false)
    ensures |mem| == SIZE ==> |m| == SIZE
  {
    match c
    case EraseSectors(addr, count) => if addr % BLOCK == 0 then Erased(mem, addr, count) else mem
    case EraseChip => seq(SIZE, _ => 0xFF)
    case WriteBytes(addr, len, buf) => Written(mem, addr, len, buf, Pages(len))
    case ReadBytes(_, _) => mem
  }

  function AfterAll(mem: seq<Byte>, cs: seq<Call>): (m: seq<Byte>)
    requires forall c | c in cs :: InRange(c, false)
    ensures |mem| == SIZE ==> |m| == SIZE
  {
    if cs == [] then mem else AfterCall(AfterAll(mem, cs[..|cs| - 1]), cs[|cs| - 1])
  }

  /** Over any run of calls every command on the wire is proper, the chip rests between calls with the
      write-enable latch clear, and the contents are those of the calls in order. */
  method RunCalls(d: Driver, cs: seq<Call>)
    requires Resting(d.chip) && !d.chip.wel && AllProper(d.chip.log, d.inPage)
    requires forall c | c in cs :: InRange(c, d.inPage) && InRange(c, false)
    modifies d
    ensures Resting(d.chip) && !d.chip.wel && AllProper(d.chip.log, d.inPage)
    ensures d.chip.mem == AfterAll(old(d.chip.mem), cs)
  {
    hide AllProper, Resting, AfterCall, InRange;
    var i := 0;
    while i < |cs|
      invariant 0 <= i <= |cs| && Resting(d.chip) && !d.chip.wel && AllProper(d.chip.log, d.inPage)
      invariant d.chip.mem == AfterAll(old(d.chip.mem), cs[..i])
    {
      assert cs[i] in cs;
      assert cs[..i + 1][..i] == cs[..i];
      RunCall(d, cs[i]);
      i := i + 1;
    }
    assert cs[..i] == cs;
  }

  method RunCall(d: Driver, c: Call)
    requires Resting(d.chip) && !d.chip.wel && AllProper(d.chip.log, d.inPage)
    requires InRange(c, d.inPage) && InRange(c, false)
    modifies d
    ensures Resting(d.chip) && !d.chip.wel && AllProper(d.chip.log, d.inPage)
    ensures d.chip.mem == AfterCall(old(d.chip.mem), c)
  {
    hide AllProper, Resting, Erased, Written;
    match c {
      case EraseSectors(addr, count) =>
        var _ := d.EraseSector(addr, count);
      case EraseChip => d.EraseAll();
      case WriteBytes(addr, len, buf) => d.Write(addr, len, buf);
      case ReadBytes(addr, len) =>
        var out := new Byte[len];
        d.Read(addr, len, out);
    }
  }

  // ---- Helpers of the write path ----

  lemma AddressOf(op: Byte, addr: Word)
    requires addr < SIZE
    ensures Address([op] + Wire24(addr)) == addr
  {
    var h := addr / 0x100;
    assert addr == h * 0x100 + addr % 0x100 && addr / 0x1_0000 == h / 0x100;
    assert h == h / 0x100 * 0x100 + h % 0x100;
  }

  lemma SwapWire(w: Word)
    ensures Swap(w) < TWO32 && Wire32(Swap(w)) == [Byte0(w), Byte1(w), Byte2(w), Byte3(w)]
  {
    hide Swap;
    SwapIs(w);
    JoinBytes(Byte0(w), Byte1(w), Byte2(w), Byte3(w));
  }

  lemma BufNone(buf: seq<Word>, start: nat)
    requires start <= |buf|
    ensures BufBytes(buf[start..start]) == []
  {
    assert buf[start..start] == [];
  }

  lemma BufNext(buf: seq<Word>, start: nat, k: nat)
    requires start + k < |buf|
    ensures var w := buf[start + k];
            BufBytes(buf[start..start + k + 1]) == BufBytes(buf[start..start + k]) +
              [Byte0(w), Byte1(w), Byte2(w), Byte3(w)]
  {
    hide BufBytes;
    BufAppend(buf[start..start + k], buf[start + k]);
    assert buf[start..start + k + 1] == buf[start..start + k] + [buf[start + k]];
  }

  lemma BufLength(buf: seq<Word>, start: nat, k: nat)
    requires start + k <= |buf|
    ensures |BufBytes(buf[start..start + k])| == 4 * k
  {
  }

  lemma QuietData(c0: Chip, addr: Word, data: seq<Byte>, more: seq<Byte>)
    requires |c0.mem| == SIZE && c0.selected
    ensures var c := c0.(frame := [0x02] + Wire24(addr) + data);
            Shift(c, more).0 == c0.(frame := [0x02] + Wire24(addr) + (data + more))
  {
    hide Wire24;
    var c := c0.(frame := [0x02] + Wire24(addr) + data);
    assert [0x02] + Wire24(addr) + data + more == [0x02] + Wire24(addr) + (data + more);
    ShiftQuiet(c, more);
  }

  /** The operation started by a program frame. */
  lemma ProgramFrame(addr: Word, data: seq<Byte>, mem: seq<Byte>)
    requires addr < SIZE && |data| >= 4
    ensures var f := [0x02] + Wire24(addr) + data;
            && Address(f) == addr && |f| == 4 + |data| && f[0] == 0x02
            && Started(mem, f) == PageProgram(mem, addr, data)
  {
    hide PageProgram;
    var f := [0x02] + Wire24(addr) + data;
    AddressOf(0x02, addr);
    assert f[4..] == data;
  }

  // ---- Helpers of the read path ----

  lemma ReadStep(c: Chip, bytes: seq<Byte>)
    requires Streaming(c) && Cursor(c) + |bytes| <= SIZE
    ensures var r := Shift(c, bytes);
            && r.0 == c.(frame := c.frame + bytes) && Streaming(r.0) && Cursor(r.0) == Cursor(c) + |bytes|
            && r.1 == c.mem[Cursor(c)..Cursor(c) + |bytes|]
  {
    hide Exchange, Address;
    ShiftReads(c, bytes);
    StreamOn(c, bytes);
    var p, out := Cursor(c), Shift(c, bytes).1;
    hide Shift, Cursor, Streaming;
    forall k | 0 <= k < |bytes| ensures out[k] == c.mem[p + k] {
      assert (p + k) % SIZE == p + k;
    }
  }

  lemma StreamOn(c: Chip, bytes: seq<Byte>)
    requires Streaming(c)
    ensures var d := c.(frame := c.frame + bytes); Streaming(d) && Cursor(d) == Cursor(c) + |bytes|
  {
    assert Address(c.frame + bytes) == Address(c.frame);
  }

  /** The word captured from four received bytes, swapped back into memory order. */
  method Unswap(rx: seq<Byte>) returns (w: Word)
    requires |rx| == 4
    ensures rx == [Byte0(w), Byte1(w), Byte2(w), Byte3(w)]
  {
    JoinBytes(rx[0], rx[1], rx[2], rx[3]);
    var u32Tmp := Join(rx[0], rx[1], rx[2], rx[3]);
    SwapBytes(u32Tmp);
    hide Swap, Join;
    w := Swap(u32Tmp);
  }

  lemma SwapBytes(w: Word)
    ensures Swap(w) < TWO32
    ensures Byte0(Swap(w)) == Byte3(w) && Byte1(Swap(w)) == Byte2(w)
    ensures Byte2(Swap(w)) == Byte1(w) && Byte3(Swap(w)) == Byte0(w)
  {
    hide Swap;
    SwapIs(w);
    JoinBytes(Byte0(w), Byte1(w), Byte2(w), Byte3(w));
  }

  lemma WordStep(was: seq<Byte>, mem: seq<Byte>, addr: nat, k: nat, out0: seq<Byte>)
    requires addr + k + 4 <= |mem| && k + 4 <= |out0| && was == Filled(mem, addr, k, out0)
    ensures was[..k] + mem[addr + k..addr + k + 4] + was[k + 4..] == Filled(mem, addr, k + 4, out0)
  {
  }

  lemma TailStep(was: seq<Byte>, mem: seq<Byte>, addr: nat, k: nat, out0: seq<Byte>)
    requires addr + k < |mem| && k < |out0| && was == mem[addr..addr + k] + out0[k..]
    ensures was[k := mem[addr + k]] == mem[addr..addr + k + 1] + out0[k + 1..]
  {
  }

  lemma StatusStep(c: Chip)
    requires |c.mem| == SIZE && c.selected && c.frame != [] && c.frame[0] == 0x05
    ensures var (d, out) := Shift(c, [0xFF]);
            && d.mem == c.mem && d.selected && d.log == c.log && d.frame == c.frame + [0xFF]
            && (And(out[0], 0x01) == 0x01 <==> c.wip && c.busy > 0)
            && (c.wip && c.busy > 0 ==> d.wip && d.wel == c.wel && d.busy < c.busy)
            && (!(c.wip && c.busy > 0) ==> !d.wip && d.wel == (c.wel && !c.wip))
  {
    assert Shift(c, [0xFF]).0 == Exchange(c, 0xFF).0 && Shift(c, [0xFF]).1 == [Exchange(c, 0xFF).1];
    StatusBits();
  }

  lemma StatusBits()
    ensures And(0, 1) == 0 && And(1, 1) == 1 && And(2, 1) == 0 && And(3, 1) == 1
  {
  }
}
