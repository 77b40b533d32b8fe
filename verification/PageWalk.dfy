/** The hardware side of the MMU: physical memory, the page-table walk of the ARM Architecture
    Reference Manual (ARM DDI 0100, section B4.7), and loads and stores made through it. */
module PageWalk {
  import opened Bits

  const MB: nat := 0x10_0000
  const PAGE: nat := 0x1000
  const SHADOW: nat := 0x8000_0000

  /** Words of physical memory by byte address. */
  type Memory = map<nat, Word>

  function Read(mem: Memory, a: nat): Word {
    if a in mem then mem[a] else 0
  }

  /** Word i of a table at `base`. */
  function Entry(mem: Memory, base: nat, i: nat): Word {
    Read(mem, base + 4 * i)
  }

  /** `Unsupported` stands for descriptor kinds that this software never writes
      (fine tables, large and tiny pages). `cb` holds the C and B bits. */
  datatype Translation = Fault | Unsupported | Mapped(pa: Word, domain: nat, ap: nat, cb: nat)

  /** Access permission of the 1 KB subpage of a small page that `va` falls into. */
  function SubpageAp(t: Word, va: Word): nat {
    match va / 0x400 % 4
    case 0 => t / 0x10 % 4
    case 1 => t / 0x40 % 4
    case 2 => t / 0x100 % 4
    case _ => t / 0x400 % 4
  }

  /** The high bits of `w` above a block of `size` bytes, joined with the offset of `va` in it. */
  function Splice(w: Word, va: Word, size: nat): (pa: Word)
    requires size == MB || size == PAGE
  {
    if size == MB then w / 0x10_0000 * 0x10_0000 + va % 0x10_0000 else w / 0x1000 * 0x1000 + va % 0x1000
  }

  function SmallPage(d: Word, t: Word, va: Word): Translation {
    match t % 4
    case 0 => Fault
    case 2 => Mapped(Splice(t, va, PAGE), d / 0x20 % 16, SubpageAp(t, va), t / 4 % 4)
    case _ => Unsupported
  }

  function Walk(mem: Memory, ttb: Word, va: Word): Translation {
    var d := Entry(mem, ttb / 0x4000 * 0x4000, va / MB);
    match d % 4
    case 0 => Fault
    case 2 => Mapped(Splice(d, va, MB), d / 0x20 % 16, d / 0x400 % 4, d / 4 % 4)
    case 1 => SmallPage(d, Entry(mem, d / 0x400 * 0x400, va / PAGE % 256), va)
    case _ => Unsupported
  }

  /** The processor's view of memory. `dcache` holds words that a write-back store has not yet put
      into memory; the table walker reads memory only. */
  datatype Bus = Bus(mem: Memory, dcache: Memory, on: bool, ttb: Word)

  function Load(bus: Bus, va: Word): Word {
    if !bus.on then Read(bus.mem, va)
    else match Walk(bus.mem, bus.ttb, va)
      case Mapped(pa, _, _, cb) =>
        if cb >= 2 && pa in bus.dcache then bus.dcache[pa] else Read(bus.mem, pa)
      case _ => 0
  }

  /** C = 1 with B = 1 is write-back: the store stays in the cache. C = 1 with B = 0 is
      write-through. A store that faults has no effect. */
  function Store(bus: Bus, va: Word, w: Word): Bus {
    if !bus.on then bus.(mem := bus.mem[va as nat := w])
    else match Walk(bus.mem, bus.ttb, va)
      case Mapped(pa, _, _, cb) =>
        var b := if cb >= 2 then bus.(dcache := bus.dcache[pa as nat := w]) else bus;
        if cb == 3 then b else b.(mem := bus.mem[pa as nat := w])
      case _ => bus
  }
}
