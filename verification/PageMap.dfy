/** What the tables built by wb_mmu.c mean: descriptors, the mathematical address map, and the
    proof that the hardware walk of correctly filled tables is that map, for every address. */
module PageMap {
  import opened Bits
  import opened Division
  import opened PageWalk

  const COARSE_MB: nat := 64
  const TABLE_BYTES: nat := 0x1_0000

  /** Where the three tables lie, how many MB are mapped, and whether MB 1 and up are reversed. */
  datatype Tables = Tables(section: Word, coarse: Word, shadow: Word, size: nat, inverse: bool)

  ghost predicate Layout(t: Tables) {
    && t.section % 0x4000 == 0 && t.coarse % 0x400 == 0 && t.shadow % 0x400 == 0
    && t.section + 0x4000 <= SHADOW && t.coarse + TABLE_BYTES <= SHADOW && t.shadow + TABLE_BYTES <= SHADOW
    && (t.section + 0x4000 <= t.coarse || t.coarse + TABLE_BYTES <= t.section)
    && (t.section + 0x4000 <= t.shadow || t.shadow + TABLE_BYTES <= t.section)
    && (t.coarse + TABLE_BYTES <= t.shadow || t.shadow + TABLE_BYTES <= t.coarse)
    && 1 <= t.size <= COARSE_MB
  }

  /** The coarse tables of one view as a single array of 64 * 256 page entries. */
  function TableOf(t: Tables, shadowView: bool): Word {
    if shadowView then t.shadow else t.coarse
  }

  /** Cache bits (0, 8 or 12) of each mapped page, in each view. */
  datatype Attrs = Attrs(low: seq<nat>, shadow: seq<nat>)

  function AttrsOf(a: Attrs, shadowView: bool): seq<nat> {
    if shadowView then a.shadow else a.low
  }

  predicate CacheBits(cm: nat) {
    cm == 0 || cm == 8 || cm == 12
  }

  ghost predicate AttrsOk(a: Attrs, t: Tables) {
    && |a.low| == |a.shadow| == t.size * 256
    && (forall q | 0 <= q < |a.low| :: CacheBits(a.low[q]))
    && (forall q | 0 <= q < |a.shadow| :: CacheBits(a.shadow[q]))
  }

  function CacheMode(flag: int): (cm: nat)
    ensures CacheBits(cm)
  {
    if flag == 0 then 0x0C else if flag == 1 then 0x08 else 0
  }

  // ---- Descriptors, as the source assembles them ----

  function FlatWord(i: nat): (w: Word)
    requires i < 4096
    ensures w == i * MB + 0xDF2
  {
    FlatBits(i);
    Or(Or(Or(Or(Or(0xC00, 0x1E0), 0x10), 0x00), 0x02), Shl(i, 20))
  }

  lemma FlatBits(i: nat)
    ensures Or(Or(Or(Or(Or(0xC00, 0x1E0), 0x10), 0x00), 0x02), Shl(i, 20)) == i * MB + 0xDF2
  {
    SectionAttributes();
    ShlValues(1);
    ShlValues(i);
    OrAdds(i, 0xDF2, 20);
  }

  lemma SectionAttributes()
    ensures Or(Or(Or(Or(0xC00, 0x1E0), 0x10), 0x00), 0x02) == 0xDF2
  {
    ShlValues(1);
    ShlValues(3);
    OrAdds(3, 0x1E0, 10);
    ShlValues(0x6F);
    OrAdds(0x6F, 0x10, 5);
    ShlValues(0xDF);
    OrAdds(0xDF, 0x02, 4);
  }

  function CoarseWord(base: Word): (w: Word)
    requires base % 0x400 == 0 && base < SHADOW
    ensures w == base + 0x1F1
  {
    CoarseBits(base);
    Or(Or(Or(And(base, 0xFFFF_FC00), 0x1E0), 0x10), 0x01)
  }

  lemma CoarseBits(base: Word)
    requires base % 0x400 == 0
    ensures Or(Or(Or(And(base, 0xFFFF_FC00), 0x1E0), 0x10), 0x01) == base + 0x1F1
  {
    hide And, Or;
    var b := base / 0x400;
    ShlValues(1);
    ShlValues(b);
    ShlValues(0x3F_FFFF);
    AndHigh(b, 0, 22, 10);
    OrLow(b, 0, 0x1E0, 10);
    OrZero(0x1E0);
    CoarseAttributes();
    OrLow(b, 0x1E0, 0x10, 10);
    OrLow(b, 0x1F0, 0x01, 10);
  }

  lemma CoarseAttributes()
    ensures Or(0x1E0, 0x10) == 0x1F0 && Or(0x1F0, 0x01) == 0x1F1
  {
    ShlValues(1);
    ShlValues(0xF);
    OrAdds(0xF, 0x10, 5);
    ShlValues(0x1F);
    OrAdds(0x1F, 0x01, 4);
  }

  function PageWord(phy: Word, cm: nat): (w: Word)
    requires CacheBits(cm)
    ensures w == phy / PAGE * PAGE + 0xFF2 + cm
  {
    PageBits(phy, cm);
    PageBound(phy, cm);
    Or(Or(Or(And(phy, 0xFFFF_F000), 0xFF0), cm), 0x02)
  }

  lemma PageBound(phy: Word, cm: nat)
    requires CacheBits(cm)
    ensures phy / PAGE * PAGE + 0xFF2 + cm < TWO32
  {
  }

  lemma PageBits(phy: Word, cm: nat)
    requires CacheBits(cm)
    ensures Or(Or(Or(And(phy, 0xFFFF_F000), 0xFF0), cm), 0x02) == phy / PAGE * PAGE + 0xFF2 + cm
  {
    hide And, Or;
    var b := phy / PAGE;
    ShlValues(1);
    ShlValues(b);
    PageFrameBits(phy);
    OrLow(b, 0, 0xFF0, 12);
    OrZero(0xFF0);
    PageAttributes(cm);
    OrLow(b, 0xFF0, cm, 12);
    OrLow(b, 0xFF0 + cm, 0x02, 12);
  }

  lemma PageFrameBits(w: Word)
    ensures And(w, 0xFFFF_F000) == w / PAGE * PAGE
  {
    hide And, Or;
    ShlValues(1);
    ShlValues(w / PAGE);
    ShlValues(0xF_FFFF);
    AndHigh(w / PAGE, w % PAGE, 20, 12);
  }

  lemma PageAttributes(cm: nat)
    requires CacheBits(cm)
    ensures Or(0xFF0, cm) == 0xFF0 + cm && Or(0xFF0 + cm, 0x02) == 0xFF2 + cm
  {
    hide And, Or;
    ShlValues(1);
    ShlValues(0xFF);
    OrAdds(0xFF, cm, 4);
    ShlValues(0x3FC + cm / 4);
    OrAdds(0x3FC + cm / 4, 0x02, 2);
  }

  /** Clearing bits 3:2 of a page entry and setting them anew changes the cache bits and nothing else. */
  lemma RecacheBits(phy: Word, oldMode: nat, cm: nat)
    requires CacheBits(oldMode) && CacheBits(cm)
    ensures Or(And(PageWord(phy, oldMode), 0xFFFF_FFF3), cm) == PageWord(phy, cm)
  {
    hide And, Or;
    var b := phy / PAGE;
    ShlValues(1);
    ShlValues(b);
    ShlValues(0xF_FFFF);
    AndJoin(b, 0xFF2 + oldMode, 0xF_FFFF, 0xFF3, 12);
    AndOnes(b, 20);
    RecacheAttributes(oldMode, cm);
    OrLow(b, 0xFF2, cm, 12);
  }

  lemma RecacheAttributes(oldMode: nat, cm: nat)
    requires CacheBits(oldMode) && CacheBits(cm)
    ensures And(0xFF2 + oldMode, 0xFF3) == 0xFF2 && Or(0xFF2, cm) == 0xFF2 + cm
  {
    hide And, Or;
    ClearedAttributes(oldMode);
    ShlValues(1);
    ShlValues(0xFF);
    OrLow(0xFF, 2, cm, 4);
    ShlValues(cm / 4);
    OrAdds(cm / 4, 2, 2);
  }

  lemma ClearedAttributes(oldMode: nat)
    requires CacheBits(oldMode)
    ensures And(0xFF2 + oldMode, 0xFF3) == 0xFF2
  {
    hide And;
    ShlValues(1);
    ShlValues(0xFF);
    AndJoin(0xFF, 2 + oldMode, 0xFF, 3, 4);
    AndOnes(0xFF, 8);
    ShlValues(oldMode / 4);
    AndLow(oldMode / 4, 2, 2);
  }

  // ---- The address map ----

  /** Physical page of virtual page q: the page itself, or its mirror image within the same MB. */
  function Frame(inverse: bool, q: nat): nat {
    if q < 256 || !inverse then q else q / 256 * 256 + (255 - q % 256)
  }

  lemma FrameBound(t: Tables, q: nat)
    requires t.size <= COARSE_MB && q < t.size * 256
    ensures Frame(t.inverse, q) < t.size * 256
  {
  }

  /** Physical address of virtual page q. */
  function PageBase(t: Tables, q: nat): (w: Word)
    requires t.size <= COARSE_MB && q < t.size * 256
    ensures w % PAGE == 0
  {
    FrameBound(t, q);
    Frame(t.inverse, q) * PAGE
  }

  /** The mapped window of a virtual address: its MB number below the mapped size, in either view. */
  predicate InWindow(t: Tables, va: Word) {
    va % SHADOW / MB < t.size
  }

  /** The intended map of all 2^32 addresses. */
  function Phys(t: Tables, va: Word): (pa: Word)
    requires t.size <= COARSE_MB
    ensures InWindow(t, va) ==> pa < t.size * MB
  {
    if InWindow(t, va) then Frame(t.inverse, va % SHADOW / PAGE) * PAGE + va % PAGE else va
  }

  function Cb(t: Tables, a: Attrs, va: Word): nat
    requires |a.low| == |a.shadow| == t.size * 256
  {
    if InWindow(t, va) then AttrsOf(a, va >= SHADOW)[va % SHADOW / PAGE] / 4 else 0
  }

  /** Section entry i when the first `low` MB and the first `high` MB of the shadow view use coarse tables. */
  function SectionAt(t: Tables, low: nat, high: nat, i: nat): Word
    requires t.coarse + TABLE_BYTES <= SHADOW && t.shadow + TABLE_BYTES <= SHADOW
    requires i < 4096 && low <= COARSE_MB && high <= COARSE_MB
  {
    if i < low then t.coarse + 0x400 * i + 0x1F1
    else if 0x800 <= i < 0x800 + high then t.shadow + 0x400 * (i - 0x800) + 0x1F1
    else i * MB + 0xDF2
  }

  function SectionWord(t: Tables, i: nat): Word
    requires t.coarse + TABLE_BYTES <= SHADOW && t.shadow + TABLE_BYTES <= SHADOW
    requires i < 4096 && t.size <= COARSE_MB
  {
    SectionAt(t, t.size, t.size, i)
  }

  /** Memory holds the tables for map `t` with page attributes `a`. */
  ghost predicate Built(mem: Memory, t: Tables, a: Attrs) {
    && Layout(t) && AttrsOk(a, t)
    && (forall i | 0 <= i < 4096 :: Entry(mem, t.section, i) == SectionWord(t, i))
    && PagesBuilt(mem, t, a, false) && PagesBuilt(mem, t, a, true)
  }

  ghost predicate PagesBuilt(mem: Memory, t: Tables, a: Attrs, shadowView: bool)
    requires Layout(t) && AttrsOk(a, t)
  {
    forall q | 0 <= q < t.size * 256 ::
      Entry(mem, TableOf(t, shadowView), q) == PageWord(PageBase(t, q), AttrsOf(a, shadowView)[q])
  }

  // ---- The walk, level by level ----

  lemma FlatFields(i: nat)
    ensures var d := i * MB + 0xDF2;
            d % 4 == 2 && d / 0x20 % 16 == 15 && d / 0x400 % 4 == 3 && d / 4 % 4 == 0 && d / MB == i
  {
    FlatLow(i);
    FlatHigh(i);
  }

  lemma FlatLow(i: nat)
    ensures var d := i * MB + 0xDF2; d % 4 == 2 && d / 4 % 4 == 0
  {
    QuotRem(i * MB + 0xDF2, 4, i * 0x4_0000 + 0x37C, 2);
    QuotRem(i * 0x4_0000 + 0x37C, 4, i * 0x1_0000 + 0xDF, 0);
  }

  lemma FlatHigh(i: nat)
    ensures var d := i * MB + 0xDF2; d / 0x20 % 16 == 15 && d / 0x400 % 4 == 3 && d / MB == i
  {
    QuotRem(i * MB + 0xDF2, 0x20, i * 0x8000 + 0x6F, 0x12);
    QuotRem(i * 0x8000 + 0x6F, 16, i * 0x800 + 6, 15);
    QuotRem(i * MB + 0xDF2, 0x400, i * 0x400 + 3, 0x1F2);
    QuotRem(i * 0x400 + 3, 4, i * 0x100, 3);
    QuotRem(i * MB + 0xDF2, MB, i, 0xDF2);
  }

  lemma CoarseFields(c: nat)
    ensures var d := 0x400 * c + 0x1F1;
            d % 4 == 1 && d / 0x20 % 16 == 15 && d / 0x400 * 0x400 == 0x400 * c
  {
    QuotRem(0x400 * c + 0x1F1, 4, 0x100 * c + 0x7C, 1);
    QuotRem(0x400 * c + 0x1F1, 0x20, 0x20 * c + 15, 0x11);
    QuotRem(0x20 * c + 15, 16, 2 * c, 15);
    QuotRem(0x400 * c + 0x1F1, 0x400, c, 0x1F1);
  }

  lemma PageFields(f: nat, cm: nat, va: Word)
    requires CacheBits(cm) && f * PAGE < TWO32
    ensures var t: nat := f * PAGE + 0xFF2 + cm;
            t < TWO32 && t % 4 == 2 && t / 4 % 4 == cm / 4 && SubpageAp(t, va) == 3 && t / PAGE == f
  {
    hide SubpageAp;
    PageLowFields(f, cm);
    var t: nat := f * PAGE + 0xFF2 + cm;
    SubpageFields(f, cm, t);
    AnySubpage(t, va);
  }

  lemma AnySubpage(t: Word, va: Word)
    requires t / 0x10 % 4 == 3 && t / 0x40 % 4 == 3 && t / 0x100 % 4 == 3 && t / 0x400 % 4 == 3
    ensures SubpageAp(t, va) == 3
  {
  }

  lemma PageLowFields(f: nat, cm: nat)
    requires CacheBits(cm)
    ensures var t := f * PAGE + 0xFF2 + cm; t % 4 == 2 && t / 4 % 4 == cm / 4 && t / PAGE == f
  {
    var t, c := f * PAGE + 0xFF2 + cm, if cm == 0 then 0 else if cm == 8 then 2 else 3;
    QuotRem(t, 4, f * 0x400 + 0x3FC + c, 2);
    QuotRem(f * 0x400 + 0x3FC + c, 4, f * 0x100 + 0xFF, c);
    PageHighField(f, cm, t);
  }

  lemma PageHighField(f: nat, cm: nat, t: nat)
    requires CacheBits(cm) && t == f * PAGE + 0xFF2 + cm
    ensures t / PAGE == f
  {
    QuotRem(t, PAGE, f, 0xFF2 + cm);
  }

  lemma SubpageFields(f: nat, cm: nat, t: nat)
    requires CacheBits(cm) && t == f * PAGE + 0xFF2 + cm
    ensures t / 0x10 % 4 == 3 && t / 0x40 % 4 == 3 && t / 0x100 % 4 == 3 && t / 0x400 % 4 == 3
  {
    Ones(t, 0x10, f * 0x40 + 0x3F, 0x2 + cm);
    Ones(t, 0x40, f * 0x10 + 0xF, 0x32 + cm);
    Ones(t, 0x100, f * 4 + 3, 0xF2 + cm);
    Ones(t, 0x400, f, 0x3F2 + cm);
  }

  lemma Ones(t: nat, d: nat, g: nat, r: nat)
    requires d == 0x10 || d == 0x40 || d == 0x100 || d == 0x400
    requires t == d * (4 * g + 3) + r && r < d
    ensures t / d % 4 == 3
  {
    assert d * (4 * g + 3) == (4 * g + 3) * d;
    QuotRem(t, d, 4 * g + 3, r);
    QuotRem(4 * g + 3, 4, g, 3);
  }

  /** Outside the mapped windows the walk ends at a section that maps the address to itself. */
  lemma WalkSection(mem: Memory, t: Tables, va: Word)
    requires t.section % 0x4000 == 0
    requires Entry(mem, t.section, va / MB) == va / MB * MB + 0xDF2
    ensures Walk(mem, t.section, va) == Mapped(va, 15, 3, 0)
  {
    FlatFields(va / MB);
  }

  /** With a coarse descriptor for table c and a small-page entry for frame f, the walk ends in f. */
  lemma WalkSmallPage(mem: Memory, ttb: Word, va: Word, c: nat, f: nat, cm: nat)
    requires CacheBits(cm) && ttb % 0x4000 == 0 && f * PAGE < TWO32
    requires Entry(mem, ttb, va / MB) == 0x400 * c + 0x1F1
    requires Entry(mem, 0x400 * c, va / PAGE % 256) == f * PAGE + 0xFF2 + cm
    ensures f * PAGE + va % PAGE < TWO32
    ensures Walk(mem, ttb, va) == Mapped(f * PAGE + va % PAGE, 15, 3, cm / 4)
  {
    CoarseFields(c);
    PageFields(f, cm, va);
  }

  lemma PageIndex(va: Word)
    ensures va % SHADOW / PAGE == va / MB % 0x800 * 256 + va / PAGE % 256
    ensures va % SHADOW / MB == va / MB % 0x800
    ensures va < SHADOW ==> va / MB < 0x800
    ensures va >= SHADOW ==> va / MB == 0x800 + va / MB % 0x800
  {
    var v := va % SHADOW;
    assert va == v || va == v + SHADOW;
    ViewIndex(va, v);
  }

  lemma ViewIndex(va: Word, v: nat)
    requires v < SHADOW && (va == v || va == v + SHADOW)
    ensures va / MB % 0x800 == v / MB && va / PAGE % 256 == v / PAGE % 256
    ensures v / PAGE == v / MB * 256 + v / PAGE % 256
    ensures va == v + SHADOW ==> va / MB == 0x800 + v / MB
  {
    PageInMegabyte(v);
    if va == v + SHADOW {
      assert va / MB == 0x800 + v / MB;
      assert va / PAGE == 0x8_0000 + v / PAGE;
    }
  }

  lemma PageInMegabyte(v: nat)
    ensures v / PAGE == v / MB * 256 + v / PAGE % 256
  {
    assert v / PAGE / 256 == v / MB;
  }

  /** Entry p of the second-level table of MB `mb` is entry 256 * mb + p of the view's table. */
  lemma SameEntry(mem: Memory, t: Tables, view: bool, mb: nat, p: nat)
    requires Layout(t)
    ensures var c := TableOf(t, view) / 0x400 + mb;
            && TableOf(t, view) + 0x400 * mb == 0x400 * c
            && Entry(mem, 0x400 * c, p) == Entry(mem, TableOf(t, view), mb * 256 + p)
  {
  }

  /** The hardware walk of built tables is total and equals the map on every 32-bit address:
      domain 15, full access, and the cache bits recorded for the page. */
  lemma WalkIsMap(mem: Memory, t: Tables, a: Attrs, va: Word)
    requires Built(mem, t, a)
    ensures Walk(mem, t.section, va) == Mapped(Phys(t, va), 15, 3, Cb(t, a, va))
  {
    PageIndex(va);
    assert Entry(mem, t.section, va / MB) == SectionWord(t, va / MB);
    if InWindow(t, va) {
      WalkInWindow(mem, t, a, va);
    } else {
      WalkSection(mem, t, va);
    }
  }

  lemma WindowSection(t: Tables, va: Word)
    requires Layout(t) && InWindow(t, va)
    ensures SectionWord(t, va / MB) == 0x400 * (TableOf(t, va >= SHADOW) / 0x400 + va / MB % 0x800) + 0x1F1
  {
    PageIndex(va);
  }

  lemma WalkInWindow(mem: Memory, t: Tables, a: Attrs, va: Word)
    requires Built(mem, t, a) && InWindow(t, va)
    requires Entry(mem, t.section, va / MB) == SectionWord(t, va / MB)
    ensures Walk(mem, t.section, va) == Mapped(Phys(t, va), 15, 3, Cb(t, a, va))
  {
    hide Walk, Frame, PageWord, SectionWord, Entry;
    var view, mb, p := va >= SHADOW, va / MB % 0x800, va / PAGE % 256;
    var q := mb * 256 + p;
    PageIndex(va);
    WindowSection(t, va);
    SameEntry(mem, t, view, mb, p);
    PageAt(mem, t, a, view, q);
    FrameBound(t, q);
    WalkSmallPage(mem, t.section, va, TableOf(t, view) / 0x400 + mb, Frame(t.inverse, q), AttrsOf(a, view)[q]);
  }

  lemma PageAt(mem: Memory, t: Tables, a: Attrs, view: bool, q: nat)
    requires Built(mem, t, a) && q < t.size * 256
    ensures CacheBits(AttrsOf(a, view)[q])
    ensures Entry(mem, TableOf(t, view), q) == Frame(t.inverse, q) * PAGE + 0xFF2 + AttrsOf(a, view)[q]
  {
    hide Frame, Entry;
    assert PagesBuilt(mem, t, a, view);
  }
}
