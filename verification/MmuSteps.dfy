/** Single stores into the page tables: what one loop iteration of wb_mmu.c does to them. */
module MmuSteps {
  import opened Bits
  import opened PageWalk
  import opened PageMap
  import opened PageMapProps
  import opened MmuAccess

  // ---- Single stores into the tables ----

  /** Rewriting entry q of a view's table with page word `cm` records `cm` for page q. */
  lemma StorePage(mem: Memory, t: Tables, a: Attrs, view: bool, q: nat, cm: nat, w: Word)
    requires q < 0x4000 && CacheBits(cm) && Built(mem, t, a)
    requires q < t.size * 256 ==> w == PageWord(PageBase(t, q), cm)
    ensures Built(mem[TableOf(t, view) + 4 * q := w], t, Record(a, view, q, q + 1, cm))
  {
    hide PageBase, PageWord, SectionWord, Walk;
    var b := Record(a, view, q, q + 1, cm);
    var mem' := mem[TableOf(t, view) + 4 * q := w];
    RecordOk(t, a, view, q, q + 1, cm);
    StoreKeepsSections(mem, t, TableOf(t, view) + 4 * q, w);
    StoreKeepsView(mem, t, a, !view, TableOf(t, view) + 4 * q, w);
    assert AttrsOf(b, !view) == AttrsOf(a, !view);
    StoreInView(mem, t, a, view, q, cm, w);
    assert PagesBuilt(mem', t, b, false) && PagesBuilt(mem', t, b, true);
  }

  lemma StoreInView(mem: Memory, t: Tables, a: Attrs, view: bool, q: nat, cm: nat, w: Word)
    requires q < 0x4000 && CacheBits(cm) && Layout(t) && AttrsOk(a, t) && PagesBuilt(mem, t, a, view)
    requires q < t.size * 256 ==> w == PageWord(PageBase(t, q), cm)
    ensures AttrsOk(Record(a, view, q, q + 1, cm), t)
    ensures PagesBuilt(mem[TableOf(t, view) + 4 * q := w], t, Record(a, view, q, q + 1, cm), view)
  {
    assert t.size <= COARSE_MB;
    hide PageBase, PageWord, Layout;
    RecordOk(t, a, view, q, q + 1, cm);
    var b := Record(a, view, q, q + 1, cm);
    var mem' := mem[TableOf(t, view) + 4 * q := w];
    forall p | 0 <= p < t.size * 256
      ensures Entry(mem', TableOf(t, view), p) == PageWord(PageBase(t, p), AttrsOf(b, view)[p])
    {
      assert Entry(mem, TableOf(t, view), p) == PageWord(PageBase(t, p), AttrsOf(a, view)[p]);
    }
  }

  lemma StoreKeepsSections(mem: Memory, t: Tables, k: nat, w: Word)
    requires k < t.section || t.section + 0x4000 <= k
    ensures forall i | 0 <= i < 4096 :: Entry(mem[k := w], t.section, i) == Entry(mem, t.section, i)
  {
  }

  lemma StoreKeepsView(mem: Memory, t: Tables, a: Attrs, view: bool, k: nat, w: Word)
    requires Layout(t) && AttrsOk(a, t) && PagesBuilt(mem, t, a, view)
    requires k < TableOf(t, view) || TableOf(t, view) + TABLE_BYTES <= k
    ensures PagesBuilt(mem[k := w], t, a, view)
  {
  }

  // ---- Building the tables, one MB at a time ----

  /** The tables with the first `low` MB of the low view and the first `high` MB of the shadow view done. */
  ghost predicate Partial(mem: Memory, t: Tables, cm: nat, low: nat, high: nat)
    requires Layout(t) && CacheBits(cm) && low <= t.size && high <= t.size
  {
    && (forall i | 0 <= i < 4096 :: Entry(mem, t.section, i) == SectionAt(t, low, high, i))
    && PagesDone(mem, t, false, cm, low)
    && PagesDone(mem, t, true, 0, high)
  }

  ghost predicate PagesDone(mem: Memory, t: Tables, view: bool, cm: nat, n: nat)
    requires Layout(t) && CacheBits(cm) && n <= t.size
  {
    forall q | 0 <= q < n * 256 :: PageDone(mem, t, view, cm, q)
  }

  ghost predicate PageDone(mem: Memory, t: Tables, view: bool, cm: nat, q: nat)
    requires Layout(t) && CacheBits(cm) && q < t.size * 256
  {
    Entry(mem, TableOf(t, view), q) == PageWord(PageBase(t, q), cm)
  }

  function Fresh(t: Tables, cm: nat): Attrs {
    Attrs(seq(t.size * 256, _ => cm), seq(t.size * 256, _ => 0))
  }

  lemma PartialIsBuilt(mem: Memory, t: Tables, cm: nat)
    requires Layout(t) && CacheBits(cm) && Partial(mem, t, cm, t.size, t.size)
    ensures Built(mem, t, Fresh(t, cm))
  {
    hide PageBase, PageWord;
    var a := Fresh(t, cm);
    forall view: bool ensures PagesBuilt(mem, t, a, view) {
      var c := if view then 0 else cm;
      assert PagesDone(mem, t, view, c, t.size);
      forall q | 0 <= q < t.size * 256
        ensures Entry(mem, TableOf(t, view), q) == PageWord(PageBase(t, q), AttrsOf(a, view)[q])
      {
        assert PageDone(mem, t, view, c, q);
      }
    }
  }

  /** Frame written by sysInitPageTable for page k of its range, in the unsigned arithmetic of the source. */
  function FrameOf(phy: Word, size: int, rev: int, k: nat): Word {
    if rev == 0 then Wrap(phy + PAGE * k) else Wrap(phy + size - PAGE - PAGE * k)
  }

  /** Memory outside the words first..last of a table. */
  ghost predicate SameOutside(mem: Memory, mem': Memory, base: nat, first: nat, last: nat) {
    forall a: nat | a < base + 4 * first || base + 4 * last <= a :: Read(mem', a) == Read(mem, a)
  }

  /** The entries that sysInitPageTable writes for pages first..first+cnt. */
  ghost predicate PagesSet(mem: Memory, base: nat, first: nat, cnt: int, phy: Word, size: int, rev: int, cm: nat)
    requires CacheBits(cm)
  {
    forall q | first <= q < first + cnt :: Entry(mem, base, q) == PageWord(FrameOf(phy, size, rev, q - first), cm)
  }

  /** Address of the entry that the source indexes as table_num, page_num. */
  function Slot(base: nat, vbase: nat): (a: nat)
    ensures a == base + 4 * (vbase / PAGE)
  {
    base + 0x400 * (vbase / MB) + 4 * (vbase / PAGE % 256)
  }

  lemma StoreSlot(mem: Memory, base: nat, first: nat, i: nat, phy: Word, size: int, rev: int, cm: nat, w: Word)
    requires CacheBits(cm) && w == PageWord(FrameOf(phy, size, rev, i), cm)
    requires PagesSet(mem, base, first, i, phy, size, rev, cm)
    ensures PagesSet(mem[base + 4 * (first + i) := w], base, first, i + 1, phy, size, rev, cm)
  {
    hide PageWord, FrameOf;
    var mem' := mem[base + 4 * (first + i) := w];
    forall q | first <= q < first + i + 1
      ensures Entry(mem', base, q) == PageWord(FrameOf(phy, size, rev, q - first), cm)
    {
      if q == first + i {
        assert q - first == i;
      } else {
        assert Entry(mem', base, q) == Entry(mem, base, q);
      }
    }
  }

  lemma FrameOfNext(phy: Word, size: int, rev: int, k: nat)
    ensures FrameOf(phy, size, rev, k + 1) == Wrap(FrameOf(phy, size, rev, k) + if rev == 0 then 0x1000 else -0x1000)
  {
    hide Wrap;
    if rev == 0 {
      WrapAdd(phy + PAGE * k, PAGE);
      assert phy + PAGE * k + PAGE == phy + PAGE * (k + 1);
    } else {
      WrapAdd(phy + size - PAGE - PAGE * k, -0x1000);
      assert phy + size - PAGE - PAGE * k - 0x1000 == phy + size - PAGE - PAGE * (k + 1);
    }
  }

  lemma FrameOfFirst(phy: Word, size: int, rev: int)
    ensures FrameOf(phy, size, rev, 0) == if rev == 0 then phy else Wrap(phy + size - PAGE)
  {
  }

  /** Nothing is written for a range without pages. */
  lemma NoPagesSet(mem: Memory, base: nat, first: nat, cnt: int, phy: Word, size: int, rev: int, cm: nat)
    requires CacheBits(cm)
    ensures PagesSet(mem, base, first, 0, phy, size, rev, cm) && SameOutside(mem, mem, base, first, first)
    ensures cnt <= 0 ==> PagesSet(mem, base, first, cnt, phy, size, rev, cm)
  {
  }

  lemma SlotIndex(v: nat, i: nat)
    requires v % PAGE == 0
    ensures (v + i * 4096) / PAGE == v / PAGE + i
  {
  }

  lemma TableBounds(t: Tables)
    requires Layout(t)
    ensures t.section + 0x4000 <= SHADOW && t.coarse + TABLE_BYTES <= SHADOW && t.shadow + TABLE_BYTES <= SHADOW
    ensures t.coarse % 0x400 == 0 && t.shadow % 0x400 == 0
  {
  }

  lemma PageCount(size: int)
    ensures size % 4096 == 0 ==> (size / 4096 > 0 <==> size > 0)
  {
  }

  /** An accepted range stays inside the second-level tables. */
  lemma InTable(v: nat, size: int, i: nat)
    requires v < SHADOW && v % PAGE == 0 && size % 4096 == 0 && i < size / 4096 && size < 0x8000_0000
    requires Wrap(v + size) <= COARSE_MB * MB
    ensures (v + i * 4096) / PAGE == v / PAGE + i < 0x4000 && v + i * 4096 < COARSE_MB * MB
  {
    WrapSmall(v + size);
    SlotIndex(v, i);
  }

  /** The arguments that sysInitMMUTable passes for MB i are accepted and start at page 256 * i. */
  lemma MegabyteStart(i: nat, view: bool)
    requires i < COARSE_MB
    ensures Shl(i, 20) == i * MB && Or(Shl(i, 20), 0x8000_0000) == i * MB + SHADOW
    ensures var va := if view then i * MB + SHADOW else i * MB;
            && va % SHADOW == i * MB && va % SHADOW / PAGE == i * 256 && va % SHADOW % MB == 0 && (va >= SHADOW) == view
            && Wrap(va % SHADOW + 0x10_0000) <= COARSE_MB * MB
  {
    hide Or, Shl;
    ShlValues(i);
    AliasBits(i * MB);
    WrapSmall(i * MB + 0x10_0000);
  }

  lemma PageBoundary(v: nat)
    ensures v % MB == 0 ==> v % PAGE == 0
  {
  }

  /** Page k of MB i goes to the frame that the map assigns to it. */
  lemma FrameOfMegabyte(t: Tables, i: nat, k: nat, rev: int)
    requires Layout(t) && i < t.size && k < 256
    requires rev == if i == 0 || !t.inverse then 0 else 1
    ensures FrameOf(i * MB, MB, rev, k) == PageBase(t, i * 256 + k)
  {
    assert (i * 256 + k) / 256 == i && (i * 256 + k) % 256 == k;
  }

  /** Filling one coarse table and hooking it into the section table completes one more MB of a view. */
  lemma MapStep(mem: Memory, m1: Memory, t: Tables, cm: nat, low: nat, high: nat, view: bool, rev: int)
    requires Layout(t) && CacheBits(cm) && low <= t.size && high <= t.size
    requires Partial(mem, t, cm, low, high)
    requires var i := if view then high else low;
             && i < t.size && rev == (if i == 0 || !t.inverse then 0 else 1)
             && PagesSet(m1, TableOf(t, view), i * 256, 256, i * MB, MB, rev, if view then 0 else cm)
             && SameOutside(mem, m1, TableOf(t, view), i * 256, i * 256 + 256)
    ensures var i := if view then high else low;
            var k := if view then 0x800 + i else i;
            Partial(m1[t.section + 4 * k := TableOf(t, view) + 0x400 * i + 0x1F1], t, cm,
                    if view then low else low + 1, if view then high + 1 else high)
  {
    var i := if view then high else low;
    var k := if view then 0x800 + i else i;
    var m2 := m1[t.section + 4 * k := TableOf(t, view) + 0x400 * i + 0x1F1];
    var low', high' := if view then low else low + 1, if view then high + 1 else high;
    SectionsStep(mem, m1, t, low, high, view);
    PagesStep(mem, m1, t, view, if view then 0 else cm, i, rev, t.section + 4 * k, m2[t.section + 4 * k]);
    PagesKept(mem, m1, t, view, if view then cm else 0, if view then low else high, i,
              t.section + 4 * k, m2[t.section + 4 * k]);
  }

  lemma SectionsStep(mem: Memory, m1: Memory, t: Tables, low: nat, high: nat, view: bool)
    requires Layout(t) && low <= t.size && high <= t.size
    requires var i := if view then high else low;
             i < t.size && SameOutside(mem, m1, TableOf(t, view), i * 256, i * 256 + 256)
    requires forall j | 0 <= j < 4096 :: Entry(mem, t.section, j) == SectionAt(t, low, high, j)
    ensures var i := if view then high else low;
            var k := if view then 0x800 + i else i;
            var m2 := m1[t.section + 4 * k := TableOf(t, view) + 0x400 * i + 0x1F1];
            forall j | 0 <= j < 4096 :: Entry(m2, t.section, j)
              == SectionAt(t, if view then low else low + 1, if view then high + 1 else high, j)
  {
    var i := if view then high else low;
    var k := if view then 0x800 + i else i;
    var m2 := m1[t.section + 4 * k := TableOf(t, view) + 0x400 * i + 0x1F1];
    forall j | 0 <= j < 4096
      ensures Entry(m2, t.section, j)
        == SectionAt(t, if view then low else low + 1, if view then high + 1 else high, j)
    {
      assert Entry(mem, t.section, j) == SectionAt(t, low, high, j);
    }
  }

  lemma PagesStep(mem: Memory, m1: Memory, t: Tables, view: bool, cm: nat, i: nat, rev: int, a: nat, w: Word)
    requires Layout(t) && CacheBits(cm) && i < t.size && PagesDone(mem, t, view, cm, i)
    requires rev == if i == 0 || !t.inverse then 0 else 1
    requires PagesSet(m1, TableOf(t, view), i * 256, 256, i * MB, MB, rev, cm)
    requires SameOutside(mem, m1, TableOf(t, view), i * 256, i * 256 + 256)
    requires a < TableOf(t, view) || TableOf(t, view) + TABLE_BYTES <= a
    ensures PagesDone(m1[a := w], t, view, cm, i + 1)
  {
    hide PageWord, PageBase;
    var m2 := m1[a := w];
    hide FrameOf;
    forall q | 0 <= q < (i + 1) * 256
      ensures PageDone(m2, t, view, cm, q)
    {
      if q < i * 256 {
        assert PageDone(mem, t, view, cm, q);
      } else {
        FrameOfMegabyte(t, i, q - i * 256, rev);
        assert Entry(m1, TableOf(t, view), q) == PageWord(FrameOf(i * MB, MB, rev, q - i * 256), cm);
        assert Entry(m2, TableOf(t, view), q) == Entry(m1, TableOf(t, view), q);
      }
    }
  }

  lemma PagesKept(mem: Memory, m1: Memory, t: Tables, view: bool, cm: nat, n: nat, i: nat, a: nat, w: Word)
    requires Layout(t) && CacheBits(cm) && i < t.size && n <= t.size && PagesDone(mem, t, !view, cm, n)
    requires SameOutside(mem, m1, TableOf(t, view), i * 256, i * 256 + 256)
    requires a < TableOf(t, !view) || TableOf(t, !view) + TABLE_BYTES <= a
    ensures PagesDone(m1[a := w], t, !view, cm, n)
  {
    hide PageWord, PageBase;
    var m2, other := m1[a := w], !view;
    forall q | 0 <= q < n * 256
      ensures PageDone(m2, t, other, cm, q)
    {
      assert PageDone(mem, t, other, cm, q);
    }
  }

  // ---- One iteration of sysSetCachePages ----

  lemma RecordEmpty(a: Attrs, view: bool, lo: int, hi: int, cm: nat)
    requires hi <= lo
    ensures Record(a, view, lo, hi, cm) == a
  {
    assert Fill(a.low, lo, hi, cm) == a.low;
    assert Fill(a.shadow, lo, hi, cm) == a.shadow;
  }

  /** The cache bits in memory after the driver has rewritten the entry of page q: unchanged if the store
      stays in the data cache. `on` says whether translation is on. */
  function EditOne(t: Tables, a: Attrs, on: bool, alias: bool, view: bool, q: nat, cm: nat): (b: Attrs)
    requires |a.low| == |a.shadow| == t.size * 256
    ensures |b.low| == |b.shadow| == t.size * 256
  {
    if on && WriteBack(t, a, alias, EntryAt(t, view, q)) then a else Record(a, view, q, q + 1, cm)
  }

  function EditRange(t: Tables, a: Attrs, on: bool, alias: bool, view: bool, lo: nat, n: nat, cm: nat): (b: Attrs)
    requires |a.low| == |a.shadow| == t.size * 256
    ensures |b.low| == |b.shadow| == t.size * 256
  {
    if n == 0 then a else EditOne(t, EditRange(t, a, on, alias, view, lo, n - 1, cm), on, alias, view, lo + n - 1, cm)
  }

  /** What one call of sysSetCachePages does to the cache bits in memory. */
  function Edit(t: Tables, a: Attrs, on: bool, alias: bool, r: Request): (b: Attrs)
    requires |a.low| == |a.shadow| == t.size * 256
    ensures |b.low| == |b.shadow| == t.size * 256
  {
    if Accepted(r) && r.size > 0
    then EditRange(t, a, on, alias, r.vaddr >= SHADOW, Start(r), r.size / PAGE, CacheMode(r.flag)) else a
  }

  function EditAll(t: Tables, a: Attrs, on: bool, alias: bool, rs: seq<Request>): (b: Attrs)
    requires |a.low| == |a.shadow| == t.size * 256
    ensures |b.low| == |b.shadow| == t.size * 256
  {
    if rs == [] then a else Edit(t, EditAll(t, a, on, alias, rs[..|rs| - 1]), on, alias, rs[|rs| - 1])
  }

  lemma RecordMore(a: Attrs, view: bool, lo: int, hi: int, cm: nat)
    requires lo <= hi
    ensures Record(Record(a, view, lo, hi, cm), view, hi, hi + 1, cm) == Record(a, view, lo, hi + 1, cm)
  {
    assert Fill(Fill(a.low, lo, hi, cm), hi, hi + 1, cm) == Fill(a.low, lo, hi + 1, cm);
    assert Fill(Fill(a.shadow, lo, hi, cm), hi, hi + 1, cm) == Fill(a.shadow, lo, hi + 1, cm);
  }

  /** While translation is off every store takes effect. */
  lemma {:induction false} EditRangeOff(t: Tables, a: Attrs, alias: bool, view: bool, lo: nat, n: nat, cm: nat)
    requires |a.low| == |a.shadow| == t.size * 256
    ensures EditRange(t, a, false, alias, view, lo, n, cm) == Record(a, view, lo, lo + n, cm)
  {
    hide Record, WriteBack;
    if n == 0 {
      RecordEmpty(a, view, lo, lo, cm);
    } else {
      EditRangeOff(t, a, alias, view, lo, n - 1, cm);
      RecordMore(a, view, lo, lo + n - 1, cm);
    }
  }

  /** With the tables reachable before and after, every store takes effect. */
  lemma {:induction false} EditRangeReached(t: Tables, a: Attrs, alias: bool, view: bool, lo: nat,
                                          n: nat, hi: nat, cm: nat)
    requires |a.low| == |a.shadow| == t.size * 256 && n <= hi && lo + hi <= 0x4000
    requires Reachable(t, a, alias) && Reachable(t, Record(a, view, lo, lo + hi, cm), alias)
    ensures EditRange(t, a, true, alias, view, lo, n, cm) == Record(a, view, lo, lo + n, cm)
  {
    hide Record, WriteBack, Lands, Reachable;
    if n == 0 {
      RecordEmpty(a, view, lo, lo, cm);
    } else {
      EditRangeReached(t, a, alias, view, lo, n - 1, hi, cm);
      RecordMore(a, view, lo, lo + n - 1, cm);
      ReachableMidway(t, a, alias, view, lo, lo + n - 1, lo + hi, cm, EntryAt(t, view, lo + n - 1));
    }
  }

  lemma ReachableMidway(t: Tables, a: Attrs, alias: bool, view: bool, lo: nat, mid: nat, hi: nat, cm: nat, addr: nat)
    requires |a.low| == |a.shadow| == t.size * 256 && lo <= mid <= hi && TableWord(t, addr)
    requires Reachable(t, a, alias) && Reachable(t, Record(a, view, lo, hi, cm), alias)
    ensures |Record(a, view, lo, mid, cm).low| == |Record(a, view, lo, mid, cm).shadow| == t.size * 256
    ensures !WriteBack(t, Record(a, view, lo, mid, cm), alias, addr)
  {
    assert Reaches(t, a, alias, addr) && Reaches(t, Record(a, view, lo, hi, cm), alias, addr);
  }

  /** An edit made with translation on takes effect in full exactly when each of its stores reaches memory,
      given the pages recached before it, or asks for the bits that are there already. */
  lemma {:induction false} EditRangeExactly(t: Tables, a: Attrs, alias: bool, view: bool, lo: nat, n: nat, cm: nat)
    requires |a.low| == |a.shadow| == t.size * 256
    ensures EditRange(t, a, true, alias, view, lo, n, cm) == Record(a, view, lo, lo + n, cm)
       <==> forall k | 0 <= k < n :: Effective(t, a, alias, view, lo, k, cm)
    decreases n
  {
    hide Record, WriteBack, Effective;
    if n == 0 {
      RecordEmpty(a, view, lo, lo, cm);
    } else {
      EditRangeExactly(t, a, alias, view, lo, n - 1, cm);
      LastStore(t, a, alias, view, lo, n - 1, cm);
    }
  }

  /** The same for a whole call of sysSetCachePages. */
  lemma EditExactly(t: Tables, a: Attrs, alias: bool, r: Request)
    requires |a.low| == |a.shadow| == t.size * 256 && Accepted(r) && r.size > 0
    ensures var view, lo, n := r.vaddr >= SHADOW, Start(r), r.size / PAGE;
            var cm := if r.flag == 0 then 12 else if r.flag == 1 then 8 else 0;
            Edit(t, a, true, alias, r) == Apply(a, r)
            <==> forall k | 0 <= k < n :: Effective(t, a, alias, view, lo, k, cm)
  {
    hide Effective, EditRange, Record, Accepted;
    EditRangeExactly(t, a, alias, r.vaddr >= SHADOW, Start(r), r.size / PAGE, CacheMode(r.flag));
  }

  predicate Effective(t: Tables, a: Attrs, alias: bool, view: bool, lo: nat, k: nat, cm: nat)
    requires |a.low| == |a.shadow| == t.size * 256
  {
    || !WriteBack(t, Record(a, view, lo, lo + k, cm), alias, EntryAt(t, view, lo + k))
    || lo + k >= t.size * 256 || AttrsOf(a, view)[lo + k] == cm
  }

  lemma LastStore(t: Tables, a: Attrs, alias: bool, view: bool, lo: nat, k: nat, cm: nat)
    requires |a.low| == |a.shadow| == t.size * 256
    ensures EditRange(t, a, true, alias, view, lo, k + 1, cm) == Record(a, view, lo, lo + k + 1, cm)
       <==> EditRange(t, a, true, alias, view, lo, k, cm) == Record(a, view, lo, lo + k, cm)
            && Effective(t, a, alias, view, lo, k, cm)
  {
    hide WriteBack, Effective, Record, EditOne, SameFrom;
    var b := EditRange(t, a, true, alias, view, lo, k, cm);
    EditRangeOutside(t, a, alias, view, lo, k, cm);
    assert EditRange(t, a, true, alias, view, lo, k + 1, cm) == EditOne(t, b, true, alias, view, lo + k, cm);
    hide EditRange;
    if b == Record(a, view, lo, lo + k, cm) {
      StoreAfterRecord(t, a, b, alias, view, lo, k, cm);
    } else {
      StillDifferent(a, b, view, lo, lo + k, cm);
      OneOfTwo(t, b, alias, view, lo + k, cm);
    }
  }

  lemma StoreAfterRecord(t: Tables, a: Attrs, b: Attrs, alias: bool, view: bool, lo: nat, k: nat, cm: nat)
    requires |a.low| == |a.shadow| == t.size * 256 && b == Record(a, view, lo, lo + k, cm)
             && SameFrom(a, b, view, lo + k)
    ensures |b.low| == |b.shadow| == t.size * 256
    ensures EditOne(t, b, true, alias, view, lo + k, cm) == Record(a, view, lo, lo + k + 1, cm)
       <==> Effective(t, a, alias, view, lo, k, cm)
  {
    RecordMore(a, view, lo, lo + k, cm);
    UnchangedExactly(b, view, lo + k, cm);
    assert lo + k < t.size * 256 ==> AttrsOf(b, view)[lo + k] == AttrsOf(a, view)[lo + k];
    hide WriteBack, Record;
  }

  lemma OneOfTwo(t: Tables, b: Attrs, alias: bool, view: bool, q: nat, cm: nat)
    requires |b.low| == |b.shadow| == t.size * 256
    ensures var c := EditOne(t, b, true, alias, view, q, cm); c == b || c == Record(b, view, q, q + 1, cm)
  {
    hide WriteBack, Record;
  }

  lemma UnchangedExactly(c: Attrs, view: bool, q: nat, cm: nat)
    ensures Record(c, view, q, q + 1, cm) == c <==> q >= |AttrsOf(c, view)| || AttrsOf(c, view)[q] == cm
  {
    assert q < |AttrsOf(c, view)| ==> AttrsOf(Record(c, view, q, q + 1, cm), view)[q] == cm;
    if q >= |AttrsOf(c, view)| || AttrsOf(c, view)[q] == cm {
      assert AttrsOf(Record(c, view, q, q + 1, cm), view) == AttrsOf(c, view);
    }
  }

  /** Pages from lo + k on, and the other view, are untouched by the first k stores. */
  lemma {:induction false} EditRangeOutside(t: Tables, a: Attrs, alias: bool, view: bool, lo: nat, k: nat, cm: nat)
    requires |a.low| == |a.shadow| == t.size * 256
    ensures SameFrom(a, EditRange(t, a, true, alias, view, lo, k, cm), view, lo + k)
  {
    hide WriteBack;
    if k > 0 { EditRangeOutside(t, a, alias, view, lo, k - 1, cm); }
  }

  ghost predicate SameFrom(a: Attrs, b: Attrs, view: bool, q: nat) {
    && AttrsOf(b, !view) == AttrsOf(a, !view) && |AttrsOf(b, view)| == |AttrsOf(a, view)|
    && forall p | q <= p < |AttrsOf(a, view)| :: AttrsOf(b, view)[p] == AttrsOf(a, view)[p]
  }

  /** A difference below q is not undone by what happens at q. */
  lemma StillDifferent(a: Attrs, b: Attrs, view: bool, lo: nat, q: nat, cm: nat)
    requires lo <= q && SameFrom(a, b, view, q) && b != Record(a, view, lo, q, cm)
    ensures b != Record(a, view, lo, q + 1, cm)
    ensures Record(b, view, q, q + 1, cm) != Record(a, view, lo, q + 1, cm)
  {
    var c := Record(a, view, lo, q, cm);
    assert AttrsOf(b, !view) == AttrsOf(c, !view);
    var s, r := AttrsOf(b, view), AttrsOf(c, view);
    assert s != r;
    var p :| 0 <= p < |s| && s[p] != r[p];
    assert p < q;
    var d := Record(a, view, lo, q + 1, cm);
    assert AttrsOf(d, view)[p] == r[p];
    assert AttrsOf(Record(b, view, q, q + 1, cm), view)[p] == s[p];
  }

  /** A call that does not make the tables' own pages write-back takes effect in full. */
  lemma EditIsApply(t: Tables, a: Attrs, on: bool, alias: bool, r: Request)
    requires |a.low| == |a.shadow| == t.size * 256 && -0x8000_0000 <= r.size < 0x8000_0000
    requires on ==> Reachable(t, a, alias) && !BuriesTables(t, alias, r)
    ensures Edit(t, a, on, alias, r) == Apply(a, r)
    ensures on ==> |Apply(a, r).low| == |Apply(a, r).shadow| == t.size * 256 && Reachable(t, Apply(a, r), alias)
  {
    hide EditRange, Reachable, BuriesTables, CacheMode, Record;
    if on { ReachableKept(t, a, alias, r); }
    if Accepted(r) {
      var view, lo, cm := r.vaddr >= SHADOW, Start(r), CacheMode(r.flag);
      if r.size <= 0 {
        RecordEmpty(a, view, lo, lo + r.size / PAGE, cm);
      } else {
        var n := r.size / PAGE;
        RequestInTable(r);
        if on { EditRangeReached(t, a, alias, view, lo, n, n, cm); }
        else { EditRangeOff(t, a, alias, view, lo, n, cm); }
      }
    }
  }

  lemma RequestInTable(r: Request)
    requires Accepted(r) && 0 < r.size < 0x8000_0000
    ensures Start(r) + r.size / PAGE <= 0x4000
  {
    InTable(r.vaddr % SHADOW, r.size, r.size / PAGE - 1);
  }

  /** So does a run of them. */
  lemma {:induction false} EditAllIsRun(t: Tables, a: Attrs, on: bool, alias: bool, rs: seq<Request>)
    requires |a.low| == |a.shadow| == t.size * 256
    requires forall r | r in rs :: -0x8000_0000 <= r.size < 0x8000_0000
    requires on ==> Reachable(t, a, alias) && forall r | r in rs :: !BuriesTables(t, alias, r)
    ensures EditAll(t, a, on, alias, rs) == Run(a, rs)
    ensures on ==> Reachable(t, EditAll(t, a, on, alias, rs), alias)
  {
    hide Reachable, BuriesTables, Edit, Apply;
    if rs != [] {
      var front, r := rs[..|rs| - 1], rs[|rs| - 1];
      EditAllIsRun(t, a, on, alias, front);
      assert r in rs;
      EditIsApply(t, EditAll(t, a, on, alias, front), on, alias, r);
    }
  }

  /** One store of sysSetCachePages, whether or not it reaches memory: the tables stay correct for the cache
      bits that are now in memory, and the data cache holds right frames. */
  lemma EditStep(bus: Bus, t: Tables, a: Attrs, alias: bool, view: bool, q: nat, cm: nat, w: Word)
    requires bus.on && bus.ttb == t.section && Built(bus.mem, t, a) && Coherent(bus.dcache, t)
    requires q < 0x4000 && CacheBits(cm) && EntryAt(t, view, q) < SHADOW && Lands(t, alias, EntryAt(t, view, q))
    requires q < t.size * 256 ==> w == PageWord(PageBase(t, q), cm)
    ensures var b := Store(bus, Via(alias, EntryAt(t, view, q)), w);
            && b.on && b.ttb == bus.ttb && (b.mem == bus.mem || b.mem == bus.mem[EntryAt(t, view, q) := w])
            && Built(b.mem, t, EditOne(t, a, true, alias, view, q, cm)) && Coherent(b.dcache, t)
  {
    hide Store, PageWord, PageBase, WriteBack, Lands;
    BuiltShape(bus.mem, t, a);
    hide Built, Record, Layout, AttrsOk, PagesBuilt;
    TableStore(bus, t, a, alias, EntryAt(t, view, q), w);
    CoherentStore(bus.dcache, t, view, q, cm, w);
    if !WriteBack(t, a, alias, EntryAt(t, view, q)) {
      StorePage(bus.mem, t, a, view, q, cm, w);
    }
  }

  lemma BuiltShape(mem: Memory, t: Tables, a: Attrs)
    requires Built(mem, t, a)
    ensures Layout(t) && AttrsOk(a, t)
  {
  }

  lemma CoherentStore(dcache: Memory, t: Tables, view: bool, q: nat, cm: nat, w: Word)
    requires Layout(t) && Coherent(dcache, t) && CacheBits(cm) && q < 0x4000
    requires q < t.size * 256 ==> w == PageWord(PageBase(t, q), cm)
    ensures Coherent(dcache[EntryAt(t, view, q) := w], t)
  {
    hide PageWord, PageBase;
    var d := dcache[EntryAt(t, view, q) := w];
    forall view': bool, p: nat | p < t.size * 256 && EntryAt(t, view', p) in d
      ensures RightFrame(t, p, d[EntryAt(t, view', p)])
    {
      SameSlot(t, view, q, view', p);
    }
  }

  lemma SameSlot(t: Tables, view: bool, q: nat, view': bool, p: nat)
    requires Layout(t) && q < 0x4000 && p < 0x4000
    ensures EntryAt(t, view, q) == EntryAt(t, view', p) ==> p == q
  {
  }

  lemma SameMemory(mem: Memory, base: nat, first: nat, last: nat)
    ensures SameOutside(mem, mem, base, first, last)
  {
  }

  lemma OutsideStore(m0: Memory, m1: Memory, base: nat, first: nat, q: nat, w: Word)
    requires SameOutside(m0, m1, base, first, q) && first <= q
    ensures SameOutside(m0, m1[base + 4 * q := w], base, first, q + 1)
  {
  }

  lemma OutsideMore(m0: Memory, m1: Memory, base: nat, first: nat, q: nat)
    requires SameOutside(m0, m1, base, first, q)
    ensures SameOutside(m0, m1, base, first, q + 1)
  {
  }

  lemma RecordOk(t: Tables, a: Attrs, view: bool, lo: int, hi: int, cm: nat)
    requires AttrsOk(a, t) && CacheBits(cm)
    ensures AttrsOk(Record(a, view, lo, hi, cm), t)
  {
  }

  lemma CacheDisabled()
    ensures CacheMode(-1) == 0
  {
  }

  /** Right after initialization all later edits reach the walker, if the driver uses the alias, exactly when
      the tables are placed. */
  lemma ReachableAfterInit(t: Tables, cm: nat)
    requires Layout(t) && CacheBits(cm)
    ensures Reachable(t, Fresh(t, cm), true) <==> Placed(t, true)
  {
    var a := Fresh(t, cm);
    forall addr: nat ensures Reaches(t, a, true, addr) <==> Lands(t, true, addr) {
    }
  }

  /** sysInitMMUTable without sysEnableCache leaves the cache flag off, so the driver goes through the low
      view: with tables in mapped memory, edits reach the walker exactly when that view is not write-back. */
  lemma ReachableWithoutFlag(t: Tables, cm: nat)
    requires Layout(t) && CacheBits(cm) && Placed(t, true)
    ensures Reachable(t, Fresh(t, cm), false) <==> cm != 12
  {
    var a := Fresh(t, cm);
    forall addr: nat | TableWord(t, addr) ensures Reaches(t, a, false, addr) <==> cm != 12 {
      assert Lands(t, true, addr);
    }
    assert TableWord(t, t.coarse);
  }
}
