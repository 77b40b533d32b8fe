/** wb_mmu.c: the page-table driver, working on physical memory through the processor's bus. */
module Mmu {
  import opened Bits
  import opened PageWalk
  import opened PageMap
  import opened PageMapProps
  import opened MmuAccess
  import opened MmuSteps

  class Driver {
    // Link-time addresses of _mmuSectionTable and the two coarse tables, and sysGetSdramSizebyMB().
    const section: Word
    const coarse: Word
    const shadow: Word
    const ramMb: int

    var bus: Bus
    var isInit: bool    // _IsInitMMUTable
    var mode: int       // _MMUMappingMode
    var cacheOn: bool   // _sys_IsCacheOn

    ghost var t: Tables
    ghost var attrs: Attrs

    /** `attrs` are the cache bits that the tables in memory hold. */
    ghost predicate Valid()
      reads this
    {
      && t.section == section && t.coarse == coarse && t.shadow == shadow
      && Layout(t) && AttrsOk(attrs, t)
      && (isInit ==> Built(bus.mem, t, attrs))
      && Coherent(bus.dcache, t) && (!isInit ==> bus.dcache == map[])
      && (bus.on ==> isInit && bus.ttb == section)
      && (cacheOn ==> bus.on)
    }

    constructor (section: Word, coarse: Word, shadow: Word, ramMb: int, mem: Memory)
      requires Layout(Tables(section, coarse, shadow, 1, false))
      ensures Valid() && !isInit && !bus.on && !cacheOn && mode == 0
      ensures this.section == section && this.coarse == coarse && this.shadow == shadow && this.ramMb == ramMb
    {
      this.section, this.coarse, this.shadow, this.ramMb := section, coarse, shadow, ramMb;
      bus := Bus(mem, map[], false, 0);
      isInit, mode, cacheOn := false, 0, false;
      t := Tables(section, coarse, shadow, 1, false);
      attrs := Fresh(Tables(section, coarse, shadow, 1, false), 0);
    }

    /** sysSetMMUMappingMethod: takes effect at the next initialization only. */
    method SetMappingMethod(m: int)
      requires Valid()
      modifies this`mode
      ensures Valid() && mode == m
    {
      mode := m;
    }

    function PageTab(shadowView: bool): Word
      reads this
    {
      if shadowView then shadow else coarse
    }

    /** sysInitPageTable, as sysInitMMUTable calls it: before the tables are in use. */
    method InitPageTable(vaddr: Word, phy: Word, size: int, flag: int, rev: int) returns (r: int)
      requires Valid() && !isInit && -0x8000_0000 <= size < 0x8000_0000
      modifies this`bus
      ensures Valid() && bus == old(bus).(mem := bus.mem)
      ensures r == if Wrap(vaddr % SHADOW + size) <= COARSE_MB * MB && vaddr % SHADOW % MB == 0
                 && size % PAGE == 0 then 0 else -1
      ensures r != 0 ==> bus == old(bus)
      ensures r == 0 ==> var tab, first := PageTab(vaddr >= SHADOW), vaddr % SHADOW / PAGE;
                         && PagesSet(bus.mem, tab, first, size / PAGE, phy, size, rev,
                                     if flag == 0 then 12 else if flag == 1 then 8 else 0)
                         && SameOutside(old(bus.mem), bus.mem, tab, first, first + if size > 0 then size / PAGE else 0)
    {
      hide Built, FrameOf, Wrap, AttrsOk, PagesSet, SameOutside, Layout;
      var tab := PageTab(vaddr >= SHADOW);
      var v := vaddr % SHADOW;
      if Wrap(v + size) > COARSE_MB * MB { return -1; }
      if v % 0x10_0000 != 0 { return -1; }
      if size % 4096 != 0 { return -1; }
      PageBoundary(v);
      var cnt := size / 4096;
      PageCount(size);
      var phyBase := if rev == 0 then phy else Wrap(phy + size - 4096);
      FrameOfFirst(phy, size, rev);
      FillEntries(vaddr >= SHADOW, v, cnt, CacheMode(flag), rev, phyBase, phy, size);
      return 0;
    }

    /** The loop of sysInitPageTable: `cnt` entries from the one of address v on. */
    method FillEntries(view: bool, v: nat, cnt: int, cm: nat, rev: int, first: Word, ghost phy: Word, ghost size: int)
      requires Valid() && !isInit && CacheBits(cm) && first == FrameOf(phy, size, rev, 0)
      requires v < SHADOW && v % PAGE == 0 && size % 4096 == 0 && cnt == size / 4096 && size < 0x8000_0000
      requires Wrap(v + size) <= COARSE_MB * MB
      modifies this`bus
      ensures Valid() && bus == old(bus).(mem := bus.mem)
      ensures PagesSet(bus.mem, PageTab(view), v / PAGE, cnt, phy, size, rev, cm)
      ensures SameOutside(old(bus.mem), bus.mem, PageTab(view), v / PAGE, v / PAGE + if cnt > 0 then cnt else 0)
    {
      hide Built, PageWord, FrameOf, Wrap, AttrsOk, Slot, PagesSet, SameOutside, Store;
      TableBounds(t);
      hide Layout;
      var tab, phyBase := PageTab(view), first;
      ghost var q := v / PAGE;
      NoPagesSet(bus.mem, tab, q, cnt, phy, size, rev, cm);
      var i := 0;
      while i < cnt
        invariant 0 <= i && (i <= cnt || i == 0)
        invariant bus == old(bus).(mem := bus.mem)
        invariant phyBase == FrameOf(phy, size, rev, i)
        invariant PagesSet(bus.mem, tab, q, i, phy, size, rev, cm)
        invariant SameOutside(old(bus.mem), bus.mem, tab, q, q + i)
      {
        var temp := PageWord(phyBase, cm);
        StoreSlot(bus.mem, tab, q, i, phy, size, rev, cm, temp);
        OutsideStore(old(bus.mem), bus.mem, tab, q, q + i, temp);
        InTable(v, size, i);
        StoreOff(bus, Slot(tab, v + i * 4096), temp);
        bus := Store(bus, Slot(tab, v + i * 4096), temp);
        FrameOfNext(phy, size, rev, i);
        phyBase := Wrap((phyBase as int) + if rev == 0 then 4096 else -4096);
        i := i + 1;
      }
      NoPagesSet(bus.mem, tab, q, cnt, phy, size, rev, cm);
    }

    /** One MB of one view, as sysInitMMUTable maps it: its coarse table, then its section entry. */
    method MapMegabyte(i: nat, view: bool, flag: int, rev: int, ghost cm: nat, ghost low: nat, ghost high: nat)
      requires Valid() && !isInit && low <= t.size && high <= t.size && CacheBits(cm)
      requires i < t.size && i == (if view then high else low) && rev == (if i == 0 || !t.inverse then 0 else 1)
      requires CacheMode(flag) == (if view then 0 else cm)
      requires Partial(bus.mem, t, cm, low, high)
      modifies this`bus
      ensures Valid() && bus == old(bus).(mem := bus.mem)
      ensures Partial(bus.mem, t, cm, if view then low else low + 1, if view then high + 1 else high)
    {
      hide Partial, PagesSet, SameOutside, Built, AttrsOk, Or, Shl, Wrap, Frame, PageWord, CoarseWord, Store;
      TableBounds(t);
      ghost var before := bus.mem;
      MegabyteStart(i, view);
      hide Layout;
      var r := InitPageTable(if view then Or(Shl(i, 20), 0x8000_0000) else Shl(i, 20), Shl(i, 20),
                                     0x10_0000, flag, rev);
      MapStep(before, bus.mem, t, cm, low, high, view, rev);
      var temp := CoarseWord(PageTab(view) + i * 1024);
      StoreOff(bus, section + 4 * (if view then 0x800 + i else i), temp);
      bus := Store(bus, section + 4 * (if view then 0x800 + i else i), temp);
    }

    /** sysInitMMUTable: builds the tables on the first call, then turns translation on (sysSetupCP15). */
    method InitMMUTable(cacheMode: int) returns (r: int)
      requires Valid()
      modifies this`bus, this`isInit, this`t, this`attrs
      ensures Valid() && r == 0 && isInit && bus.on
      ensures old(isInit) ==> t == old(t) && attrs == old(attrs) && bus.mem == old(bus.mem)
      ensures !old(isInit) ==>
                && t.size == (if ramMb > 64 then 64 else if ramMb < 1 then 1 else ramMb) && t.inverse == (mode != 0)
                && attrs == Fresh(t, if cacheMode == 0 then 12 else if cacheMode == 1 then 8 else 0)
                && forall va: Word ::
                     var w := Walk(bus.mem, section, va);
                     && w.Mapped? && w.pa == Phys(t, va)
                     && w.cb == if va < t.size * 0x10_0000
                                then (if cacheMode == 0 then 3 else if cacheMode == 1 then 2 else 0) else 0
    {
      if !isInit {
        t := Tables(section, coarse, shadow, if ramMb > 64 then 64 else if ramMb < 1 then 1 else ramMb, mode != 0);
        attrs := Fresh(t, CacheMode(cacheMode));
        BuildTables(cacheMode);
        isInit := true;
        FreshWalks(bus.mem, t, cacheMode);
      }
      bus := bus.(on := true, ttb := section);
      return 0;
    }

    /** The table-building part of sysInitMMUTable. */
    method BuildTables(cacheMode: int)
      requires Valid() && !isInit
      requires t.size == (if ramMb > 64 then 64 else if ramMb < 1 then 1 else ramMb) && t.inverse == (mode != 0)
      modifies this`bus
      ensures bus == old(bus).(mem := bus.mem)
      ensures Built(bus.mem, t, Fresh(t, if cacheMode == 0 then 12 else if cacheMode == 1 then 8 else 0))
    {
      hide Partial, AttrsOk;
      ghost var cm := CacheMode(cacheMode);
      FlatSections(cm);
      var size := if ramMb > 64 then 64 else ramMb;
      CacheDisabled();
      MapMegabyte(0, false, cacheMode, 0, cm, 0, 0);
      MapMegabyte(0, true, -1, 0, cm, 1, 0);
      var i := 1;
      while i < size
        invariant 1 <= i && (i <= size || i == 1)
        invariant Valid() && bus == old(bus).(mem := bus.mem)
        invariant Partial(bus.mem, t, cm, i, 1)
      {
        MapMegabyte(i, false, cacheMode, if mode == 0 then 0 else 1, cm, i, 1);
        i := i + 1;
      }
      i := 1;
      while i < size
        invariant 1 <= i && (i <= size || i == 1)
        invariant Valid() && bus == old(bus).(mem := bus.mem)
        invariant Partial(bus.mem, t, cm, t.size, i)
      {
        MapMegabyte(i, true, -1, if mode == 0 then 0 else 1, cm, t.size, i);
        i := i + 1;
      }
      PartialIsBuilt(bus.mem, t, cm);
    }

    /** The flat mapping of all 4 GB in 1 MB sections, before any MB is divided into pages. */
    method FlatSections(ghost cm: nat)
      requires Valid() && !isInit && CacheBits(cm)
      modifies this`bus
      ensures bus == old(bus).(mem := bus.mem)
      ensures Partial(bus.mem, t, cm, 0, 0)
    {
      hide FlatWord, Built;
      var i := 0;
      while i < 4096
        invariant 0 <= i <= 4096
        invariant bus == old(bus).(mem := bus.mem)
        invariant forall j | 0 <= j < i :: Entry(bus.mem, section, j) == SectionAt(t, 0, 0, j)
      {
        bus := Store(bus, section + 4 * i, FlatWord(i));
        i := i + 1;
      }
    }

    /** sysEnableCache. */
    method EnableCache(cacheMode: int) returns (r: int)
      requires Valid()
      modifies this`bus, this`isInit, this`t, this`attrs, this`cacheOn
      ensures Valid() && r == 0 && isInit && bus.on && cacheOn
      ensures old(isInit) ==> t == old(t) && attrs == old(attrs) && bus.mem == old(bus.mem)
      ensures !old(isInit) ==>
                && t.size == (if ramMb > 64 then 64 else if ramMb < 1 then 1 else ramMb) && t.inverse == (mode != 0)
                && attrs == Fresh(t, if cacheMode == 0 then 12 else if cacheMode == 1 then 8 else 0)
                && forall va: Word ::
                     var w := Walk(bus.mem, section, va);
                     && w.Mapped? && w.pa == Phys(t, va)
                     && w.cb == if va < t.size * 0x10_0000
                                then (if cacheMode == 0 then 3 else if cacheMode == 1 then 2 else 0) else 0
    {
      r := InitMMUTable(cacheMode);
      cacheOn := true;
    }

    /** Base address through which the driver reaches a view's table. */
    method TableBase(view: bool) returns (ptr: Word)
      requires Valid()
      ensures PageTab(view) < SHADOW && ptr == Via(cacheOn, PageTab(view))
    {
      hide Built, Coherent;
      var tab := PageTab(view);
      TableBounds(t);
      hide Layout, Or;
      AliasBits(tab);
      ptr := if cacheOn then Or(tab, 0x8000_0000) else tab;
    }

    /** sysGetPhyPageAddr. Inside the mapped memory it agrees with the hardware walk, whatever the cache bits
        of the tables' own pages. */
    method GetPhyPageAddr(vaddr: Word) returns (phy: Word)
      requires Valid() && isInit && InWindow(t, vaddr)
      requires bus.on ==> Placed(t, cacheOn)
      ensures Walk(bus.mem, section, vaddr) == Mapped(phy, 15, 3, Cb(t, attrs, vaddr))
    {
      hide And, Built, Coherent, Load, Walk, Frame, PageBase, RightFrame;
      ghost var view, q := vaddr >= SHADOW, vaddr % SHADOW / PAGE;
      var ptr := TableBase(vaddr >= SHADOW);
      EntryPlace(t, cacheOn, view, q, bus.on);
      hide Placed;
      var slot := Slot(ptr, vaddr % SHADOW);
      assert slot == Via(cacheOn, EntryAt(t, view, q));
      EntryLoaded(view, q);
      var entry := Load(bus, slot);
      PageFrameBits(entry);
      FrameField(t, q, entry);
      phy := And(entry, 0xFFFF_F000) + vaddr % 0x1000;
      WalkIsMap(bus.mem, t, attrs, vaddr);
    }

    /** What the driver loads as the entry of a mapped page. */
    lemma EntryLoaded(view: bool, q: nat)
      requires Valid() && isInit && q < t.size * 256 && EntryAt(t, view, q) < SHADOW
      requires if bus.on then Lands(t, cacheOn, EntryAt(t, view, q)) else !cacheOn
      ensures RightFrame(t, q, Load(bus, Via(cacheOn, EntryAt(t, view, q))))
    {
      if bus.on {
        LoadedFrame(bus, t, attrs, cacheOn, view, q);
      } else {
        EntryInMemory(bus.mem, t, attrs, view, q);
      }
    }

    /** The body of the loop of sysSetCachePages, for page q. */
    method EditEntry(view: bool, v: nat, i: nat, cm: nat) returns (ghost w: Word)
      requires Valid() && CacheBits(cm) && v % PAGE == 0 && v / PAGE + i < 0x4000
      requires bus.on ==> Placed(t, cacheOn)
      modifies this`bus, this`attrs
      ensures Valid() && attrs == EditOne(t, old(attrs), bus.on, cacheOn, view, v / PAGE + i, cm)
      ensures var at := EntryAt(t, view, v / PAGE + i);
              && at < SHADOW
              && w == Recache(Load(old(bus), Via(cacheOn, at)), cm)
              && bus == Store(old(bus), Via(cacheOn, at), w)
              && bus == old(bus).(mem := bus.mem, dcache := bus.dcache)
              && (bus.mem == old(bus.mem) || bus.mem == old(bus.mem)[at := w])
    {
      hide Recache, Via, EntryAt, Store, Load, Built, Coherent, PageWord, PageBase, RightFrame, EditOne;
      assert t.size <= COARSE_MB && |attrs.low| == |attrs.shadow| == t.size * 256;
      hide Layout, AttrsOk;
      var baseaddr := v + i * 4096;
      ghost var q := v / PAGE + i;
      SlotIndex(v, i);
      var ptr := TableBase(view);
      EntryPlace(t, cacheOn, view, q, bus.on);
      hide Placed;
      var slot := Slot(ptr, baseaddr);
      assert slot == Via(cacheOn, EntryAt(t, view, q)) by { SlotVia(t, cacheOn, view, q); }
      var temp := Load(bus, slot);
      if isInit && q < t.size * 256 {
        EntryLoaded(view, q);
        Recached(t, q, temp, cm);
      }
      temp := Recache(temp, cm);
      EntryStored(view, q, cm, temp);
      attrs := EditOne(t, attrs, bus.on, cacheOn, view, q, cm);
      bus := Store(bus, slot, temp);
      w := temp;
    }

    /** What the store at the end of the loop body does. */
    lemma EntryStored(view: bool, q: nat, cm: nat, w: Word)
      requires Valid() && CacheBits(cm) && q < 0x4000 && EntryAt(t, view, q) < SHADOW
      requires if bus.on then Lands(t, cacheOn, EntryAt(t, view, q)) else !cacheOn
      requires isInit && q < t.size * 256 ==> w == PageWord(PageBase(t, q), cm)
      ensures var b := Store(bus, Via(cacheOn, EntryAt(t, view, q)), w);
              var a := EditOne(t, attrs, bus.on, cacheOn, view, q, cm);
              && b == bus.(mem := b.mem, dcache := b.dcache)
              && (b.mem == bus.mem || b.mem == bus.mem[EntryAt(t, view, q) := w])
              && AttrsOk(a, t) && (isInit ==> Built(b.mem, t, a))
              && Coherent(b.dcache, t) && (!isInit ==> b.dcache == map[])
    {
      hide PageWord, PageBase, Built, Coherent, Lands, WriteBack, Record;
      RecordOk(t, attrs, view, q, q + 1, cm);
      if bus.on {
        EditStep(bus, t, attrs, cacheOn, view, q, cm, w);
      } else {
        StoreOff(bus, EntryAt(t, view, q), w);
        if isInit {
          StorePage(bus.mem, t, attrs, view, q, cm, w);
        }
      }
      hide Store;
    }

    /** The loop of sysSetCachePages. */
    method EditPages(view: bool, v: nat, cnt: int, cm: nat, ghost size: int)
      requires Valid() && CacheBits(cm) && v < SHADOW && v % PAGE == 0 && -0x8000_0000 <= size < 0x8000_0000
      requires size % 4096 == 0 && cnt == size / 4096 && Wrap(v + size) <= COARSE_MB * MB
      requires bus.on ==> Placed(t, cacheOn)
      modifies this`bus, this`attrs
      ensures Valid() && bus == old(bus).(mem := bus.mem, dcache := bus.dcache)
      ensures attrs == EditRange(t, old(attrs), bus.on, cacheOn, view, v / PAGE, if cnt > 0 then cnt else 0, cm)
      ensures SameOutside(old(bus.mem), bus.mem, PageTab(view), v / PAGE, v / PAGE + if cnt > 0 then cnt else 0)
    {
      hide Built, Coherent, EditOne, EditRange, Placed, SameOutside, Wrap, Layout, Store, Load;
      ghost var a0, lo := attrs, v / PAGE;
      SameMemory(bus.mem, PageTab(view), lo, lo);
      EditNone(t, a0, bus.on, cacheOn, view, lo, cm);
      var i := 0;
      while i < cnt
        invariant 0 <= i && (i <= cnt || i == 0)
        invariant Valid() && bus == old(bus).(mem := bus.mem, dcache := bus.dcache)
        invariant attrs == EditRange(t, a0, bus.on, cacheOn, view, lo, i, cm)
        invariant SameOutside(old(bus.mem), bus.mem, PageTab(view), lo, lo + i)
      {
        ghost var before := bus.mem;
        InTable(v, size, i);
        ghost var w := EditEntry(view, v, i, cm);
        OutsideStore(old(bus.mem), before, PageTab(view), lo, lo + i, w);
        OutsideMore(old(bus.mem), before, PageTab(view), lo, lo + i);
        EditNext(t, a0, bus.on, cacheOn, view, lo, i, cm);
        i := i + 1;
      }
    }

    /** sysSetCachePages. */
    method SetCachePages(vaddr: Word, size: int, flag: int) returns (r: int)
      requires Valid() && -0x8000_0000 <= size < 0x8000_0000
      requires bus.on ==> Placed(t, cacheOn)
      modifies this`bus, this`attrs
      ensures Valid() && bus == old(bus).(mem := bus.mem, dcache := bus.dcache)
      ensures r == if Wrap(vaddr % 0x8000_0000 + size) <= 0x400_0000 && vaddr % 0x1000 == 0 && size % 0x1000 == 0
                   then 0 else -1
      ensures attrs == Edit(t, old(attrs), bus.on, cacheOn, Request(vaddr, size, flag))
      ensures r != 0 ==> bus == old(bus)
      ensures var q := Start(Request(vaddr, size, flag));
              SameOutside(old(bus.mem), bus.mem, PageTab(vaddr >= SHADOW), q, q + if size > 0 then size / PAGE else 0)
      ensures old(bus.on ==> Reachable(t, attrs, cacheOn))
              && (bus.on ==> !BuriesTables(t, cacheOn, Request(vaddr, size, flag))) ==>
                && attrs == Apply(old(attrs), Request(vaddr, size, flag)) && (bus.on ==> Reachable(t, attrs, cacheOn))
                && (isInit ==> EditSeen(old(bus.mem), bus.mem, t, r == 0, vaddr, size,
                                        if flag == 0 then 3 else if flag == 1 then 2 else 0))
    {
      hide Built, Coherent, Reachable, BuriesTables, EditOne, EditRange, Placed, CacheMode, SameOutside, Wrap;
      hide Layout, Apply, Store, Load, And, Or, EditSeen;
      ghost var req, a0 := Request(vaddr, size, flag), attrs;
      ghost var reached := (bus.on ==> Reachable(t, attrs, cacheOn)) && (bus.on ==> !BuriesTables(t, cacheOn, req));
      AcceptedInNumbers(req);
      if reached { EditIsApply(t, a0, bus.on, cacheOn, req); }
      if reached && isInit && !Accepted(req) { EditWalks(bus.mem, bus.mem, t, a0, req); }
      var view := vaddr >= SHADOW;
      var v := vaddr % SHADOW;
      SameMemory(bus.mem, PageTab(view), v / PAGE, v / PAGE + if size > 0 then size / PAGE else 0);
      if Wrap(v + size) > COARSE_MB * MB { return -1; }
      if v % 0x1000 != 0 { return -1; }
      if size % 4096 != 0 { return -1; }
      var cnt := size / 4096;
      PageCount(size);
      var cm := CacheMode(flag);
      EditNone(t, a0, bus.on, cacheOn, view, v / PAGE, cm);
      EditPages(view, v, cnt, cm, size);
      if reached && isInit { EditWalks(old(bus.mem), bus.mem, t, a0, req); }
      return 0;
    }

    /** Any run of sysSetCachePages calls, with the tables placed: no physical address moves. If the run does
        not make the pages of the tables write-back, every page gets the cache bits of the last accepted
        call that covers it. */
    method SetCachePagesRun(rs: seq<Request>)
      requires Valid() && isInit
      requires forall r | r in rs :: -0x8000_0000 <= r.size < 0x8000_0000
      requires bus.on ==> Placed(t, cacheOn)
      modifies this`bus, this`attrs
      ensures Valid() && bus == old(bus).(mem := bus.mem, dcache := bus.dcache)
      ensures attrs == EditAll(t, old(attrs), bus.on, cacheOn, rs)
      ensures forall va: Word :: SameAddress(old(bus.mem), bus.mem, section, va)
      ensures old(bus.on ==> Reachable(t, attrs, cacheOn) && forall r | r in rs :: !BuriesTables(t, cacheOn, r)) ==>
                && (bus.on ==> Reachable(t, attrs, cacheOn))
                && forall va: Word | va % 0x8000_0000 / 0x10_0000 < t.size ::
                     var w, w' := Walk(old(bus.mem), section, va), Walk(bus.mem, section, va);
                     && w.Mapped? && w'.Mapped?
                     && w'.cb == LastMode(rs, va >= 0x8000_0000, va % 0x8000_0000 / 0x1000, w.cb * 4) / 4
    {
      hide Built, Coherent, Reachable, BuriesTables, Placed, Edit, Walk, InWindow, Cb, Apply, LastMode;
      ghost var a0, m0 := attrs, bus.mem;
      ghost var reached := bus.on ==>
        Reachable(t, attrs, cacheOn) && forall r | r in rs :: !BuriesTables(t, cacheOn, r);
      if reached { EditAllIsRun(t, a0, bus.on, cacheOn, rs); }
      var i := 0;
      while i < |rs|
        invariant 0 <= i <= |rs| && Valid() && bus == old(bus).(mem := bus.mem, dcache := bus.dcache)
        invariant attrs == EditAll(t, a0, bus.on, cacheOn, rs[..i])
      {
        assert rs[i] in rs;
        EditAllStep(t, a0, bus.on, cacheOn, rs, i);
        var _ := SetCachePages(rs[i].vaddr, rs[i].size, rs[i].flag);
        i := i + 1;
      }
      assert rs[..i] == rs;
      RunTranslates(m0, bus.mem, t, a0, attrs);
      if reached { RunBits(m0, bus.mem, t, a0, rs); }
    }
  }

  /** Freshly built tables: below the mapped size the low view has the cache bits asked for, anything else none. */
  lemma FreshWalks(mem: Memory, t: Tables, flag: int)
    requires Built(mem, t, Fresh(t, if flag == 0 then 12 else if flag == 1 then 8 else 0))
    ensures forall va: Word ::
              var w := Walk(mem, t.section, va);
              && w.Mapped? && w.pa == Phys(t, va)
              && w.cb == if va < t.size * 0x10_0000
                         then (if flag == 0 then 3 else if flag == 1 then 2 else 0) else 0
  {
    hide Walk, Phys, Built;
    var a := Fresh(t, if flag == 0 then 12 else if flag == 1 then 8 else 0);
    assert t.size <= COARSE_MB by { assert Layout(t) by { BuiltLayout(mem, t, a); } }
    forall va: Word
      ensures var w := Walk(mem, t.section, va);
              && w.Mapped? && w.pa == Phys(t, va)
              && w.cb == if va < t.size * 0x10_0000
                         then (if flag == 0 then 3 else if flag == 1 then 2 else 0) else 0
    {
      WalkIsMap(mem, t, a, va);
    }
  }

  lemma BuiltLayout(mem: Memory, t: Tables, a: Attrs)
    requires Built(mem, t, a)
    ensures Layout(t) && AttrsOk(a, t)
  {
  }

  /** No physical address has moved, and exactly the addresses from `vaddr` up to `vaddr + size` have got the
      cache bits `cb`, if the call was accepted. */
  ghost predicate EditSeen(mem: Memory, mem': Memory, t: Tables, accepted: bool, vaddr: Word, size: int, cb: nat) {
    forall va: Word ::
      var w, w' := Walk(mem, t.section, va), Walk(mem', t.section, va);
      && w.Mapped? && w'.Mapped? && w'.pa == w.pa
      && w'.cb == if accepted && va % 0x8000_0000 / 0x10_0000 < t.size && vaddr <= va < vaddr + size then cb else w.cb
  }

  lemma EditWalks(mem: Memory, mem': Memory, t: Tables, a: Attrs, r: Request)
    requires Built(mem, t, a) && Built(mem', t, Apply(a, r)) && -0x8000_0000 <= r.size < 0x8000_0000
    ensures EditSeen(mem, mem', t, Accepted(r), r.vaddr, r.size,
                     if r.flag == 0 then 3 else if r.flag == 1 then 2 else 0)
  {
    hide Built, Walk, Phys, Covers, Accepted, Apply;
    var cb, b := if r.flag == 0 then 3 else if r.flag == 1 then 2 else 0, Apply(a, r);
    BuiltLayout(mem, t, a);
    BuiltLayout(mem', t, b);
    hide Layout, AttrsOk;
    forall va: Word
      ensures var w, w' := Walk(mem, t.section, va), Walk(mem', t.section, va);
              && w.Mapped? && w'.Mapped? && w'.pa == w.pa
              && w'.cb == if Accepted(r) && va % 0x8000_0000 / 0x10_0000 < t.size && r.vaddr <= va < r.vaddr + r.size
                          then cb else w.cb
    {
      WalkIsMap(mem, t, a, va);
      WalkIsMap(mem', t, b, va);
      if InWindow(t, va) {
        CoversInNumbers(r, t, va);
        ApplyAt(a, r, va >= SHADOW, va % SHADOW / PAGE);
      }
    }
  }

  /** Correct tables for the same map translate alike, whatever their cache bits. */
  lemma RunTranslates(m0: Memory, m1: Memory, t: Tables, a0: Attrs, a1: Attrs)
    requires Built(m0, t, a0) && Built(m1, t, a1)
    ensures forall va: Word :: SameAddress(m0, m1, t.section, va)
  {
    hide Walk, Phys;
    forall va: Word ensures SameAddress(m0, m1, t.section, va) {
      WalkIsMap(m0, t, a0, va);
      WalkIsMap(m1, t, a1, va);
    }
  }

  lemma RunBits(m0: Memory, m1: Memory, t: Tables, a0: Attrs, rs: seq<Request>)
    requires Built(m0, t, a0) && Built(m1, t, Run(a0, rs))
    ensures forall va: Word | va % 0x8000_0000 / 0x10_0000 < t.size ::
              var w, w' := Walk(m0, t.section, va), Walk(m1, t.section, va);
              && w.Mapped? && w'.Mapped?
              && w'.cb == LastMode(rs, va >= 0x8000_0000, va % 0x8000_0000 / 0x1000, w.cb * 4) / 4
  {
    hide Built, Walk, Phys, LastMode, Run;
    BuiltLayout(m0, t, a0);
    hide Layout;
    forall va: Word | va % 0x8000_0000 / 0x10_0000 < t.size
      ensures var w, w' := Walk(m0, t.section, va), Walk(m1, t.section, va);
              && w.Mapped? && w'.Mapped?
              && w'.cb == LastMode(rs, va >= 0x8000_0000, va % 0x8000_0000 / 0x1000, w.cb * 4) / 4
    {
      EditsKeepMap(m0, m1, t, a0, rs, va);
      WalkIsMap(m0, t, a0, va);
      assert CacheBits(AttrsOf(a0, va >= SHADOW)[va % SHADOW / PAGE]);
    }
  }

  /** With translation off a store changes the word at its address. */
  lemma StoreOff(bus: Bus, a: Word, w: Word)
    requires !bus.on
    ensures Store(bus, a, w) == bus.(mem := bus.mem[a as nat := w])
  {
  }

  /** Two memories translate an address to the same physical address. */
  predicate SameAddress(mem: Memory, mem': Memory, ttb: Word, va: Word) {
    var w, w' := Walk(mem, ttb, va), Walk(mem', ttb, va);
    w.Mapped? && w'.Mapped? && w.pa == w'.pa
  }

  /** The entry of any page is one of the words that placed tables are reached at. */
  lemma EntryPlace(t: Tables, alias: bool, view: bool, q: nat, on: bool)
    requires Layout(t) && q < 0x4000 && (on ==> Placed(t, alias))
    ensures EntryAt(t, view, q) < SHADOW && (on ==> Lands(t, alias, EntryAt(t, view, q)))
  {
    assert TableWord(t, EntryAt(t, view, q));
  }

  lemma SlotVia(t: Tables, alias: bool, view: bool, q: nat)
    requires TableOf(t, view) < SHADOW && EntryAt(t, view, q) < SHADOW
    ensures Via(alias, TableOf(t, view)) + 4 * q == Via(alias, EntryAt(t, view, q))
  {
  }

  lemma EntryInMemory(mem: Memory, t: Tables, a: Attrs, view: bool, q: nat)
    requires Built(mem, t, a) && q < t.size * 256
    ensures RightFrame(t, q, Read(mem, EntryAt(t, view, q)))
  {
    hide PageWord, PageBase;
    assert PagesBuilt(mem, t, a, view);
    assert Entry(mem, TableOf(t, view), q) == PageWord(PageBase(t, q), AttrsOf(a, view)[q]);
    assert CacheBits(AttrsOf(a, view)[q]);
  }

  lemma EditNone(t: Tables, a: Attrs, on: bool, alias: bool, view: bool, lo: nat, cm: nat)
    requires |a.low| == |a.shadow| == t.size * 256
    ensures EditRange(t, a, on, alias, view, lo, 0, cm) == a
  {
  }

  lemma EditNext(t: Tables, a: Attrs, on: bool, alias: bool, view: bool, lo: nat, i: nat, cm: nat)
    requires |a.low| == |a.shadow| == t.size * 256
    ensures EditRange(t, a, on, alias, view, lo, i + 1, cm)
         == EditOne(t, EditRange(t, a, on, alias, view, lo, i, cm), on, alias, view, lo + i, cm)
  {
  }

  lemma EditAllStep(t: Tables, a: Attrs, on: bool, alias: bool, rs: seq<Request>, i: nat)
    requires i < |rs| && |a.low| == |a.shadow| == t.size * 256
    ensures EditAll(t, a, on, alias, rs[..i + 1]) == Edit(t, EditAll(t, a, on, alias, rs[..i]), on, alias, rs[i])
  {
    assert rs[..i + 1][..i] == rs[..i];
  }
}
