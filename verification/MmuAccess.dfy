/** How the driver reaches its own tables: through their physical address while its cache flag is off, and
    through the alias at +0x80000000 while it is on; and what a store made that way does. */
module MmuAccess {
  import opened Bits
  import opened Division
  import opened PageWalk
  import opened PageMap
  import opened PageMapProps

  lemma AliasBits(p: Word)
    requires p < SHADOW
    ensures Or(p, 0x8000_0000) == p + SHADOW
  {
    hide Or;
    WordIs32Bits();
    OrAdds(1, p, 31);
  }

  /** The virtual address that the driver uses for the word at `addr`. */
  function Via(alias: bool, addr: nat): (va: Word)
    requires addr < SHADOW
  {
    if alias then addr + SHADOW else addr
  }

  /** That address translates back to the word: the word is in mapped memory and its page is not mirrored. */
  predicate Lands(t: Tables, alias: bool, addr: nat) {
    if addr < t.size * MB then !t.inverse || addr < MB else !alias
  }

  /** The page it is on is write-back, so that a store stays in the data cache. */
  predicate WriteBack(t: Tables, a: Attrs, alias: bool, addr: nat)
    requires |a.low| == |a.shadow| == t.size * 256
  {
    addr < t.size * MB && AttrsOf(a, alias)[addr / PAGE] == 12
  }

  predicate Reaches(t: Tables, a: Attrs, alias: bool, addr: nat)
    requires |a.low| == |a.shadow| == t.size * 256
  {
    Lands(t, alias, addr) && !WriteBack(t, a, alias, addr)
  }

  lemma LandsExactly(t: Tables, alias: bool, addr: nat)
    requires 1 <= t.size <= COARSE_MB && addr < SHADOW
    ensures Phys(t, Via(alias, addr)) == addr <==> Lands(t, alias, addr)
  {
    var va := Via(alias, addr);
    assert va % SHADOW == addr && va % PAGE == addr % PAGE;
    FrameFixed(t.inverse, addr / PAGE);
    assert addr == addr / PAGE * PAGE + addr % PAGE;
  }

  /** Reversal within an MB moves every page. */
  lemma FrameFixed(inverse: bool, q: nat)
    ensures Frame(inverse, q) == q <==> !inverse || q < 256
  {
  }

  lemma CacheVia(t: Tables, a: Attrs, alias: bool, addr: nat)
    requires Layout(t) && AttrsOk(a, t) && addr < SHADOW
    ensures Cb(t, a, Via(alias, addr)) == 3 <==> WriteBack(t, a, alias, addr)
  {
    var va := Via(alias, addr);
    assert va % SHADOW == addr && (va >= SHADOW) == alias;
    if addr < t.size * MB {
      assert CacheBits(AttrsOf(a, alias)[addr / PAGE]);
    }
  }

  /** The exact condition under which a store changes the word that the hardware walker reads, whatever
      the new value. */
  lemma StoreReachesWalker(bus: Bus, t: Tables, a: Attrs, alias: bool, addr: nat, w: Word)
    requires bus.on && bus.ttb == t.section && Built(bus.mem, t, a)
    requires addr < SHADOW && w != Read(bus.mem, addr)
    ensures Read(Store(bus, Via(alias, addr), w).mem, addr) == w <==> Reaches(t, a, alias, addr)
    ensures Reaches(t, a, alias, addr) ==> Store(bus, Via(alias, addr), w).mem == bus.mem[addr := w]
  {
    hide Walk, Phys, Cb, WriteBack;
    WalkIsMap(bus.mem, t, a, Via(alias, addr));
    LandsExactly(t, alias, addr);
    CacheVia(t, a, alias, addr);
  }

  // ---- The words of the second-level tables ----

  predicate TableWord(t: Tables, addr: nat) {
    t.coarse <= addr < t.coarse + TABLE_BYTES || t.shadow <= addr < t.shadow + TABLE_BYTES
  }

  /** Every access of the driver to its tables finds the word it is meant for. */
  ghost predicate Placed(t: Tables, alias: bool) {
    forall addr: nat | TableWord(t, addr) :: Lands(t, alias, addr)
  }

  /** And every store reaches the walker. */
  ghost predicate Reachable(t: Tables, a: Attrs, alias: bool)
    requires |a.low| == |a.shadow| == t.size * 256
  {
    forall addr: nat | TableWord(t, addr) :: Reaches(t, a, alias, addr)
  }

  /** With the cache flag on the tables have to lie in mapped memory, in inverse mode in the first MB; with
      the flag off any place will do in direct mode. */
  lemma PlacedExactly(t: Tables)
    ensures Placed(t, true) <==>
            var limit := if t.inverse && t.size > 0 then MB else t.size * MB;
            t.coarse + TABLE_BYTES <= limit && t.shadow + TABLE_BYTES <= limit
    ensures !t.inverse ==> Placed(t, false)
  {
    var limit := if t.inverse && t.size > 0 then MB else t.size * MB;
    forall addr: nat ensures Lands(t, true, addr) <==> addr < limit {
    }
    var last1, last2 := t.coarse + TABLE_BYTES - 1, t.shadow + TABLE_BYTES - 1;
    assert TableWord(t, last1) && TableWord(t, last2);
    if Placed(t, true) {
      assert Lands(t, true, last1) && Lands(t, true, last2);
    }
  }

  /** A request that makes a page write-back through which the driver reaches its tables. */
  ghost predicate BuriesTables(t: Tables, alias: bool, r: Request) {
    r.flag == 0 && exists addr: nat ::
      TableWord(t, addr) && addr < t.size * MB && Covers(r, alias, addr / PAGE)
  }

  /** An edit keeps all table words reachable for later edits unless, and only unless, it makes a page
      write-back through which the driver reaches them. */
  lemma ReachableKept(t: Tables, a: Attrs, alias: bool, r: Request)
    requires |a.low| == |a.shadow| == t.size * 256 && Reachable(t, a, alias)
    ensures |Apply(a, r).low| == |Apply(a, r).shadow| == t.size * 256
    ensures Reachable(t, Apply(a, r), alias) <==> !BuriesTables(t, alias, r)
  {
    hide Accepted, Lands;
    var b := Apply(a, r);
    forall addr: nat | TableWord(t, addr)
      ensures Lands(t, alias, addr)
      ensures WriteBack(t, b, alias, addr) <==>
              addr < t.size * MB && Covers(r, alias, addr / PAGE) && r.flag == 0
    {
      assert Reaches(t, a, alias, addr);
      if addr < t.size * MB { ApplyAt(a, r, alias, addr / PAGE); }
    }
    if BuriesTables(t, alias, r) {
      var addr: nat :| TableWord(t, addr) && addr < t.size * MB && Covers(r, alias, addr / PAGE);
      assert !Reaches(t, b, alias, addr);
    }
  }

  // ---- What loads and stores of table words do ----

  /** A store lands on its word, in memory or, on a write-back page, in the data cache. */
  lemma TableStore(bus: Bus, t: Tables, a: Attrs, alias: bool, addr: nat, w: Word)
    requires bus.on && bus.ttb == t.section && Built(bus.mem, t, a) && addr < SHADOW && Lands(t, alias, addr)
    ensures var b := Store(bus, Via(alias, addr), w);
            && b.on && b.ttb == bus.ttb
            && b.mem == (if WriteBack(t, a, alias, addr) then bus.mem else bus.mem[addr := w])
            && (b.dcache == bus.dcache || b.dcache == bus.dcache[addr := w])
  {
    hide Walk, Phys, Cb, WriteBack, Lands;
    WalkIsMap(bus.mem, t, a, Via(alias, addr));
    LandsExactly(t, alias, addr);
    CacheVia(t, a, alias, addr);
  }

  lemma TableLoad(bus: Bus, t: Tables, a: Attrs, alias: bool, addr: nat)
    requires bus.on && bus.ttb == t.section && Built(bus.mem, t, a) && addr < SHADOW && Lands(t, alias, addr)
    ensures var w := Load(bus, Via(alias, addr));
            w == Read(bus.mem, addr) || (addr in bus.dcache && w == bus.dcache[addr])
  {
    hide Walk, Phys, Cb, Lands;
    WalkIsMap(bus.mem, t, a, Via(alias, addr));
    LandsExactly(t, alias, addr);
  }

  /** A page entry with the frame that the map assigns to page q. */
  predicate RightFrame(t: Tables, q: nat, w: Word)
    requires t.size <= COARSE_MB && q < t.size * 256
  {
    w == PageWord(PageBase(t, q), 0) || w == PageWord(PageBase(t, q), 8) || w == PageWord(PageBase(t, q), 12)
  }

  /** Address of the entry of page q of a view. */
  function EntryAt(t: Tables, view: bool, q: nat): nat {
    TableOf(t, view) + 4 * q
  }

  /** Table words in the data cache may have old cache bits, but their frames are right. */
  ghost predicate Coherent(dcache: Memory, t: Tables)
    requires t.size <= COARSE_MB
  {
    forall view: bool, q: nat | q < t.size * 256 && EntryAt(t, view, q) in dcache ::
      RightFrame(t, q, dcache[EntryAt(t, view, q)])
  }

  /** A load of the entry of a mapped page has the right frame. */
  lemma LoadedFrame(bus: Bus, t: Tables, a: Attrs, alias: bool, view: bool, q: nat)
    requires bus.on && bus.ttb == t.section && Built(bus.mem, t, a) && Coherent(bus.dcache, t)
    requires q < t.size * 256 && Lands(t, alias, EntryAt(t, view, q))
    ensures RightFrame(t, q, Load(bus, Via(alias, EntryAt(t, view, q))))
  {
    hide Load, PageWord, PageBase, Lands;
    TableLoad(bus, t, a, alias, EntryAt(t, view, q));
    assert PagesBuilt(bus.mem, t, a, view);
    assert Entry(bus.mem, TableOf(t, view), q) == PageWord(PageBase(t, q), AttrsOf(a, view)[q]);
    assert CacheBits(AttrsOf(a, view)[q]);
  }

  /** The frame field of such a word is the physical address of the page. */
  lemma FrameField(t: Tables, q: nat, w: Word)
    requires t.size <= COARSE_MB && q < t.size * 256 && RightFrame(t, q, w)
    ensures w / PAGE * PAGE == PageBase(t, q) == Frame(t.inverse, q) * PAGE && PageBase(t, q) + PAGE <= SHADOW
  {
    hide Frame;
    FrameBound(t, q);
    hide PageBase;
    var b := PageBase(t, q);
    assert b % PAGE == 0;
    BareFrame(b, w);
  }

  lemma BareFrame(b: Word, w: Word)
    requires b % PAGE == 0
    requires w == PageWord(b, 0) || w == PageWord(b, 8) || w == PageWord(b, 12)
    ensures w / PAGE * PAGE == b
  {
    var c := w - b;
    QuotRem(w, PAGE, b / PAGE, c);
  }

  /** The new word that sysSetCachePages stores for an old one. */
  function Recache(w: Word, cm: nat): Word
    requires CacheBits(cm)
  {
    WordOps(w, 0xFFFF_FFF3);
    WordOps(And(w, 0xFFFF_FFF3), cm);
    Or(And(w, 0xFFFF_FFF3), cm)
  }

  /** Rewriting its cache bits gives the entry with the new bits. */
  lemma Recached(t: Tables, q: nat, w: Word, cm: nat)
    requires t.size <= COARSE_MB && q < t.size * 256 && RightFrame(t, q, w) && CacheBits(cm)
    ensures Recache(w, cm) == PageWord(PageBase(t, q), cm)
  {
    hide And, Or, PageWord, PageBase;
    var b := PageBase(t, q);
    RecacheBits(b, if w == PageWord(b, 0) then 0 else if w == PageWord(b, 8) then 8 else 12, cm);
  }
}
