/** Consequences of the address map: the two views agree, the map is a bijection on every mapped MB
    and its own inverse, and edits of cache attributes never move a page. */
module PageMapProps {
  import opened Bits
  import opened PageWalk
  import opened PageMap

  /** The non-cacheable view at +0x80000000 reaches the same physical address. */
  lemma ViewsAgree(mem: Memory, t: Tables, a: Attrs, va: Word)
    requires Built(mem, t, a) && va < t.size * MB
    ensures Walk(mem, t.section, va).Mapped? && va + SHADOW < TWO32 && Walk(mem, t.section, va + SHADOW).Mapped?
    ensures Walk(mem, t.section, va + SHADOW).pa == Walk(mem, t.section, va).pa
  {
    hide Walk, Frame, Cb, Phys;
    WalkIsMap(mem, t, a, va);
    WalkIsMap(mem, t, a, va + SHADOW);
    PhysAlias(t, va);
  }

  lemma PhysAlias(t: Tables, va: Word)
    requires t.size <= COARSE_MB && va < t.size * MB
    ensures InWindow(t, va) && InWindow(t, va + SHADOW) && Phys(t, va + SHADOW) == Phys(t, va)
  {
    hide Frame;
    assert (va + SHADOW) % SHADOW == va && va % SHADOW == va && (va + SHADOW) % PAGE == va % PAGE;
  }

  lemma FrameMirror(inverse: bool, q: nat)
    ensures Frame(inverse, q) / 256 == q / 256
    ensures Frame(inverse, Frame(inverse, q)) == q
  {
  }

  lemma PhysTwice(t: Tables, va: Word)
    requires 1 <= t.size <= COARSE_MB && va < t.size * MB
    ensures Phys(t, va) / MB == va / MB
    ensures Phys(t, Phys(t, va)) == va
  {
    hide Frame;
    FrameMirror(t.inverse, va / PAGE);
    FrameBound(t, va / PAGE);
    Split(Frame(t.inverse, va / PAGE), va % PAGE);
  }

  lemma Split(f: nat, o: nat)
    requires o < PAGE
    ensures (f * PAGE + o) / PAGE == f && (f * PAGE + o) % PAGE == o && (f * PAGE + o) / MB == f / 256
  {
  }

  /** Below the mapped size the walk stays in the same MB and, made twice, returns the address. */
  lemma WalkTwice(mem: Memory, t: Tables, a: Attrs, va: Word)
    requires Built(mem, t, a) && va < t.size * MB
    ensures var w := Walk(mem, t.section, va);
            && w.Mapped? && w.pa / MB == va / MB
            && var v := Walk(mem, t.section, w.pa);
            v.Mapped? && v.pa == va
  {
    hide Walk, Frame;
    WalkIsMap(mem, t, a, va);
    PhysTwice(t, va);
    WalkIsMap(mem, t, a, Phys(t, va));
  }

  /** So the walk is a bijection of every mapped MB onto itself: no two addresses collide, and each
      physical address of the MB is reached. */
  lemma WalkBijection(mem: Memory, t: Tables, a: Attrs, va: Word, vb: Word)
    requires Built(mem, t, a) && va < t.size * MB && vb < t.size * MB
    ensures Walk(mem, t.section, va).Mapped? && Walk(mem, t.section, vb).Mapped?
    ensures Walk(mem, t.section, va).pa == Walk(mem, t.section, vb).pa <==> va == vb
    ensures exists v: Word :: v / MB == va / MB && Walk(mem, t.section, v) == Mapped(va, 15, 3, Cb(t, a, v))
  {
    hide Walk, Frame, Cb;
    WalkIsMap(mem, t, a, va);
    WalkIsMap(mem, t, a, vb);
    PhysTwice(t, va);
    PhysTwice(t, vb);
    var v := Phys(t, va);
    WalkIsMap(mem, t, a, v);
    assert v / MB == va / MB && Walk(mem, t.section, v) == Mapped(va, 15, 3, Cb(t, a, v));
  }

  // ---- Edits of the cache attributes ----

  /** One call of sysSetCachePages. */
  datatype Request = Request(vaddr: Word, size: int, flag: int)

  function Start(r: Request): nat {
    r.vaddr % SHADOW / PAGE
  }

  /** The argument checks, in the unsigned arithmetic of the source. */
  predicate Accepted(r: Request) {
    && Wrap(r.vaddr % SHADOW + r.size) <= COARSE_MB * MB
    && r.vaddr % SHADOW % PAGE == 0
    && r.size % PAGE == 0
  }

  predicate Covers(r: Request, view: bool, q: nat) {
    Accepted(r) && (r.vaddr >= SHADOW) == view && Start(r) <= q < Start(r) + r.size / PAGE
  }

  /** `s` with entries lo..hi replaced by `cm`. */
  function Fill(s: seq<nat>, lo: int, hi: int, cm: nat): (r: seq<nat>)
    ensures |r| == |s|
    ensures forall q | 0 <= q < |s| :: r[q] == if lo <= q < hi then cm else s[q]
  {
    seq(|s|, q requires 0 <= q < |s| => if lo <= q < hi then cm else s[q])
  }

  function Record(a: Attrs, view: bool, lo: int, hi: int, cm: nat): Attrs {
    if view then a.(shadow := Fill(a.shadow, lo, hi, cm)) else a.(low := Fill(a.low, lo, hi, cm))
  }

  function Apply(a: Attrs, r: Request): Attrs {
    if Accepted(r) then Record(a, r.vaddr >= SHADOW, Start(r), Start(r) + r.size / PAGE, CacheMode(r.flag)) else a
  }

  function Run(a: Attrs, rs: seq<Request>): Attrs {
    if rs == [] then a else Apply(Run(a, rs[..|rs| - 1]), rs[|rs| - 1])
  }

  /** The cache bits asked for by the last accepted call that covers page q of a view. */
  function LastMode(rs: seq<Request>, view: bool, q: nat, initial: nat): nat {
    if rs == [] then initial
    else if Covers(rs[|rs| - 1], view, q) then
      var flag := rs[|rs| - 1].flag;
      if flag == 0 then 12 else if flag == 1 then 8 else 0
    else LastMode(rs[..|rs| - 1], view, q, initial)
  }

  lemma {:induction false} RunIsLastMode(a: Attrs, rs: seq<Request>, view: bool, q: nat)
    requires q < |AttrsOf(a, view)|
    ensures |Run(a, rs).low| == |a.low| && |Run(a, rs).shadow| == |a.shadow|
    ensures AttrsOf(Run(a, rs), view)[q] == LastMode(rs, view, q, AttrsOf(a, view)[q])
  {
    hide Accepted;
    if rs == [] {
    } else {
      RunIsLastMode(a, rs[..|rs| - 1], view, q);
      ApplyAt(Run(a, rs[..|rs| - 1]), rs[|rs| - 1], view, q);
    }
  }

  lemma ApplyAt(a: Attrs, r: Request, view: bool, q: nat)
    requires q < |AttrsOf(a, view)|
    ensures |Apply(a, r).low| == |a.low| && |Apply(a, r).shadow| == |a.shadow|
    ensures AttrsOf(Apply(a, r), view)[q] == if Covers(r, view, q) then CacheMode(r.flag) else AttrsOf(a, view)[q]
  {
    hide Accepted, CacheMode;
  }

  /** After any run of sysSetCachePages calls no physical address has moved, and the cache bits met by
      the walk are those of the last accepted call that covers the page in that view. */
  lemma EditsKeepMap(mem: Memory, mem': Memory, t: Tables, a: Attrs, rs: seq<Request>, va: Word)
    requires Built(mem, t, a) && Built(mem', t, Run(a, rs))
    ensures Walk(mem, t.section, va).Mapped? && Walk(mem', t.section, va).Mapped?
    ensures Walk(mem', t.section, va).pa == Walk(mem, t.section, va).pa
    ensures InWindow(t, va) ==>
              var q := va % SHADOW / PAGE;
              && q < |AttrsOf(a, va >= SHADOW)|
              && Walk(mem', t.section, va).cb == LastMode(rs, va >= SHADOW, q, AttrsOf(a, va >= SHADOW)[q]) / 4
    ensures !InWindow(t, va) ==> Walk(mem', t.section, va) == Walk(mem, t.section, va)
  {
    hide Walk, Phys;
    WalkIsMap(mem, t, a, va);
    WalkIsMap(mem', t, Run(a, rs), va);
    if InWindow(t, va) {
      RunIsLastMode(a, rs, va >= SHADOW, va % SHADOW / PAGE);
    }
  }

  // ---- The walk in numbers ----

  /** Where an address goes: inverse mapping mirrors the pages of every mapped MB but the first. */
  lemma PhysInNumbers(t: Tables, va: Word)
    requires t.size <= COARSE_MB
    ensures var v := va % 0x8000_0000;
            Phys(t, va) == if v / 0x10_0000 >= t.size then va
                           else if !t.inverse || v < 0x10_0000 then v
                           else v / 0x10_0000 * 0x10_0000 + (0xF_F000 - v % 0x10_0000 / 0x1000 * 0x1000) + v % 0x1000
  {
    var v := va % SHADOW;
    if InWindow(t, va) {
      PageInMegabyte(v);
      hide Frame;
      FrameInNumbers(t.inverse, v / PAGE);
      assert v % MB / PAGE == v / PAGE % 256;
    }
  }

  lemma FrameInNumbers(inverse: bool, q: nat)
    ensures Frame(inverse, q) == if !inverse || q < 256 then q else q / 256 * 256 + (255 - q % 256)
  {
  }

  lemma AcceptedInNumbers(r: Request)
    ensures Accepted(r) <==>
              Wrap(r.vaddr % 0x8000_0000 + r.size) <= 0x400_0000 && r.vaddr % 0x1000 == 0 && r.size % 0x1000 == 0
  {
    hide Wrap;
    var u := r.vaddr % SHADOW;
    assert r.vaddr == u || r.vaddr == u + SHADOW;
  }

  /** Inside the mapped window the pages that a request covers are its addresses. */
  lemma CoversInNumbers(r: Request, t: Tables, va: Word)
    requires InWindow(t, va) && t.size <= COARSE_MB && -0x8000_0000 <= r.size < 0x8000_0000
    ensures Covers(r, va >= SHADOW, va % SHADOW / PAGE) <==> Accepted(r) && r.vaddr <= va < r.vaddr + r.size
  {
    var v, u := va % SHADOW, r.vaddr % SHADOW;
    assert r.vaddr == u || r.vaddr == u + SHADOW;
    assert va == v || va == v + SHADOW;
    assert u % PAGE == r.vaddr % PAGE;
    if Accepted(r) && r.size > 0 { WrapSmall(u + r.size); }
    hide Wrap;
  }
}
