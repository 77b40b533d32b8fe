/** wb_aic.c: priority and type slots of the interrupt controller, handler tables, software dispatch. */
module Aic {
  /** Handlers are known by their address. */
  type Handler = nat

  const SOURCES: nat := 32

  /** Byte lane of a source within its source control register. */
  function Lane(n: nat): (k: bv6)
    ensures k < 4
  {
    match n % 4 case 0 => 0 case 1 => 1 case 2 => 2 case _ => 3
  }

  function Slot(w: bv32, k: bv6): bv32
    requires k < 4
  {
    (w >> (8 * k)) & 0xFF
  }

  /** The read-modify-write of sysInstallISR and sysSetInterruptPriorityLevel. */
  function WithLevel(w: bv32, k: bv6, level: bv32): bv32
    requires k < 4
  {
    (w & ((0xFFFF_FFF8 << (8 * k)) | ((1 << (8 * k)) - 1))) | (level << (8 * k))
  }

  /** The read-modify-write of sysSetInterruptType. */
  function WithType(w: bv32, k: bv6, ty: bv32): bv32
    requires k < 4
  {
    (w & ((0xFFFF_FF3F << (8 * k)) | ((1 << (8 * k)) - 1))) | (ty << (8 * k + 6))
  }

  lemma LevelSlot(w: bv32, k: bv6, j: bv6, level: bv32)
    requires k < 4 && j < 4 && level < 8
    ensures Slot(WithLevel(w, k, level), j) == if j == k then (Slot(w, j) & 0xF8) | level else Slot(w, j)
  {
  }

  lemma TypeSlot(w: bv32, k: bv6, j: bv6, ty: bv32)
    requires k < 4 && j < 4 && ty < 4
    ensures Slot(WithType(w, k, ty), j) == if j == k then (Slot(w, j) & 0x3F) | (ty << 6) else Slot(w, j)
  {
  }

  /** Fields of a slot: priority level, interrupt type, and the three bits between them. */
  function LevelIn(slot: bv32): bv32 { slot & 0x7 }
  function TypeIn(slot: bv32): bv32 { (slot >> 6) & 0x3 }
  function RestIn(slot: bv32): bv32 { slot & 0x38 }

  lemma SlotFields(slot: bv32, level: bv32, ty: bv32)
    requires level < 8 && ty < 4
    ensures var a := (slot & 0xF8) | level;
            LevelIn(a) == level && TypeIn(a) == TypeIn(slot) && RestIn(a) == RestIn(slot)
    ensures var b := (slot & 0x3F) | (ty << 6);
            LevelIn(b) == LevelIn(slot) && TypeIn(b) == ty && RestIn(b) == RestIn(slot)
  {
  }

  // ---- The abstract state and its history ----

  datatype State = State(scr: seq<bv32>, irq: seq<Handler>, fiq: seq<Handler>)

  predicate Shaped(st: State) {
    |st.scr| == 8 && |st.irq| == SOURCES && |st.fiq| == SOURCES
  }

  function SlotOf(st: State, n: nat): bv32
    requires Shaped(st) && n < SOURCES
  {
    Slot(st.scr[n / 4], Lane(n))
  }

  /** The slot of source n is byte n % 4 of source control register n / 4. */
  lemma SlotInNumbers(st: State, n: nat)
    requires Shaped(st) && n < SOURCES
    ensures n % 4 == 0 ==> SlotOf(st, n) == st.scr[n / 4] & 0xFF
    ensures n % 4 == 1 ==> SlotOf(st, n) == (st.scr[n / 4] >> 8) & 0xFF
    ensures n % 4 == 2 ==> SlotOf(st, n) == (st.scr[n / 4] >> 16) & 0xFF
    ensures n % 4 == 3 ==> SlotOf(st, n) == st.scr[n / 4] >> 24
  {
    LaneInNumbers(st.scr[n / 4]);
    hide Slot;
  }

  lemma LaneInNumbers(w: bv32)
    ensures Slot(w, 0) == w & 0xFF && Slot(w, 1) == (w >> 8) & 0xFF
    ensures Slot(w, 2) == (w >> 16) & 0xFF && Slot(w, 3) == w >> 24
  {
  }

  datatype Op = SetLevel(n: nat, level: bv32) | SetType(n: nat, ty: bv32) | Install(n: nat, level: bv32, isr: Handler)

  /** Level and type within their fields. */
  predicate InRange(op: Op) {
    match op
    case SetLevel(_, level) => level < 8
    case SetType(_, ty) => ty < 4
    case Install(_, level, _) => level < 8
  }

  /** A source with an entry in the handler tables. */
  predicate Installable(op: Op) {
    op.Install? ==> op.n < SOURCES
  }

  predicate AllInstallable(ops: seq<Op>) {
    forall op | op in ops :: Installable(op)
  }

  predicate AllInRange(ops: seq<Op>) {
    forall op | op in ops :: Installable(op) && InRange(op)
  }

  /** sysSetInterruptPriorityLevel and sysSetInterruptType reject source 0 and sources above 31. */
  predicate Rejected(op: Op) {
    !op.Install? && (op.n > 31 || op.n < 1)
  }

  function Apply(st: State, op: Op): (st': State)
    requires Shaped(st) && Installable(op)
    ensures Shaped(st')
  {
    if Rejected(op) then st
    else match op
      case SetLevel(n, level) => st.(scr := st.scr[n / 4 := WithLevel(st.scr[n / 4], Lane(n), level)])
      case SetType(n, ty) => st.(scr := st.scr[n / 4 := WithType(st.scr[n / 4], Lane(n), ty)])
      case Install(n, level, isr) =>
        var s := st.(scr := st.scr[n / 4 := WithLevel(st.scr[n / 4], Lane(n), level)]);
        if level == 0 then s.(fiq := s.fiq[n := isr]) else if level <= 7 then s.(irq := s.irq[n := isr]) else s
  }

  function Run(st: State, ops: seq<Op>): (st': State)
    requires Shaped(st) && AllInstallable(ops)
    ensures Shaped(st')
  {
    if ops == [] then st else Apply(Run(st, ops[..|ops| - 1]), ops[|ops| - 1])
  }

  function LastLevel(ops: seq<Op>, n: nat, init: bv32): bv32 {
    if ops == [] then init
    else var op := ops[|ops| - 1];
         if op.n == n && (op.Install? || (op.SetLevel? && 1 <= n <= 31)) then op.level
         else LastLevel(ops[..|ops| - 1], n, init)
  }

  function LastType(ops: seq<Op>, n: nat, init: bv32): bv32 {
    if ops == [] then init
    else var op := ops[|ops| - 1];
         if op.n == n && op.SetType? && 1 <= n <= 31 then op.ty else LastType(ops[..|ops| - 1], n, init)
  }

  /** The handler last installed for source n at an IRQ level, or at the FIQ level. */
  function LastHandler(ops: seq<Op>, n: nat, fiq: bool, init: Handler): Handler {
    if ops == [] then init
    else var op := ops[|ops| - 1];
         if op.Install? && op.n == n && (op.level == 0) == fiq then op.isr
         else LastHandler(ops[..|ops| - 1], n, fiq, init)
  }

  /** One operation changes the level or the type of its own source and nothing else. */
  lemma ApplySlot(st: State, op: Op, n: nat)
    requires Shaped(st) && Installable(op) && InRange(op) && n < SOURCES
    ensures var s, s' := SlotOf(st, n), SlotOf(Apply(st, op), n);
            && LevelIn(s') == (if op.n == n && (op.Install? || (op.SetLevel? && 1 <= n <= 31)) then op.level
                               else LevelIn(s))
            && TypeIn(s') == (if op.n == n && op.SetType? && 1 <= n <= 31 then op.ty else TypeIn(s))
            && RestIn(s') == RestIn(s)
  {
    hide Slot, WithLevel, WithType, LevelIn, TypeIn, RestIn;
    if !Rejected(op) {
      SameLane(op.n, n);
      hide Lane;
      var w := st.scr[n / 4];
      if op.SetType? {
        TypeSlot(w, Lane(op.n), Lane(n), op.ty);
        SlotFields(Slot(w, Lane(n)), 0, op.ty);
      } else {
        LevelSlot(w, Lane(op.n), Lane(n), op.level);
        SlotFields(Slot(w, Lane(n)), op.level, 0);
      }
    }
  }

  lemma SameLane(m: nat, n: nat)
    ensures m / 4 == n / 4 && Lane(m) == Lane(n) <==> m == n
  {
  }

  /** After any history each slot decodes to its last level and its last type, the bits between them
      are those it began with, and each table holds the handler last installed. */
  lemma {:induction false} RunDecodes(st: State, ops: seq<Op>, n: nat)
    requires Shaped(st) && n < SOURCES && AllInstallable(ops) && AllInRange(ops)
    ensures var s, s' := SlotOf(st, n), SlotOf(Run(st, ops), n);
            && LevelIn(s') == LastLevel(ops, n, LevelIn(s))
            && TypeIn(s') == LastType(ops, n, TypeIn(s))
            && RestIn(s') == RestIn(s)
    ensures Run(st, ops).irq[n] == LastHandler(ops, n, false, st.irq[n])
    ensures Run(st, ops).fiq[n] == LastHandler(ops, n, true, st.fiq[n])
  {
    hide LevelIn, TypeIn, RestIn, SlotOf, WithLevel, WithType;
    if ops == [] {
    } else {
      var front, op := ops[..|ops| - 1], ops[|ops| - 1];
      RunDecodes(st, front, n);
      ApplySlot(Run(st, front), op, n);
    }
  }

  // ---- Software dispatch ----

  predicate Pending(isr: bv32, i: nat)
    requires i < SOURCES
  {
    isr & (1 << i) != 0
  }

  /** Pending sources from i up, in ascending order. */
  function PendingFrom(isr: bv32, i: nat): (s: seq<nat>)
    requires i <= SOURCES
    ensures forall k | 0 <= k < |s| :: i <= s[k] < SOURCES
    decreases SOURCES - i
  {
    if i == SOURCES then [] else (if Pending(isr, i) then [i] else []) + PendingFrom(isr, i + 1)
  }

  /** They are exactly the pending sources. */
  lemma {:induction false} PendingExactly(isr: bv32, i: nat, n: nat)
    requires i <= n < 32
    ensures n in PendingFrom(isr, i) <==> Pending(isr, n)
    ensures n in PendingFrom(isr, i) <==> isr & (1 << n) != 0
    decreases SOURCES - i
  {
    assert Pending(isr, n) <==> isr & (1 << n) != 0;
    hide Pending;
    PendingHead(isr, i, n);
    hide PendingFrom;
    if i < n { PendingExactly(isr, i + 1, n); }
  }

  lemma PendingHead(isr: bv32, i: nat, n: nat)
    requires i <= n < SOURCES
    ensures n in PendingFrom(isr, i) <==> if n == i then Pending(isr, n) else n in PendingFrom(isr, i + 1)
  {
    hide Pending;
    PendingStep(isr, i);
    hide PendingFrom;
    InCons(i, PendingFrom(isr, i + 1), n);
  }

  predicate Ascending(s: seq<nat>) {
    forall j, k | 0 <= j < k < |s| :: s[j] < s[k]
  }

  /** Each is called once, in ascending order. */
  lemma {:induction false} PendingAscends(isr: bv32, i: nat)
    requires i <= SOURCES
    ensures Ascending(PendingFrom(isr, i))
    decreases SOURCES - i
  {
    hide Pending;
    PendingStep(isr, i);
    hide PendingFrom, Ascending;
    if i < SOURCES {
      PendingAscends(isr, i + 1);
      if Pending(isr, i) { ConsAscends(i, PendingFrom(isr, i + 1)); }
    } else {
      NoneAscend();
    }
  }

  lemma NoneAscend()
    ensures Ascending([])
  {
  }

  lemma ConsAscends(i: nat, rest: seq<nat>)
    requires Ascending(rest) && forall k | 0 <= k < |rest| :: i < rest[k]
    ensures Ascending([i] + rest)
  {
  }

  lemma PendingStep(isr: bv32, i: nat)
    requires i <= SOURCES
    ensures i == SOURCES ==> PendingFrom(isr, i) == []
    ensures i < SOURCES && Pending(isr, i) ==> PendingFrom(isr, i) == [i] + PendingFrom(isr, i + 1)
    ensures i < SOURCES && !Pending(isr, i) ==> PendingFrom(isr, i) == PendingFrom(isr, i + 1)
  {
    hide Pending;
  }

  lemma InCons(i: nat, rest: seq<nat>, n: nat)
    ensures n in [i] + rest <==> n == i || n in rest
  {
  }

  function TableOf(st: State, fiq: bool): seq<Handler> {
    if fiq then st.fiq else st.irq
  }

  /** What the handlers of the first k sources do, when the handler run for source i makes the calls acts[i]. */
  function Earlier(sources: seq<nat>, acts: seq<seq<Op>>, k: nat): (ops: seq<Op>)
    requires k <= |sources| && (forall j | 0 <= j < |sources| :: sources[j] < |acts|)
    requires forall ops | ops in acts :: AllInstallable(ops)
    ensures AllInstallable(ops)
  {
    if k == 0 then [] else
      assert acts[sources[k - 1]] in acts;
      Earlier(sources, acts, k - 1) + acts[sources[k - 1]]
  }

  lemma {:induction false} RunAppend(st: State, ops: seq<Op>, more: seq<Op>)
    requires Shaped(st) && AllInstallable(ops) && AllInstallable(more)
    ensures AllInstallable(ops + more) && Run(st, ops + more) == Run(Run(st, ops), more)
    decreases |more|
  {
    hide Apply;
    if more == [] {
      assert ops + more == ops;
    } else {
      var n := |more| - 1;
      RunAppend(st, ops, more[..n]);
      assert (ops + more)[..|ops| + n] == ops + more[..n];
    }
  }

  /** The handler that dispatch calls for the k-th source: the one in the table as it is by then. */
  function CallFor(st: State, sources: seq<nat>, acts: seq<seq<Op>>, fiq: bool, k: nat): Handler
    requires Shaped(st) && k < |sources| && (forall j | 0 <= j < |sources| :: sources[j] < SOURCES) && |acts| == SOURCES
    requires forall a | a in acts :: AllInstallable(a)
  {
    TableOf(Run(st, Earlier(sources, acts, k)), fiq)[sources[k]]
  }

  /** After any history of calls, software dispatch calls for each pending source, in ascending order, the
      handler last installed for it in the table that is served: before the dispatch, or by a handler that
      ran earlier in it. */
  lemma DispatchAfterRun(st: State, ops: seq<Op>, isr: bv32, fiq: bool, acts: seq<seq<Op>>, k: nat)
    requires Shaped(st) && AllInstallable(ops) && |acts| == SOURCES && k < |PendingFrom(isr, 1)|
    requires forall a | a in acts :: AllInstallable(a)
    requires var made := ops + Earlier(PendingFrom(isr, 1), acts, k); AllInstallable(made) && AllInRange(made)
    ensures var n, made := PendingFrom(isr, 1)[k], Earlier(PendingFrom(isr, 1), acts, k);
            && Pending(isr, n)
            && CallFor(Run(st, ops), PendingFrom(isr, 1), acts, fiq, k)
               == LastHandler(ops + made, n, fiq, TableOf(st, fiq)[n])
  {
    hide Run, LastHandler, PendingFrom, Pending, AllInRange, AllInstallable, Earlier;
    var n := PendingFrom(isr, 1)[k];
    assert n in PendingFrom(isr, 1);
    PendingExactly(isr, 1, n);
    RunAppend(st, ops, Earlier(PendingFrom(isr, 1), acts, k));
    RunDecodes(st, ops + Earlier(PendingFrom(isr, 1), acts, k), n);
  }

  class Controller {
    var scr: seq<bv32>
    var irqTable: seq<Handler>
    var fiqTable: seq<Handler>

    ghost predicate Valid()
      reads this
    {
      Shaped(Abs())
    }

    ghost function Abs(): State
      reads this
    {
      State(scr, irqTable, fiqTable)
    }

    /** All slots zero and the shell handler everywhere, as the tables are initialized. */
    constructor (shell: Handler)
      ensures Valid()
      ensures forall n | 1 <= n < SOURCES :: irqTable[n] == shell && fiqTable[n] == shell
    {
      scr := seq(8, _ => 0);
      irqTable := [0] + seq(31, _ => shell);
      fiqTable := [0] + seq(31, _ => shell);
    }

    /** sysInstallISR; the previous handler is returned. For a level above 7 no handler is installed and the
        source returns an uninitialized variable. */
    method InstallISR(level: bv32, n: nat, isr: Handler) returns (previous: Handler)
      requires Valid() && n < SOURCES
      modifies this
      ensures Valid() && Abs() == Apply(old(Abs()), Install(n, level, isr))
      ensures level <= 7 ==> previous == if level == 0 then old(fiqTable)[n] else old(irqTable)[n]
    {
      hide WithLevel;
      var w := scr[n / 4];
      scr := scr[n / 4 := WithLevel(w, Lane(n), level)];
      if level == 0 {
        previous := fiqTable[n];
        fiqTable := fiqTable[n := isr];
      } else if level <= 7 {
        previous := irqTable[n];
        irqTable := irqTable[n := isr];
      } else {
        previous := *;
      }
    }

    /** sysSetInterruptPriorityLevel. */
    method SetPriorityLevel(n: nat, level: bv32) returns (ok: bool)
      requires Valid()
      modifies this
      ensures Valid() && Abs() == Apply(old(Abs()), SetLevel(n, level)) && ok == (1 <= n <= 31)
    {
      hide WithLevel;
      if n > 31 || n < 1 { return false; }
      scr := scr[n / 4 := WithLevel(scr[n / 4], Lane(n), level)];
      return true;
    }

    /** sysSetInterruptType. */
    method SetInterruptType(n: nat, ty: bv32) returns (ok: bool)
      requires Valid()
      modifies this
      ensures Valid() && Abs() == Apply(old(Abs()), SetType(n, ty)) && ok == (1 <= n <= 31)
    {
      hide WithType;
      if n > 31 || n < 1 { return false; }
      scr := scr[n / 4 := WithType(scr[n / 4], Lane(n), ty)];
      return true;
    }

    /** A handler, by the calls it makes. */
    method Perform(ops: seq<Op>)
      requires Valid() && AllInstallable(ops)
      modifies this
      ensures Valid() && Abs() == Run(old(Abs()), ops)
    {
      hide Apply;
      var i := 0;
      while i < |ops|
        invariant 0 <= i <= |ops| && Valid() && AllInstallable(ops[..i]) && Abs() == Run(old(Abs()), ops[..i])
      {
        assert ops[i] in ops && ops[..i + 1] == ops[..i] + [ops[i]];
        match ops[i] {
          case SetLevel(n, level) => var _ := SetPriorityLevel(n, level);
          case SetType(n, ty) => var _ := SetInterruptType(n, ty);
          case Install(n, level, isr) => var _ := InstallISR(level, n, isr);
        }
        assert ops[..i + 1][..i] == ops[..i];
        i := i + 1;
      }
      assert ops[..i] == ops;
    }

    /** The software-mode branch of sysIrqHandler and sysFiqHandler: the handlers it calls, in order. The
        handler run for source i makes the calls acts[i]; later sources see their effect. */
    method Dispatch(isr: bv32, fiq: bool, acts: seq<seq<Op>>) returns (calls: seq<Handler>)
      requires Valid() && |acts| == SOURCES && forall a | a in acts :: AllInstallable(a)
      modifies this
      ensures Valid()
      ensures var s := PendingFrom(isr, 1);
              && |calls| == |s| && Abs() == Run(old(Abs()), Earlier(s, acts, |s|))
              && forall k | 0 <= k < |s| :: calls[k] == CallFor(old(Abs()), s, acts, fiq, k)
    {
      hide Pending, PendingFrom, AllInstallable, Run, Earlier, Abs;
      ghost var s, st := PendingFrom(isr, 1), Abs();
      calls := [];
      NoneEarlier(st, s, acts);
      var i := 1;
      while i < SOURCES
        invariant 1 <= i <= SOURCES && Valid() && |calls| <= |s|
        invariant s[|calls|..] == PendingFrom(isr, i)
        invariant Abs() == Run(st, Earlier(s, acts, |calls|))
        invariant Called(st, s, acts, fiq, calls)
      {
        PendingStep(isr, i);
        if Pending(isr, i) {
          TailStep(s, |calls|, i, PendingFrom(isr, i + 1));
          NextEarlier(st, s, acts, |calls|);
          var h := Serve(i, fiq, acts[i]);
          OneMoreCalled(st, s, acts, fiq, calls, h);
          calls := calls + [h];
        }
        i := i + 1;
      }
      PendingStep(isr, SOURCES);
    }

    /** One handler call. */
    method Serve(i: nat, fiq: bool, ops: seq<Op>) returns (h: Handler)
      requires Valid() && i < SOURCES && AllInstallable(ops)
      modifies this
      ensures Valid() && Abs() == Run(old(Abs()), ops) && h == TableOf(old(Abs()), fiq)[i]
    {
      h := if fiq then fiqTable[i] else irqTable[i];
      Perform(ops);
    }
  }

  /** The calls made for the first sources are those of the tables as they were then. */
  ghost predicate Called(st: State, s: seq<nat>, acts: seq<seq<Op>>, fiq: bool, calls: seq<Handler>)
    requires Shaped(st) && |calls| <= |s| && (forall j | 0 <= j < |s| :: s[j] < SOURCES) && |acts| == SOURCES
    requires forall a | a in acts :: AllInstallable(a)
  {
    forall k | 0 <= k < |calls| :: calls[k] == CallFor(st, s, acts, fiq, k)
  }

  lemma OneMoreCalled(st: State, s: seq<nat>, acts: seq<seq<Op>>, fiq: bool, calls: seq<Handler>, h: Handler)
    requires Shaped(st) && |calls| < |s| && (forall j | 0 <= j < |s| :: s[j] < SOURCES) && |acts| == SOURCES
    requires forall a | a in acts :: AllInstallable(a)
    requires Called(st, s, acts, fiq, calls)
    requires h == CallFor(st, s, acts, fiq, |calls|)
    ensures Called(st, s, acts, fiq, calls + [h])
  {
    hide CallFor;
  }

  lemma NoneEarlier(st: State, s: seq<nat>, acts: seq<seq<Op>>)
    requires Shaped(st) && (forall j | 0 <= j < |s| :: s[j] < |acts|) && forall a | a in acts :: AllInstallable(a)
    ensures Run(st, Earlier(s, acts, 0)) == st
  {
  }

  lemma NextEarlier(st: State, s: seq<nat>, acts: seq<seq<Op>>, k: nat)
    requires Shaped(st) && k < |s| && (forall j | 0 <= j < |s| :: s[j] < |acts|)
    requires forall a | a in acts :: AllInstallable(a)
    ensures AllInstallable(acts[s[k]])
    ensures Run(st, Earlier(s, acts, k + 1)) == Run(Run(st, Earlier(s, acts, k)), acts[s[k]])
  {
    hide Run, AllInstallable;
    assert acts[s[k]] in acts;
    RunAppend(st, Earlier(s, acts, k), acts[s[k]]);
  }

  lemma TailStep(s: seq<nat>, k: nat, i: nat, rest: seq<nat>)
    requires k <= |s| && s[k..] == [i] + rest
    ensures k < |s| && s[k] == i && s[k + 1..] == rest
  {
    assert s[k..][0] == i && s[k..][1..] == rest;
  }
}
