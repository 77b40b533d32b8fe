/** The transmit ring of wb_uart.c as a state machine: the statements of _PutChar_f, with the interrupt
    service routine running between any two of them. */
module UartRing {
  const SLOTS: nat := 256

  /** Where the producer stands. Each state is one statement of _PutChar_f; `c` is its argument.
      `Wait2` to `Advance2` insert the '\r' that follows a '\n'. */
  datatype Pc =
    | Idle
    | Wait1(c: char) | Store1(c: char) | Advance1(c: char)
    | Wait2 | Store2 | Advance2
    | CheckIer(c: char) | EnableIer(c: char)

  /** `thre` is THRE_IEN and `others` the remaining bits of the interrupt enable register. `sent` is
      everything written to the transmit register; `done` lists the characters of completed calls. */
  datatype State = State(
    buf: seq<char>, head: nat, tail: nat, thre: bool, others: nat, sent: seq<char>, pc: Pc, done: seq<char>)

  function Next(i: nat): nat {
    if i + 1 == SLOTS then 0 else i + 1
  }

  predicate Full(s: State) {
    Next(s.tail) == s.head
  }

  predicate Shaped(s: State) {
    |s.buf| == SLOTS && s.head < SLOTS && s.tail < SLOTS
  }

  function Count(s: State): nat
    requires Shaped(s)
  {
    if s.head <= s.tail then s.tail - s.head else s.tail + SLOTS - s.head
  }

  /** Ring contents from head to tail. */
  function Ring(s: State): (r: seq<char>)
    requires Shaped(s)
    ensures |r| == Count(s)
  {
    if s.head <= s.tail then s.buf[s.head..s.tail] else s.buf[s.head..] + s.buf[..s.tail]
  }

  /** The bytes that one call enqueues. */
  function Expand(c: char): seq<char> {
    if c == '\n' then ['\n', '\r'] else [c]
  }

  function ExpandAll(cs: seq<char>): seq<char> {
    if cs == [] then [] else ExpandAll(cs[..|cs| - 1]) + Expand(cs[|cs| - 1])
  }

  /** The bytes that the call in progress has already enqueued. */
  function InProgress(pc: Pc): seq<char> {
    match pc
    case Wait2 => ['\n']
    case Store2 => ['\n']
    case Advance2 => ['\n']
    case CheckIer(c) => Expand(c)
    case EnableIer(c) => Expand(c)
    case _ => []
  }

  // ---- Steps ----

  datatype Action = Start(c: char) | Produce | Interrupt(flag: bool)

  function AfterByte(c: char): Pc {
    if c == '\n' then Wait2 else CheckIer(c)
  }

  /** One statement of the producer; a wait that finds the ring full stays where it is. */
  function ProducerStep(s: State): State
    requires Shaped(s)
  {
    match s.pc
    case Idle => s
    case Wait1(c) => if Full(s) then s else s.(pc := Store1(c))
    case Store1(c) => s.(buf := s.buf[s.tail := c], pc := Advance1(c))
    case Advance1(c) => s.(tail := Next(s.tail), pc := AfterByte(c))
    case Wait2 => if Full(s) then s else s.(pc := Store2)
    case Store2 => s.(buf := s.buf[s.tail := '\r'], pc := Advance2)
    case Advance2 => s.(tail := Next(s.tail), pc := CheckIer('\n'))
    case CheckIer(c) => if s.thre then s.(pc := Idle, done := s.done + [c]) else s.(pc := EnableIer(c))
    case EnableIer(c) => s.(thre := true, others := 0, pc := Idle, done := s.done + [c])
  }

  /** One byte moved from the ring to the transmit register. */
  function SendOne(s: State): State
    requires Shaped(s)
  {
    s.(sent := s.sent + [s.buf[s.head]], head := Next(s.head))
  }

  /** The transmit loop: at least one byte, at most n, stopping when the ring is empty. */
  function SendUpTo(s: State, n: nat): (r: State)
    requires Shaped(s) && n > 0
    ensures Shaped(r)
    decreases n
  {
    var t := SendOne(s);
    if n == 1 || t.head == t.tail then t else SendUpTo(t, n - 1)
  }

  /** The transmit part of sysUartISR. It acts only when the flag and its enable bit are both set. */
  function Isr(s: State, flag: bool): (r: State)
    requires Shaped(s)
  {
    if !(flag && s.thre) then s
    else if s.head == s.tail then s.(thre := false)
    else SendUpTo(s, 8)
  }

  function Step(s: State, a: Action): State
    requires Shaped(s)
  {
    match a
    case Start(c) => if s.pc.Idle? then s.(pc := Wait1(c)) else s
    case Produce => ProducerStep(s)
    case Interrupt(flag) => Isr(s, flag)
  }

  // ---- The invariant ----

  /** Everything that has left or will leave the ring, in order. */
  function Carried(s: State): seq<char>
    requires Shaped(s)
  {
    s.sent + Ring(s)
  }

  /** Everything the calls have enqueued so far. */
  function Enqueued(s: State): seq<char> {
    ExpandAll(s.done) + InProgress(s.pc)
  }

  /** Nothing is lost, duplicated or overwritten: what was sent followed by the ring contents is what the
      calls have enqueued so far. A disabled transmit interrupt means that the ring holds at most the
      bytes of the call in progress, so no wakeup is lost. */
  ghost predicate Inv(s: State) {
    && Shaped(s)
    && Carried(s) == Enqueued(s)
    && (!s.thre ==> Count(s) <= |InProgress(s.pc)|)
    && (s.pc.Store1? || s.pc.Advance1? || s.pc.Store2? || s.pc.Advance2? ==> !Full(s))
    && (s.pc.Advance1? ==> s.buf[s.tail] == s.pc.c)
    && (s.pc.Advance2? ==> s.buf[s.tail] == '\r')
    && (s.pc.EnableIer? ==> !s.thre)
  }

  function Initial(buf: seq<char>, others: nat): State {
    State(buf, 0, 0, false, others, [], Idle, [])
  }

  lemma CapacityIs255(s: State)
    requires Shaped(s)
    ensures Count(s) <= SLOTS - 1
    ensures Full(s) <==> Count(s) == SLOTS - 1
    ensures s.head == s.tail <==> Count(s) == 0
  {
  }

  /** Storing into the free slot does not change the ring. */
  lemma StoreKeepsRing(s: State, c: char)
    requires Shaped(s) && !Full(s)
    ensures Ring(s.(buf := s.buf[s.tail := c])) == Ring(s)
  {
  }

  /** Advancing the tail appends the stored byte. */
  lemma AdvanceAppends(s: State)
    requires Shaped(s) && !Full(s)
    ensures var t := s.(tail := Next(s.tail)); Shaped(t) && Ring(t) == Ring(s) + [s.buf[s.tail]]
  {
  }

  /** Sending removes the first byte of the ring. */
  lemma SendTakesFirst(s: State)
    requires Shaped(s) && s.head != s.tail
    ensures Shaped(SendOne(s)) && Ring(s) == [s.buf[s.head]] + Ring(SendOne(s)) && !Full(SendOne(s))
    ensures Carried(SendOne(s)) == Carried(s)
  {
    RingTakesFirst(s);
    hide Ring, Full;
    var b, rest := s.buf[s.head], Ring(SendOne(s));
    assert s.sent + ([b] + rest) == s.sent + [b] + rest;
  }

  lemma RingTakesFirst(s: State)
    requires Shaped(s) && s.head != s.tail
    ensures Shaped(SendOne(s)) && Ring(s) == [s.buf[s.head]] + Ring(SendOne(s)) && !Full(SendOne(s))
  {
    if s.head < s.tail {
      TakeFirst(s.buf[s.head..s.tail]);
      assert s.buf[s.head..s.tail][1..] == s.buf[s.head + 1..s.tail];
    } else if s.head + 1 == SLOTS {
      assert s.buf[s.head..] == [s.buf[s.head]];
    } else {
      WrappedFirst(s.buf, s.head, s.tail);
    }
  }

  lemma TakeFirst(r: seq<char>)
    requires r != []
    ensures r == [r[0]] + r[1..]
  {
  }

  lemma WrappedFirst(buf: seq<char>, head: nat, tail: nat)
    requires tail < head < |buf| - 1
    ensures buf[head..] + buf[..tail] == [buf[head]] + (buf[head + 1..] + buf[..tail])
  {
    TakeFirst(buf[head..]);
    assert buf[head..][1..] == buf[head + 1..];
  }

  lemma {:induction false} SendKeepsStream(s: State, n: nat)
    requires Shaped(s) && n > 0 && s.head != s.tail
    ensures var t := SendUpTo(s, n);
            && Carried(t) == Carried(s) && Count(t) < Count(s) && !Full(t)
            && t == s.(sent := t.sent, head := t.head)
    decreases n
  {
    hide Ring, Carried, Full;
    SendTakesFirst(s);
    var t := SendOne(s);
    CapacityIs255(t);
    if n > 1 && t.head != t.tail {
      SendKeepsStream(t, n - 1);
    }
  }

  // ---- Every step keeps the invariant ----

  lemma IsrKeepsInv(s: State, flag: bool)
    requires Inv(s)
    ensures Inv(Isr(s, flag))
    ensures Isr(s, flag).pc == s.pc && Isr(s, flag).done == s.done && Isr(s, flag).others == s.others
  {
    hide Ring, Carried, ExpandAll;
    CapacityIs255(s);
    hide Full;
    if flag && s.thre && s.head != s.tail {
      SendKeepsStream(s, 8);
      hide SendUpTo;
    } else if flag && s.thre {
      RingFrame(s, s.(thre := false));
    }
  }

  /** The ring depends on buffer and indices only. */
  lemma RingFrame(s: State, t: State)
    requires Shaped(s) && t.buf == s.buf && t.head == s.head && t.tail == s.tail
    ensures Shaped(t) && Ring(t) == Ring(s) && Count(t) == Count(s) && Full(t) == Full(s)
    ensures t.sent == s.sent ==> Carried(t) == Carried(s)
  {
  }

  lemma ExpandSnoc(cs: seq<char>, c: char)
    ensures ExpandAll(cs + [c]) == ExpandAll(cs) + Expand(c) == ExpandAll(cs) + if c == '\n' then "\n\r" else [c]
  {
    assert (cs + [c])[..|cs|] == cs;
  }

  /** On the line every '\n' is immediately followed by '\r'. */
  lemma {:induction false} NewlinesFollowed(cs: seq<char>, k: nat)
    requires k < |ExpandAll(cs)| && ExpandAll(cs)[k] == '\n'
    ensures k + 1 < |ExpandAll(cs)| && ExpandAll(cs)[k + 1] == '\r'
  {
    var n := |cs| - 1;
    if k < |ExpandAll(cs[..n])| { NewlinesFollowed(cs[..n], k); }
  }

  lemma StartKeepsInv(s: State, c: char)
    requires Inv(s) && s.pc.Idle?
    ensures Inv(s.(pc := Wait1(c)))
  {
    RingFrame(s, s.(pc := Wait1(c)));
    hide Ring, Carried, ExpandAll;
  }

  lemma StoreKeepsInv(s: State)
    requires Inv(s) && (s.pc.Store1? || s.pc.Store2?)
    ensures Inv(ProducerStep(s))
  {
    var c := if s.pc.Store1? then s.pc.c else '\r';
    StoreKeepsRing(s, c);
    RingFrame(s.(buf := s.buf[s.tail := c]), ProducerStep(s));
    hide Ring, ExpandAll;
  }

  lemma AdvanceKeepsInv(s: State)
    requires Inv(s) && (s.pc.Advance1? || s.pc.Advance2?)
    ensures Inv(ProducerStep(s))
  {
    var t, c := ProducerStep(s), s.buf[s.tail];
    AdvanceAppends(s);
    RingFrame(s.(tail := Next(s.tail)), t);
    CarriedSnoc(s, t, c);
    EnqueuedSnoc(s, t, c);
    hide Ring, Carried, Enqueued, ExpandAll;
  }

  lemma CarriedSnoc(s: State, t: State, c: char)
    requires Shaped(s) && Shaped(t) && t.sent == s.sent && Ring(t) == Ring(s) + [c]
    ensures Carried(t) == Carried(s) + [c]
  {
  }

  lemma EnqueuedSnoc(s: State, t: State, c: char)
    requires t.done == s.done && InProgress(t.pc) == InProgress(s.pc) + [c]
    ensures Enqueued(t) == Enqueued(s) + [c]
  {
    hide InProgress, ExpandAll;
  }

  lemma WaitKeepsInv(s: State)
    requires Inv(s) && (s.pc.Idle? || s.pc.Wait1? || s.pc.Wait2?)
    ensures Inv(ProducerStep(s))
  {
    RingFrame(s, ProducerStep(s));
    hide Ring, Carried, Full, Count, ExpandAll;
  }

  lemma FinishKeepsInv(s: State)
    requires Inv(s) && (s.pc.CheckIer? || s.pc.EnableIer?)
    ensures Inv(ProducerStep(s))
  {
    RingFrame(s, ProducerStep(s));
    EnqueuedAtEnd(s);
    hide Ring, Carried, Enqueued, Full, Count, Expand;
  }

  lemma EnqueuedAtEnd(s: State)
    requires Shaped(s) && (s.pc.CheckIer? || s.pc.EnableIer?)
    ensures Enqueued(ProducerStep(s)) == Enqueued(s)
  {
    ExpandSnoc(s.done, s.pc.c);
    hide ExpandAll, Expand;
  }

  lemma StepKeepsInv(s: State, a: Action)
    requires Inv(s)
    ensures Inv(Step(s, a))
  {
    hide Inv, Isr, ProducerStep;
    match a
    case Start(c) => if s.pc.Idle? { StartKeepsInv(s, c); }
    case Interrupt(flag) => IsrKeepsInv(s, flag);
    case Produce =>
      if s.pc.Store1? || s.pc.Store2? { StoreKeepsInv(s); }
      else if s.pc.Advance1? || s.pc.Advance2? { AdvanceKeepsInv(s); }
      else if s.pc.CheckIer? || s.pc.EnableIer? { FinishKeepsInv(s); }
      else { WaitKeepsInv(s); }
  }

  /** A run: any interleaving of calls, producer statements and interrupts. */
  function Run(s: State, acts: seq<Action>): (t: State)
    requires Inv(s)
    ensures Inv(t)
    decreases |acts|
  {
    if acts == [] then s
    else
      var p := Run(s, acts[..|acts| - 1]);
      StepKeepsInv(p, acts[|acts| - 1]);
      Step(p, acts[|acts| - 1])
  }

  lemma InitialInv(buf: seq<char>, others: nat)
    requires |buf| == SLOTS
    ensures Inv(Initial(buf, others))
  {
  }

  /** The stream law, for every interleaving: bytes sent followed by bytes still held are exactly the
      bytes enqueued, in order; at most 255 are held; between calls a non-empty ring has its interrupt
      enabled. */
  lemma RunIsSafe(buf: seq<char>, others: nat, acts: seq<Action>)
    requires |buf| == SLOTS
    ensures Inv(Initial(buf, others))
    ensures var s := Run(Initial(buf, others), acts);
            && Shaped(s) && |Ring(s)| <= 255
            && s.sent + Ring(s) == ExpandAll(s.done) + InProgress(s.pc)
            && (s.pc.Idle? && Ring(s) != [] ==> s.thre)
  {
    InitialInv(buf, others);
    var s := Run(Initial(buf, others), acts);
    CapacityIs255(s);
    hide Ring, ExpandAll;
  }

  /** A producer that waits for a full ring waits with the transmit interrupt enabled, and one run of
      the service routine ends the wait. */
  lemma WaitEnds(s: State)
    requires Inv(s) && (s.pc.Wait1? || s.pc.Wait2?) && Full(s)
    ensures s.thre
    ensures var t := Isr(s, true); Inv(t) && t.pc == s.pc && !Full(t)
    ensures !ProducerStep(Isr(s, true)).pc.Wait1? && !ProducerStep(Isr(s, true)).pc.Wait2?
  {
    hide Ring, Carried, Enqueued;
    CapacityIs255(s);
    IsrKeepsInv(s, true);
    SendKeepsStream(s, 8);
  }

  /** While nothing is being produced, service routine runs empty the ring and then switch the transmit
      interrupt off: one run removes a byte, or finds the ring empty. */
  lemma IdleDrains(s: State)
    requires Inv(s) && s.pc.Idle? && s.thre
    ensures var t := Isr(s, true);
            && Inv(t) && t.pc.Idle? && t.done == s.done
            && (if Count(s) == 0 then !t.thre && t.sent == s.sent else t.thre && Count(t) < Count(s))
  {
    hide Ring, Carried, Enqueued;
    CapacityIs255(s);
    IsrKeepsInv(s, true);
    if s.head != s.tail { SendKeepsStream(s, 8); }
  }

  // ---- How much one service routine run sends ----

  /** One run sends the first eight bytes of the ring, or all of them if there are fewer. */
  lemma {:induction false} SendsFirst(s: State, n: nat)
    requires Shaped(s) && n > 0 && s.head != s.tail
    ensures var t, k := SendUpTo(s, n), if Count(s) < n then Count(s) else n;
            t.sent == s.sent + Ring(s)[..k] && Ring(t) == Ring(s)[k..]
    decreases n
  {
    hide Ring, Full;
    RingTakesFirst(s);
    CapacityIs255(s);
    var m, b := SendOne(s), s.buf[s.head];
    CapacityIs255(m);
    if n == 1 {
      assert Ring(s)[..1] == [b] && Ring(s)[1..] == Ring(m);
    } else if m.head == m.tail {
      assert Ring(m) == [] && Ring(s) == [b];
    } else {
      SendsFirst(m, n - 1);
      SplitFirst(b, Ring(m), if Count(m) < n - 1 then Count(m) else n - 1);
    }
  }

  lemma SplitFirst(b: char, rest: seq<char>, k: nat)
    requires k <= |rest|
    ensures ([b] + rest)[..k + 1] == [b] + rest[..k] && ([b] + rest)[k + 1..] == rest[k..]
  {
  }

  lemma IsrSends(s: State)
    requires Shaped(s) && s.thre
    ensures var t, k := Isr(s, true), if Count(s) < 8 then Count(s) else 8;
            t.sent == s.sent + Ring(s)[..k] && Ring(t) == Ring(s)[k..] && Count(t) == Count(s) - k
  {
    CapacityIs255(s);
    hide Ring, Full;
    if s.head == s.tail {
      RingFrame(s, s.(thre := false));
      assert Ring(s) == [];
    } else {
      SendsFirst(s, 8);
    }
  }

  /** n service routine runs in a row. */
  function Served(s: State, n: nat): (t: State)
    requires Shaped(s)
    ensures Shaped(t)
    decreases n
  {
    if n == 0 then s else Served(Isr(s, true), n - 1)
  }

  /** One service routine run for every eight bytes that the ring holds, so at most 32, empty it between calls;
      then the line has carried exactly the characters of all calls, each '\n' followed by '\r'. */
  lemma {:induction false} ServedDrains(s: State, n: nat)
    requires Inv(s) && s.pc.Idle? && Count(s) <= 8 * n
    ensures Drained(s, Served(s, n))
    decreases n
  {
    assert Shaped(s);
    hide Inv, Count, Drained;
    if n == 0 {
      AlreadyDrained(s);
    } else {
      OneRun(s);
      hide Isr;
      ServedDrains(Isr(s, true), n - 1);
      DrainedFrom(s, Isr(s, true), Served(s, n));
    }
  }

  /** t is s with the ring empty and everything sent. */
  ghost predicate Drained(s: State, t: State) {
    Inv(t) && t.pc.Idle? && t.done == s.done && Count(t) == 0 && t.sent == ExpandAll(s.done)
  }

  lemma AlreadyDrained(s: State)
    requires Inv(s) && s.pc.Idle? && Count(s) == 0
    ensures Drained(s, s)
  {
    DrainedStream(s);
  }

  lemma DrainedFrom(s: State, m: State, t: State)
    requires Drained(m, t) && m.done == s.done
    ensures Drained(s, t)
  {
  }

  lemma OneRun(s: State)
    requires Inv(s) && s.pc.Idle?
    ensures var t := Isr(s, true);
            Inv(t) && t.pc.Idle? && t.done == s.done
            && Count(t) == if Count(s) < 8 then 0 else Count(s) - 8
  {
    if s.thre {
      IdleDrains(s);
      IsrSends(s);
      hide Ring, Carried, Enqueued, Isr;
    }
  }

  /** Once the ring has drained between calls, the line has carried exactly the characters of all calls,
      each '\n' followed by '\r': the byte stream of polled mode. */
  lemma DrainedStream(s: State)
    requires Inv(s) && s.pc.Idle? && Count(s) == 0
    ensures s.sent == ExpandAll(s.done)
  {
    assert Ring(s) == [];
    assert s.sent + Ring(s) == s.sent;
    assert ExpandAll(s.done) + InProgress(s.pc) == ExpandAll(s.done);
  }

  /** Enabling the transmit interrupt writes the whole register: a call that finds THRE_IEN clear turns
      off every other UART interrupt, and a call that finds it set leaves them alone. */
  lemma OtherInterruptsKept(s: State)
    requires Inv(s) && s.pc.CheckIer?
    ensures ProducerStep(s).others == s.others
    ensures s.thre ==> ProducerStep(s).pc.Idle?
    ensures !s.thre ==> ProducerStep(ProducerStep(s)).pc.Idle? && ProducerStep(ProducerStep(s)).thre
    ensures !s.thre ==> (ProducerStep(ProducerStep(s)).others == s.others <==> s.others == 0)
  {
  }
}
