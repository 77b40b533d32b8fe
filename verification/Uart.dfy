/** The transmit side of wb_uart.c as code: _PutChar_f in both modes and the service routine, which may
    run any number of times between any two statements. */
module Uart {
  import opened UartRing

  class Transmitter {
    const buf: array<char>   // _sys_ucUartTxBuf
    var head: nat            // _sys_uUartTxHead
    var tail: nat            // _sys_uUartTxTail
    var thre: bool           // THRE_IEN
    var others: nat          // the other interrupt enable bits
    var sent: seq<char>      // everything written to REG_UART_THR
    ghost var pc: Pc
    ghost var done: seq<char>

    ghost function Abs(): State
      reads this, buf
    {
      State(buf[..], head, tail, thre, others, sent, pc, done)
    }

    ghost predicate Valid()
      reads this, buf
    {
      Inv(Abs())
    }

    constructor (others: nat)
      ensures Valid() && fresh(buf) && pc == Idle && done == [] && sent == [] && !thre && this.others == others
    {
      buf := new char[SLOTS];
      head, tail, thre, this.others, sent, pc, done := 0, 0, false, others, [], Idle, [];
      new;
      InitialInv(buf[..], others);
    }

    /** The transmit part of sysUartISR. */
    method Isr(flag: bool)
      requires Shaped(Abs())
      modifies this`head, this`thre, this`sent
      ensures Abs() == UartRing.Isr(old(Abs()), flag)
    {
      if flag && thre {
        if head == tail {
          thre := false;
        } else {
          var i := 0;
          while i < 8
            invariant 0 <= i <= 8 && Shaped(Abs()) && thre == old(thre)
            invariant i < 8 ==> SendUpTo(Abs(), 8 - i) == SendUpTo(old(Abs()), 8)
            invariant i == 8 ==> Abs() == SendUpTo(old(Abs()), 8)
          {
            sent := sent + [buf[head]];
            head := Next(head);
            if head == tail { break; }
            i := i + 1;
          }
        }
      }
    }

    /** The transmitter between two statements: any number of service routine runs. */
    method Interrupts()
      requires Valid()
      modifies this`head, this`thre, this`sent
      ensures Valid() && Count(Abs()) <= old(Count(Abs())) && others == old(others)
      ensures Carried(Abs()) == old(Carried(Abs()))
    {
      hide UartRing.Isr, Ring, Carried, Enqueued;
      var runs: int := *;
      while runs > 0
        invariant Valid() && Count(Abs()) <= old(Count(Abs()))
        invariant Carried(Abs()) == old(Carried(Abs()))
      {
        var flag: bool := *;
        IsrSteps(Abs(), flag);
        Isr(flag);
        runs := runs - 1;
      }
    }

    /** _PutChar_f in buffered mode. */
    method PutChar(c: char)
      requires Valid() && pc == Idle
      modifies this, buf
      ensures Valid() && pc == Idle
      ensures done == old(done) + [c]
    {
      hide Inv, Ring, Carried;
      StartCall(c);
      WaitForSlot();
      StoreAt(c);
      AdvanceTail();
      if c == '\n' {
        WaitForSlot();
        StoreAt('\r');
        AdvanceTail();
      }
      EnableTransmit(c);
    }

    ghost method StartCall(c: char)
      requires Valid() && pc == Idle
      modifies this`pc
      ensures Valid() && pc == Wait1(c)
    {
      StepKeepsInv(Abs(), Start(c));
      pc := Wait1(c);
    }

    /** `while (next(tail) == head);` with interrupts before each evaluation. While the ring is full the
        transmit interrupt is enabled (UartRing.WaitEnds), so a service routine run is coming. */
    method WaitForSlot()
      requires Valid() && (pc.Wait1? || pc.Wait2?)
      modifies this`head, this`thre, this`sent, this`pc
      ensures Valid() && pc == (if old(pc).Wait1? then Store1(old(pc).c) else Store2)
    {
      hide Ring, Carried, Enqueued, UartRing.Isr;
      Interrupts();
      while Next(tail) == head
        invariant Valid() && pc == old(pc)
        decreases Count(Abs())
      {
        IsrSteps(Abs(), true);
        IsrShrinks(Abs());
        Isr(true);
        Interrupts();
      }
      StepKeepsInv(Abs(), Produce);
      pc := if pc.Wait1? then Store1(pc.c) else Store2;
    }

    method StoreAt(c: char)
      requires Valid() && (pc == Store1(c) || (pc.Store2? && c == '\r'))
      modifies this`head, this`thre, this`sent, this`pc, buf
      ensures Valid() && pc == (if old(pc).Store1? then Advance1(c) else Advance2)
    {
      hide Inv, Ring;
      Interrupts();
      assert Shaped(Abs()) by { InvShape(Abs()); }
      StepKeepsInv(Abs(), Produce);
      buf[tail] := c;
      pc := if pc.Store1? then Advance1(c) else Advance2;
    }

    method AdvanceTail()
      requires Valid() && (pc.Advance1? || pc.Advance2?)
      modifies this`head, this`thre, this`sent, this`pc, this`tail
      ensures Valid() && pc == (if old(pc).Advance1? then AfterByte(old(pc).c) else CheckIer('\n'))
    {
      hide Inv, Ring;
      Interrupts();
      StepKeepsInv(Abs(), Produce);
      tail := Next(tail);
      pc := if pc.Advance1? then AfterByte(pc.c) else CheckIer('\n');
    }

    /** `if (!(IER & 2)) IER = 2;`: an interrupt may still come between the test and the write. */
    method EnableTransmit(c: char)
      requires Valid() && pc == CheckIer(c)
      modifies this`head, this`thre, this`sent, this`pc, this`done, this`others
      ensures Valid() && pc == Idle && done == old(done) + [c]
    {
      hide Inv, Ring;
      Interrupts();
      StepKeepsInv(Abs(), Produce);
      if thre {
        pc, done := Idle, done + [c];
      } else {
        pc := EnableIer(c);
        Interrupts();
        StepKeepsInv(Abs(), Produce);
        thre, others := true, 0;
        pc, done := Idle, done + [c];
      }
    }
  }

  lemma InvShape(s: State)
    requires Inv(s)
    ensures Shaped(s)
  {
  }

  lemma IsrSteps(s: State, flag: bool)
    requires Inv(s)
    ensures var t := UartRing.Isr(s, flag);
            && Inv(t) && Count(t) <= Count(s) && Carried(t) == Carried(s)
            && t == s.(head := t.head, thre := t.thre, sent := t.sent)
  {
    hide Ring, Enqueued;
    CapacityIs255(s);
    IsrKeepsInv(s, flag);
    if flag && s.thre {
      if s.head != s.tail { SendKeepsStream(s, 8); } else { RingFrame(s, s.(thre := false)); }
    }
  }

  lemma IsrShrinks(s: State)
    requires Inv(s) && (s.pc.Wait1? || s.pc.Wait2?) && Full(s)
    ensures var t := UartRing.Isr(s, true); Shaped(t) && Count(t) < Count(s)
  {
    hide Ring;
    WaitEnds(s);
    CapacityIs255(s);
    SendKeepsStream(s, 8);
  }

  /** Polled mode of _PutChar_f: the character, and '\r' after '\n', straight to the transmit register. */
  method PutCharPolled(sent: seq<char>, c: char) returns (sent': seq<char>)
    ensures sent' == sent + Expand(c) == sent + if c == '\n' then "\n\r" else [c]
  {
    AwaitTransmitter();
    sent' := sent + [c];
    if c == '\n' {
      AwaitTransmitter();
      sent' := sent' + ['\r'];
    }
  }

  /** `while (!(FSR & 0x400000));` with a transmitter that becomes empty after any number of reads. */
  method AwaitTransmitter() {
    var polls: int := *;
    while polls > 0 {
      polls := polls - 1;
    }
  }
}
