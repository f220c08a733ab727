/**
  The USART routines of isp/Lib/XPROG/XPROGTarget.c in their own form. Whatever they do is a run of the machine in
  SoftUsart, from its start and under the program of the calls made, so its theorems hold of them.
*/
module UsartTarget {
  import opened Bits
  import Seqs
  import opened Timers
  import opened UsartFrames
  import opened SoftUsart
  import opened UsartReception

  class Target {
    const lowFirst: bool
    const timer: CommandTimer
    var data: nat
    var bitCount: nat
    var sending: bool
    var clock: bool
    var line: bool
    ghost const origin: Machine   // the machine at its start
    ghost var m: Machine          // the machine now
    ghost var program: seq<Op>    // history: the calls made
    ghost var trace: seq<Event>   // history: all that has happened, interrupts and steps of the main line

    /** The variables are those of the machine that the trace leads to. */
    ghost predicate Valid()
      reads this
    {
      m.u == Variables() && m.lowFirst == lowFirst && IsRun(origin, program, trace, m)
    }

    /** The main line stands where it stood; interrupts may have run. */
    twostate predicate OnlyInterrupts()
      reads this
    {
      && m.pc == old(m.pc) && m.word == old(m.word) && m.todo == old(m.todo)
      && m.armed == old(m.armed) && m.received == old(m.received)
      && sending == old(sending) && program == old(program) && bitCount <= old(bitCount)
    }

    /** The main line went on within a call that arms and receives nothing on the way. */
    twostate predicate WithinCall()
      reads this
    {
      && program == old(program) && m.word == old(m.word) && m.todo == old(m.todo)
      && m.armed == old(m.armed) && m.received == old(m.received)
    }

    /** Caught in one of the busy-waits without a timeout, with bits still to go. */
    ghost predicate StillWaiting()
      reads this
    {
      bitCount != 0 && (m.pc == TxDrain || m.pc == TxClock || m.pc == Drain || m.pc.RxDrain?)
    }

    /** Between calls. */
    ghost predicate Returned()
      reads this
    {
      m.pc == Ready && m.todo == []
    }

    constructor (lowFirst: bool, staleData: nat, clock: bool, timer: CommandTimer)
      requires staleData < 0x800
      ensures Valid() && Returned() && program == [] && trace == [] && m.armed == [] && m.received == []
      ensures this.timer == timer
    {
      this.lowFirst, this.timer := lowFirst, timer;
      data, bitCount, sending, this.clock, line := staleData, 0, false, clock, true;
      program, trace := [], [];
      ghost var start :=
        Machine(Usart(staleData, 0, false, clock, true), Wire([], [], false), Ready, 0, lowFirst, [], [], []);
      origin, m := start, start;
      new;
      RunBegins(m);
    }

    ghost function Variables(): Usart
      reads this
    {
      Usart(data, bitCount, sending, clock, line)
    }

    /** TIMER1_COMPA_vect and TIMER1_CAPT_vect. */
    method TimerInterrupt(pin: bool)
      modifies this`clock, this`data, this`bitCount, this`line
      ensures Variables() == TickUsart(old(Variables()), pin)
    {
      clock := !clock;
      if bitCount == 0 {
        return;
      }
      if clock {
        if sending {
          return;
        }
        if bitCount == BITS_IN_USART_FRAME && pin {
          return;
        }
        if pin {
          data := data % 0x100 + 0x100 * Or(data / 0x100, HIGH_BYTE_MASK);
        }
        data := data / 2;
        bitCount := bitCount - 1;
      } else {
        if !sending {
          return;
        }
        line := data % 2 == 1;
        data := data / 2;
        bitCount := bitCount - 1;
      }
    }

    /** One interrupt, with whatever level the target has put on the pin. */
    method Interrupt() returns (ghost pin: bool)
      requires Valid()
      modifies this`clock, this`data, this`bitCount, this`line, this`m, this`trace
      ensures Valid() && OnlyInterrupts()
      ensures trace == old(trace) + [Timer(pin)] && m == Tick(old(m), pin)
    {
      var level: bool := *;
      pin := level;
      RunGoesOn(origin, program, trace, m, Timer(pin));
      TimerInterrupt(level);
      m := Tick(m, pin);
      trace := trace + [Timer(pin)];
    }

    /** Any number of interrupts between two steps of the main line; time passes. */
    method Interrupts() returns (ghost ticks: seq<Event>)
      requires Valid()
      modifies this, timer`remaining, timer`phase
      ensures Valid() && OnlyInterrupts()
      ensures TicksOnly(ticks) && trace == old(trace) + ticks && m == Run(old(m), ticks)
      ensures timer.remaining <= old(timer.remaining)
      ensures timer.remaining == old(timer.remaining) && timer.remaining > 0 ==> timer.phase < old(timer.phase)
    {
      var pending: nat := *;
      ticks := [];
      Seqs.EmptyRight(trace);
      while pending > 0
        modifies this`clock, this`data, this`bitCount, this`line, this`m, this`trace
        invariant Valid() && OnlyInterrupts()
        invariant TicksOnly(ticks) && trace == old(trace) + ticks && m == Run(old(m), ticks)
      {
        ghost var pin := Interrupt();
        StepOne(old(m), ticks, Timer(pin));
        Seqs.Assoc(old(trace), ticks, [Timer(pin)]);
        ticks := ticks + [Timer(pin)];
        pending := pending - 1;
      }
      timer.Pass();
    }

    /** The main line has just made its next access. */
    ghost method Stepped(pin: bool, timedOut: bool)
      requires IsRun(origin, program, trace, m) && m.lowFirst == lowFirst && m.pc != Ready
      requires Variables() == MainUsart(m.u, m.pc, m.word, m.lowFirst)
      modifies this`m, this`trace
      ensures Valid() && m == Advance(old(m), pin, timedOut) && trace == old(trace) + [Main(pin, timedOut)]
    {
      RunGoesOn(origin, program, trace, m, Main(pin, timedOut));
      m := Advance(m, pin, timedOut);
      trace := trace + [Main(pin, timedOut)];
    }

    /** The same, and then interrupts may run. */
    method Moved()
      requires IsRun(origin, program, trace, m) && m.lowFirst == lowFirst && m.pc != Ready
      requires Variables() == MainUsart(m.u, m.pc, m.word, m.lowFirst)
      modifies this, timer`remaining, timer`phase
      ensures Valid() && program == old(program) && old(trace) <= trace
      ensures m.pc == NextPc(old(m.u), old(m.pc), true, true) && m.word == old(m.word) && m.todo == old(m.todo)
      ensures m.armed == if old(m.pc) == Arm then old(m.armed) + [m.word] else old(m.armed)
      ensures m.received == if old(m.pc) == RxRead then old(m.received) + [LowByte(old(m.u).data)] else old(m.received)
      ensures sending == old(sending) && timer.remaining <= old(timer.remaining) && bitCount <= old(bitCount)
    {
      Stepped(true, true);
      ghost var ticks := Interrupts();
    }

    /** A call begins. */
    ghost method Begin(op: Op)
      requires Valid() && Returned()
      modifies this`m, this`program, this`trace
      ensures Valid() && program == old(program) + [op] && old(trace) <= trace
      ensures m.pc == StartOf(op, sending) && m.word == WordOf(op) && m.todo == []
      ensures m.armed == old(m.armed) && m.received == old(m.received)
    {
      RunWithCall(origin, program, trace, m, op);
      program := program + [op];
      m := WithTodo(m, [op]);
      RunGoesOn(origin, program, trace, m, Main(true, true));
      m := Advance(m, true, true);
      trace := trace + [Main(true, true)];
    }

    /** `while (SoftUSART_BitCount);`, watched for some finite time. */
    method WaitForBits() returns (done: bool)
      requires Valid()
      requires m.pc == TxDrain || m.pc == TxClock || m.pc == Drain || m.pc.RxDrain?
      modifies this, timer`remaining, timer`phase
      ensures Valid() && WithinCall() && old(trace) <= trace && sending == old(sending)
      ensures if done then m.pc == AfterWait(old(m.pc)) else m.pc == old(m.pc) && StillWaiting()
      ensures old(bitCount) == 0 ==> done
    {
      var patience: nat := *;
      ghost var ticks := Interrupts();
      while bitCount != 0 && patience > 0
        invariant Valid() && OnlyInterrupts() && old(trace) <= trace
        decreases patience
      {
        ticks := Interrupts();
        patience := patience - 1;
      }
      done := bitCount == 0;
      if done { PassWait(); }
    }

    /** The wait is over. */
    method PassWait()
      requires Valid() && bitCount == 0
      requires m.pc == TxDrain || m.pc == TxClock || m.pc == Drain || m.pc.RxDrain?
      modifies this, timer`remaining, timer`phase
      ensures Valid() && WithinCall() && old(trace) <= trace && sending == old(sending)
      ensures m.pc == AfterWait(old(m.pc))
    {
      Moved();
    }

    /** `SoftUSART_Data = word`: two byte stores, with interrupts after each. */
    method StoreData(word: nat)
      requires Valid() && if m.pc == TxFirst then word == 1 else m.pc == StoreFirst && word == m.word
      modifies this, timer`remaining, timer`phase
      ensures Valid() && WithinCall() && old(trace) <= trace && sending == old(sending)
      ensures m.pc == if old(m.pc) == TxFirst then TxArm else Arm
    {
      StoreByte(word, lowFirst);
      StoreByte(word, !lowFirst);
    }

    /** One of them. */
    method StoreByte(word: nat, low: bool)
      requires Valid() && word == (if m.pc == TxFirst || m.pc == TxSecond then 1 else m.word)
      requires if low == lowFirst then m.pc == TxFirst || m.pc == StoreFirst
               else m.pc == TxSecond || m.pc == StoreSecond
      modifies this, timer`remaining, timer`phase
      ensures Valid() && WithinCall() && old(trace) <= trace && sending == old(sending)
      ensures m.pc == match old(m.pc)
                      case TxFirst => TxSecond case TxSecond => TxArm case StoreFirst => StoreSecond case _ => Arm
    {
      data := StoreHalf(data, word, low);
      Moved();
    }

    /** XPROGTarget_SetTxMode */
    method SetTxMode() returns (done: bool)
      requires Valid() && m.pc == TxDrain
      modifies this, timer`remaining, timer`phase
      ensures Valid() && WithinCall() && old(trace) <= trace
      ensures if done then m.pc == Drain && sending else StillWaiting()
    {
      done := WaitForBits();
      if done {
        done := WaitOneClock();
        if done {
          DriveHigh();
          SetSending(true);
        }
      }
    }

    /** We drive the data line high. */
    method DriveHigh()
      requires Valid() && m.pc == TxLine
      modifies this, timer`remaining, timer`phase
      ensures Valid() && WithinCall() && old(trace) <= trace && sending == old(sending) && m.pc == TxMode
    {
      line := true;
      Moved();
    }

    /** We let go of the data line; the target pulls it up. */
    method LetGo()
      requires Valid() && m.pc.RxRelease?
      modifies this, timer`remaining, timer`phase
      ensures Valid() && WithinCall() && old(trace) <= trace && sending == old(sending)
      ensures m.pc == RxPull(old(m.pc).back)
    {
      line := true;
      Moved();
    }

    /** `IsSending = to` */
    method SetSending(to: bool)
      requires Valid() && if to then m.pc == TxMode else m.pc.RxMode?
      modifies this, timer`remaining, timer`phase
      ensures Valid() && WithinCall() && old(trace) <= trace && sending == to
      ensures m.pc == if to then Drain else if old(m.pc).back == ByReceive then RxArm else Ready
    {
      sending := to;
      Moved();
    }

    /** The wait for the target to pull the line up; it ends, at the latest, at its timeout. */
    method AwaitPullUp()
      requires Valid() && m.pc.RxPull?
      modifies this, timer`remaining, timer`phase
      ensures Valid() && WithinCall() && old(trace) <= trace && m.pc == RxMode(old(m.pc).back)
    {
      var pin := WatchPin();
      Stepped(pin, !pin);
      ghost var ticks := Interrupts();
    }

    /** `while (!(BITBANG_PDIDATA_PIN & BITBANG_PDIDATA_MASK) && TimeoutMSRemaining);` */
    method WatchPin() returns (pin: bool)
      requires Valid()
      modifies this, timer`remaining, timer`phase
      ensures Valid() && OnlyInterrupts() && old(trace) <= trace
      ensures pin || timer.remaining == 0
    {
      pin := *;
      while !pin && timer.remaining > 0
        invariant Valid() && OnlyInterrupts() && old(trace) <= trace
        decreases timer.remaining, timer.phase
      {
        ghost var ticks := Interrupts();
        pin := *;
      }
    }

    /** The full clock cycle that SetTxMode waits: one dummy bit through the receive half. */
    method WaitOneClock() returns (done: bool)
      requires Valid() && m.pc == TxFirst
      modifies this, timer`remaining, timer`phase
      ensures Valid() && WithinCall() && old(trace) <= trace
      ensures if done then m.pc == TxLine else StillWaiting()
    {
      StoreData(0x0001);
      ArmCount(1);
      done := WaitForBits();
    }

    /** `SoftUSART_BitCount = count`, to send. */
    method ArmCount(count: nat)
      requires Valid() && if m.pc == TxArm then count == 1 else m.pc == Arm && count == BITS_IN_USART_FRAME
      modifies this, timer`remaining, timer`phase
      ensures Valid() && program == old(program) && m.word == old(m.word) && m.todo == old(m.todo)
      ensures old(trace) <= trace && m.received == old(m.received)
      ensures if old(m.pc) == TxArm then m.pc == TxClock && m.armed == old(m.armed)
              else m.pc == Ready && m.armed == old(m.armed) + [m.word]
    {
      bitCount := count;
      Moved();
    }

    /** The common end of SendByte and SendBreak: wait, store the frame, arm the counter. */
    method SendFrame(frame: word) returns (done: bool)
      requires Valid() && m.pc == Drain && m.word == frame
      modifies this, timer`remaining, timer`phase
      ensures Valid() && program == old(program) && old(trace) <= trace
      ensures m.todo == old(m.todo) && m.received == old(m.received)
      ensures if done then m.pc == Ready && m.armed == old(m.armed) + [frame as nat]
              else m.armed == old(m.armed) && StillWaiting()
      ensures old(bitCount) == 0 ==> done
    {
      done := WaitForBits();
      if done {
        StoreData(frame);
        ArmCount(BITS_IN_USART_FRAME);
      }
    }

    /**
      XPROGTarget_SendByte. If it returns, exactly the frame of `b` has been armed after all earlier ones,
      whenever the interrupts came; it may also be caught waiting for the transmitter, with nothing armed.
    */
    method SendByte(b: byte) returns (done: bool)
      requires Valid() && Returned()
      modifies this, timer`remaining, timer`phase
      ensures Valid() && program == old(program) + [Op.SendByte(b)] && old(trace) <= trace
      ensures m.todo == [] && m.received == old(m.received)
      ensures if done then m.pc == Ready && m.armed == old(m.armed) + [FrameWord(b) as nat]
              else m.armed == old(m.armed) && StillWaiting()
      ensures old(sending && bitCount == 0) ==> done
    {
      Begin(Op.SendByte(b));
      done := true;
      if !sending {
        done := SetTxMode();
      }
      if done {
        var frame := ComputeFrame(b);
        done := SendFrame(frame);
      }
    }

    /** XPROGTarget_SendBreak */
    method SendBreak() returns (done: bool)
      requires Valid() && Returned()
      modifies this, timer`remaining, timer`phase
      ensures Valid() && program == old(program) + [Op.SendBreak] && old(trace) <= trace
      ensures m.todo == [] && m.received == old(m.received)
      ensures if done then m.pc == Ready && m.armed == old(m.armed) + [BREAK_WORD as nat]
              else m.armed == old(m.armed) && StillWaiting()
      ensures old(sending && bitCount == 0) ==> done
    {
      Begin(Op.SendBreak);
      done := true;
      if !sending {
        done := SetTxMode();
      }
      if done {
        done := SendFrame(BREAK_WORD);
      }
    }

    /**
      XPROGTarget_SetRxMode, in either mode. The last wait, for the target to pull the line up, ends at its timeout.
    */
    method SetRxMode() returns (done: bool)
      requires Valid() && m.pc.RxDrain?
      modifies this, timer`remaining, timer`phase
      ensures Valid() && WithinCall() && old(trace) <= trace
      ensures if done then !sending && m.pc == if old(m.pc).back == ByReceive then RxArm else Ready
              else StillWaiting()
      ensures old(bitCount) == 0 ==> done
    {
      done := WaitForBits();
      if done {
        LetGo();
        AwaitPullUp();
        SetSending(false);
      }
    }

    /**
      The call of XPROGTarget_SetRxMode with which XPROGTarget_DisableTargetPDI and XPROGTarget_DisableTargetTPI begin:
      when it returns, everything sent before is out.
    */
    method Release() returns (done: bool)
      requires Valid() && Returned()
      modifies this, timer`remaining, timer`phase
      ensures Valid() && program == old(program) + [Op.Release] && old(trace) <= trace
      ensures m.todo == [] && m.armed == old(m.armed) && m.received == old(m.received)
      ensures if done then m.pc == Ready && !sending && m.wire.driven == FrameBits(m.armed) else StillWaiting()
      ensures old(bitCount) == 0 ==> done
    {
      Begin(Op.Release);
      done := SetRxMode();
      if done { AllDriven(); }
    }

    /** In receive mode nothing is left to be driven. */
    lemma AllDriven()
      requires Valid() && !sending
      ensures m.wire.driven == FrameBits(m.armed)
    {
      RunKeepsInvariant(origin, program, trace, m);
      Seqs.EmptyRight(m.wire.driven);
    }

    /**
      XPROGTarget_ReceiveByte. `before` is all that had happened when the wait began, and `wait` what happened in it.
      The value is what the wait made of the pin at its rising edges; by AwaitedByte, a frame seen there is the value.
      The wait ends when all bits are in or the time is up.
    */
    method ReceiveByte() returns (done: bool, value: byte, ghost before: seq<Event>, ghost wait: seq<Event>)
      requires Valid() && Returned()
      modifies this, timer`remaining, timer`phase
      ensures Valid() && program == old(program) + [Op.ReceiveByte] && old(trace) <= trace
      ensures m.todo == [] && m.armed == old(m.armed)
      ensures if done then m.pc == Ready && m.received == old(m.received) + [value]
              else m.received == old(m.received) && StillWaiting()
      ensures done ==> old(trace) <= before && before + wait <= trace
      ensures done ==> Awaited(Run(WithTodo(origin, program), before), wait, value)
      ensures done ==> bitCount == 0 || timer.remaining == 0
      ensures old(!sending || bitCount == 0) ==> done
    {
      Begin(Op.ReceiveByte);
      done, value, before, wait := true, 0, [], [];
      if sending {
        done := SetRxMode();
      }
      if done {
        value, before, wait := ReceiveFrame();
      }
    }

    /** The end of ReceiveByte: arm the counter, wait, read. */
    method ReceiveFrame() returns (value: byte, ghost before: seq<Event>, ghost wait: seq<Event>)
      requires Valid() && m.pc == RxArm
      modifies this, timer`remaining, timer`phase
      ensures Valid() && program == old(program)
      ensures m.pc == Ready && m.todo == old(m.todo) && m.armed == old(m.armed)
      ensures m.received == old(m.received) + [value]
      ensures old(trace) <= before && before + wait <= trace
      ensures Awaited(Run(WithTodo(origin, program), before), wait, value)
      ensures bitCount == 0 || timer.remaining == 0
    {
      ArmReceive();
      before := trace;
      wait := AwaitFrame();
      value := ReadData();
    }

    /** `SoftUSART_BitCount = BITS_IN_USART_FRAME`, to receive. */
    method ArmReceive()
      requires Valid() && m.pc == RxArm
      modifies this
      ensures Valid() && WithinCall() && old(trace) <= trace
      ensures m.pc == RxWait && Receiving(m) && m.u.bitCount == BITS_IN_USART_FRAME
    {
      bitCount := BITS_IN_USART_FRAME;
      Stepped(true, true);
      RunReceiving(origin, program, trace, m);
    }

    /** `return (uint8_t)SoftUSART_Data` */
    method ReadData() returns (value: byte)
      requires Valid() && m.pc == RxRead
      modifies this, timer`remaining, timer`phase
      ensures Valid() && program == old(program) && old(trace) <= trace
      ensures m.pc == Ready && m.todo == old(m.todo) && m.armed == old(m.armed)
      ensures value == LowByte(old(m.u).data) && m.received == old(m.received) + [value]
      ensures bitCount <= old(bitCount) && timer.remaining <= old(timer.remaining)
    {
      value := LowByte(data);
      Moved();
    }

    /** Waits for the last bit or the timeout, and leaves the wait. Interrupts may run before the data word is read. */
    method AwaitFrame() returns (ghost wait: seq<Event>)
      requires Valid() && m.pc == RxWait && Receiving(m)
      modifies this, timer`remaining, timer`phase
      ensures Valid() && WithinCall() && m.pc == RxRead
      ensures trace == old(trace) + wait && Took(old(m).u, wait, m.u)
      ensures bitCount == 0 || timer.remaining == 0
    {
      ghost var before, w := trace, m;
      ghost var ticks := WaitForFrame();
      ghost var stop, late := LeaveWait();
      wait := ticks + [stop] + late;
      ReadSees(w, ticks, stop, late, m);
      SplitTrace(before, ticks, stop, late);
    }

    /** The main line sees that the wait is over. */
    method LeaveWait() returns (ghost stop: Event, ghost late: seq<Event>)
      requires Valid() && m.pc == RxWait && (bitCount == 0 || timer.remaining == 0)
      modifies this, timer`remaining, timer`phase
      ensures Valid() && WithinCall() && m.pc == RxRead
      ensures stop.Main? && TicksOnly(late) && trace == old(trace) + [stop] + late
      ensures m == Run(Advance(old(m), stop.pin, stop.timedOut), late)
      ensures bitCount == 0 || timer.remaining == 0
    {
      stop := Main(true, bitCount != 0);
      Stepped(true, bitCount != 0);
      late := Interrupts();
    }

    /** `while (SoftUSART_BitCount && TimeoutMSRemaining);` */
    method WaitForFrame() returns (ghost ticks: seq<Event>)
      requires Valid() && m.pc == RxWait
      modifies this, timer`remaining, timer`phase
      ensures Valid() && OnlyInterrupts()
      ensures TicksOnly(ticks) && trace == old(trace) + ticks && m == Run(old(m), ticks)
      ensures bitCount == 0 || timer.remaining == 0
    {
      ticks := [];
      Seqs.EmptyRight(trace);
      while bitCount != 0 && timer.remaining > 0
        invariant Valid() && OnlyInterrupts()
        invariant TicksOnly(ticks) && trace == old(trace) + ticks && m == Run(old(m), ticks)
        decreases timer.remaining, timer.phase
      {
        ghost var more := Interrupts();
        RunOn(old(m), ticks, more);
        Seqs.Assoc(old(trace), ticks, more);
        ticks := ticks + more;
      }
    }

    /**
      Whatever calls have been made and however the interrupts fell between their steps: the target has heard a
      prefix of the bytes sent, and all of them once the last call has returned and its bits are out.
    */
    lemma TargetHears()
      requires Valid()
      ensures m.wire.driven + Pending(Variables()) == FrameBits(m.armed)
      ensures Heard(m.wire.sampled).bytes <= SentBytes(program)
      ensures Returned() && bitCount == 0 && !m.wire.unsampled ==> Heard(m.wire.sampled).bytes == SentBytes(program)
    {
      Transmission(WithTodo(origin, program), program, trace);
    }
  }

  function AfterWait(pc: Pc): Pc {
    match pc
    case TxDrain => TxFirst
    case TxClock => TxLine
    case Drain => StoreFirst
    case _ => if pc.RxDrain? then RxRelease(pc.back) else pc
  }

  lemma SplitTrace(before: seq<Event>, ticks: seq<Event>, stop: Event, late: seq<Event>)
    ensures before + ticks + [stop] + late == before + (ticks + [stop] + late)
  {}

  lemma RunReceiving(origin: Machine, program: seq<Op>, events: seq<Event>, m: Machine)
    requires IsRun(origin, program, events, m) && m.pc == RxWait
    ensures Receiving(m)
  {
    RunKeepsInvariant(origin, program, events, m);
  }

  /** The interrupts of a wait, its end, and the interrupts before the read: the data word has taken them all in. */
  lemma ReadSees(w: Machine, ticks: seq<Event>, stop: Event, late: seq<Event>, n: Machine)
    requires Receiving(w) && TicksOnly(ticks) && TicksOnly(late) && stop.Main?
    requires Run(w, ticks).pc == RxWait
    requires n == Run(Advance(Run(w, ticks), stop.pin, stop.timedOut), late)
    ensures Took(w.u, ticks + [stop] + late, n.u)
  {
    var r := Run(w, ticks);
    TicksReceive(w, ticks);
    LeavesWord(r, stop.pin, stop.timedOut);
    TookMain(w.u, ticks, r.u, stop.pin, stop.timedOut);
    TookMore(w.u, ticks + [stop], Advance(r, stop.pin, stop.timedOut), late);
  }

  lemma LeavesWord(r: Machine, pin: bool, timedOut: bool)
    requires r.pc == RxWait
    ensures Advance(r, pin, timedOut).u == r.u
  {}

  lemma {:induction false} TookMore(u: Usart, events: seq<Event>, m: Machine, ticks: seq<Event>)
    requires Took(u, events, m.u) && TicksOnly(ticks)
    ensures Took(u, events + ticks, Run(m, ticks).u)
  {
    if ticks == [] {
      Seqs.EmptyRight(events);
    } else {
      var k := |ticks| - 1;
      assert ticks[k] in ticks;
      TookMore(u, events, m, ticks[..k]);
      TookTick(u, events + ticks[..k], Run(m, ticks[..k]).u, ticks[k].pin);
      Seqs.ButLast(events, ticks);
      Seqs.Snoc(events + ticks);
    }
  }
}
