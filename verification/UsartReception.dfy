/** What the receive side of the machine in SoftUsart takes in, and when its count reaches zero. */
module UsartReception {
  import opened Bits
  import opened Seqs
  import opened UsartFrames
  import opened SoftUsart

  /** The clock level after some events, and the pin levels at their rising edges. */
  function Level(clock: bool, events: seq<Event>): bool {
    if events == [] then clock
    else
      var level := Level(clock, events[..|events| - 1]);
      if events[|events| - 1].Timer? then !level else level
  }

  function Pins(clock: bool, events: seq<Event>): seq<bool> {
    if events == [] then []
    else
      var front := events[..|events| - 1];
      Pins(clock, front) + match events[|events| - 1]
                           case Timer(pin) => if Level(clock, front) then [] else [pin]
                           case Main(_, _) => []
  }

  /** `n` is `m` with the rising edges of some events taken in. */
  predicate Took(m: Usart, events: seq<Event>, n: Usart) {
    && !n.sending && n.clock == Level(m.clock, events)
    && (n.data, n.bitCount) == ReceiveEdges(m.data, m.bitCount, Pins(m.clock, events))
  }

  lemma TookTick(m: Usart, events: seq<Event>, n: Usart, pin: bool)
    requires Took(m, events, n)
    ensures Took(m, events + [Timer(pin)], TickUsart(n, pin))
  {
    var pins := Pins(m.clock, events);
    ButLastSnoc(events, Timer(pin));
    if n.clock { EmptyRight(pins); } else { ButLastSnoc(pins, pin); }
  }

  lemma TookMain(m: Usart, events: seq<Event>, n: Usart, pin: bool, timedOut: bool)
    requires Took(m, events, n)
    ensures Took(m, events + [Main(pin, timedOut)], n)
  {
    ButLastSnoc(events, Main(pin, timedOut));
    EmptyRight(Pins(m.clock, events));
  }

  lemma TookNothing(m: Usart)
    requires !m.sending
    ensures Took(m, [], m)
  {}

  lemma {:induction false} TicksReceive(m: Machine, ticks: seq<Event>)
    requires !m.u.sending && TicksOnly(ticks)
    ensures var n := Run(m, ticks); n.pc == m.pc && n.received == m.received && Took(m.u, ticks, n.u)
  {
    if ticks == [] {
      TookNothing(m.u);
    } else {
      var k := |ticks| - 1;
      assert ticks[k] in ticks;
      TicksReceive(m, ticks[..k]);
      TookTick(m.u, ticks[..k], Run(m, ticks[..k]).u, ticks[k].pin);
      Snoc(ticks);
    }
  }

  // ----- Reception -----

  predicate Timeouts(events: seq<Event>) {
    exists i :: 0 <= i < |events| && events[i].Main? && events[i].timedOut
  }

  /** ReceiveByte has just set the bit count, or is waiting with some bits taken in. */
  predicate Receiving(m: Machine) { m.pc == RxWait && !m.u.sending && m.u.data < 0x800 }

  function CountAfter(u: Usart, events: seq<Event>): nat {
    ReceiveEdges(u.data, u.bitCount, Pins(u.clock, events)).1
  }

  lemma CountFalls(u: Usart, events: seq<Event>)
    requires events != []
    ensures CountAfter(u, events) <= CountAfter(u, events[..|events| - 1])
  {
    var front := events[..|events| - 1];
    var e := events[|events| - 1];
    if e.Timer? && !Level(u.clock, front) {
      ButLastSnoc(Pins(u.clock, front), e.pin);
    } else {
      EmptyRight(Pins(u.clock, front));
    }
  }

  /** Until the last bit has come in and without a timeout, the main line stays in its wait. */
  lemma {:induction false} WaitReceives(m: Machine, events: seq<Event>)
    requires m.pc == RxWait && !m.u.sending && !Timeouts(events)
    requires events != [] ==> CountAfter(m.u, events[..|events| - 1]) > 0
    ensures var n := Run(m, events); n.pc == RxWait && n.received == m.received && Took(m.u, events, n.u)
  {
    if events == [] {
      TookNothing(m.u);
    } else {
      var k := |events| - 1;
      var front := events[..k];
      if front != [] { CountFalls(m.u, front); }
      assert Timeouts(front) ==> Timeouts(events);
      WaitReceives(m, front);
      WaitOneEvent(m.u, front, Run(m, front), events[k]);
      Snoc(events);
    }
  }

  lemma WaitOneEvent(u: Usart, front: seq<Event>, n: Machine, e: Event)
    requires n.pc == RxWait && Took(u, front, n.u) && n.u.bitCount > 0 && (e.Main? ==> !e.timedOut)
    ensures var r := Step(n, e); r.pc == RxWait && r.received == n.received && Took(u, front + [e], r.u)
  {
    match e {
      case Timer(pin) => TookTick(u, front, n.u, pin);
      case Main(pin, timedOut) => TookMain(u, front, n.u, pin, timedOut);
    }
  }

  lemma {:induction false} FromStartIdle(n: nat, rest: seq<bool>)
    ensures FromStart(Idle(n) + rest) == FromStart(rest)
  {
    if n > 0 {
      IdleFront(n - 1);
      Assoc([true], Idle(n - 1), rest);
      assert ([true] + (Idle(n - 1) + rest))[1..] == Idle(n - 1) + rest;
      FromStartIdle(n - 1, rest);
    } else {
      EmptyLeft(rest);
    }
  }

  /**
    Reception under interruption: while ReceiveByte waits, let the interrupt and the main line interleave in any
    way without a timeout until the rising edges have shown an idle line and then the frame of a byte. The next
    two steps of the main line return that byte, whatever earlier frames left in the data word.
  */
  lemma Reception(m: Machine, events: seq<Event>, last: bool, idle: nat, b: byte, next: seq<Event>)
    requires Receiving(m) && m.u.bitCount == BITS_IN_USART_FRAME
    requires !Timeouts(events + [Timer(last)]) && !Level(m.u.clock, events)
    requires Pins(m.u.clock, events) + [last] == Idle(idle) + Frame(b)
    requires |next| == 2 && next[0].Main? && next[1].Main?
    ensures var n := Run(Run(m, events + [Timer(last)]), next);
            n.pc == Ready && n.received == m.received + [b]
  {
    var all := events + [Timer(last)];
    var pins := Pins(m.u.clock, events);
    ButLastSnoc(events, Timer(last));
    OneBitShort(pins, last, idle, b);
    ReceivesIff(m.u.data, pins);
    WaitReceives(m, all);
    FrameReceived(m.u.data, idle, b);
    TwoSteps(Run(m, all), next);
  }

  lemma TwoSteps(n: Machine, next: seq<Event>)
    requires n.pc == RxWait && n.u.bitCount == 0 && |next| == 2 && next[0].Main? && next[1].Main?
    ensures var r := Run(n, next); r.pc == Ready && r.received == n.received + [LowByte(n.u.data)]
  {
    StepOne(n, [], next[0]);
    EmptyLeft([next[0]]);
    StepOne(n, [next[0]], next[1]);
    Two(next[0], next[1]);
    assert next == [next[0], next[1]];
  }

  lemma OneBitShort(pins: seq<bool>, last: bool, idle: nat, b: byte)
    requires pins + [last] == Idle(idle) + Frame(b)
    ensures |FromStart(pins)| == 11
  {
    var frame := Frame(b);
    ButLast(Idle(idle), frame);
    ButLastSnoc(pins, last);
    FromStartIdle(idle, frame[..11]);
  }

  // ----- The byte that ReceiveByte returns -----

  /** `value` is what the wait of ReceiveByte, begun at `w`, has made of the rising edges of `wait`. */
  predicate Awaited(w: Machine, wait: seq<Event>, value: byte) {
    && Receiving(w) && w.u.bitCount == BITS_IN_USART_FRAME
    && value == LowByte(ReceiveEdges(w.u.data, BITS_IN_USART_FRAME, Pins(w.u.clock, wait)).0)
  }

  /** Once the bits are in, further rising edges do not matter: a frame on the pin is the byte returned. */
  lemma AwaitedByte(w: Machine, wait: seq<Event>, value: byte, idle: nat, b: byte, rest: seq<bool>)
    requires Awaited(w, wait, value) && Pins(w.u.clock, wait) == Idle(idle) + Frame(b) + rest
    ensures value == b
  {
    FrameReceived(w.u.data, idle, b);
    EdgesConcat(w.u.data, BITS_IN_USART_FRAME, Idle(idle) + Frame(b), rest);
    NoBitsToCome(ReceiveEdges(w.u.data, BITS_IN_USART_FRAME, Idle(idle) + Frame(b)).0, rest);
  }

  lemma {:induction false} NoBitsToCome(data: nat, pins: seq<bool>)
    ensures ReceiveEdges(data, 0, pins) == (data, 0)
  {
    if pins != [] { NoBitsToCome(data, pins[..|pins| - 1]); }
  }

  // ----- The waits of SetTxMode and SetRxMode -----

  /** XPROGTarget_SetTxMode and XPROGTarget_SetRxMode both begin with an untimed wait for the bit count. */
  predicate Draining(m: Machine) { m.pc == TxDrain || m.pc.RxDrain? }

  /** Such a wait is over after these interrupts. */
  predicate WaitEnds(m: Machine, ticks: seq<Event>) {
    !Draining(Run(m, ticks + [Main(true, false)]))
  }

  lemma WaitEndsAt(m: Machine, ticks: seq<Event>)
    requires Draining(m) && !m.u.sending && TicksOnly(ticks)
    ensures WaitEnds(m, ticks) <==> ReceiveEdges(m.u.data, m.u.bitCount, Pins(m.u.clock, ticks)).1 == 0
  {
    StepOne(m, ticks, Main(true, false));
    TicksReceive(m, ticks);
  }

  /** What that wait needs: the bits left over, and before them a start bit if none has come yet. */
  lemma WaitNeeds(m: Machine, ticks: seq<Event>)
    requires Draining(m) && !m.u.sending && m.u.bitCount <= BITS_IN_USART_FRAME && TicksOnly(ticks)
    ensures var pins := Pins(m.u.clock, ticks);
            WaitEnds(m, ticks) <==>
              if m.u.bitCount == BITS_IN_USART_FRAME then |FromStart(pins)| >= BITS_IN_USART_FRAME
              else |pins| >= m.u.bitCount
  {
    WaitEndsAt(m, ticks);
    var pins := Pins(m.u.clock, ticks);
    if m.u.bitCount == BITS_IN_USART_FRAME {
      ReceivesIff(m.u.data, pins);
    } else {
      CountsDown(m.u.data, m.u.bitCount, pins);
    }
  }

  /** However the target drives the line, a full frame time of interrupts ends the wait. */
  ghost predicate AlwaysEnds(m: Machine) {
    forall ticks {:trigger WaitEnds(m, ticks)} ::
      TicksOnly(ticks) && |Pins(m.u.clock, ticks)| >= BITS_IN_USART_FRAME ==> WaitEnds(m, ticks)
  }

  /**
    In receive mode, SetTxMode and SetRxMode get past their first wait, within a frame time and whatever the target
    does, exactly when the bit count is not that of a receive abandoned before its start bit.
  */
  lemma TransmitModeIff(m: Machine)
    requires Draining(m) && !m.u.sending && m.u.bitCount <= BITS_IN_USART_FRAME
    ensures AlwaysEnds(m) <==> m.u.bitCount != BITS_IN_USART_FRAME
  {
    if m.u.bitCount != BITS_IN_USART_FRAME {
      forall ticks | TicksOnly(ticks) && |Pins(m.u.clock, ticks)| >= BITS_IN_USART_FRAME ensures WaitEnds(m, ticks) {
        WaitNeeds(m, ticks);
      }
    } else {
      var ticks := HighTicks(BITS_IN_USART_FRAME);
      HighPins(m.u.clock, BITS_IN_USART_FRAME);
      FromStartIdle(BITS_IN_USART_FRAME, []);
      EmptyRight(Idle(BITS_IN_USART_FRAME));
      WaitNeeds(m, ticks);
    }
  }

  /** The line stays high for `n` periods of the clock. */
  function HighTicks(n: nat): (ticks: seq<Event>)
    ensures TicksOnly(ticks)
  {
    if n == 0 then [] else HighTicks(n - 1) + [Timer(true)] + [Timer(true)]
  }

  lemma {:induction false} HighPins(clock: bool, n: nat)
    ensures Pins(clock, HighTicks(n)) == Idle(n) && Level(clock, HighTicks(n)) == clock
  {
    if n > 0 {
      HighPins(clock, n - 1);
      HighPeriod(clock, HighTicks(n - 1));
    }
  }

  lemma HighPeriod(clock: bool, ticks: seq<Event>)
    ensures var longer := ticks + [Timer(true)] + [Timer(true)];
            Pins(clock, longer) == Pins(clock, ticks) + [true] && Level(clock, longer) == Level(clock, ticks)
  {
    ButLastSnoc(ticks, Timer(true));
    ButLastSnoc(ticks + [Timer(true)], Timer(true));
    EmptyRight(Pins(clock, ticks));
    EmptyRight(Pins(clock, ticks) + [true]);
  }

  /** A receive leaves that count behind exactly when it saw no start bit. */
  lemma AbandonedIff(data: nat, pins: seq<bool>)
    ensures ReceiveEdges(data, BITS_IN_USART_FRAME, pins).1 == BITS_IN_USART_FRAME <==> FromStart(pins) == []
  {
    CountLeft(data, pins);
  }

  predicate PinsHigh(events: seq<Event>) {
    forall e :: e in events ==> e.pin
  }

  function Again(e: Event, n: nat): seq<Event> {
    if n == 0 then [] else Again(e, n - 1) + [e]
  }

  lemma RunAgain(m: Machine, e: Event, n: nat)
    requires n > 0
    ensures Run(m, Again(e, n)) == Step(Run(m, Again(e, n - 1)), e)
  {
    StepOne(m, Again(e, n - 1), e);
  }

  /** The stall is reachable: a receive that times out, then a send or the end of the session; the line stays high. */
  lemma AbandonedReceiveStalls(m: Machine, op: Op, events: seq<Event>)
    requires Start(m, [ReceiveByte, op]) && !op.ReceiveByte? && PinsHigh(events)
    ensures Draining(Run(Run(m, Again(Main(true, true), 5)), events))
  {
    var main := Main(true, true);
    RunAgain(m, main, 1);
    RunAgain(m, main, 2);
    RunAgain(m, main, 3);
    RunAgain(m, main, 4);
    RunAgain(m, main, 5);
    FiveAbandon(m, op);
    StallKept(Run(m, Again(main, 5)), events);
  }

  predicate Stalled(m: Machine) {
    Draining(m) && !m.u.sending && m.u.bitCount == BITS_IN_USART_FRAME
  }

  /** Fetch the receive, arm it, time out, return; fetch the other call. */
  lemma FiveAbandon(m: Machine, op: Op)
    requires Start(m, [ReceiveByte, op]) && !op.ReceiveByte?
    ensures var main := Main(true, true); Stalled(Step(Step(Step(Step(Step(m, main), main), main), main), main))
  {
    var main := Main(true, true);
    var m2 := Step(Step(m, main), main);
    assert m2.pc == RxWait && m2.u.bitCount == BITS_IN_USART_FRAME && m2.todo == [op];
    var m4 := Step(Step(m2, main), main);
    assert m4.pc == Ready && m4.u == m2.u && m4.todo == [op];
  }

  lemma {:induction false} StallKept(m: Machine, events: seq<Event>)
    requires Stalled(m) && PinsHigh(events)
    ensures Stalled(Run(m, events))
  {
    if events != [] {
      var k := |events| - 1;
      StallKept(m, events[..k]);
      assert events[k] in events;
      StallStep(Run(m, events[..k]), events[k]);
    }
  }

  lemma StallStep(m: Machine, e: Event)
    requires Stalled(m) && e.pin
    ensures Stalled(Step(m, e))
  {}

  // ----- The wait for the line to be pulled up -----

  /** The main line sees the line low, and has time left. */
  predicate LineLow(events: seq<Event>) {
    forall e :: e in events && e.Main? ==> !e.pin && !e.timedOut
  }

  lemma PullStep(m: Machine, e: Event)
    requires m.pc.RxPull?
    ensures Step(m, e).pc != m.pc <==> e.Main? && (e.pin || e.timedOut)
  {}

  lemma {:induction false} StaysDown(m: Machine, events: seq<Event>)
    requires m.pc.RxPull? && LineLow(events)
    ensures Run(m, events).pc == m.pc
  {
    if events != [] {
      var k := |events| - 1;
      assert events[k] in events;
      StaysDown(m, events[..k]);
      PullStep(Run(m, events[..k]), events[k]);
    }
  }

  /** Having let go of the line, SetRxMode goes on exactly when it has been seen high, or the time is up. */
  lemma PulledUpIff(m: Machine, events: seq<Event>, e: Event)
    requires m.pc.RxPull? && LineLow(events) && e.Main?
    ensures Run(m, events + [e]).pc != m.pc <==> e.pin || e.timedOut
  {
    StaysDown(m, events);
    StepOne(m, events, e);
    PullStep(Run(m, events), e);
  }
}
