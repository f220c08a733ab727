/** Sending comes to an end: programs of sends reach quiet under interrupts that keep coming. */
module UsartProgress {
  import opened SoftUsart

  predicate SendsOnly(program: seq<Op>) {
    forall op :: op in program ==> IsSend(op)
  }

  /** A main line that only sends: no receive is under way, and at most the dummy bit of SetTxMode is being taken in. */
  predicate Sending(m: Machine) {
    && SendsOnly(m.todo) && Control(m.u, m.pc)
    && (m.pc == Ready || Holding(m.pc))
    && (!m.u.sending ==> m.u.bitCount <= 1)
    && (m.wire.unsampled ==> !m.u.clock)
  }

  /** Half clock periods until the bit count is zero. */
  function HalfPeriods(u: Usart): nat {
    if u.bitCount == 0 then 0 else 2 * u.bitCount - if u.clock == u.sending then 1 else 0
  }

  /** What is left of the current call, in terms that outweigh the bits it has still to arm. */
  function CallWork(pc: Pc): nat {
    match pc
    case TxDrain => 90 case TxFirst => 85 case TxSecond => 84 case TxArm => 83
    case TxClock => 70 case TxLine => 69 case TxMode => 68
    case Drain => 60 case StoreFirst => 59 case StoreSecond => 58 case Arm => 57
    case _ => 0
  }

  function Work(m: Machine): nat {
    100 * |m.todo| + CallWork(m.pc) + 2 * HalfPeriods(m.u) + if m.wire.unsampled then 1 else 0
  }

  lemma WorkDone(m: Machine)
    requires Sending(m) && Work(m) == 0
    ensures Quiet(m)
  {}

  /** An interrupt never adds work, and takes some away while there are bits to drive, to take in or to sample. */
  lemma TickWorks(m: Machine, pin: bool)
    requires Sending(m)
    ensures var n := Tick(m, pin);
            && Sending(n) && Work(n) <= Work(m)
            && (m.u.bitCount > 0 || m.wire.unsampled ==> Work(n) < Work(m))
  {
    ControlTick(m.u, m.pc, pin);
  }

  /** A step of the main line never adds work, and takes some away unless it waits or has nothing to do. */
  lemma MainWorks(m: Machine, pin: bool, timedOut: bool)
    requires Sending(m)
    ensures var n := Advance(m, pin, timedOut);
            && Sending(n) && Work(n) <= Work(m)
            && (m.u.bitCount == 0 && (m.pc != Ready || m.todo != []) ==> Work(n) < Work(m))
  {
    if m.pc == Ready {
      if m.todo != [] { Fetch(m, pin, timedOut); }
    } else {
      ControlMain(m.u, m.pc, m.word, m.lowFirst, pin, timedOut);
    }
  }

  lemma Fetch(m: Machine, pin: bool, timedOut: bool)
    requires Sending(m) && m.pc == Ready && m.todo != []
    ensures var n := Advance(m, pin, timedOut); Sending(n) && Work(n) < Work(m)
  {
    assert m.todo[0] in m.todo;
    assert forall op :: op in m.todo[1..] ==> op in m.todo;
  }

  /** How often an interrupt is followed at once by a step of the main line. */
  function Rounds(events: seq<Event>): nat {
    var n := |events|;
    if n < 2 then 0 else Rounds(events[..n - 1]) + if EndsRound(events) then 1 else 0
  }

  predicate EndsRound(events: seq<Event>) {
    |events| >= 2 && events[|events| - 2].Timer? && events[|events| - 1].Main?
  }

  lemma PairWorks(m: Machine, a: Event, b: Event)
    requires Sending(m) && a.Timer? && b.Main?
    ensures var n := Step(Step(m, a), b); Sending(n) && (Work(n) < Work(m) || Work(n) == 0)
  {
    TickWorks(m, a.pin);
    var t := Step(m, a);
    MainWorks(t, b.pin, b.timedOut);
    if m.u.bitCount == 0 && !m.wire.unsampled && t.pc == Ready && t.todo == [] {
      NothingLeft(m, a.pin);
      NothingLeft(t, b.pin);
      assert Step(t, b) == t;
    }
  }

  lemma NothingLeft(m: Machine, pin: bool)
    requires Sending(m) && m.u.bitCount == 0 && !m.wire.unsampled && m.pc == Ready && m.todo == []
    ensures var n := Tick(m, pin);
            Work(m) == 0 && n.u.bitCount == 0 && !n.wire.unsampled && n.pc == Ready && n.todo == []
  {}

  lemma RunPair(m: Machine, front: seq<Event>, a: Event, b: Event)
    ensures Run(m, front + [a] + [b]) == Step(Step(Run(m, front), a), b)
  {
    StepOne(m, front, a);
    StepOne(m, front + [a], b);
  }

  lemma LastTwo(events: seq<Event>)
    requires |events| >= 2
    ensures var k := |events| - 2; events == events[..k] + [events[k]] + [events[k + 1]]
  {}

  lemma LastRound(events: seq<Event>)
    requires EndsRound(events)
    ensures Rounds(events) == Rounds(events[..|events| - 2]) + 1
  {
    var k := |events| - 2;
    var longer := events[..k + 1];
    assert longer[k].Timer? && !EndsRound(longer);
    if k > 0 { assert longer[..|longer| - 1] == events[..k]; }
  }

  /** Anything that happens leaves no more work than there was. */
  lemma StepWorks(m: Machine, e: Event)
    requires Sending(m)
    ensures Sending(Step(m, e)) && Work(Step(m, e)) <= Work(m)
  {
    match e {
      case Timer(pin) => TickWorks(m, pin);
      case Main(pin, timedOut) => MainWorks(m, pin, timedOut);
    }
  }

  lemma {:induction false} RoundsWork(m: Machine, events: seq<Event>)
    requires Sending(m)
    ensures Sending(Run(m, events))
    ensures Work(Run(m, events)) == 0 || Work(Run(m, events)) + Rounds(events) <= Work(m)
    decreases |events|
  {
    if EndsRound(events) {
      LastRound(events);
      LastTwo(events);
      var k := |events| - 2;
      RoundsWork(m, events[..k]);
      PairWorks(Run(m, events[..k]), events[k], events[k + 1]);
      RunPair(m, events[..k], events[k], events[k + 1]);
    } else if events != [] {
      var k := |events| - 1;
      RoundsWork(m, events[..k]);
      StepWorks(Run(m, events[..k]), events[k]);
    }
  }

  /**
    Every program of sends is transmitted, under any interleaving: once 100 interrupts for each call have been followed
    by a step of the main line, whatever else has happened, all is quiet and the target has heard exactly the bytes of
    the program.
  */
  lemma SendsComplete(m: Machine, program: seq<Op>, events: seq<Event>)
    requires Start(m, program) && SendsOnly(program)
    requires Rounds(events) >= 100 * |program|
    ensures var n := Run(m, events);
            Quiet(n) && Heard(n.wire.sampled) == Receiver([], SentBytes(program))
  {
    RoundsWork(m, events);
    WorkDone(Run(m, events));
    Transmission(m, program, events);
  }
}
