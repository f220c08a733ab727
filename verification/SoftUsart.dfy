/**
  The bit-banged USART of isp/Lib/XPROG/XPROGTarget.c as an interleaved machine: the main line runs one access to
  shared state at a time, and the timer interrupt may fall between any two of them.
*/
module SoftUsart {
  import opened Bits
  import opened Seqs
  import opened UsartFrames

  /** SoftUSART_Data, SoftUSART_BitCount and IsSending; the clock pin; the data pin as this side drives it. */
  datatype Usart = Usart(data: nat, bitCount: nat, sending: bool, clock: bool, line: bool)

  /** History of the wire: bits driven at falling edges, and levels the target samples at rising edges. */
  datatype Wire = Wire(
    driven: seq<bool>,
    sampled: seq<bool>,
    unsampled: bool     // the last driven bit has not been sampled yet
  )

  /** One call of the main line. Release is the call of SetRxMode that ends a session, in whatever mode it finds it. */
  datatype Op = SendByte(b: byte) | SendBreak | ReceiveByte | Release

  /** Who has called XPROGTarget_SetRxMode. */
  datatype Caller = ByReceive | ByRelease

  /** Where the main line stands; each label names the access to shared state that comes next. */
  datatype Pc =
    | Ready                                                             // between calls
    | TxDrain | TxFirst | TxSecond | TxArm | TxClock | TxLine | TxMode  // XPROGTarget_SetTxMode
    | Drain | StoreFirst | StoreSecond | Arm                            // the end of SendByte and SendBreak
    | RxDrain(back: Caller) | RxRelease(back: Caller)
    | RxPull(back: Caller) | RxMode(back: Caller)                       // XPROGTarget_SetRxMode
    | RxArm | RxWait | RxRead                                           // the end of ReceiveByte

  datatype Machine = Machine(
    u: Usart,
    wire: Wire,
    pc: Pc,
    word: nat,          // the frame the main line holds, once a send has begun
    lowFirst: bool,     // which half of SoftUSART_Data the compiler stores first
    todo: seq<Op>,      // calls still to be made
    armed: seq<nat>,    // history: frames whose bit count has been set
    received: seq<byte> // history: results of ReceiveByte
  )

  // ----- The timer interrupt -----

  function RisingEdge(u: Usart, pin: bool): Usart {
    if u.sending then u
    else
      var (data, bitCount) := ReceiveEdge(u.data, u.bitCount, pin);
      u.(data := data, bitCount := bitCount)
  }

  function FallingEdge(u: Usart): Usart {
    if u.bitCount == 0 || !u.sending then u
    else u.(line := u.data % 2 == 1, data := u.data / 2, bitCount := u.bitCount - 1)
  }

  /** Both timer interrupts: the clock toggles, then a rising edge may shift a bit in, a falling edge one out. */
  function TickUsart(u: Usart, pin: bool): Usart {
    if u.clock then FallingEdge(u.(clock := false)) else RisingEdge(u.(clock := true), pin)
  }

  /** The target samples the line while we send, and also the last bit we drove. */
  function TickWire(u: Usart, wire: Wire): Wire {
    if !u.clock then
      Wire(wire.driven, wire.sampled + (if u.sending || wire.unsampled then [u.line] else []), false)
    else if u.bitCount > 0 && u.sending then
      Wire(wire.driven + [u.data % 2 == 1], wire.sampled, true)
    else wire
  }

  function Tick(m: Machine, pin: bool): Machine {
    m.(u := TickUsart(m.u, pin), wire := TickWire(m.u, m.wire))
  }

  // ----- The main line -----

  function WordOf(op: Op): word {
    match op
    case SendByte(b) => FrameWord(b)
    case SendBreak => BREAK_WORD
    case ReceiveByte | Release => 0
  }

  /** One of the two byte stores that make up a store to SoftUSART_Data. */
  function StoreHalf(data: nat, word: nat, low: bool): nat {
    if low then data / 0x100 * 0x100 + word % 0x100 else word / 0x100 * 0x100 + data % 0x100
  }

  /** The effect of the main line's next access on the shared state. */
  function MainUsart(u: Usart, pc: Pc, word: nat, lowFirst: bool): Usart {
    match pc
    case TxFirst => u.(data := StoreHalf(u.data, 1, lowFirst))
    case TxSecond => u.(data := StoreHalf(u.data, 1, !lowFirst))
    case TxArm => u.(bitCount := 1)
    case TxLine => u.(line := true)
    case TxMode => u.(sending := true)
    case StoreFirst => u.(data := StoreHalf(u.data, word, lowFirst))
    case StoreSecond => u.(data := StoreHalf(u.data, word, !lowFirst))
    case Arm => u.(bitCount := BITS_IN_USART_FRAME)
    case RxRelease(_) => u.(line := true)
    case RxMode(_) => u.(sending := false)
    case RxArm => u.(bitCount := BITS_IN_USART_FRAME)
    case _ => u
  }

  function StartOf(op: Op, sending: bool): Pc {
    match op
    case ReceiveByte => if sending then RxDrain(ByReceive) else RxArm
    case Release => RxDrain(ByRelease)
    case _ => if sending then Drain else TxDrain
  }

  predicate IsSend(op: Op) { op.SendByte? || op.SendBreak? }

  /** Where the main line goes next; the busy-waits stay where they are. */
  function NextPc(u: Usart, pc: Pc, pin: bool, timedOut: bool): Pc {
    var idle := u.bitCount == 0;
    match pc
    case Ready => Ready
    case TxDrain => if idle then TxFirst else TxDrain
    case TxFirst => TxSecond
    case TxSecond => TxArm
    case TxArm => TxClock
    case TxClock => if idle then TxLine else TxClock
    case TxLine => TxMode
    case TxMode => Drain
    case Drain => if idle then StoreFirst else Drain
    case StoreFirst => StoreSecond
    case StoreSecond => Arm
    case Arm => Ready
    case RxDrain(back) => if idle then RxRelease(back) else RxDrain(back)
    case RxRelease(back) => RxPull(back)
    case RxPull(back) => if pin || timedOut then RxMode(back) else RxPull(back)
    case RxMode(back) => if back == ByReceive then RxArm else Ready
    case RxArm => RxWait
    case RxWait => if idle || timedOut then RxRead else RxWait
    case RxRead => Ready
  }

  function Advance(m: Machine, pin: bool, timedOut: bool): Machine {
    if m.pc == Ready then
      if m.todo == [] then m
      else m.(todo := m.todo[1..], word := WordOf(m.todo[0]), pc := StartOf(m.todo[0], m.u.sending))
    else
      m.(u := MainUsart(m.u, m.pc, m.word, m.lowFirst),
         pc := NextPc(m.u, m.pc, pin, timedOut),
         armed := if m.pc == Arm then m.armed + [m.word] else m.armed,
         received := if m.pc == RxRead then m.received + [LowByte(m.u.data)] else m.received)
  }

  /** What may happen next: a timer interrupt, or one step of the main line. */
  datatype Event = Timer(pin: bool) | Main(pin: bool, timedOut: bool)

  function Step(m: Machine, e: Event): Machine {
    match e
    case Timer(pin) => Tick(m, pin)
    case Main(pin, timedOut) => Advance(m, pin, timedOut)
  }

  function Run(m: Machine, events: seq<Event>): Machine {
    if events == [] then m else Step(Run(m, events[..|events| - 1]), events[|events| - 1])
  }

  lemma StepOne(m: Machine, events: seq<Event>, e: Event)
    ensures Run(m, events + [e]) == Step(Run(m, events), e)
  {
    ButLastSnoc(events, e);
  }

  lemma {:induction false} RunOn(m: Machine, a: seq<Event>, b: seq<Event>)
    ensures Run(m, a + b) == Run(Run(m, a), b)
  {
    if b == [] {
      EmptyRight(a);
    } else {
      RunOn(m, a, b[..|b| - 1]);
      ButLast(a, b);
    }
  }

  /** The state in which XPROGTarget_EnableTargetPDI and XPROGTarget_EnableTargetTPI start the timer. */
  predicate Start(m: Machine, program: seq<Op>) {
    && m.u.data < 0x800 && m.u.bitCount == 0 && !m.u.sending && m.u.line
    && m.wire == Wire([], [], false)
    && m.pc == Ready && m.todo == program && m.armed == [] && m.received == []
  }

  // ----- Control and data -----

  /** Which modes and counts go with each point of the main line. */
  predicate Control(u: Usart, pc: Pc) {
    && u.bitCount <= BITS_IN_USART_FRAME
    && match pc
       case Ready => true
       case TxDrain => !u.sending
       case TxFirst | TxSecond | TxArm | TxLine | TxMode => !u.sending && u.bitCount == 0
       case TxClock => !u.sending && u.bitCount <= 1
       case Drain => u.sending
       case StoreFirst | StoreSecond | Arm => u.sending && u.bitCount == 0
       case RxDrain(back) => back == ByReceive ==> u.sending
       case RxRelease(back) => u.bitCount == 0 && (back == ByReceive ==> u.sending)
       case RxPull(back) => u.bitCount == 0 && (back == ByReceive ==> u.sending)
       case RxMode(back) => u.bitCount == 0 && (back == ByReceive ==> u.sending)
       case RxArm | RxWait | RxRead => !u.sending
  }

  lemma ControlTick(u: Usart, pc: Pc, pin: bool)
    requires Control(u, pc)
    ensures Control(TickUsart(u, pin), pc)
  {}

  lemma ControlMain(u: Usart, pc: Pc, word: nat, lowFirst: bool, pin: bool, timedOut: bool)
    requires Control(u, pc) && pc != Ready
    ensures Control(MainUsart(u, pc, word, lowFirst), NextPc(u, pc, pin, timedOut))
  {}

  predicate IsFrame(w: nat) { 0x800 <= w < 0x1000 }

  /** The main line holds a frame between fetching a send call and arming it. */
  predicate Holding(pc: Pc) {
    match pc
    case TxDrain | TxFirst | TxSecond | TxArm | TxClock | TxLine | TxMode => true
    case Drain | StoreFirst | StoreSecond | Arm => true
    case _ => false
  }

  /** The data word stays below bit 11 unless a whole frame is in it, and it is never torn when it is armed. */
  predicate Data(u: Usart, pc: Pc, word: nat, lowFirst: bool) {
    && u.data < 0x1000
    && (u.data >= 0x800 ==> u.sending && (u.bitCount == BITS_IN_USART_FRAME || pc == StoreSecond || pc == Arm))
    && (Holding(pc) ==> IsFrame(word))
    && (pc == StoreSecond ==>
          if lowFirst then u.data % 0x100 == word % 0x100 else u.data / 0x100 == word / 0x100)
    && (pc == Arm ==> u.data == word)
  }

  lemma DataTick(u: Usart, pc: Pc, word: nat, lowFirst: bool, pin: bool)
    requires Control(u, pc) && Data(u, pc, word, lowFirst)
    ensures Data(TickUsart(u, pin), pc, word, lowFirst)
  {
    if u.data < 0x800 { ShiftInValue(u.data, pin); }
  }

  lemma DataMain(u: Usart, pc: Pc, word: nat, lowFirst: bool, pin: bool, timedOut: bool)
    requires Control(u, pc) && Data(u, pc, word, lowFirst) && pc != Ready
    ensures Data(MainUsart(u, pc, word, lowFirst), NextPc(u, pc, pin, timedOut), word, lowFirst)
  {
    match pc {
      case TxFirst => StoreHalfFacts(u.data, 1, lowFirst);
      case TxSecond => StoreHalfFacts(u.data, 1, !lowFirst);
      case StoreFirst => StoreHalfFacts(u.data, word, lowFirst);
      case StoreSecond => StoreHalfFacts(u.data, word, !lowFirst);
      case _ =>
    }
  }

  lemma StoreHalfFacts(data: nat, word: nat, low: bool)
    ensures var r := StoreHalf(data, word, low);
            && r % 0x100 == (if low then word else data) % 0x100
            && r / 0x100 == (if low then data else word) / 0x100
  {}

  // ----- Transmission -----

  /** The bits of the frames, in order. */
  function FrameBits(words: seq<nat>): (s: seq<bool>)
    ensures |s| == BITS_IN_USART_FRAME * |words|
  {
    if words == [] then [] else FrameBits(words[..|words| - 1]) + BitsOf(words[|words| - 1], BITS_IN_USART_FRAME)
  }

  /** The bits of the current frame that the interrupt has still to drive. */
  function Pending(u: Usart): seq<bool> {
    if u.sending then BitsOf(u.data, u.bitCount) else []
  }

  /** Every armed frame is driven bit by bit, in order: none is torn, dropped or repeated. */
  predicate Conserved(u: Usart, wire: Wire, armed: seq<nat>) {
    && wire.driven + Pending(u) == FrameBits(armed)
    && forall i :: 0 <= i < |armed| ==> IsFrame(armed[i])
  }

  lemma ConservedTick(u: Usart, wire: Wire, armed: seq<nat>, pin: bool)
    requires Conserved(u, wire, armed)
    ensures Conserved(TickUsart(u, pin), TickWire(u, wire), armed)
  {
    if u.clock && u.bitCount > 0 && u.sending {
      Assoc(wire.driven, [u.data % 2 == 1], BitsOf(u.data / 2, u.bitCount - 1));
    }
  }

  /** Only arming adds bits to be driven. */
  lemma PendingStays(u: Usart, pc: Pc, word: nat, lowFirst: bool)
    requires Control(u, pc) && pc != Arm
    ensures Pending(MainUsart(u, pc, word, lowFirst)) == Pending(u)
  {
    NoBits(u.data);
    NoBits(MainUsart(u, pc, word, lowFirst).data);
  }

  lemma NoBits(x: nat)
    ensures BitsOf(x, 0) == []
  {}

  lemma ArmConserves(u: Usart, wire: Wire, armed: seq<nat>, word: nat)
    requires Conserved(u, wire, armed) && IsFrame(word) && u.sending && u.bitCount == 0 && u.data == word
    ensures Conserved(u.(bitCount := BITS_IN_USART_FRAME), wire, armed + [word])
  {
    ButLastSnoc(armed, word);
    EmptyRight(wire.driven);
    NoBits(u.data);
  }

  lemma ConservedMain(m: Machine, pin: bool, timedOut: bool)
    requires Control(m.u, m.pc) && Data(m.u, m.pc, m.word, m.lowFirst) && Conserved(m.u, m.wire, m.armed)
    ensures var n := Advance(m, pin, timedOut); Conserved(n.u, n.wire, n.armed)
  {
    if m.pc == Arm {
      ArmConserves(m.u, m.wire, m.armed, m.word);
    } else if m.pc != Ready {
      PendingStays(m.u, m.pc, m.word, m.lowFirst);
    }
  }

  /** The frames that a sequence of calls asks for. */
  function FrameWords(program: seq<Op>): seq<nat> {
    if program == [] then []
    else (if IsSend(program[0]) then [WordOf(program[0])] else []) + FrameWords(program[1..])
  }

  function Held(pc: Pc, word: nat): seq<nat> { if Holding(pc) then [word] else [] }

  /** The frames armed, the one held and those still to come are the program's. */
  predicate InOrder(m: Machine, program: seq<Op>) {
    m.armed + Held(m.pc, m.word) + FrameWords(m.todo) == FrameWords(program)
  }

  lemma FetchInOrder(m: Machine, program: seq<Op>, pin: bool, timedOut: bool)
    requires InOrder(m, program) && m.pc == Ready && m.todo != []
    ensures InOrder(Advance(m, pin, timedOut), program)
  {
    var op := m.todo[0];
    EmptyRight(m.armed);
    HeldOnFetch(op, m.u.sending);
    Assoc(m.armed, Held(StartOf(op, m.u.sending), WordOf(op)), FrameWords(m.todo[1..]));
  }

  lemma HeldOnFetch(op: Op, sending: bool)
    ensures Held(StartOf(op, sending), WordOf(op)) == if IsSend(op) then [WordOf(op)] else []
  {}

  lemma ArmInOrder(m: Machine, program: seq<Op>, pin: bool, timedOut: bool)
    requires InOrder(m, program) && m.pc == Arm
    ensures InOrder(Advance(m, pin, timedOut), program)
  {
    EmptyRight(m.armed + [m.word]);
  }

  lemma HeldStays(u: Usart, pc: Pc, pin: bool, timedOut: bool)
    requires pc != Ready && pc != Arm
    ensures Holding(NextPc(u, pc, pin, timedOut)) == Holding(pc)
  {}

  lemma InOrderMain(m: Machine, program: seq<Op>, pin: bool, timedOut: bool)
    requires InOrder(m, program)
    ensures InOrder(Advance(m, pin, timedOut), program)
  {
    if m.pc == Ready {
      if m.todo != [] { FetchInOrder(m, program, pin, timedOut); }
    } else if m.pc == Arm {
      ArmInOrder(m, program, pin, timedOut);
    } else {
      HeldStays(m.u, m.pc, pin, timedOut);
    }
  }

  // ----- The target's receiver -----

  /** A receiver between bits: the frame bits taken in so far, and the bytes received. */
  datatype Receiver = Receiver(partial: seq<bool>, bytes: seq<nat>)

  /** High samples between frames are idle; a low one starts a frame. One with a wrong parity or stop bit is lost. */
  function Hear(r: Receiver, bit: bool): Receiver {
    if r.partial == [] && bit then r
    else if |r.partial| + 1 < 12 then r.(partial := r.partial + [bit])
    else if Accepted(r.partial + [bit]) then Receiver([], r.bytes + [ValueOf((r.partial + [bit])[1..9])])
    else Receiver([], r.bytes)
  }

  function HearAll(r: Receiver, bits: seq<bool>): Receiver {
    if bits == [] then r else Hear(HearAll(r, bits[..|bits| - 1]), bits[|bits| - 1])
  }

  const SILENT := Receiver([], [])

  function Heard(bits: seq<bool>): Receiver { HearAll(SILENT, bits) }

  lemma {:induction false} HearConcat(r: Receiver, a: seq<bool>, b: seq<bool>)
    ensures HearAll(r, a + b) == HearAll(HearAll(r, a), b)
  {
    if b == [] {
      EmptyRight(a);
    } else {
      HearConcat(r, a, b[..|b| - 1]);
      ButLast(a, b);
    }
  }

  lemma HearOne(r: Receiver, bits: seq<bool>, bit: bool)
    ensures HearAll(r, bits + [bit]) == Hear(HearAll(r, bits), bit)
  {
    ButLastSnoc(bits, bit);
  }

  /** More bits only add bytes. */
  lemma {:induction false} HearGrows(r: Receiver, bits: seq<bool>)
    ensures r.bytes <= HearAll(r, bits).bytes
  {
    if bits != [] { HearGrows(r, bits[..|bits| - 1]); }
  }

  /** The bits of a frame pile up until the twelfth. */
  lemma {:induction false} HearPartial(bytes: seq<nat>, bits: seq<bool>)
    requires 0 < |bits| < BITS_IN_USART_FRAME && !bits[0]
    ensures HearAll(Receiver([], bytes), bits) == Receiver(bits, bytes)
  {
    var n := |bits| - 1;
    if n == 0 {
      assert bits[..0] == [];
      EmptyLeft([bits[0]]);
      assert bits == [bits[0]];
    } else {
      HearPartial(bytes, bits[..n]);
      Snoc(bits);
    }
  }

  lemma FrameParts(b: byte)
    ensures |Frame(b)| == BITS_IN_USART_FRAME && !Frame(b)[0] && Frame(b)[1..9] == BitsOf(b, 8)
  {
    FrameSlices(BitsOf(b, 8), Parity(b) == 1);
  }

  lemma FrameValue(b: byte)
    ensures ValueOf(BitsOf(b, 8)) == b
  {
    NineBits();
    ValueOfBits(b, 8);
  }

  lemma HearFrame(bytes: seq<nat>, b: byte)
    ensures HearAll(Receiver([], bytes), Frame(b)) == Receiver([], bytes + [b])
  {
    var bits := Frame(b);
    FrameParts(b);
    FrameValue(b);
    FrameAccepted(b);
    HearPartial(bytes, bits[..11]);
    Snoc(bits);
  }

  lemma {:induction false} HearIdle(r: Receiver, n: nat)
    requires r.partial == []
    ensures HearAll(r, Idle(n)) == r
  {
    if n > 0 {
      HearIdle(r, n - 1);
      HearOne(r, Idle(n - 1), true);
    }
  }

  lemma BreakIsIdle()
    ensures BitsOf(BREAK_WORD, 12) == Idle(12)
  {
    BreakBits(12);
    NineBits();
  }

  lemma {:induction false} BreakBits(n: nat)
    ensures BitsOf(Pow2(n) - 1, n) == Idle(n)
  {
    if n > 0 {
      var p := Pow2(n - 1);
      assert (2 * p - 1) % 2 == 1 && (2 * p - 1) / 2 == p - 1;
      BreakBits(n - 1);
      IdleFront(n - 1);
    }
  }

  lemma {:induction false} IdleFront(n: nat)
    ensures [true] + Idle(n) == Idle(n + 1)
  {
    if n > 0 {
      IdleFront(n - 1);
      Assoc([true], Idle(n - 1), [true]);
    }
  }

  /** The frames a program can send: bytes and breaks. */
  predicate FromProgram(words: seq<nat>) {
    forall i :: 0 <= i < |words| ==> words[i] == BREAK_WORD || exists b: byte :: words[i] == FrameWord(b)
  }

  /** The bytes among a program's sends. */
  function SentBytes(program: seq<Op>): seq<nat> {
    if program == [] then []
    else (if program[0].SendByte? then [program[0].b as nat] else []) + SentBytes(program[1..])
  }

  /** Hearing a program's frames back to back gives its bytes. */
  lemma {:induction false} HearProgram(r: Receiver, program: seq<Op>)
    requires r.partial == []
    ensures HearAll(r, FrontBits(FrameWords(program))) == Receiver([], r.bytes + SentBytes(program))
    decreases program
  {
    if program == [] {
      EmptyRight(r.bytes);
    } else {
      var op := program[0];
      var rest := program[1..];
      var bits := FrontBits(FrameWords(rest));
      match op {
        case ReceiveByte | Release =>
          EmptyLeft(FrameWords(rest));
          EmptyLeft(SentBytes(rest));
          HearProgram(r, rest);
        case SendBreak =>
          FrontBitsCons(BREAK_WORD, FrameWords(rest));
          BreakIsIdle();
          HearIdle(r, 12);
          HearConcat(r, BitsOf(BREAK_WORD, 12), bits);
          EmptyLeft(SentBytes(rest));
          HearProgram(r, rest);
        case SendByte(b) =>
          FrontBitsCons(FrameWord(b), FrameWords(rest));
          FrameLayout(b);
          HearFrame(r.bytes, b);
          HearConcat(r, BitsOf(FrameWord(b), 12), bits);
          HearProgram(Receiver([], r.bytes + [b]), rest);
          Assoc(r.bytes, [b as nat], SentBytes(rest));
      }
    }
  }

  /** FrameBits, built from the front. */
  function FrontBits(words: seq<nat>): seq<bool> {
    if words == [] then [] else BitsOf(words[0], BITS_IN_USART_FRAME) + FrontBits(words[1..])
  }

  lemma FrontBitsCons(w: nat, words: seq<nat>)
    ensures FrontBits([w] + words) == BitsOf(w, BITS_IN_USART_FRAME) + FrontBits(words)
  {
    assert ([w] + words)[1..] == words;
  }

  lemma {:induction false} FrameBitsConcat(a: seq<nat>, b: seq<nat>)
    ensures FrameBits(a + b) == FrameBits(a) + FrontBits(b)
    decreases b
  {
    if b == [] {
      EmptyRight(a);
      EmptyRight(FrameBits(a));
    } else {
      FrameBitsConcat(a + [b[0]], b[1..]);
      assert a + [b[0]] + b[1..] == a + b;
      ButLastSnoc(a, b[0]);
      Assoc(FrameBits(a), BitsOf(b[0], 12), FrontBits(b[1..]));
    }
  }

  // ----- Sampling -----

  lemma {:induction false} FrameWordsAreFrames(program: seq<Op>)
    ensures FromProgram(FrameWords(program))
  {
    if program != [] { FrameWordsAreFrames(program[1..]); }
  }

  lemma {:induction false} HearWords(words: seq<nat>)
    requires FromProgram(words)
    ensures Heard(FrameBits(words)).partial == []
  {
    if words != [] {
      var n := |words| - 1;
      HearWords(words[..n]);
      var w := words[n];
      HearConcat(SILENT, FrameBits(words[..n]), BitsOf(w, 12));
      if w == BREAK_WORD {
        BreakIsIdle();
        HearIdle(Heard(FrameBits(words[..n])), 12);
      } else {
        var b: byte :| w == FrameWord(b);
        FrameLayout(b);
        HearFrame(Heard(FrameBits(words[..n])).bytes, b);
      }
    }
  }

  /** A frame ends with a stop bit. */
  lemma LastIsHigh(words: seq<nat>)
    requires words != [] && IsFrame(words[|words| - 1])
    ensures var bits := FrameBits(words); bits[|bits| - 1]
  {
    StopBit(words[|words| - 1]);
  }

  lemma StopBit(w: nat)
    requires IsFrame(w)
    ensures BitsOf(w, 12)[11]
  {
    assert Pow2(11) == 0x800 by { NineBits(); assert Pow2(11) == 4 * Pow2(9); }
    BitsConcat(w - 0x800, 1, 11, 1);
    assert BitsOf(1, 1) == [true] + BitsOf(0, 0);
  }

  predicate AtBoundary(u: Usart) { u.bitCount == 0 || u.bitCount == BITS_IN_USART_FRAME }

  predicate LastDriven(wire: Wire, level: bool) {
    wire.driven != [] && wire.driven[|wire.driven| - 1] == level
  }

  /** The driven bits that have been sampled. */
  function Settled(wire: Wire): seq<bool> {
    if wire.unsampled && wire.driven != [] then wire.driven[..|wire.driven| - 1] else wire.driven
  }

  /** The target has heard exactly the settled bits: between frames it only ever samples an idle line. */
  predicate Sampling(u: Usart, wire: Wire, pc: Pc) {
    && (wire.unsampled ==> !u.clock && LastDriven(wire, u.line))
    && (!wire.unsampled && !u.clock && u.sending ==> AtBoundary(u))
    && (u.sending && AtBoundary(u) ==> u.line)
    && (pc == TxMode ==> u.line)
    && Heard(wire.sampled) == Heard(Settled(wire))
  }

  lemma BoundaryHeard(u: Usart, wire: Wire, armed: seq<nat>)
    requires Conserved(u, wire, armed) && FromProgram(armed) && u.sending && AtBoundary(u)
    ensures Heard(wire.driven).partial == []
  {
    if u.bitCount == 0 {
      EmptyRight(wire.driven);
      HearWords(armed);
    } else {
      var n := |armed| - 1;
      assert |wire.driven| + 12 == 12 * |armed|;
      SameSplit(wire.driven, BitsOf(u.data, 12), FrameBits(armed[..n]), BitsOf(armed[n], 12));
      HearWords(armed[..n]);
    }
  }

  lemma SameSplit<T>(a: seq<T>, b: seq<T>, c: seq<T>, d: seq<T>)
    requires a + b == c + d && |b| == |d|
    ensures a == c
  {
    assert a == (a + b)[..|a|];
    assert c == (c + d)[..|a|];
  }

  /** With nothing pending, the line still shows the last stop bit. */
  lemma NothingPending(u: Usart, wire: Wire, armed: seq<nat>)
    requires Conserved(u, wire, armed) && (!u.sending || u.bitCount == 0)
    ensures wire.driven == FrameBits(armed)
    ensures wire.driven != [] ==> LastDriven(wire, true)
  {
    EmptyRight(wire.driven);
    if armed != [] { LastIsHigh(armed); }
  }

  lemma SamplingRising(u: Usart, wire: Wire, pc: Pc, armed: seq<nat>, pin: bool)
    requires Conserved(u, wire, armed) && FromProgram(armed) && Sampling(u, wire, pc) && !u.clock
    ensures Sampling(TickUsart(u, pin), TickWire(u, wire), pc)
  {
    if wire.unsampled {
      HearOne(SILENT, wire.sampled, u.line);
      Snoc(wire.driven);
    } else if u.sending {
      HearOne(SILENT, wire.sampled, u.line);
      BoundaryHeard(u, wire, armed);
    } else {
      EmptyRight(wire.sampled);
    }
  }

  lemma SamplingFalling(u: Usart, wire: Wire, pc: Pc, armed: seq<nat>, pin: bool)
    requires Conserved(u, wire, armed) && Sampling(u, wire, pc) && u.clock && Control(u, pc)
    ensures Sampling(TickUsart(u, pin), TickWire(u, wire), pc)
  {
    if u.bitCount > 0 && u.sending {
      ButLastSnoc(wire.driven, u.data % 2 == 1);
      ConservedTick(u, wire, armed, pin);
      if u.bitCount == 1 { NothingPending(TickUsart(u, pin), TickWire(u, wire), armed); }
    }
  }

  lemma SamplingMain(m: Machine, pin: bool, timedOut: bool)
    requires Control(m.u, m.pc) && Conserved(m.u, m.wire, m.armed) && Sampling(m.u, m.wire, m.pc)
    ensures var n := Advance(m, pin, timedOut); Sampling(n.u, n.wire, n.pc)
  {
    if m.pc.RxRelease? || m.pc == TxLine { NothingPending(m.u, m.wire, m.armed); }
  }

  // ----- Every run -----

  ghost predicate Invariant(m: Machine, program: seq<Op>) {
    && Control(m.u, m.pc)
    && Data(m.u, m.pc, m.word, m.lowFirst)
    && Conserved(m.u, m.wire, m.armed)
    && InOrder(m, program)
    && Sampling(m.u, m.wire, m.pc)
  }

  lemma ArmedInProgram(m: Machine, program: seq<Op>)
    requires InOrder(m, program)
    ensures m.armed <= FrameWords(program) && FromProgram(m.armed)
  {
    FrameWordsAreFrames(program);
    Assoc(m.armed, Held(m.pc, m.word), FrameWords(m.todo));
    var words := FrameWords(program);
    forall i | 0 <= i < |m.armed| ensures m.armed[i] == words[i] {}
  }

  lemma InvariantTick(m: Machine, program: seq<Op>, pin: bool)
    requires Invariant(m, program)
    ensures Invariant(Tick(m, pin), program)
  {
    ControlTick(m.u, m.pc, pin);
    DataTick(m.u, m.pc, m.word, m.lowFirst, pin);
    ConservedTick(m.u, m.wire, m.armed, pin);
    ArmedInProgram(m, program);
    if m.u.clock {
      SamplingFalling(m.u, m.wire, m.pc, m.armed, pin);
    } else {
      SamplingRising(m.u, m.wire, m.pc, m.armed, pin);
    }
  }

  lemma ReadyFacts(m: Machine, program: seq<Op>)
    requires Invariant(m, program) && m.pc == Ready
    ensures var n := Advance(m, true, true);
            Control(n.u, n.pc) && Data(n.u, n.pc, n.word, n.lowFirst)
  {
    if m.todo != [] && m.todo[0].SendByte? { assert IsFrame(FrameWord(m.todo[0].b)); }
  }

  lemma InvariantMain(m: Machine, program: seq<Op>, pin: bool, timedOut: bool)
    requires Invariant(m, program)
    ensures Invariant(Advance(m, pin, timedOut), program)
  {
    if m.pc == Ready {
      ReadyFacts(m, program);
    } else {
      ControlMain(m.u, m.pc, m.word, m.lowFirst, pin, timedOut);
      DataMain(m.u, m.pc, m.word, m.lowFirst, pin, timedOut);
    }
    ConservedMain(m, pin, timedOut);
    InOrderMain(m, program, pin, timedOut);
    SamplingMain(m, pin, timedOut);
  }

  lemma {:induction false} RunInvariant(m: Machine, program: seq<Op>, events: seq<Event>)
    requires Start(m, program)
    ensures Invariant(Run(m, events), program)
  {
    if events == [] {
      EmptyLeft(FrameWords(program));
      assert BitsOf(m.u.data, 0) == [];
    } else {
      var n := |events| - 1;
      RunInvariant(m, program, events[..n]);
      match events[n] {
        case Timer(pin) => InvariantTick(Run(m, events[..n]), program, pin);
        case Main(pin, timedOut) => InvariantMain(Run(m, events[..n]), program, pin, timedOut);
      }
    }
  }

  /** All interrupts have run: nothing is left to call, to drive or to sample. */
  predicate Quiet(m: Machine) {
    m.pc == Ready && m.todo == [] && m.u.bitCount == 0 && !m.wire.unsampled
  }

  /**
    Transmission under interruption. For every program of calls and every interleaving with the timer interrupt,
    the bits driven so far followed by those still to drive are the frames armed so far, which are the program's
    frames in order; the target never hears a byte that was not sent, and once all is quiet it has heard exactly
    the bytes of the program.
  */
  lemma Transmission(m: Machine, program: seq<Op>, events: seq<Event>)
    requires Start(m, program)
    ensures var n := Run(m, events);
            && n.wire.driven + Pending(n.u) == FrameBits(n.armed) && n.armed <= FrameWords(program)
            && Heard(n.wire.sampled).bytes <= SentBytes(program)
            && (Quiet(n) ==> n.wire.driven == FrameBits(FrameWords(program)))
            && (Quiet(n) ==> Heard(n.wire.sampled) == Receiver([], SentBytes(program)))
  {
    RunInvariant(m, program, events);
    var n := Run(m, events);
    ArmedInProgram(n, program);
    HeardPrefix(n, program);
    if Quiet(n) {
      EmptyRight(n.armed);
      EmptyRight(n.wire.driven);
      HeardProgram(program);
    }
  }

  lemma HeardProgram(program: seq<Op>)
    ensures Heard(FrameBits(FrameWords(program))) == Receiver([], SentBytes(program))
  {
    HearProgram(SILENT, program);
    EmptyLeft(SentBytes(program));
    FrameBitsConcat([], FrameWords(program));
    EmptyLeft(FrameWords(program));
    EmptyLeft(FrontBits(FrameWords(program)));
  }

  lemma HeardPrefix(n: Machine, program: seq<Op>)
    requires Invariant(n, program)
    ensures Heard(n.wire.sampled).bytes <= SentBytes(program)
  {
    HeardProgram(program);
    ArmedInProgram(n, program);
    ArmedBits(n.armed, FrameWords(program));
    PrefixHeard(Settled(n.wire), FrameBits(n.armed));
    PrefixHeard(FrameBits(n.armed), FrameBits(FrameWords(program)));
  }

  lemma ArmedBits(armed: seq<nat>, words: seq<nat>)
    requires armed <= words
    ensures FrameBits(armed) <= FrameBits(words)
  {
    FrameBitsConcat(armed, words[|armed|..]);
    assert words == armed + words[|armed|..];
  }

  lemma PrefixHeard(a: seq<bool>, whole: seq<bool>)
    requires a <= whole
    ensures Heard(a).bytes <= Heard(whole).bytes
  {
    HearConcat(SILENT, a, whole[|a|..]);
    HearGrows(Heard(a), whole[|a|..]);
    assert whole == a + whole[|a|..];
  }

  /** Stale bits: whenever the firmware is not sending, whatever it did before, its data word is below bit 11. */
  lemma StaleBits(m: Machine, program: seq<Op>, events: seq<Event>)
    requires Start(m, program)
    ensures var n := Run(m, events); !n.u.sending ==> n.u.data < 0x800
  {
    RunInvariant(m, program, events);
  }

  // ----- Runs whose program grows call by call -----

  /** The main line never looks for a call when there is none. */
  predicate Busy(m: Machine, events: seq<Event>) {
    events == []
    || (Busy(m, events[..|events| - 1])
        && (events[|events| - 1].Main? ==> HasWork(Run(m, events[..|events| - 1]))))
  }

  predicate HasWork(m: Machine) { m.pc != Ready || m.todo != [] }

  function WithTodo(m: Machine, program: seq<Op>): Machine { m.(todo := program) }

  /** `m` is where `events` lead from `origin` under this program. */
  ghost predicate IsRun(origin: Machine, program: seq<Op>, events: seq<Event>, m: Machine) {
    && Start(origin, [])
    && m == Run(WithTodo(origin, program), events)
    && Busy(WithTodo(origin, program), events)
  }

  lemma RunKeepsInvariant(origin: Machine, program: seq<Op>, events: seq<Event>, m: Machine)
    requires IsRun(origin, program, events, m)
    ensures Invariant(m, program)
  {
    RunInvariant(WithTodo(origin, program), program, events);
  }

  lemma RunBegins(origin: Machine)
    requires Start(origin, [])
    ensures IsRun(origin, [], [], origin)
  {
    assert WithTodo(origin, []) == origin;
  }

  /** One more event. */
  lemma RunGoesOn(origin: Machine, program: seq<Op>, events: seq<Event>, m: Machine, e: Event)
    requires IsRun(origin, program, events, m) && (e.Main? ==> HasWork(m))
    ensures IsRun(origin, program, events + [e], Step(m, e))
  {
    StepOne(WithTodo(origin, program), events, e);
    ButLastSnoc(events, e);
  }

  predicate TicksOnly(events: seq<Event>) {
    forall e :: e in events ==> e.Timer?
  }

  lemma StepWithMore(m: Machine, e: Event, op: Op)
    requires e.Main? ==> HasWork(m)
    ensures Step(WithTodo(m, m.todo + [op]), e) == WithTodo(Step(m, e), Step(m, e).todo + [op])
  {
    if e.Main? && m.pc == Ready { assert (m.todo + [op])[1..] == m.todo[1..] + [op]; }
  }

  /** A call added to the program of a busy run changes nothing but what is still to do. */
  lemma {:induction false} MoreToDo(m: Machine, events: seq<Event>, op: Op)
    requires Busy(m, events)
    ensures var longer := WithTodo(m, m.todo + [op]);
            && Run(longer, events) == WithTodo(Run(m, events), Run(m, events).todo + [op])
            && Busy(longer, events)
  {
    if events != [] {
      var k := |events| - 1;
      MoreToDo(m, events[..k], op);
      StepWithMore(Run(m, events[..k]), events[k], op);
    }
  }

  /** A new call joins the program of an idle main line. */
  lemma RunWithCall(origin: Machine, program: seq<Op>, events: seq<Event>, m: Machine, op: Op)
    requires IsRun(origin, program, events, m) && m.todo == []
    ensures IsRun(origin, program + [op], events, WithTodo(m, [op]))
  {
    MoreToDo(WithTodo(origin, program), events, op);
    EmptyLeft([op]);
  }
}
