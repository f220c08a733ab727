/** The byte-driven message parser of avr-midi/midi_device.c and the classifiers of avr-midi/midi.c. */
module MidiParser {
  import opened Bits
  import opened Seqs

  datatype PacketLength = Undefined | One | Two | Three

  /** A classification of status bytes. Every theorem about the parser holds for any table. */
  type Table = byte -> PacketLength

  const SYSEX_BEGIN: byte := 0xF0
  const SYSEX_END: byte := 0xF7
  const MIDI_CLOCK: byte := 0xF8
  const MIDI_STATUSMASK: byte := 0x80

  predicate IsStatus(b: byte) { b >= MIDI_STATUSMASK }

  predicate IsRealtime(b: byte) { b >= MIDI_CLOCK }

  /** The classifiers: a status byte has the top bit set, and the realtime bytes are the top eight. */
  lemma KindsOfBytes(b: byte)
    ensures IsStatus(b) <==> And(b, 0x80) != 0
    ensures IsRealtime(b) <==> b >= 0xF8
  {
    AndOneBit(b, 7);
    assert Pow2(7) == 8 * Pow2(4) && Pow2(4) == 8 * Pow2(1) && Pow2(1) == 2;
  }

  /** The switch of midi_packet_length over its case labels. */
  function SwitchLength(caseLabel: byte): PacketLength {
    match caseLabel
    case 0xB0 | 0x90 | 0x80 | 0xA0 | 0xE0 | 0xF2 => Three
    case 0xC0 | 0xD0 | 0xF3 | 0xF1 => Two
    case 0xF8 | 0xF9 | 0xFA | 0xFB | 0xFC | 0xFE | 0xFF | 0xF6 => One
    case _ => Undefined
  }

  /** The table as written: the switch is on `status & 0x80`, so it only ever sees 0x80 or 0. */
  function AsWritten(status: byte): PacketLength {
    SwitchLength(if IsStatus(status) then MIDI_STATUSMASK else 0)
  }

  /** The table that the case labels describe: channel messages lose their channel, system messages are exact. */
  function CaseLabels(status: byte): PacketLength {
    SwitchLength(if status < 0xF0 then status - status % 16 else status)
  }

  datatype InputState = Idle | TwoByteMessage | ThreeByteMessage | SysExMessage

  /** One call of midi_input_callbacks, as the catch-all callback sees it. */
  datatype Callback = Callback(count: nat, byte0: byte, byte1: byte, byte2: byte)
  {
    /** The bytes the callback announces; the remaining arguments are padding. */
    function Message(): seq<byte> {
      match count
      case 1 => [byte0]
      case 2 => [byte0, byte1]
      case 3 => [byte0, byte1, byte2]
      case _ => []
    }
  }

  datatype Parser = Parser(state: InputState, count: nat, buffer: seq<byte>)
  {
    /** The bounds every run keeps: three buffer cells, a count that names one of them or the end. */
    predicate WellFormed() {
      |buffer| == 3 && count <= 3 && !IsRealtime(buffer[0]) && !IsRealtime(buffer[1]) && !IsRealtime(buffer[2])
    }
  }

  const INITIAL := Parser(Idle, 0, [0, 0, 0])

  type Output = (Parser, seq<Callback>)

  function StatusByte(table: Table, p: Parser, input: byte): (r: Output)
    requires p.WellFormed() && IsStatus(input) && !IsRealtime(input)
    ensures r.0.WellFormed()
  {
    var q := if p.state != SysExMessage then p.(buffer := p.buffer[0 := input], count := 1) else p;
    match table(input)
    case One => (q.(state := Idle), [Callback(1, input, 0, 0)])
    case Two => (q.(state := TwoByteMessage), [])
    case Three => (q.(state := ThreeByteMessage), [])
    case Undefined =>
      if input == SYSEX_BEGIN then
        (Parser(SysExMessage, 1, q.buffer[0 := input]), [])
      else if input == SYSEX_END then
        var at := if q.count > 2 then 2 else q.count;
        var buffer := q.buffer[at := input];
        (Parser(Idle, at + 1, buffer), [Callback(at + 1, buffer[0], buffer[1], buffer[2])])
      else
        (q.(state := Idle, count := 0), [])
  }

  function DataByte(p: Parser, input: byte): (r: Output)
    requires p.WellFormed() && !IsStatus(input)
    ensures r.0.WellFormed()
  {
    var state := if p.count > 2 then Idle else p.state;
    if state == Idle then (p.(state := Idle), [])
    else
      var buffer := p.buffer[p.count := input];
      match p.count + 1
      case 3 =>
        (Parser(if state != SysExMessage then Idle else state, 0, buffer),
         [Callback(3, buffer[0], buffer[1], buffer[2])])
      case 2 =>
        if state == TwoByteMessage then (Parser(Idle, 2, buffer), [Callback(2, buffer[0], buffer[1], 0)])
        else (Parser(state, 2, buffer), [])
      case n => (Parser(Idle, n, buffer), [])
  }

  /** midi_process_byte */
  function Step(table: Table, p: Parser, input: byte): (r: Output)
    requires p.WellFormed()
    ensures r.0.WellFormed()
  {
    if IsRealtime(input) then (p, [Callback(1, input, 0, 0)])
    else if IsStatus(input) then StatusByte(table, p, input)
    else DataByte(p, input)
  }

  /** A run over a whole stream: the final parser and every callback, in order. */
  function Run(table: Table, p: Parser, stream: seq<byte>): (r: Output)
    requires p.WellFormed()
    ensures r.0.WellFormed()
  {
    if stream == [] then (p, [])
    else
      var (q, calls) := Run(table, p, stream[..|stream| - 1]);
      var (q', more) := Step(table, q, stream[|stream| - 1]);
      (q', calls + more)
  }

  /** A step calls back at most once, with one to three bytes, and with a realtime status only for that status. */
  lemma StepCallback(table: Table, p: Parser, input: byte)
    requires p.WellFormed()
    ensures var calls := Step(table, p, input).1;
            |calls| <= 1 && (calls != [] ==>
              1 <= calls[0].count <= 3 && (IsRealtime(calls[0].byte0) <==> IsRealtime(input)))
  {}

  /** Every run keeps the parser within its three-byte buffer and announces one to three bytes per callback. */
  lemma {:induction false} RunBounds(table: Table, stream: seq<byte>)
    ensures var (q, calls) := Run(table, INITIAL, stream);
            && |q.buffer| == 3 && q.count <= 3
            && forall c :: c in calls ==> 1 <= c.count <= 3 && |c.Message()| == c.count
  {
    if stream != [] {
      var n := |stream| - 1;
      RunBounds(table, stream[..n]);
      StepCallback(table, Run(table, INITIAL, stream[..n]).0, stream[n]);
    }
  }

  lemma RunSnoc(table: Table, p: Parser, a: seq<byte>, b: byte)
    requires p.WellFormed()
    ensures var (q, calls) := Run(table, p, a);
            var (r, more) := Step(table, q, b);
            Run(table, p, a + [b]) == (r, calls + more)
  {
    ButLastSnoc(a, b);
  }

  lemma {:induction false} RunConcat(table: Table, p: Parser, a: seq<byte>, b: seq<byte>)
    requires p.WellFormed()
    ensures var (q, calls) := Run(table, p, a);
            var (q', more) := Run(table, q, b);
            Run(table, p, a + b) == (q', calls + more)
  {
    var (q, calls) := Run(table, p, a);
    if b == [] {
      EmptyRight(a);
      EmptyRight(calls);
    } else {
      var n := |b| - 1;
      RunConcat(table, p, a, b[..n]);
      RunSnoc(table, p, a + b[..n], b[n]);
      Assoc(a, b[..n], [b[n]]);
      Snoc(b);
      var r := Run(table, q, b[..n]);
      Assoc(calls, r.1, Step(table, r.0, b[n]).1);
    }
  }

  // ----- Realtime transparency -----

  function WithoutRealtime(stream: seq<byte>): (r: seq<byte>)
    ensures forall b :: b in r ==> !IsRealtime(b)
  {
    if stream == [] then []
    else
      var rest := WithoutRealtime(stream[..|stream| - 1]);
      var b := stream[|stream| - 1];
      if IsRealtime(b) then rest else rest + [b]
  }

  function OnlyRealtime(stream: seq<byte>): seq<byte> {
    if stream == [] then []
    else
      var rest := OnlyRealtime(stream[..|stream| - 1]);
      var b := stream[|stream| - 1];
      if IsRealtime(b) then rest + [b] else rest
  }

  /** The messages announced by the callbacks whose first byte is (or is not) a realtime status. */
  function Messages(calls: seq<Callback>, realtime: bool): seq<seq<byte>> {
    if calls == [] then []
    else
      var rest := Messages(calls[..|calls| - 1], realtime);
      var c := calls[|calls| - 1];
      if IsRealtime(c.byte0) == realtime then rest + [c.Message()] else rest
  }

  lemma {:induction false} MessagesConcat(a: seq<Callback>, b: seq<Callback>, realtime: bool)
    ensures Messages(a + b, realtime) == Messages(a, realtime) + Messages(b, realtime)
  {
    if b == [] {
      assert a + b == a;
    } else {
      var n := |b| - 1;
      MessagesConcat(a, b[..n], realtime);
      ButLast(a, b);
    }
  }

  lemma OneMessage(c: Callback, realtime: bool)
    ensures Messages([c], realtime) == if IsRealtime(c.byte0) == realtime then [c.Message()] else []
  {
    assert [c][..0] == [];
  }

  function Singletons(bytes: seq<byte>): (r: seq<seq<byte>>)
    ensures |r| == |bytes| && forall i :: 0 <= i < |r| ==> r[i] == [bytes[i]]
  {
    seq(|bytes|, i requires 0 <= i < |bytes| => [bytes[i]])
  }

  /** Realtime bytes may sit anywhere, even inside SysEx: each is passed on alone, and nothing else notices. */
  lemma {:induction false} RealtimeTransparent(table: Table, p: Parser, stream: seq<byte>)
    requires p.WellFormed()
    ensures var (q, calls) := Run(table, p, stream);
            var (q', plain) := Run(table, p, WithoutRealtime(stream));
            && q == q'
            && Messages(calls, false) == Messages(plain, false)
            && Messages(calls, true) == Singletons(OnlyRealtime(stream))
            && Messages(plain, true) == []
  {
    if stream != [] {
      var n := |stream| - 1;
      var b := stream[n];
      RealtimeTransparent(table, p, stream[..n]);
      var q := Run(table, p, stream[..n]).0;
      StepMessages(table, q, b);
      RunMessages(table, p, stream[..n], b);
      Snoc(stream);
      if IsRealtime(b) {
        assert Singletons(OnlyRealtime(stream)) == Singletons(OnlyRealtime(stream[..n])) + [[b]];
      } else {
        RunMessages(table, p, WithoutRealtime(stream[..n]), b);
      }
    }
  }

  lemma RunMessages(table: Table, p: Parser, a: seq<byte>, b: byte)
    requires p.WellFormed()
    ensures var r, s := Run(table, p, a), Run(table, p, a + [b]);
            var step := Step(table, r.0, b);
            && s.0 == step.0
            && forall realtime :: Messages(s.1, realtime) == Messages(r.1, realtime) + Messages(step.1, realtime)
  {
    RunSnoc(table, p, a, b);
    var r := Run(table, p, a);
    MessagesConcat(r.1, Step(table, r.0, b).1, true);
    MessagesConcat(r.1, Step(table, r.0, b).1, false);
  }

  lemma StepMessages(table: Table, q: Parser, b: byte)
    requires q.WellFormed()
    ensures var step := Step(table, q, b);
            && (IsRealtime(b) ==> step.0 == q && Messages(step.1, true) == [[b]])
            && Messages(step.1, !IsRealtime(b)) == []
  {
    StepCallback(table, q, b);
    var more := Step(table, q, b).1;
    if more != [] {
      OneMessage(more[0], true);
      OneMessage(more[0], false);
    }
  }

  // ----- Status bytes without a message -----

  /**
    Outside SysEx a status byte that the table does not define yields nothing, exactly if it is not SYSEX_END. A stray
    SYSEX_END is reported as a message of its own, with itself as its data.
  */
  lemma UndefinedStatusIff(table: Table, p: Parser, b: byte)
    requires p.WellFormed() && p.state != SysExMessage && IsStatus(b) && !IsRealtime(b) && table(b) == Undefined
    ensures Step(table, p, b).1 == [] <==> b != 0xF7
    ensures b == 0xF7 ==> Messages(Step(table, p, b).1, false) == [[0xF7, 0xF7]]
  {
    if b == SYSEX_END { OneMessage(Step(table, p, b).1[0], false); }
  }

  // ----- The segment specification -----

  /** Whether `stream` could ever put the parser into SYSEX_MESSAGE. */
  predicate NeverSysEx(table: Table, stream: seq<byte>) {
    SYSEX_BEGIN in stream ==> table(SYSEX_BEGIN) != Undefined
  }

  predicate StatusOf(table: Table, b: byte, length: PacketLength) {
    IsStatus(b) && table(b) == length
  }

  /** What the last byte of a realtime-free stream completes. It looks back over two bytes and keeps no state. */
  function Completed(table: Table, s: seq<byte>): seq<seq<byte>>
    requires s != []
  {
    var n := |s|;
    var b := s[n - 1];
    if IsStatus(b) then
      if table(b) == One then [[b]]
      else if table(b) == Undefined && b == SYSEX_END then [[b, b]]
      else []
    else if n >= 2 && StatusOf(table, s[n - 2], Two) then [[s[n - 2], b]]
    else if n >= 3 && !IsStatus(s[n - 2]) && StatusOf(table, s[n - 3], Three) then [[s[n - 3], s[n - 2], b]]
    else []
  }

  function Segments(table: Table, s: seq<byte>): seq<seq<byte>> {
    if s == [] then [] else Segments(table, s[..|s| - 1]) + Completed(table, s)
  }

  /** The parser state is determined by the last two bytes of the stream. */
  predicate Remembers(table: Table, p: Parser, s: seq<byte>)
    requires p.WellFormed()
  {
    var n := |s|;
    if n >= 1 && StatusOf(table, s[n - 1], Two) then
      p.state == TwoByteMessage && p.count == 1 && p.buffer[0] == s[n - 1]
    else if n >= 1 && StatusOf(table, s[n - 1], Three) then
      p.state == ThreeByteMessage && p.count == 1 && p.buffer[0] == s[n - 1]
    else if n >= 2 && !IsStatus(s[n - 1]) && StatusOf(table, s[n - 2], Three) then
      p.state == ThreeByteMessage && p.count == 2 && p.buffer[0] == s[n - 2] && p.buffer[1] == s[n - 1]
    else p.state == Idle
  }

  lemma StatusCompletes(table: Table, p: Parser, s: seq<byte>, b: byte)
    requires p.WellFormed() && Remembers(table, p, s)
    requires IsStatus(b) && !IsRealtime(b) && !(b == SYSEX_BEGIN && table(b) == Undefined)
    ensures var (q, calls) := StatusByte(table, p, b);
            && Remembers(table, q, s + [b])
            && Messages(calls, false) == Completed(table, s + [b])
  {
    var (q, calls) := StatusByte(table, p, b);
    assert p.state != SysExMessage;
    if calls != [] { OneMessage(calls[0], false); }
  }

  lemma DataCompletes(table: Table, p: Parser, s: seq<byte>, b: byte)
    requires p.WellFormed() && Remembers(table, p, s)
    requires !IsStatus(b)
    ensures var (q, calls) := DataByte(p, b);
            && Remembers(table, q, s + [b])
            && Messages(calls, false) == Completed(table, s + [b])
  {
    var (q, calls) := DataByte(p, b);
    var t := s + [b];
    var n := |t|;
    if p.state == Idle {
      assert calls == [] && q.state == Idle;
    } else if p.state == TwoByteMessage || p.count == 2 {
      OneMessage(calls[0], false);
      assert q.state == Idle;
    } else {
      assert calls == [] && q.count == 2;
    }
  }

  lemma StepCompletes(table: Table, p: Parser, s: seq<byte>, b: byte)
    requires p.WellFormed() && Remembers(table, p, s)
    requires !IsRealtime(b) && !(b == SYSEX_BEGIN && table(b) == Undefined)
    ensures var (q, calls) := Step(table, p, b);
            && Remembers(table, q, s + [b])
            && Messages(calls, false) == Completed(table, s + [b])
  {
    if IsStatus(b) { StatusCompletes(table, p, s, b); } else { DataCompletes(table, p, s, b); }
  }

  /** The run so far remembers what it has to, and its callbacks are the segments. */
  predicate Traced(table: Table, s: seq<byte>) {
    var r := Run(table, INITIAL, s);
    Remembers(table, r.0, s) && Messages(r.1, false) == Segments(table, s)
  }

  /** Without realtime bytes: the callbacks are exactly the segments. */
  lemma {:induction false} PlainTrace(table: Table, s: seq<byte>)
    requires NeverSysEx(table, s) && forall b :: b in s ==> !IsRealtime(b)
    ensures Traced(table, s)
  {
    if s != [] {
      var front, b := s[..|s| - 1], s[|s| - 1];
      assert b in s;
      PlainTrace(table, front);
      PlainStep(table, front, b);
      Snoc(s);
    }
  }

  lemma PlainStep(table: Table, s: seq<byte>, b: byte)
    requires Traced(table, s)
    requires !IsRealtime(b) && !(b == SYSEX_BEGIN && table(b) == Undefined)
    ensures Traced(table, s + [b])
  {
    var r := Run(table, INITIAL, s);
    StepCompletes(table, r.0, s, b);
    RunSnoc(table, INITIAL, s, b);
    ButLastSnoc(s, b);
    MessagesConcat(r.1, Step(table, r.0, b).1, false);
  }

  /**
    Trace theorem: for every table and every stream that cannot enter SysEx, the callbacks other than
    realtime ones are exactly the segments of the stream without its realtime bytes, and the realtime
    callbacks are exactly those bytes.
  */
  lemma TraceTheorem(table: Table, stream: seq<byte>)
    requires NeverSysEx(table, stream)
    ensures var calls := Run(table, INITIAL, stream).1;
            && Messages(calls, false) == Segments(table, WithoutRealtime(stream))
            && Messages(calls, true) == Singletons(OnlyRealtime(stream))
  {
    RealtimeTransparent(table, INITIAL, stream);
    WithoutRealtimeSubset(stream);
    PlainTrace(table, WithoutRealtime(stream));
  }

  lemma {:induction false} WithoutRealtimeSubset(stream: seq<byte>)
    ensures forall b :: b in WithoutRealtime(stream) ==> b in stream
  {
    if stream != [] { WithoutRealtimeSubset(stream[..|stream| - 1]); }
  }

  /** With the table as written no status byte is undefined, so the trace theorem covers every stream. */
  lemma AsWrittenNeverSysEx(stream: seq<byte>)
    ensures NeverSysEx(AsWritten, stream)
    ensures forall b: byte :: IsStatus(b) ==> AsWritten(b) == Three
  {}

  // ----- SysEx -----

  function Flatten(messages: seq<seq<byte>>): seq<byte> {
    if messages == [] then [] else Flatten(messages[..|messages| - 1]) + messages[|messages| - 1]
  }

  /** What a complete SysEx message comes out as, by the length of its payload. */
  function SysExMessages(payload: seq<byte>): seq<seq<byte>> {
    if |payload| < 2 then [[0xF0] + payload + [0xF7]]
    else OpenMessages(payload) + (if |payload| == 2 then [[0xF7]] else [[0xF7, 0xF7]])
  }

  /** The parser inside a SysEx message: two payload bytes are stored, the third ends the message silently. */
  predicate Inside(q: Parser, payload: seq<byte>)
    requires q.WellFormed()
  {
    match |payload|
    case 0 => q.state == SysExMessage && q.count == 1 && q.buffer[0] == SYSEX_BEGIN
    case 1 => q.state == SysExMessage && q.count == 2 && q.buffer[0] == SYSEX_BEGIN && q.buffer[1] == payload[0]
    case 2 => q.state == SysExMessage && q.count == 0
    case _ => q.state == Idle
  }

  lemma InsideStep(q: Parser, payload: seq<byte>, b: byte)
    requires q.WellFormed() && Inside(q, payload) && !IsStatus(b)
    ensures var (r, more) := DataByte(q, b);
            && Inside(r, payload + [b])
            && Messages(more, false) == if |payload| == 1 then [[SYSEX_BEGIN, payload[0], b]] else []
  {
    var (r, more) := DataByte(q, b);
    if |payload| == 1 {
      OneMessage(more[0], false);
    }
  }

  /** What has come out while the message is still open. */
  function OpenMessages(payload: seq<byte>): seq<seq<byte>> {
    if |payload| < 2 then [] else [[0xF0, payload[0], payload[1]]]
  }

  lemma {:induction false} SysExPrefix(table: Table, p: Parser, payload: seq<byte>)
    requires p.WellFormed() && table(SYSEX_BEGIN) == Undefined
    requires forall b :: b in payload ==> !IsStatus(b)
    ensures Open(Run(table, p, [SYSEX_BEGIN] + payload), payload)
  {
    if payload == [] {
      RunSnoc(table, p, [], SYSEX_BEGIN);
      assert [SYSEX_BEGIN] + payload == [] + [SYSEX_BEGIN];
    } else {
      var n := |payload| - 1;
      var front := payload[..n];
      SysExPrefix(table, p, front);
      SysExExtend(table, p, [SYSEX_BEGIN] + front, front, payload[n]);
      Assoc([SYSEX_BEGIN], front, [payload[n]]);
      Snoc(payload);
    }
  }

  predicate Open(r: Output, payload: seq<byte>)
    requires r.0.WellFormed()
  {
    Inside(r.0, payload) && Messages(r.1, false) == OpenMessages(payload)
  }

  lemma SysExExtend(table: Table, p: Parser, stream: seq<byte>, front: seq<byte>, b: byte)
    requires p.WellFormed() && !IsStatus(b)
    requires Open(Run(table, p, stream), front)
    ensures Open(Run(table, p, stream + [b]), front + [b])
  {
    var r := Run(table, p, stream);
    InsideStep(r.0, front, b);
    RunSnoc(table, p, stream, b);
    MessagesConcat(r.1, DataByte(r.0, b).1, false);
  }

  lemma SysExDelivery(table: Table, p: Parser, payload: seq<byte>)
    requires p.WellFormed() && table(SYSEX_BEGIN) == Undefined && table(SYSEX_END) == Undefined
    requires forall b :: b in payload ==> !IsStatus(b)
    ensures Messages(Run(table, p, [SYSEX_BEGIN] + payload + [SYSEX_END]).1, false) == SysExMessages(payload)
  {
    var s := [SYSEX_BEGIN] + payload;
    SysExPrefix(table, p, payload);
    var (q, calls) := Run(table, p, s);
    RunSnoc(table, p, s, SYSEX_END);
    var (r, more) := Step(table, q, SYSEX_END);
    SysExEnd(table, q, payload);
    MessagesConcat(calls, more, false);
  }

  lemma SysExEnd(table: Table, q: Parser, payload: seq<byte>)
    requires q.WellFormed() && Inside(q, payload) && table(SYSEX_END) == Undefined
    ensures Messages(StatusByte(table, q, SYSEX_END).1, false)
         == if |payload| < 2 then [[SYSEX_BEGIN] + payload + [SYSEX_END]]
            else if |payload| == 2 then [[SYSEX_END]]
            else [[SYSEX_END, SYSEX_END]]
  {
    OneMessage(StatusByte(table, q, SYSEX_END).1[0], false);
    if payload == [] {
      assert [SYSEX_BEGIN] + payload + [SYSEX_END] == [SYSEX_BEGIN, SYSEX_END];
    } else if |payload| == 1 {
      assert [SYSEX_BEGIN] + payload + [SYSEX_END] == [SYSEX_BEGIN, payload[0], SYSEX_END];
    }
  }

  /** A SysEx message survives, byte for byte, exactly when its payload has at most two bytes. */
  lemma SysExSurvives(table: Table, p: Parser, payload: seq<byte>)
    requires p.WellFormed() && table(SYSEX_BEGIN) == Undefined && table(SYSEX_END) == Undefined
    requires forall b :: b in payload ==> !IsStatus(b)
    ensures var s := [SYSEX_BEGIN] + payload + [SYSEX_END];
            Flatten(Messages(Run(table, p, s).1, false)) == s <==> |payload| <= 2
  {
    SysExDelivery(table, p, payload);
    if |payload| < 2 {
      FlattenOne([SYSEX_BEGIN] + payload + [SYSEX_END]);
    } else {
      LongSysEx(payload);
    }
  }

  lemma LongSysEx(payload: seq<byte>)
    requires |payload| >= 2 && forall b :: b in payload ==> !IsStatus(b)
    ensures Flatten(SysExMessages(payload)) == [SYSEX_BEGIN] + payload + [SYSEX_END] <==> |payload| == 2
  {
    var last := if |payload| == 2 then [SYSEX_END] else [SYSEX_END, SYSEX_END];
    var first := [SYSEX_BEGIN, payload[0], payload[1]];
    Seqs.Two(first, last);
    FlattenTwo(first, last);
    if |payload| > 2 {
      assert (first + last)[3] == SYSEX_END;
      assert ([SYSEX_BEGIN] + payload + [SYSEX_END])[3] == payload[2];
      assert payload[2] in payload;
    }
  }

  lemma FlattenOne(a: seq<byte>)
    ensures Flatten([a]) == a
  {
    assert [a][..0] == [];
  }

  lemma FlattenTwo(a: seq<byte>, b: seq<byte>)
    ensures Flatten([a, b]) == a + b
  {
    FlattenOne(a);
    assert [a, b][..1] == [a];
  }
}
