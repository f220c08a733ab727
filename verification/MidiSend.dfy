/** The send side of avr-midi/midi.c and MIDI.c, and what a receiver makes of it. */
module MidiSend {
  import opened Bits
  import opened Seqs
  import opened MidiParser
  import opened MidiDevices

  type int16 = x: int | -0x8000 <= x < 0x8000

  /** One call of a midi_send_* function. */
  datatype Send =
    | Cc(chan: byte, num: byte, val: byte)
    | NoteOn(chan: byte, num: byte, vel: byte)
    | NoteOff(chan: byte, num: byte, vel: byte)
    | Aftertouch(chan: byte, num: byte, amt: byte)
    | PitchBend(chan: byte, bend: int16)
    | SongPosition(pos: word)
    | ProgramChange(chan: byte, num: byte)
    | ChannelPressure(chan: byte, amt: byte)
    | TcQuarterFrame(time: byte)
    | SongSelect(song: byte)
    | TuneRequest
    | Clock | Tick | Start | Continue | Stop | ActiveSense | Reset

  /** The arguments of the device's send function. */
  datatype Packet = Packet(count: byte, byte0: byte, byte1: byte, byte2: byte)
  {
    /** The bytes that reach the wire. */
    function Bytes(): (s: seq<byte>) {
      match count
      case 0 => []
      case 1 => [byte0]
      case 2 => [byte0, byte1]
      case _ => [byte0, byte1, byte2]
    }
  }

  /** The pitch bend amount as an unsigned 14-bit value, 0x2000 being the centre. */
  function Bend14(bend: int16): (u: word)
    ensures u < 0x4000
  {
    if bend > 0x1FFF then 0x3FFF else if bend < -0x2000 then 0 else bend + 0x2000
  }

  const MIDI_CHANMASK: byte := 0x0F

  /** Channels have four bits and data bytes seven; the masks and the sums below are the source's operators. */
  function Encode(m: Send): Packet {
    match m
    case Cc(chan, num, val) => Packet(3, 0xB0 + chan % 16, num % 128, val % 128)
    case NoteOn(chan, num, vel) => Packet(3, 0x90 + chan % 16, num % 128, vel % 128)
    case NoteOff(chan, num, vel) => Packet(3, 0x80 + chan % 16, num % 128, vel % 128)
    case Aftertouch(chan, num, amt) => Packet(3, 0xA0 + chan % 16, num % 128, amt % 128)
    case PitchBend(chan, bend) =>
      Packet(3, 0xE0 + chan % 16, Bend14(bend) % 128, Bend14(bend) / 128 % 128)
    case SongPosition(pos) => Packet(3, 0xF2, pos % 128, pos / 128 % 128)
    case ProgramChange(chan, num) => Packet(2, 0xC0 + chan % 16, num % 128, 0)
    case ChannelPressure(chan, amt) => Packet(2, 0xD0 + chan % 16, amt % 128, 0)
    case TcQuarterFrame(time) => Packet(2, 0xF1, time % 128, 0)
    case SongSelect(song) => Packet(2, 0xF3, song % 128, 0)
    case TuneRequest => Packet(1, 0xF6, 0, 0)
    case Clock => Packet(1, 0xF8, 0, 0)
    case Tick => Packet(1, 0xF9, 0, 0)
    case Start => Packet(1, 0xFA, 0, 0)
    case Continue => Packet(1, 0xFB, 0, 0)
    case Stop => Packet(1, 0xFC, 0, 0)
    case ActiveSense => Packet(1, 0xFE, 0, 0)
    case Reset => Packet(1, 0xFF, 0, 0)
  }

  /** `kind | (chan & MIDI_CHANMASK)` */
  lemma StatusBits(kind: byte, chan: byte)
    requires kind % 0x10 == 0
    ensures Or(kind, And(chan, MIDI_CHANMASK)) == kind + chan % 16
  {
    AndNibble(chan);
    assert Pow2(4) == 4 * Pow2(2) == 16 * Pow2(0);
    OrDisjoint(kind, kind / 0x10, chan % 16, 4);
  }

  /** `x & 0x7F` */
  lemma DataBits(x: nat)
    ensures And(x, 0x7F) == x % 128
  {
    AndSeven(x);
  }

  datatype Option<T> = None | Some(value: T)

  /** A receiver's reading of one message: of its status, and of exactly the data bytes that belong to it. */
  function Decode(s: seq<byte>): Option<Send> {
    if |s| == 0 || exists i :: 1 <= i < |s| && IsStatus(s[i]) then None
    else if |s| == 3 then DecodeThree(s[0], s[1], s[2])
    else if |s| == 2 then DecodeTwo(s[0], s[1])
    else if |s| == 1 then DecodeOne(s[0])
    else None
  }

  function DecodeThree(status: byte, data: byte, data2: byte): Option<Send>
    requires !IsStatus(data) && !IsStatus(data2)
  {
    var chan := status % 16;
    match status / 16
    case 0x8 => Some(NoteOff(chan, data, data2))
    case 0x9 => Some(NoteOn(chan, data, data2))
    case 0xA => Some(Aftertouch(chan, data, data2))
    case 0xB => Some(Cc(chan, data, data2))
    case 0xE => Some(PitchBend(chan, data + 128 * data2 - 0x2000))
    case _ => if status == 0xF2 then Some(SongPosition(data + 128 * data2)) else None
  }

  function DecodeTwo(status: byte, data: byte): Option<Send> {
    var chan := status % 16;
    match status / 16
    case 0xC => Some(ProgramChange(chan, data))
    case 0xD => Some(ChannelPressure(chan, data))
    case _ =>
      match status
      case 0xF1 => Some(TcQuarterFrame(data))
      case 0xF3 => Some(SongSelect(data))
      case _ => None
  }

  function DecodeOne(status: byte): Option<Send> {
    match status
    case 0xF6 => Some(TuneRequest)
    case 0xF8 => Some(Clock)
    case 0xF9 => Some(Tick)
    case 0xFA => Some(Start)
    case 0xFB => Some(Continue)
    case 0xFC => Some(Stop)
    case 0xFE => Some(ActiveSense)
    case 0xFF => Some(Reset)
    case _ => None
  }

  /** What is left of a send once channels are cut to 4 bits, data to 7, song positions and bends to 14. */
  function Clamped(m: Send): Send {
    match m
    case Cc(chan, num, val) => Cc(chan % 16, num % 128, val % 128)
    case NoteOn(chan, num, vel) => NoteOn(chan % 16, num % 128, vel % 128)
    case NoteOff(chan, num, vel) => NoteOff(chan % 16, num % 128, vel % 128)
    case Aftertouch(chan, num, amt) => Aftertouch(chan % 16, num % 128, amt % 128)
    case PitchBend(chan, bend) =>
      PitchBend(chan % 16, if bend > 0x1FFF then 0x1FFF else if bend < -0x2000 then -0x2000 else bend)
    case SongPosition(pos) => SongPosition(pos % 0x4000)
    case ProgramChange(chan, num) => ProgramChange(chan % 16, num % 128)
    case ChannelPressure(chan, amt) => ChannelPressure(chan % 16, amt % 128)
    case TcQuarterFrame(time) => TcQuarterFrame(time % 128)
    case SongSelect(song) => SongSelect(song % 128)
    case _ => m
  }

  lemma SplitSeven(x: nat)
    ensures x % 128 + 128 * (x / 128 % 128) == x % 0x4000
  {
    var a, b, c := x % 128, x / 128 % 128, x / 128 / 128;
    assert x == 0x4000 * c + (a + 128 * b);
    ModOfMultiple(0x4000, c, a + 128 * b);
  }

  /** Three bytes, of which the last two are data. */
  lemma ThreeDecoded(status: byte, data: byte, data2: byte)
    requires !IsStatus(data) && !IsStatus(data2)
    ensures Decode([status, data, data2]) == DecodeThree(status, data, data2)
  {}

  lemma TwoDecoded(status: byte, data: byte)
    requires !IsStatus(data)
    ensures Decode([status, data]) == DecodeTwo(status, data)
  {}

  lemma BendRoundTrip(chan: byte, bend: int16)
    ensures Decode(Encode(PitchBend(chan, bend)).Bytes()) == Some(Clamped(PitchBend(chan, bend)))
  {
    var u := Bend14(bend);
    StatusParts(0xE, chan);
    SevenBitPair(u);
    ThreeDecoded(0xE0 + chan % 16, u % 128, u / 128 % 128);
  }

  /** A value of 14 bits is what its two data bytes say. */
  lemma SevenBitPair(u: nat)
    requires u < 0x4000
    ensures u % 128 + 128 * (u / 128 % 128) == u
  {
    SplitSeven(u);
    SmallRemainder(u, 0x4000);
  }

  lemma SmallRemainder(x: nat, d: nat)
    requires x < d
    ensures x % d == x
  {
    ModOfMultiple(d, 0, x);
  }

  lemma SongRoundTrip(pos: word)
    ensures Decode(Encode(SongPosition(pos)).Bytes()) == Some(Clamped(SongPosition(pos)))
  {
    SplitSeven(pos);
    ThreeDecoded(0xF2, pos % 128, pos / 128 % 128);
  }

  predicate OnChannel(m: Send) {
    m.Cc? || m.NoteOn? || m.NoteOff? || m.Aftertouch? || m.PitchBend? || m.ProgramChange? || m.ChannelPressure?
  }

  lemma ChannelRoundTrip(m: Send)
    requires OnChannel(m)
    ensures Decode(Encode(m).Bytes()) == Some(Clamped(m))
  {
    match m {
      case Cc(chan, num, val) => ThreeRoundTrip(0xB, chan, num, val);
      case NoteOn(chan, num, vel) => ThreeRoundTrip(0x9, chan, num, vel);
      case NoteOff(chan, num, vel) => ThreeRoundTrip(0x8, chan, num, vel);
      case Aftertouch(chan, num, amt) => ThreeRoundTrip(0xA, chan, num, amt);
      case ProgramChange(chan, num) => TwoRoundTrip(0xC, chan, num);
      case ChannelPressure(chan, amt) => TwoRoundTrip(0xD, chan, amt);
      case PitchBend(chan, bend) => BendRoundTrip(chan, bend);
    }
  }

  lemma ThreeRoundTrip(kind: nat, chan: byte, a: byte, b: byte)
    requires 8 <= kind < 0xC
    ensures var status := 0x10 * kind + chan % 16;
            && status / 16 == kind && status % 16 == chan % 16
            && Decode([status, a % 128, b % 128]) == DecodeThree(status, a % 128, b % 128)
  {
    StatusParts(kind, chan);
    ThreeDecoded(0x10 * kind + chan % 16, a % 128, b % 128);
  }

  lemma TwoRoundTrip(kind: nat, chan: byte, a: byte)
    requires kind == 0xC || kind == 0xD
    ensures var status := 0x10 * kind + chan % 16;
            && status / 16 == kind && status % 16 == chan % 16
            && Decode([status, a % 128]) == DecodeTwo(status, a % 128)
  {
    StatusParts(kind, chan);
    TwoDecoded(0x10 * kind + chan % 16, a % 128);
  }

  lemma SystemRoundTrip(m: Send)
    requires !OnChannel(m)
    ensures Decode(Encode(m).Bytes()) == Some(Clamped(m))
  {
    match m {
      case SongPosition(pos) => SongRoundTrip(pos);
      case TcQuarterFrame(time) => TwoDecoded(0xF1, time % 128);
      case SongSelect(song) => TwoDecoded(0xF3, song % 128);
      case _ =>
    }
  }

  /** Encoding then decoding gives back the send, clamped to the ranges MIDI can carry. */
  lemma DecodeEncode(m: Send)
    ensures Decode(Encode(m).Bytes()) == Some(Clamped(m))
  {
    if OnChannel(m) { ChannelRoundTrip(m); } else { SystemRoundTrip(m); }
  }

  /** And every message that can be read is what the send it reads as puts on the wire. */
  lemma EncodeDecode(s: seq<byte>)
    requires Decode(s).Some?
    ensures Encode(Decode(s).value).Bytes() == s && Clamped(Decode(s).value) == Decode(s).value
  {
    if |s| == 3 {
      EncodeThree(s[0], s[1], s[2]);
      assert s == [s[0], s[1], s[2]];
    } else if |s| == 2 {
      EncodeTwo(s[0], s[1]);
      assert s == [s[0], s[1]];
    } else {
      assert s == [s[0]];
    }
  }

  lemma EncodeThree(status: byte, a: byte, b: byte)
    requires !IsStatus(a) && !IsStatus(b) && DecodeThree(status, a, b).Some?
    ensures var m := DecodeThree(status, a, b).value; Encode(m) == Packet(3, status, a, b) && Clamped(m) == m
  {
    SplitStatus(status);
    JoinSeven(a, b);
    SmallRemainder(a, 128);
    SmallRemainder(b, 128);
    SmallRemainder(a + 128 * b, 0x4000);
  }

  lemma EncodeTwo(status: byte, a: byte)
    requires !IsStatus(a) && DecodeTwo(status, a).Some?
    ensures var m := DecodeTwo(status, a).value; Encode(m) == Packet(2, status, a, 0) && Clamped(m) == m
  {
    SplitStatus(status);
    SmallRemainder(a, 128);
  }

  lemma SplitStatus(status: byte)
    ensures 0x10 * (status / 16) + status % 16 % 16 == status && status % 16 % 16 == status % 16
  {}

  lemma JoinSeven(a: nat, b: nat)
    requires a < 128 && b < 128
    ensures (a + 128 * b) % 128 == a && (a + 128 * b) / 128 % 128 == b
  {
    ModOfMultiple(128, b, a);
    assert (a + 128 * b) / 128 == b;
  }

  /** The two halves of a channel message's status byte. */
  lemma StatusParts(kind: nat, chan: byte)
    requires kind < 0x10
    ensures (0x10 * kind + chan % 16) / 16 == kind && (0x10 * kind + chan % 16) % 16 == chan % 16
  {}

  predicate Fits(table: Table, p: Packet) {
    match table(p.byte0)
    case One => p.count == 1
    case Two => p.count == 2
    case Three => p.count == 3
    case Undefined => false
  }

  /** The wire carries the packets back to back. */
  function Wire(sends: seq<Send>): seq<byte> {
    if sends == [] then [] else Wire(sends[..|sends| - 1]) + Encode(sends[|sends| - 1]).Bytes()
  }

  /** All the messages a run reports, realtime or not, in order. */
  function Reported(calls: seq<Callback>): seq<seq<byte>> {
    if calls == [] then [] else Reported(calls[..|calls| - 1]) + [calls[|calls| - 1].Message()]
  }

  lemma {:induction false} ReportedConcat(a: seq<Callback>, b: seq<Callback>)
    ensures Reported(a + b) == Reported(a) + Reported(b)
  {
    if b == [] {
      EmptyRight(a);
    } else {
      var n := |b| - 1;
      ReportedConcat(a, b[..n]);
      ButLast(a, b);
    }
  }

  lemma ReportedOne(c: Callback)
    ensures Reported([c]) == [c.Message()]
  {
    assert [c][..0] == [];
  }

  lemma Run1(table: Table, p: Parser, a: byte)
    requires p.WellFormed()
    ensures Run(table, p, [a]) == Step(table, p, a)
  {
    RunSnoc(table, p, [], a);
    EmptyLeft([a]);
    EmptyLeft(Step(table, p, a).1);
  }

  lemma Run2(table: Table, p: Parser, a: byte, b: byte)
    requires p.WellFormed()
    ensures var r := Step(table, p, a);
            var s := Step(table, r.0, b);
            Run(table, p, [a, b]) == (s.0, r.1 + s.1)
  {
    Run1(table, p, a);
    RunSnoc(table, p, [a], b);
    Seqs.Two(a, b);
  }

  predicate SentPacket(p: Packet) {
    && 1 <= p.count <= 3 && IsStatus(p.byte0) && !IsStatus(p.byte1) && !IsStatus(p.byte2)
    && p.byte0 != SYSEX_BEGIN && p.byte0 != SYSEX_END && (IsRealtime(p.byte0) ==> p.count == 1)
  }

  /** A send is a status and its data, and zeros for the arguments that are not used. */
  lemma EncodeSends(m: Send)
    ensures SentPacket(Encode(m))
    ensures var k := Encode(m); (k.count < 2 ==> k.byte1 == 0) && (k.count < 3 ==> k.byte2 == 0)
  {}

  /** What the table makes of a packet met outside SysEx. */
  function Report(table: Table, k: Packet): seq<seq<byte>> {
    match table(k.byte0)
    case One => [[k.byte0]]
    case Two => if k.count >= 2 then [[k.byte0, k.byte1]] else []
    case Three => if k.count >= 3 then [[k.byte0, k.byte1, k.byte2]] else []
    case Undefined => []
  }

  predicate Outside(p: Parser) { p.WellFormed() && p.state != SysExMessage }

  /** A status byte outside SysEx: the message it opens, or the one it is. */
  lemma StatusReport(table: Table, p: Parser, k: Packet)
    requires Outside(p) && SentPacket(k) && !IsRealtime(k.byte0)
    ensures var r := Step(table, p, k.byte0);
            && Reported(r.1) == Report(table, Packet(1, k.byte0, 0, 0))
            && r.0.state == (match table(k.byte0)
                             case Two => TwoByteMessage case Three => ThreeByteMessage case _ => Idle)
            && (r.0.state != Idle ==> r.0.count == 1 && r.0.buffer[0] == k.byte0)
  {
    if table(k.byte0) == One { ReportedOne(Callback(1, k.byte0, 0, 0)); }
  }

  /** The first data byte after it. */
  lemma DataReport(p: Parser, b: byte)
    requires p.WellFormed() && !IsStatus(b) && p.state != SysExMessage && (p.state != Idle ==> p.count == 1)
    ensures var r := DataByte(p, b);
            && Reported(r.1) == (if p.state == TwoByteMessage then [[p.buffer[0], b]] else [])
            && r.0.state == (if p.state == ThreeByteMessage then ThreeByteMessage else Idle)
            && (r.0.state != Idle ==> r.0.count == 2 && r.0.buffer[0] == p.buffer[0] && r.0.buffer[1] == b)
  {
    if p.state == TwoByteMessage { ReportedOne(Callback(2, p.buffer[0], b, 0)); }
  }

  /** And the second. */
  lemma LastReport(p: Parser, b: byte)
    requires p.WellFormed() && !IsStatus(b) && p.state != SysExMessage
    requires p.state != Idle ==> p.count == 2 && p.state == ThreeByteMessage
    ensures var r := DataByte(p, b);
            && Reported(r.1) == (if p.state == ThreeByteMessage then [[p.buffer[0], p.buffer[1], b]] else [])
            && r.0.state == Idle
  {
    if p.state == ThreeByteMessage { ReportedOne(Callback(3, p.buffer[0], p.buffer[1], b)); }
  }

  /** Where a packet's status byte and first data byte leave the receiver, and what they report. */
  lemma TwoBytesReport(table: Table, p: Parser, k: Packet)
    requires Outside(p) && SentPacket(k) && !IsRealtime(k.byte0)
    ensures var r := Run(table, p, [k.byte0, k.byte1]);
            && Reported(r.1) == Report(table, Packet(2, k.byte0, k.byte1, 0))
            && r.0.state == (if table(k.byte0) == Three then ThreeByteMessage else Idle)
            && (r.0.state != Idle ==> r.0.count == 2 && r.0.buffer[0] == k.byte0 && r.0.buffer[1] == k.byte1)
  {
    StatusReport(table, p, k);
    var r := Step(table, p, k.byte0);
    DataReport(r.0, k.byte1);
    ReportedConcat(r.1, DataByte(r.0, k.byte1).1);
    EmptyLeft(Reported(DataByte(r.0, k.byte1).1));
    EmptyRight(Reported(r.1));
    Run2(table, p, k.byte0, k.byte1);
  }

  lemma ThreeBytesReport(table: Table, p: Parser, k: Packet)
    requires Outside(p) && SentPacket(k) && !IsRealtime(k.byte0)
    ensures var r := Run(table, p, [k.byte0, k.byte1, k.byte2]);
            Outside(r.0) && Reported(r.1) == Report(table, Packet(3, k.byte0, k.byte1, k.byte2))
  {
    TwoBytesReport(table, p, k);
    var r := Run(table, p, [k.byte0, k.byte1]);
    ThirdReport(table, r.0, r.1, k);
    RunSnoc(table, p, [k.byte0, k.byte1], k.byte2);
    Seqs.Three(k.byte0, k.byte1, k.byte2);
  }

  lemma ThirdReport(table: Table, p: Parser, callbacks: seq<Callback>, k: Packet)
    requires p.WellFormed() && SentPacket(k) && !IsRealtime(k.byte0)
    requires Reported(callbacks) == Report(table, Packet(2, k.byte0, k.byte1, 0))
    requires p.state == if table(k.byte0) == Three then ThreeByteMessage else Idle
    requires p.state != Idle ==> p.count == 2 && p.buffer[0] == k.byte0 && p.buffer[1] == k.byte1
    ensures var r := DataByte(p, k.byte2);
            && Reported(callbacks + r.1) == Report(table, Packet(3, k.byte0, k.byte1, k.byte2))
            && r.0.state == Idle
  {
    var r := DataByte(p, k.byte2);
    LastReport(p, k.byte2);
    ReportedConcat(callbacks, r.1);
    EmptyLeft(Reported(r.1));
    EmptyRight(Reported(callbacks));
  }

  lemma PacketReport(table: Table, p: Parser, k: Packet)
    requires Outside(p) && SentPacket(k) && !IsRealtime(k.byte0)
    ensures var r := Run(table, p, k.Bytes());
            Outside(r.0) && Reported(r.1) == Report(table, k)
  {
    match k.count {
      case 1 =>
        StatusReport(table, p, k);
        Run1(table, p, k.byte0);
      case 2 => TwoBytesReport(table, p, k);
      case _ => ThreeBytesReport(table, p, k);
    }
  }

  lemma RealtimeReport(table: Table, p: Parser, k: Packet)
    requires Outside(p) && SentPacket(k) && IsRealtime(k.byte0)
    ensures Run(table, p, k.Bytes()) == (p, [Callback(1, k.byte0, 0, 0)])
    ensures Reported([Callback(1, k.byte0, 0, 0)]) == [k.Bytes()]
  {
    Run1(table, p, k.byte0);
    ReportedOne(Callback(1, k.byte0, 0, 0));
  }

  /**
    One packet, met outside SysEx, is reported as itself exactly when the table gives its status byte the
    packet's own length. Realtime packets are reported under any table.
  */
  lemma DeliveredIff(table: Table, p: Parser, k: Packet)
    requires Outside(p) && SentPacket(k)
    ensures var r := Run(table, p, k.Bytes());
            && Outside(r.0) && |Reported(r.1)| <= 1
            && (Reported(r.1) == [k.Bytes()] <==> IsRealtime(k.byte0) || Fits(table, k))
  {
    if IsRealtime(k.byte0) {
      RealtimeReport(table, p, k);
    } else {
      PacketReport(table, p, k);
      if Report(table, k) == [k.Bytes()] {
        assert |Report(table, k)[0]| == k.count;
      }
    }
  }

  predicate Arrives(table: Table, m: Send) { IsRealtime(Encode(m).byte0) || Fits(table, Encode(m)) }

  predicate AllFit(table: Table, sends: seq<Send>) {
    forall m :: m in sends ==> Arrives(table, m)
  }

  /** The messages of a sequence of sends, each of which decodes to the clamped send. */
  function Sent(sends: seq<Send>): (r: seq<seq<byte>>)
    ensures |r| == |sends|
    ensures forall i :: 0 <= i < |r| ==>
              r[i] == Encode(sends[i]).Bytes() && Decode(r[i]) == Some(Clamped(sends[i]))
  {
    if sends == [] then []
    else
      DecodeEncode(sends[|sends| - 1]);
      Sent(sends[..|sends| - 1]) + [Encode(sends[|sends| - 1]).Bytes()]
  }

  /**
    End to end: whatever state outside SysEx the receiver is in, it reports exactly the same messages in the same
    order if and only if the table knows the length of every send. It never reports more messages than were sent.
  */
  lemma {:induction false} EndToEnd(table: Table, p: Parser, sends: seq<Send>)
    requires Outside(p)
    ensures Outside(Run(table, p, Wire(sends)).0) && |ReportsOf(table, p, sends)| <= |sends|
    ensures ReportsOf(table, p, sends) == Sent(sends) <==> AllFit(table, sends)
  {
    if sends != [] {
      EndToEnd(table, p, sends[..|sends| - 1]);
      OneMoreSend(table, p, sends[..|sends| - 1], sends[|sends| - 1]);
      Snoc(sends);
    }
  }

  function ReportsOf(table: Table, p: Parser, sends: seq<Send>): seq<seq<byte>>
    requires Outside(p)
  {
    Reported(Run(table, p, Wire(sends)).1)
  }

  lemma OneMoreSend(table: Table, p: Parser, front: seq<Send>, m: Send)
    requires Outside(p) && Outside(Run(table, p, Wire(front)).0) && |ReportsOf(table, p, front)| <= |front|
    requires ReportsOf(table, p, front) == Sent(front) <==> AllFit(table, front)
    ensures var sends := front + [m];
            && Outside(Run(table, p, Wire(sends)).0) && |ReportsOf(table, p, sends)| <= |sends|
            && (ReportsOf(table, p, sends) == Sent(sends) <==> AllFit(table, sends))
  {
    var bytes := Encode(m).Bytes();
    ButLastSnoc(front, m);
    OneMore(table, p, Wire(front), m);
    var more := Reported(Run(table, Run(table, p, Wire(front)).0, bytes).1);
    SameReports(ReportsOf(table, p, front), more, Sent(front), bytes);
    AllFitSnoc(table, front, m);
  }

  lemma AllFitSnoc(table: Table, front: seq<Send>, m: Send)
    ensures AllFit(table, front + [m]) <==> AllFit(table, front) && Arrives(table, m)
  {
    assert m in front + [m];
    assert forall n :: n in front ==> n in front + [m];
  }

  /** At most as many reports as sends: they are the same only if each send has its own. */
  lemma SameReports(a: seq<seq<byte>>, b: seq<seq<byte>>, sent: seq<seq<byte>>, last: seq<byte>)
    requires |a| <= |sent| && |b| <= 1
    ensures a + b == sent + [last] <==> a == sent && b == [last]
  {
    if a + b == sent + [last] {
      assert |a| == |sent| && |b| == 1;
      assert a == (a + b)[..|a|] == (sent + [last])[..|sent|] == sent;
      assert b[0] == (a + b)[|a|] == last;
    }
  }

  lemma OneMore(table: Table, p: Parser, front: seq<byte>, m: Send)
    requires Outside(p) && Outside(Run(table, p, front).0)
    ensures var q := Run(table, p, front);
            var r := Run(table, q.0, Encode(m).Bytes());
            var s := Run(table, p, front + Encode(m).Bytes());
            && Outside(s.0) && Reported(s.1) == Reported(q.1) + Reported(r.1) && |Reported(r.1)| <= 1
            && (Reported(r.1) == [Encode(m).Bytes()] <==> Arrives(table, m))
  {
    var q := Run(table, p, front);
    var bytes := Encode(m).Bytes();
    RunConcat(table, p, front, bytes);
    EncodeSends(m);
    DeliveredIff(table, q.0, Encode(m));
    ReportedConcat(q.1, Run(table, q.0, bytes).1);
  }

  /** Any sends at all fit the table of the case labels. */
  lemma CaseLabelsFit(sends: seq<Send>)
    ensures AllFit(CaseLabels, sends)
  {
    forall m | m in sends ensures Arrives(CaseLabels, m) {
      ChannelLabels(m);
    }
  }

  /** A channel message keeps its label when it loses its channel. */
  lemma ChannelLabels(m: Send)
    ensures var status := Encode(m).byte0;
            status < 0xF0 ==> status - status % 16 in {0x80, 0x90, 0xA0, 0xB0, 0xC0, 0xD0, 0xE0}
  {}

  /** The case labels give a status a length exactly if there is a message of that length with that status. */
  lemma CaseLabelsExact(status: byte)
    requires IsStatus(status)
    ensures CaseLabels(status) == One <==> Decode([status]).Some?
    ensures CaseLabels(status) == Two <==> Decode([status, 0]).Some?
    ensures CaseLabels(status) == Three <==> Decode([status, 0, 0]).Some?
  {
    TwoDecoded(status, 0);
    ThreeDecoded(status, 0, 0);
  }

  /** The table as written, which calls every status three bytes long, fits all but the short non-realtime sends. */
  lemma AsWrittenFits(sends: seq<Send>)
    ensures AllFit(AsWritten, sends)
       <==> forall m :: m in sends ==> !IsShort(m)
  {}

  /** Not realtime, and of one or two bytes. */
  predicate IsShort(m: Send) {
    m.ProgramChange? || m.ChannelPressure? || m.TcQuarterFrame? || m.SongSelect? || m.TuneRequest?
  }

  /** As written, a program change is never reported, whatever it says and whatever state the receiver is in. */
  lemma AsWrittenLosesProgramChange(p: Parser, chan: byte, num: byte)
    requires Outside(p)
    ensures Reported(Run(AsWritten, p, Encode(ProgramChange(chan, num)).Bytes()).1) == []
  {
    var k := Encode(ProgramChange(chan, num));
    EncodeSends(ProgramChange(chan, num));
    assert AsWritten(k.byte0) == Three;
    PacketReport(AsWritten, p, k);
  }

  /** The same for a receiver that has already taken in some bytes. */
  lemma StreamEndToEnd(table: Table, before: seq<byte>, sends: seq<Send>)
    requires Outside(Run(table, INITIAL, before).0)
    ensures Reported(Run(table, INITIAL, before + Wire(sends)).1)
         == Reported(Run(table, INITIAL, before).1) + Sent(sends)
       <==> AllFit(table, sends)
  {
    var q := Run(table, INITIAL, before);
    var more := Run(table, q.0, Wire(sends)).1;
    RunConcat(table, INITIAL, before, Wire(sends));
    ReportedConcat(q.1, more);
    EndToEnd(table, q.0, sends);
    SameTail(Reported(q.1), Reported(more), Sent(sends));
  }

  lemma SameTail(a: seq<seq<byte>>, b: seq<seq<byte>>, c: seq<seq<byte>>)
    ensures a + b == a + c <==> b == c
  {
    assert b == (a + b)[|a|..] && c == (a + c)[|a|..];
  }

  /** The serial transmitter of MIDI.c: the wire is the history of writes to UDR1. */
  class SerialPort {
    ghost var wire: seq<byte>

    /** midi_send_serial */
    method Send(count: byte, byte0: byte, byte1: byte, byte2: byte)
      modifies this
      ensures wire == old(wire) + Packet(count, byte0, byte1, byte2).Bytes()
    {
      var out := [byte0, byte1, byte2];
      var n := if count > 3 then 3 else count;
      var i := 0;
      while i < n
        invariant 0 <= i <= n
        invariant wire == old(wire) + out[..i]
      {
        Assoc(old(wire), out[..i], [out[i]]);
        wire := wire + [out[i]];
        assert out[..i] + [out[i]] == out[..i + 1];
        i := i + 1;
      }
    }
  }
  /**
    A sender, the wire and a device, for any number of sends. The device may be anywhere outside SysEx. Bytes arrive
    one interrupt at a time, whenever they like; the main loop comes round when it likes, but before the queue could
    fill up. Nothing is lost on the way, and in the end the catch-all callback has got exactly the messages sent, in
    order, if and only if the table knows their lengths.
  */
  method DeviceEndToEnd(port: SerialPort, device: MidiDevice, sends: seq<Send>)
    requires device.Valid() && device.inFlight == 0 && device.queue.Contents() == [] && device.line == []
    requires Outside(device.State())
    modifies port, device, device.inputBuffer, device.queue, device.queue.data
    ensures device.Valid() && device.inFlight == 0 && device.queue.Contents() == [] && device.line == []
    ensures port.wire == old(port.wire) + Wire(sends) && device.accepted == old(device.accepted) + Wire(sends)
    ensures Reported(device.callbacks) == Reported(old(device.callbacks)) + Sent(sends) <==> AllFit(device.table, sends)
  {
    ghost var start := device.accepted;
    EmptyRight(start);
    StateNow(device);
    SendAll(port, device, sends);
    SettleAfter(device, start, sends);
  }

  lemma StateNow(device: MidiDevice)
    requires device.Valid() && device.inFlight == 0 && device.queue.Contents() == []
    ensures Run(device.table, INITIAL, device.accepted) == (device.State(), device.callbacks)
  {
    device.Drained();
    assert device.accepted == device.processed;
  }

  /** The last bytes arrive and are processed. */
  method SettleAfter(device: MidiDevice, ghost start: seq<byte>, ghost sends: seq<Send>)
    requires device.Valid() && device.inFlight == 0 && device.Room()
    requires device.Offered() == start + Wire(sends) && Outside(Run(device.table, INITIAL, start).0)
    modifies device, device.inputBuffer, device.queue, device.queue.data
    ensures device.Valid() && device.inFlight == 0 && device.queue.Contents() == [] && device.line == []
    ensures device.accepted == start + Wire(sends)
    ensures Reported(device.callbacks) == Reported(Run(device.table, INITIAL, start).1) + Sent(sends)
       <==> AllFit(device.table, sends)
  {
    device.Settle();
    device.Drained();
    StreamEndToEnd(device.table, start, sends);
  }

  /** All the sends, one after the other, while the main loop runs. */
  method SendAll(port: SerialPort, device: MidiDevice, sends: seq<Send>)
    requires device.Valid() && device.inFlight == 0 && device.Room()
    modifies port, device, device.inputBuffer, device.queue, device.queue.data
    ensures device.Valid() && device.inFlight == 0 && device.Room()
    ensures port.wire == old(port.wire) + Wire(sends) && device.Offered() == old(device.Offered()) + Wire(sends)
  {
    ghost var wire, offered := port.wire, device.Offered();
    EmptyRight(wire);
    EmptyRight(offered);
    var i := 0;
    while i < |sends|
      invariant 0 <= i <= |sends|
      invariant device.Valid() && device.inFlight == 0 && device.Room()
      invariant port.wire == wire + Wire(sends[..i]) && device.Offered() == offered + Wire(sends[..i])
    {
      WireSnoc(sends, i, wire, offered);
      SendOne(port, device, sends[i]);
      i := i + 1;
    }
    assert sends[..i] == sends;
  }

  /** One send; before it the main loop comes round if it has to, and after it if it likes. */
  method SendOne(port: SerialPort, device: MidiDevice, m: Send)
    requires device.Valid() && device.inFlight == 0 && device.Room()
    modifies port, device, device.inputBuffer, device.queue, device.queue.data
    ensures device.Valid() && device.inFlight == 0 && device.Room()
    ensures port.wire == old(port.wire) + Encode(m).Bytes()
    ensures device.Offered() == old(device.Offered()) + Encode(m).Bytes()
  {
    MakeRoom(device);
    Transmit(port, device, Encode(m));
    Round(device);
  }

  /** The main loop comes round, or not yet. */
  method Round(device: MidiDevice)
    requires device.Valid() && device.inFlight == 0 && device.Room()
    modifies device, device.inputBuffer, device.queue, device.queue.data
    ensures device.Valid() && device.inFlight == 0 && device.Room() && device.Offered() == old(device.Offered())
  {
    var now: bool := *;
    if now {
      var snapshot := device.Process();
    }
  }

  /** The packet leaves the port and is on its way to the device. */
  method Transmit(port: SerialPort, device: MidiDevice, k: Packet)
    requires device.Valid()
    modifies port, device`line
    ensures device.Valid() && port.wire == old(port.wire) + k.Bytes()
    ensures device.line == old(device.line) + k.Bytes() && device.Offered() == old(device.Offered()) + k.Bytes()
  {
    Assoc(device.accepted, device.line, k.Bytes());
    port.Send(k.count, k.byte0, k.byte1, k.byte2);
    device.Arriving(k.Bytes());
  }

  /** Afterwards the queue has room for three more bytes. */
  method MakeRoom(device: MidiDevice)
    requires device.Valid() && device.inFlight == 0 && device.Room()
    modifies device, device.inputBuffer, device.queue, device.queue.data
    ensures device.Valid() && device.inFlight == 0 && device.Offered() == old(device.Offered())
    ensures |device.queue.Contents()| + |device.line| + 3 < device.queue.length
  {
    var len := device.queue.Length();
    if len as int + |device.line| + 3 >= device.queue.length {
      device.Settle();
      EmptyRight(device.accepted);
    }
  }

  lemma WireSnoc(sends: seq<Send>, i: nat, wire: seq<byte>, start: seq<byte>)
    requires i < |sends|
    ensures wire + Wire(sends[..i + 1]) == wire + Wire(sends[..i]) + Encode(sends[i]).Bytes()
    ensures start + Wire(sends[..i + 1]) == start + Wire(sends[..i]) + Encode(sends[i]).Bytes()
  {
    assert sends[..i + 1][..i] == sends[..i];
    Assoc(wire, Wire(sends[..i]), Encode(sends[i]).Bytes());
    Assoc(start, Wire(sends[..i]), Encode(sends[i]).Bytes());
  }
}
