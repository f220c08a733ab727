/**
  A memory that is written byte by byte: the EEPROM of an AVR, or the flash of one that has no pages. EEPROM can also
  be written by pages.
*/
module DirectTargets {
  import opened Bits
  import opened Seqs
  import SpiTarget
  import opened SpiBuses
  import opened UsbPackets
  import opened Polling
  import opened IspStreams
  import opened IspProgrammer

  /**
    The opcodes of byte-wise access, in which bit 3 selects the high half of a word of flash, and those that load and
    write a page of EEPROM.
  */
  datatype OpcodeTable = Opcodes(write: byte, read: byte, load: byte, commit: byte)
  {
    predicate Distinct() {
      && !HighBit(write) && !HighBit(read) && write != read
      && load !in {write, read, commit} && commit !in {write, read}
      && !Taken(write) && !Taken(write + 8) && !Taken(load) && !Taken(commit)
    }

    /** An opcode with another meaning. */
    predicate Taken(op: nat) { op == SpiTarget.LOAD_EXTENDED_ADDRESS_CMD || op == SpiTarget.POLL_BUSY_CMD }
  }

  type Opcodes = ops: OpcodeTable | ops.Distinct() witness Opcodes(0xC0, 0xA0, 0xC1, 0xC2)

  type PageSize = n: nat | n > 0 witness 4

  /** `words` tells flash, whose words have two halves and whose bits can only be cleared, from EEPROM. */
  datatype Target = Target(
    words: bool, ops: Opcodes, pending: SpiTarget.Pending, memory: seq<byte>,
    page: PageSize, loaded: map<nat, byte> // the bytes of an EEPROM page that have been loaded
  )
  {
    predicate Writes(op: byte) { op == ops.write || (words && op == ops.write + 8) }
    predicate Alters(op: byte) { Writes(op) || (!words && (op == ops.load || op == ops.commit)) }
    predicate Reads(op: byte) { op == ops.read || (words && op == ops.read + 8) }
  }

  function Place(words: bool, address: nat, high: bool): nat {
    if words then 2 * address + if high then 1 else 0 else address
  }

  /** What becomes of a memory cell. */
  function Cell(words: bool, before: byte, value: byte): byte { if words then And(before, value) else value }

  function Put(words: bool, memory: seq<byte>, at: nat, value: byte): (r: seq<byte>)
    ensures |r| == |memory|
  {
    if at < |memory| then memory[at := Cell(words, memory[at], value)] else memory
  }

  /** A page write puts the loaded bytes into the page at `base`, and leaves the others. */
  function PutPage(memory: seq<byte>, base: nat, page: nat, loaded: map<nat, byte>): (r: seq<byte>)
    ensures |r| == |memory|
    ensures forall j :: 0 <= j < |memory| ==>
              r[j] == if base <= j < base + page && j - base in loaded then loaded[j - base] else memory[j]
  {
    seq(|memory|, j requires 0 <= j < |memory| =>
      if base <= j < base + page && j - base in loaded then loaded[j - base] else memory[j])
  }

  function CommitPage(t: Target, address: nat): (r: Target)
    ensures r.ops == t.ops && r.words == t.words && |r.memory| == |t.memory| && r.page == t.page
  {
    t.(memory := PutPage(t.memory, address - SpiTarget.PageOffset(address, t.page), t.page, t.loaded), loaded := map[])
  }

  function Execute(t: Target, op: byte, address: nat, value: byte): (r: Target)
    ensures r.ops == t.ops && r.words == t.words && |r.memory| == |t.memory| && r.page == t.page
  {
    if t.Writes(op) then t.(memory := Put(t.words, t.memory, Place(t.words, address, op != t.ops.write), value))
    else if t.words then t
    else if op == t.ops.load then t.(loaded := t.loaded[SpiTarget.PageOffset(address, t.page) := value])
    else if op == t.ops.commit then CommitPage(t, address)
    else t
  }

  function CellAt(t: Target, i: nat): byte { if i < |t.memory| then t.memory[i] else 0 }

  /** What the last byte of an instruction reads. */
  function Result(t: Target, op: byte, address: nat): byte {
    if t.Reads(op) then CellAt(t, Place(t.words, address, op != t.ops.read)) else 0
  }

  function Take(t: Target, b: byte): (r: Target)
    ensures r.ops == t.ops && r.words == t.words && |r.memory| == |t.memory| && r.page == t.page
  {
    if |t.pending| < 3 then t.(pending := t.pending + [b])
    else Execute(t.(pending := []), t.pending[0], SpiTarget.Join(t.pending[1], t.pending[2]), b)
  }

  function Feed(t: Target, s: seq<byte>): (r: Target)
    ensures r.ops == t.ops && r.words == t.words && |r.memory| == |t.memory| && r.page == t.page
  {
    if s == [] then t else Take(Feed(t, s[..|s| - 1]), s[|s| - 1])
  }

  function Answer(t: Target): byte {
    if |t.pending| == 3 then Result(t, t.pending[0], SpiTarget.Join(t.pending[1], t.pending[2])) else 0
  }

  /** The answer to the last byte of a stream. */
  function Reply(t: Target, s: seq<byte>): byte { if s == [] then 0 else Answer(Feed(t, s[..|s| - 1])) }

  /** The target as a device on the bus. */
  function AsDevice(t: Target): Device { (s: seq<byte>) => Reply(t, s) }

  lemma {:induction false} FeedConcat(t: Target, a: seq<byte>, b: seq<byte>)
    ensures Feed(t, a + b) == Feed(Feed(t, a), b)
  {
    if b == [] {
      EmptyRight(a);
    } else {
      FeedConcat(t, a, b[..|b| - 1]);
      ButLast(a, b);
    }
  }

  lemma FeedOne(t: Target, s: seq<byte>, b: byte)
    ensures Feed(t, s + [b]) == Take(Feed(t, s), b)
  {
    ButLastSnoc(s, b);
  }

  lemma FeedThree(t: Target, a: byte, b: byte, c: byte)
    requires t.pending == []
    ensures Feed(t, [a, b, c]) == t.(pending := [a, b, c])
  {
    FeedOne(t, [], a);
    FeedOne(t, [a], b);
    FeedOne(t, [a, b], c);
    EmptyLeft([a]);
    Two(a, b);
    Three(a, b, c);
  }

  lemma FeedInstruction(t: Target, a: byte, b: byte, c: byte, d: byte)
    requires t.pending == []
    ensures Feed(t, [a, b, c, d]) == Execute(t, a, SpiTarget.Join(b, c), d)
  {
    FeedThree(t, a, b, c);
    assert [a, b, c, d][..3] == [a, b, c];
    assert t.(pending := [a, b, c]).(pending := []) == t;
  }

  /** The same for an instruction with an address, of which the wire carries 16 bits. */
  lemma InstructionEffect(t: Target, op: byte, x: nat, value: byte, address: word)
    requires t.pending == [] && address == x % 0x1_0000
    ensures Feed(t, IspStreams.Instruction(op, x, value)) == Execute(t, op, address, value)
  {
    FeedInstruction(t, op, HighByte(x), LowByte(x), value);
    SpiTarget.JoinBytes(x);
  }

  /** The answer to an instruction sent at an instruction boundary. */
  lemma AnswerAfter(t0: Target, sent: seq<byte>, op: byte, x: nat)
    requires Feed(t0, sent).pending == []
    ensures Reply(t0, sent + IspStreams.Instruction(op, x, 0)) == Result(Feed(t0, sent), op, x % 0x1_0000)
  {
    var t, h, l := Feed(t0, sent), HighByte(x), LowByte(x);
    FourFromThree(sent, op, h, l, 0);
    ButLastSnoc(sent + [op, h, l], 0);
    FeedConcat(t0, sent, [op, h, l]);
    FeedThree(t, op, h, l);
    PendingAnswer(t.(pending := [op, h, l]), t, op, h, l);
    SpiTarget.JoinBytes(x);
  }

  lemma PendingAnswer(u: Target, t: Target, op: byte, h: byte, l: byte)
    requires u == t.(pending := [op, h, l])
    ensures Answer(u) == Result(t, op, SpiTarget.Join(h, l))
  {}

  lemma {:induction false} PollsHarmless(t: Target, op: byte, b: byte, c: byte, d: byte, n: nat)
    requires t.pending == [] && !t.Alters(op)
    ensures Feed(t, SpiTarget.Repeat([op, b, c, d], n)) == t
  {
    if n > 0 {
      PollsHarmless(t, op, b, c, d, n - 1);
      FeedConcat(t, SpiTarget.Repeat([op, b, c, d], n - 1), [op, b, c, d]);
      FeedInstruction(t, op, b, c, d);
    }
  }

  // ----- Word and byte mode -----

  /** The host drives this target: its own opcodes, the right kind of memory, and no pages. */
  predicate Drives(p: ProgramParams, t: Target) {
    !p.Paged() && p.flash == t.words && p.writeCommand == t.ops.write && p.readCommand == t.ops.read
  }

  /** The cell that byte `i` of a transfer goes to. */
  function PlaceOf(words: bool, start: dword, i: nat): nat {
    Place(words, AddressAt(words, start, i) % 0x1_0000, i % 2 == 1)
  }

  /** The memory after the bytes of a transfer. */
  function Written(words: bool, memory: seq<byte>, start: dword, data: seq<byte>): (r: seq<byte>)
    ensures |r| == |memory|
  {
    if data == [] then memory
    else
      var i := |data| - 1;
      Put(words, Written(words, memory, start, data[..i]), PlaceOf(words, start, i), data[i])
  }

  lemma WriteOne(t: Target, p: ProgramParams, start: dword, i: nat, value: byte)
    requires t.pending == [] && Drives(p, t)
    ensures Feed(t, IspStreams.Instruction(CommandAt(Toggling, p.flash, p.writeCommand, i),
                                           AddressAt(p.flash, start, i), value))
         == t.(memory := Put(t.words, t.memory, PlaceOf(t.words, start, i), value))
  {
    var op, x := CommandAt(Toggling, p.flash, p.writeCommand, i), AddressAt(p.flash, start, i);
    InstructionEffect(t, op, x, value, x % 0x1_0000);
    WriteExecutes(t, start, i, value);
  }

  lemma WriteExecutes(t: Target, start: dword, i: nat, value: byte)
    ensures Execute(t, CommandAt(Toggling, t.words, t.ops.write, i), AddressAt(t.words, start, i) % 0x1_0000, value)
         == t.(memory := Put(t.words, t.memory, PlaceOf(t.words, start, i), value))
  {
    HighBitValues(t.ops.write);
  }

  /** One of the read commands of the target. */
  predicate IsRead(t: Target, c: byte) { c == t.ops.read || c == SetHigh(t.ops.read) }

  /** A check only reads. */
  lemma ChecksHarmless(t: Target, check: Check, c: byte, address: word, polls: nat)
    requires t.pending == [] && IsRead(t, c) && (t.words || c == t.ops.read)
    ensures Feed(t, CheckTraffic(check, c, address, polls)) == t
  {
    ReadsOnly(t, c);
    match check {
      case ValuePoll => PollsHarmless(t, c, HighByte(address), LowByte(address), 0, polls);
      case BusyPolling => PollsHarmless(t, SpiTarget.POLL_BUSY_CMD, 0, 0, 0, polls);
      case _ =>
    }
  }

  lemma ReadsOnly(t: Target, c: byte)
    requires IsRead(t, c) && (t.words || c == t.ops.read)
    ensures !t.Alters(c)
  {
    HighBitValues(t.ops.read);
    HighBitValues(t.ops.write);
  }

  lemma {:induction false} PollCommandReads(p: ProgramParams, start: dword, data: seq<byte>)
    ensures var c := WordPoll(p, start, data).1; c == p.readCommand || c == SetHigh(p.readCommand)
  {
    if data != [] {
      PollCommandReads(p, start, data[..|data| - 1]);
      SetOrClear(p.readCommand);
    }
  }

  lemma {:induction false} BytePollCommand(p: ProgramParams, start: dword, data: seq<byte>)
    requires !p.flash
    ensures WordPoll(p, start, data).1 == p.readCommand
  {
    if data != [] { BytePollCommand(p, start, data[..|data| - 1]); }
  }

  lemma ChunkWrites(t: Target, p: ProgramParams, start: dword, data: seq<byte>, i: nat, polls: nat)
    requires t.pending == [] && Drives(p, t) && i < |data|
    ensures Feed(t, WordChunk(p, start, data, i, polls))
         == t.(memory := Put(t.words, t.memory, PlaceOf(t.words, start, i), data[i]))
  {
    var target := WordPoll(p, start, data[..i + 1]);
    var instruction :=
      IspStreams.Instruction(CommandAt(Toggling, p.flash, p.writeCommand, i), AddressAt(p.flash, start, i), data[i]);
    WriteOne(t, p, start, i, data[i]);
    if !p.flash { BytePollCommand(p, start, data[..i + 1]); }
    PollCommandReads(p, start, data[..i + 1]);
    FeedConcat(t, instruction, CheckTraffic(CheckOf(p.mode), target.1, target.0, polls));
    ChecksHarmless(Feed(t, instruction), CheckOf(p.mode), target.1, target.0, polls);
  }

  /** Word and byte mode write, one after the other, the bytes whose checks have been made. */
  lemma {:induction false} WordsWritten(t: Target, p: ProgramParams, start: dword, data: seq<byte>, counts: seq<nat>)
    requires t.pending == [] && Drives(p, t) && |counts| <= |data|
    ensures Feed(t, WordTraffic(p, start, data, counts))
         == t.(memory := Written(t.words, t.memory, start, data[..|counts|]))
  {
    if counts != [] {
      var i := |counts| - 1;
      WordsWritten(t, p, start, data, counts[..i]);
      FeedConcat(t, WordTraffic(p, start, data, counts[..i]), WordChunk(p, start, data, i, counts[i]));
      ChunkWrites(Feed(t, WordTraffic(p, start, data, counts[..i])), p, start, data, i, counts[i]);
      assert data[..i + 1][..i] == data[..i];
    }
  }

  // ----- Reading -----

  /** The answer to a read instruction is the cell it names. */
  lemma ReadAnswer(t: Target, start: dword, i: nat)
    ensures Result(t, CommandAt(Toggling, t.words, t.ops.read, i), AddressAt(t.words, start, i) % 0x1_0000)
         == CellAt(t, PlaceOf(t.words, start, i))
  {
    HighBitValues(t.ops.read);
  }

  lemma ReadCommandReads(t: Target, i: nat)
    ensures !t.Alters(CommandAt(Toggling, t.words, t.ops.read, i))
  {
    HighBitValues(t.ops.read);
    HighBitValues(t.ops.write);
  }

  /** Reading changes nothing. */
  lemma {:induction false} ReadsHarmless(t: Target, start: dword, n: nat)
    requires t.pending == []
    ensures Feed(t, ReadStream(Toggling, t.words, t.ops.read, start, n)) == t
  {
    if n > 0 {
      var op, x := CommandAt(Toggling, t.words, t.ops.read, n - 1), AddressAt(t.words, start, n - 1);
      ReadsHarmless(t, start, n - 1);
      ReadHarmless(t, n - 1, x);
      HarmlessConcat(t, ReadStream(Toggling, t.words, t.ops.read, start, n - 1), IspStreams.Instruction(op, x, 0));
    }
  }

  lemma ReadHarmless(t: Target, i: nat, x: nat)
    requires t.pending == []
    ensures Feed(t, IspStreams.Instruction(CommandAt(Toggling, t.words, t.ops.read, i), x, 0)) == t
  {
    ReadCommandReads(t, i);
    FeedInstruction(t, CommandAt(Toggling, t.words, t.ops.read, i), HighByte(x), LowByte(x), 0);
  }

  lemma HarmlessConcat(t: Target, a: seq<byte>, b: seq<byte>)
    requires Feed(t, a) == t && Feed(t, b) == t
    ensures Feed(t, a + b) == t
  {
    FeedConcat(t, a, b);
  }

  /** An answer to a read of `n` bytes: the cell that each of its instructions names. */
  predicate Answered(t: Target, start: dword, n: nat, answer: seq<byte>) {
    |answer| == n && forall i :: 0 <= i < n ==> answer[i] == CellAt(t, PlaceOf(t.words, start, i))
  }

  lemma ReadingAnswer(t0: Target, before: seq<byte>, t: Target, start: dword, i: nat)
    requires Feed(t0, before) == t && t.pending == []
    ensures Reading(AsDevice(t0), before, t.words, t.ops.read, start, i) == CellAt(t, PlaceOf(t.words, start, i))
  {
    var stream := ReadStream(Toggling, t.words, t.ops.read, start, i);
    var op, x := CommandAt(Toggling, t.words, t.ops.read, i), AddressAt(t.words, start, i);
    FeedConcat(t0, before, stream);
    ReadsHarmless(t, start, i);
    Assoc(before, stream, IspStreams.Instruction(op, x, 0));
    AnswerAfter(t0, before + stream, op, x);
    ReadAnswer(t, start, i);
  }

  lemma ReadingsAnswer(t0: Target, before: seq<byte>, t: Target, start: dword, n: nat)
    requires Feed(t0, before) == t && t.pending == []
    ensures Answered(t, start, n, Readings(AsDevice(t0), before, t.words, t.ops.read, start, n))
  {
    var answer := Readings(AsDevice(t0), before, t.words, t.ops.read, start, n);
    forall i | 0 <= i < n ensures answer[i] == CellAt(t, PlaceOf(t.words, start, i)) {
      ReadingsAt(AsDevice(t0), before, t.words, t.ops.read, start, n, i);
      ReadingAnswer(t0, before, t, start, i);
    }
  }

  /** The extended address may go out, for a target that has no such register: nothing changes. */
  lemma ExtensionHarmless(t: Target, start: dword, due: bool)
    requires t.pending == []
    ensures Feed(t, ExtensionDue(start, due)) == t
  {
    if ExtensionDue(start, due) != [] {
      FeedInstruction(t, SpiTarget.LOAD_EXTENDED_ADDRESS_CMD, 0, start / 0x1_0000 % 0x100, 0);
    }
  }

  lemma ReadBack(t0: Target, sent: seq<byte>, start: dword, n: nat)
    requires Feed(t0, sent).pending == []
    ensures var extension, t := ExtensionDue(start, true), Feed(t0, sent);
            && Feed(t0, sent + extension + ReadStream(Toggling, t0.words, t0.ops.read, start, n)) == t
            && Answered(t, start, n, Readings(AsDevice(t0), sent + extension, t0.words, t0.ops.read, start, n))
  {
    var t, extension := Feed(t0, sent), ExtensionDue(start, true);
    FeedConcat(t0, sent, extension);
    ExtensionHarmless(t, start, true);
    FeedConcat(t0, sent + extension, ReadStream(Toggling, t0.words, t0.ops.read, start, n));
    ReadsHarmless(t, start, n);
    ReadingsAnswer(t0, sent + extension, t, start, n);
  }

  // ----- Value polling against the memory -----

  /** The cell that a poll of an address reads; EEPROM has no halves. */
  function PolledCell(t: Target, c: byte, address: nat): nat { Place(t.words, address, HighBit(c)) }

  lemma PollAnswer(t0: Target, sent: seq<byte>, t: Target, c: byte, address: word)
    requires Feed(t0, sent) == t && t.pending == [] && IsRead(t, c) && (t.words || c == t.ops.read)
    ensures Reply(t0, sent + ReadPoll(c, address)) == CellAt(t, PolledCell(t, c, address))
  {
    PollResult(t0, sent, t, c, address);
    ReadResult(t, c, address);
  }

  lemma PollResult(t0: Target, sent: seq<byte>, t: Target, c: byte, address: word)
    requires Feed(t0, sent) == t && t.pending == []
    ensures Reply(t0, sent + ReadPoll(c, address)) == Result(t, c, address)
  {
    AnswerAfter(t0, sent, c, address);
    assert address % 0x1_0000 == address;
  }

  lemma ReadResult(t: Target, c: byte, address: nat)
    requires IsRead(t, c) && (t.words || c == t.ops.read)
    ensures Result(t, c, address) == CellAt(t, PolledCell(t, c, address))
  {
    HighBitValues(t.ops.read);
  }

  lemma PollsRead(t0: Target, sent: seq<byte>, t: Target, c: byte, address: word, polls: nat)
    requires Feed(t0, sent) == t && t.pending == [] && IsRead(t, c) && (t.words || c == t.ops.read) && polls > 0
    ensures Reply(t0, sent + SpiTarget.Repeat(ReadPoll(c, address), polls)) == CellAt(t, PolledCell(t, c, address))
  {
    var earlier := SpiTarget.Repeat(ReadPoll(c, address), polls - 1);
    FeedConcat(t0, sent, earlier);
    ReadsOnly(t, c);
    PollsHarmless(t, c, HighByte(address), LowByte(address), 0, polls - 1);
    Assoc(sent, earlier, ReadPoll(c, address));
    PollAnswer(t0, sent + earlier, t, c, address);
  }

  /** An instruction and then polls: they read the cell of the poll target, in the memory as the instruction left it. */
  lemma PollsAfter(t0: Target, sent: seq<byte>, instruction: seq<byte>, r: Target, c: byte, address: word, polls: nat)
    requires Feed(Feed(t0, sent), instruction) == r && r.pending == [] && polls > 0
    requires IsRead(r, c) && (r.words || c == r.ops.read)
    ensures Reply(t0, sent + (instruction + SpiTarget.Repeat(ReadPoll(c, address), polls)))
         == CellAt(r, PolledCell(r, c, address))
  {
    FeedConcat(t0, sent, instruction);
    Assoc(sent, instruction, SpiTarget.Repeat(ReadPoll(c, address), polls));
    PollsRead(t0, sent + instruction, r, c, address, polls);
  }

  /** So value polling after byte `i` sees the memory with that byte in it. */
  lemma ChunkSays(t0: Target, sent: seq<byte>, t: Target, p: ProgramParams, start: dword, data: seq<byte>, i: nat,
                  polls: nat, address: word, c: byte)
    requires Feed(t0, sent) == t && t.pending == [] && Drives(p, t0) && i < |data|
    requires CheckOf(p.mode) == ValuePoll && polls > 0 && WordPoll(p, start, data[..i + 1]) == (address, c)
    ensures var r := t.(memory := Put(t.words, t.memory, PlaceOf(t.words, start, i), data[i]));
            Reply(t0, sent + WordChunk(p, start, data, i, polls)) == CellAt(r, PolledCell(r, c, address))
  {
    var instruction :=
      IspStreams.Instruction(CommandAt(Toggling, p.flash, p.writeCommand, i), AddressAt(p.flash, start, i), data[i]);
    WriteOne(t, p, start, i, data[i]);
    if !p.flash { BytePollCommand(p, start, data[..i + 1]); }
    PollCommandReads(p, start, data[..i + 1]);
    PollsAfter(t0, sent, instruction, Feed(t, instruction), c, address, polls);
  }

  /** The target with some bytes written. */
  function WithWritten(t: Target, start: dword, data: seq<byte>): Target {
    t.(memory := Written(t.words, t.memory, start, data))
  }

  lemma OneMoreWritten(t: Target, u: Target, start: dword, data: seq<byte>, i: nat)
    requires i < |data| && u == WithWritten(t, start, data[..i])
    ensures u.(memory := Put(u.words, u.memory, PlaceOf(u.words, start, i), data[i]))
         == WithWritten(t, start, data[..i + 1])
  {
    assert data[..i + 1][..i] == data[..i];
  }

  /** What polling this target sees. */
  function Saw(r: Target, target: (word, byte)): byte { CellAt(r, PolledCell(r, target.1, target.0)) }

  /** After the last byte written so far, that is in the memory as written. */
  lemma LastPoll(t0: Target, before: seq<byte>, p: ProgramParams, start: dword, data: seq<byte>, counts: seq<nat>,
                 i: nat)
    requires Feed(t0, before).pending == [] && Drives(p, t0) && |counts| == i + 1 <= |data|
    requires CheckOf(p.mode) == ValuePoll && counts[i] > 0
    ensures Reply(t0, before + WordTraffic(p, start, data, counts))
         == Saw(WithWritten(Feed(t0, before), start, data[..i + 1]), WordPoll(p, start, data[..i + 1]))
  {
    var sent := before + WordTraffic(p, start, data, counts[..i]);
    WrittenTo(t0, before, p, start, data, counts[..i]);
    OneMoreWritten(Feed(t0, before), Feed(t0, sent), start, data, i);
    var target := WordPoll(p, start, data[..i + 1]);
    ChunkSays(t0, sent, Feed(t0, sent), p, start, data, i, counts[i], target.0, target.1);
    Assoc(before, WordTraffic(p, start, data, counts[..i]), WordChunk(p, start, data, i, counts[i]));
  }

  lemma WrittenTo(t0: Target, before: seq<byte>, p: ProgramParams, start: dword, data: seq<byte>, counts: seq<nat>)
    requires Feed(t0, before).pending == [] && Drives(p, t0) && |counts| <= |data|
    ensures Feed(t0, before + WordTraffic(p, start, data, counts))
         == WithWritten(Feed(t0, before), start, data[..|counts|])
  {
    FeedConcat(t0, before, WordTraffic(p, start, data, counts));
    WordsWritten(Feed(t0, before), p, start, data, counts);
  }

  /** Byte `k` is the last one that differs from the poll value. */
  predicate LastDiffering(data: seq<byte>, pollValue: byte, k: nat) {
    k < |data| && data[k] != pollValue && forall j :: k < j < |data| ==> data[j] == pollValue
  }

  /** Its address is the one polled; before any there is none, and 0 is. */
  lemma {:induction false} WordPollAddress(p: ProgramParams, start: dword, data: seq<byte>, k: nat)
    requires LastDiffering(data, p.pollValue, k)
    ensures WordPoll(p, start, data).0 == (start as int + if p.flash then k / 2 else k) % 0x1_0000
  {
    var i := |data| - 1;
    if i == k {
      Address16Value(p.flash, start, k);
    } else {
      assert LastDiffering(data[..i], p.pollValue, k);
      WordPollAddress(p, start, data[..i], k);
    }
  }

  lemma {:induction false} WordPollNowhere(p: ProgramParams, start: dword, data: seq<byte>)
    requires forall j :: 0 <= j < |data| ==> data[j] == p.pollValue
    ensures WordPoll(p, start, data) == (0, p.readCommand)
  {
    if data != [] { WordPollNowhere(p, start, data[..|data| - 1]); }
  }

  /** What the target is after some bytes and their checks, and what it said last. */
  predicate SaidLast(t0: Target, sent: seq<byte>, t: Target, p: ProgramParams, start: dword, sofar: seq<byte>) {
    && Feed(t0, sent) == WithWritten(t, start, sofar)
    && Reply(t0, sent) == Saw(WithWritten(t, start, sofar), WordPoll(p, start, sofar))
  }

  lemma SaidAfter(t0: Target, before: seq<byte>, p: ProgramParams, start: dword, data: seq<byte>, counts: seq<nat>)
    requires Feed(t0, before).pending == [] && Drives(p, t0) && 0 < |counts| <= |data|
    requires CheckOf(p.mode) == ValuePoll && counts[|counts| - 1] > 0
    ensures SaidLast(t0, before + WordTraffic(p, start, data, counts), Feed(t0, before), p, start, data[..|counts|])
  {
    LastPoll(t0, before, p, start, data, counts, |counts| - 1);
    WrittenTo(t0, before, p, start, data, counts);
  }

  /**
    In EEPROM value polling after a byte reads the last byte so far that differs from the poll value, and so passes.
  */
  lemma BytePollSees(t0: Target, sent: seq<byte>, t: Target, p: ProgramParams, start: dword, sofar: seq<byte>, k: nat)
    requires SaidLast(t0, sent, t, p, start, sofar) && !p.flash && !t.words && LastDiffering(sofar, p.pollValue, k)
    requires WithinAddresses(false, start, |sofar|) && start % 0x1_0000 + |sofar| <= |t.memory|
    ensures Reply(t0, sent) == sofar[k] != p.pollValue
  {
    WordPollAddress(p, start, sofar, k);
    CellOfByte(t.memory, start, sofar, |sofar|, k);
  }

  /** If there is none yet, it reads cell 0, whatever that holds. */
  lemma BlankPollSees(t0: Target, sent: seq<byte>, t: Target, p: ProgramParams, start: dword, sofar: seq<byte>)
    requires SaidLast(t0, sent, t, p, start, sofar) && (t.words ==> !HighBit(p.readCommand))
    requires forall j :: 0 <= j < |sofar| ==> sofar[j] == p.pollValue
    ensures Reply(t0, sent) == CellAt(Feed(t0, sent), 0)
  {
    WordPollNowhere(p, start, sofar);
  }

  /** There is a last differing byte if any differs. */
  lemma {:induction false} LastOf(data: seq<byte>, pollValue: byte, j: nat)
    requires j < |data| && data[j] != pollValue
    ensures exists k: nat :: LastDiffering(data, pollValue, k)
  {
    var i := |data| - 1;
    if data[i] != pollValue {
      assert LastDiffering(data, pollValue, i);
    } else {
      LastOf(data[..i], pollValue, j);
      var k: nat :| LastDiffering(data[..i], pollValue, k);
      assert LastDiffering(data, pollValue, k);
    }
  }

  /**
    So in EEPROM the check of a byte passes exactly if it or a byte before it differs from the poll value, or cell 0
    happens to.
  */
  lemma BytePassesIff(t0: Target, sent: seq<byte>, t: Target, p: ProgramParams, start: dword, sofar: seq<byte>)
    requires SaidLast(t0, sent, t, p, start, sofar) && !p.flash && !t.words
    requires WithinAddresses(false, start, |sofar|) && start % 0x1_0000 + |sofar| <= |t.memory|
    ensures Passes(ValuePoll, p.pollValue, Reply(t0, sent)) <==>
              || (exists j :: 0 <= j < |sofar| && sofar[j] != p.pollValue)
              || CellAt(Feed(t0, sent), 0) != p.pollValue
  {
    if j: nat :| j < |sofar| && sofar[j] != p.pollValue {
      LastOf(sofar, p.pollValue, j);
      var k: nat :| LastDiffering(sofar, p.pollValue, k);
      BytePollSees(t0, sent, t, p, start, sofar, k);
    } else {
      BlankPollSees(t0, sent, t, p, start, sofar);
    }
  }

  lemma CellOfByte(memory: seq<byte>, start: dword, data: seq<byte>, n: nat, k: nat)
    requires k < |data| <= n && WithinAddresses(false, start, n) && start % 0x1_0000 + n <= |memory|
    ensures var cell := (start as int + k) % 0x1_0000;
            cell < |memory| && Written(false, memory, start, data)[cell] == data[k]
  {
    PlacesFollowOn(false, start, n);
    CellIs(start, k);
    WrittenAt(false, memory, start, data, n, start % 0x1_0000, start % 0x1_0000 + k);
  }

  lemma CellIs(start: dword, k: nat)
    requires start % 0x1_0000 + k < 0x1_0000
    ensures (start as int + k) % 0x1_0000 == start % 0x1_0000 + k
  {
    Address16Value(false, start, k);
    ByteAddressAt(start, k);
  }

  /** In word mode it reads, in the word of that byte, the half that the sticky high bit names. */
  lemma WordPollSees(t0: Target, sent: seq<byte>, t: Target, p: ProgramParams, start: dword, sofar: seq<byte>, k: nat)
    requires SaidLast(t0, sent, t, p, start, sofar) && p.flash && t.words && LastDiffering(sofar, p.pollValue, k)
    requires WithinAddresses(true, start, |sofar|)
    ensures Reply(t0, sent)
         == CellAt(Feed(t0, sent), 2 * (start % 0x1_0000) + Polled(k, WordPoll(p, start, sofar).1))
  {
    WordPollAddress(p, start, sofar, k);
    PolledWord(Feed(t0, sent), start, k, WordPoll(p, start, sofar).1);
  }

  lemma PolledWord(t: Target, start: dword, k: nat, c: byte)
    requires t.words && start % 0x1_0000 + k / 2 < 0x1_0000
    ensures PolledCell(t, c, (start as int + k / 2) % 0x1_0000) == 2 * (start % 0x1_0000) + Polled(k, c)
  {
    Address16Value(true, start, k);
    Address16At(start, k);
    assert k == 2 * (k / 2) + k % 2;
  }

  // ----- Where the bytes are -----

  /** The transfer does not run past its 64K addresses. */
  predicate WithinAddresses(words: bool, start: dword, n: nat) {
    n == 0 || start % 0x1_0000 + (if words then (n - 1) / 2 else n - 1) < 0x1_0000
  }

  lemma PlacesFollow(words: bool, start: dword, n: nat, i: nat)
    requires WithinAddresses(words, start, n) && i < n
    ensures PlaceOf(words, start, i) == Place(words, start % 0x1_0000, false) + i
  {
    if words { Address16At(start, i); } else { ByteAddressAt(start, i); }
  }

  lemma ByteAddressAt(start: dword, i: nat)
    requires start % 0x1_0000 + i < 0x1_0000
    ensures AddressAt(false, start, i) % 0x1_0000 == start % 0x1_0000 + i
  {
    var high := start / 0x1_0000;
    assert start == 0x1_0000 * high + start % 0x1_0000;
    assert start as int + i < 0x1_0000_0000;
    ModOfMultiple(0x1_0000, high, start % 0x1_0000 + i);
  }

  /** The bytes of a transfer go to the cells from `at` on. */
  predicate Follow(words: bool, start: dword, n: nat, at: nat) {
    forall i :: 0 <= i < n ==> PlaceOf(words, start, i) == at + i
  }

  lemma PlacesFollowOn(words: bool, start: dword, n: nat)
    requires WithinAddresses(words, start, n)
    ensures Follow(words, start, n, Place(words, start % 0x1_0000, false))
  {
    forall i | 0 <= i < n ensures PlaceOf(words, start, i) == Place(words, start % 0x1_0000, false) + i {
      PlacesFollow(words, start, n, i);
    }
  }

  /** Each byte is in its own cell, and every other cell is as it was. */
  lemma {:induction false} WrittenAt(words: bool, memory: seq<byte>, start: dword, data: seq<byte>, n: nat, at: nat,
                                     j: nat)
    requires Follow(words, start, n, at) && |data| <= n && j < |memory|
    ensures Written(words, memory, start, data)[j] ==
              if at <= j < at + |data| then Cell(words, memory[j], data[j - at]) else memory[j]
  {
    if data != [] {
      var i := |data| - 1;
      assert PlaceOf(words, start, i) == at + i;
      WrittenAt(words, memory, start, data[..i], n, at, j);
    }
  }

  /** Writing these bytes leaves them as they are: always in EEPROM, and in flash that has ones wherever they have. */
  predicate Takes(words: bool, memory: seq<byte>, at: nat, data: seq<byte>)
    requires at + |data| <= |memory|
  {
    forall i :: 0 <= i < |data| ==> Cell(words, memory[at + i], data[i]) == data[i]
  }

  lemma EepromTakes(memory: seq<byte>, at: nat, data: seq<byte>)
    requires at + |data| <= |memory|
    ensures Takes(false, memory, at, data)
  {}

  /** The memory holds the data afterwards exactly when it takes. */
  lemma HoldsIff(words: bool, memory: seq<byte>, start: dword, data: seq<byte>, at: nat)
    requires WithinAddresses(words, start, |data|)
    requires at == Place(words, start % 0x1_0000, false) && at + |data| <= |memory|
    ensures Written(words, memory, start, data)[at..at + |data|] == data <==> Takes(words, memory, at, data)
  {
    PlacesFollowOn(words, start, |data|);
    HeldIff(words, memory, start, data, at);
  }

  lemma HeldIff(words: bool, memory: seq<byte>, start: dword, data: seq<byte>, at: nat)
    requires Follow(words, start, |data|, at) && at + |data| <= |memory|
    ensures Written(words, memory, start, data)[at..at + |data|] == data <==> Takes(words, memory, at, data)
  {
    var w := Written(words, memory, start, data);
    forall j | at <= j < at + |data| ensures w[j] == Cell(words, memory[j], data[j - at]) {
      WrittenAt(words, memory, start, data, |data|, at, j);
    }
    SliceIff(w, words, memory, at, data);
  }

  lemma SliceIff(w: seq<byte>, words: bool, memory: seq<byte>, at: nat, data: seq<byte>)
    requires at + |data| <= |memory| == |w|
    requires forall j :: at <= j < at + |data| ==> w[j] == Cell(words, memory[j], data[j - at])
    ensures w[at..at + |data|] == data <==> Takes(words, memory, at, data)
  {
    forall i | 0 <= i < |data| ensures w[at..at + |data|][i] == Cell(words, memory[at + i], data[i]) {
      assert w[at + i] == Cell(words, memory[at + i], data[at + i - at]);
    }
    SameIff(w[at..at + |data|], data, words, memory, at);
  }

  lemma SameIff(held: seq<byte>, data: seq<byte>, words: bool, memory: seq<byte>, at: nat)
    requires |held| == |data| && at + |data| <= |memory|
    requires forall i :: 0 <= i < |data| ==> held[i] == Cell(words, memory[at + i], data[i])
    ensures held == data <==> Takes(words, memory, at, data)
  {}

  /** The command itself, in word or byte mode: the memory gets the bytes that were checked, all if it says OK. */
  method ProgramDirectly(programmer: Programmer, p: ProgramParams, data: seq<byte>, ghost t0: Target)
    returns (ghost status: byte, ghost written: nat)
    requires programmer.Idle() && Feed(t0, programmer.spi.sent).pending == []
    requires Drives(p, t0) && |data| <= MAX_PROG_DATA
    modifies programmer, programmer.spi, programmer.endpoint, programmer.timer`remaining, programmer.timer`phase
    ensures programmer.Idle()
    ensures programmer.endpoint.packets
         == old(programmer.endpoint.packets) + [[if p.flash then 0x13 else 0x15, status]]
    ensures written <= |data| && (status == 0x00 ==> written == |data|)
    ensures var t := old(Feed(t0, programmer.spi.sent));
            Feed(t0, programmer.spi.sent) ==
              t.(memory := Written(t.words, t.memory, old(programmer.currentAddress), data[..written]))
  {
    ghost var before, start, due := programmer.spi.sent, programmer.currentAddress, programmer.mustSetAddress;
    ghost var counts;
    status, counts := programmer.ProgramMemory(p, data);
    written := |counts|;
    CommandWrites(t0, before, p, start, due, data, counts);
  }

  /** Load an address and read: the host gets the cells that it names, and they stay as they are. */
  method ReadDirectly(programmer: Programmer, words: bool, readCommand: byte, address: dword, n: word,
                      ghost t0: Target) returns (ghost answer: seq<byte>)
    requires programmer.Idle() && programmer.spi.device == AsDevice(t0)
    requires Feed(t0, programmer.spi.sent).pending == [] && words == t0.words && readCommand == t0.ops.read
    modifies programmer, programmer.spi, programmer.endpoint
    ensures programmer.Idle() && Feed(t0, programmer.spi.sent) == old(Feed(t0, programmer.spi.sent))
    ensures programmer.endpoint.packets
         == old(programmer.endpoint.packets) + [[0x06, 0x00]]
            + Packetize([if words then 0x14 else 0x16, 0x00] + answer + [0x00])
    ensures Answered(Feed(t0, programmer.spi.sent), address, n, answer)
  {
    programmer.LoadAddress(address);
    ghost var sent := programmer.spi.sent;
    programmer.ReadMemory(words, n, readCommand);
    answer := Readings(AsDevice(t0), sent + ExtensionDue(address, true), words, readCommand, address, n);
    ReadBack(t0, sent, address, n);
  }

  /** Within its 64K addresses, an answer is the range of the memory from the place of the start. */
  lemma AnswerIsMemory(t: Target, start: dword, n: nat, answer: seq<byte>)
    requires Answered(t, start, n, answer) && WithinAddresses(t.words, start, n)
    requires var at := Place(t.words, start % 0x1_0000, false); at + n <= |t.memory|
    ensures var at := Place(t.words, start % 0x1_0000, false); answer == t.memory[at..at + n]
  {
    PlacesFollowOn(t.words, start, n);
  }

  /** What programming directly makes of a memory, and what reading back then says. */
  predicate RoundTrip(t: Target, start: dword, data: seq<byte>, status: byte, after: Target, answer: seq<byte>) {
    var at := Place(t.words, start % 0x1_0000, false);
    && Answered(after, start, |data|, answer)
    && (status == 0x00 && WithinAddresses(t.words, start, |data|) && at + |data| <= |t.memory| ==>
          && after == t.(memory := Written(t.words, t.memory, start, data))
          && (answer == data <==> Takes(t.words, t.memory, at, data))
          && (!t.words ==> answer == data))
  }

  /**
    Load, program in word or byte mode, load, read. If the programming says OK and the transfer stays within its 64K
    addresses, the host gets its data back exactly when it takes; from EEPROM always.
  */
  method ProgramThenReadDirectly(programmer: Programmer, p: ProgramParams, address: dword, data: seq<byte>,
                                 ghost t0: Target) returns (ghost status: byte, ghost answer: seq<byte>)
    requires programmer.Idle() && programmer.spi.device == AsDevice(t0)
    requires Feed(t0, programmer.spi.sent).pending == [] && Drives(p, t0) && |data| <= MAX_PROG_DATA
    modifies programmer, programmer.spi, programmer.endpoint, programmer.timer`remaining, programmer.timer`phase
    ensures programmer.Idle()
    ensures programmer.endpoint.packets
         == old(programmer.endpoint.packets) + [[0x06, 0x00]] + [[if p.flash then 0x13 else 0x15, status]]
            + [[0x06, 0x00]] + Packetize([if p.flash then 0x14 else 0x16, 0x00] + answer + [0x00])
    ensures RoundTrip(old(Feed(t0, programmer.spi.sent)), address, data, status, Feed(t0, programmer.spi.sent), answer)
  {
    ghost var t := Feed(t0, programmer.spi.sent);
    ghost var written;
    programmer.LoadAddress(address);
    status, written := ProgramDirectly(programmer, p, data, t0);
    answer := ReadDirectly(programmer, p.flash, p.readCommand, address, |data|, t0);
    FullSlice(data, written);
    AnswerToData(t, address, data, status, Feed(t0, programmer.spi.sent), answer);
  }

  lemma FullSlice(data: seq<byte>, n: nat)
    requires n <= |data|
    ensures n == |data| ==> data[..n] == data
  {}

  lemma AnswerToData(t: Target, start: dword, data: seq<byte>, status: byte, after: Target, answer: seq<byte>)
    requires Answered(after, start, |data|, answer)
    requires status == 0x00 ==> after == t.(memory := Written(t.words, t.memory, start, data))
    ensures RoundTrip(t, start, data, status, after, answer)
  {
    var at := Place(t.words, start % 0x1_0000, false);
    if status == 0x00 && WithinAddresses(t.words, start, |data|) && at + |data| <= |t.memory| {
      AnswerIsMemory(after, start, |data|, answer);
      HoldsIff(t.words, t.memory, start, data, at);
      if !t.words { EepromTakes(t.memory, at, data); }
    }
  }

  lemma CommandWrites(t0: Target, before: seq<byte>, p: ProgramParams, start: dword, due: bool, data: seq<byte>,
                      counts: seq<nat>)
    requires Feed(t0, before).pending == [] && Drives(p, t0) && |counts| <= |data|
    ensures var t := Feed(t0, before);
            Feed(t0, before + ExtensionDue(start, due) + WordTraffic(p, start, data, counts)) ==
              t.(memory := Written(t.words, t.memory, start, data[..|counts|]))
  {
    var t := Feed(t0, before);
    FeedConcat(t0, before, ExtensionDue(start, due));
    ExtensionHarmless(t, start, due);
    FeedConcat(t0, before + ExtensionDue(start, due), WordTraffic(p, start, data, counts));
    WordsWritten(t, p, start, data, counts);
  }
}
