/** What the programming and reading streams do to a target's memory, and the round trip through both. */
module IspRoundTrip {
  import opened Bits
  import opened Seqs
  import opened SpiBuses
  import opened SpiTarget
  import opened UsbPackets
  import opened Polling
  import opened IspStreams
  import opened IspProgrammer

  function Offset(t: Target, start: dword): nat
  {
    PageOffset(start % 0x1_0000, t.PageWords())
  }

  /** `n` bytes from the word address `start` stay within one page, and the page within its 64K words. */
  predicate InPage(t: Target, start: dword, n: nat)
  {
    var address := start % 0x1_0000;
    var offset := Offset(t, start);
    2 * offset + n <= 2 * t.PageWords() && address - offset + t.PageWords() <= 0x1_0000
  }

  /** The flash index of byte `i` of a transfer that starts at word address `start`. */
  function FlashIndex(t: Target, start: dword, i: nat): nat {
    t.ByteIndex(start % 0x1_0000, false) + i
  }

  lemma LoadOpcode(t: Target, i: nat)
    ensures var op := CommandAt(Toggling, true, t.ops.load, i);
            t.ops.IsLoad(op) && (op == t.ops.load <==> i % 2 == 0)
  {
    ToggleHighBit(t.ops.load);
  }

  lemma ReadOpcode(t: Target, i: nat)
    ensures var op := CommandAt(Toggling, true, t.ops.read, i);
            t.ops.IsRead(op) && (op == t.ops.read <==> i % 2 == 0) && Harmless(t.ops, op)
  {
    ToggleHighBit(t.ops.read);
    LoadReadApart(t.ops);
  }

  /** Without the high bit, two opcodes are not the same with one of them eight higher. */
  lemma LoadReadApart(ops: Opcodes)
    ensures !ops.IsLoad(ops.read) && !ops.IsLoad(ops.read + 8)
  {
    EightApart(ops.load, ops.read);
    EightApart(ops.read, ops.load);
  }

  lemma EightApart(a: byte, b: byte)
    requires !HighBit(a) && !HighBit(b)
    ensures a != b + 8
  {}

  /** The place of byte `i` of a transfer in the page buffer: the target only looks at the address within the page. */
  function BufferIndex(t: Target, start: dword, i: nat): (at: nat)
    ensures at < |t.buffer|
  {
    2 * PageOffset(AddressAt(true, start, i) % 0x1_0000, t.PageWords()) + i % 2
  }

  /** The page buffer after the writes of a transfer, wherever it starts and however long it is. */
  function Loaded(t: Target, start: dword, data: seq<byte>): (r: seq<byte>)
    ensures |r| == |t.buffer|
  {
    if data == [] then t.buffer
    else Loaded(t, start, data[..|data| - 1])[BufferIndex(t, start, |data| - 1) := data[|data| - 1]]
  }

  lemma LoadOne(t: Target, start: dword, i: nat, value: byte)
    requires t.pending == []
    ensures Feed(t, IspStreams.Instruction(CommandAt(Toggling, true, t.ops.load, i), AddressAt(true, start, i), value))
         == t.(buffer := t.buffer[BufferIndex(t, start, i) := value])
  {
    var op, x := CommandAt(Toggling, true, t.ops.load, i), AddressAt(true, start, i);
    InstructionEffect(t, op, x, value, x % 0x1_0000);
    LoadExecutes(t, start, i, value);
  }

  lemma LoadExecutes(t: Target, start: dword, i: nat, value: byte)
    ensures Execute(t, CommandAt(Toggling, true, t.ops.load, i), AddressAt(true, start, i) % 0x1_0000, value)
         == t.(buffer := t.buffer[BufferIndex(t, start, i) := value])
  {
    LoadOpcode(t, i);
    LoadEffect(t, CommandAt(Toggling, true, t.ops.load, i), AddressAt(true, start, i) % 0x1_0000, value);
  }

  /** The write stream loads the page buffer, and touches nothing else. */
  lemma {:induction false} PageLoads(t: Target, start: dword, data: seq<byte>)
    requires t.pending == []
    ensures Feed(t, WriteStream(Toggling, true, t.ops.load, start, data)) == t.(buffer := Loaded(t, start, data))
  {
    if data != [] {
      var i := |data| - 1;
      PageLoads(t, start, data[..i]);
      LoadOne(t.(buffer := Loaded(t, start, data[..i])), start, i, data[i]);
      FeedConcat(t, WriteStream(Toggling, true, t.ops.load, start, data[..i]),
                 IspStreams.Instruction(CommandAt(Toggling, true, t.ops.load, i), AddressAt(true, start, i), data[i]));
    }
  }

  /** Byte `i` of a page goes to its place in the page buffer: low half first, then high half. */
  lemma PageWrite(t: Target, start: dword, n: nat, i: nat, value: byte, at: nat)
    requires t.pending == [] && InPage(t, start, n) && i < n && at == 2 * Offset(t, start) + i
    ensures at < |t.buffer|
    ensures Feed(t, IspStreams.Instruction(CommandAt(Toggling, true, t.ops.load, i), AddressAt(true, start, i), value))
         == t.(buffer := t.buffer[at := value])
  {
    LoadOne(t, start, i, value);
    PageWriteIndex(t, start, n, i, at);
  }

  lemma PageWriteIndex(t: Target, start: dword, n: nat, i: nat, at: nat)
    requires InPage(t, start, n) && i < n && at == 2 * Offset(t, start) + i
    ensures at == BufferIndex(t, start, i)
  {
    PageWriteAddress(start, i, t.PageWords());
  }

  lemma PageWriteAddress(start: dword, i: nat, words: nat)
    requires words > 0
    requires var address := start % 0x1_0000;
             var offset := PageOffset(address, words);
             offset + i / 2 < words && address - offset + words <= 0x1_0000
    ensures PageOffset(AddressAt(true, start, i) % 0x1_0000, words)
         == PageOffset(start % 0x1_0000, words) + i / 2
  {
    Address16At(start, i);
    PageOffsetPlus(start % 0x1_0000, i / 2, words);
  }

  lemma LoadEffect(t: Target, op: byte, address: nat, value: byte)
    requires address < 0x1_0000 && t.ops.IsLoad(op)
    ensures 2 * PageOffset(address, t.PageWords()) + 1 < |t.buffer|
    ensures Execute(t, op, address, value)
         == t.(buffer := t.buffer[2 * PageOffset(address, t.PageWords())
                                  + (if op == t.ops.load then 0 else 1) := value])
  {}

  function Overwrite(s: seq<byte>, at: nat, data: seq<byte>): (r: seq<byte>)
    requires at + |data| <= |s|
    ensures |r| == |s|
    ensures forall j :: 0 <= j < |s| ==> r[j] == if at <= j < at + |data| then data[j - at] else s[j]
  {
    s[..at] + data + s[at + |data|..]
  }

  lemma OverwriteSnoc(s: seq<byte>, at: nat, data: seq<byte>, b: byte)
    requires at + |data| < |s|
    ensures Overwrite(s, at, data + [b]) == Overwrite(s, at, data)[at + |data| := b]
  {}

  /** Within a page the data comes to stand together. */
  lemma {:induction false} LoadedInPage(t: Target, start: dword, data: seq<byte>, n: nat)
    requires InPage(t, start, n) && |data| <= n
    ensures 2 * Offset(t, start) + |data| <= |t.buffer|
    ensures Loaded(t, start, data) == Overwrite(t.buffer, 2 * Offset(t, start), data)
  {
    var at := 2 * Offset(t, start);
    if data == [] {
      assert Overwrite(t.buffer, at, []) == t.buffer;
    } else {
      var i := |data| - 1;
      LoadedInPage(t, start, data[..i], n);
      PageWriteIndex(t, start, n, i, at + i);
      OverwriteSnoc(t.buffer, at, data[..i], data[i]);
      Snoc(data);
    }
  }

  /** The write stream of a page fills its part of the page buffer, and touches nothing else. */
  lemma PageWrites(t: Target, start: dword, data: seq<byte>)
    requires t.pending == [] && InPage(t, start, |data|)
    ensures 2 * Offset(t, start) + |data| <= |t.buffer|
    ensures Feed(t, WriteStream(Toggling, true, t.ops.load, start, data))
         == t.(buffer := Overwrite(t.buffer, 2 * Offset(t, start), data))
  {
    PageLoads(t, start, data);
    LoadedInPage(t, start, data, |data|);
  }

  /** The target is ready for a page: nothing pending, an erased page buffer, and erased flash where the data goes. */
  predicate ReadyFor(t: Target, start: dword, n: nat)
  {
    && t.pending == [] && t.buffer == Erased(|t.buffer|) && InPage(t, start, n)
    && FlashIndex(t, start, n) <= |t.flash|
    && forall i :: 0 <= i < n ==> t.flash[FlashIndex(t, start, i)] == 0xFF
  }

  /** What a transfer and its commit make of a target: the whole page buffer is and-ed into the page of `start`. */
  function Committed(t: Target, start: dword, data: seq<byte>): (r: Target)
    ensures r.ops == t.ops && |r.flash| == |t.flash| && |r.buffer| == |t.buffer|
    ensures r.pending == t.pending && r.extended == t.extended
  {
    t.(flash := Program(t.flash, t.PageStart(start % 0x1_0000), Loaded(t, start, data)), buffer := Erased(|t.buffer|))
  }

  lemma LoadAndCommit(t: Target, start: dword, data: seq<byte>)
    requires t.pending == []
    ensures Feed(Feed(t, WriteStream(Toggling, true, t.ops.load, start, data)),
                 IspStreams.Instruction(t.ops.commit, start % 0x1_0000, 0)) == Committed(t, start, data)
  {
    PageLoads(t, start, data);
    CommitBuffer(t, Loaded(t, start, data), start % 0x1_0000);
  }

  lemma CommitBuffer(t: Target, buffer: seq<byte>, address: word)
    requires t.pending == [] && |buffer| == |t.buffer|
    ensures Feed(t.(buffer := buffer), IspStreams.Instruction(t.ops.commit, address, 0))
         == t.(flash := Program(t.flash, t.PageStart(address), buffer), buffer := Erased(|t.buffer|))
  {
    CommitEffect(t.(buffer := buffer), address, 0);
    assert t.(buffer := buffer).PageWords() == t.PageWords();
  }

  /** A commit programs exactly the bytes of the page buffer that were written. */
  lemma CommitPrograms(t: Target, start: dword, data: seq<byte>)
    requires ReadyFor(t, start, |data|)
    ensures Committed(t, start, data) == t.(flash := Overwrite(t.flash, FlashIndex(t, start, 0), data))
  {
    LoadedInPage(t, start, data, |data|);
    ProgramErased(t, Overwrite(t.buffer, 2 * Offset(t, start), data), start, data);
  }

  lemma ProgramErased(t: Target, buffer: seq<byte>, start: dword, data: seq<byte>)
    requires ReadyFor(t, start, |data|)
    requires buffer == Overwrite(t.buffer, 2 * Offset(t, start), data)
    ensures Program(t.flash, t.PageStart(start % 0x1_0000), buffer) == Overwrite(t.flash, FlashIndex(t, start, 0), data)
  {
    var page, at := t.PageStart(start % 0x1_0000), FlashIndex(t, start, 0);
    assert at == page + 2 * Offset(t, start);
    forall j | at <= j < at + |data| ensures t.flash[j] == 0xFF {
      assert FlashIndex(t, start, j - at) == j;
    }
    ProgramIsOverwrite(t.flash, page, t.buffer, 2 * Offset(t, start), data);
  }

  /** And-ing an erased buffer with `data` in it into flash that is erased there just writes the data. */
  lemma ProgramIsOverwrite(flash: seq<byte>, page: nat, erased: seq<byte>, offset: nat, data: seq<byte>)
    requires erased == Erased(|erased|) && offset + |data| <= |erased| && page + offset + |data| <= |flash|
    requires forall j :: page + offset <= j < page + offset + |data| ==> flash[j] == 0xFF
    ensures Program(flash, page, Overwrite(erased, offset, data)) == Overwrite(flash, page + offset, data)
  {
    var buffer, expected := Overwrite(erased, offset, data), Overwrite(flash, page + offset, data);
    var programmed := Program(flash, page, buffer);
    forall i | 0 <= i < |flash| ensures programmed[i] == expected[i] {
      if page <= i < page + |buffer| {
        var k := i - page;
        if offset <= k < offset + |data| {
          AndErased(data[k - offset]);
        } else {
          AndErased(flash[i]);
        }
      }
    }
  }

  /** The extended address register after the start of a command. */
  function Extended(t: Target, address: dword, due: bool): Target {
    if due && address >= EXTENDED_FLAG then t.(extended := address / 0x1_0000 % 0x100) else t
  }

  lemma ExtensionSets(t: Target, address: dword, due: bool)
    requires t.pending == []
    ensures Feed(t, ExtensionDue(address, due)) == Extended(t, address, due)
  {
    if due && address >= EXTENDED_FLAG {
      ExtendEffect(t, address / 0x1_0000 % 0x100);
    }
  }

  /**
    With bit 31 set, an address names its word of flash in 24 bits, over all banks: byte `i` from there is at this
    place, however the address is split into extended address and instruction.
  */
  lemma FlashIndexIs(t: Target, address: dword, i: nat)
    requires address >= 0x8000_0000
    ensures FlashIndex(Extended(t, address, true), address, i) == 2 * (address % 0x100_0000) + i
  {
    var q, bank, word := address / 0x100_0000, address / 0x1_0000 % 0x100, address % 0x1_0000;
    assert address / 0x1_0000 == 0x100 * q + bank;
    assert address == 0x100_0000 * q + (0x1_0000 * bank + word);
    ModOfMultiple(0x100_0000, q, 0x1_0000 * bank + word);
  }

  /** Completion polling leaves the target as it is, when the read command is the target's. */
  lemma ChecksHarmless(t: Target, check: Check, c: byte, address: word, polls: nat)
    requires t.pending == [] && t.ops.IsRead(c)
    ensures Feed(t, CheckTraffic(check, c, address, polls)) == t
  {
    LoadReadApart(t.ops);
    match check {
      case ValuePoll => PollsHarmless(t, c, HighByte(address), LowByte(address), 0, polls);
      case BusyPolling => PollsHarmless(t, POLL_BUSY_CMD, 0, 0, 0, polls);
      case _ =>
    }
  }

  lemma {:induction false} PollCommandReads(t: Target, start: dword, data: seq<byte>, pollValue: byte)
    ensures t.ops.IsRead(PollScan(true, start, data, pollValue, t.ops.read).1)
  {
    if data != [] {
      PollCommandReads(t, start, data[..|data| - 1], pollValue);
      ReadStaysRead(t.ops);
    }
  }

  lemma ReadStaysRead(ops: Opcodes)
    ensures SetHigh(ops.read) == ops.read + 8 && SetHigh(ops.read + 8) == ops.read + 8
  {
    SetHighBit(ops.read);
    SetOrClear(ops.read);
  }

  /** The host drives this target: its own opcodes, flash, paged writes and a commit. */
  predicate Drives(p: ProgramParams, t: Target) {
    && p.flash && p.Paged() && p.Commits()
    && p.writeCommand == t.ops.load && p.commitCommand == t.ops.commit && p.readCommand == t.ops.read
  }

  /**
    Paged flash programming with a commit, for any target, start address and data. Completion checks leave the target
    as it is, however often they poll.
  */
  lemma PagePrograms(t: Target, p: ProgramParams, start: dword, due: bool, data: seq<byte>, polls: nat)
    requires t.pending == [] && Drives(p, t)
    ensures Feed(t, PagedTraffic(p, start, due, data, polls)) == Committed(Extended(t, start, due), start, data)
  {
    var e := Extended(t, start, due);
    var extension, writes := ExtensionDue(start, due), WriteStream(Toggling, true, p.writeCommand, start, data);
    var commit := IspStreams.Instruction(p.commitCommand, start % 0x1_0000, 0);
    var (address, c) := PollScan(true, start, data, p.pollValue, p.readCommand);
    var checks := CheckTraffic(CheckOf(CommitMode(p.mode, address)), c, address, polls);
    ExtensionSets(t, start, due);
    FeedConcat(t, extension, writes);
    LoadAndCommit(e, start, data);
    FeedConcat(t, extension + writes, commit + checks);
    FeedConcat(Feed(t, extension + writes), commit, checks);
    PollCommandReads(t, start, data, p.pollValue);
    ChecksHarmless(Committed(e, start, data), CheckOf(CommitMode(p.mode, address)), c, address, polls);
  }

  /**
    On a target that is ready for it, the flash ends up with exactly the data, byte `i` in the low or high half of
    word `start + i / 2` by its parity, and with every other byte of every page as it was.
  */
  lemma PageProgrammed(t: Target, p: ProgramParams, start: dword, due: bool, data: seq<byte>, polls: nat)
    requires t.pending == [] && Drives(p, t)
    requires ReadyFor(Extended(t, start, due), start, |data|)
    ensures var e := Extended(t, start, due);
            Feed(t, PagedTraffic(p, start, due, data, polls)) ==
              e.(flash := Overwrite(t.flash, FlashIndex(e, start, 0), data))
  {
    PagePrograms(t, p, start, due, data, polls);
    CommitPrograms(Extended(t, start, due), start, data);
  }

  /** Programming only clears bits: the data takes if the flash has ones wherever the data has. */
  predicate Takes(t: Target, start: dword, data: seq<byte>)
    requires FlashIndex(t, start, |data|) <= |t.flash|
  {
    forall i :: 0 <= i < |data| ==> And(t.flash[FlashIndex(t, start, i)], data[i]) == data[i]
  }

  /** Within a page, each byte of the data is and-ed into its own byte of flash. */
  lemma CommittedAt(t: Target, start: dword, data: seq<byte>, i: nat)
    requires InPage(t, start, |data|) && FlashIndex(t, start, |data|) <= |t.flash| && i < |data|
    ensures Committed(t, start, data).flash[FlashIndex(t, start, i)] == And(t.flash[FlashIndex(t, start, i)], data[i])
  {
    LoadedByte(t, start, data, i);
    PlaceInPage(t, start, i);
    ProgramOne(t.flash, t.PageStart(start % 0x1_0000), Loaded(t, start, data), 2 * Offset(t, start) + i);
    CommittedFlash(t, start, data);
  }

  lemma CommittedFlash(t: Target, start: dword, data: seq<byte>)
    ensures Committed(t, start, data).flash == Program(t.flash, t.PageStart(start % 0x1_0000), Loaded(t, start, data))
  {}

  lemma LoadedByte(t: Target, start: dword, data: seq<byte>, i: nat)
    requires InPage(t, start, |data|) && i < |data|
    ensures 2 * Offset(t, start) + i < |t.buffer|
    ensures Loaded(t, start, data)[2 * Offset(t, start) + i] == data[i]
  {
    LoadedInPage(t, start, data, |data|);
  }

  lemma PlaceInPage(t: Target, start: dword, i: nat)
    ensures FlashIndex(t, start, i) == t.PageStart(start % 0x1_0000) + (2 * Offset(t, start) + i)
  {}

  lemma ProgramOne(flash: seq<byte>, page: nat, buffer: seq<byte>, k: nat)
    requires k < |buffer| && page + k < |flash|
    ensures Program(flash, page, buffer)[page + k] == And(flash[page + k], buffer[k])
  {}

  /** The flash holds the data afterwards exactly when it takes. */
  lemma HoldsIffTakes(t: Target, start: dword, data: seq<byte>)
    requires InPage(t, start, |data|) && FlashIndex(t, start, |data|) <= |t.flash|
    ensures Committed(t, start, data).flash[FlashIndex(t, start, 0)..FlashIndex(t, start, |data|)] == data
       <==> Takes(t, start, data)
  {
    var at := FlashIndex(t, start, 0);
    var held := Committed(t, start, data).flash[at..at + |data|];
    forall i | 0 <= i < |data| ensures held[i] == And(t.flash[FlashIndex(t, start, i)], data[i]) {
      CommittedAt(t, start, data, i);
      assert FlashIndex(t, start, i) == at + i;
    }
  }

  lemma ReadyTakes(t: Target, start: dword, data: seq<byte>)
    requires ReadyFor(t, start, |data|)
    ensures Takes(t, start, data)
  {
    forall i | 0 <= i < |data| ensures And(t.flash[FlashIndex(t, start, i)], data[i]) == data[i] {
      AndErased(data[i]);
    }
  }

  // ----- Reading -----

  lemma {:induction false} ReadingsHarmless(t: Target, start: dword, n: nat)
    requires t.pending == []
    ensures Feed(t, ReadStream(Toggling, true, t.ops.read, start, n)) == t
  {
    if n > 0 {
      var x := AddressAt(true, start, n - 1);
      ReadingsHarmless(t, start, n - 1);
      ReadHarmless(t, n - 1, x);
      HarmlessConcat(t, ReadStream(Toggling, true, t.ops.read, start, n - 1),
                     IspStreams.Instruction(CommandAt(Toggling, true, t.ops.read, n - 1), x, 0));
    }
  }

  lemma HarmlessConcat(t: Target, a: seq<byte>, b: seq<byte>)
    requires Feed(t, a) == t && Feed(t, b) == t
    ensures Feed(t, a + b) == t
  {
    FeedConcat(t, a, b);
  }

  lemma ReadHarmless(t: Target, i: nat, x: nat)
    requires t.pending == []
    ensures Feed(t, IspStreams.Instruction(CommandAt(Toggling, true, t.ops.read, i), x, 0)) == t
  {
    ReadOpcode(t, i);
    HarmlessEffect(t, CommandAt(Toggling, true, t.ops.read, i), x, 0);
  }

  /** The flash byte that the `i`th read instruction of a transfer addresses: 16 bits of address, in one bank. */
  function ByteRead(t: Target, start: dword, i: nat): nat {
    t.ByteIndex(AddressAt(true, start, i) % 0x1_0000, i % 2 == 1)
  }

  function FlashAt(t: Target, i: nat): byte { if i < |t.flash| then t.flash[i] else 0 }

  /** What the target answers to it, wherever the transfer started. */
  lemma ReadingAnswer(t0: Target, before: seq<byte>, t: Target, start: dword, i: nat)
    requires Feed(t0, before) == t && t.pending == []
    ensures Reading(AsDevice(t0), before, true, t.ops.read, start, i) == FlashAt(t, ByteRead(t, start, i))
  {
    var op, x := CommandAt(Toggling, true, t.ops.read, i), AddressAt(true, start, i);
    var stream := ReadStream(Toggling, true, t.ops.read, start, i);
    Assoc(before, stream, IspStreams.Instruction(op, x, 0));
    FeedConcat(t0, before, stream);
    ReadingsHarmless(t, start, i);
    AnswerAfter(t0, before + stream, op, x);
    ReadOpcode(t, i);
  }

  /** The answer to reading byte `i` is that byte of flash. */
  lemma ReadingIsFlash(t0: Target, before: seq<byte>, t: Target, start: dword, i: nat, at: nat)
    requires Feed(t0, before) == t && t.pending == [] && at == FlashIndex(t, start, i)
    requires start % 0x1_0000 + i / 2 < 0x1_0000 && at < |t.flash|
    ensures Reading(AsDevice(t0), before, true, t.ops.read, start, i) == t.flash[at]
  {
    ReadingAnswer(t0, before, t, start, i);
    WithinBorder(t, start, i);
  }

  lemma WithinBorder(t: Target, start: dword, i: nat)
    requires start % 0x1_0000 + i / 2 < 0x1_0000
    ensures ByteRead(t, start, i) == FlashIndex(t, start, i)
  {
    Address16At(start, i);
    Halved(i);
  }

  lemma Halved(i: nat)
    ensures i == 2 * (i / 2) + i % 2
  {}

  /** The answer to an instruction sent at an instruction boundary. */
  lemma AnswerAfter(t0: Target, sent: seq<byte>, op: byte, x: nat)
    requires Feed(t0, sent).pending == []
    ensures Reply(t0, sent + IspStreams.Instruction(op, x, 0)) == Result(Feed(t0, sent), op, x % 0x1_0000)
  {
    var three := [op, HighByte(x), LowByte(x)];
    FourFromThree(sent, op, HighByte(x), LowByte(x), 0);
    DeviceAnswers(t0, sent + three, 0);
    FeedConcat(t0, sent, three);
    InstructionAnswer(Feed(t0, sent), op, x);
  }

  /** Reading any range within 64K words returns the flash bytes there, low half before high half. */
  lemma ReadingsAreFlash(t0: Target, before: seq<byte>, t: Target, start: dword, n: nat, at: nat)
    requires Feed(t0, before) == t && t.pending == [] && at == FlashIndex(t, start, 0)
    requires 2 * (start % 0x1_0000) + n <= 0x2_0000 && at + n <= |t.flash|
    ensures Readings(AsDevice(t0), before, true, t.ops.read, start, n) == t.flash[at..at + n]
  {
    forall i | 0 <= i < n ensures Reading(AsDevice(t0), before, true, t.ops.read, start, i) == t.flash[at + i] {
      ReadingIsFlash(t0, before, t, start, i, at + i);
    }
    ReadingsCollect(AsDevice(t0), before, t.ops.read, start, n, t.flash, at);
  }

  lemma {:induction false} ReadingsCollect(device: Device, before: seq<byte>, command: byte, start: dword, n: nat,
                                           flash: seq<byte>, at: nat)
    requires at + n <= |flash|
    requires forall i :: 0 <= i < n ==> Reading(device, before, true, command, start, i) == flash[at + i]
    ensures Readings(device, before, true, command, start, n) == flash[at..at + n]
  {
    if n > 0 {
      ReadingsCollect(device, before, command, start, n - 1, flash, at);
      SliceSnoc(flash, at, at + n - 1);
      assert Reading(device, before, true, command, start, n - 1) == flash[at + (n - 1)];
    }
  }

  // ----- Value polling against the memory -----

  /** One value poll reads the flash byte in the half of its word that the read command names. */
  lemma PollAnswer(t0: Target, sent: seq<byte>, t: Target, c: byte, address: word)
    requires Feed(t0, sent) == t && t.pending == [] && t.ops.IsRead(c)
    ensures Reply(t0, sent + ReadPoll(c, address)) == FlashAt(t, t.ByteIndex(address, HighBit(c)))
  {
    PollResult(t0, sent, t, c, address);
    ReadResult(t, c, address);
  }

  lemma PollResult(t0: Target, sent: seq<byte>, t: Target, c: byte, address: word)
    requires Feed(t0, sent) == t && t.pending == []
    ensures Reply(t0, sent + ReadPoll(c, address)) == Result(t, c, address)
  {
    AnswerAfter(t0, sent, c, address);
    assert address % 0x1_0000 == address;
  }

  lemma ReadResult(t: Target, c: byte, address: nat)
    requires t.ops.IsRead(c)
    ensures Result(t, c, address) == FlashAt(t, t.ByteIndex(address, HighBit(c)))
  {
    HalfOf(t.ops, c);
  }

  /** The target and the host agree on what bit 3 of a read command means. */
  lemma HalfOf(ops: Opcodes, c: byte)
    requires ops.IsRead(c)
    ensures HighBit(c) <==> c != ops.read
  {
    HighBitValues(ops.read);
  }

  lemma PolledPlace(t: Target, start: dword, k: nat, c: byte, address: word)
    requires address == start % 0x1_0000 + k / 2
    ensures t.ByteIndex(address, HighBit(c)) == FlashIndex(t, start, Polled(k, c))
  {
    Halved(k);
  }

  /** Any number of polls gets the same answer. */
  lemma PollsRead(t0: Target, sent: seq<byte>, t: Target, c: byte, address: word, polls: nat)
    requires Feed(t0, sent) == t && t.pending == [] && t.ops.IsRead(c) && polls > 0
    ensures Reply(t0, sent + Repeat(ReadPoll(c, address), polls)) == FlashAt(t, t.ByteIndex(address, HighBit(c)))
  {
    var earlier := Repeat(ReadPoll(c, address), polls - 1);
    FeedConcat(t0, sent, earlier);
    LoadReadApart(t0.ops);
    PollsHarmless(t, c, HighByte(address), LowByte(address), 0, polls - 1);
    Assoc(sent, earlier, ReadPoll(c, address));
    PollAnswer(t0, sent + earlier, t, c, address);
  }

  lemma AddressWithin(start: dword, k: nat)
    requires start % 0x1_0000 + k / 2 < 0x1_0000
    ensures (start as int + k / 2) % 0x1_0000 == start % 0x1_0000 + k / 2
  {
    Address16Value(true, start, k);
    Address16At(start, k);
  }

  /**
    The value polling that follows a commit reads, in the flash as programmed, the byte in the word of the chosen one
    that the half of the poll command names; `k` is the chosen byte.
  */
  lemma PollSeesFlash(t0: Target, before: seq<byte>, p: ProgramParams, start: dword, due: bool, data: seq<byte>,
                      polls: nat, k: nat)
    requires Feed(t0, before).pending == [] && Drives(p, t0) && polls > 0
    requires Chosen(true, start, data, p.pollValue, k) && PageCheck(p, start, data) == ValuePoll
    requires start % 0x1_0000 + k / 2 < 0x1_0000
    ensures var r := Committed(Extended(Feed(t0, before), start, due), start, data);
            var c := PollScan(true, start, data, p.pollValue, p.readCommand).1;
            Reply(t0, before + PagedTraffic(p, start, due, data, polls))
            == FlashAt(r, FlashIndex(r, start, Polled(k, c)))
  {
    var t, target := Feed(t0, before), PollScan(true, start, data, p.pollValue, p.readCommand);
    var front := ExtensionDue(start, due) + WriteStream(Toggling, true, p.writeCommand, start, data);
    var commit := IspStreams.Instruction(p.commitCommand, start % 0x1_0000, 0);
    var checks := Repeat(ReadPoll(target.1, target.0), polls);
    ChosenTarget(start, data, p.pollValue, p.readCommand, k);
    PollCommandReads(t, start, data, p.pollValue);
    ToTheCommit(t, p, start, due, data);
    FeedConcat(t0, before, front + commit);
    Regroup(before, front, commit, checks);
    var r := Committed(Extended(t, start, due), start, data);
    PollsRead(t0, before + (front + commit), r, target.1, target.0, polls);
    AddressWithin(start, k);
    PolledPlace(r, start, k, target.1, target.0);
  }

  lemma Regroup(a: seq<byte>, b: seq<byte>, c: seq<byte>, d: seq<byte>)
    ensures a + (b + (c + d)) == a + (b + c) + d
  {
    Assoc(b, c, d);
    Assoc(a, b + c, d);
  }

  lemma ToTheCommit(t: Target, p: ProgramParams, start: dword, due: bool, data: seq<byte>)
    requires t.pending == [] && Drives(p, t)
    ensures Feed(t, ExtensionDue(start, due) + WriteStream(Toggling, true, p.writeCommand, start, data)
                    + IspStreams.Instruction(p.commitCommand, start % 0x1_0000, 0))
         == Committed(Extended(t, start, due), start, data)
  {
    var extension, writes := ExtensionDue(start, due), WriteStream(Toggling, true, p.writeCommand, start, data);
    ExtensionSets(t, start, due);
    FeedConcat(t, extension, writes);
    FeedConcat(t, extension + writes, IspStreams.Instruction(p.commitCommand, start % 0x1_0000, 0));
    LoadAndCommit(Extended(t, start, due), start, data);
  }

  /** On a target that was ready, that is a byte of the data itself, if the word has it. */
  lemma PollSeesData(t0: Target, before: seq<byte>, p: ProgramParams, start: dword, due: bool, data: seq<byte>,
                     polls: nat, k: nat)
    requires Feed(t0, before).pending == [] && Drives(p, t0) && polls > 0
    requires Chosen(true, start, data, p.pollValue, k) && PageCheck(p, start, data) == ValuePoll
    requires ReadyFor(Extended(Feed(t0, before), start, due), start, |data|)
    ensures var c := PollScan(true, start, data, p.pollValue, p.readCommand).1;
            Polled(k, c) < |data| ==>
              Reply(t0, before + PagedTraffic(p, start, due, data, polls)) == data[Polled(k, c)]
  {
    var e := Extended(Feed(t0, before), start, due);
    var c := PollScan(true, start, data, p.pollValue, p.readCommand).1;
    PageWithinBank(e, start, |data|);
    InBank(start, |data|, k);
    PollSeesFlash(t0, before, p, start, due, data, polls, k);
    CommitPrograms(e, start, data);
    if Polled(k, c) < |data| { OverwrittenAt(e, start, data, Polled(k, c)); }
  }

  lemma OverwrittenAt(e: Target, start: dword, data: seq<byte>, i: nat)
    requires FlashIndex(e, start, |data|) <= |e.flash| && i < |data|
    ensures var r := e.(flash := Overwrite(e.flash, FlashIndex(e, start, 0), data));
            FlashAt(r, FlashIndex(r, start, i)) == data[i]
  {
    var r := e.(flash := Overwrite(e.flash, FlashIndex(e, start, 0), data));
    SamePlace(e, r, start, i);
  }

  /**
    So value polling can end well exactly when PollsDifferingIff says so: an OK reports a byte of the data that differs
    from the poll value.
  */
  lemma PollPassesIff(t0: Target, before: seq<byte>, p: ProgramParams, start: dword, due: bool, data: seq<byte>,
                      polls: nat, k: nat)
    requires Feed(t0, before).pending == [] && Drives(p, t0) && polls > 0
    requires Chosen(true, start, data, p.pollValue, k) && PageCheck(p, start, data) == ValuePoll
    requires ReadyFor(Extended(Feed(t0, before), start, due), start, |data|) && |data| % 2 == 0
    ensures Passes(ValuePoll, p.pollValue, Reply(t0, before + PagedTraffic(p, start, due, data, polls))) <==>
              (k % 2 == 1 || (!HighBit(p.readCommand) && !OddDiffers(data, p.pollValue, k))
               || (k + 1 < |data| && data[k + 1] != p.pollValue))
  {
    PollSeesData(t0, before, p, start, due, data, polls, k);
    PollsDifferingIff(start, data, p.pollValue, p.readCommand, k);
    WholeWord(|data|, k, PollScan(true, start, data, p.pollValue, p.readCommand).1);
  }

  lemma WholeWord(n: nat, k: nat, c: byte)
    requires n % 2 == 0 && k < n
    ensures Polled(k, c) < n
  {}

  // ----- The 64K-word border -----

  function WithFlash(t: Target, flash: seq<byte>): Target { t.(flash := flash) }

  /** What the target answers to a read of `n` bytes. */
  function ReadFrom(t: Target, start: dword, n: nat): (s: seq<byte>)
    ensures |s| == n
  {
    Readings(AsDevice(t), [], true, t.ops.read, start, n)
  }

  /** With this flash, a read of `n` bytes returns those from `at` on. */
  predicate ReadsConsecutive(t: Target, flash: seq<byte>, start: dword, at: nat, n: nat)
    requires at + n <= |flash|
  {
    ReadFrom(WithFlash(t, flash), start, n) == flash[at..at + n]
  }

  /**
    A read returns consecutive bytes, whatever the flash holds, exactly when it does not run past its 64K words: the
    address runs on, but the extended register is not renewed.
  */
  lemma ConsecutiveIff(t: Target, start: dword, at: nat, n: nat)
    requires t.pending == [] && at == FlashIndex(t, start, 0) && at + n <= |t.flash|
    ensures (forall flash: seq<byte> :: |flash| == |t.flash| ==> ReadsConsecutive(t, flash, start, at, n))
       <==> n == 0 || start % 0x1_0000 + (n - 1) / 2 < 0x1_0000
  {
    if n > 0 && start % 0x1_0000 + (n - 1) / 2 >= 0x1_0000 {
      RunsPast(t, start, at, n);
    } else {
      forall flash: seq<byte> | |flash| == |t.flash| ensures ReadsConsecutive(t, flash, start, at, n) {
        ReadsWithin(t, flash, start, at, n);
      }
    }
  }

  lemma ReadsWithin(t: Target, flash: seq<byte>, start: dword, at: nat, n: nat)
    requires t.pending == [] && at == FlashIndex(t, start, 0) && at + n <= |flash|
    requires n == 0 || start % 0x1_0000 + (n - 1) / 2 < 0x1_0000
    ensures ReadsConsecutive(t, flash, start, at, n)
  {
    var u := WithFlash(t, flash);
    BorderBytes(start % 0x1_0000, n);
    SamePlace(t, u, start, 0);
    ReadingsAreFlash(u, [], u, start, n, at);
  }

  lemma BorderBytes(address: word, n: nat)
    requires n == 0 || address + (n - 1) / 2 < 0x1_0000
    ensures 2 * address + n <= 0x2_0000
  {}

  /** Places in flash depend on the extended register alone. */
  lemma SamePlace(t: Target, u: Target, start: dword, i: nat)
    requires t.extended == u.extended
    ensures FlashIndex(u, start, i) == FlashIndex(t, start, i) == FlashIndex(t, start, 0) + i
    ensures ByteRead(u, start, i) == ByteRead(t, start, i)
  {}

  /** The first byte past the border comes from the start of the 64K words again. */
  lemma RunsPast(t: Target, start: dword, at: nat, n: nat)
    requires t.pending == [] && at == FlashIndex(t, start, 0) && at + n <= |t.flash|
    requires n > 0 && start % 0x1_0000 + (n - 1) / 2 >= 0x1_0000
    ensures exists flash: seq<byte> :: |flash| == |t.flash| && !ReadsConsecutive(t, flash, start, at, n)
  {
    var i := 2 * (0x1_0000 - start % 0x1_0000);
    BeyondBorder(t, start, n, i);
    WrongByte(t, OneAt(|t.flash|, at + i), start, at, n, i);
  }

  /** One byte that comes from elsewhere and differs. */
  lemma WrongByte(t: Target, flash: seq<byte>, start: dword, at: nat, n: nat, i: nat)
    requires t.pending == [] && at + n <= |flash| && i < n
    requires ByteRead(t, start, i) < |flash| && flash[ByteRead(t, start, i)] != flash[at + i]
    ensures !ReadsConsecutive(t, flash, start, at, n)
  {
    var u := WithFlash(t, flash);
    ReadingAnswer(u, [], u, start, i);
    ReadingsAt(AsDevice(u), [], true, t.ops.read, start, n, i);
    SamePlace(t, u, start, i);
    DifferentAt(ReadFrom(u, start, n), flash, at, n, i);
  }

  function OneAt(n: nat, k: nat): (s: seq<byte>)
    ensures |s| == n && forall j :: 0 <= j < n ==> s[j] == if j == k then 1 else 0
  {
    seq(n, j => if j == k then 1 as byte else 0)
  }

  lemma DifferentAt(s: seq<byte>, flash: seq<byte>, at: nat, n: nat, i: nat)
    requires |s| == n && at + n <= |flash| && i < n && s[i] != flash[at + i]
    ensures s != flash[at..at + n]
  {
    assert flash[at..at + n][i] == flash[at + i];
  }

  lemma BeyondBorder(t: Target, start: dword, n: nat, i: nat)
    requires n > 0 && start % 0x1_0000 + (n - 1) / 2 >= 0x1_0000 && i == 2 * (0x1_0000 - start % 0x1_0000)
    ensures i < n && ByteRead(t, start, i) < FlashIndex(t, start, 0) + i
  {
    WrapsToZero(start, i);
    Halved(n - 1);
  }

  lemma WrapsToZero(start: dword, i: nat)
    requires i == 2 * (0x1_0000 - start % 0x1_0000)
    ensures AddressAt(true, start, i) % 0x1_0000 == 0
  {
    var bank := start / 0x1_0000;
    assert start as int + i / 2 == 0x1_0000 * (bank + 1);
  }

  // ----- The round trip -----

  /**
    Program, load the same address again, read; on any target, at any address. The first command makes of the target
    what `Committed` says. The second leaves it so, and the host gets `answer`. If the transfer stays within a page,
    `answer` is the data exactly when the data takes, and on a target that was ready all other bytes are as before.
  */
  method ProgramThenRead(programmer: Programmer, p: ProgramParams, address: dword, data: seq<byte>, ghost t0: Target)
    returns (ghost status: byte, ghost answer: seq<byte>)
    requires programmer.Idle() && programmer.spi.device == AsDevice(t0)
    requires Feed(t0, programmer.spi.sent).pending == [] && Drives(p, t0)
    requires |data| <= MAX_PROG_DATA
    modifies programmer, programmer.spi, programmer.endpoint, programmer.timer`remaining, programmer.timer`phase
    ensures programmer.Idle() && programmer.currentAddress == AddressAt(true, address, |data|)
    ensures programmer.endpoint.packets
         == old(programmer.endpoint.packets) + LoadReply() + [[0x13, status]]
            + LoadReply() + ReadReply(answer)
    ensures RoundTrip(Extended(old(Feed(t0, programmer.spi.sent)), address, true), address, data,
                      Feed(t0, programmer.spi.sent), answer)
  {
    ghost var t := Feed(t0, programmer.spi.sent);
    ghost var r := Committed(Extended(t, address, true), address, data);
    ExtendedTwice(t, address, data);
    status := ProgramAt(programmer, p, address, data, t0);
    assert Feed(t0, programmer.spi.sent) == r;
    answer := ReadAt(programmer, p, address, |data|, t0);
    CommittedAnswer(Extended(t, address, true), address, data, Feed(t0, programmer.spi.sent), answer);
  }

  /** The second command may send the extended address again; it is the same. */
  lemma ExtendedTwice(t: Target, address: dword, data: seq<byte>)
    ensures var r := Committed(Extended(t, address, true), address, data);
            Extended(r, address, true) == r && r.pending == t.pending
  {}

  /** What programming makes of a target `e`, and what reading back then says. */
  predicate RoundTrip(e: Target, start: dword, data: seq<byte>, after: Target, answer: seq<byte>) {
    && after == Committed(e, start, data)
    && Answered(after, start, |data|, answer)
    && (InPage(e, start, |data|) && FlashIndex(e, start, |data|) <= |e.flash| ==>
          (answer == data <==> Takes(e, start, data)))
    && (ReadyFor(e, start, |data|) ==>
          answer == data && after == e.(flash := Overwrite(e.flash, FlashIndex(e, start, 0), data)))
  }

  lemma CommittedAnswer(e: Target, address: dword, data: seq<byte>, after: Target, answer: seq<byte>)
    requires after == Committed(e, address, data) && Answered(after, address, |data|, answer)
    ensures RoundTrip(e, address, data, after, answer)
  {
    if InPage(e, address, |data|) && FlashIndex(e, address, |data|) <= |e.flash| {
      AnswerInPage(e, address, data, answer);
    }
    if ReadyFor(e, address, |data|) {
      CommitPrograms(e, address, data);
      ReadyTakes(e, address, data);
    }
  }

  /** An answer to a read: the flash byte that each of its instructions addresses. */
  predicate Answered(t: Target, start: dword, n: nat, answer: seq<byte>) {
    |answer| == n && forall i :: 0 <= i < n ==> answer[i] == FlashAt(t, ByteRead(t, start, i))
  }

  lemma AnswerInPage(e: Target, start: dword, data: seq<byte>, answer: seq<byte>)
    requires InPage(e, start, |data|) && FlashIndex(e, start, |data|) <= |e.flash|
    requires Answered(Committed(e, start, data), start, |data|, answer)
    ensures answer == data <==> Takes(e, start, data)
  {
    var r := Committed(e, start, data);
    HoldsIffTakes(e, start, data);
    SamePlace(e, r, start, 0);
    SamePlace(e, r, start, |data|);
    SamePages(e, r, start, |data|);
    AnswerIsHeld(r, start, |data|, answer);
  }

  lemma SamePages(t: Target, u: Target, start: dword, n: nat)
    requires |t.buffer| == |u.buffer|
    ensures InPage(t, start, n) <==> InPage(u, start, n)
  {
    assert t.PageWords() == u.PageWords();
  }

  lemma AnswerIsHeld(r: Target, start: dword, n: nat, answer: seq<byte>)
    requires InPage(r, start, n) && FlashIndex(r, start, n) <= |r.flash| && Answered(r, start, n, answer)
    ensures answer == r.flash[FlashIndex(r, start, 0)..FlashIndex(r, start, n)]
  {
    var at := FlashIndex(r, start, 0);
    PageWithinBank(r, start, n);
    forall i | 0 <= i < n ensures answer[i] == r.flash[at + i] {
      InBank(start, n, i);
      WithinBorder(r, start, i);
    }
  }

  /** The first half: load the address, program. */
  method ProgramAt(programmer: Programmer, p: ProgramParams, address: dword, data: seq<byte>, ghost t0: Target)
    returns (ghost status: byte)
    requires programmer.Idle()
    requires Feed(t0, programmer.spi.sent).pending == [] && Drives(p, t0) && |data| <= MAX_PROG_DATA
    modifies programmer, programmer.spi, programmer.endpoint, programmer.timer`remaining, programmer.timer`phase
    ensures programmer.Idle()
    ensures programmer.endpoint.packets
         == old(programmer.endpoint.packets) + LoadReply() + [[0x13, status]]
    ensures Feed(t0, programmer.spi.sent)
         == Committed(Extended(old(Feed(t0, programmer.spi.sent)), address, true), address, data)
  {
    ghost var before := programmer.spi.sent;
    programmer.LoadAddress(address);
    ghost var counts;
    status, counts := programmer.ProgramMemory(p, data);
    FeedConcat(t0, before, PagedTraffic(p, address, true, data, counts[0]));
    PagePrograms(Feed(t0, before), p, address, true, data, counts[0]);
  }

  /** The second half: load the address again, read. */
  method ReadAt(programmer: Programmer, p: ProgramParams, address: dword, n: word, ghost t0: Target)
    returns (ghost answer: seq<byte>)
    requires programmer.Idle() && programmer.spi.device == AsDevice(t0)
    requires Drives(p, t0) && Feed(t0, programmer.spi.sent).pending == []
    modifies programmer, programmer.spi, programmer.endpoint
    ensures programmer.Idle() && programmer.currentAddress == AddressAt(true, address, n)
    ensures Feed(t0, programmer.spi.sent) == Extended(old(Feed(t0, programmer.spi.sent)), address, true)
    ensures programmer.endpoint.packets == old(programmer.endpoint.packets) + LoadReply() + ReadReply(answer)
    ensures Answered(Feed(t0, programmer.spi.sent), address, n, answer)
  {
    programmer.LoadAddress(address);
    ghost var sent := programmer.spi.sent;
    programmer.ReadMemory(true, n, p.readCommand);
    answer := Readings(AsDevice(t0), sent + ExtensionDue(address, true), true, p.readCommand, address, n);
    ReadBack(t0, sent, address, n);
  }

  /** What the host gets for loading an address, and for reading. */
  function LoadReply(): seq<seq<byte>> { [[0x06, 0x00]] }

  function ReadReply(answer: seq<byte>): seq<seq<byte>> {
    Packetize([0x14, 0x00] + answer + [0x00])
  }

  /** The extended address goes out, if it is due, and then the read instructions, which change nothing. */
  lemma ReadBack(t0: Target, sent: seq<byte>, address: dword, n: nat)
    requires Feed(t0, sent).pending == []
    ensures var extension, r := ExtensionDue(address, true), Extended(Feed(t0, sent), address, true);
            && Feed(t0, sent + extension + ReadStream(Toggling, true, t0.ops.read, address, n)) == r
            && Answered(r, address, n, Readings(AsDevice(t0), sent + extension, true, t0.ops.read, address, n))
  {
    var extension := ExtensionDue(address, true);
    FeedConcat(t0, sent, extension);
    ExtensionSets(Feed(t0, sent), address, true);
    ReadLeaves(t0, sent + extension, address, n);
    ReadingsAnswer(t0, sent + extension, Feed(t0, sent + extension), address, n);
  }

  lemma ReadLeaves(t0: Target, sent: seq<byte>, address: dword, n: nat)
    requires Feed(t0, sent).pending == []
    ensures Feed(t0, sent + ReadStream(Toggling, true, t0.ops.read, address, n)) == Feed(t0, sent)
  {
    FeedConcat(t0, sent, ReadStream(Toggling, true, t0.ops.read, address, n));
    ReadingsHarmless(Feed(t0, sent), address, n);
  }

  lemma ReadingsAnswer(t0: Target, before: seq<byte>, r: Target, address: dword, n: nat)
    requires Feed(t0, before) == r && r.pending == []
    ensures Answered(r, address, n, Readings(AsDevice(t0), before, true, r.ops.read, address, n))
  {
    var answer := Readings(AsDevice(t0), before, true, r.ops.read, address, n);
    forall i | 0 <= i < n ensures answer[i] == FlashAt(r, ByteRead(r, address, i)) {
      ReadingsAt(AsDevice(t0), before, true, r.ops.read, address, n, i);
      ReadingAnswer(t0, before, r, address, i);
    }
  }

  lemma InBank(start: dword, n: nat, i: nat)
    requires 2 * (start % 0x1_0000) + n <= 0x2_0000 && i < n
    ensures start % 0x1_0000 + i / 2 < 0x1_0000
  {}

  lemma PageWithinBank(t: Target, start: dword, n: nat)
    requires InPage(t, start, n)
    ensures 2 * (start % 0x1_0000) + n <= 0x2_0000
  {}

  /** A device with the AVR's own opcodes, erased, with 128-word pages: it is ready for a page at word 0x100. */
  function ErasedDevice(): (t: Target)
  {
    Target(AVR_OPCODES, [], 0, Erased(256), Erased(0x2_0000))
  }

  /** What ProgramThenRead asks for and what it promises most for can all be had. */
  lemma ErasedDeviceIsReady(data: seq<byte>, pollValue: byte)
    requires |data| <= MAX_PROG_DATA
    ensures var ops, t := AVR_OPCODES, ErasedDevice();
            var p := ProgramParams(true, 0xA1, ops.load, ops.commit, ops.read, pollValue);
            Drives(p, t) && t.pending == [] && ReadyFor(Extended(t, 0x100, true), 0x100, |data|)
  {}
}
