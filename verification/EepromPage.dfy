/** EEPROM written by pages: what the paged program command makes of it, and the round trip through reading it back. */
module EepromPages {
  import opened Bits
  import opened Seqs
  import SpiTarget
  import opened UsbPackets
  import opened Polling
  import opened IspStreams
  import opened IspProgrammer
  import opened DirectTargets
  import IspRoundTrip

  /** The host writes this EEPROM by pages, with the target's own opcodes. */
  predicate DrivesPages(p: ProgramParams, t: Target) {
    && !p.flash && !t.words && p.Paged()
    && p.writeCommand == t.ops.load && p.commitCommand == t.ops.commit && p.readCommand == t.ops.read
  }

  /** The place in its page of byte `i` of a transfer. */
  function Slot(page: PageSize, start: dword, i: nat): nat {
    SpiTarget.PageOffset(AddressAt(false, start, i) % 0x1_0000, page)
  }

  /** The loaded bytes after those of a transfer. */
  function Loaded(loaded: map<nat, byte>, page: PageSize, start: dword, data: seq<byte>): map<nat, byte> {
    if data == [] then loaded
    else
      var i := |data| - 1;
      Loaded(loaded, page, start, data[..i])[Slot(page, start, i) := data[i]]
  }

  lemma LoadOne(t: Target, start: dword, i: nat, value: byte)
    requires t.pending == [] && !t.words
    ensures Feed(t, IspStreams.Instruction(t.ops.load, AddressAt(false, start, i), value))
         == t.(loaded := t.loaded[Slot(t.page, start, i) := value])
  {
    var x := AddressAt(false, start, i);
    InstructionEffect(t, t.ops.load, x, value, x % 0x1_0000);
  }

  /** The write stream loads the page, and touches nothing else. */
  lemma {:induction false} PageLoads(t: Target, start: dword, data: seq<byte>)
    requires t.pending == [] && !t.words
    ensures Feed(t, WriteStream(Toggling, false, t.ops.load, start, data))
         == t.(loaded := Loaded(t.loaded, t.page, start, data))
  {
    if data != [] {
      var i := |data| - 1;
      PageLoads(t, start, data[..i]);
      LoadOne(t.(loaded := Loaded(t.loaded, t.page, start, data[..i])), start, i, data[i]);
      FeedConcat(t, WriteStream(Toggling, false, t.ops.load, start, data[..i]),
                 IspStreams.Instruction(t.ops.load, AddressAt(false, start, i), data[i]));
    }
  }

  /** What a page of data and its commit make of a target: the loaded bytes go into the page of the start address. */
  function Committed(t: Target, start: dword, data: seq<byte>): Target {
    CommitPage(t.(loaded := Loaded(t.loaded, t.page, start, data)), start % 0x1_0000)
  }

  lemma CommitEffect(t: Target, address: word)
    requires t.pending == [] && !t.words
    ensures Feed(t, IspStreams.Instruction(t.ops.commit, address, 0)) == CommitPage(t, address)
  {
    InstructionEffect(t, t.ops.commit, address, 0, address);
    ExecuteCommit(t, address);
  }

  lemma ExecuteCommit(t: Target, address: nat)
    requires !t.words
    ensures Execute(t, t.ops.commit, address, 0) == CommitPage(t, address)
  {}

  lemma {:induction false} PagePollCommand(start: dword, data: seq<byte>, pollValue: byte, command: byte)
    ensures PollScan(false, start, data, pollValue, command).1 == command
  {
    if data != [] { PagePollCommand(start, data[..|data| - 1], pollValue, command); }
  }

  lemma ToTheCommit(t: Target, p: ProgramParams, start: dword, due: bool, data: seq<byte>)
    requires t.pending == [] && DrivesPages(p, t)
    ensures var front := ExtensionDue(start, due) + WriteStream(Toggling, false, p.writeCommand, start, data);
            && Feed(t, front) == t.(loaded := Loaded(t.loaded, t.page, start, data))
            && Feed(t, front + IspStreams.Instruction(p.commitCommand, start % 0x1_0000, 0))
               == Committed(t, start, data)
  {
    var writes := WriteStream(Toggling, false, p.writeCommand, start, data);
    ExtensionHarmless(t, start, due);
    FeedConcat(t, ExtensionDue(start, due), writes);
    PageLoads(t, start, data);
    FeedConcat(t, ExtensionDue(start, due) + writes, IspStreams.Instruction(p.commitCommand, start % 0x1_0000, 0));
    CommitEffect(t.(loaded := Loaded(t.loaded, t.page, start, data)), start % 0x1_0000);
  }

  /** The paged command, for any start and data: without a commit the bytes are only loaded. */
  lemma PagePrograms(t: Target, p: ProgramParams, start: dword, due: bool, data: seq<byte>, polls: nat)
    requires t.pending == [] && DrivesPages(p, t)
    ensures Feed(t, PagedTraffic(p, start, due, data, polls)) ==
              if p.mode >= 0x80 then Committed(t, start, data)
              else t.(loaded := Loaded(t.loaded, t.page, start, data))
  {
    var front := ExtensionDue(start, due) + WriteStream(Toggling, false, p.writeCommand, start, data);
    ToTheCommit(t, p, start, due, data);
    if p.Commits() {
      var target := PollScan(false, start, data, p.pollValue, p.readCommand);
      var commit := IspStreams.Instruction(p.commitCommand, start % 0x1_0000, 0);
      var check := CheckOf(CommitMode(p.mode, target.0));
      PagePollCommand(start, data, p.pollValue, p.readCommand);
      Assoc(front, commit, CheckTraffic(check, target.1, target.0, polls));
      FeedConcat(t, front + commit, CheckTraffic(check, target.1, target.0, polls));
      ChecksHarmless(Committed(t, start, data), check, target.1, target.0, polls);
    } else {
      EmptyRight(front);
    }
  }

  // ----- Within a page -----

  /** `n` bytes from `start` stay within one page, and the page within its 64K addresses. */
  predicate InPage(page: PageSize, start: dword, n: nat) {
    var address, offset := start % 0x1_0000, SpiTarget.PageOffset(start % 0x1_0000, page);
    offset + n <= page && address - offset + page <= 0x1_0000
  }

  lemma SlotFollows(page: PageSize, start: dword, n: nat, i: nat)
    requires InPage(page, start, n) && i < n
    ensures Slot(page, start, i) == SpiTarget.PageOffset(start % 0x1_0000, page) + i
  {
    ByteAddressAt(start, i);
    SpiTarget.PageOffsetPlus(start % 0x1_0000, i, page);
  }

  /** Then the page buffer has the data in consecutive places, and nothing else that it did not have before. */
  lemma {:induction false} LoadedInPage(loaded: map<nat, byte>, page: PageSize, start: dword, data: seq<byte>, n: nat,
                                        k: nat)
    requires InPage(page, start, n) && |data| <= n
    ensures var offset, r := SpiTarget.PageOffset(start % 0x1_0000, page), Loaded(loaded, page, start, data);
            if offset <= k < offset + |data| then k in r && r[k] == data[k - offset]
            else (k in r <==> k in loaded) && (k in r ==> r[k] == loaded[k])
  {
    if data != [] {
      var i := |data| - 1;
      LoadedInPage(loaded, page, start, data[..i], n, k);
      SlotFollows(page, start, n, i);
    }
  }

  /** A page write changes exactly the bytes of the data: byte `i` at `start + i`, whatever was there. */
  lemma CommitPrograms(t: Target, start: dword, data: seq<byte>)
    requires t.loaded == map[] && InPage(t.page, start, |data|) && start % 0x1_0000 + |data| <= |t.memory|
    ensures Committed(t, start, data) == t.(memory := IspRoundTrip.Overwrite(t.memory, start % 0x1_0000, data))
  {
    var offset, loaded := SpiTarget.PageOffset(start % 0x1_0000, t.page), Loaded(t.loaded, t.page, start, data);
    forall k: nat ensures HasData(loaded, offset, data, k) {
      LoadedInPage(t.loaded, t.page, start, data, |data|, k);
    }
    PutIsOverwrite(t.memory, start % 0x1_0000 - offset, t.page, loaded, offset, data);
  }

  /** Place `k` has been loaded exactly with its byte of the data. */
  predicate HasData(loaded: map<nat, byte>, offset: nat, data: seq<byte>, k: nat) {
    if offset <= k < offset + |data| then k in loaded && loaded[k] == data[k - offset] else k !in loaded
  }

  lemma PutIsOverwrite(memory: seq<byte>, base: nat, page: nat, loaded: map<nat, byte>, offset: nat, data: seq<byte>)
    requires base + offset + |data| <= |memory| && offset + |data| <= page
    requires forall k: nat :: HasData(loaded, offset, data, k)
    ensures PutPage(memory, base, page, loaded) == IspRoundTrip.Overwrite(memory, base + offset, data)
  {
    var r, w := PutPage(memory, base, page, loaded), IspRoundTrip.Overwrite(memory, base + offset, data);
    forall j | 0 <= j < |memory| ensures r[j] == w[j] {
      if base <= j { assert HasData(loaded, offset, data, j - base); }
    }
  }

  /** The byte that sets the poll address is polled: EEPROM has no halves to mix up. */
  lemma {:induction false} ChosenByte(start: dword, data: seq<byte>, pollValue: byte, command: byte, k: nat)
    requires Chosen(false, start, data, pollValue, k)
    ensures PollScan(false, start, data, pollValue, command) == ((start as int + k) % 0x1_0000, command)
  {
    var i := |data| - 1;
    Address16Value(false, start, k);
    if i == k {
      PollAddressZeroIff(false, start, data[..k], pollValue, command);
      PagePollCommand(start, data[..k], pollValue, command);
    } else {
      assert data[..i][..k] == data[..k];
      ChosenByte(start, data[..i], pollValue, command, k);
    }
  }

  /** Value polling after a page write reads the cell of the poll address in the memory as written. */
  lemma PagePollReads(t0: Target, sent: seq<byte>, t: Target, p: ProgramParams, start: dword, due: bool,
                      data: seq<byte>, polls: nat, address: word)
    requires Feed(t0, sent) == t && t.pending == [] && DrivesPages(p, t) && p.Commits() && polls > 0
    requires (address, p.readCommand) == PollScan(false, start, data, p.pollValue, p.readCommand)
    requires CheckOf(CommitMode(p.mode, address)) == ValuePoll
    ensures Reply(t0, sent + PagedTraffic(p, start, due, data, polls)) == CellAt(Committed(t, start, data), address)
  {
    var front := ExtensionDue(start, due) + WriteStream(Toggling, false, p.writeCommand, start, data);
    var commit := IspStreams.Instruction(p.commitCommand, start % 0x1_0000, 0);
    ToTheCommit(t, p, start, due, data);
    FeedConcat(t0, sent, front + commit);
    IspRoundTrip.Regroup(sent, front, commit, SpiTarget.Repeat(ReadPoll(p.readCommand, address), polls));
    PollsRead(t0, sent + (front + commit), Committed(t, start, data), p.readCommand, address, polls);
  }

  /** That is the chosen byte of the data, which differs from the poll value: value polling passes. */
  lemma PagePollSees(t0: Target, sent: seq<byte>, t: Target, p: ProgramParams, start: dword, due: bool, data: seq<byte>,
                     polls: nat, k: nat)
    requires Feed(t0, sent) == t && t.pending == [] && t.loaded == map[] && DrivesPages(p, t) && p.Commits()
    requires InPage(t.page, start, |data|) && start % 0x1_0000 + |data| <= |t.memory|
    requires Chosen(false, start, data, p.pollValue, k) && CheckOf(p.mode) == ValuePoll && polls > 0
    ensures Reply(t0, sent + PagedTraffic(p, start, due, data, polls)) == data[k] != p.pollValue
  {
    ChosenByte(start, data, p.pollValue, p.readCommand, k);
    PagePollReads(t0, sent, t, p, start, due, data, polls, (start as int + k) % 0x1_0000);
    ChosenCell(t, start, data, k);
  }

  lemma ChosenCell(t: Target, start: dword, data: seq<byte>, k: nat)
    requires t.loaded == map[] && InPage(t.page, start, |data|) && start % 0x1_0000 + |data| <= |t.memory|
    requires k < |data|
    ensures CellAt(Committed(t, start, data), (start as int + k) % 0x1_0000) == data[k]
  {
    CommitPrograms(t, start, data);
    ByteAddressAt(start, k);
    Address16Value(false, start, k);
  }

  // ----- The round trip -----

  /** What a page makes of a target, and what reading back then says. */
  predicate PageRoundTrip(t: Target, start: dword, data: seq<byte>, after: Target, answer: seq<byte>) {
    && after == Committed(t, start, data) && Answered(after, start, |data|, answer)
    && (t.loaded == map[] && InPage(t.page, start, |data|) && start % 0x1_0000 + |data| <= |t.memory| ==>
          answer == data && after == t.(memory := IspRoundTrip.Overwrite(t.memory, start % 0x1_0000, data)))
  }

  lemma PageAnswer(t: Target, start: dword, data: seq<byte>, after: Target, answer: seq<byte>)
    requires !t.words && after == Committed(t, start, data) && Answered(after, start, |data|, answer)
    ensures PageRoundTrip(t, start, data, after, answer)
  {
    if t.loaded == map[] && InPage(t.page, start, |data|) && start % 0x1_0000 + |data| <= |t.memory| {
      CommitPrograms(t, start, data);
      AnswerIsMemory(after, start, |data|, answer);
    }
  }

  /** Load, program a page with a commit, load, read: from any EEPROM the host gets its data back. */
  method ProgramPageThenRead(programmer: Programmer, p: ProgramParams, address: dword, data: seq<byte>,
                             ghost t0: Target) returns (ghost status: byte, ghost answer: seq<byte>)
    requires programmer.Idle() && programmer.spi.device == AsDevice(t0)
    requires Feed(t0, programmer.spi.sent).pending == [] && DrivesPages(p, t0) && p.Commits()
    requires |data| <= MAX_PROG_DATA
    modifies programmer, programmer.spi, programmer.endpoint, programmer.timer`remaining, programmer.timer`phase
    ensures programmer.Idle()
    ensures programmer.endpoint.packets
         == old(programmer.endpoint.packets) + [[0x06, 0x00]] + [[0x15, status]]
            + [[0x06, 0x00]] + Packetize([0x16, 0x00] + answer + [0x00])
    ensures PageRoundTrip(old(Feed(t0, programmer.spi.sent)), address, data, Feed(t0, programmer.spi.sent), answer)
  {
    ghost var before := programmer.spi.sent;
    ghost var counts;
    programmer.LoadAddress(address);
    status, counts := programmer.ProgramMemory(p, data);
    FeedConcat(t0, before, PagedTraffic(p, address, true, data, counts[0]));
    PagePrograms(Feed(t0, before), p, address, true, data, counts[0]);
    answer := ReadDirectly(programmer, false, p.readCommand, address, |data|, t0);
    PageAnswer(Feed(t0, before), address, data, Feed(t0, programmer.spi.sent), answer);
  }
}
