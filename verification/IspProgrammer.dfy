/** Programming and reading in isp/Lib/ISP/ISPProtocol.c, with the address state of isp/Lib/V2Protocol.c. */
module IspProgrammer {
  import opened Bits
  import opened Seqs
  import opened SpiBuses
  import opened SpiTarget
  import opened UsbPackets
  import opened Timers
  import opened Polling
  import opened IspStreams

  const CMD_LOAD_ADDRESS: byte := 0x06
  const CMD_PROGRAM_FLASH_ISP: byte := 0x13
  const CMD_READ_FLASH_ISP: byte := 0x14
  const CMD_PROGRAM_EEPROM_ISP: byte := 0x15
  const CMD_READ_EEPROM_ISP: byte := 0x16
  const STATUS_CMD_FAILED: byte := 0xC0
  const MAX_PROG_DATA := 256

  const EXTENDED_FLAG: dword := 0x8000_0000

  /** The LOAD EXTENDED ADDRESS instruction, if it is due. */
  function ExtensionDue(address: dword, due: bool): seq<byte> {
    if due && address >= EXTENDED_FLAG then [LOAD_EXTENDED_ADDRESS_CMD, 0, address / 0x1_0000 % 0x100, 0] else []
  }

  /** The host's parameters for programming. */
  datatype ProgramParams = ProgramParams(
    flash: bool, mode: byte, writeCommand: byte, commitCommand: byte, readCommand: byte, pollValue: byte)
  {
    predicate Paged() { mode % 2 == 1 }
    predicate Commits() { mode >= PROG_MODE_COMMIT_PAGE_MASK }
    function Command(): byte { if flash then CMD_PROGRAM_FLASH_ISP else CMD_PROGRAM_EEPROM_ISP }
  }

  /** Without a poll address, value polling is replaced by the timed delay. */
  function FallBack(mode: byte): byte {
    OrBytes(And(mode, 0xFF - PROG_MODE_PAGED_VALUE_MASK), PROG_MODE_PAGED_TIMEDELAY_MASK)
  }

  function CommitMode(mode: byte, pollAddress: word): byte { if pollAddress == 0 then FallBack(mode) else mode }

  /** The check that follows a committed page. */
  function PageCheck(p: ProgramParams, start: dword, data: seq<byte>): Check {
    CheckOf(CommitMode(p.mode, PollScan(p.flash, start, data, p.pollValue, p.readCommand).0))
  }

  /** The bytes of a committed page after its write instructions: the commit, then `polls` polls. */
  function CommitStream(p: ProgramParams, start: dword, data: seq<byte>, polls: nat): seq<byte> {
    var (address, c) := PollScan(p.flash, start, data, p.pollValue, p.readCommand);
    Instruction(p.commitCommand, start % 0x1_0000, 0)
    + CheckTraffic(CheckOf(CommitMode(p.mode, address)), c, address, polls)
  }

  /** Everything a paged program command puts on the bus. */
  function PagedTraffic(p: ProgramParams, start: dword, due: bool, data: seq<byte>, polls: nat): seq<byte> {
    ExtensionDue(start, due) + WriteStream(Toggling, p.flash, p.writeCommand, start, data)
    + if p.Commits() then CommitStream(p, start, data, polls) else []
  }

  /** In word mode the poll target follows the last differing byte, and the high bit, once set, stays. */
  function WordPoll(p: ProgramParams, start: dword, data: seq<byte>): (word, byte) {
    if data == [] then (0, p.readCommand)
    else
      var i := |data| - 1;
      var (address, c) := WordPoll(p, start, data[..i]);
      if data[i] != p.pollValue then (Address16(p.flash, start, i), if p.flash && i % 2 == 1 then SetHigh(c) else c)
      else (address, c)
  }

  /** Word mode, byte `i`: a write, and then its own check with `n` polls. */
  function WordChunk(p: ProgramParams, start: dword, data: seq<byte>, i: nat, n: nat): seq<byte>
    requires i < |data|
  {
    var (address, c) := WordPoll(p, start, data[..i + 1]);
    Instruction(CommandAt(Toggling, p.flash, p.writeCommand, i), AddressAt(p.flash, start, i), data[i])
    + CheckTraffic(CheckOf(p.mode), c, address, n)
  }

  /** `polls` has one entry for each byte written. */
  function WordTraffic(p: ProgramParams, start: dword, data: seq<byte>, polls: seq<nat>): seq<byte>
    requires |polls| <= |data|
  {
    if polls == [] then []
    else
      var i := |polls| - 1;
      WordTraffic(p, start, data, polls[..i]) + WordChunk(p, start, data, i, polls[i])
  }

  /** In word mode, the check of byte `k` succeeded. */
  predicate PassedAt(p: ProgramParams, device: Device, before: seq<byte>, start: dword, data: seq<byte>,
                     polls: seq<nat>, k: nat)
    requires k < |polls| <= |data|
  {
    Passes(CheckOf(p.mode), p.pollValue, device(before + WordTraffic(p, start, data, polls[..k + 1])))
  }

  /** The checks of the first `n` bytes did. */
  predicate Passed(p: ProgramParams, device: Device, before: seq<byte>, start: dword, data: seq<byte>, polls: seq<nat>,
                   n: nat)
    requires n <= |polls| <= |data|
  {
    forall k :: 0 <= k < n ==> PassedAt(p, device, before, start, data, polls, k)
  }

  lemma PassedSnoc(p: ProgramParams, device: Device, before: seq<byte>, start: dword, data: seq<byte>, polls: seq<nat>,
                   n: nat)
    requires |polls| < |data| && Passed(p, device, before, start, data, polls, |polls|)
    ensures Passed(p, device, before, start, data, polls + [n], |polls|)
    ensures Passes(CheckOf(p.mode), p.pollValue, device(before + WordTraffic(p, start, data, polls + [n]))) ==>
              Passed(p, device, before, start, data, polls + [n], |polls| + 1)
  {
    var longer := polls + [n];
    assert longer[..|polls| + 1] == longer;
    forall k | 0 <= k < |polls| ensures PassedAt(p, device, before, start, data, longer, k) {
      assert longer[..k + 1] == polls[..k + 1];
      assert PassedAt(p, device, before, start, data, polls, k);
    }
  }

  /** What the device answers to the instructions of a read. */
  function Readings(device: Device, before: seq<byte>, flash: bool, command: byte, start: dword, n: nat): (s: seq<byte>)
    ensures |s| == n
  {
    if n == 0 then []
    else Readings(device, before, flash, command, start, n - 1)
         + [device(before + ReadStream(Toggling, flash, command, start, n))]
  }

  /** The answer to the `i`th of them. */
  function Reading(device: Device, before: seq<byte>, flash: bool, command: byte, start: dword, i: nat): byte {
    device(before + ReadStream(Toggling, flash, command, start, i + 1))
  }

  lemma {:induction false} ReadingsAt(device: Device, before: seq<byte>, flash: bool, command: byte, start: dword,
                                      n: nat, i: nat)
    requires i < n
    ensures Readings(device, before, flash, command, start, n)[i] == Reading(device, before, flash, command, start, i)
  {
    if i < n - 1 { ReadingsAt(device, before, flash, command, start, n - 1, i); }
  }

  class Programmer {
    var currentAddress: dword
    var mustSetAddress: bool
    const spi: SpiBus
    const endpoint: Endpoint
    const timer: CommandTimer

    ghost predicate Idle()
      reads this, endpoint
    {
      endpoint.bank == []
    }

    constructor (spi: SpiBus, endpoint: Endpoint, timer: CommandTimer)
      requires endpoint.bank == []
      ensures Idle() && this.spi == spi && this.endpoint == endpoint && this.timer == timer
      ensures !mustSetAddress
    {
      this.spi, this.endpoint, this.timer := spi, endpoint, timer;
      currentAddress, mustSetAddress := 0, false;
    }

    /** Answers a command with two bytes in one packet. */
    method Reply(command: byte, status: byte)
      requires Idle()
      modifies endpoint
      ensures Idle() && endpoint.packets == old(endpoint.packets) + [[command, status]]
    {
      endpoint.WriteByte(command);
      endpoint.WriteByte(status);
      Two(command, status);
      EmptyLeft([command]);
      endpoint.ClearIN();
    }

    /** V2Protocol_LoadAddress */
    method LoadAddress(address: dword)
      requires Idle()
      modifies this, endpoint
      ensures Idle() && currentAddress == address && mustSetAddress
      ensures endpoint.packets == old(endpoint.packets) + [[0x06, 0x00]]
    {
      currentAddress := address;
      mustSetAddress := true;
      Reply(CMD_LOAD_ADDRESS, STATUS_CMD_OK);
    }

    /** The first memory access after a load sends the extended address if the host asked for one. */
    method ExtendIfDue()
      modifies this`mustSetAddress, spi
      ensures !mustSetAddress
      ensures spi.sent == old(spi.sent) + ExtensionDue(currentAddress, old(mustSetAddress))
    {
      EmptyRight(spi.sent);
      if mustSetAddress {
        if currentAddress >= EXTENDED_FLAG {
          var _ := spi.Instruction(LOAD_EXTENDED_ADDRESS_CMD, 0, currentAddress / 0x1_0000 % 0x100, 0);
        }
        mustSetAddress := false;
      }
    }

    /** The paged write loop. The counter is 16 bits wide and does not wrap. */
    method WritePage(p: ProgramParams, data: seq<byte>) returns (pollAddress: word, pollCommand: byte)
      requires |data| <= MAX_PROG_DATA
      modifies this`currentAddress, spi
      ensures spi.sent == old(spi.sent) + WriteStream(Toggling, p.flash, p.writeCommand, old(currentAddress), data)
      ensures currentAddress == AddressAt(p.flash, old(currentAddress), |data|)
      ensures (pollAddress, pollCommand)
           == PollScan(p.flash, old(currentAddress), data, p.pollValue, p.readCommand)
    {
      var command := p.writeCommand;
      pollAddress, pollCommand := 0, p.readCommand;
      ghost var start, before := currentAddress, spi.sent;
      EmptyRight(before);
      ghost var stream: seq<byte> := [];
      var i := 0;
      while i < |data|
        invariant 0 <= i <= |data|
        invariant command == CommandAt(Toggling, p.flash, p.writeCommand, i)
        invariant currentAddress == AddressAt(p.flash, start, i)
        invariant stream == WriteStream(Toggling, p.flash, p.writeCommand, start, data[..i])
        invariant spi.sent == before + stream
        invariant (pollAddress, pollCommand) == PollScan(p.flash, start, data[..i], p.pollValue, p.readCommand)
      {
        var isOddByte := i % 2 == 1;
        var byteToWrite := data[i];
        WriteStreamSnoc(Toggling, p.flash, p.writeCommand, start, data, i);
        CommandStep(p.flash, p.writeCommand, i);
        PollStep(p.flash, start, data, p.pollValue, p.readCommand, i);
        SendInstruction(command, byteToWrite);
        Assoc(before, stream, IspStreams.Instruction(command, currentAddress, byteToWrite));
        stream := stream + IspStreams.Instruction(command, currentAddress, byteToWrite);
        if p.flash {
          command := Toggle(command);
        }
        if pollAddress == 0 && byteToWrite != p.pollValue {
          if isOddByte && p.flash {
            pollCommand := SetHigh(pollCommand);
          }
          pollAddress := currentAddress % 0x1_0000;
        }
        NextAddress(p.flash, i, start);
        i := i + 1;
      }
      assert data[..i] == data;
    }

    /** After byte `i`: the next word in flash, or the next byte in EEPROM. */
    method NextAddress(flash: bool, i: nat, ghost start: dword)
      requires currentAddress == AddressAt(flash, start, i)
      modifies this`currentAddress
      ensures currentAddress == AddressAt(flash, start, i + 1)
    {
      AddressStep(flash, start, i);
      if i % 2 == 1 || !flash {
        currentAddress := (currentAddress as int + 1) % 0x1_0000_0000;
      }
    }

    method SendInstruction(command: byte, value: byte)
      modifies spi
      ensures spi.sent == old(spi.sent) + IspStreams.Instruction(command, currentAddress, value)
    {
      var _ := spi.Instruction(command, HighByte(currentAddress), LowByte(currentAddress), value);
    }

    /**
      The word and byte mode loop: each write is followed by its completion check, and a failed check ends it.
      `polls` records the number of polls of each check.
    */
    method WriteWords(p: ProgramParams, data: seq<byte>) returns (status: byte, ghost polls: seq<nat>)
      requires |data| <= MAX_PROG_DATA
      modifies this`currentAddress, spi, timer`remaining, timer`phase
      ensures |polls| <= |data| && (status == STATUS_CMD_OK ==> |polls| == |data|)
      ensures if polls == [] then status == STATUS_CMD_OK
              else Reports(status, CheckOf(p.mode), p.pollValue, spi.device(spi.sent), timer.remaining)
      ensures Passed(p, spi.device, old(spi.sent), old(currentAddress), data, polls,
                     if status == STATUS_CMD_OK then |polls| else |polls| - 1)
      ensures spi.sent == old(spi.sent) + WordTraffic(p, old(currentAddress), data, polls)
      ensures currentAddress == AddressAt(p.flash, old(currentAddress), |polls|)
    {
      var command := p.writeCommand;
      var pollAddress: word, pollCommand := 0, p.readCommand;
      ghost var start, before := currentAddress, spi.sent;
      EmptyRight(before);
      status, polls := STATUS_CMD_OK, [];
      var i := 0;
      while i < |data|
        invariant 0 <= i <= |data| && |polls| == i && status == STATUS_CMD_OK
        invariant Passed(p, spi.device, before, start, data, polls, i)
        invariant i > 0 ==> Reports(status, CheckOf(p.mode), p.pollValue, spi.device(spi.sent), timer.remaining)
        invariant command == CommandAt(Toggling, p.flash, p.writeCommand, i)
        invariant currentAddress == AddressAt(p.flash, start, i)
        invariant (pollAddress, pollCommand) == WordPoll(p, start, data[..i])
        invariant spi.sent == before + WordTraffic(p, start, data, polls)
        decreases |data| - i
      {
        ghost var sent := WordTraffic(p, start, data, polls);
        ghost var n: nat;
        status, command, pollAddress, pollCommand, n := WriteWord(p, data, i, command, pollAddress, pollCommand, start);
        Assoc(before, sent, WordChunk(p, start, data, i, n));
        WordTrafficSnoc(p, start, data, polls, n);
        PassedSnoc(p, spi.device, before, start, data, polls, n);
        polls := polls + [n];
        if status != STATUS_CMD_OK {
          return;
        }
        i := i + 1;
      }
    }

    /** The body of that loop: byte `i`, the poll target that goes with it, and its check. */
    method WriteWord(p: ProgramParams, data: seq<byte>, i: nat, command: byte, pollAddress: word, pollCommand: byte,
                     ghost start: dword)
      returns (status: byte, nextCommand: byte, nextAddress: word, nextPollCommand: byte, ghost polls: nat)
      requires i < |data| && currentAddress == AddressAt(p.flash, start, i)
      requires command == CommandAt(Toggling, p.flash, p.writeCommand, i)
      requires (pollAddress, pollCommand) == WordPoll(p, start, data[..i])
      modifies this`currentAddress, spi, timer`remaining, timer`phase
      ensures currentAddress == AddressAt(p.flash, start, i + 1)
      ensures nextCommand == CommandAt(Toggling, p.flash, p.writeCommand, i + 1)
      ensures (nextAddress, nextPollCommand) == WordPoll(p, start, data[..i + 1])
      ensures spi.sent == old(spi.sent) + WordChunk(p, start, data, i, polls)
      ensures Reports(status, CheckOf(p.mode), p.pollValue, spi.device(spi.sent), timer.remaining)
    {
      nextCommand, nextAddress, nextPollCommand := command, pollAddress, pollCommand;
      var isOddByte := i % 2 == 1;
      var byteToWrite := data[i];
      CommandStep(p.flash, p.writeCommand, i);
      WordPollStep(p, start, data, i);
      SendInstruction(command, byteToWrite);
      if p.flash {
        nextCommand := Toggle(command);
      }
      if byteToWrite != p.pollValue {
        if isOddByte && p.flash {
          nextPollCommand := SetHigh(pollCommand);
        }
        nextAddress := currentAddress % 0x1_0000;
      }
      NextAddress(p.flash, i, start);
      status, polls := WaitForProgComplete(spi, timer, p.mode, nextAddress, p.pollValue, nextPollCommand);
      Assoc(old(spi.sent), IspStreams.Instruction(command, old(currentAddress), byteToWrite),
            CheckTraffic(CheckOf(p.mode), nextPollCommand, nextAddress, polls));
    }

    /** The commit of a page, and its completion check. */
    method CommitPage(p: ProgramParams, start: dword, pollAddress: word, pollCommand: byte, ghost data: seq<byte>)
      returns (status: byte, ghost polls: nat)
      requires (pollAddress, pollCommand) == PollScan(p.flash, start, data, p.pollValue, p.readCommand)
      modifies spi, timer`remaining, timer`phase
      ensures spi.sent == old(spi.sent) + CommitStream(p, start, data, polls)
      ensures Reports(status, CheckOf(CommitMode(p.mode, pollAddress)), p.pollValue, spi.device(spi.sent),
                      timer.remaining)
      ensures IsPoll(CheckOf(CommitMode(p.mode, pollAddress))) ==> polls > 0
    {
      var mode := p.mode;
      var startAddress := start % 0x1_0000;
      var _ := spi.Instruction(p.commitCommand, HighByte(startAddress), LowByte(startAddress), 0);
      if pollAddress == 0 {
        mode := FallBack(mode);
      }
      status, polls := WaitForProgComplete(spi, timer, mode, pollAddress, p.pollValue, pollCommand);
      Assoc(old(spi.sent), IspStreams.Instruction(p.commitCommand, startAddress, 0),
            CheckTraffic(CheckOf(mode), pollCommand, pollAddress, polls));
    }

    /**
      ISPProtocol_ProgramMemory. `counts` are the polls made: one number for a committed page, one for each byte
      written in word mode. The host is told the outcome of the last check.
    */
    method ProgramMemory(p: ProgramParams, data: seq<byte>) returns (ghost status: byte, ghost counts: seq<nat>)
      requires Idle()
      modifies this, spi, endpoint, timer`remaining, timer`phase
      ensures Idle() && endpoint.packets == old(endpoint.packets) + [[if p.flash then 0x13 else 0x15, status]]
      ensures |data| > 256 ==>
                && spi.sent == old(spi.sent) && currentAddress == old(currentAddress)
                && mustSetAddress == old(mustSetAddress) && status == 0xC0
      ensures |data| <= 256 ==> !mustSetAddress
      ensures |data| <= 256 && p.mode % 2 == 1 ==>
                && |counts| == 1
                && spi.sent == old(spi.sent)
                   + PagedTraffic(p, old(currentAddress), old(mustSetAddress), data, counts[0])
                && currentAddress == AddressAt(p.flash, old(currentAddress), |data|)
                && if p.mode >= 0x80
                   then Reports(status, PageCheck(p, old(currentAddress), data), p.pollValue, spi.device(spi.sent),
                                timer.remaining)
                        && (IsPoll(PageCheck(p, old(currentAddress), data)) ==> counts[0] > 0)
                   else status == 0x00
      ensures |data| <= 256 && p.mode % 2 == 0 ==>
                && |counts| <= |data| && (status == 0x00 ==> |counts| == |data|)
                && spi.sent == old(spi.sent) + ExtensionDue(old(currentAddress), old(mustSetAddress))
                   + WordTraffic(p, old(currentAddress), data, counts)
                && currentAddress == AddressAt(p.flash, old(currentAddress), |counts|)
                && (if counts == [] then status == 0x00
                    else Reports(status, CheckOf(p.mode), p.pollValue, spi.device(spi.sent), timer.remaining))
                && Passed(p, spi.device, old(spi.sent) + ExtensionDue(old(currentAddress), old(mustSetAddress)),
                          old(currentAddress), data, counts,
                          if status == 0x00 then |counts| else |counts| - 1)
    {
      counts := [];
      if |data| > MAX_PROG_DATA {
        Reply(p.Command(), STATUS_CMD_FAILED);
        status := STATUS_CMD_FAILED;
        return;
      }
      var programmingStatus := STATUS_CMD_OK;
      ghost var before := spi.sent;
      ExtendIfDue();
      if p.Paged() {
        ghost var n: nat;
        programmingStatus, n := ProgramPage(p, data, before, old(mustSetAddress));
        counts := [n];
      } else {
        programmingStatus, counts := WriteWords(p, data);
      }
      Reply(p.Command(), programmingStatus);
      status := programmingStatus;
    }

    /** The paged branch: the loop, then the commit if the mode asks for it. */
    method ProgramPage(p: ProgramParams, data: seq<byte>, ghost before: seq<byte>, ghost due: bool)
      returns (status: byte, ghost polls: nat)
      requires |data| <= MAX_PROG_DATA
      requires spi.sent == before + ExtensionDue(currentAddress, due)
      modifies this`currentAddress, spi, timer`remaining, timer`phase
      ensures spi.sent == before + PagedTraffic(p, old(currentAddress), due, data, polls)
      ensures currentAddress == AddressAt(p.flash, old(currentAddress), |data|)
      ensures if p.Commits()
              then Reports(status, PageCheck(p, old(currentAddress), data), p.pollValue, spi.device(spi.sent),
                           timer.remaining)
              else status == STATUS_CMD_OK
      ensures p.Commits() && IsPoll(PageCheck(p, old(currentAddress), data)) ==> polls > 0
    {
      ghost var start := currentAddress;
      var startAddress := currentAddress;
      status, polls := STATUS_CMD_OK, 0;
      var pollAddress, pollCommand := WritePage(p, data);
      ghost var extension := ExtensionDue(start, due);
      ghost var writes := WriteStream(Toggling, p.flash, p.writeCommand, start, data);
      Assoc(before, extension, writes);
      EmptyRight(extension + writes);
      if p.Commits() {
        status, polls := CommitPage(p, startAddress, pollAddress, pollCommand, data);
        Assoc(before, extension + writes, CommitStream(p, start, data, polls));
      }
    }

    /**
      ISPProtocol_ReadMemory: for every length up to 65535 the host gets the command, OK, the bytes read and OK,
      in full packets ended by a short one.
    */
    method ReadMemory(flash: bool, count: word, readCommand: byte)
      requires Idle()
      modifies this, spi, endpoint
      ensures Idle() && !mustSetAddress
      ensures currentAddress == AddressAt(flash, old(currentAddress), count)
      ensures var extension := ExtensionDue(old(currentAddress), old(mustSetAddress));
              var readings :=
                Readings(spi.device, old(spi.sent) + extension, flash, readCommand, old(currentAddress), count);
              && spi.sent == old(spi.sent) + extension
                             + ReadStream(Toggling, flash, readCommand, old(currentAddress), count)
              && endpoint.packets == old(endpoint.packets)
                   + Packetize([if flash then 0x14 else 0x16, 0x00] + readings + [0x00])
    {
      ghost var packets := endpoint.packets;
      endpoint.Begin(ReadCommandOf(flash), STATUS_CMD_OK);
      ExtendIfDue();
      ghost var start, before := currentAddress, spi.sent;
      ReadLoop(flash, count, readCommand, packets);
      endpoint.FinishWith(STATUS_CMD_OK, packets,
        [ReadCommandOf(flash), STATUS_CMD_OK] + Readings(spi.device, before, flash, readCommand, start, count));
    }

    method ReadLoop(flash: bool, count: word, readCommand: byte, ghost packets: seq<seq<byte>>)
      requires endpoint.Streaming(packets, [ReadCommandOf(flash), STATUS_CMD_OK])
      modifies this`currentAddress, spi, endpoint
      ensures currentAddress == AddressAt(flash, old(currentAddress), count)
      ensures spi.sent == old(spi.sent) + ReadStream(Toggling, flash, readCommand, old(currentAddress), count)
      ensures endpoint.Streaming(packets, [ReadCommandOf(flash), STATUS_CMD_OK]
                + Readings(spi.device, old(spi.sent), flash, readCommand, old(currentAddress), count))
    {
      ghost var start, before := currentAddress, spi.sent;
      var command := readCommand;
      EmptyRight(before);
      EmptyRight([ReadCommandOf(flash), STATUS_CMD_OK]);
      var i := 0;
      while i < count
        invariant 0 <= i <= count
        invariant command == CommandAt(Toggling, flash, readCommand, i)
        invariant currentAddress == AddressAt(flash, start, i)
        invariant spi.sent == before + ReadStream(Toggling, flash, readCommand, start, i)
        invariant endpoint.Streaming(packets, ReadSoFar(spi.device, before, flash, readCommand, start, i))
      {
        command := ReadOne(flash, i, command, readCommand, start, before, packets);
        i := i + 1;
      }
    }

    /** The body of that loop. */
    method ReadOne(flash: bool, i: nat, command: byte, ghost readCommand: byte, ghost start: dword,
                   ghost before: seq<byte>, ghost packets: seq<seq<byte>>) returns (nextCommand: byte)
      requires command == CommandAt(Toggling, flash, readCommand, i) && currentAddress == AddressAt(flash, start, i)
      requires spi.sent == before + ReadStream(Toggling, flash, readCommand, start, i)
      requires endpoint.Streaming(packets, ReadSoFar(spi.device, before, flash, readCommand, start, i))
      modifies this`currentAddress, spi, endpoint
      ensures nextCommand == CommandAt(Toggling, flash, readCommand, i + 1)
      ensures currentAddress == AddressAt(flash, start, i + 1)
      ensures spi.sent == before + ReadStream(Toggling, flash, readCommand, start, i + 1)
      ensures endpoint.Streaming(packets, ReadSoFar(spi.device, before, flash, readCommand, start, i + 1))
    {
      CommandStep(flash, readCommand, i);
      Assoc(before, ReadStream(Toggling, flash, readCommand, start, i),
            IspStreams.Instruction(command, currentAddress, 0));
      OneReading(spi.device, before, flash, readCommand, start, i);
      var reading := spi.Instruction(command, HighByte(currentAddress), LowByte(currentAddress), 0);
      endpoint.StreamByte(reading, packets, ReadSoFar(spi.device, before, flash, readCommand, start, i));
      nextCommand := command;
      if flash {
        nextCommand := Toggle(command);
      }
      NextAddress(flash, i, start);
    }
  }

  /** The response to a read with the first `n` bytes in it. */
  function ReadSoFar(device: Device, before: seq<byte>, flash: bool, command: byte, start: dword, n: nat): seq<byte> {
    [ReadCommandOf(flash), STATUS_CMD_OK] + Readings(device, before, flash, command, start, n)
  }

  lemma OneReading(device: Device, before: seq<byte>, flash: bool, command: byte, start: dword, n: nat)
    ensures ReadSoFar(device, before, flash, command, start, n + 1)
         == ReadSoFar(device, before, flash, command, start, n)
            + [device(before + ReadStream(Toggling, flash, command, start, n + 1))]
  {
    Assoc([ReadCommandOf(flash), STATUS_CMD_OK], Readings(device, before, flash, command, start, n),
          [device(before + ReadStream(Toggling, flash, command, start, n + 1))]);
  }

  function ReadCommandOf(flash: bool): byte { if flash then CMD_READ_FLASH_ISP else CMD_READ_EEPROM_ISP }

  lemma WordPollStep(p: ProgramParams, start: dword, data: seq<byte>, i: nat)
    requires i < |data|
    ensures var (address, c) := WordPoll(p, start, data[..i]);
            WordPoll(p, start, data[..i + 1]) ==
              if data[i] != p.pollValue
              then (Address16(p.flash, start, i), if p.flash && i % 2 == 1 then SetHigh(c) else c)
              else (address, c)
  {
    assert data[..i + 1][..i] == data[..i];
  }

  /** In word mode the read command's high bit is set once a high half differs from the poll value, and stays set. */
  lemma {:induction false} WordPollHigh(p: ProgramParams, start: dword, data: seq<byte>)
    requires p.flash
    ensures HighBit(WordPoll(p, start, data).1) <==> HighBit(p.readCommand) || OddDiffers(data, p.pollValue, |data|)
  {
    if data != [] {
      var i := |data| - 1;
      WordPollHigh(p, start, data[..i]);
      OddDiffersSnoc(data, p.pollValue, i);
      SetOrClear(WordPoll(p, start, data[..i]).1);
    }
  }

  /**
    Word mode polls a byte that differs from the poll value, right after writing it, exactly when the byte is a high
    half, or none before it was that differed and the host's command did not come with its high bit set.
  */
  lemma WordPollsWritten(p: ProgramParams, start: dword, data: seq<byte>, i: nat)
    requires p.flash && i < |data| && data[i] != p.pollValue
    ensures var (address, c) := WordPoll(p, start, data[..i + 1]);
            && address == (start as int + i / 2) % 0x1_0000
            && ((HighBit(c) <==> i % 2 == 1) <==>
                  i % 2 == 1 || (!HighBit(p.readCommand) && !OddDiffers(data, p.pollValue, i)))
  {
    WordPollStep(p, start, data, i);
    Address16Value(true, start, i);
    WordPollHigh(p, start, data[..i]);
    OddDiffersSnoc(data, p.pollValue, i);
    SetOrClear(WordPoll(p, start, data[..i]).1);
  }

  lemma WordTrafficSnoc(p: ProgramParams, start: dword, data: seq<byte>, polls: seq<nat>, n: nat)
    requires |polls| < |data|
    ensures WordTraffic(p, start, data, polls + [n])
         == WordTraffic(p, start, data, polls) + WordChunk(p, start, data, |polls|, n)
  {
    ButLastSnoc(polls, n);
  }

  // ----- The check after a page without a poll address -----

  lemma FiveHalves(x: nat)
    ensures x / 2 / 2 / 2 / 2 == x / 0x10 && x / 0x10 / 2 == x / 0x20 && x / 0x20 / 2 == x / 0x40
  {}

  /** `mode & ~0x20` */
  lemma ClearBitFive(mode: byte)
    ensures And(mode, 0xDF) == mode - 0x20 * (mode / 0x20 % 2)
  {
    var m1 := mode / 2;
    var m2 := m1 / 2;
    var m3 := m2 / 2;
    var m4 := m3 / 2;
    var m5 := m4 / 2;
    AndLow(mode, 0x6F);
    AndLow(m1, 0x37);
    AndLow(m2, 0x1B);
    AndLow(m3, 0x0D);
    AndLow(m4, 0x06);
    ClearLowOfThree(m5);
    FiveHalves(mode);
    assert mode == mode % 2 + 2 * (m1 % 2 + 2 * (m2 % 2 + 2 * (m3 % 2 + 2 * (m4 % 2 + 2 * m5))));
  }

  lemma ClearLowOfThree(x: nat)
    requires x < 8
    ensures And(x, 6) == x - x % 2
  {
    AndOnes(x / 2, 2);
    assert Ones(2) == 3;
    assert And(x, 6) == 2 * And(x / 2, 3);
  }

  /** `m | 0x10` */
  lemma SetBitFour(m: nat)
    ensures Or(m, 0x10) == m + if m / 0x10 % 2 == 0 then 0x10 else 0
  {
    var m1 := m / 2;
    var m2 := m1 / 2;
    var m3 := m2 / 2;
    var m4 := m3 / 2;
    OrLow(m, 8);
    OrLow(m1, 4);
    OrLow(m2, 2);
    OrLow(m3, 1);
    OrWithOne(m4);
    FiveHalves(m);
    assert m == m % 2 + 2 * (m1 % 2 + 2 * (m2 % 2 + 2 * (m3 % 2 + 2 * m4)));
  }

  /** The mode with bit 4 set and bit 5 clear. */
  lemma FallBackBits(mode: byte)
    ensures FallBack(mode) == mode % 0x10 + 0x10 + 0x40 * (mode / 0x40)
  {
    ClearBitFive(mode);
    SetBitFour(And(mode, 0xDF));
    Recombine(mode);
  }

  lemma Recombine(mode: byte)
    ensures var cleared := mode - 0x20 * (mode / 0x20 % 2);
            && cleared / 0x10 % 2 == mode / 0x10 % 2
            && cleared + (if mode / 0x10 % 2 == 0 then 0x10 else 0) == mode % 0x10 + 0x10 + 0x40 * (mode / 0x40)
  {
    var high, five, four, low := mode / 0x40, mode / 0x20 % 2, mode / 0x10 % 2, mode % 0x10;
    FiveHalves(mode);
    assert mode == low + 0x10 * four + 0x20 * five + 0x40 * high;
    assert (low + 0x10 * four + 0x40 * high) / 0x10 == four + 4 * high;
  }

  /**
    A page committed without a poll address is waited for, by a fixed delay, exactly when its mode asks for no
    check other than paged delay or paged value. Asking for paged ready/busy polling then gets no wait at all.
  */
  lemma FallBackIff(mode: byte)
    ensures CheckOf(FallBack(mode)) ==
              if mode / 0x40 % 2 == 0 && mode / 2 % 8 == 0 then TimedDelay else NoCheck
  {
    CheckBits(FallBack(mode));
    FallBackBits(mode);
    FallBackValue(mode);
    CheckOfValue(FallBack(mode), mode / 2 % 8, mode / 0x40 % 2);
  }

  lemma CheckOfValue(m: byte, low: nat, high: nat)
    requires And(m, 0x7E) == 2 * low + 0x10 + 0x40 * high && low < 8 && high < 2
    ensures CheckOf(m) == if high == 0 && low == 0 then TimedDelay else NoCheck
  {
    var bits := And(m, 0x7E);
    assert bits != 0x02 && bits != 0x04 && bits != 0x08 && bits != 0x20 && bits != 0x40;
  }

  lemma FallBackValue(mode: byte)
    ensures 2 * ((mode % 0x10 + 0x10 + 0x40 * (mode / 0x40)) / 2 % 0x40)
         == 2 * (mode / 2 % 8) + 0x10 + 0x40 * (mode / 0x40 % 2)
  {
    var low, high := mode / 2 % 8, mode / 0x40;
    LowBits(mode);
    assert (mode % 0x10 + 0x10 + 0x40 * high) / 2 == low + 8 + 0x20 * high;
    SixBits(low, high);
  }

  lemma LowBits(mode: byte)
    ensures mode % 0x10 == mode % 2 + 2 * (mode / 2 % 8)
  {}

  lemma SixBits(low: nat, high: nat)
    requires low < 8 && high < 4
    ensures (low + 8 + 0x20 * high) % 0x40 == low + 8 + 0x20 * (high % 2)
  {
    assert high == high % 2 + 2 * (high / 2);
  }

  lemma SixCheckBitsParts(mode: byte)
    ensures SixCheckBits(mode) % 8 == mode / 2 % 8 && SixCheckBits(mode) / 0x20 == mode / 0x40 % 2
  {
    var h, b := mode / 0x80, mode / 2 % 0x40;
    assert mode / 2 == 0x40 * h + b;
    HighestCheckBit(mode, h, b);
  }

  lemma HighestCheckBit(mode: byte, h: nat, b: nat)
    requires mode / 2 == 0x40 * h + b && b < 0x40
    ensures b / 0x20 == mode / 0x40 % 2 && b % 8 == mode / 2 % 8
  {
    assert mode / 0x40 == 2 * h + b / 0x20;
  }

  /**
    Which check follows a committed page. With a poll address it is the one check that the mode asks for; without one,
    it is the timed delay of the fallback, or none.
  */
  lemma PageCheckIs(p: ProgramParams, start: dword, data: seq<byte>)
    ensures PageCheck(p, start, data) ==
              if NothingNamed(p.flash, start, data, p.pollValue) then
                if p.mode / 0x40 % 2 == 0 && p.mode / 2 % 8 == 0 then TimedDelay else NoCheck
              else if p.mode / 2 % 0x40 in {1, 8} then TimedDelay
              else if p.mode / 2 % 0x40 in {2, 0x10} then ValuePoll
              else if p.mode / 2 % 0x40 in {4, 0x20} then BusyPolling
              else NoCheck
  {
    PollAddressZeroIff(p.flash, start, data, p.pollValue, p.readCommand);
    FallBackIff(p.mode);
    CheckSelected(p.mode);
  }

  /**
    Exactly when a committed page is not waited for at all: no byte names a poll address and the mode asks for
    anything besides paged delay or paged value, or one does and the mode does not ask for exactly one check.
  */
  lemma PageUnawaitedIff(p: ProgramParams, start: dword, data: seq<byte>)
    ensures PageCheck(p, start, data) == NoCheck <==>
              if NothingNamed(p.flash, start, data, p.pollValue) then p.mode / 0x40 % 2 == 1 || p.mode / 2 % 8 != 0
              else SixCheckBits(p.mode) !in {1, 2, 4, 8, 0x10, 0x20}
  {
    PageCheckIs(p, start, data);
  }

  /** A page loses the one check its mode asks for: ready/busy polling, or any of the three checks of word mode. */
  lemma WaitLostIff(p: ProgramParams, start: dword, data: seq<byte>)
    ensures CheckOf(p.mode) != NoCheck && PageCheck(p, start, data) == NoCheck
       <==> NothingNamed(p.flash, start, data, p.pollValue) && SixCheckBits(p.mode) in {1, 2, 4, 0x20}
  {
    PageUnawaitedIff(p, start, data);
    CheckSelected(p.mode);
    SixCheckBitsParts(p.mode);
    LostBits(SixCheckBits(p.mode));
  }

  lemma LostBits(b: nat)
    requires b < 0x40
    ensures b in {1, 2, 4, 8, 0x10, 0x20} && (b / 0x20 == 1 || b % 8 != 0) <==> b in {1, 2, 4, 0x20}
  {}

  /** A blank page, committed with ready/busy polling: the programmer answers at once, whatever the target does. */
  lemma BlankPageUnawaited(p: ProgramParams, start: dword, n: nat)
    requires p.mode == 0xC1 && p.pollValue == 0xFF
    ensures p.Paged() && p.Commits() && CheckOf(p.mode) == BusyPolling
    ensures PageCheck(p, start, Erased(n)) == NoCheck
  {
    CheckSelected(p.mode);
    WaitLostIff(p, start, Erased(n));
  }

  lemma ReadyBusyFallBack(mode: byte)
    requires CheckOf(mode) == BusyPolling
    ensures CheckOf(FallBack(mode)) == NoCheck
  {
    CheckSelected(mode);
    BusyBits(mode);
    FallBackIff(mode);
  }

  lemma BusyBits(mode: byte)
    requires mode / 2 % 0x40 == 4 || mode / 2 % 0x40 == 0x20
    ensures mode / 0x40 % 2 == 1 || mode / 2 % 8 != 0
  {
    var h, b := mode / 0x80, mode / 2 % 0x40;
    assert mode / 2 == 0x40 * h + b;
    if b == 4 {
      assert (0x40 * h + 4) % 8 == 4;
    } else {
      assert mode / 0x40 == 2 * h + 1;
    }
  }
}
