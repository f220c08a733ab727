/** Completion polling in isp/Lib/ISP/ISPTarget.c against the millisecond timeout of isp/Lib/V2Protocol.c. */
module Polling {
  import opened Bits
  import opened Seqs
  import opened Timers
  import opened SpiBuses
  import opened SpiTarget

  const STATUS_CMD_OK: byte := 0x00
  const STATUS_CMD_TOUT: byte := 0x80
  const STATUS_RDY_BSY_TOUT: byte := 0x81

  /** Every poll but the last came back unready. */
  predicate Unready(device: Device, before: seq<byte>, instruction: seq<byte>, polls: nat, ready: byte -> bool) {
    forall j :: 0 < j < polls ==> !ready(device(before + Repeat(instruction, j)))
  }

  function BusyPoll(): seq<byte> { [POLL_BUSY_CMD, 0, 0, 0] }

  function NotBusy(): byte -> bool { (b: byte) => b % 2 == 0 }

  function Differs(pollValue: byte): byte -> bool { (b: byte) => b != pollValue }

  /** One more poll at the end of a run of polls. */
  lemma OneMorePoll(before: seq<byte>, instruction: seq<byte>, polls: nat)
    ensures before + Repeat(instruction, polls) + instruction == before + Repeat(instruction, polls + 1)
  {
    Assoc(before, Repeat(instruction, polls), instruction);
  }

  /**
    ISPTarget_WaitWhileTargetBusy, with the timer free to fire between any two of its steps. OK means that the last
    poll, and no earlier one, found the target ready; anything else means that the time is up.
  */
  method WaitWhileTargetBusy(spi: SpiBus, timer: CommandTimer) returns (status: byte, ghost polls: nat)
    modifies spi, timer`remaining, timer`phase
    ensures polls > 0 && spi.sent == old(spi.sent) + Repeat(BusyPoll(), polls)
    ensures Unready(spi.device, old(spi.sent), BusyPoll(), polls, NotBusy())
    ensures status == STATUS_CMD_OK ==> NotBusy()(spi.device(spi.sent)) && timer.remaining > 0
    ensures status != STATUS_CMD_OK ==> status == STATUS_RDY_BSY_TOUT && timer.remaining == 0
  {
    ghost var before := spi.sent;
    var response := PollOnce(spi, timer, POLL_BUSY_CMD, 0, 0);
    polls := 1;
    EmptyLeft(BusyPoll());
    while response % 2 == 1 && timer.remaining > 0
      invariant polls > 0 && spi.sent == before + Repeat(BusyPoll(), polls)
      invariant response == spi.device(spi.sent)
      invariant Unready(spi.device, before, BusyPoll(), polls, NotBusy())
      decreases timer.remaining, timer.phase
    {
      OneMorePoll(before, BusyPoll(), polls);
      response := PollOnce(spi, timer, POLL_BUSY_CMD, 0, 0);
      polls := polls + 1;
    }
    timer.Pass();
    status := if timer.remaining > 0 then STATUS_CMD_OK else STATUS_RDY_BSY_TOUT;
  }

  /** One instruction of a polling loop; the transfers take time. */
  method PollOnce(spi: SpiBus, timer: CommandTimer, op: byte, high: byte, low: byte) returns (response: byte)
    modifies spi, timer`remaining, timer`phase
    ensures spi.sent == old(spi.sent) + [op, high, low, 0] && response == spi.device(spi.sent)
    ensures timer.remaining <= old(timer.remaining)
    ensures timer.remaining == old(timer.remaining) && timer.remaining > 0 ==> timer.phase < old(timer.phase)
  {
    response := spi.Instruction(op, high, low, 0);
    timer.Pass();
  }

  function ReadPoll(readCommand: byte, address: word): seq<byte> {
    [readCommand, HighByte(address), LowByte(address), 0]
  }

  /** The value-polling branch of ISPTarget_WaitForProgComplete. */
  method WaitForValue(spi: SpiBus, timer: CommandTimer, readCommand: byte, address: word, pollValue: byte)
    returns (status: byte, ghost polls: nat)
    modifies spi, timer`remaining, timer`phase
    ensures polls > 0 && spi.sent == old(spi.sent) + Repeat(ReadPoll(readCommand, address), polls)
    ensures Unready(spi.device, old(spi.sent), ReadPoll(readCommand, address), polls, Differs(pollValue))
    ensures status == STATUS_CMD_OK ==> spi.device(spi.sent) != pollValue && timer.remaining > 0
    ensures status != STATUS_CMD_OK ==> status == STATUS_CMD_TOUT && timer.remaining == 0
  {
    ghost var before := spi.sent;
    ghost var poll := ReadPoll(readCommand, address);
    var response := PollOnce(spi, timer, readCommand, HighByte(address), LowByte(address));
    polls := 1;
    EmptyLeft(poll);
    while response == pollValue && timer.remaining > 0
      invariant polls > 0 && spi.sent == before + Repeat(poll, polls)
      invariant response == spi.device(spi.sent)
      invariant Unready(spi.device, before, poll, polls, Differs(pollValue))
      decreases timer.remaining, timer.phase
    {
      OneMorePoll(before, poll, polls);
      response := PollOnce(spi, timer, readCommand, HighByte(address), LowByte(address));
      polls := polls + 1;
    }
    timer.Pass();
    status := if timer.remaining == 0 then STATUS_CMD_TOUT else STATUS_CMD_OK;
  }

  // ----- Which check a programming mode asks for -----

  const PROG_MODE_PAGED_WRITES_MASK: byte := 0x01
  const PROG_MODE_WORD_TIMEDELAY_MASK: byte := 0x02
  const PROG_MODE_WORD_VALUE_MASK: byte := 0x04
  const PROG_MODE_WORD_READYBUSY_MASK: byte := 0x08
  const PROG_MODE_PAGED_TIMEDELAY_MASK: byte := 0x10
  const PROG_MODE_PAGED_VALUE_MASK: byte := 0x20
  const PROG_MODE_PAGED_READYBUSY_MASK: byte := 0x40
  const PROG_MODE_COMMIT_PAGE_MASK: byte := 0x80

  datatype Check = TimedDelay | ValuePoll | BusyPolling | NoCheck

  predicate IsPoll(check: Check) { check == ValuePoll || check == BusyPolling }

  /** The switch of ISPTarget_WaitForProgComplete, on the mode without its paged and commit bits. */
  function CheckOf(mode: byte): Check {
    var check := And(mode, 0xFF - PROG_MODE_PAGED_WRITES_MASK - PROG_MODE_COMMIT_PAGE_MASK);
    if check == PROG_MODE_WORD_TIMEDELAY_MASK || check == PROG_MODE_PAGED_TIMEDELAY_MASK then TimedDelay
    else if check == PROG_MODE_WORD_VALUE_MASK || check == PROG_MODE_PAGED_VALUE_MASK then ValuePoll
    else if check == PROG_MODE_WORD_READYBUSY_MASK || check == PROG_MODE_PAGED_READYBUSY_MASK then BusyPolling
    else NoCheck
  }

  /** The six check bits as a number. */
  function SixCheckBits(mode: byte): nat { mode / 2 % 0x40 }

  lemma CheckBits(mode: byte)
    ensures And(mode, 0x7E) == 2 * SixCheckBits(mode)
  {
    AndMask(mode / 2, 6);
    assert Ones(6) == 3 + 4 * Ones(4) && Ones(4) == 3 + 4 * Ones(2) && Ones(2) == 3;
    assert Pow2(6) == 4 * Pow2(4) && Pow2(4) == 4 * Pow2(2) && Pow2(2) == 4;
    assert And(mode, 0x7E) == 2 * And(mode / 2, 0x3F);
  }

  /**
    Exactly one of its check bits set, of word or of paged mode, selects a check: bits 1 and 4 a timed delay, bits 2
    and 5 value polling, bits 3 and 6 ready/busy polling. With none of them, or several, there is no check.
  */
  lemma CheckSelected(mode: byte)
    ensures CheckOf(mode) == TimedDelay <==> mode / 2 % 0x40 in {1, 8}
    ensures CheckOf(mode) == ValuePoll <==> mode / 2 % 0x40 in {2, 0x10}
    ensures CheckOf(mode) == BusyPolling <==> mode / 2 % 0x40 in {4, 0x20}
    ensures CheckOf(mode) == NoCheck <==> mode / 2 % 0x40 !in {1, 2, 4, 8, 0x10, 0x20}
  {
    CheckBits(mode);
  }

  /** The bytes a check puts on the bus. */
  function CheckTraffic(check: Check, readCommand: byte, address: word, polls: nat): seq<byte> {
    match check
    case ValuePoll => Repeat(ReadPoll(readCommand, address), polls)
    case BusyPolling => Repeat(BusyPoll(), polls)
    case _ => []
  }

  /** The last answer on the bus ends a check as a success. */
  predicate Passes(check: Check, pollValue: byte, lastAnswer: byte) {
    (check == ValuePoll ==> lastAnswer != pollValue) && (check == BusyPolling ==> lastAnswer % 2 == 0)
  }

  /** What a status says of the check that gave it, of the last answer on the bus and of the time left. */
  predicate Reports(status: byte, check: Check, pollValue: byte, lastAnswer: byte, remaining: byte) {
    if status == STATUS_CMD_OK then remaining == 200 && Passes(check, pollValue, lastAnswer)
    else
      && remaining == 0
      && ((check == ValuePoll && status == STATUS_CMD_TOUT) || (check == BusyPolling && status == STATUS_RDY_BSY_TOUT))
  }

  /**
    ISPTarget_WaitForProgComplete, in terms of the mode bits: value polling reads the poll address again and again,
    ready/busy polling asks for the busy bit, and anything else, a fixed delay too, puts nothing on the bus and always
    succeeds.
  */
  method WaitForProgComplete(spi: SpiBus, timer: CommandTimer, mode: byte, pollAddress: word, pollValue: byte,
                             readCommand: byte) returns (status: byte, ghost polls: nat)
    modifies spi, timer`remaining, timer`phase
    ensures spi.sent == old(spi.sent) + CheckTraffic(CheckOf(mode), readCommand, pollAddress, polls)
    ensures IsPoll(CheckOf(mode)) ==> polls > 0
    ensures Reports(status, CheckOf(mode), pollValue, spi.device(spi.sent), timer.remaining)
    ensures var selected := mode / 2 % 0x40;
            if selected in {2, 0x10} then
              && spi.sent == old(spi.sent) + Repeat([readCommand, pollAddress / 0x100, pollAddress % 0x100, 0], polls)
              && polls > 0 && (status == 0x00 ==> spi.device(spi.sent) != pollValue) && status in {0x00, 0x80}
            else if selected in {4, 0x20} then
              && spi.sent == old(spi.sent) + Repeat([0xF0, 0, 0, 0], polls)
              && polls > 0 && (status == 0x00 ==> spi.device(spi.sent) % 2 == 0) && status in {0x00, 0x81}
            else spi.sent == old(spi.sent) && status == 0x00
  {
    CheckSelected(mode);
    status, polls := STATUS_CMD_OK, 0;
    EmptyRight(spi.sent);
    match CheckOf(mode) {
      case TimedDelay => timer.Pass();
      case ValuePoll => status, polls := WaitForValue(spi, timer, readCommand, pollAddress, pollValue);
      case BusyPolling => status, polls := WaitWhileTargetBusy(spi, timer);
      case NoCheck =>
    }
    if status == STATUS_CMD_OK {
      timer.remaining := COMMAND_TIMEOUT_MS;
    }
  }
}
