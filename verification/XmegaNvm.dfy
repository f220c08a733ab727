/** isp/Lib/XPROG/XMEGANVM.c: NVM operations of an XMEGA as a stream of PDI instructions. */
module XmegaNvm {
  import opened Bits
  import opened Seqs
  import opened Timers
  import opened PdiTargets

  const XMEGA_NVM_REG_DAT0: byte := 0x04
  const XMEGA_NVM_REG_CMD: byte := 0x0A
  const XMEGA_NVM_REG_CTRLA: byte := 0x0B
  const XMEGA_NVM_REG_STATUS: byte := 0x0F
  const XMEGA_NVM_CMD_READNVM: byte := 0x43
  const XMEGA_NVM_CMD_CHIPERASE: byte := 0x40
  const XMEGA_CRC_LENGTH := 3
  const CMDEX: byte := 1

  lemma PowerThirtyTwo()
    ensures Pow2(32) == 0x1_0000_0000
  {
    assert Pow2(4) == 0x10;
    assert Pow2(8) == 0x10 * Pow2(4);
    assert Pow2(12) == 0x10 * Pow2(8);
    assert Pow2(16) == 0x10 * Pow2(12);
    assert Pow2(20) == 0x10 * Pow2(16);
    assert Pow2(24) == 0x10 * Pow2(20);
    assert Pow2(28) == 0x10 * Pow2(24);
    assert Pow2(32) == 0x10 * Pow2(28);
  }

  /** `XPROG_Param_NVMBase | Register` */
  function RegisterAddress(base: dword, register: byte): dword {
    PowerThirtyTwo();
    OrBound(base, register, 32);
    Or(base, register)
  }

  /** The NVM registers of a device lie one after the other: its base address has six zero bits for their numbers. */
  lemma RegisterAddressAdds(base: dword, register: byte)
    requires base % 0x40 == 0 && register < 0x40
    ensures RegisterAddress(base, register) == base + register
  {
    assert Pow2(6) == 4 * Pow2(4) == 0x40;
    OrDisjoint(base, base / 0x40, register, 6);
  }

  /** The wire with a target at its end, which answers every load: `reply` gives the k-th answer, from an address. */
  class PdiWire {
    var target: Target
    const reply: (nat, nat) -> byte
    const timer: CommandTimer

    constructor (target: Target, reply: (nat, nat) -> byte, timer: CommandTimer)
      ensures this.target == target && this.reply == reply && this.timer == timer
    {
      this.target, this.reply, this.timer := target, reply, timer;
    }

    /** XPROGTarget_SendByte */
    method SendByte(b: byte)
      modifies this, timer`remaining, timer`phase
      ensures target == Take(old(target), b)
      ensures timer.remaining <= old(timer.remaining)
      ensures timer.remaining == old(timer.remaining) && timer.remaining > 0 ==> timer.phase < old(timer.phase)
    {
      target := Take(target, b);
      timer.Pass();
    }

    /** XPROGTarget_ReceiveByte */
    method ReceiveByte() returns (b: byte)
      modifies this, timer`remaining, timer`phase
      ensures b == reply(|old(target.loads)|, old(target.from)) && target == Give(old(target))
      ensures timer.remaining <= old(timer.remaining)
      ensures timer.remaining == old(timer.remaining) && timer.remaining > 0 ==> timer.phase < old(timer.phase)
    {
      b := reply(|target.loads|, target.from);
      target := Give(target);
      timer.Pass();
    }

    /** XMEGANVM_SendAddress: least significant byte first. */
    method SendAddress(address: dword)
      modifies this, timer`remaining, timer`phase
      ensures target == Feed(old(target), AddressBytes(address))
      ensures timer.remaining <= old(timer.remaining)
      ensures timer.remaining == old(timer.remaining) && timer.remaining > 0 ==> timer.phase < old(timer.phase)
    {
      FeedFour(target, AddressByte(address, 0), AddressByte(address, 1), AddressByte(address, 2),
               AddressByte(address, 3));
      SendByte(AddressByte(address, 0));
      SendByte(AddressByte(address, 1));
      SendByte(AddressByte(address, 2));
      SendByte(AddressByte(address, 3));
    }

    /** STS: one byte to one address, if the target is between instructions. */
    method Store(address: dword, value: byte)
      modifies this, timer`remaining, timer`phase
      ensures old(target.Quiet()) ==> target == old(target).(stores := old(target.stores) + [Stored(address, value)])
    {
      if target.Quiet() { StsEffect(target, address, value); }
      SendByte(OP_STS);
      SendAddress(address);
      SendByte(value);
    }

    /** ST to the pointer. */
    method SetPointer(address: dword)
      requires target.Quiet()
      modifies this, timer`remaining, timer`phase
      ensures target == old(target).(pointer := address)
    {
      PointerEffect(target, address);
      SendByte(OP_POINTER);
      SendAddress(address);
    }
  }

  /** `data` starts with the last `count` of the `asked` answers so far, which came from `address` onwards. */
  ghost predicate LastAnswers(reply: (nat, nat) -> byte, asked: nat, address: nat, count: nat, data: seq<byte>) {
    && count <= asked && count <= |data|
    && forall i {:trigger data[i]} :: 0 <= i < count ==> data[i] == reply(asked - count + i, Wrap(address + i))
  }

  /** The NVMEN bit of the PDI status register. */
  predicate NvmEnabled(status: byte) { status / 2 % 2 == 1 }

  /** The BUSY bit of the NVM status register is clear. */
  predicate ControllerIdle(status: byte) { status < 0x80 }

  /** The bits that the waits look at. */
  lemma StatusBits(status: byte)
    ensures NvmEnabled(status) <==> And(status, 0x02) != 0
    ensures ControllerIdle(status) <==> And(status, 0x80) == 0
  {
    AndOneBit(status, 1);
    AndOneBit(status, 7);
    assert Pow2(7) == 8 * Pow2(4) && Pow2(4) == 8 * Pow2(1) && Pow2(1) == 2;
  }

  /**
    The answers from `before` up to `after`, all from `address`, were to a poll that stops with the first answer that
    is right, or without one.
  */
  ghost predicate Polled(reply: (nat, nat) -> byte, address: nat, right: byte -> bool, before: nat, after: nat,
                         stopped: bool)
  {
    && before <= after
    && (stopped ==> before < after && right(reply(after - 1, address)))
    && forall k :: before <= k < (if stopped then after - 1 else after) ==> !right(reply(k, address))
  }

  // ----- What each operation stores in the target -----

  function ReadStores(base: dword): seq<Stored> {
    [Stored(RegisterAddress(base, XMEGA_NVM_REG_CMD), XMEGA_NVM_CMD_READNVM)]
  }

  function EraseBufferStores(base: dword, command: byte): seq<Stored> {
    [Stored(RegisterAddress(base, XMEGA_NVM_REG_CMD), command),
     Stored(RegisterAddress(base, XMEGA_NVM_REG_CTRLA), CMDEX)]
  }

  /** A command, and a dummy byte to the page or byte it is for. */
  function CommandStores(base: dword, command: byte, address: dword, value: byte): seq<Stored> {
    [Stored(RegisterAddress(base, XMEGA_NVM_REG_CMD), command), Stored(address, value)]
  }

  // The bits of PageMode.

  predicate Erases(pageMode: byte) { pageMode % 2 == 1 }

  predicate Writes(pageMode: byte) { pageMode / 2 % 2 == 1 }

  function EraseStores(base: dword, eraseBuff: byte, pageMode: byte): seq<Stored> {
    if Erases(pageMode) then EraseBufferStores(base, eraseBuff) else []
  }

  function FillStores(base: dword, writeBuff: byte, address: dword, data: seq<byte>): seq<Stored> {
    if data == [] then []
    else [Stored(RegisterAddress(base, XMEGA_NVM_REG_CMD), writeBuff)] + BlockStores(address, data)
  }

  function WriteStores(base: dword, writePage: byte, pageMode: byte, address: dword): seq<Stored> {
    if Writes(pageMode) then CommandStores(base, writePage, address, 0) else []
  }

  /** A page write: optionally erase the page buffer, fill it, optionally commit the page. */
  function PageStores(base: dword, writeBuff: byte, eraseBuff: byte, writePage: byte, pageMode: byte, address: dword,
                      data: seq<byte>): seq<Stored> {
    var erased := EraseStores(base, eraseBuff, pageMode);
    var filled := if data == [] then erased else erased + FillStores(base, writeBuff, address, data);
    if Writes(pageMode) then filled + WriteStores(base, writePage, pageMode, address) else filled
  }

  lemma PageStoresParts(base: dword, writeBuff: byte, eraseBuff: byte, writePage: byte, pageMode: byte, address: dword,
                        data: seq<byte>)
    ensures PageStores(base, writeBuff, eraseBuff, writePage, pageMode, address, data)
         == EraseStores(base, eraseBuff, pageMode) + FillStores(base, writeBuff, address, data)
            + WriteStores(base, writePage, pageMode, address)
  {
    var erased := EraseStores(base, eraseBuff, pageMode);
    EmptyRight(erased);
    EmptyRight(erased + FillStores(base, writeBuff, address, data));
  }

  function StatusAddress(base: dword): dword { RegisterAddress(base, XMEGA_NVM_REG_STATUS) }

  /** The answer that a target gets asked for after `j` others. */
  function AnswerTo(reply: (nat, nat) -> byte, t: Target, j: nat): byte {
    var g := GiveAll(t, j);
    reply(|g.loads|, g.from)
  }

  /** The answers that were due are the last ones, from one address after the other. */
  lemma DueAnswers(h: Target, reply: (nat, nat) -> byte, count: nat, data: seq<byte>)
    requires h.step == 1 && h.due == count && count <= |data|
    requires forall j :: 0 <= j < count ==> data[j] == AnswerTo(reply, h, j)
    ensures LastAnswers(reply, |GiveAll(h, count).loads|, h.from, count, data)
  {
    DueAnswer(h, reply, count);
    forall j | 0 <= j < count ensures data[j] == reply(|h.loads| + j, Wrap(h.from + j)) {
      DueAnswer(h, reply, j);
    }
  }

  lemma NothingStored(t: Target, count: nat)
    requires t.Quiet()
    ensures GiveAll(Feed(t, LoadHeader(count)), count).stores == t.stores
  {
    LoadHeaderEffect(t, count);
    GivesLoads(Feed(t, LoadHeader(count)), count);
  }

  lemma BlockDue(t: Target, count: nat)
    requires t.Quiet() && 1 <= count <= 256
    ensures var h := Feed(t, LoadHeader(count));
            h.due == count && h.from == t.pointer && h.step == 1 && h.loads == t.loads
  {
    LoadHeaderEffect(t, count);
    assert BlockCount(count) == count;
  }

  /** While answers are due, each comes from the next address. */
  lemma DueAnswer(h: Target, reply: (nat, nat) -> byte, j: nat)
    requires h.step == 1 && j <= h.due
    ensures AnswerTo(reply, h, j) == reply(|h.loads| + j, Wrap(h.from + j)) && |GiveAll(h, j).loads| == |h.loads| + j
  {
    GivesLoads(h, j);
  }

  /** A block of at most 256 bytes leaves the target between instructions. */
  lemma BlockEnds(t: Target, data: seq<byte>)
    requires t.Quiet() && data != []
    ensures |data| <= 256 ==> Feed(t, BlockHeader(|data|) + data).Quiet()
  {
    if |data| <= 256 {
      HeaderThenData(t, |data|, data);
      assert BlockCount(|data|) == |data|;
      RunStores(t.(awaits := StoreIndirect(true, |data|)), data, |data|);
    }
  }

  class Programmer {
    const wire: PdiWire
    const nvmBase: dword // XPROG_Param_NVMBase

    constructor (wire: PdiWire, nvmBase: dword)
      ensures this.wire == wire && this.nvmBase == nvmBase
    {
      this.wire, this.nvmBase := wire, nvmBase;
    }

    /** One poll of the PDI status register. */
    method PollBus() returns (status: byte)
      requires wire.target.Quiet()
      modifies wire, wire.timer`remaining, wire.timer`phase
      ensures wire.target.Quiet() && wire.target.stores == old(wire.target.stores)
      ensures |wire.target.loads| == old(|wire.target.loads|) + 1 && status == wire.reply(old(|wire.target.loads|), 0)
      ensures wire.timer.remaining <= old(wire.timer.remaining)
      ensures wire.timer.remaining == old(wire.timer.remaining) && wire.timer.remaining > 0 ==>
                wire.timer.phase < old(wire.timer.phase)
    {
      StatusOpcode(wire.target);
      wire.SendByte(OP_LDCS);
      status := wire.ReceiveByte();
    }

    /** XMEGANVM_WaitWhileNVMBusBusy */
    method WaitWhileNVMBusBusy() returns (ready: bool)
      requires wire.target.Quiet()
      modifies wire, wire.timer`remaining, wire.timer`phase
      ensures wire.target.Quiet() && wire.target.stores == old(wire.target.stores)
      ensures Polled(wire.reply, 0, NvmEnabled, old(|wire.target.loads|), |wire.target.loads|, ready)
      ensures if ready then wire.timer.remaining == COMMAND_TIMEOUT_MS else wire.timer.remaining == 0
    {
      while wire.timer.remaining > 0
        invariant wire.target.Quiet() && wire.target.stores == old(wire.target.stores)
        invariant Polled(wire.reply, 0, NvmEnabled, old(|wire.target.loads|), |wire.target.loads|, false)
        decreases wire.timer.remaining, wire.timer.phase
      {
        var status := PollBus();
        if status / 2 % 2 == 1 {
          wire.timer.remaining := COMMAND_TIMEOUT_MS;
          return true;
        }
      }
      return false;
    }

    /** One poll of the NVM status register. */
    method PollController() returns (status: byte)
      modifies wire, wire.timer`remaining, wire.timer`phase
      ensures old(wire.target.Quiet()) ==>
                && wire.target.Quiet() && wire.target.stores == old(wire.target.stores)
                && |wire.target.loads| == old(|wire.target.loads|) + 1
                && status == wire.reply(old(|wire.target.loads|), StatusAddress(nvmBase))
      ensures wire.timer.remaining <= old(wire.timer.remaining)
      ensures wire.timer.remaining == old(wire.timer.remaining) && wire.timer.remaining > 0 ==>
                wire.timer.phase < old(wire.timer.phase)
    {
      if wire.target.Quiet() { LdsEffect(wire.target, StatusAddress(nvmBase)); }
      wire.SendByte(OP_LDS);
      wire.SendAddress(RegisterAddress(nvmBase, XMEGA_NVM_REG_STATUS));
      status := wire.ReceiveByte();
    }

    /** A wait for the controller got right answers, in the right order. */
    twostate predicate Waited(ready: bool)
      reads this, wire
    {
      && wire.target.Quiet() && wire.target.stores == old(wire.target.stores)
      && Polled(wire.reply, StatusAddress(nvmBase), ControllerIdle, old(|wire.target.loads|), |wire.target.loads|,
                ready)
    }

    /**
      XMEGANVM_WaitWhileNVMControllerBusy. It comes to an end whatever the target does; from a target between
      instructions it gets the answers it asks for.
    */
    method WaitWhileNVMControllerBusy() returns (ready: bool)
      modifies wire, wire.timer`remaining, wire.timer`phase
      ensures old(wire.target.Quiet()) ==> Waited(ready)
      ensures if ready then wire.timer.remaining == COMMAND_TIMEOUT_MS else wire.timer.remaining == 0
    {
      while wire.timer.remaining > 0
        invariant old(wire.target.Quiet()) ==> Waited(false)
        decreases wire.timer.remaining, wire.timer.phase
      {
        var status := PollController();
        if status < 0x80 {
          wire.timer.remaining := COMMAND_TIMEOUT_MS;
          return true;
        }
      }
      return false;
    }

    /** Sets the NVM command register. */
    method SetCommand(command: byte)
      modifies wire, wire.timer`remaining, wire.timer`phase
      ensures old(wire.target.Quiet()) ==>
                wire.target == old(wire.target).(stores :=
                  old(wire.target.stores) + [Stored(RegisterAddress(nvmBase, XMEGA_NVM_REG_CMD), command)])
    {
      wire.Store(RegisterAddress(nvmBase, XMEGA_NVM_REG_CMD), command);
    }

    /** Sets the CMDEX bit, which starts the command. */
    method Execute()
      requires wire.target.Quiet()
      modifies wire, wire.timer`remaining, wire.timer`phase
      ensures wire.target == old(wire.target).(stores :=
                old(wire.target.stores) + [Stored(RegisterAddress(nvmBase, XMEGA_NVM_REG_CTRLA), CMDEX)])
    {
      wire.Store(RegisterAddress(nvmBase, XMEGA_NVM_REG_CTRLA), CMDEX);
    }

    /** The three bytes that start a block, of a store or of a load. */
    method SendHeader(count: nat, op: byte)
      requires wire.target.Quiet()
      modifies wire, wire.timer`remaining, wire.timer`phase
      ensures wire.target == Feed(old(wire.target), [OP_REPEAT, (count as int - 1) % 0x100, op])
    {
      FeedThree(wire.target, OP_REPEAT, (count as int - 1) % 0x100, op);
      wire.SendByte(OP_REPEAT);
      wire.SendByte((count as int - 1) % 0x100);
      wire.SendByte(op);
    }

    /** Receives `count` bytes of a block read, due or not. */
    method ReceiveBlock(count: nat, buffer: array<byte>)
      requires count <= buffer.Length
      modifies wire, wire.timer`remaining, wire.timer`phase, buffer
      ensures wire.target == GiveAll(old(wire.target), count)
      ensures forall j :: 0 <= j < count ==> buffer[j] == AnswerTo(wire.reply, old(wire.target), j)
      ensures forall j :: count <= j < buffer.Length ==> buffer[j] == old(buffer[j])
    {
      ghost var t := wire.target;
      var i := 0;
      while i < count
        invariant 0 <= i <= count && wire.target == GiveAll(t, i)
        invariant forall j :: 0 <= j < i ==> buffer[j] == AnswerTo(wire.reply, t, j)
        invariant forall j :: i <= j < buffer.Length ==> buffer[j] == old(buffer[j])
      {
        buffer[i] := wire.ReceiveByte();
        i := i + 1;
      }
    }

    /**
      Loads a block through the pointer. Afterwards the target is between instructions exactly if the block had 1 to
      256 bytes; then the buffer has its answers for the addresses from `address` on.
    */
    method ReadBlock(address: dword, count: nat, buffer: array<byte>)
      requires wire.target.Quiet() && count <= buffer.Length
      modifies wire, wire.timer`remaining, wire.timer`phase, buffer
      ensures wire.target.Quiet() <==> 1 <= count <= 256
      ensures wire.target.stores == old(wire.target.stores)
      ensures 1 <= count <= 256 ==> LastAnswers(wire.reply, |wire.target.loads|, address, count, buffer[..])
      ensures 1 <= count <= 256 ==> |wire.target.loads| == old(|wire.target.loads|) + count
      ensures forall i :: count <= i < buffer.Length ==> buffer[i] == old(buffer[i])
    {
      wire.SetPointer(address);
      ghost var t := wire.target;
      BlockReadIff(t, count);
      NothingStored(t, count);
      SendHeader(count, OP_LOAD);
      ghost var h := wire.target;
      ReceiveBlock(count, buffer);
      if 1 <= count <= 256 {
        BlockDue(t, count);
        DueAnswer(h, wire.reply, count);
        DueAnswers(h, wire.reply, count, buffer[..]);
      }
    }

    /**
      XMEGANVM_ReadMemory, for any size. `readBuffer[i]` is the target's answer for address `readAddress + i`, and the
      target is left between instructions, if there are 1 to 256 bytes. A size of 0 leaves it with 256 bytes to say,
      and a larger size asks for bytes that it does not have.
    */
    method ReadMemory(readAddress: dword, readBuffer: array<byte>, readSize: word) returns (ok: bool)
      requires wire.target.Quiet() && readSize <= readBuffer.Length
      modifies wire, wire.timer`remaining, wire.timer`phase, readBuffer
      ensures ok ==> (wire.target.Quiet() <==> 1 <= readSize <= 256)
      ensures ok ==> wire.target.stores == old(wire.target.stores) + ReadStores(nvmBase)
      ensures ok && 1 <= readSize <= 256 ==>
                && LastAnswers(wire.reply, |wire.target.loads|, readAddress, readSize, readBuffer[..])
                && old(|wire.target.loads|) + readSize as nat <= |wire.target.loads|
      ensures !ok ==> wire.target.Quiet() && wire.target.stores == old(wire.target.stores)
      ensures !ok ==> readBuffer[..] == old(readBuffer[..]) && wire.timer.remaining == 0
    {
      ok := WaitWhileNVMControllerBusy();
      if ok {
        SetCommand(XMEGA_NVM_CMD_READNVM);
        ReadBlock(readAddress, readSize, readBuffer);
      }
    }

    /** XMEGANVM_GetMemoryCRC: the three CRC bytes come from the data registers. */
    method GetMemoryCRC(crcCommand: byte, crcDest: array<byte>) returns (ok: bool)
      requires wire.target.Quiet() && crcDest.Length >= XMEGA_CRC_LENGTH
      modifies wire, wire.timer`remaining, wire.timer`phase, crcDest
      ensures wire.target.Quiet() && (!ok ==> wire.timer.remaining == 0)
      ensures old(wire.target.stores) <= wire.target.stores
      ensures wire.target.stores <= old(wire.target.stores) + EraseBufferStores(nvmBase, crcCommand)
      ensures ok ==> wire.target.stores == old(wire.target.stores) + EraseBufferStores(nvmBase, crcCommand)
      ensures ok ==> LastAnswers(wire.reply, |wire.target.loads|, RegisterAddress(nvmBase, XMEGA_NVM_REG_DAT0),
                                 3, crcDest[..])
    {
      ok := WaitWhileNVMControllerBusy();
      if !ok { return; }
      StartCommand(crcCommand);
      ok := WaitWhileNVMBusBusy();
      if !ok { return; }
      ok := WaitWhileNVMControllerBusy();
      if !ok { return; }
      ReadBlock(RegisterAddress(nvmBase, XMEGA_NVM_REG_DAT0), XMEGA_CRC_LENGTH, crcDest);
    }

    /** A command that CMDEX starts. */
    method StartCommand(command: byte)
      requires wire.target.Quiet()
      modifies wire, wire.timer`remaining, wire.timer`phase
      ensures wire.target.Quiet()
      ensures wire.target.stores == old(wire.target.stores) + EraseBufferStores(nvmBase, command)
    {
      SetCommand(command);
      Execute();
    }

    /** A command that a store to an address starts. */
    method CommandAt(command: byte, address: dword, value: byte)
      modifies wire, wire.timer`remaining, wire.timer`phase
      ensures old(wire.target.Quiet()) ==>
                && wire.target.Quiet()
                && wire.target.stores == old(wire.target.stores) + CommandStores(nvmBase, command, address, value)
    {
      SetCommand(command);
      wire.Store(address, value);
    }

    /** XMEGANVM_WriteByteMemory */
    method WriteByteMemory(writeCommand: byte, writeAddress: dword, b: byte) returns (ok: bool)
      requires wire.target.Quiet()
      modifies wire, wire.timer`remaining, wire.timer`phase
      ensures wire.target.Quiet() && (!ok ==> wire.timer.remaining == 0)
      ensures wire.target.stores == old(wire.target.stores)
                + if ok then CommandStores(nvmBase, writeCommand, writeAddress, b) else []
    {
      ok := WaitWhileNVMControllerBusy();
      if ok {
        CommandAt(writeCommand, writeAddress, b);
      } else {
        EmptyRight(wire.target.stores);
      }
    }

    /** XMEGANVM_EraseMemory: a chip erase is started by CMDEX, any other erase by a store to its address. */
    method EraseMemory(eraseCommand: byte, address: dword) returns (ok: bool)
      requires wire.target.Quiet()
      modifies wire, wire.timer`remaining, wire.timer`phase
      ensures wire.target.Quiet() && (!ok ==> wire.timer.remaining == 0)
      ensures var expected := if eraseCommand == XMEGA_NVM_CMD_CHIPERASE then EraseBufferStores(nvmBase, eraseCommand)
                              else CommandStores(nvmBase, eraseCommand, address, 0);
              if ok then wire.target.stores == old(wire.target.stores) + expected
              else
                || wire.target.stores == old(wire.target.stores)
                || wire.target.stores == old(wire.target.stores) + expected
    {
      ok := WaitWhileNVMControllerBusy();
      if ok {
        if eraseCommand == XMEGA_NVM_CMD_CHIPERASE {
          StartCommand(eraseCommand);
        } else {
          CommandAt(eraseCommand, address, 0);
        }
        ok := WaitWhileNVMBusBusy();
      }
    }

    /** Stores a block through the pointer: as asked for exactly if it has at most 256 bytes. */
    method WriteBlock(address: dword, data: seq<byte>)
      requires wire.target.Quiet() && data != []
      modifies wire, wire.timer`remaining, wire.timer`phase
      ensures wire.target.stores == old(wire.target.stores) + BlockStores(address, data) <==> |data| <= 256
      ensures |data| <= 256 ==> wire.target.Quiet()
    {
      wire.SetPointer(address);
      ghost var t := wire.target;
      BlockIff(t, data);
      BlockEnds(t, data);
      SendHeader(|data|, OP_STORE);
      SendData(data);
      FeedConcat(t, BlockHeader(|data|), data);
    }

    /** `while (WriteSize--) XPROGTarget_SendByte(*(WriteBuffer++));` */
    method SendData(data: seq<byte>)
      modifies wire, wire.timer`remaining, wire.timer`phase
      ensures wire.target == Feed(old(wire.target), data)
    {
      ghost var t := wire.target;
      var i := 0;
      while i < |data|
        invariant 0 <= i <= |data|
        invariant wire.target == Feed(t, data[..i])
      {
        FeedSnoc(t, data[..i], data[i]);
        assert data[..i] + [data[i]] == data[..i + 1];
        wire.SendByte(data[i]);
        i := i + 1;
      }
      assert data[..i] == data;
    }

    /** Fills the page buffer, if there is anything to fill it with: as asked for exactly if it is at most 256 bytes. */
    method FillBuffer(writeBuffCommand: byte, writeAddress: dword, data: seq<byte>) returns (ok: bool)
      requires wire.target.Quiet()
      modifies wire, wire.timer`remaining, wire.timer`phase
      ensures |data| <= 256 || !ok ==> wire.target.Quiet()
      ensures !ok ==> wire.timer.remaining == 0 && wire.target.stores == old(wire.target.stores)
      ensures ok ==> (wire.target.stores
                      == old(wire.target.stores) + FillStores(nvmBase, writeBuffCommand, writeAddress, data)
                      <==> |data| <= 256)
    {
      ok := true;
      EmptyRight(wire.target.stores);
      if data != [] {
        ghost var stores := wire.target.stores;
        ok := WaitWhileNVMControllerBusy();
        if ok {
          ghost var command := [Stored(RegisterAddress(nvmBase, XMEGA_NVM_REG_CMD), writeBuffCommand)];
          SetCommand(writeBuffCommand);
          WriteBlock(writeAddress, data);
          Assoc(stores, command, BlockStores(writeAddress, data));
        }
      }
    }

    /** Commits the page, if the mode asks for it. */
    method WritePageIfAsked(writePageCommand: byte, pageMode: byte, writeAddress: dword) returns (ok: bool)
      modifies wire, wire.timer`remaining, wire.timer`phase
      ensures !ok ==> wire.timer.remaining == 0
      ensures !Writes(pageMode) ==> ok && wire.target == old(wire.target)
      ensures old(wire.target.Quiet()) ==>
                && wire.target.Quiet()
                && wire.target.stores == old(wire.target.stores)
                     + if ok then WriteStores(nvmBase, writePageCommand, pageMode, writeAddress) else []
    {
      ok := true;
      EmptyRight(wire.target.stores);
      if Writes(pageMode) {
        ok := WaitWhileNVMControllerBusy();
        if ok {
          CommandAt(writePageCommand, writeAddress, 0x00);
        }
      }
    }

    /** Erases the page buffer, if the mode asks for it. */
    method EraseIfAsked(eraseBuffCommand: byte, pageMode: byte) returns (ok: bool)
      requires wire.target.Quiet()
      modifies wire, wire.timer`remaining, wire.timer`phase
      ensures wire.target.Quiet() && (!ok ==> wire.timer.remaining == 0)
      ensures wire.target.stores == old(wire.target.stores)
                + if ok then EraseStores(nvmBase, eraseBuffCommand, pageMode) else []
    {
      ok := true;
      EmptyRight(wire.target.stores);
      if Erases(pageMode) {
        ok := WaitWhileNVMControllerBusy();
        if ok {
          StartCommand(eraseBuffCommand);
        }
      }
    }

    /**
      XMEGANVM_WritePageMemory, for any size. Up to 256 bytes: when it succeeds the target has stored exactly the page
      operation; when a wait times out it has stored a part of it from the start; either way the target is left between
      instructions. Beyond, a buffer fill that is not committed never stores what was asked for.
    */
    method WritePageMemory(writeBuffCommand: byte, eraseBuffCommand: byte, writePageCommand: byte, pageMode: byte,
                           writeAddress: dword, data: seq<byte>) returns (ok: bool)
      requires wire.target.Quiet()
      modifies wire, wire.timer`remaining, wire.timer`phase
      ensures !ok ==> wire.timer.remaining == 0
      ensures |data| <= 256 ==>
                var page := PageStores(nvmBase, writeBuffCommand, eraseBuffCommand, writePageCommand, pageMode,
                                       writeAddress, data);
                && wire.target.Quiet()
                && old(wire.target.stores) <= wire.target.stores <= old(wire.target.stores) + page
                && (ok ==> wire.target.stores == old(wire.target.stores) + page)
      ensures ok && !Writes(pageMode) ==>
                var page := PageStores(nvmBase, writeBuffCommand, eraseBuffCommand, writePageCommand, pageMode,
                                       writeAddress, data);
                wire.target.stores == old(wire.target.stores) + page <==> |data| <= 256
    {
      ghost var stores := wire.target.stores;
      ghost var erase := EraseStores(nvmBase, eraseBuffCommand, pageMode);
      ghost var fill := FillStores(nvmBase, writeBuffCommand, writeAddress, data);
      ghost var write := WriteStores(nvmBase, writePageCommand, pageMode, writeAddress);
      PageParts(stores, erase, fill, write);
      PageStoresParts(nvmBase, writeBuffCommand, eraseBuffCommand, writePageCommand, pageMode, writeAddress, data);
      ok := EraseIfAsked(eraseBuffCommand, pageMode);
      if !ok { return; }
      ok := FillBuffer(writeBuffCommand, writeAddress, data);
      if !ok { return; }
      ok := WritePageIfAsked(writePageCommand, pageMode, writeAddress);
    }
  }

  // ----- Any sequence of calls -----

  /** A call of one of the operations. A read names how much of a buffer it fills. */
  datatype Call =
    | WaitBus
    | WaitController
    | Read(address: dword, size: word)
    | Crc(command: byte)
    | WriteByte(command: byte, address: dword, b: byte)
    | WritePage(writeBuff: byte, eraseBuff: byte, writePage: byte, pageMode: byte, address: dword, data: seq<byte>)
    | Erase(command: byte, address: dword)
  {
    /** Its repeat counts fit one byte. */
    predicate CountsFit() {
      match this
      case Read(_, size) => 1 <= size <= 256
      case WritePage(_, _, _, _, _, data) => |data| <= 256
      case _ => true
    }

    /** All that it is to store. */
    function Stores(base: dword): seq<Stored> {
      match this
      case WaitBus | WaitController => []
      case Read(_, _) => ReadStores(base)
      case Crc(command) => EraseBufferStores(base, command)
      case WriteByte(command, address, b) => CommandStores(base, command, address, b)
      case WritePage(writeBuff, eraseBuff, writePage, pageMode, address, data) =>
        PageStores(base, writeBuff, eraseBuff, writePage, pageMode, address, data)
      case Erase(command, address) =>
        if command == XMEGA_NVM_CMD_CHIPERASE then EraseBufferStores(base, command)
        else CommandStores(base, command, address, 0)
    }
  }

  /** What a call has stored: all of it if it succeeded, and in any case a part from its start. */
  predicate Explains(base: dword, call: Call, ok: bool, stored: seq<Stored>) {
    stored <= call.Stores(base) && (ok ==> stored == call.Stores(base))
  }

  function Together(parts: seq<seq<Stored>>): seq<Stored> {
    if parts == [] then [] else Together(parts[..|parts| - 1]) + parts[|parts| - 1]
  }

  /** What the first calls have stored, one after the other. */
  predicate ExplainsAll(base: dword, calls: seq<Call>, oks: seq<bool>, parts: seq<seq<Stored>>) {
    && |oks| == |parts| <= |calls|
    && forall i :: 0 <= i < |oks| ==> Explains(base, calls[i], oks[i], parts[i])
  }

  lemma ExplainsMore(base: dword, calls: seq<Call>, oks: seq<bool>, parts: seq<seq<Stored>>, ok: bool,
                     stored: seq<Stored>)
    requires ExplainsAll(base, calls, oks, parts) && |oks| < |calls| && Explains(base, calls[|oks|], ok, stored)
    ensures ExplainsAll(base, calls, oks + [ok], parts + [stored])
    ensures Together(parts + [stored]) == Together(parts) + stored
  {
    ButLastSnoc(parts, stored);
  }

  /** One call, in its own terms. */
  method Perform(programmer: Programmer, call: Call, buffer: array<byte>) returns (ok: bool, ghost stored: seq<Stored>)
    requires programmer.wire.target.Quiet() && call.CountsFit() && buffer.Length >= 256
    modifies programmer.wire, programmer.wire.timer`remaining, programmer.wire.timer`phase, buffer
    ensures programmer.wire.target.Quiet()
    ensures programmer.wire.target.stores == old(programmer.wire.target.stores) + stored
    ensures Explains(programmer.nvmBase, call, ok, stored)
  {
    ghost var before := programmer.wire.target.stores;
    EmptyRight(before);
    match call {
      case WaitBus => ok := programmer.WaitWhileNVMBusBusy();
      case WaitController => ok := programmer.WaitWhileNVMControllerBusy();
      case Read(address, size) => ok := programmer.ReadMemory(address, buffer, size);
      case Crc(command) => ok := programmer.GetMemoryCRC(command, buffer);
      case WriteByte(command, address, b) => ok := programmer.WriteByteMemory(command, address, b);
      case WritePage(writeBuff, eraseBuff, writePage, pageMode, address, data) =>
        ok := programmer.WritePageMemory(writeBuff, eraseBuff, writePage, pageMode, address, data);
      case Erase(command, address) => ok := programmer.EraseMemory(command, address);
    }
    stored := programmer.wire.target.stores[|before|..];
    PrefixRest(before, programmer.wire.target.stores, call.Stores(programmer.nvmBase));
  }

  lemma PrefixRest(before: seq<Stored>, after: seq<Stored>, all: seq<Stored>)
    requires before <= after <= before + all
    ensures after == before + after[|before|..] && after[|before|..] <= all
    ensures after == before + all ==> after[|before|..] == all
  {}

  /**
    Any sequence of calls, whatever comes of each. After each of them, and so at the end, the target is between
    instructions, and what it has stored is what the calls explain, one after the other.
  */
  method PerformAll(programmer: Programmer, calls: seq<Call>, buffer: array<byte>)
    returns (oks: seq<bool>, ghost parts: seq<seq<Stored>>)
    requires programmer.wire.target.Quiet() && buffer.Length >= 256 && forall call :: call in calls ==> call.CountsFit()
    modifies programmer.wire, programmer.wire.timer`remaining, programmer.wire.timer`phase, buffer
    ensures programmer.wire.target.Quiet()
    ensures |oks| == |parts| == |calls| && ExplainsAll(programmer.nvmBase, calls, oks, parts)
    ensures programmer.wire.target.stores == old(programmer.wire.target.stores) + Together(parts)
  {
    ghost var before := programmer.wire.target.stores;
    oks, parts := [], [];
    EmptyRight(before);
    var i := 0;
    while i < |calls|
      invariant 0 <= i <= |calls| && |oks| == |parts| == i
      invariant programmer.wire.target.Quiet() && ExplainsAll(programmer.nvmBase, calls, oks, parts)
      invariant programmer.wire.target.stores == before + Together(parts)
    {
      ghost var stored;
      var ok;
      ok, stored := Perform(programmer, calls[i], buffer);
      ExplainsMore(programmer.nvmBase, calls, oks, parts, ok, stored);
      Assoc(before, Together(parts), stored);
      oks, parts := oks + [ok], parts + [stored];
      i := i + 1;
    }
  }

  lemma PageParts(stores: seq<Stored>, erase: seq<Stored>, fill: seq<Stored>, write: seq<Stored>)
    ensures stores + (erase + fill + write) == stores + erase + fill + write
    ensures stores + [] == stores && stores + erase + [] == stores + erase
    ensures stores + erase + fill + [] == stores + erase + fill
    ensures forall x: seq<Stored> :: x + [] == x
  {}
}
