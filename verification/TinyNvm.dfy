/** isp/Lib/XPROG/TINYNVM.c: reading and writing the memory of a TPI target. */
module TinyNvm {
  import opened Bits
  import opened Timers
  import opened TpiTargets

  const TINY_NVM_CMD_NOOP: byte := 0x00
  const NVM_BUSY := 0x80

  /** The wire with a target at its end. It answers every load, so receiving never times out. */
  class TpiWire {
    var target: Target
    const timer: CommandTimer

    constructor (target: Target, timer: CommandTimer)
      ensures this.target == target && this.timer == timer
    {
      this.target := target;
      this.timer := timer;
    }

    /** XPROGTarget_SendByte */
    method SendByte(b: byte)
      modifies this, timer`remaining, timer`phase
      ensures target == Take(old(target), b)
      ensures timer.remaining <= old(timer.remaining)
      ensures timer.remaining == old(timer.remaining) && timer.remaining > 0 ==> timer.phase < old(timer.phase)
    {
      target := Take(target, b);
      timer.Pass();
    }

    /** XPROGTarget_ReceiveByte */
    method ReceiveByte() returns (b: byte)
      modifies this, timer`remaining, timer`phase
      ensures b == Offer(old(target)) && target == Give(old(target))
      ensures timer.remaining <= old(timer.remaining)
      ensures timer.remaining == old(timer.remaining) && timer.remaining > 0 ==> timer.phase < old(timer.phase)
    {
      b := Offer(target);
      target := Give(target);
      timer.Pass();
    }
  }

  /** The whole words that a write of `length` bytes stores: an odd byte is completed by 0xFF. */
  function Padded(data: seq<byte>): (r: seq<byte>)
    ensures |r| % 2 == 0 && |data| <= |r| <= |data| + 1
  {
    if |data| % 2 == 1 then data + [0xFF] else data
  }

  /** What a write stores. The count is 16 bits wide: the pad byte wraps a count of 65535 to zero. */
  function WholeWords(data: seq<byte>): seq<byte> {
    if |data| == 0xFFFF then [] else Padded(data)
  }

  /** The busy flag is the top bit of the status. */
  lemma BusyFlag(status: byte)
    ensures status < 0x80 <==> And(status, 0x80) == 0
  {
    AndOneBit(status, 7);
    assert Pow2(7) == 8 * Pow2(4) && Pow2(4) == 8 * Pow2(1) && Pow2(1) == 2;
  }

  class Programmer {
    const wire: TpiWire
    const commandRegister: byte // XPROG_Param_NVMCMDRegAddr
    const statusRegister: byte  // XPROG_Param_NVMCSRRegAddr

    /** The target is between instructions, and the host has told us its register addresses. */
    ghost predicate Connected()
      reads this, wire
    {
      && wire.target.Quiet()
      && wire.target.commandRegister == commandRegister % 0x40
      && wire.target.statusRegister == statusRegister % 0x40
    }

    constructor (wire: TpiWire, commandRegister: byte, statusRegister: byte)
      ensures this.wire == wire && this.commandRegister == commandRegister && this.statusRegister == statusRegister
    {
      this.wire, this.commandRegister, this.statusRegister := wire, commandRegister, statusRegister;
    }

    /** TINYNVM_SendPointerAddress */
    method SendPointerAddress(address: word)
      requires Connected()
      modifies wire, wire.timer`remaining, wire.timer`phase
      ensures Connected() && wire.target == old(wire.target).(pointer := address)
    {
      PointerDecodes(wire.target, address);
      wire.SendByte(TPI_CMD_SSTPR);
      wire.SendByte(LowByte(address));
      wire.SendByte(TPI_CMD_SSTPR + 1);
      wire.SendByte(HighByte(address));
    }

    /** Sets the NVM command register. */
    method SetCommand(command: byte)
      requires Connected()
      modifies wire, wire.timer`remaining, wire.timer`phase
      ensures Connected() && wire.target == old(wire.target).(command := command)
    {
      SoutDecodes(wire.target, commandRegister);
      wire.SendByte(SoutOpcode(commandRegister));
      wire.SendByte(command);
    }

    /** TINYNVM_WaitWhileNVMControllerBusy: polls until the busy flag is clear or the timeout is over. */
    method WaitWhileNVMControllerBusy() returns (ready: bool)
      requires Connected()
      modifies wire, wire.timer`remaining, wire.timer`phase
      ensures Connected() && wire.target.polls >= old(wire.target.polls)
      ensures wire.target == old(wire.target).(polls := wire.target.polls)
      ensures ready ==>
                wire.target.polls > old(wire.target.polls) && wire.target.status(wire.target.polls - 1) < 0x80
      ensures forall k :: old(wire.target.polls) <= k < (if ready then wire.target.polls - 1 else wire.target.polls) ==>
                wire.target.status(k) >= 0x80
      ensures ready ==> wire.timer.remaining == COMMAND_TIMEOUT_MS
      ensures !ready ==> wire.timer.remaining == 0
    {
      while wire.timer.remaining > 0
        invariant Connected() && wire.target.polls >= old(wire.target.polls)
        invariant wire.target == old(wire.target).(polls := wire.target.polls)
        invariant forall k :: old(wire.target.polls) <= k < wire.target.polls ==> wire.target.status(k) >= NVM_BUSY
        decreases wire.timer.remaining, wire.timer.phase
      {
        SinDecodes(wire.target, statusRegister);
        wire.SendByte(SinOpcode(statusRegister));
        var status := wire.ReceiveByte();
        if status < NVM_BUSY {
          wire.timer.remaining := COMMAND_TIMEOUT_MS;
          return true;
        }
      }
      return false;
    }

    /** Reads one byte through the pointer. */
    method LoadNext() returns (b: byte)
      requires Connected()
      modifies wire, wire.timer`remaining, wire.timer`phase
      ensures Connected() && b == FlashAt(wire.target, old(wire.target.pointer))
      ensures wire.target == old(wire.target).(pointer := Increment(old(wire.target.pointer)))
    {
      wire.SendByte(TPI_CMD_SLD + TPI_POINTER_INDIRECT_PI);
      b := wire.ReceiveByte();
    }

    /** TINYNVM_ReadMemory, at any address: the pointer wraps, and beyond the flash the target answers 0xFF. */
    method ReadMemory(readAddress: word, readBuffer: array<byte>, readSize: word) returns (ok: bool)
      requires Connected() && readSize <= readBuffer.Length
      modifies wire, wire.timer`remaining, wire.timer`phase, readBuffer
      ensures Connected() && wire.target.flash == old(wire.target.flash)
      ensures ok ==> wire.target.command == 0x00
      ensures ok ==> forall j :: 0 <= j < readSize ==> readBuffer[j] == ReadAt(old(wire.target), readAddress, j)
      ensures forall j :: readSize <= j < readBuffer.Length ==> readBuffer[j] == old(readBuffer[j])
      ensures !ok ==> readBuffer[..] == old(readBuffer[..]) && wire.timer.remaining == 0
    {
      ok := WaitWhileNVMControllerBusy();
      if !ok {
        return;
      }
      SetCommand(TINY_NVM_CMD_NOOP);
      SendPointerAddress(readAddress);
      var i := 0;
      while i < readSize
        invariant 0 <= i <= readSize
        invariant Connected() && wire.target.flash == old(wire.target.flash)
        invariant wire.target.pointer == (readAddress + i) % 0x1_0000 && wire.target.command == 0x00
        invariant forall j :: 0 <= j < i ==> readBuffer[j] == ReadAt(old(wire.target), readAddress, j)
        invariant forall j :: i <= j < readBuffer.Length ==> readBuffer[j] == old(readBuffer[j])
      {
        readBuffer[i] := LoadNext();
        i := i + 1;
      }
    }

    /** Writes one word through the pointer. */
    method StoreWord(low: byte, high: byte)
      requires Connected()
      modifies wire, wire.timer`remaining, wire.timer`phase
      ensures Connected() && wire.target == Store(Store(old(wire.target), low, true), high, true)
    {
      WordStored(wire.target, low, high);
      wire.SendByte(STORE_NEXT);
      wire.SendByte(low);
      wire.SendByte(STORE_NEXT);
      wire.SendByte(high);
    }

    /**
      TINYNVM_WriteMemory, at any address. The target has taken `stored` bytes: all of them, with the pad byte, if the
      result is true, and a prefix of whole words if a wait times out. A half word is never left behind. If the address
      is even and there is flash for them, they are programmed in their places. The buffer must have room for the pad
      byte.
    */
    method WriteMemory(writeAddress: word, writeBuffer: array<byte>, writeLength: word)
      returns (ok: bool, ghost stored: nat)
      requires Connected()
      requires writeLength + writeLength % 2 <= writeBuffer.Length
      modifies wire, wire.timer`remaining, wire.timer`phase, writeBuffer
      ensures Connected()
      ensures var data := WholeWords(old(writeBuffer[..writeLength]));
              && stored % 2 == 0 && stored <= |data| && (ok ==> stored == |data|)
              && wire.target.flash == StoreAll(At(old(wire.target), writeAddress), data[..stored]).flash
              && (writeAddress % 2 == 0 && Fits(old(wire.target), writeAddress, stored) ==>
                    wire.target.flash == Programmed(old(wire.target).flash, writeAddress, data[..stored]))
              && (ok && writeAddress % 2 == 0 && Fits(old(wire.target), writeAddress, |data|)
                  && writeLength < 0xFFFF ==>
                    wire.target.flash
                    == Programmed(old(wire.target).flash, writeAddress, old(writeBuffer[..writeLength])))
      ensures writeBuffer[..writeLength] == old(writeBuffer[..writeLength])
      ensures !ok ==> wire.timer.remaining == 0
    {
      stored := 0;
      ghost var t := At(wire.target, writeAddress);
      ok := WaitWhileNVMControllerBusy();
      if ok {
        var length := Pad(writeBuffer, writeLength);
        ghost var data := writeBuffer[..length];
        SetCommand(TINY_NVM_CMD_WORDWRITE);
        SendPointerAddress(writeAddress);
        assert wire.target == t.(polls := wire.target.polls);
        ok, stored := WriteWords(writeBuffer, length, t, data);
      }
      ghost var whole := WholeWords(old(writeBuffer[..writeLength]));
      ProgrammedPrefix(t, writeAddress, whole[..stored]);
      if ok {
        assert whole[..stored] == whole;
        if Fits(t, writeAddress, |whole|) { PadKeeps(t.flash, writeAddress, old(writeBuffer[..writeLength])); }
      }
    }

    /** An odd length gets a pad byte; the count is 16 bits wide. */
    method Pad(writeBuffer: array<byte>, writeLength: word) returns (length: word)
      requires writeLength + writeLength % 2 <= writeBuffer.Length
      modifies writeBuffer
      ensures length % 2 == 0 && length <= writeBuffer.Length
      ensures writeBuffer[..length] == WholeWords(old(writeBuffer[..writeLength]))
      ensures writeBuffer[..writeLength] == old(writeBuffer[..writeLength])
    {
      length := writeLength;
      if length % 2 == 1 {
        writeBuffer[length] := 0xFF;
        length := (length as int + 1) % 0x1_0000;
      }
    }

    /** The target, but for the polls it has answered, after `n` bytes of a write that began with it as `t`. */
    ghost predicate HasTaken(t: Target, data: seq<byte>, n: nat)
      reads this, wire
      requires n <= |data|
    {
      wire.target == StoreAll(t, data[..n]).(polls := wire.target.polls)
    }

    /** One round of the word loop: wait until the controller is free, then store a word. */
    method WriteNext(position: nat, ghost t: Target, ghost data: seq<byte>, low: byte, high: byte) returns (ok: bool)
      requires Connected() && position + 1 < |data| && low == data[position] && high == data[position + 1]
      requires HasTaken(t, data, position)
      modifies wire, wire.timer`remaining, wire.timer`phase
      ensures Connected()
      ensures if ok then HasTaken(t, data, position + 2) else HasTaken(t, data, position) && wire.timer.remaining == 0
    {
      ok := WaitWhileNVMControllerBusy();
      if ok {
        StoreTwo(t, data, position);
        TwoMore(StoreAll(t, data[..position]), low, high, wire.target.polls);
        StoreWord(low, high);
      }
    }

    /** The word loop of TINYNVM_WriteMemory. */
    method WriteWords(writeBuffer: array<byte>, writeLength: word, ghost t: Target, ghost data: seq<byte>)
      returns (ok: bool, ghost stored: nat)
      requires Connected() && writeLength % 2 == 0 && writeLength <= writeBuffer.Length
      requires writeBuffer[..writeLength] == data && HasTaken(t, data, 0)
      modifies wire, wire.timer`remaining, wire.timer`phase
      ensures Connected()
      ensures stored % 2 == 0 && stored <= |data| && (ok ==> stored == |data|)
      ensures HasTaken(t, data, stored)
      ensures !ok ==> wire.timer.remaining == 0
    {
      var position: nat, left := 0, writeLength;
      stored := 0;
      while left > 0
        invariant position + left == writeLength && position % 2 == 0 && stored == position
        invariant Connected() && HasTaken(t, data, position)
      {
        ok := WriteNext(position, t, data, writeBuffer[position], writeBuffer[position + 1]);
        if !ok {
          return;
        }
        position := position + 2;
        left := left - 2;
        stored := position;
      }
      ok := true;
    }
  }

  /** What a read gets for byte `i`. */
  function ReadAt(t: Target, address: word, i: nat): byte { FlashAt(t, (address + i) % 0x1_0000) }

  /** A target with the command and the pointer set for a write. */
  function At(t: Target, address: word): Target { t.(command := TINY_NVM_CMD_WORDWRITE, pointer := address) }

  lemma TwoMore(t: Target, low: byte, high: byte, polls: nat)
    ensures Store(Store(t.(polls := polls), low, true), high, true)
         == Store(Store(t, low, true), high, true).(polls := polls)
  {
    StorePolls(t, low, polls);
    StorePolls(Store(t, low, true), high, polls);
  }

  /** The pad byte changes nothing: of the flash only the bytes of the data are programmed. */
  lemma PadKeeps(flash: seq<byte>, at: nat, data: seq<byte>)
    requires at + |WholeWords(data)| <= |flash|
    ensures |data| < 0xFFFF ==>
              at + |data| <= |flash| && Programmed(flash, at, WholeWords(data)) == Programmed(flash, at, data)
  {
    if |data| < 0xFFFF {
      forall i | 0 <= i < |flash| ensures Programmed(flash, at, WholeWords(data))[i] == Programmed(flash, at, data)[i] {
        AndErased(flash[i]);
      }
    }
  }

  lemma ProgrammedPrefix(t: Target, address: word, data: seq<byte>)
    requires Aimed(t, address) && |data| % 2 == 0
    ensures address % 2 == 0 && Fits(t, address, |data|) ==>
              StoreAll(t, data).flash == Programmed(t.flash, address, data)
  {
    if address % 2 == 0 && Fits(t, address, |data|) { EvenStores(t, address, data); }
  }

  /**
    Write, then read, at any address. If both succeed the result is what the stores have made of the flash. From an even
    address, with flash for the whole words, it is what was written exactly when that takes: programming only clears
    bits, so the flash has to have ones wherever the data has. On erased flash it always does.
  */
  method WriteThenRead(programmer: Programmer, address: word, buffer: array<byte>, length: word, result: array<byte>)
    returns (ok: bool)
    requires programmer.Connected()
    requires buffer != result && length + length % 2 <= buffer.Length && length <= result.Length
    modifies programmer.wire, programmer.wire.timer`remaining, programmer.wire.timer`phase, buffer, result
    ensures programmer.Connected()
    ensures var t, data := old(programmer.wire.target), WholeWords(old(buffer[..length]));
            ok ==>
              && programmer.wire.target.flash == StoreAll(At(t, address), data).flash
              && (forall i :: 0 <= i < length ==> result[i] == ReadAt(programmer.wire.target, address, i))
              && (address % 2 == 0 && Fits(t, address, |data|) && length < 0xFFFF ==>
                    (result[..length] == old(buffer[..length]) <==> Takes(t.flash, address, old(buffer[..length]))))
  {
    ghost var t, data := programmer.wire.target, WholeWords(buffer[..length]);
    ghost var written := buffer[..length];
    ghost var stored;
    ok, stored := programmer.WriteMemory(address, buffer, length);
    if ok {
      ghost var u := programmer.wire.target;
      assert data[..stored] == data;
      ok := programmer.ReadMemory(address, result, length);
      if ok && address % 2 == 0 && Fits(t, address, |data|) && length < 0xFFFF {
        ReadsIffTakes(t.flash, u, address, written, data, result[..length]);
      }
    }
  }

  /** Programming these bytes leaves them as they are. */
  predicate Takes(flash: seq<byte>, address: word, data: seq<byte>)
    requires address + |data| <= |flash|
  {
    forall i :: 0 <= i < |data| ==> And(flash[address + i], data[i]) == data[i]
  }

  lemma ReadsIffTakes(flash: seq<byte>, u: Target, address: word, written: seq<byte>, data: seq<byte>,
                      result: seq<byte>)
    requires written <= data && address + |data| <= |flash| <= 0x1_0000 && |result| == |written|
    requires u.flash == Programmed(flash, address, data)
    requires forall i :: 0 <= i < |result| ==> result[i] == ReadAt(u, address, i)
    ensures result == written <==> Takes(flash, address, written)
  {
    forall i | 0 <= i < |result| ensures result[i] == And(flash[address + i], written[i]) {
      NoWrap(address, i);
      assert data[i] == written[i];
    }
  }

  lemma NoWrap(address: word, i: nat)
    requires address + i < 0x1_0000
    ensures (address + i) % 0x1_0000 == address + i
  {}

  /** On erased flash everything takes. */
  lemma ErasedTakes(flash: seq<byte>, address: word, data: seq<byte>)
    requires address + |data| <= |flash| && forall j :: address <= j < address + |data| ==> flash[j] == 0xFF
    ensures Takes(flash, address, data)
  {
    forall i | 0 <= i < |data| ensures And(flash[address + i], data[i]) == data[i] {
      AndErased(data[i]);
    }
  }
}
