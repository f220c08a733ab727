/** The older loops of isp/Lib/ISPProtocol.c, which set or clear the high-half bit from the parity of the index. */
module IspLegacy {
  import opened Bits
  import opened Seqs
  import opened SpiBuses
  import opened IspStreams

  class LegacyProgrammer {
    var currentAddress: dword
    const spi: SpiBus

    constructor (spi: SpiBus)
      ensures this.spi == spi
    {
      this.spi := spi;
      currentAddress := 0;
    }

    method SendInstruction(command: byte, value: byte) returns (response: byte)
      modifies spi
      ensures spi.sent == old(spi.sent) + IspStreams.Instruction(command, currentAddress, value)
      ensures response == spi.device(spi.sent)
    {
      response := spi.Instruction(command, HighByte(currentAddress), LowByte(currentAddress), value);
    }

    /** The paged write loop of ISPProtocol_ProgramMemory. */
    method WritePage(flash: bool, writeCommand: byte, data: seq<byte>)
      requires |data| <= 256
      modifies this`currentAddress, spi
      ensures spi.sent == old(spi.sent) + WriteStream(SetClear, flash, writeCommand, old(currentAddress), data)
      ensures currentAddress == AddressAt(flash, old(currentAddress), |data|)
    {
      var command := writeCommand;
      ghost var start, before, stream := currentAddress, spi.sent, [];
      EmptyRight(before);
      var i := 0;
      while i < |data|
        invariant 0 <= i <= |data|
        invariant command == if i == 0 then writeCommand else CommandAt(SetClear, flash, writeCommand, i - 1)
        invariant currentAddress == AddressAt(flash, start, i)
        invariant stream == WriteStream(SetClear, flash, writeCommand, start, data[..i]) && spi.sent == before + stream
      {
        var isOddByte := i % 2 == 1;
        SetClearStep(flash, writeCommand, i, command);
        AddressStep(flash, start, i);
        WriteStreamSnoc(SetClear, flash, writeCommand, start, data, i);
        if isOddByte && flash {
          command := SetHigh(command);
        } else {
          command := ClearHigh(command);
        }
        var _ := SendInstruction(command, data[i]);
        Assoc(before, stream, IspStreams.Instruction(command, currentAddress, data[i]));
        stream := stream + IspStreams.Instruction(command, currentAddress, data[i]);
        if isOddByte || !flash {
          currentAddress := (currentAddress as int + 1) % 0x1_0000_0000;
        }
        i := i + 1;
      }
      assert data[..i] == data;
    }

    /** The read loop of ISPProtocol_ReadMemory. */
    method Read(flash: bool, readCommand: byte, count: word)
      modifies this`currentAddress, spi
      ensures spi.sent == old(spi.sent) + ReadStream(SetClear, flash, readCommand, old(currentAddress), count)
      ensures currentAddress == AddressAt(flash, old(currentAddress), count)
    {
      var command := readCommand;
      ghost var start, before := currentAddress, spi.sent;
      EmptyRight(before);
      var i := 0;
      while i < count
        invariant 0 <= i <= count
        invariant command == if i == 0 then readCommand else CommandAt(SetClear, flash, readCommand, i - 1)
        invariant currentAddress == AddressAt(flash, start, i)
        invariant spi.sent == before + ReadStream(SetClear, flash, readCommand, start, i)
      {
        var isOddByte := i % 2 == 1;
        SetClearStep(flash, readCommand, i, command);
        AddressStep(flash, start, i);
        if isOddByte && flash {
          command := SetHigh(command);
        } else {
          command := ClearHigh(command);
        }
        Assoc(before, ReadStream(SetClear, flash, readCommand, start, i),
              IspStreams.Instruction(command, currentAddress, 0));
        var _ := SendInstruction(command, 0);
        if (isOddByte && flash) || !flash {
          currentAddress := (currentAddress as int + 1) % 0x1_0000_0000;
        }
        i := i + 1;
      }
    }
  }
}
