/** The SPI link to the target: every transfer sends a byte and brings one back. */
module SpiBuses {
  import opened Bits

  /** What a device answers to the last of the bytes it has been sent. */
  type Device = seq<byte> -> byte

  class SpiBus {
    const device: Device
    var sent: seq<byte> // the whole history of the bus; the device may depend on all of it

    constructor (device: Device)
      ensures this.device == device && sent == []
    {
      this.device := device;
      sent := [];
    }

    /** SPI_TransferByte, of which SPI_SendByte and SPI_ReceiveByte (which sends 0) are special cases. */
    method Transfer(b: byte) returns (response: byte)
      modifies this
      ensures sent == old(sent) + [b] && response == device(sent)
    {
      sent := sent + [b];
      response := device(sent);
    }

    /** Four transfers: a serial programming instruction. The last response is the instruction's result. */
    method Instruction(a: byte, b: byte, c: byte, d: byte) returns (response: byte)
      modifies this
      ensures sent == old(sent) + [a, b, c, d] && response == device(sent)
    {
      response := Transfer(a);
      response := Transfer(b);
      response := Transfer(c);
      response := Transfer(d);
      assert old(sent) + [a] + [b] + [c] + [d] == old(sent) + [a, b, c, d];
    }
  }
}
