/** CMD_SPI_MULTI of isp/Lib/ISP/ISPProtocol.c: a raw exchange of bytes with the target. */
module SpiMulti {
  import opened Bits
  import opened Seqs
  import opened SpiBuses
  import opened UsbPackets

  const CMD_SPI_MULTI: byte := 0x1D
  const STATUS_CMD_OK: byte := 0x00

  /** The first `n` bytes of a transaction: the host's bytes, then zeros. */
  function Transmitted(txData: seq<byte>, n: nat): (s: seq<byte>)
    ensures |s| == n
    ensures forall k :: 0 <= k < n ==> s[k] == if k < |txData| then txData[k] else 0
  {
    if n == 0 then [] else Transmitted(txData, n - 1) + [if n - 1 < |txData| then txData[n - 1] else 0]
  }

  /** What the device answers to transfers `from` to `to` of a transaction. */
  function Answers(device: Device, before: seq<byte>, txData: seq<byte>, from: nat, to: nat): (s: seq<byte>)
    requires from <= to
    ensures |s| == to - from
    ensures forall k :: 0 <= k < to - from ==> s[k] == device(before + Transmitted(txData, from + k + 1))
  {
    if from == to then []
    else Answers(device, before, txData, from, to - 1) + [device(before + Transmitted(txData, to))]
  }

  /**
    ISPProtocol_SPIMulti: exactly `rxStartAddr + rxBytes` transfers, of which the last `rxBytes` answers are
    returned. Both position counters are bytes, and neither wraps.
  */
  method Exchange(spi: SpiBus, endpoint: Endpoint, rxBytes: byte, rxStartAddr: byte, txData: seq<byte>)
    requires |txData| < 0x100 && endpoint.bank == []
    modifies spi, endpoint
    ensures endpoint.bank == []
    ensures spi.sent == old(spi.sent) + Transmitted(txData, rxStartAddr + rxBytes)
    ensures endpoint.packets == old(endpoint.packets) + Packetize([0x1D, 0x00]
              + Answers(spi.device, old(spi.sent), txData, rxStartAddr, rxStartAddr + rxBytes) + [0x00])
  {
    ghost var before, packets := spi.sent, endpoint.packets;
    endpoint.Begin(CMD_SPI_MULTI, STATUS_CMD_OK);
    SendLeading(spi, rxStartAddr, txData);
    ReceiveAnswers(spi, endpoint, rxBytes, rxStartAddr, txData, before, packets);
    ghost var answers := Answers(spi.device, before, txData, rxStartAddr, rxStartAddr + rxBytes);
    endpoint.FinishWith(STATUS_CMD_OK, packets, [CMD_SPI_MULTI, STATUS_CMD_OK] + answers);
  }

  /** The first loop: everything before the answers that count. */
  method SendLeading(spi: SpiBus, rxStartAddr: byte, txData: seq<byte>)
    requires |txData| < 0x100
    modifies spi
    ensures spi.sent == old(spi.sent) + Transmitted(txData, rxStartAddr)
  {
    var currTxPos: byte := 0;
    EmptyRight(spi.sent);
    while currTxPos < rxStartAddr
      invariant currTxPos <= rxStartAddr
      invariant spi.sent == old(spi.sent) + Transmitted(txData, currTxPos)
    {
      ghost var sent := Transmitted(txData, currTxPos);
      var response;
      if currTxPos < |txData| {
        response := spi.Transfer(txData[currTxPos]);
      } else {
        response := spi.Transfer(0);
      }
      Assoc(old(spi.sent), sent, [if currTxPos < |txData| then txData[currTxPos] else 0]);
      currTxPos := currTxPos + 1;
    }
  }

  /** The second loop: the transmit position stops at the end of the host's bytes, the receive position runs on. */
  method ReceiveAnswers(spi: SpiBus, endpoint: Endpoint, rxBytes: byte, rxStartAddr: byte, txData: seq<byte>,
                        ghost before: seq<byte>, ghost packets: seq<seq<byte>>)
    requires |txData| < 0x100
    requires spi.sent == before + Transmitted(txData, rxStartAddr)
    requires endpoint.Streaming(packets, [CMD_SPI_MULTI, STATUS_CMD_OK])
    modifies spi, endpoint
    ensures spi.sent == before + Transmitted(txData, rxStartAddr + rxBytes)
    ensures endpoint.Streaming(packets, [CMD_SPI_MULTI, STATUS_CMD_OK]
              + Answers(spi.device, before, txData, rxStartAddr, rxStartAddr + rxBytes))
  {
    var currTxPos: byte := rxStartAddr;
    var currRxPos: byte := 0;
    EmptyRight([CMD_SPI_MULTI, STATUS_CMD_OK]);
    while currRxPos < rxBytes
      invariant currRxPos <= rxBytes
      invariant currTxPos == TxPosition(rxStartAddr, currRxPos, |txData|)
      invariant spi.sent == before + Transmitted(txData, rxStartAddr + currRxPos)
      invariant endpoint.Streaming(packets, ResponseSoFar(spi.device, before, txData, rxStartAddr, currRxPos))
    {
      currTxPos := ReceiveOne(spi, endpoint, rxStartAddr, currRxPos, currTxPos, txData, before, packets);
      currRxPos := currRxPos + 1;
    }
  }

  /** The response with the first `n` answers in it. */
  function ResponseSoFar(device: Device, before: seq<byte>, txData: seq<byte>, start: nat, n: nat): seq<byte> {
    [CMD_SPI_MULTI, STATUS_CMD_OK] + Answers(device, before, txData, start, start + n)
  }

  lemma OneAnswer(device: Device, before: seq<byte>, txData: seq<byte>, start: nat, n: nat)
    ensures ResponseSoFar(device, before, txData, start, n + 1)
         == ResponseSoFar(device, before, txData, start, n) + [device(before + Transmitted(txData, start + n + 1))]
  {
    Assoc([CMD_SPI_MULTI, STATUS_CMD_OK], Answers(device, before, txData, start, start + n),
          [device(before + Transmitted(txData, start + n + 1))]);
  }

  /** The body of that loop: transfer the next byte of the transaction, and stream the answer. */
  method ReceiveOne(spi: SpiBus, endpoint: Endpoint, rxStartAddr: byte, currRxPos: byte, currTxPos: byte,
                    txData: seq<byte>, ghost before: seq<byte>, ghost packets: seq<seq<byte>>) returns (nextTxPos: byte)
    requires |txData| < 0x100 && currTxPos == TxPosition(rxStartAddr, currRxPos, |txData|)
    requires spi.sent == before + Transmitted(txData, rxStartAddr + currRxPos)
    requires endpoint.Streaming(packets, ResponseSoFar(spi.device, before, txData, rxStartAddr, currRxPos))
    modifies spi, endpoint
    ensures nextTxPos == TxPosition(rxStartAddr, currRxPos + 1, |txData|)
    ensures spi.sent == before + Transmitted(txData, rxStartAddr + currRxPos + 1)
    ensures endpoint.Streaming(packets, ResponseSoFar(spi.device, before, txData, rxStartAddr, currRxPos + 1))
  {
    ghost var k := rxStartAddr + currRxPos;
    Assoc(before, Transmitted(txData, k), [if k < |txData| then txData[k] else 0]);
    OneAnswer(spi.device, before, txData, rxStartAddr, currRxPos);
    var answer;
    nextTxPos := currTxPos;
    if currTxPos < |txData| {
      answer := spi.Transfer(txData[currTxPos]);
      nextTxPos := currTxPos + 1;
    } else {
      answer := spi.Transfer(0);
    }
    endpoint.StreamByte(answer, packets, ResponseSoFar(spi.device, before, txData, rxStartAddr, currRxPos));
  }

  /** The transmit position after `received` answers. */
  function TxPosition(start: nat, received: nat, available: nat): nat {
    if start >= available then start
    else if start + received < available then start + received else available
  }

  /** The host's bytes beyond the last transfer are never sent: the exchange delivers them all iff they fit. */
  lemma DeliversAllIff(txData: seq<byte>, rxStartAddr: byte, rxBytes: byte)
    ensures txData <= Transmitted(txData, rxStartAddr + rxBytes) <==> |txData| <= rxStartAddr + rxBytes
  {}

  /** The host reads back the answers, whatever their number. */
  lemma HostGetsAnswers(device: Device, before: seq<byte>, txData: seq<byte>, rxStartAddr: byte, rxBytes: byte,
                        later: seq<seq<byte>>)
    ensures var answers := Answers(device, before, txData, rxStartAddr, rxStartAddr + rxBytes);
            var response := [CMD_SPI_MULTI, STATUS_CMD_OK] + answers + [STATUS_CMD_OK];
            Transfer(Packetize(response) + later) == (response, later) && |answers| == rxBytes
  {
    HostReadsBack([CMD_SPI_MULTI, STATUS_CMD_OK]
      + Answers(device, before, txData, rxStartAddr, rxStartAddr + rxBytes) + [STATUS_CMD_OK], later);
  }
}
