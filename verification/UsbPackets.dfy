/** The bulk IN endpoint of the programmer: a 64-byte bank that is sent when it is full, or at the end. */
module UsbPackets {
  import opened Bits
  import opened Seqs

  const AVRISP_DATA_EPSIZE := 64

  /** The full packets at the front of a response, and what is left over. */
  function FullPackets(s: seq<byte>): seq<seq<byte>> {
    if |s| < AVRISP_DATA_EPSIZE then [] else [s[..AVRISP_DATA_EPSIZE]] + FullPackets(s[AVRISP_DATA_EPSIZE..])
  }

  function Rest(s: seq<byte>): (r: seq<byte>)
    ensures |r| < AVRISP_DATA_EPSIZE
  {
    if |s| < AVRISP_DATA_EPSIZE then s else Rest(s[AVRISP_DATA_EPSIZE..])
  }

  function Packetize(s: seq<byte>): seq<seq<byte>> { FullPackets(s) + [Rest(s)] }

  /** A response grows by one byte: the bank grows, or it fills up and becomes a packet. */
  lemma {:induction false} GrowsByOne(s: seq<byte>, b: byte)
    ensures if |Rest(s)| + 1 < AVRISP_DATA_EPSIZE
            then FullPackets(s + [b]) == FullPackets(s) && Rest(s + [b]) == Rest(s) + [b]
            else FullPackets(s + [b]) == FullPackets(s) + [Rest(s) + [b]] && Rest(s + [b]) == []
  {
    var n := AVRISP_DATA_EPSIZE;
    if |s| < n {
      if |s| + 1 == n { FullOne(s + [b]); }
    } else {
      assert (s + [b])[..n] == s[..n] && (s + [b])[n..] == s[n..] + [b];
      GrowsByOne(s[n..], b);
      Assoc([s[..n]], FullPackets(s[n..]), [Rest(s) + [b]]);
    }
  }

  lemma FullOne(s: seq<byte>)
    requires |s| == AVRISP_DATA_EPSIZE
    ensures FullPackets(s) == [s] && Rest(s) == []
  {
    assert s[..AVRISP_DATA_EPSIZE] == s && s[AVRISP_DATA_EPSIZE..] == [];
  }

  function Concat(packets: seq<seq<byte>>): seq<byte> {
    if packets == [] then [] else packets[0] + Concat(packets[1..])
  }

  /** Section 5.8.3 of USB 2.0: a bulk transfer ends with its first packet shorter than the endpoint size. */
  function Transfer(packets: seq<seq<byte>>): (seq<byte>, seq<seq<byte>>) {
    if packets == [] then ([], [])
    else if |packets[0]| < 64 then (packets[0], packets[1..])
    else
      var (s, rest) := Transfer(packets[1..]);
      (packets[0] + s, rest)
  }

  /** Whatever the host receives next, it reads back the whole response as one transfer. */
  lemma {:induction false} HostReadsBack(s: seq<byte>, later: seq<seq<byte>>)
    ensures Transfer(Packetize(s) + later) == (s, later)
  {
    var packets := Packetize(s) + later;
    if |s| < AVRISP_DATA_EPSIZE {
      EmptyLeft([s]);
      assert packets[0] == s && packets[1..] == later;
    } else {
      var tail := s[AVRISP_DATA_EPSIZE..];
      HostReadsBack(tail, later);
      FirstPacket(s, later);
      assert s[..AVRISP_DATA_EPSIZE] + tail == s;
    }
  }

  lemma FirstPacket(s: seq<byte>, later: seq<seq<byte>>)
    requires |s| >= AVRISP_DATA_EPSIZE
    ensures Packetize(s) + later == [s[..AVRISP_DATA_EPSIZE]] + (Packetize(s[AVRISP_DATA_EPSIZE..]) + later)
  {
    var first, tail := [s[..AVRISP_DATA_EPSIZE]], s[AVRISP_DATA_EPSIZE..];
    Assoc(first, FullPackets(tail), [Rest(tail)]);
    Assoc(first, Packetize(tail), later);
  }

  /** All packets are full except exactly the last, which may be empty; together they are the response. */
  lemma {:induction false} PacketShape(s: seq<byte>)
    ensures var p := Packetize(s);
            && |p| == |s| / 64 + 1 && |p[|p| - 1]| == |s| % 64
            && (forall i :: 0 <= i < |p| - 1 ==> |p[i]| == 64)
            && Concat(p) == s
  {
    if |s| < AVRISP_DATA_EPSIZE {
      EmptyLeft([s]);
      assert [s][1..] == [];
      EmptyRight(s);
    } else {
      var tail := s[AVRISP_DATA_EPSIZE..];
      PacketShape(tail);
      FirstPacket(s, []);
      EmptyRight(Packetize(s));
      EmptyRight(Packetize(tail));
      assert Packetize(s)[1..] == Packetize(tail);
      assert s == s[..AVRISP_DATA_EPSIZE] + tail;
    }
  }

  class Endpoint {
    var bank: seq<byte>
    ghost var packets: seq<seq<byte>> // history: the packets sent to the host

    /** Endpoint_IsReadWriteAllowed */
    predicate ReadWriteAllowed()
      reads this
    {
      |bank| < AVRISP_DATA_EPSIZE
    }

    /** A response is being written: its full packets are out, the rest is in the bank. */
    ghost predicate Streaming(before: seq<seq<byte>>, response: seq<byte>)
      reads this
    {
      packets == before + FullPackets(response) && bank == Rest(response)
    }

    constructor ()
      ensures bank == [] && packets == []
    {
      bank, packets := [], [];
    }

    /** Endpoint_Write_Byte: never into a full bank. */
    method WriteByte(b: byte)
      requires ReadWriteAllowed()
      modifies this`bank
      ensures bank == old(bank) + [b]
    {
      bank := bank + [b];
    }

    /** Endpoint_ClearIN */
    method ClearIN()
      modifies this
      ensures packets == old(packets) + [old(bank)] && bank == []
    {
      packets := packets + [bank];
      bank := [];
    }

    /** One byte inside a response: write it, and send the packet if the bank is now full. */
    method StreamByte(b: byte, ghost before: seq<seq<byte>>, ghost response: seq<byte>)
      requires Streaming(before, response)
      modifies this
      ensures Streaming(before, response + [b])
    {
      GrowsByOne(response, b);
      Assoc(before, FullPackets(response), [Rest(response) + [b]]);
      WriteByte(b);
      if !ReadWriteAllowed() {
        ClearIN();
      }
    }

    /** The last byte of a response: the packet goes out, and an empty one after it if it was full. */
    method FinishWith(b: byte, ghost before: seq<seq<byte>>, ghost response: seq<byte>)
      requires Streaming(before, response)
      modifies this
      ensures bank == []
      ensures packets == before + Packetize(response + [b])
    {
      GrowsByOne(response, b);
      Assoc(before, FullPackets(response), [Rest(response) + [b]]);
      Assoc(before, FullPackets(response + [b]), [Rest(response + [b])]);
      WriteByte(b);
      var isEndpointFull := !ReadWriteAllowed();
      ClearIN();
      if isEndpointFull {
        ClearIN();
      }
    }

    /** The two bytes every response starts with. */
    method Begin(command: byte, status: byte)
      requires bank == []
      modifies this`bank
      ensures Streaming(packets, [command, status])
    {
      WriteByte(command);
      WriteByte(status);
      EmptyRight(packets);
      Two(command, status);
      EmptyLeft([command]);
    }
  }
}
