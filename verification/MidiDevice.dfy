/** A MIDI device of avr-midi/midi_device.c: an interrupt fills its queue, the main loop drains and parses it. */
module MidiDevices {
  import opened Bits
  import opened Seqs
  import opened ByteQueues
  import opened MidiParser

  const MIDI_INPUT_QUEUE_LENGTH: byte := 192

  class MidiDevice {
    const table: Table
    const queue: ByteQueue
    const inputBuffer: array<byte>
    var inputState: InputState
    var inputCount: byte

    var line: seq<byte> // bytes sent to us that have not arrived yet; each arrives in an interrupt of its own

    // The history of the device.
    ghost var accepted: seq<byte>      // bytes that entered the queue, in arrival order
    ghost var processed: seq<byte>     // bytes handed to the parser
    ghost var callbacks: seq<Callback> // calls of midi_input_callbacks
    ghost var inFlight: nat            // bytes at the front of the queue already handed to the parser

    ghost predicate Allocated()
      reads this
    {
      inputBuffer.Length == 3 && queue.data != inputBuffer && queue.length == MIDI_INPUT_QUEUE_LENGTH
    }

    ghost function State(): Parser
      reads this, inputBuffer
    {
      Parser(inputState, inputCount, inputBuffer[..])
    }

    /** The parser has run over exactly the processed bytes. */
    ghost predicate Parsed()
      reads this, inputBuffer
    {
      && Allocated()
      && State().WellFormed()
      && Run(table, INITIAL, processed) == (State(), callbacks)
    }

    /** Nothing is lost, repeated or reordered between the interrupt and the parser. */
    ghost predicate Valid()
      reads this, inputBuffer, queue, queue.data
    {
      && Parsed()
      && queue.Valid()
      && inFlight <= |queue.Contents()|
      && accepted == processed + queue.Contents()[inFlight..]
    }

    /** Even if all that is on the line arrives now, the queue does not fill up. */
    ghost predicate Room()
      reads this, queue, queue.data
      requires queue.Valid()
    {
      |queue.Contents()| + |line| < queue.length
    }

    /** Everything sent to us so far, if nothing was lost. */
    ghost function Offered(): seq<byte>
      reads this
    {
      accepted + line
    }

    /** While there is room nothing is lost or reordered. */
    twostate predicate Lossless()
      requires old(queue.Valid()) && queue.Valid()
      reads this, queue, queue.data
    {
      old(Room()) ==> Room() && Offered() == old(Offered())
    }

    constructor (table: Table, storage: array<byte>)
      requires storage.Length == MIDI_INPUT_QUEUE_LENGTH
      ensures Valid() && fresh(queue) && fresh(inputBuffer) && queue.data == storage
      ensures this.table == table && accepted == [] && inFlight == 0 && line == []
    {
      this.table := table;
      inputBuffer := new byte[3](_ => 0);
      inputState := Idle;
      inputCount := 0;
      queue := new ByteQueue(storage);
      line, accepted, processed, callbacks, inFlight := [], [], [], [], 0;
      new;
      assert inputBuffer[..] == [0, 0, 0];
    }

    /** One enqueue, with the history kept up to date. */
    method Accept(b: byte) returns (ok: bool)
      requires Valid()
      modifies this`accepted, queue`end, queue.data
      ensures Valid()
      ensures ok <==> old(|queue.Contents()|) < queue.length - 1
      ensures accepted == old(accepted) + if ok then [b] else []
      ensures queue.Contents() == old(queue.Contents()) + if ok then [b] else []
    {
      ghost var contents := queue.Contents();
      ok := queue.Enqueue(b);
      if ok {
        accepted := accepted + [b];
        assert (contents + [b])[inFlight..] == contents[inFlight..] + [b];
        Assoc(processed, contents[inFlight..], [b]);
      }
    }

    /** midi_device_input: queues up to three bytes. A byte that finds the queue full is lost. */
    method Input(count: byte, byte0: byte, byte1: byte, byte2: byte)
      requires Valid()
      modifies this`accepted, queue`end, queue.data
      ensures Valid()
      ensures var kept := Prefix([byte0, byte1, byte2][..if count > 3 then 3 else count],
                                 queue.length - 1 - old(|queue.Contents()|));
              accepted == old(accepted) + kept && queue.Contents() == old(queue.Contents()) + kept
    {
      var input := [byte0, byte1, byte2];
      var n := if count > 3 then 3 else count;
      ghost var room := queue.length - 1 - |queue.Contents()|;
      EmptyRight(accepted);
      EmptyRight(queue.Contents());
      var i := 0;
      while i < n
        invariant 0 <= i <= n
        invariant Valid()
        invariant queue.Contents() == old(queue.Contents()) + Prefix(input[..i], room)
        invariant accepted == old(accepted) + Prefix(input[..i], room)
      {
        ghost var kept := Prefix(input[..i], room);
        var ok := Accept(input[i]);
        PrefixSnoc(input, i, room);
        Assoc(old(accepted), kept, if ok then [input[i]] else []);
        Assoc(old(queue.Contents()), kept, if ok then [input[i]] else []);
        i := i + 1;
      }
    }

    /** A receive interrupt hands the next byte of the line to the device. */
    method ReceiveInterrupt()
      requires Valid() && line != []
      modifies this`accepted, this`line, queue`end, queue.data
      ensures Valid() && Lossless() && line == old(line[1..])
      ensures old(accepted) <= accepted && old(queue.Contents()) <= queue.Contents()
    {
      var b := line[0];
      HeadAndTail(accepted, line);
      PrefixOne(b, queue.length - 1 - |queue.Contents()|);
      Input(1, b, 0, 0);
      line := line[1..];
    }

    /** Any number of receive interrupts, as long as there is something on the line. */
    method ReceiveInterrupts()
      requires Valid()
      modifies this`accepted, this`line, queue`end, queue.data
      ensures Valid() && Lossless() && |line| <= |old(line)|
      ensures old(accepted) <= accepted && old(queue.Contents()) <= queue.Contents()
    {
      var pending: nat := *;
      while pending > 0 && line != []
        invariant Valid() && Lossless() && |line| <= |old(line)|
        invariant old(accepted) <= accepted && old(queue.Contents()) <= queue.Contents()
      {
        ReceiveInterrupt();
        pending := pending - 1;
      }
    }

    /** The rest of the line arrives. */
    method ReceiveAll()
      requires Valid()
      modifies this`accepted, this`line, queue`end, queue.data
      ensures Valid() && Lossless() && line == []
    {
      while line != []
        invariant Valid() && Lossless()
        decreases |line|
      {
        ReceiveInterrupt();
      }
    }

    /** A sender puts bytes on the line. */
    method Arriving(bytes: seq<byte>)
      requires Valid()
      modifies this`line
      ensures Valid() && line == old(line) + bytes
    {
      line := line + bytes;
    }

    /** Everything on the line arrives, and the main loop comes round once more. */
    method Settle()
      requires Valid() && inFlight == 0 && Room()
      modifies this, inputBuffer, queue, queue.data
      ensures Valid() && inFlight == 0
      ensures line == [] && queue.Contents() == [] && accepted == old(Offered())
    {
      ReceiveAll();
      EmptyRight(accepted);
      var snapshot := Process();
      EmptyRight(accepted);
    }

    /** midi_process_byte */
    method ProcessByte(input: byte)
      requires Parsed()
      modifies this`inputState, this`inputCount, this`processed, this`callbacks, inputBuffer
      ensures Parsed()
      ensures processed == old(processed) + [input]
    {
      ghost var made: seq<Callback>;
      RunSnoc(table, INITIAL, processed, input);
      if IsRealtime(input) {
        made := [Callback(1, input, 0, 0)];
      } else if IsStatus(input) {
        made := ProcessStatus(input);
      } else {
        made := ProcessData(input);
      }
      processed := processed + [input];
      callbacks := callbacks + made;
    }

    /** The status branch of midi_process_byte. */
    method ProcessStatus(input: byte) returns (ghost made: seq<Callback>)
      requires Allocated() && State().WellFormed() && IsStatus(input) && !IsRealtime(input)
      modifies this`inputState, this`inputCount, inputBuffer
      ensures (State(), made) == StatusByte(table, old(State()), input)
    {
      made := [];
      if inputState != SysExMessage {
        inputBuffer[0] := input;
        inputCount := 1;
      }
      match table(input) {
        case One =>
          inputState := Idle;
          made := [Callback(1, input, 0, 0)];
        case Two => inputState := TwoByteMessage;
        case Three => inputState := ThreeByteMessage;
        case Undefined =>
          if input == SYSEX_BEGIN {
            inputState := SysExMessage;
            inputBuffer[0] := input;
            inputCount := 1;
          } else if input == SYSEX_END {
            if inputCount > 2 {
              inputState := Idle;
              inputCount := 2;
            }
            inputBuffer[inputCount] := input;
            inputState := Idle;
            inputCount := inputCount + 1;
            made := [Callback(inputCount, inputBuffer[0], inputBuffer[1], inputBuffer[2])];
          } else {
            inputState := Idle;
            inputCount := 0;
          }
      }
    }

    /** The data branch of midi_process_byte. */
    method ProcessData(input: byte) returns (ghost made: seq<Callback>)
      requires Allocated() && State().WellFormed() && !IsStatus(input)
      modifies this`inputState, this`inputCount, inputBuffer
      ensures (State(), made) == DataByte(old(State()), input)
    {
      made := [];
      if inputCount > 2 {
        inputState := Idle;
      }
      if inputState != Idle {
        inputBuffer[inputCount] := input;
        inputCount := inputCount + 1;
        match inputCount {
          case 3 =>
            if inputState != SysExMessage {
              inputState := Idle;
            }
            inputCount := 0;
            made := [Callback(3, inputBuffer[0], inputBuffer[1], inputBuffer[2])];
          case 2 =>
            if inputState == TwoByteMessage {
              inputState := Idle;
              made := [Callback(2, inputBuffer[0], inputBuffer[1], 0)];
            }
          case _ => inputState := Idle;
        }
      }
    }

    /**
      bytequeue_get(queue, 0) as midi_process calls it, without a lock: interrupts may come between reading
      `start` and reading the data, and still the byte read is the one at the front of the queue.
    */
    method UnlockedGet() returns (val: byte)
      requires Valid() && queue.Contents() != []
      modifies this`accepted, this`line, queue`end, queue.data
      ensures Valid() && Lossless() && |line| <= |old(line)|
      ensures old(accepted) <= accepted && old(queue.Contents()) <= queue.Contents()
      ensures val == old(queue.Contents()[0])
    {
      var slot := queue.Slot(0);
      ReceiveInterrupts();
      queue.SlotHolds(0);
      val := queue.data[slot];
    }

    /** The byte just read moves from the queue to the parser. */
    lemma HandOver(val: byte)
      requires Valid() && inFlight == 0 && queue.Contents() != [] && queue.Contents()[0] == val
      ensures accepted == processed + [val] + queue.Contents()[1..]
    {
      assert queue.Contents() == [val] + queue.Contents()[1..];
      Assoc(processed, [val], queue.Contents()[1..]);
    }

    /**
      midi_process, with receive interrupts allowed between any two of its steps. It processes exactly the bytes
      its length snapshot counted, in arrival order, whatever arrives meanwhile.
    */
    method Process() returns (ghost snapshot: nat)
      requires Valid() && inFlight == 0
      modifies this, inputBuffer, queue, queue.data
      ensures Valid() && Lossless() && inFlight == 0 && |line| <= |old(line)|
      ensures old(accepted) <= accepted
      ensures |processed| == old(|processed|) + snapshot && old(|queue.Contents()|) <= snapshot
    {
      ReceiveInterrupts();
      var len := queue.Length();
      snapshot := len;
      var i := 0;
      while i < len
        invariant Valid() && Lossless() && inFlight == 0 && |line| <= |old(line)| && old(accepted) <= accepted
        invariant 0 <= i <= len && len - i <= |queue.Contents()|
        invariant |processed| == old(|processed|) + i
      {
        ProcessNext();
        i := i + 1;
      }
      ReceiveInterrupts();
    }

    /** The body of the loop in midi_process. */
    method ProcessNext()
      requires Valid() && inFlight == 0 && queue.Contents() != []
      modifies this, inputBuffer, queue, queue.data
      ensures Valid() && Lossless() && inFlight == 0 && |line| <= |old(line)|
      ensures old(accepted) <= accepted
      ensures processed == old(processed) + [old(queue.Contents()[0])]
      ensures |queue.Contents()| >= old(|queue.Contents()|) - 1
    {
      ParseFront();
      ReceiveInterrupts();
      RemoveFront();
    }

    /** Get and parse; the front byte stays in the queue. */
    method ParseFront()
      requires Valid() && inFlight == 0 && queue.Contents() != []
      modifies this, inputBuffer, queue, queue.data
      ensures Valid() && Lossless() && inFlight == 1 && |line| <= |old(line)|
      ensures old(accepted) <= accepted && old(queue.Contents()) <= queue.Contents()
      ensures processed == old(processed) + [old(queue.Contents()[0])]
    {
      var val := UnlockedGet();
      ReceiveInterrupts();
      Consume(val);
    }

    /** bytequeue_remove(queue, 1): the byte in flight leaves the queue. */
    method RemoveFront()
      requires Valid() && inFlight == 1
      modifies this`inFlight, queue`start
      ensures Valid() && inFlight == 0
      ensures queue.Contents() == old(queue.Contents())[1..]
    {
      queue.Remove(1);
      inFlight := 0;
    }

    /** The front byte is parsed but still in the queue: from here to the removal it is in flight. */
    method Consume(val: byte)
      requires Valid() && inFlight == 0 && queue.Contents() != [] && queue.Contents()[0] == val
      modifies this`inputState, this`inputCount, this`processed, this`callbacks, this`inFlight, inputBuffer
      ensures Valid() && inFlight == 1
      ensures processed == old(processed) + [val]
    {
      HandOver(val);
      ProcessByte(val);
      inFlight := 1;
    }

    /** A drained device has reported exactly the run over everything it accepted. */
    lemma Drained()
      requires Valid() && inFlight == 0 && queue.Contents() == []
      ensures callbacks == Run(table, INITIAL, accepted).1
    {
      assert accepted == processed;
    }
  }

  /** The first `n` elements, or all of them. */
  function Prefix<T>(s: seq<T>, n: nat): seq<T> {
    if n < |s| then s[..n] else s
  }

  lemma PrefixOne(b: byte, room: nat)
    ensures Prefix([b, 0, 0][..1], room) == if room > 0 then [b] else []
  {}

  lemma HeadAndTail(accepted: seq<byte>, line: seq<byte>)
    requires line != []
    ensures accepted + [line[0]] + line[1..] == accepted + line
  {}

  lemma PrefixSnoc<T>(s: seq<T>, i: nat, n: nat)
    requires i < |s|
    ensures Prefix(s[..i + 1], n) == Prefix(s[..i], n) + if i < n then [s[i]] else []
  {}
}
