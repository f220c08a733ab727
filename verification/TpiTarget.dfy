/** A target on the Tiny Programming Interface: a byte-at-a-time decoder with a pointer, I/O registers and a flash. */
module TpiTargets {
  import opened Bits

  const TPI_CMD_SLD: byte := 0x20
  const TPI_CMD_SST: byte := 0x60
  const TPI_CMD_SSTPR: byte := 0x68
  const TPI_CMD_SIN: byte := 0x10
  const TPI_CMD_SOUT: byte := 0x90
  const TPI_POINTER_INDIRECT_PI: byte := 0x04
  const TINY_NVM_CMD_WORDWRITE: byte := 0x1D

  /** What the next byte from the programmer is. */
  datatype Awaits =
    | Opcode
    | PointerByte(high: bool)
    | StoreByte(increment: bool)
    | IoByte(register: nat)
    | ControlByte
    | KeyByte(left: nat)

  datatype Target = Target(
    commandRegister: nat, statusRegister: nat,  // I/O addresses of NVMCMD and NVMCSR
    status: nat -> byte,                        // what successive reads of NVMCSR return
    polls: nat,                                 // how many there have been
    awaits: Awaits,
    answer: seq<byte>,                          // at most one byte that the programmer has yet to receive
    faults: nat,                                // bytes sent while an answer was due, or received while none was
    pointer: word,
    command: byte,                              // NVMCMD
    latch: byte,                                // the low byte of a word write
    flash: seq<byte>
  )
  {
    /** Between instructions, and nothing has gone wrong on the wire. */
    predicate Quiet() {
      awaits == Opcode && answer == [] && faults == 0
    }
  }

  /** The I/O address in a SIN or SOUT opcode: bits 6..5 and 3..0. */
  function IoAddress(op: byte): nat { op / 0x20 % 4 * 0x10 + op % 0x10 }

  function FlashAt(t: Target, a: nat): byte { if a < |t.flash| then t.flash[a] else 0xFF }

  function Increment(a: word): word { (a as int + 1) % 0x1_0000 }

  /** A word is programmed as a whole, when its high byte arrives; programming only clears bits. */
  function Store(t: Target, b: byte, increment: bool): (r: Target)
    ensures |r.flash| == |t.flash|
  {
    var next := if increment then Increment(t.pointer) else t.pointer;
    if t.command != 0x1D then t.(awaits := Opcode, pointer := next)
    else if t.pointer % 2 == 0 then t.(awaits := Opcode, pointer := next, latch := b)
    else if t.pointer < |t.flash| then
      t.(awaits := Opcode, pointer := next,
         flash := t.flash[t.pointer - 1 := And(t.flash[t.pointer - 1], t.latch)]
                         [t.pointer := And(t.flash[t.pointer], b)])
    else t.(awaits := Opcode, pointer := next)
  }

  /** The opcodes of the TPI instruction set: SLD, SST and SSTPR, SIN and SOUT, SLDCS, SSTCS and SKEY. */
  function Decode(t: Target, op: byte): (r: Target)
    ensures r.flash == t.flash
  {
    if op == 0x20 then t.(answer := [FlashAt(t, t.pointer)])
    else if op == 0x24 then
      t.(answer := [FlashAt(t, t.pointer)], pointer := Increment(t.pointer))
    else if op == 0x60 then t.(awaits := StoreByte(false))
    else if op == 0x64 then t.(awaits := StoreByte(true))
    else if op == 0x68 then t.(awaits := PointerByte(false))
    else if op == 0x69 then t.(awaits := PointerByte(true))
    else if op / 0x10 % 2 == 1 && op < 0x80 then
      if IoAddress(op) == t.statusRegister then t.(answer := [t.status(t.polls)], polls := t.polls + 1)
      else t.(answer := [0])
    else if op / 0x10 % 2 == 1 then t.(awaits := IoByte(IoAddress(op)))
    else if 0x80 <= op < 0x90 then t.(answer := [0])
    else if 0xC0 <= op < 0xD0 then t.(awaits := ControlByte)
    else if op == 0xE0 then t.(awaits := KeyByte(8))
    else t
  }

  /** The programmer sends a byte. */
  function Take(t: Target, b: byte): (r: Target)
    ensures |r.flash| == |t.flash|
  {
    if t.answer != [] then t.(faults := t.faults + 1)
    else
      match t.awaits
      case Opcode => Decode(t, b)
      case PointerByte(high) =>
        t.(awaits := Opcode,
           pointer := if high then b as int * 0x100 + t.pointer % 0x100 else t.pointer - t.pointer % 0x100 + b as int)
      case StoreByte(increment) => Store(t, b, increment)
      case IoByte(register) =>
        t.(awaits := Opcode, command := if register == t.commandRegister then b else t.command)
      case ControlByte => t.(awaits := Opcode)
      case KeyByte(left) => t.(awaits := if left > 1 then KeyByte(left - 1) else Opcode)
  }

  /** The programmer receives a byte. */
  function Give(t: Target): Target {
    if t.answer == [] then t.(faults := t.faults + 1) else t.(answer := [])
  }

  function Offer(t: Target): byte { if t.answer == [] then 0 else t.answer[0] }

  // ----- Instructions, as the decoder reads them -----

  /** TINYNVM_SendReadNVMRegister: the two high bits of the address move up by one. The three fields do not overlap. */
  function SinOpcode(address: byte): byte { TPI_CMD_SIN + address / 0x10 % 4 * 0x20 + address % 0x10 }

  /** TINYNVM_SendWriteNVMRegister */
  function SoutOpcode(address: byte): byte { TPI_CMD_SOUT + address / 0x10 % 4 * 0x20 + address % 0x10 }

  /** `op | ((address & 0x30) << 1) | (address & 0x0F)`, as the source has it. */
  function WithAddress(op: byte, address: byte): nat { Or(Or(op, And(address, 0x30) * 2), And(address, 0x0F)) }

  lemma SinBits(address: byte)
    ensures WithAddress(TPI_CMD_SIN, address) == SinOpcode(address)
  {
    var h, l := address / 0x10 % 4, address % 0x10;
    AddressFields(address);
    SinField(h);
    LowField(TPI_CMD_SIN as nat + h * 0x20, 1 + 2 * h, l);
  }

  lemma SoutBits(address: byte)
    ensures WithAddress(TPI_CMD_SOUT, address) == SoutOpcode(address)
  {
    var h, l := address / 0x10 % 4, address % 0x10;
    AddressFields(address);
    SoutField(h);
    LowField(TPI_CMD_SOUT as nat + h * 0x20, 9 + 2 * h, l);
  }

  lemma AddressFields(address: byte)
    ensures And(address, 0x30) * 2 == address / 0x10 % 4 * 0x20 && And(address, 0x0F) == address % 0x10
  {
    AndFiveFour(address);
    AndNibble(address);
  }

  lemma LowField(high: nat, k: nat, low: nat)
    requires high == 0x10 * k && low < 0x10
    ensures Or(high, low) == high + low
  {
    assert Pow2(4) == 4 * Pow2(2) == 16 * Pow2(0);
    OrDisjoint(high, k, low, 4);
  }

  lemma SinField(h: nat)
    ensures Or(0x10, h * 0x20) == 0x10 + h * 0x20
  {
    assert Pow2(5) == 4 * Pow2(3) == 32 * Pow2(0);
    OrSymmetric(0x10, h * 0x20);
    OrDisjoint(h * 0x20, h, 0x10, 5);
  }

  /** Bit 7 is above the field, bit 4 below it. */
  lemma SoutField(h: nat)
    requires h < 4
    ensures Or(0x90, h * 0x20) == 0x90 + h * 0x20
  {
    OrShifted(9, 2 * h);
    OrNine(h);
  }

  lemma OrNine(h: nat)
    requires h < 4
    ensures Or(9, 2 * h) == 9 + 2 * h
  {
    assert Pow2(2) == 4 * Pow2(0);
    OrDisjoint(4, 1, h, 2);
    OrLow(9, h);
  }

  lemma OrShifted(a: nat, b: nat)
    ensures Or(0x10 * a, 0x10 * b) == 0x10 * Or(a, b)
  {
    OrFourfold(4 * a, 4 * b);
    OrFourfold(a, b);
  }

  lemma OrFourfold(a: nat, b: nat)
    ensures Or(4 * a, 4 * b) == 4 * Or(a, b)
  {
    OrTwice(2 * a, 2 * b);
    OrTwice(a, b);
  }

  lemma OrTwice(a: nat, b: nat)
    ensures Or(2 * a, 2 * b) == 2 * Or(a, b)
  {
    OrLow(2 * a, b);
    assert 2 * a % 2 == 0 && 2 * a / 2 == a;
  }

  lemma FieldsOf(top: nat, h: nat, l: nat)
    requires top <= 4 && h < 4 && l < 0x10
    ensures var op := 0x20 * top + 0x10 + 0x20 * h + l;
            op / 0x20 == top + h && op % 0x10 == l && op / 0x10 == 2 * (top + h) + 1
  {}

  lemma LowSix(address: byte)
    ensures address % 0x40 == 0x10 * (address / 0x10 % 4) + address % 0x10
  {}

  /** The opcodes carry exactly the low six bits of the address. */
  lemma IoAddressRoundTrip(address: byte)
    ensures IoAddress(SinOpcode(address)) == address % 0x40 && IoAddress(SoutOpcode(address)) == address % 0x40
    ensures SinOpcode(address) < 0x80 <= SoutOpcode(address)
    ensures SinOpcode(address) / 0x10 % 2 == 1 && SoutOpcode(address) / 0x10 % 2 == 1
  {
    LowSix(address);
    FieldsOf(0, address / 0x10 % 4, address % 0x10);
    FieldsOf(4, address / 0x10 % 4, address % 0x10);
  }

  lemma SinDecodes(t: Target, address: byte)
    requires t.Quiet()
    ensures Take(t, SinOpcode(address)) ==
              if address % 0x40 == t.statusRegister then t.(answer := [t.status(t.polls)], polls := t.polls + 1)
              else t.(answer := [0])
  {
    IoAddressRoundTrip(address);
    NotOtherOpcode(SinOpcode(address));
  }

  lemma SoutDecodes(t: Target, address: byte)
    requires t.Quiet()
    ensures Take(t, SoutOpcode(address)) == t.(awaits := IoByte(address % 0x40))
  {
    IoAddressRoundTrip(address);
    NotOtherOpcode(SoutOpcode(address));
  }

  lemma NotOtherOpcode(op: byte)
    requires op / 0x10 % 2 == 1
    ensures op !in {TPI_CMD_SLD, TPI_CMD_SLD + 4, TPI_CMD_SST, TPI_CMD_SST + 4, TPI_CMD_SSTPR, TPI_CMD_SSTPR + 1}
  {}

  const STORE_NEXT: byte := TPI_CMD_SST + TPI_POINTER_INDIRECT_PI

  lemma StoreOpcode(t: Target, b: byte)
    requires t.Quiet()
    ensures Take(Take(t, STORE_NEXT), b) == Store(t, b, true)
  {}

  /** Bytes stored one after the other through the pointer. */
  function StoreAll(t: Target, data: seq<byte>): (r: Target)
    ensures |r.flash| == |t.flash|
  {
    if data == [] then t else Store(StoreAll(t, data[..|data| - 1]), data[|data| - 1], true)
  }

  /** Nothing but the pointer, the latch and the flash changes. */
  lemma {:induction false} StoreAllKeeps(t: Target, data: seq<byte>)
    requires t.Quiet()
    ensures var r := StoreAll(t, data);
            r == t.(pointer := r.pointer, latch := r.latch, flash := r.flash)
  {
    if data != [] { StoreAllKeeps(t, data[..|data| - 1]); }
  }

  /** How often the status has been polled makes no difference. */
  lemma StorePolls(t: Target, b: byte, polls: nat)
    ensures Store(t.(polls := polls), b, true) == Store(t, b, true).(polls := polls)
  {}

  lemma StoreTwo(t: Target, data: seq<byte>, k: nat)
    requires k + 2 <= |data|
    ensures StoreAll(t, data[..k + 2]) == Store(Store(StoreAll(t, data[..k]), data[k], true), data[k + 1], true)
  {
    assert data[..k + 2][..k + 1] == data[..k + 1];
    assert data[..k + 1][..k] == data[..k];
  }

  /** What the programmer sends for a word is two such stores. */
  lemma WordStored(t: Target, low: byte, high: byte)
    requires t.Quiet()
    ensures Take(Take(Take(Take(t, STORE_NEXT), low), STORE_NEXT), high) == Store(Store(t, low, true), high, true)
  {
    StoreOpcode(t, low);
    assert Store(t, low, true).Quiet();
    StoreOpcode(Store(t, low, true), high);
  }

  /** After a word write through the pointer. */
  function WordWritten(t: Target, low: byte, high: byte): (r: Target)
    requires t.pointer + 1 < |t.flash|
    ensures |r.flash| == |t.flash|
  {
    t.(latch := low, pointer := Increment(Increment(t.pointer)),
       flash := t.flash[t.pointer := And(t.flash[t.pointer], low)][t.pointer + 1 := And(t.flash[t.pointer + 1], high)])
  }

  /** From an even pointer the low byte is latched, and the high byte programs both. */
  lemma WordDecodes(t: Target, low: byte, high: byte)
    requires t.Quiet() && t.command == TINY_NVM_CMD_WORDWRITE && t.pointer % 2 == 0 && t.pointer + 1 < |t.flash|
    ensures Store(Store(t, low, true), high, true) == WordWritten(t, low, high)
  {
    var half := Store(t, low, true);
    assert half == t.(latch := low, pointer := Increment(t.pointer));
    assert half.pointer == t.pointer + 1;
  }

  /**
    From an odd pointer, the first byte completes the word below it with whatever was latched before, and the second
    is only latched.
  */
  lemma OddStartTearsWords(t: Target, low: byte, high: byte)
    requires t.Quiet() && t.command == TINY_NVM_CMD_WORDWRITE && t.pointer % 2 == 1 && t.pointer < |t.flash|
    ensures var r := Store(Store(t, low, true), high, true);
            && r.flash == t.flash[t.pointer - 1 := And(t.flash[t.pointer - 1], t.latch)]
                                 [t.pointer := And(t.flash[t.pointer], low)]
            && r.latch == high
  {
    var half := Store(t, low, true);
    assert half.pointer % 2 == 0;
  }

  /** Both halves of the pointer, low half first. */
  lemma PointerDecodes(t: Target, address: word)
    requires t.Quiet()
    ensures Take(Take(Take(Take(t, TPI_CMD_SSTPR), LowByte(address)), TPI_CMD_SSTPR + 1), HighByte(address))
         == t.(pointer := address)
  {
    var low := Take(Take(t, TPI_CMD_SSTPR), LowByte(address));
    HalvesOf(t.pointer, address);
    assert low == t.(pointer := t.pointer - t.pointer % 0x100 + LowByte(address) as int);
  }

  lemma HalvesOf(before: word, address: word)
    ensures (before - before % 0x100 + LowByte(address) as int) % 0x100 == LowByte(address)
    ensures HighByte(address) as int * 0x100 + LowByte(address) as int == address
  {
    ModOfMultiple(0x100, before / 0x100, LowByte(address));
  }

  // ----- Programmed flash -----

  /** Flash after programming `data` at `at`. */
  function Programmed(flash: seq<byte>, at: nat, data: seq<byte>): (r: seq<byte>)
    requires at + |data| <= |flash|
    ensures |r| == |flash|
    ensures forall i :: 0 <= i < |flash| ==>
              r[i] == if at <= i < at + |data| then And(flash[i], data[i - at]) else flash[i]
  {
    seq(|flash|, i requires 0 <= i < |flash| =>
      if at <= i < at + |data| then And(flash[i], data[i - at]) as byte else flash[i])
  }

  /** One more word. */
  lemma ProgrammedWord(flash: seq<byte>, at: nat, data: seq<byte>, k: nat)
    requires k + 2 <= |data| && at + |data| <= |flash|
    ensures var before := Programmed(flash, at, data[..k]);
            Programmed(flash, at, data[..k + 2]) ==
              before[at + k := And(before[at + k], data[k])][at + k + 1 := And(before[at + k + 1], data[k + 1])]
  {}

  lemma WordWrittenProgrammed(t: Target, flash: seq<byte>, at: nat, data: seq<byte>, k: nat)
    requires k + 2 <= |data| && at + |data| <= |flash|
    requires t.flash == Programmed(flash, at, data[..k]) && t.pointer == at + k
    ensures WordWritten(t, data[k], data[k + 1]).flash == Programmed(flash, at, data[..k + 2])
  {
    ProgrammedWord(flash, at, data, k);
  }

  /** On erased flash programming is writing. */
  lemma ProgrammedErased(flash: seq<byte>, at: nat, data: seq<byte>)
    requires at + |data| <= |flash| && forall i :: at <= i < at + |data| ==> flash[i] == 0xFF
    ensures Programmed(flash, at, data)[at..at + |data|] == data
  {
    forall i | 0 <= i < |data| ensures Programmed(flash, at, data)[at + i] == data[i] {
      AndErased(data[i]);
    }
  }

  // ----- Whole writes -----

  /** Ready for a write: between instructions, with the write command and the pointer set. */
  predicate Aimed(t: Target, at: word) {
    t.Quiet() && t.command == TINY_NVM_CMD_WORDWRITE && t.pointer == at
  }

  /** There is flash for all of it. */
  predicate Fits(t: Target, at: word, n: nat) { at + n <= |t.flash| <= 0x1_0000 }

  lemma {:induction false} PointerAfter(t: Target, at: word, data: seq<byte>)
    requires Aimed(t, at) && at + |data| <= 0x1_0000
    ensures StoreAll(t, data).pointer == (at + |data|) % 0x1_0000
  {
    if data != [] { PointerAfter(t, at, data[..|data| - 1]); }
  }

  /** From an even address whole words are programmed, each byte into its own place. */
  lemma {:induction false} EvenStores(t: Target, at: word, data: seq<byte>)
    requires Aimed(t, at) && at % 2 == 0 && |data| % 2 == 0 && Fits(t, at, |data|)
    ensures StoreAll(t, data).flash == Programmed(t.flash, at, data)
  {
    if data == [] {
      assert Programmed(t.flash, at, []) == t.flash;
    } else {
      var k := |data| - 2;
      EvenStores(t, at, data[..k]);
      EvenStep(t, at, data, k);
      assert data[..k + 2] == data;
    }
  }

  lemma EvenStep(t: Target, at: word, data: seq<byte>, k: nat)
    requires Aimed(t, at) && at % 2 == 0 && k % 2 == 0 && k + 2 <= |data| && Fits(t, at, |data|)
    requires StoreAll(t, data[..k]).flash == Programmed(t.flash, at, data[..k])
    ensures StoreAll(t, data[..k + 2]).flash == Programmed(t.flash, at, data[..k + 2])
  {
    EvenReady(t, at, data[..k]);
    StoreTwo(t, data, k);
    WordDecodes(StoreAll(t, data[..k]), data[k], data[k + 1]);
    WordWrittenProgrammed(StoreAll(t, data[..k]), t.flash, at, data, k);
  }

  lemma EvenReady(t: Target, at: word, front: seq<byte>)
    requires Aimed(t, at) && at % 2 == 0 && |front| % 2 == 0 && Fits(t, at, |front| + 2)
    ensures var r := StoreAll(t, front);
            r.Quiet() && r.command == TINY_NVM_CMD_WORDWRITE && r.pointer == at + |front| && r.pointer % 2 == 0
  {
    PointerAfter(t, at, front);
    StoreAllKeeps(t, front);
    EvenSum(at, |front|);
  }

  lemma EvenSum(at: word, n: nat)
    requires at % 2 == 0 && n % 2 == 0 && at + n < 0x1_0000
    ensures (at + n) % 0x1_0000 == at + n && (at + n) % 2 == 0
  {}

  /** The first place that `n` bytes from an odd address have not reached: a byte in a low half is only latched. */
  function Reached(at: word, n: nat): nat
    requires at % 2 == 1
  {
    if n % 2 == 1 then at + n else at + n - 1
  }

  /** The flash after `n` such bytes, as far as we need to know it. */
  predicate Misplaced(before: Target, after: Target, at: word, n: nat)
    requires at % 2 == 1 && at + n <= |before.flash| == |after.flash|
  {
    && (n > 0 ==> after.flash[at - 1] == And(before.flash[at - 1], before.latch))
    && forall j :: Reached(at, n) <= j < |before.flash| ==> after.flash[j] == before.flash[j]
  }

  /**
    From an odd address the word below is spoiled by the byte latched before, and the last byte of a whole number of
    words does not arrive.
  */
  lemma {:induction false} OddStores(t: Target, at: word, data: seq<byte>)
    requires Aimed(t, at) && at % 2 == 1 && Fits(t, at, |data|)
    ensures Misplaced(t, StoreAll(t, data), at, |data|)
  {
    if data != [] {
      var front := data[..|data| - 1];
      OddStores(t, at, front);
      StillWriting(t, at, front);
      OddStep(t, StoreAll(t, front), at, |front|, data[|front|]);
    }
  }

  lemma StillWriting(t: Target, at: word, front: seq<byte>)
    requires Aimed(t, at) && Fits(t, at, |front| + 1)
    ensures var r := StoreAll(t, front);
            r.command == TINY_NVM_CMD_WORDWRITE && r.pointer == at + |front| && |r.flash| == |t.flash|
  {
    PointerAfter(t, at, front);
    StoreAllKeeps(t, front);
    SmallSum(at, |front|);
  }

  lemma SmallSum(at: word, n: nat)
    requires at + n < 0x1_0000
    ensures (at + n) % 0x1_0000 == at + n
  {}

  lemma OddStep(t: Target, r: Target, at: word, n: nat, b: byte)
    requires at % 2 == 1 && at + n + 1 <= |t.flash| == |r.flash| <= 0x1_0000 && Misplaced(t, r, at, n)
    requires r.command == TINY_NVM_CMD_WORDWRITE && r.pointer == at + n && (n == 0 ==> r == t)
    ensures Misplaced(t, Store(r, b, true), at, n + 1)
  {
    OddPlaces(at, n);
    if n % 2 == 0 { StoreAtOdd(r, b); } else { StoreAtEven(r, b); }
  }

  lemma OddPlaces(at: word, n: nat)
    requires at % 2 == 1
    ensures (at + n) % 2 == 1 <==> n % 2 == 0
    ensures Reached(at, n + 1) == if n % 2 == 0 then at + n + 1 else at + n
    ensures Reached(at, n) == if n % 2 == 0 then at + n - 1 else at + n
  {}

  lemma StoreAtOdd(r: Target, b: byte)
    requires r.command == TINY_NVM_CMD_WORDWRITE && r.pointer % 2 == 1 && r.pointer < |r.flash|
    ensures Store(r, b, true).flash
         == r.flash[r.pointer - 1 := And(r.flash[r.pointer - 1], r.latch)][r.pointer := And(r.flash[r.pointer], b)]
  {}

  lemma StoreAtEven(r: Target, b: byte)
    requires r.command == TINY_NVM_CMD_WORDWRITE && r.pointer % 2 == 0
    ensures Store(r, b, true).flash == r.flash
  {}

  /** A write puts every byte in its place. */
  predicate WritesRight(t: Target, at: word, data: seq<byte>)
    requires Fits(t, at, |data|)
  {
    StoreAll(t, data).flash == Programmed(t.flash, at, data)
  }

  /** A target with a given start of a write, erased flash for it, and a latch that would spoil it. */
  function Unlucky(at: word, n: nat): (t: Target)
    ensures Aimed(t, at) && |t.flash| == at + n && t.latch == 0
    ensures forall i :: 0 <= i < at + n ==> t.flash[i] == 0xFF
  {
    Target(0, 1, (_: nat) => 0 as byte, 0, Opcode, [], 0, at, TINY_NVM_CMD_WORDWRITE, 0, seq(at + n, _ => 0xFF as byte))
  }

  /**
    Whole words reach the flash of every target exactly when the start address is even, or there are none.
  */
  lemma WritesRightIff(at: word, data: seq<byte>)
    requires |data| % 2 == 0 && at + |data| <= 0x1_0000
    ensures (forall t: Target :: Aimed(t, at) && Fits(t, at, |data|) ==> WritesRight(t, at, data))
       <==> at % 2 == 0 || data == []
  {
    if at % 2 == 0 || data == [] {
      forall t: Target | Aimed(t, at) && Fits(t, at, |data|) ensures WritesRight(t, at, data) {
        if at % 2 == 0 { EvenStores(t, at, data); } else { assert Programmed(t.flash, at, []) == t.flash; }
      }
    } else {
      var t := Unlucky(at, |data|);
      OddStores(t, at, data);
      assert And(0xFF, 0) == 0;
      assert Programmed(t.flash, at, data)[at - 1] == 0xFF;
      assert !WritesRight(t, at, data);
    }
  }

  /** From an odd address the last byte never arrives, whatever the target: its place is as it was before. */
  lemma LastByteLost(t: Target, at: word, data: seq<byte>)
    requires Aimed(t, at) && at % 2 == 1 && data != [] && |data| % 2 == 0 && Fits(t, at, |data|)
    ensures StoreAll(t, data).flash[at + |data| - 1] == t.flash[at + |data| - 1]
  {
    OddStores(t, at, data);
  }
}
