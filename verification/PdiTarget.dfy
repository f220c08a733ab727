/** A target on the Program and Debug Interface: a byte-at-a-time decoder with a pointer and a repeat counter. */
module PdiTargets {
  import opened Bits
  import opened Seqs

  /** What the next byte from the programmer is. */
  datatype Awaits =
    | Opcode
    | LoadAddress(left: nat, size: nat)       // LDS
    | StoreAddress(left: nat, size: nat)      // STS
    | StoreValue(address: nat, left: nat)     // the data of STS
    | PointerValue(left: nat)                 // ST to the pointer itself
    | StoreIndirect(increment: bool, left: nat)
    | RepeatCount(left: nat)
    | ControlValue
    | KeyValue(left: nat)

  /** A byte stored at an address of the target's data space. */
  datatype Stored = Stored(address: nat, value: byte)

  datatype Target = Target(
    awaits: Awaits,
    gathered: seq<byte>,         // the bytes so far of an address, a pointer or a count
    pointer: dword,
    repeats: nat,                // how often the next indirect instruction is repeated
    due: nat, from: dword, step: nat,  // bytes the programmer has to receive, and where they come from
    stores: seq<Stored>,         // history: every byte stored, with its address
    loads: seq<nat>,             // history: the address of every byte received
    faults: nat                  // bytes sent while some were due, or received while none was
  )
  {
    /** At an instruction boundary, with nothing due and nothing gone wrong. */
    predicate Quiet() {
      awaits == Opcode && gathered == [] && repeats == 0 && due == 0 && faults == 0
    }
  }

  /** A little-endian number. */
  function Value(s: seq<byte>): nat {
    if s == [] then 0 else s[0] as int + 0x100 * Value(s[1..])
  }

  function Wrap(address: nat): dword { address % 0x1_0000_0000 }

  /**
    The top three bits of an opcode tell the instruction: LDS, LD, STS, ST, LDCS, REPEAT, STCS or KEY. LD and ST go
    through the pointer, in mode 1 with an increment, and in mode 2 ST sets the pointer itself.
  */
  function Decode(t: Target, op: byte): Target {
    var mode, size := op / 4 % 4, op % 4 + 1;
    match op / 0x20
    case 0 => t.(awaits := LoadAddress(mode + 1, size))
    case 1 =>
      var n := size * (t.repeats + 1);
      t.(due := n, from := t.pointer, step := if mode == 1 then 1 else 0, repeats := 0,
         pointer := if mode == 1 then Wrap(t.pointer + n) else t.pointer)
    case 2 => t.(awaits := StoreAddress(mode + 1, size))
    case 3 =>
      if mode == 2 then t.(awaits := PointerValue(size))
      else t.(awaits := StoreIndirect(mode == 1, size * (t.repeats + 1)), repeats := 0)
    case 4 => t.(due := 1, from := 0, step := 0)
    case 5 => t.(awaits := RepeatCount(size))
    case 6 => t.(awaits := ControlValue)
    case _ => t.(awaits := KeyValue(8))
  }

  /** The programmer sends a byte. */
  function Take(t: Target, b: byte): Target {
    if t.due > 0 then t.(faults := t.faults + 1)
    else
      var idle := t.(awaits := Opcode, gathered := []);
      match t.awaits
      case Opcode => Decode(t, b)
      case LoadAddress(left, size) =>
        if left > 1 then t.(gathered := t.gathered + [b], awaits := LoadAddress(left - 1, size))
        else idle.(due := size, from := Wrap(Value(t.gathered + [b])), step := 1)
      case StoreAddress(left, size) =>
        if left > 1 then t.(gathered := t.gathered + [b], awaits := StoreAddress(left - 1, size))
        else idle.(awaits := StoreValue(Value(t.gathered + [b]), size))
      case StoreValue(address, left) =>
        t.(stores := t.stores + [Stored(address, b)],
           awaits := if left > 1 then StoreValue(Wrap(address + 1), left - 1) else Opcode)
      case PointerValue(left) =>
        if left > 1 then t.(gathered := t.gathered + [b], awaits := PointerValue(left - 1))
        else idle.(pointer := Wrap(Value(t.gathered + [b])))
      case StoreIndirect(increment, left) =>
        t.(stores := t.stores + [Stored(t.pointer, b)], pointer := if increment then Wrap(t.pointer + 1) else t.pointer,
           awaits := if left > 1 then StoreIndirect(increment, left - 1) else Opcode)
      case RepeatCount(left) =>
        if left > 1 then t.(gathered := t.gathered + [b], awaits := RepeatCount(left - 1))
        else idle.(repeats := Value(t.gathered + [b]))
      case ControlValue => idle
      case KeyValue(left) => if left > 1 then t.(awaits := KeyValue(left - 1)) else idle
  }

  /** The programmer receives a byte. */
  function Give(t: Target): Target {
    if t.due == 0 then t.(faults := t.faults + 1)
    else t.(due := t.due - 1, from := Wrap(t.from + t.step), loads := t.loads + [t.from])
  }

  function Feed(t: Target, s: seq<byte>): Target
    decreases |s|
  {
    if s == [] then t else Feed(Take(t, s[0]), s[1..])
  }

  function GiveAll(t: Target, n: nat): Target {
    if n == 0 then t else Give(GiveAll(t, n - 1))
  }

  lemma {:induction false} FeedConcat(t: Target, a: seq<byte>, b: seq<byte>)
    ensures Feed(t, a + b) == Feed(Feed(t, a), b)
    decreases |a|
  {
    if a == [] {
      EmptyLeft(b);
    } else {
      assert (a + b)[1..] == a[1..] + b;
      FeedConcat(Take(t, a[0]), a[1..], b);
    }
  }

  lemma FeedThree(t: Target, a: byte, b: byte, c: byte)
    ensures Feed(t, [a, b, c]) == Take(Take(Take(t, a), b), c)
  {
    assert [a, b, c][1..] == [b, c];
    assert [b, c][1..] == [c];
    assert [c][1..] == [];
    assert Feed(Take(t, a), [b, c]) == Feed(Take(Take(t, a), b), [c]);
    assert Feed(Take(Take(t, a), b), [c]) == Feed(Take(Take(Take(t, a), b), c), []);
  }

  lemma FeedFour(t: Target, a: byte, b: byte, c: byte, d: byte)
    ensures Feed(t, [a, b, c, d]) == Take(Take(Take(Take(t, a), b), c), d)
  {
    FeedThree(Take(t, a), b, c, d);
    assert [a, b, c, d][1..] == [b, c, d];
  }

  // ----- Four-byte values -----

  function AddressByte(address: dword, k: nat): byte
    requires k < 4
  {
    match k
    case 0 => address % 0x100
    case 1 => address / 0x100 % 0x100
    case 2 => address / 0x1_0000 % 0x100
    case _ => address / 0x100_0000
  }

  function AddressBytes(address: dword): seq<byte> {
    [AddressByte(address, 0), AddressByte(address, 1), AddressByte(address, 2), AddressByte(address, 3)]
  }

  lemma AddressRoundTrip(address: dword)
    ensures Value(AddressBytes(address)) == address
  {
    var b := address / 0x100;
    var c := b / 0x100;
    Value4(AddressByte(address, 0), AddressByte(address, 1), AddressByte(address, 2), AddressByte(address, 3));
    TwiceDivided(address);
    TwiceDivided(b);
    LowByteOf(address);
    LowByteOf(b);
    LowByteOf(c);
  }

  lemma TwiceDivided(x: nat)
    ensures x / 0x100 / 0x100 == x / 0x1_0000
    ensures x / 0x1_0000 / 0x100 == x / 0x100_0000
  {}

  lemma LowByteOf(x: nat)
    ensures x == x % 0x100 + 0x100 * (x / 0x100)
  {}

  lemma Value4(a: byte, b: byte, c: byte, d: byte)
    ensures Value([a, b, c, d]) == a as int + 0x100 * (b as int + 0x100 * (c as int + 0x100 * d as int))
  {
    assert [a, b, c, d][1..] == [b, c, d];
    assert [b, c, d][1..] == [c, d];
    assert [c, d][1..] == [d];
    assert [d][1..] == [];
    assert Value([d]) == d as int + 0x100 * Value([]);
    assert Value([c, d]) == c as int + 0x100 * Value([d]);
    assert Value([b, c, d]) == b as int + 0x100 * Value([c, d]);
  }

  // ----- The opcodes the programmer uses -----

  const OP_LDS: byte := 0x0C      // LDS, four address bytes, one data byte
  const OP_STS: byte := 0x4C      // STS, four address bytes, one data byte
  const OP_POINTER: byte := 0x6B  // ST to the pointer, four bytes
  const OP_REPEAT: byte := 0xA0   // REPEAT, one count byte
  const OP_LOAD: byte := 0x24     // LD through the pointer with post-increment, one byte
  const OP_STORE: byte := 0x64    // ST through the pointer with post-increment, one byte
  const OP_LDCS: byte := 0x80     // LDCS of the status register

  lemma LdsOpcode(t: Target)
    requires t.awaits == Opcode && t.due == 0
    ensures Take(t, OP_LDS) == t.(awaits := LoadAddress(4, 1))
  {}

  lemma StsOpcode(t: Target)
    requires t.awaits == Opcode && t.due == 0
    ensures Take(t, OP_STS) == t.(awaits := StoreAddress(4, 1))
  {}

  lemma PointerOpcode(t: Target)
    requires t.awaits == Opcode && t.due == 0
    ensures Take(t, OP_POINTER) == t.(awaits := PointerValue(4))
  {}

  lemma RepeatOpcode(t: Target)
    requires t.awaits == Opcode && t.due == 0
    ensures Take(t, OP_REPEAT) == t.(awaits := RepeatCount(1))
  {}

  lemma StoreOpcode(t: Target)
    requires t.awaits == Opcode && t.due == 0
    ensures Take(t, OP_STORE) == t.(awaits := StoreIndirect(true, t.repeats + 1), repeats := 0)
  {}

  lemma LoadOpcode(t: Target)
    requires t.awaits == Opcode && t.due == 0
    ensures Take(t, OP_LOAD) ==
              t.(due := t.repeats + 1, from := t.pointer, step := 1, repeats := 0,
                 pointer := Wrap(t.pointer + t.repeats + 1))
  {}

  lemma StatusOpcode(t: Target)
    requires t.awaits == Opcode && t.due == 0
    ensures Take(t, OP_LDCS) == t.(due := 1, from := 0, step := 0)
  {}

  // ----- Whole instructions -----

  /** The first three bytes of an address pile up. */
  predicate Gathers(t: Target, k: nat) {
    match t.awaits
    case LoadAddress(left, _) => left == 4 - k
    case StoreAddress(left, _) => left == 4 - k
    case PointerValue(left) => left == 4 - k
    case _ => false
  }

  function Awaiting(w: Awaits, left: nat): Awaits {
    match w
    case LoadAddress(_, size) => LoadAddress(left, size)
    case StoreAddress(_, size) => StoreAddress(left, size)
    case PointerValue(_) => PointerValue(left)
    case _ => w
  }

  lemma GatherOne(t: Target, b: byte, k: nat)
    requires t.due == 0 && k < 3 && Gathers(t, k)
    ensures Take(t, b) == t.(gathered := t.gathered + [b], awaits := Awaiting(t.awaits, 3 - k))
  {}

  lemma GatherThree(t: Target, address: dword)
    requires t.due == 0 && t.gathered == [] && Gathers(t, 0)
    ensures Feed(t, AddressBytes(address))
         == Take(t.(gathered := AddressBytes(address)[..3], awaits := Awaiting(t.awaits, 1)), AddressByte(address, 3))
  {
    var a, b := AddressByte(address, 0), AddressByte(address, 1);
    var c, d := AddressByte(address, 2), AddressByte(address, 3);
    FeedFour(t, a, b, c, d);
    GatherOne(t, a, 0);
    var t1 := Take(t, a);
    GatherOne(t1, b, 1);
    var t2 := Take(t1, b);
    GatherOne(t2, c, 2);
    EmptyLeft([a]);
    Two(a, b);
    Three(a, b, c);
    assert AddressBytes(address)[..3] == [a, b, c];
  }

  lemma AddressComplete(address: dword)
    ensures Value(AddressBytes(address)[..3] + [AddressByte(address, 3)]) == address
  {
    AddressRoundTrip(address);
    assert AddressBytes(address)[..3] + [AddressByte(address, 3)] == AddressBytes(address);
  }

  lemma LdsEffect(t: Target, address: dword)
    requires t.Quiet()
    ensures Feed(Take(t, OP_LDS), AddressBytes(address)) == t.(due := 1, from := address, step := 1)
  {
    LdsOpcode(t);
    GatherThree(Take(t, OP_LDS), address);
    AddressComplete(address);
  }

  lemma PointerEffect(t: Target, address: dword)
    requires t.Quiet()
    ensures Feed(Take(t, OP_POINTER), AddressBytes(address)) == t.(pointer := address)
  {
    PointerOpcode(t);
    GatherThree(Take(t, OP_POINTER), address);
    AddressComplete(address);
  }

  lemma StsEffect(t: Target, address: dword, value: byte)
    requires t.Quiet()
    ensures Take(Feed(Take(t, OP_STS), AddressBytes(address)), value)
         == t.(stores := t.stores + [Stored(address, value)])
  {
    StsOpcode(t);
    GatherThree(Take(t, OP_STS), address);
    AddressComplete(address);
  }

  lemma RepeatEffect(t: Target, count: byte)
    requires t.Quiet()
    ensures Take(Take(t, OP_REPEAT), count) == t.(repeats := count as nat)
  {
    RepeatOpcode(t);
    EmptyLeft([count]);
    assert Value([count]) == count as int + 0x100 * Value([count][1..]);
    assert [count][1..] == [];
  }

  // ----- Repeated stores and loads -----

  /** The stores of a block: byte `i` at the `i`th address from `pointer`. */
  function BlockStores(pointer: nat, data: seq<byte>): (r: seq<Stored>)
    ensures |r| == |data|
  {
    if data == [] then []
    else BlockStores(pointer, data[..|data| - 1]) + [Stored(Wrap(pointer + |data| - 1), data[|data| - 1])]
  }

  lemma {:induction false} BlockStoresAt(pointer: nat, data: seq<byte>, i: nat)
    requires i < |data|
    ensures BlockStores(pointer, data)[i] == Stored(Wrap(pointer + i), data[i])
  {
    if i < |data| - 1 { BlockStoresAt(pointer, data[..|data| - 1], i); }
  }

  lemma BlockStoresSnoc(pointer: nat, data: seq<byte>, b: byte)
    ensures BlockStores(pointer, data + [b]) == BlockStores(pointer, data) + [Stored(Wrap(pointer + |data|), b)]
  {
    ButLastSnoc(data, b);
  }

  lemma WrapNext(pointer: nat, k: nat)
    ensures Wrap(Wrap(pointer + k) as nat + 1) == Wrap(pointer + k + 1)
    ensures Wrap(Wrap(pointer) as nat) == Wrap(pointer)
  {}

  /** A target some way into a run of stores, with `left` bytes of the run to come. */
  function InRun(t: Target, data: seq<byte>, left: nat): Target {
    t.(stores := t.stores + BlockStores(t.pointer, data), pointer := Wrap(t.pointer + |data|),
       awaits := if left > 0 then StoreIndirect(true, left) else Opcode)
  }

  lemma TakeStore(q: Target, b: byte, left: nat)
    requires q.awaits == StoreIndirect(true, left) && q.due == 0
    ensures Take(q, b) ==
              q.(stores := q.stores + [Stored(q.pointer, b)], pointer := Wrap(q.pointer + 1),
                 awaits := if left > 1 then StoreIndirect(true, left - 1) else Opcode)
  {}

  /** Within a run every byte is stored, and the pointer moves on; the last byte ends the run. */
  lemma {:induction false} RunStores(t: Target, data: seq<byte>, total: nat)
    requires t.awaits == StoreIndirect(true, total) && t.due == 0 && |data| <= total && total > 0
    ensures Feed(t, data) == InRun(t, data, total - |data|)
  {
    if data == [] {
      EmptyRight(t.stores);
    } else {
      var n := |data| - 1;
      RunStores(t, data[..n], total);
      FeedSnoc(t, data[..n], data[n]);
      Snoc(data);
      RunStep(t, data[..n], data[n], total - n);
    }
  }

  lemma RunStep(t: Target, data: seq<byte>, b: byte, left: nat)
    requires t.due == 0 && left > 0
    ensures Take(InRun(t, data, left), b) == InRun(t, data + [b], left - 1)
  {
    TakeStore(InRun(t, data, left), b, left);
    WrapNext(t.pointer, |data|);
    BlockStoresSnoc(t.pointer, data, b);
    Assoc(t.stores, BlockStores(t.pointer, data), [Stored(Wrap(t.pointer + |data|), b)]);
  }

  lemma FeedSnoc(t: Target, s: seq<byte>, b: byte)
    ensures Feed(t, s + [b]) == Take(Feed(t, s), b)
  {
    FeedConcat(t, s, [b]);
    assert [b][1..] == [];
  }

  /** The repeat prefix for a block of `n` bytes: the count is sent as one byte, `n - 1`. */
  function BlockHeader(n: nat): seq<byte> { [OP_REPEAT, (n as int - 1) % 0x100, OP_STORE] }

  function BlockCount(n: nat): nat { (n as int - 1) % 0x100 + 1 }

  lemma HeaderEffect(t: Target, n: nat)
    requires t.Quiet()
    ensures Feed(t, BlockHeader(n)) == t.(awaits := StoreIndirect(true, BlockCount(n)))
  {
    var count: byte := (n as int - 1) % 0x100;
    RepeatEffect(t, count);
    StoreOpcode(t.(repeats := count as nat));
    FeedThree(t, OP_REPEAT, count, OP_STORE);
  }

  /** A byte sent stores at most one byte. */
  lemma {:induction false} StoresAtMost(t: Target, s: seq<byte>)
    ensures |Feed(t, s).stores| <= |t.stores| + |s|
    decreases |s|
  {
    if s != [] {
      TakeStoresAtMost(t, s[0]);
      StoresAtMost(Take(t, s[0]), s[1..]);
    }
  }

  lemma TakeStoresAtMost(t: Target, b: byte)
    ensures |Take(t, b).stores| <= |t.stores| + 1
    ensures t.awaits == Opcode ==> Take(t, b).stores == t.stores
  {}

  /**
    A block of one or more bytes, sent after its header, is stored exactly when it has at most 256 bytes: the count
    is a byte, and of a longer block some bytes are taken for instructions.
  */
  lemma BlockIff(t: Target, data: seq<byte>)
    requires t.Quiet() && data != []
    ensures Feed(t, BlockHeader(|data|) + data).stores == t.stores + BlockStores(t.pointer, data) <==> |data| <= 256
  {
    var n := |data|;
    HeaderThenData(t, n, data);
    StoredIff(t.(awaits := StoreIndirect(true, BlockCount(n))), data);
  }

  lemma HeaderThenData(t: Target, n: nat, data: seq<byte>)
    requires t.Quiet()
    ensures Feed(t, BlockHeader(n) + data) == Feed(t.(awaits := StoreIndirect(true, BlockCount(n))), data)
  {
    FeedConcat(t, BlockHeader(n), data);
    HeaderEffect(t, n);
  }

  lemma StoredIff(r: Target, data: seq<byte>)
    requires r.awaits == StoreIndirect(true, BlockCount(|data|)) && r.due == 0 && data != []
    ensures Feed(r, data).stores == r.stores + BlockStores(r.pointer, data) <==> |data| <= 256
  {
    if |data| <= 256 {
      assert BlockCount(|data|) == |data|;
      RunStores(r, data, |data|);
    } else {
      TooFewStores(r, data);
    }
  }

  /** After a run, the next byte is an instruction: not every byte of a longer block can be stored. */
  lemma TooFewStores(r: Target, data: seq<byte>)
    requires r.awaits == StoreIndirect(true, BlockCount(|data|)) && r.due == 0 && |data| > 256
    ensures |Feed(r, data).stores| < |r.stores| + |data|
  {
    var k := BlockCount(|data|);
    var run, rest := data[..k], data[k..];
    assert data == run + rest;
    FeedConcat(r, run, rest);
    RunStores(r, run, k);
    var q := Feed(r, run);
    TakeStoresAtMost(q, rest[0]);
    StoresAtMost(Take(q, rest[0]), rest[1..]);
  }

  // ----- Loads -----

  function BlockLoads(pointer: dword, n: nat): (r: seq<nat>)
    ensures |r| == n && forall i :: 0 <= i < n ==> r[i] == Wrap(pointer + i)
  {
    if n == 0 then [] else BlockLoads(pointer, n - 1) + [Wrap(pointer + (n - 1))]
  }

  lemma BlockLoadsSnoc(pointer: dword, n: nat)
    ensures BlockLoads(pointer, n + 1) == BlockLoads(pointer, n) + [Wrap(pointer + n)]
  {}

  /** Receiving takes the bytes that are due, from one address after the other; receiving more is a fault. */
  lemma {:induction false} GivesLoads(t: Target, n: nat)
    requires t.step == 1
    ensures var given := if n <= t.due then n else t.due;
            GiveAll(t, n) == t.(due := t.due - given, from := Wrap(t.from + given),
                                loads := t.loads + BlockLoads(t.from, given), faults := t.faults + (n - given))
  {
    if n <= t.due {
      GivesDue(t, n);
    } else {
      GivesLoads(t, n - 1);
      GiveTooMany(GiveAll(t, n - 1));
    }
  }

  lemma {:induction false} GivesDue(t: Target, n: nat)
    requires t.step == 1 && n <= t.due
    ensures GiveAll(t, n) == t.(due := t.due - n, from := Wrap(t.from + n), loads := t.loads + BlockLoads(t.from, n))
  {
    if n == 0 {
      EmptyRight(t.loads);
      WrapNext(t.from, 0);
    } else {
      GivesDue(t, n - 1);
      GiveNext(t, n - 1);
    }
  }

  lemma GiveTooMany(t: Target)
    requires t.due == 0
    ensures Give(t) == t.(faults := t.faults + 1)
  {}

  lemma GiveNext(t: Target, n: nat)
    requires t.step == 1 && n < t.due
    ensures var r := t.(due := t.due - n, from := Wrap(t.from + n), loads := t.loads + BlockLoads(t.from, n));
            Give(r) == t.(due := t.due - (n + 1), from := Wrap(t.from + (n + 1)),
                          loads := t.loads + BlockLoads(t.from, n + 1))
  {
    WrapNext(t.from, n);
    BlockLoadsSnoc(t.from, n);
    Assoc(t.loads, BlockLoads(t.from, n), [Wrap(t.from + n)]);
  }

  /** The same header for a block that is read. */
  function LoadHeader(n: nat): seq<byte> { [OP_REPEAT, (n as int - 1) % 0x100, OP_LOAD] }

  lemma LoadHeaderEffect(t: Target, n: nat)
    requires t.Quiet()
    ensures Feed(t, LoadHeader(n)) ==
              t.(due := BlockCount(n), from := t.pointer, step := 1, pointer := Wrap(t.pointer + BlockCount(n)))
  {
    var count: byte := (n as int - 1) % 0x100;
    RepeatEffect(t, count);
    LoadOpcode(t.(repeats := count as nat));
    FeedThree(t, OP_REPEAT, count, OP_LOAD);
  }

  /**
    A block read leaves the target between instructions, with nothing more to say and nothing asked in vain,
    exactly when it has 1 to 256 bytes. A read of 0 bytes makes the target offer 256 that nobody fetches.
  */
  lemma BlockReadIff(t: Target, n: nat)
    requires t.Quiet()
    ensures GiveAll(Feed(t, LoadHeader(n)), n).Quiet() <==> 1 <= n <= 256
  {
    LoadHeaderEffect(t, n);
    GivesLoads(Feed(t, LoadHeader(n)), n);
  }
}
