/** A target AVR in serial programming mode: a decoder of 4-byte instructions with a page buffer and a flash. */
module SpiTarget {
  import opened Bits
  import opened Seqs
  import opened SpiBuses

  const LOAD_EXTENDED_ADDRESS_CMD: byte := 0x4D
  const POLL_BUSY_CMD: byte := 0xF0

  /** The opcodes the host passes along. Bit 3 of `load` and `read` selects the high half of the word. */
  datatype OpcodeTable = Opcodes(load: byte, commit: byte, read: byte)
  {
    /** No two instructions share an opcode. */
    predicate Distinct() {
      && !HighBit(load) && !HighBit(read)
      && load != commit && load + 8 != commit && load != read && read != commit && read + 8 != commit
      && load != LOAD_EXTENDED_ADDRESS_CMD && load + 8 != LOAD_EXTENDED_ADDRESS_CMD
      && commit != LOAD_EXTENDED_ADDRESS_CMD && commit != POLL_BUSY_CMD
      && load != POLL_BUSY_CMD && load + 8 != POLL_BUSY_CMD
      && read != LOAD_EXTENDED_ADDRESS_CMD && read + 8 != LOAD_EXTENDED_ADDRESS_CMD
      && read != POLL_BUSY_CMD && read + 8 != POLL_BUSY_CMD
    }

    predicate IsLoad(op: byte) { op == load || op == load + 8 }
    predicate IsRead(op: byte) { op == read || op == read + 8 }
  }

  type Opcodes = ops: OpcodeTable | ops.Distinct() witness Opcodes(0x40, 0x4C, 0x20)

  /** The opcodes of the AVR serial programming instruction set. */
  const AVR_OPCODES: Opcodes := Opcodes(0x40, 0x4C, 0x20)

  /** The bytes of an unfinished instruction. */
  type Pending = s: seq<byte> | |s| < 4 witness []

  /** Some whole words, two bytes each. */
  type PageBuffer = s: seq<byte> | |s| > 0 && |s| % 2 == 0 witness [0xFF, 0xFF]

  datatype Target = Target(
    ops: Opcodes,
    pending: Pending,
    extended: byte,      // the extended address register
    buffer: PageBuffer,
    flash: seq<byte>     // the whole flash, two bytes a word
  )
  {
    function PageWords(): (n: nat)
      ensures n > 0 && 2 * n == |buffer|
    {
      |buffer| / 2
    }

    /** The flash index of one half of the word that a 16-bit address names. */
    function ByteIndex(address: nat, high: bool): nat {
      FlashByte(extended, address) + if high then 1 else 0
    }

    function PageStart(address: nat): nat {
      PageBase(extended, PageWords(), address)
    }
  }

  function FlashByte(extended: byte, address: nat): nat { 2 * (extended * 0x1_0000 + address) }

  /** The place of a word address within its page. */
  function PageOffset(address: nat, words: nat): (r: nat)
    requires words > 0
    ensures r < words && r <= address
  {
    if address < words then address else PageOffset(address - words, words)
  }

  /** It is the remainder, and so what the low address bits are if the page size is a power of two. */
  lemma {:induction false} PageOffsetIsRemainder(address: nat, words: nat)
    requires words > 0
    ensures PageOffset(address, words) == address % words
  {
    if address >= words {
      PageOffsetIsRemainder(address - words, words);
      var q, r := (address - words) / words, (address - words) % words;
      assert address == words * (q + 1) + r;
      ModOfMultiple(words, q + 1, r);
    } else {
      ModOfMultiple(words, 0, address);
    }
  }

  /** Going on within a page. */
  lemma {:induction false} PageOffsetPlus(address: nat, k: nat, words: nat)
    requires words > 0 && PageOffset(address, words) + k < words
    ensures PageOffset(address + k, words) == PageOffset(address, words) + k
  {
    if address >= words { PageOffsetPlus(address - words, k, words); }
  }

  function PageBase(extended: byte, words: nat, address: nat): nat
    requires words > 0
  {
    FlashByte(extended, address - PageOffset(address, words))
  }

  function Erased(n: nat): (s: seq<byte>)
    ensures |s| == n && forall i :: 0 <= i < n ==> s[i] == 0xFF
  {
    seq(n, _ => 0xFF)
  }

  /** Programming can only clear bits: the buffer is and-ed into the page at `start`. */
  function Program(flash: seq<byte>, start: nat, buffer: seq<byte>): (r: seq<byte>)
    ensures |r| == |flash|
    ensures forall i :: 0 <= i < |flash| ==>
              r[i] == if start <= i < start + |buffer| then And(flash[i], buffer[i - start]) else flash[i]
  {
    seq(|flash|, i requires 0 <= i < |flash| =>
      if start <= i < start + |buffer| then And(flash[i], buffer[i - start]) as byte else flash[i])
  }

  /** The effect of one complete instruction. */
  function Execute(t: Target, op: byte, address: nat, value: byte): (r: Target)
    requires address < 0x1_0000
    ensures r.ops == t.ops && |r.buffer| == |t.buffer| && |r.flash| == |t.flash|
  {
    if t.ops.IsLoad(op) then
      t.(buffer := t.buffer[2 * PageOffset(address, t.PageWords()) + (if op == t.ops.load then 0 else 1) := value])
    else if op == t.ops.commit then
      t.(flash := Program(t.flash, t.PageStart(address), t.buffer), buffer := Erased(|t.buffer|))
    else if op == 0x4D then
      t.(extended := LowByte(address))
    else t
  }

  /** What the last byte of an instruction reads. */
  function Result(t: Target, op: byte, address: nat): byte {
    var i := t.ByteIndex(address, op != t.ops.read);
    if t.ops.IsRead(op) && i < |t.flash| then t.flash[i] else 0
  }

  function Join(high: byte, low: byte): (address: nat)
    ensures address < 0x1_0000
  {
    high as int * 0x100 + low as int
  }

  function Take(t: Target, b: byte): (r: Target)
    ensures r.ops == t.ops && |r.buffer| == |t.buffer| && |r.flash| == |t.flash|
  {
    if |t.pending| < 3 then t.(pending := t.pending + [b])
    else Execute(t.(pending := []), t.pending[0], Join(t.pending[1], t.pending[2]), b)
  }

  function Answer(t: Target): byte {
    if |t.pending| == 3 then Result(t, t.pending[0], Join(t.pending[1], t.pending[2])) else 0
  }

  /** The target after the bytes of a stream. */
  function Feed(t: Target, s: seq<byte>): (r: Target)
    ensures r.ops == t.ops && |r.buffer| == |t.buffer| && |r.flash| == |t.flash|
  {
    if s == [] then t else Take(Feed(t, s[..|s| - 1]), s[|s| - 1])
  }

  /** The answer to the last byte of a stream. */
  function Reply(t: Target, s: seq<byte>): byte { if s == [] then 0 else Answer(Feed(t, s[..|s| - 1])) }

  /** The target as a device on the bus. */
  function AsDevice(t: Target): Device { (s: seq<byte>) => Reply(t, s) }

  lemma DeviceAnswers(t: Target, s: seq<byte>, b: byte)
    ensures Reply(t, s + [b]) == Answer(Feed(t, s))
  {
    ButLastSnoc(s, b);
  }

  lemma {:induction false} FeedConcat(t: Target, a: seq<byte>, b: seq<byte>)
    ensures Feed(t, a + b) == Feed(Feed(t, a), b)
  {
    if b == [] {
      EmptyRight(a);
    } else {
      FeedConcat(t, a, b[..|b| - 1]);
      ButLast(a, b);
    }
  }

  /** A whole instruction, from an instruction boundary. */
  lemma FeedInstruction(t: Target, a: byte, b: byte, c: byte, d: byte)
    requires t.pending == []
    ensures Feed(t, [a, b, c, d]) == Execute(t, a, Join(b, c), d)
  {
    FeedThree(t, a, b, c);
    TakeFourth(t, a, b, c, d);
    assert [a, b, c, d][..3] == [a, b, c];
  }

  lemma TakeFourth(t: Target, a: byte, b: byte, c: byte, d: byte)
    requires t.pending == []
    ensures Take(t.(pending := [a, b, c]), d) == Execute(t, a, Join(b, c), d)
  {
    var r := t.(pending := [a, b, c]);
    assert r.(pending := []) == t;
  }

  lemma FeedThree(t: Target, a: byte, b: byte, c: byte)
    requires t.pending == []
    ensures Feed(t, [a, b, c]) == t.(pending := [a, b, c])
  {
    assert [a, b, c][..2] == [a, b];
    assert [a, b][..1] == [a];
    assert [a][..0] == [];
    assert Feed(t, [a]) == t.(pending := [] + [a]);
    EmptyLeft([a]);
    Two(a, b);
    Three(a, b, c);
  }

  lemma JoinBytes(x: nat)
    ensures Join(HighByte(x), LowByte(x)) == x % 0x1_0000
  {
    var h, l := x / 0x100, x % 0x100;
    var q, r := h / 0x100, h % 0x100;
    assert x == 0x1_0000 * q + (0x100 * r + l);
  }

  /** The same for an instruction with a word address, of which the wire carries 16 bits. */
  lemma InstructionEffect(t: Target, op: byte, x: nat, value: byte, address: word)
    requires t.pending == [] && address == x % 0x1_0000
    ensures Feed(t, [op, HighByte(x), LowByte(x), value]) == Execute(t, op, address, value)
  {
    FeedInstruction(t, op, HighByte(x), LowByte(x), value);
    JoinBytes(x);
  }

  lemma InstructionAnswer(t: Target, op: byte, x: nat)
    requires t.pending == []
    ensures Answer(Feed(t, [op, HighByte(x), LowByte(x)])) == Result(t, op, x % 0x1_0000)
  {
    ThreeBytesAnswer(t, op, HighByte(x), LowByte(x));
    JoinBytes(x);
  }

  lemma ThreeBytesAnswer(t: Target, a: byte, b: byte, c: byte)
    requires t.pending == []
    ensures Answer(Feed(t, [a, b, c])) == Result(t, a, Join(b, c))
  {
    FeedThree(t, a, b, c);
    PendingAnswer(t.(pending := [a, b, c]), a, b, c);
    SameResult(t, t.(pending := [a, b, c]), a, Join(b, c));
  }

  lemma PendingAnswer(t: Target, a: byte, b: byte, c: byte)
    requires t.pending == [a, b, c]
    ensures Answer(t) == Result(t, a, Join(b, c))
  {}

  /** A result depends on the opcodes, the extended address register and the flash alone. */
  lemma SameResult(t: Target, u: Target, op: byte, address: nat)
    requires t.ops == u.ops && t.extended == u.extended && t.flash == u.flash
    ensures Result(t, op, address) == Result(u, op, address)
  {}

  lemma HarmlessEffect(t: Target, op: byte, x: nat, value: byte)
    requires t.pending == [] && Harmless(t.ops, op)
    ensures Feed(t, [op, HighByte(x), LowByte(x), value]) == t
  {
    InstructionEffect(t, op, x, value, x % 0x1_0000);
  }

  lemma CommitEffect(t: Target, address: word, value: byte)
    requires t.pending == []
    ensures Feed(t, [t.ops.commit, HighByte(address), LowByte(address), value])
         == t.(flash := Program(t.flash, t.PageStart(address), t.buffer), buffer := Erased(|t.buffer|))
  {
    InstructionEffect(t, t.ops.commit, address, value, address);
    ExecuteCommit(t, address, value);
  }

  lemma ExecuteCommit(t: Target, address: word, value: byte)
    ensures Execute(t, t.ops.commit, address, value)
         == t.(flash := Program(t.flash, t.PageStart(address), t.buffer), buffer := Erased(|t.buffer|))
  {}

  lemma ExtendEffect(t: Target, e: byte)
    requires t.pending == []
    ensures Feed(t, [LOAD_EXTENDED_ADDRESS_CMD, 0, e, 0]) == t.(extended := e)
  {
    FeedThree(t, LOAD_EXTENDED_ADDRESS_CMD, 0, e);
    TakeExtend(t, e);
    assert [LOAD_EXTENDED_ADDRESS_CMD, 0, e, 0][..3] == [LOAD_EXTENDED_ADDRESS_CMD, 0, e];
  }

  lemma TakeExtend(t: Target, e: byte)
    requires t.pending == []
    ensures Take(t.(pending := [LOAD_EXTENDED_ADDRESS_CMD, 0, e]), 0) == t.(extended := e)
  {
    var r := t.(pending := [LOAD_EXTENDED_ADDRESS_CMD, 0, e]);
    assert r.(pending := []) == t && Join(0, e) == e;
  }

  // ----- LOAD EXTENDED ADDRESS instructions in a stream -----

  /** The next byte completes a LOAD EXTENDED ADDRESS. */
  predicate Extends(t: Target) { |t.pending| == 3 && t.pending[0] == 0x4D }

  /** How many such instructions the target carries out in a stream. */
  function Extensions(t: Target, s: seq<byte>): nat
  {
    if s == [] then 0
    else
      var front := s[..|s| - 1];
      Extensions(t, front) + if Extends(Feed(t, front)) then 1 else 0
  }

  lemma {:induction false} ExtensionsConcat(t: Target, a: seq<byte>, b: seq<byte>)
    ensures Extensions(t, a + b) == Extensions(t, a) + Extensions(Feed(t, a), b)
  {
    if b == [] {
      EmptyRight(a);
    } else {
      var front := b[..|b| - 1];
      ExtensionsConcat(t, a, front);
      FeedConcat(t, a, front);
      ButLast(a, b);
    }
  }

  lemma ExtensionsSnoc(t: Target, s: seq<byte>, b: byte)
    ensures Extensions(t, s + [b]) == Extensions(t, s) + if Extends(Feed(t, s)) then 1 else 0
  {
    ButLastSnoc(s, b);
  }

  /** An instruction is one of them exactly when its first byte says so. */
  lemma ExtensionsInstruction(t: Target, a: byte, b: byte, c: byte, d: byte)
    requires t.pending == []
    ensures Extensions(t, [a, b, c, d]) == if a == LOAD_EXTENDED_ADDRESS_CMD then 1 else 0
  {
    FeedThree(t, a, b, c);
    ThreeExtendNothing(t, a, b, c);
    ExtensionsSnoc(t, [a, b, c], d);
    assert [a, b, c] + [d] == [a, b, c, d];
  }

  lemma ThreeExtendNothing(t: Target, a: byte, b: byte, c: byte)
    requires t.pending == []
    ensures Extensions(t, [a, b, c]) == 0
  {
    FeedTwo(t, a, b);
    ExtensionsSnoc(t, [], a);
    ExtensionsSnoc(t, [a], b);
    ExtensionsSnoc(t, [a, b], c);
    EmptyLeft([a]);
    Two(a, b);
    Three(a, b, c);
  }

  lemma FeedTwo(t: Target, a: byte, b: byte)
    requires t.pending == []
    ensures Feed(t, [a]).pending == [a] && Feed(t, [a, b]).pending == [a, b]
  {
    assert [a, b][..1] == [a];
    assert [a][..0] == [];
    EmptyLeft([a]);
    Two(a, b);
  }

  /** Nothing else changes the extended address register. */
  lemma {:induction false} RegisterKept(t: Target, s: seq<byte>)
    requires Extensions(t, s) == 0
    ensures Feed(t, s).extended == t.extended
  {
    if s != [] { RegisterKept(t, s[..|s| - 1]); }
  }

  lemma ExtensionsOfPrefix(t: Target, s: seq<byte>, k: nat)
    requires k <= |s|
    ensures Extensions(t, s[..k]) <= Extensions(t, s)
  {
    SplitAt(s, k);
    ExtensionsConcat(t, s[..k], s[k..]);
  }

  /** Reads, busy polls and unknown instructions change nothing. */
  predicate Harmless(ops: Opcodes, op: byte) {
    !ops.IsLoad(op) && op != ops.commit && op != 0x4D
  }

  /** One instruction repeated. */
  function Repeat(instruction: seq<byte>, n: nat): seq<byte> {
    if n == 0 then [] else Repeat(instruction, n - 1) + instruction
  }

  lemma {:induction false} PollsHarmless(t: Target, op: byte, b: byte, c: byte, d: byte, n: nat)
    requires t.pending == [] && Harmless(t.ops, op)
    ensures Feed(t, Repeat([op, b, c, d], n)) == t
  {
    if n > 0 {
      PollsHarmless(t, op, b, c, d, n - 1);
      FeedConcat(t, Repeat([op, b, c, d], n - 1), [op, b, c, d]);
      FeedInstruction(t, op, b, c, d);
    }
  }
}
