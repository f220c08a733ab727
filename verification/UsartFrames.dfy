/** The 12-bit frames of the bit-banged USART in isp/Lib/XPROG/XPROGTarget.c: bit layout, parity and shifting. */
module UsartFrames {
  import opened Bits
  import opened Seqs

  const BITS_IN_USART_FRAME := 12

  /** The low `n` bits of `x` in the order they are shifted out, least significant first. */
  function BitsOf(x: nat, n: nat): (s: seq<bool>)
    ensures |s| == n
  {
    if n == 0 then [] else [x % 2 == 1] + BitsOf(x / 2, n - 1)
  }

  /** The number whose bits these are. */
  function ValueOf(s: seq<bool>): (v: nat)
    ensures v < Pow2(|s|)
  {
    if s == [] then 0 else (if s[0] then 1 else 0) + 2 * ValueOf(s[1..])
  }

  lemma {:induction false} ValueOfBits(x: nat, n: nat)
    requires x < Pow2(n)
    ensures ValueOf(BitsOf(x, n)) == x
  {
    if n > 0 { ValueOfBits(x / 2, n - 1); }
  }

  lemma {:induction false} BitsConcat(low: nat, high: nat, k: nat, n: nat)
    requires low < Pow2(k)
    ensures BitsOf(low + Pow2(k) * high, k + n) == BitsOf(low, k) + BitsOf(high, n)
  {
    if k > 0 {
      var rest := Pow2(k - 1) * high;
      assert Pow2(k) * high == 2 * rest;
      assert (low + 2 * rest) % 2 == low % 2 && (low + 2 * rest) / 2 == low / 2 + rest;
      BitsConcat(low / 2, high, k - 1, n);
      Assoc([low % 2 == 1], BitsOf(low / 2, k - 1), BitsOf(high, n));
    } else {
      EmptyLeft(BitsOf(high, n));
    }
  }

  // ----- Parity -----

  function BitCount(x: nat): nat {
    if x == 0 then 0 else x % 2 + BitCount(x / 2)
  }

  function Parity(b: byte): nat { BitCount(b) % 2 }

  /** `x & (x - 1)` drops exactly one set bit. */
  lemma {:induction false} DropLowestBit(x: nat)
    requires x > 0
    ensures And(x, x - 1) < x && BitCount(And(x, x - 1)) == BitCount(x) - 1
  {
    var half := x / 2;
    if x % 2 == 1 {
      assert x == 2 * half + 1;
      DropFromOdd(half);
    } else {
      assert x == 2 * half;
      DropLowestBit(half);
      DropFromEven(half);
    }
  }

  lemma DropFromOdd(half: nat)
    ensures And(2 * half + 1, 2 * half) == 2 * half
    ensures BitCount(And(2 * half + 1, 2 * half)) == BitCount(half) == BitCount(2 * half + 1) - 1
  {
    AndSame(half);
    assert And(2 * half + 1, 2 * half) == 2 * half;
  }

  lemma DropFromEven(half: nat)
    requires half > 0
    ensures And(2 * half, 2 * half - 1) == 2 * And(half, half - 1)
    ensures BitCount(And(2 * half, 2 * half - 1)) == BitCount(And(half, half - 1))
    ensures BitCount(2 * half) == BitCount(half)
  {
    assert (2 * half - 1) / 2 == half - 1;
    assert And(2 * half, 2 * half - 1) == 2 * And(half, half - 1);
  }

  lemma {:induction false} AndSame(x: nat)
    ensures And(x, x) == x
  {
    if x > 0 { AndSame(x / 2); }
  }

  function TestBit(x: nat, k: nat): bool {
    if k == 0 then x % 2 == 1 else TestBit(x / 2, k - 1)
  }

  /** `x ^ (1 << k)` */
  lemma {:induction false} ToggleBit(x: nat, k: nat)
    ensures Xor(x, Pow2(k)) == if TestBit(x, k) then x - Pow2(k) else x + Pow2(k)
  {
    if k > 0 {
      XorLow(x, Pow2(k - 1));
      ToggleBit(x / 2, k - 1);
    } else {
      assert x > 1 ==> Xor(x, 1) == (1 - x % 2) + 2 * (x / 2);
    }
  }

  lemma {:induction false} TestHighBit(low: nat, high: nat, k: nat)
    requires low < Pow2(k)
    ensures TestBit(low + Pow2(k) * high, k) <==> high % 2 == 1
  {
    if k > 0 {
      var rest := Pow2(k - 1) * high;
      Doubled(Pow2(k - 1), high);
      assert (low + 2 * rest) / 2 == low / 2 + rest;
      TestHighBit(low / 2, high, k - 1);
    } else {
      assert Pow2(k) * high == high;
    }
  }

  lemma Doubled(p: nat, x: nat)
    ensures (2 * p) * x == 2 * (p * x)
  {}

  /** The frame of a byte as a word, with the bit that goes out first at the low end. */
  function FrameWord(b: byte): (w: word)
    ensures 0x800 <= w < 0x1000
  {
    0x800 + 0x400 + 0x200 * Parity(b) + 2 * b
  }

  /** The twelve idle bits of a BREAK. */
  const BREAK_WORD: word := 0x0FFF

  lemma NineBits()
    ensures Pow2(9) == 0x200 && Pow2(8) == 0x100 && Pow2(2) == 4 && Pow2(1) == 2 && Pow2(12) == 0x1000
  {
    assert Pow2(12) == 0x10 * Pow2(8);
    assert Pow2(9) == 2 * Pow2(8);
    assert Pow2(8) == 0x10 * Pow2(4);
    assert Pow2(4) == 4 * Pow2(2);
  }

  /** The frame word once the parity loop has dropped all but `left` of the set bits of `b`. */
  function FrameSoFar(b: byte, left: nat): nat {
    0xC00 + 0x200 * ((BitCount(b) - left) % 2) + 2 * b
  }

  lemma OneBitFewer(b: byte, x: nat)
    requires 0 < x <= b && BitCount(x) <= BitCount(b)
    ensures BitCount(x) > 0
    ensures var y := And(x, x - 1);
            y < x && BitCount(y) <= BitCount(b) && Xor(FrameSoFar(b, BitCount(x)), 0x200) == FrameSoFar(b, BitCount(y))
  {
    DropLowestBit(x);
    FrameStep(b, BitCount(x));
  }

  lemma FrameStep(b: byte, left: nat)
    requires 0 < left <= BitCount(b)
    ensures Xor(FrameSoFar(b, left), 0x200) == FrameSoFar(b, left - 1)
  {
    OtherParity(BitCount(b), left);
    TogglesParity(b, (BitCount(b) - left) % 2);
  }

  lemma OtherParity(n: nat, k: nat)
    requires 0 < k <= n
    ensures (n - (k - 1)) % 2 == 1 - (n - k) % 2
  {}

  /** The frame and parity computation of XPROGTarget_SendByte. */
  method ComputeFrame(b: byte) returns (frame: word)
    ensures frame == FrameWord(b)
  {
    var newData: nat := 0x800 + 0x400 + b * 2;
    var parityData: nat := b;
    while parityData != 0
      invariant parityData <= b && BitCount(parityData) <= BitCount(b)
      invariant newData == FrameSoFar(b, BitCount(parityData))
      decreases parityData
    {
      OneBitFewer(b, parityData);
      newData := Xor(newData, 0x200);
      parityData := And(parityData, parityData - 1);
    }
    frame := newData;
  }

  lemma TogglesParity(b: byte, p: nat)
    requires p <= 1
    ensures Xor(0xC00 + 0x200 * p + 2 * b, 0x200) == 0xC00 + 0x200 * (1 - p) + 2 * b
  {
    NineBits();
    TestHighBit(2 * b, 6 + p, 9);
    ToggleBit(0xC00 + 0x200 * p + 2 * b, 9);
  }

  /** What the receiver must see: a low start bit, eight data bits, even parity, two high stop bits. */
  function Frame(b: byte): seq<bool> {
    [false] + AfterStart(b)
  }

  function AfterStart(b: byte): seq<bool> {
    BitsOf(b, 8) + [Parity(b) == 1, true, true]
  }

  lemma FrameLayout(b: byte)
    ensures BitsOf(FrameWord(b), 12) == Frame(b)
  {
    var rest := b + 0x100 * (Parity(b) + 6);
    assert FrameWord(b) % 2 == 0 && FrameWord(b) / 2 == rest;
    FrameTail(b);
  }

  /** How many of these bits are set. */
  function OnesIn(s: seq<bool>): nat {
    if s == [] then 0 else (if s[0] then 1 else 0) + OnesIn(s[1..])
  }

  /** Twelve bits that a receiver accepts: a low start bit, an even number of ones with the parity, two stop bits. */
  predicate Accepted(bits: seq<bool>) {
    |bits| == 12 && !bits[0] && OnesIn(bits[1..10]) % 2 == 0 && bits[10] && bits[11]
  }

  lemma {:induction false} OnesOfBits(x: nat, n: nat)
    requires x < Pow2(n)
    ensures OnesIn(BitsOf(x, n)) == BitCount(x)
  {
    if n > 0 { OnesOfBits(x / 2, n - 1); }
  }

  lemma {:induction false} OnesConcat(a: seq<bool>, b: seq<bool>)
    ensures OnesIn(a + b) == OnesIn(a) + OnesIn(b)
  {
    if a == [] {
      EmptyLeft(b);
    } else {
      OnesConcat(a[1..], b);
      assert (a + b)[1..] == a[1..] + b;
    }
  }

  /** The frame of every byte is one that a receiver accepts. */
  lemma FrameAccepted(b: byte)
    ensures Accepted(Frame(b))
  {
    FrameSlices(BitsOf(b, 8), Parity(b) == 1);
    EvenOnes(b);
  }

  lemma EvenOnes(b: byte)
    ensures OnesIn(BitsOf(b, 8) + [Parity(b) == 1]) % 2 == 0
  {
    NineBits();
    OnesOfBits(b, 8);
    OnesConcat(BitsOf(b, 8), [Parity(b) == 1]);
    OneBit(Parity(b) == 1);
    WithParity(BitCount(b));
  }

  lemma OneBit(bit: bool)
    ensures OnesIn([bit]) == if bit then 1 else 0
  {
    assert [bit][1..] == [];
  }

  lemma WithParity(n: nat)
    ensures (n + if n % 2 == 1 then 1 else 0) % 2 == 0
  {}

  /** The parts of a frame with these data bits and this parity bit. */
  lemma FrameSlices(data: seq<bool>, parity: bool)
    requires |data| == 8
    ensures var frame := [false] + (data + [parity, true, true]);
            && |frame| == 12 && !frame[0] && frame[10] && frame[11]
            && frame[1..9] == data && frame[1..10] == data + [parity]
  {}

  lemma FrameTail(b: byte)
    ensures BitsOf(b + 0x100 * (Parity(b) + 6), 11) == AfterStart(b)
  {
    var high := Parity(b) + 6;
    NineBits();
    BitsConcat(b, high, 8, 3);
    TopBits(Parity(b));
  }

  lemma TopBits(p: nat)
    requires p <= 1
    ensures BitsOf(p + 6, 3) == [p == 1, true, true]
  {
    assert BitsOf(p + 6, 3) == [p == 1] + BitsOf(3, 2);
    assert BitsOf(3, 2) == [true] + BitsOf(1, 1);
    assert BitsOf(1, 1) == [true] + BitsOf(0, 0);
  }

  // ----- The receive half of the timer interrupt -----

  /** One data bit enters at bit 11 of the word, and the word shifts down. */
  function ShiftIn(data: nat, pin: bool): nat {
    (if pin then data % 0x100 + 0x100 * Or(data / 0x100, 1 * HIGH_BYTE_MASK) else data) / 2
  }

  lemma ShiftInValue(data: nat, pin: bool)
    requires data < 0x800
    ensures ShiftIn(data, pin) == data / 2 + if pin then 0x400 else 0
  {
    SetHighBit(data / 0x100);
  }

  /** A rising edge in receive mode, with `count` bits still to come. */
  function ReceiveEdge(data: nat, count: nat, pin: bool): (nat, nat) {
    if count == 0 || (count == BITS_IN_USART_FRAME && pin) then (data, count)
    else (ShiftIn(data, pin), count - 1)
  }

  function ReceiveEdges(data: nat, count: nat, pins: seq<bool>): (nat, nat) {
    if pins == [] then (data, count)
    else
      var (d, c) := ReceiveEdges(data, count, pins[..|pins| - 1]);
      ReceiveEdge(d, c, pins[|pins| - 1])
  }

  function Idle(n: nat): (s: seq<bool>)
    ensures |s| == n && forall i :: 0 <= i < n ==> s[i]
  {
    if n == 0 then [] else Idle(n - 1) + [true]
  }

  lemma {:induction false} EdgesConcat(data: nat, count: nat, a: seq<bool>, b: seq<bool>)
    ensures var r := ReceiveEdges(data, count, a);
            ReceiveEdges(data, count, a + b) == ReceiveEdges(r.0, r.1, b)
  {
    if b == [] {
      EmptyRight(a);
    } else {
      EdgesConcat(data, count, a, b[..|b| - 1]);
      ButLast(a, b);
    }
  }

  /** While the line idles high the receiver waits for a start bit. */
  lemma {:induction false} IdleWaits(data: nat, n: nat)
    ensures ReceiveEdges(data, BITS_IN_USART_FRAME, Idle(n)) == (data, BITS_IN_USART_FRAME)
  {
    if n > 0 {
      IdleWaits(data, n - 1);
      ButLastSnoc(Idle(n - 1), true);
    }
  }

  lemma {:induction false} PowersMultiply(a: nat, b: nat)
    ensures Pow2(a) * Pow2(b) == Pow2(a + b)
  {
    if a > 0 {
      PowersMultiply(a - 1, b);
      Doubled(Pow2(a - 1), Pow2(b));
    }
  }

  lemma {:induction false} ValueOfSnoc(s: seq<bool>, bit: bool)
    ensures ValueOf(s + [bit]) == ValueOf(s) + if bit then Pow2(|s|) else 0
  {
    if s == [] {
      EmptyLeft([bit]);
      assert ValueOf([]) == 0;
    } else {
      ValueOfSnoc(s[1..], bit);
      assert (s + [bit])[1..] == s[1..] + [bit];
    }
  }

  /** After `|bits|` data bits the word holds them below bit 11, above what is left of the stale contents. */
  lemma {:induction false} BitsShiftIn(data: nat, bits: seq<bool>)
    requires data < 0x800 && |bits| <= 11
    ensures var r := ReceiveEdges(data, 11, bits);
            && r.1 == 11 - |bits| && r.0 < 0x800
            && r.0 == data / Pow2(|bits|) + Pow2(11 - |bits|) * ValueOf(bits)
  {
    if bits == [] {
      assert Pow2(11) * ValueOf([]) == 0;
    } else {
      var k := |bits| - 1;
      BitsShiftIn(data, bits[..k]);
      var r := ReceiveEdges(data, 11, bits[..k]);
      ShiftInValue(r.0, bits[k]);
      ValueOfSnoc(bits[..k], bits[k]);
      Snoc(bits);
      ShiftStep(data, k, ValueOf(bits[..k]), bits[k]);
    }
  }

  lemma ShiftStep(data: nat, k: nat, value: nat, bit: bool)
    requires k <= 10
    ensures (data / Pow2(k) + Pow2(11 - k) * value) / 2 + (if bit then 0x400 else 0)
         == data / Pow2(k + 1) + Pow2(10 - k) * (value + if bit then Pow2(k) else 0)
  {
    var p := Pow2(10 - k);
    Doubled(p, value);
    PowersMultiply(10 - k, k);
    assert Pow2(10) == 0x400 by { NineBits(); assert Pow2(10) == 2 * Pow2(9); }
    Halves(data, Pow2(k));
    assert p * (value + Pow2(k)) == p * value + p * Pow2(k);
  }

  lemma Halves(x: nat, d: nat)
    requires d > 0
    ensures x / d / 2 == x / (2 * d)
  {
    var q, r := x / d / 2, x / d % 2;
    var s := x % d;
    assert x == d * (2 * q + r) + s;
    assert d * (2 * q + r) == (2 * d) * q + d * r;
    assert d * r + s < 2 * d;
    QuotientUnique(2 * d, q, d * r + s, x / (2 * d), x % (2 * d));
  }

  lemma QuotientUnique(d: nat, q: int, r: nat, q': int, r': nat)
    requires d * q + r == d * q' + r' && r < d && r' < d
    ensures q == q'
  {
    RemainderUnique(d, q, r, q', r');
    assert d * (q - q') == 0;
  }

  /**
    Frame round trip: however long the line idles, and whatever an earlier frame left below bit 11 of the word,
    receiving the frame of a byte ends with no bits to come and that byte in the low half.
  */
  lemma FrameReceived(data: nat, idle: nat, b: byte)
    requires data < 0x800
    ensures var r := ReceiveEdges(data, BITS_IN_USART_FRAME, Idle(idle) + Frame(b));
            r.1 == 0 && r.0 < 0x800 && r.0 % 0x100 == b
  {
    IdleWaits(data, idle);
    EdgesConcat(data, BITS_IN_USART_FRAME, Idle(idle), Frame(b));
    StartBit(data, AfterStart(b));
    TailReceived(data / 2, b);
  }

  lemma TailReceived(data: nat, b: byte)
    requires data < 0x400
    ensures var r := ReceiveEdges(data, 11, AfterStart(b));
            r.1 == 0 && r.0 < 0x800 && r.0 % 0x100 == b
  {
    FrameTail(b);
    LowOfTail(b, Parity(b) + 6);
    TailShiftsIn(data, b + 0x100 * (Parity(b) + 6));
    assert ReceiveEdges(data, 11, AfterStart(b)) == (b + 0x100 * (Parity(b) + 6), 0);
  }

  lemma LowOfTail(b: byte, high: nat)
    requires high < 8
    ensures (b + 0x100 * high) % 0x100 == b && b + 0x100 * high < 0x800
  {
    ModOfMultiple(0x100, high, b);
  }

  lemma TailShiftsIn(data: nat, x: nat)
    requires data < 0x400 && x < 0x800
    ensures ReceiveEdges(data, 11, BitsOf(x, 11)) == (x, 0)
  {
    BitsShiftIn(data, BitsOf(x, 11));
    StaleGone(data);
    ValueOfBits(x, 11) by { NineBits(); assert Pow2(11) == 4 * Pow2(9); }
    assert Pow2(0) * x == x;
  }

  lemma StartBit(data: nat, tail: seq<bool>)
    requires data < 0x800
    ensures ReceiveEdges(data, BITS_IN_USART_FRAME, [false] + tail) == ReceiveEdges(data / 2, 11, tail)
  {
    EdgesConcat(data, BITS_IN_USART_FRAME, [false], tail);
    assert [false][..0] == [];
    ShiftInValue(data, false);
  }

  lemma StaleGone(data: nat)
    requires data < 0x400
    ensures data / Pow2(11) == 0
  {
    NineBits();
    assert Pow2(11) == 4 * Pow2(9);
  }

  /** Bits the receiver skips while it waits for a start bit. */
  function FromStart(pins: seq<bool>): seq<bool> {
    if pins == [] then [] else if pins[0] then FromStart(pins[1..]) else pins
  }

  /** The bits that a waiting receiver still needs: all of them until a start bit, then one fewer with each sample. */
  lemma {:induction false} CountLeft(data: nat, pins: seq<bool>)
    ensures ReceiveEdges(data, BITS_IN_USART_FRAME, pins).1 ==
              if |FromStart(pins)| <= BITS_IN_USART_FRAME then BITS_IN_USART_FRAME - |FromStart(pins)| else 0
  {
    if pins != [] {
      EdgesConcat(data, 12, [pins[0]], pins[1..]);
      assert [pins[0]] + pins[1..] == pins;
      assert [pins[0]][..0] == [];
      if pins[0] {
        CountLeft(data, pins[1..]);
      } else {
        CountsDown(ShiftIn(data, false), 11, pins[1..]);
      }
    }
  }

  /** A waiting receiver finishes exactly when a start bit and eleven more samples have been seen. */
  lemma ReceivesIff(data: nat, pins: seq<bool>)
    ensures ReceiveEdges(data, BITS_IN_USART_FRAME, pins).1 == 0 <==> |FromStart(pins)| >= BITS_IN_USART_FRAME
  {
    CountLeft(data, pins);
  }

  lemma {:induction false} CountsDown(data: nat, count: nat, pins: seq<bool>)
    requires count <= 11
    ensures ReceiveEdges(data, count, pins).1 == if |pins| < count then count - |pins| else 0
  {
    if pins != [] { CountsDown(data, count, pins[..|pins| - 1]); }
  }
}
