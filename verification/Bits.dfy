/** Unsigned C integers and the bitwise operators the firmware applies to them. */
module Bits {

  // uint8_t, uint16_t and uint32_t
  type byte = x: int | 0 <= x < 0x100
  type word = x: int | 0 <= x < 0x1_0000
  type dword = x: int | 0 <= x < 0x1_0000_0000

  /** The C operator `&`, bit by bit from the least significant end. */
  function And(a: nat, b: nat): (r: nat)
    ensures r <= a && r <= b
  {
    if a == 0 || b == 0 then 0
    else (if a % 2 == 1 && b % 2 == 1 then 1 else 0) + 2 * And(a / 2, b / 2)
  }

  /** The C operator `|`. */
  function Or(a: nat, b: nat): (r: nat)
    ensures a <= r <= a + b && b <= r
  {
    if a == 0 then b
    else if b == 0 then a
    else (if a % 2 == 1 || b % 2 == 1 then 1 else 0) + 2 * Or(a / 2, b / 2)
  }

  /** The C operator `^`. */
  function Xor(a: nat, b: nat): (r: nat)
    ensures r <= a + b
  {
    if a == 0 then b
    else if b == 0 then a
    else (if a % 2 != b % 2 then 1 else 0) + 2 * Xor(a / 2, b / 2)
  }

  function LowByte(x: nat): byte { x % 0x100 }

  function HighByte(x: nat): byte { x / 0x100 % 0x100 }

  function Pow2(n: nat): (p: nat)
    ensures p > 0
  {
    if n == 0 then 1 else 2 * Pow2(n - 1)
  }

  /** Bitwise-or stays within the width of its operands. */
  lemma {:induction false} OrBound(a: nat, b: nat, n: nat)
    requires a < Pow2(n) && b < Pow2(n)
    ensures Or(a, b) < Pow2(n)
  {
    if n > 0 { OrBound(a / 2, b / 2, n - 1); }
  }

  /** Where the left operand has only zeros, bitwise-or adds. */
  lemma {:induction false} OrDisjoint(a: nat, h: nat, r: nat, n: nat)
    requires a == h * Pow2(n) && r < Pow2(n)
    ensures Or(a, r) == a + r
  {
    if n > 0 {
      var half := h * Pow2(n - 1);
      TwiceProduct(h, Pow2(n - 1));
      OrDisjoint(half, h, r / 2, n - 1);
      OrOnEven(half, r);
    }
  }

  lemma TwiceProduct(h: nat, p: nat)
    ensures h * (2 * p) == 2 * (h * p)
  {}

  lemma OrOnEven(half: nat, r: nat)
    ensures Or(2 * half, r) == r % 2 + 2 * Or(half, r / 2)
  {}

  /** `a | b` on bytes. */
  function OrBytes(a: byte, b: byte): byte {
    assert Pow2(8) == 0x10 * Pow2(4) == 0x100;
    OrBound(a, b, 8);
    Or(a, b)
  }

  /** A quotient and a remainder determine each other. */
  lemma RemainderUnique(d: nat, q: int, r: nat, q': int, r': nat)
    requires d * q + r == d * q' + r' && r < d && r' < d
    ensures r == r'
  {
    assert d * (q - q') == r' - r;
    assert d * (q' - q) == r - r';
    if q > q' {
      MultipleAtLeast(d, q - q');
    } else if q < q' {
      MultipleAtLeast(d, q' - q);
    }
  }

  lemma MultipleAtLeast(d: nat, k: int)
    requires k >= 1
    ensures d * k >= d
  {}

  lemma ModOfMultiple(d: nat, k: int, x: nat)
    requires x < d
    ensures (d * k + x) % d == x
  {
    RemainderUnique(d, k, x, (d * k + x) / d, (d * k + x) % d);
  }

  /** Ones on the left of `&` leave a byte as it is: `count` is the number of ones. */
  lemma {:induction false} AndErased(x: byte)
    ensures And(0xFF, x) == x && And(x, 0xFF) == x
  {
    AndOnes(x, 8);
    assert Ones(8) == 1 + 2 * Ones(7) == 3 + 4 * Ones(6) == 7 + 8 * Ones(5) == 15 + 16 * Ones(4);
    assert Ones(4) == 1 + 2 * Ones(3) == 3 + 4 * Ones(2) == 7 + 8 * Ones(1) == 15 + 16 * Ones(0);
  }

  function Ones(n: nat): (r: nat)
    ensures n > 0 ==> r % 2 == 1
  {
    if n == 0 then 0 else 1 + 2 * Ones(n - 1)
  }

  lemma {:induction false} AndOnes(x: nat, n: nat)
    requires x <= Ones(n)
    ensures And(Ones(n), x) == x && And(x, Ones(n)) == x
  {
    if x != 0 { AndOnes(x / 2, n - 1); }
  }

  /** A mask of low ones takes a remainder. */
  lemma {:induction false} AndMask(x: nat, n: nat)
    ensures And(x, Ones(n)) == x % Pow2(n)
  {
    if n > 0 {
      AndMask(x / 2, n - 1);
      AndLow(x, Ones(n - 1));
      ModHalves(x, Pow2(n - 1));
    }
  }

  lemma ModHalves(x: nat, p: nat)
    requires p > 0
    ensures x % (2 * p) == x % 2 + 2 * (x / 2 % p)
  {
    var q, r := x / 2 / p, x / 2 % p;
    assert x == 2 * (p * q + r) + x % 2;
    assert 2 * (p * q) == (2 * p) * q;
    ModOfMultiple(2 * p, q, 2 * r + x % 2);
  }

  // ----- The bit that selects the high half of a flash word -----

  /** READ_WRITE_HIGH_BYTE_MASK */
  const HIGH_BYTE_MASK: byte := 0x08

  predicate HighBit(c: nat) { c / 8 % 2 == 1 }

  lemma HighBitNeighbours(c: nat)
    ensures HighBit(c) ==> c >= 8 && !HighBit(c - 8)
    ensures !HighBit(c) ==> HighBit(c + 8)
  {
    assert (c + 8) / 8 == c / 8 + 1;
    if c >= 8 { assert (c - 8) / 8 == c / 8 - 1; }
  }

  /** `c ^= READ_WRITE_HIGH_BYTE_MASK` */
  lemma {:induction false} ToggleHighBit(c: byte)
    ensures Xor(c, HIGH_BYTE_MASK) == if HighBit(c) then c - 8 else c + 8
  {
    XorLow(c, 4);
    XorLow(c / 2, 2);
    XorLow(c / 2 / 2, 1);
    var c3 := c / 2 / 2 / 2;
    assert Xor(c3, 1) == if c3 % 2 == 1 then c3 - 1 else c3 + 1;
  }

  /** The three low bits, and the rest. */
  lemma LowThree(c: nat)
    ensures c / 2 / 2 / 2 == c / 8
    ensures c == c % 2 + 2 * (c / 2 % 2 + 2 * (c / 2 / 2 % 2 + 2 * (c / 8)))
  {}

  lemma OrWithOne(x: nat)
    ensures Or(x, 1) == if x % 2 == 0 then x + 1 else x
  {}

  /** `c |= READ_WRITE_HIGH_BYTE_MASK` */
  lemma {:induction false} SetHighBit(c: byte)
    ensures Or(c, HIGH_BYTE_MASK) == if HighBit(c) then c else c + 8
  {
    LowThree(c);
    OrWithOne(c / 8);
    OrLow(c / 2 / 2, 1);
    OrLow(c / 2, 2);
    OrLow(c, 4);
  }

  /** `c &= ~READ_WRITE_HIGH_BYTE_MASK` */
  lemma {:induction false} ClearHighBit(c: byte)
    ensures And(c, 0xFF - HIGH_BYTE_MASK) == if HighBit(c) then c - 8 else c
  {
    var c1 := c / 2;
    var c2 := c1 / 2;
    var c3 := c2 / 2;
    AndEvenNibble(c3);
    AndLow(c2, 0x1E);
    AndLow(c1, 0x3D);
    AndLow(c, 0x7B);
    assert c == c % 2 + 2 * (c1 % 2 + 2 * (c2 % 2 + 2 * c3));
    assert c3 == c / 8;
  }

  lemma AndEvenNibble(x: nat)
    requires x < 0x20
    ensures And(x, 0x1E) == x - x % 2
  {
    AndOnes(x / 2, 4) by {
      assert Ones(4) == 1 + 2 * Ones(3) == 3 + 4 * Ones(2) == 7 + 8 * Ones(1) == 15 + 16 * Ones(0);
    }
    assert And(x, 0x1E) == 2 * And(x / 2, 0xF);
  }

  // ----- Fields of a byte -----

  lemma AndNibble(x: nat)
    ensures And(x, 0x0F) == x % 0x10
  {
    AndMask(x, 4);
    assert Ones(4) == 1 + 2 * Ones(3) == 3 + 4 * Ones(2) == 7 + 8 * Ones(1) == 15 + 16 * Ones(0);
    assert Pow2(4) == 4 * Pow2(2) == 16 * Pow2(0);
  }

  lemma AndSeven(x: nat)
    ensures And(x, 0x7F) == x % 0x80
  {
    AndMask(x, 7);
    assert Ones(7) == 7 + 8 * Ones(4) && Ones(4) == 7 + 8 * Ones(1) && Ones(1) == 1;
    assert Pow2(7) == 8 * Pow2(4) && Pow2(4) == 8 * Pow2(1) && Pow2(1) == 2;
  }

  /** `x & (1 << k)` */
  lemma {:induction false} AndOneBit(x: nat, k: nat)
    ensures And(x, Pow2(k)) == if x / Pow2(k) % 2 == 1 then Pow2(k) else 0
  {
    if k > 0 {
      AndOneBit(x / 2, k - 1);
      AndEven(x, Pow2(k - 1));
      HalfThenDivide(x, Pow2(k - 1));
    }
  }

  lemma HalfThenDivide(x: nat, p: nat)
    requires p > 0
    ensures x / 2 / p == x / (2 * p)
  {
    var q, r := x / 2 / p, x / 2 % p;
    assert x == 2 * (p * q + r) + x % 2;
    assert x == (2 * p) * q + (2 * r + x % 2);
    RemainderUnique(2 * p, q, 2 * r + x % 2, x / (2 * p), x % (2 * p));
  }

  lemma AndEven(a: nat, b: nat)
    ensures And(a, 2 * b) == 2 * And(a / 2, b)
  {
    if a != 0 && b != 0 { assert 2 * b / 2 == b && 2 * b % 2 == 0; }
  }

  /** Bits 5 and 4. */
  lemma AndFiveFour(x: nat)
    ensures And(x, 0x30) == 0x10 * (x / 0x10 % 4)
  {
    AndEven(x, 0x18);
    AndEven(x / 2, 0x0C);
    AndEven(x / 2 / 2, 0x06);
    AndEven(x / 2 / 2 / 2, 0x03);
    AndMask(x / 2 / 2 / 2 / 2, 2);
    assert Ones(2) == 1 + 2 * Ones(1) == 3 + 4 * Ones(0) && Pow2(2) == 4 * Pow2(0);
    LowThree(x);
    assert x / 8 / 2 == x / 0x10;
  }

  lemma {:induction false} OrSymmetric(a: nat, b: nat)
    ensures Or(a, b) == Or(b, a)
  {
    if a != 0 && b != 0 { OrSymmetric(a / 2, b / 2); }
  }

  lemma XorLow(a: nat, b: nat)
    ensures Xor(a, 2 * b) == a % 2 + 2 * Xor(a / 2, b)
  {}

  lemma OrLow(a: nat, b: nat)
    ensures Or(a, 2 * b) == a % 2 + 2 * Or(a / 2, b)
  {
    if a != 0 && b != 0 { assert 2 * b / 2 == b && 2 * b % 2 == 0; }
  }

  lemma AndLow(a: nat, b: nat)
    ensures And(a, 2 * b + 1) == a % 2 + 2 * And(a / 2, b)
  {}
}
