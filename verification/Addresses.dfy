/**
  Packed block addresses of the buddy allocator: the low five bits hold the binary logarithm of the
  block's size, and clearing them gives the block's offset.
 */
module Addresses {
  import opened Bytes

  const WORD := 0x1_0000_0000

  /** Exponentiation by squaring in wrapping 32-bit arithmetic. */
  function PowU32(x: uint32, y: uint32): uint32
    decreases y
  {
    if y == 0 then 1
    else
      var result := PowU32(x, y / 2) as int;
      if y % 2 == 0 then result * result % WORD else x as int * result % WORD * result % WORD
  }

  function BlockOffset(a: uint32): (offset: uint32)
    ensures offset <= a < offset + 0x20 && offset % 0x20 == 0
  {
    a - a % 0x20
  }

  function BlockSize(a: uint32): uint32 {
    PowU32(2, a % 0x20)
  }

  // ----- the power on unbounded integers -----

  function Pow(x: int, y: nat): int {
    if y == 0 then 1 else x * Pow(x, y - 1)
  }

  lemma {:induction false} PowAdd(x: int, m: nat, n: nat)
    ensures Pow(x, m + n) == Pow(x, m) * Pow(x, n)
  {
    if m > 0 {
      PowAdd(x, m - 1, n);
      assert x * (Pow(x, m - 1) * Pow(x, n)) == x * Pow(x, m - 1) * Pow(x, n);
    }
  }

  lemma ModMultiple(k: int, r: int)
    ensures (k * WORD + r) % WORD == r % WORD
  {
  }

  /** A factor may be reduced before multiplying. */
  lemma ModFactor(a: int, b: int)
    ensures a % WORD * b % WORD == a * b % WORD
  {
    var q, r := a / WORD, a % WORD;
    assert a * b == (q * b) * WORD + r * b by {
      assert a == q * WORD + r;
      assert (q * WORD + r) * b == (q * b) * WORD + r * b;
    }
    ModMultiple(q * b, r * b);
  }

  lemma ModProduct(a: int, b: int)
    ensures (a % WORD) * (b % WORD) % WORD == a * b % WORD
  {
    ModFactor(a, b % WORD);
    ModFactor(b, a);
    assert a * (b % WORD) == b % WORD * a && a * b == b * a;
  }

  lemma SquareStep(x: int, p: int)
    ensures (p % WORD) * (p % WORD) % WORD == p * p % WORD
    ensures x * (p % WORD) % WORD * (p % WORD) % WORD == x * (p * p) % WORD
  {
    var r := p % WORD;
    ModProduct(p, p);
    calc {
      x * r % WORD * r % WORD;
    ==  { ModFactor(x * r, r); }
      x * r * r % WORD;
    ==  { assert x * r * r == r * r * x; ModFactor(r * r, x); }
      r * r % WORD * x % WORD;
    ==  { ModFactor(p * p, x); }
      p * p * x % WORD;
    ==  { assert p * p * x == x * (p * p); }
      x * (p * p) % WORD;
    }
  }

  /** Squaring computes the power modulo 2^32, for all bases and exponents. */
  lemma {:induction false} PowU32IsPow(x: uint32, y: uint32)
    ensures PowU32(x, y) == Pow(x, y) % WORD
    decreases y
  {
    if y > 0 {
      var half := y / 2;
      PowU32IsPow(x, half);
      PowAdd(x, half, half);
      SquareStep(x, Pow(x, half));
      assert y == half + half || y == half + half + 1;
    }
  }

  lemma {:induction false} PowTwoMonotonic(m: nat, n: nat)
    requires m < n
    ensures 0 < Pow(2, m) < Pow(2, n)
    decreases n
  {
    if m > 0 {
      PowTwoMonotonic(m - 1, n - 1);
    } else if n > 1 {
      PowTwoMonotonic(0, n - 1);
    }
  }

  lemma {:induction false} PowNonNegative(n: nat)
    ensures Pow(2, n) > 0
  {
    if n > 0 { PowNonNegative(n - 1); }
  }

  lemma PowThirtyOne()
    ensures Pow(2, 31) == 0x8000_0000
  {
    assert Pow(2, 4) == 0x10 by { assert Pow(2, 2) == 4; PowAdd(2, 2, 2); }
    PowAdd(2, 4, 4);
    PowAdd(2, 8, 8);
    PowAdd(2, 16, 8);
    PowAdd(2, 24, 4);
    assert Pow(2, 3) == 8;
    PowAdd(2, 28, 3);
  }

  lemma PowBound(e: nat)
    requires e < 0x20
    ensures 0 < Pow(2, e) <= 0x8000_0000
  {
    PowNonNegative(e);
    if e < 31 {
      PowTwoMonotonic(e, 31);
    }
    PowThirtyOne();
  }

  /** The size of a block is the exact power of two, never wrapped. */
  lemma {:induction false} BlockSizeExact(a: uint32)
    ensures BlockSize(a) == Pow(2, a % 0x20) <= 0x8000_0000
  {
    hide PowU32, Pow;
    PowU32IsPow(2, a % 0x20);
    PowBound(a % 0x20);
  }

  /** Unpacking loses nothing: two addresses with the same offset and the same size are the same address. */
  lemma UnpackInjective(a: uint32, b: uint32)
    requires BlockOffset(a) == BlockOffset(b) && BlockSize(a) == BlockSize(b)
    ensures a == b
  {
    BlockSizeExact(a);
    BlockSizeExact(b);
    if a % 0x20 < b % 0x20 {
      PowTwoMonotonic(a % 0x20, b % 0x20);
    } else if b % 0x20 < a % 0x20 {
      PowTwoMonotonic(b % 0x20, a % 0x20);
    }
  }

  // ----- the masks -----

  /** Bitwise conjunction, bit by bit. */
  function BitAnd(x: nat, y: nat): (r: nat)
    ensures r <= x && r <= y
  {
    if x == 0 || y == 0 then 0
    else (if x % 2 == 1 && y % 2 == 1 then 1 else 0) + 2 * BitAnd(x / 2, y / 2)
  }

  lemma {:induction false} AndOdd(x: nat, y: nat)
    ensures BitAnd(x, 2 * y + 1) == x % 2 + 2 * BitAnd(x / 2, y)
  {
    var z := 2 * y + 1;
    assert z % 2 == 1 && z / 2 == y;
  }

  lemma {:induction false} AndEven(x: nat, y: nat)
    ensures BitAnd(x, 2 * y) == 2 * BitAnd(x / 2, y)
  {
    var z := 2 * y;
    assert z % 2 == 0 && z / 2 == y;
  }

  lemma {:induction false} AndOnes(x: nat, ones: nat, k: nat)
    requires ones == Pow(2, k) - 1 && x <= ones
    ensures BitAnd(x, ones) == x
    decreases k
  {
    if k > 0 {
      AndOnes(x / 2, ones / 2, k - 1);
      AndOdd(x, ones / 2);
    }
  }

  lemma AndLow(a: nat)
    ensures BitAnd(a, 0x1f) == a % 0x20
  {
    hide BitAnd;
    AndOdd(a, 15);
    AndOdd(a / 2, 7);
    AndOdd(a / 2 / 2, 3);
    AndOdd(a / 2 / 2 / 2, 1);
    AndOdd(a / 2 / 2 / 2 / 2, 0);
  }

  lemma AndHigh(a: uint32)
    ensures BitAnd(a, 0xFFFF_FFE0) == BlockOffset(a)
  {
    hide BitAnd, Pow;
    AndEven(a, 0x7FFF_FFF0);
    AndEven(a / 2, 0x3FFF_FFF8);
    AndEven(a / 2 / 2, 0x1FFF_FFFC);
    AndEven(a / 2 / 2 / 2, 0x0FFF_FFFE);
    AndEven(a / 2 / 2 / 2 / 2, 0x07FF_FFFF);
    PowTwentySeven();
    AndOnes(a / 2 / 2 / 2 / 2 / 2, 0x07FF_FFFF, 27);
  }

  lemma PowTwentySeven()
    ensures Pow(2, 27) == 0x0800_0000
  {
    PowThirtyOne();
    PowAdd(2, 27, 4);
    assert Pow(2, 2) == 4;
    PowAdd(2, 2, 2);
  }

  /** The program's masks: the complement of 0x1f clears the low five bits, 0x1f keeps them. */
  lemma MasksUnpack(a: uint32)
    ensures BitAnd(a, 0xFFFF_FFFF - 0x1f) == BlockOffset(a)
    ensures PowU32(2, BitAnd(a, 0x1f)) == BlockSize(a)
  {
    hide BitAnd, PowU32;
    AndHigh(a);
    AndLow(a);
  }
}
