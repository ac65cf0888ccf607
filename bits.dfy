/**
 * The C integer semantics the SAM EEFC driver relies on: 8-, 16- and 32-bit
 * unsigned values, the wrap-around of its 32-bit arithmetic and 16-bit page
 * counters, and the bitwise operators behind `is_aligned` and `start_page | 0x2`.
 */
module Bits {

  const U16_LIMIT: nat := 0x1_0000
  const U32_LIMIT: nat := 0x1_0000_0000

  type byte = x: int | 0 <= x < 0x100
  type u16 = x: int | 0 <= x < 0x1_0000
  type u32 = x: int | 0 <= x < 0x1_0000_0000

  /** `a + b` evaluated in 32-bit unsigned arithmetic. */
  function Add32(a: u32, b: u32): (r: u32)
    ensures a + b < U32_LIMIT ==> r == a + b
    ensures a + b >= U32_LIMIT ==> r == a + b - U32_LIMIT
  {
    (a + b) % U32_LIMIT
  }

  /** `a - b` evaluated in 32-bit unsigned arithmetic (it wraps below zero). */
  function Sub32(a: u32, b: u32): (r: u32)
    ensures b <= a ==> r == a - b
    ensures a < b ==> r == a - b + U32_LIMIT
  {
    (a - b) % U32_LIMIT
  }

  /** `a * b` evaluated in 32-bit unsigned arithmetic. */
  function Mul32(a: nat, b: nat): (r: u32)
    ensures a * b < U32_LIMIT ==> r == a * b
  {
    (a * b) % U32_LIMIT
  }

  /** `a / b` on unsigned 32-bit values. */
  function Div32(a: u32, b: u32): (q: u32)
    requires b != 0
  {
    a / b
  }

  /** The truncation of a value assigned to a `u16_t` variable. */
  function Trunc16(x: nat): (r: u16)
    ensures x < U16_LIMIT ==> r == x
  {
    x % U16_LIMIT
  }

  function Pow2(k: nat): (r: nat)
    ensures r >= 1
  {
    if k == 0 then 1 else 2 * Pow2(k - 1)
  }

  /** Bitwise `x & y` of two naturals, bit by bit from the least significant one. */
  function And(x: nat, y: nat): (r: nat)
    decreases x
    ensures r <= x && r <= y
  {
    if x == 0 || y == 0 then 0
    else 2 * And(x / 2, y / 2) + (if x % 2 == 1 && y % 2 == 1 then 1 else 0)
  }

  /** Bitwise `x | y` of two naturals. */
  function Or(x: nat, y: nat): (r: nat)
    decreases x + y
    ensures x <= r && y <= r && r <= x + y
  {
    if x == 0 then y
    else if y == 0 then x
    else 2 * Or(x / 2, y / 2) + (if x % 2 == 1 || y % 2 == 1 then 1 else 0)
  }

  /**
   * `is_aligned(data, byte_alignment)`: no bit of `data` is set under the mask
   * `byte_alignment - 1`, the subtraction taken in 32 bits (an alignment of 0
   * gives the all-ones mask).
   */
  function IsAligned(data: u32, byteAlignment: u32): (r: bool)
    ensures data == 0 || byteAlignment == 1 ==> r
    ensures byteAlignment == 0 ==> (r <==> data == 0)
  {
    if byteAlignment == 0 then
      Pow2Of32();
      AndLowMask(data, 32);
      And(data, Sub32(byteAlignment, 1)) == 0
    else
      And(data, Sub32(byteAlignment, 1)) == 0
  }

  lemma DivModUnique(x: nat, d: nat, q: nat, r: nat)
    requires d > 0 && r < d && x == d * q + r
    ensures x / d == q && x % d == r
  {
    var q', r' := x / d, x % d;
    assert d * q' + r' == d * q + r;
    if q' > q {
      assert d * q' == d * q + d * (q' - q);
      MulAtLeast(d, q' - q);
    } else if q' < q {
      assert d * q == d * q' + d * (q - q');
      MulAtLeast(d, q - q');
    }
  }

  lemma MulAtLeast(d: nat, n: nat)
    requires n >= 1
    ensures d * n >= d
  {
    assert d * n == d * (n - 1) + d;
  }

  /** Halving argument behind the bitwise mask: x mod 2p from (x/2) mod p and the low bit. */
  lemma ModDouble(x: nat, p: nat)
    requires p > 0
    ensures x % (2 * p) == 2 * ((x / 2) % p) + x % 2
  {
    var q := x / 2;
    var t := q / p;
    var s := q % p;
    assert q == p * t + s;
    assert x == (2 * p) * t + (2 * s + x % 2);
    DivModUnique(x, 2 * p, t, 2 * s + x % 2);
  }

  /** Masking with 2^k - 1 keeps exactly the remainder modulo 2^k. */
  lemma {:induction false} AndLowMask(x: nat, k: nat)
    ensures And(x, Pow2(k) - 1) == x % Pow2(k)
  {
    if k == 0 {
      assert Pow2(k) - 1 == 0;
    } else if x == 0 {
    } else {
      var m := Pow2(k) - 1;
      assert m / 2 == Pow2(k - 1) - 1 && m % 2 == 1;
      AndLowMask(x / 2, k - 1);
      assert And(x, m) == 2 * ((x / 2) % Pow2(k - 1)) + x % 2;
      ModDouble(x, Pow2(k - 1));
    }
  }

  /** For a power-of-two alignment the bitmask test is divisibility. */
  lemma AlignedIffMultiple(x: u32, k: nat)
    requires Pow2(k) < U32_LIMIT
    ensures IsAligned(x, Pow2(k)) <==> x % Pow2(k) == 0
  {
    assert Sub32(Pow2(k), 1) == Pow2(k) - 1;
    AndLowMask(x, k);
  }

  /** Setting bit 1 of a multiple of 4 adds 2. */
  lemma OrTwo(x: nat)
    requires x % 4 == 0
    ensures Or(x, 2) == x + 2
  {
    if x > 0 {
      assert (x / 2) % 2 == 0 && x / 2 > 0;
      assert Or(x / 2, 1) == 2 * Or(x / 4, 0) + 1;
      assert Or(x, 2) == 2 * Or(x / 2, 1);
    }
  }

  /** 2^32 is the 32-bit modulus, so `0 - 1` in 32 bits is the all-ones mask 2^32 - 1. */
  lemma Pow2Of32()
    ensures Pow2(32) == U32_LIMIT
  {
    assert Pow2(4) == 16;
    Pow2Add(4, 4);
    Pow2Add(8, 8);
    Pow2Add(16, 16);
  }

  lemma Pow2Add(a: nat, b: nat)
    ensures Pow2(a + b) == Pow2(a) * Pow2(b)
    decreases a
  {
    if a > 0 {
      Pow2Add(a - 1, b);
    }
  }

  /** Truncating to 16 bits before adding changes nothing after the final truncation. */
  lemma Trunc16Add(a: nat, b: nat)
    ensures Trunc16(Trunc16(a) + b) == Trunc16(a + b)
  {
    var q := a / U16_LIMIT;
    assert a == U16_LIMIT * q + Trunc16(a);
    DivModUnique(a + b, U16_LIMIT, q + (Trunc16(a) + b) / U16_LIMIT, (Trunc16(a) + b) % U16_LIMIT);
  }

  /** 16 divides 2^16, so truncation keeps a value's residue modulo 16. */
  lemma Trunc16Mod16(a: nat)
    ensures Trunc16(a) % 16 == a % 16
  {
    var q := a / U16_LIMIT;
    assert a == U16_LIMIT * q + Trunc16(a);
    assert a == 16 * (4096 * q) + Trunc16(a);
    DivModUnique(a, 16, 4096 * q + Trunc16(a) / 16, Trunc16(a) % 16);
  }
}
