/**
  The C++ bitwise operators that the feature hash is built from, modelled on
  unbounded naturals. A C++ `int` is a 32-bit two's-complement value; its bit
  pattern is read here as the natural number it denotes modulo 2^32, and `&`,
  `|` and `<<` work on those naturals one bit at a time.
 */
module BitOps {

  /** 2 to the power k. */
  function Pow2(k: nat): (r: nat)
    ensures r >= 1
  {
    if k == 0 then 1 else 2 * Pow2(k - 1)
  }

  /** The bit pattern of a 32-bit two's-complement `int` holding x, read as an
      unsigned number. A value outside the 32-bit range keeps its low 32 bits,
      as a truncating conversion would. */
  function Bits32(x: int): (r: nat)
    ensures r < 0x1_0000_0000
    ensures 0 <= x < 0x1_0000_0000 ==> r == x
    ensures -0x8000_0000 <= x < 0 ==> r == x + 0x1_0000_0000
  {
    x % 0x1_0000_0000
  }

  /** Bitwise and: bit i of the result is set iff bit i is set in both. */
  function And(a: nat, b: nat): (r: nat)
    ensures r <= a && r <= b
    decreases a
  {
    if a == 0 || b == 0 then 0
    else 2 * And(a / 2, b / 2) + (if a % 2 == 1 && b % 2 == 1 then 1 else 0)
  }

  /** Bitwise or: bit i of the result is set iff bit i is set in either. */
  function Or(a: nat, b: nat): (r: nat)
    ensures a <= r && b <= r
    ensures r <= a + b
    decreases a
  {
    if a == 0 then b
    else if b == 0 then a
    else 2 * Or(a / 2, b / 2) + (if a % 2 == 1 || b % 2 == 1 then 1 else 0)
  }

  /** Left shift of a non-negative value by k places, one doubling per
      place (no bits are lost: the values shifted here are far below the
      width of the C++ type). */
  function ShiftLeft(a: nat, k: nat): (r: nat)
    ensures r == a * Pow2(k)
  {
    if k == 0 then a else 2 * ShiftLeft(a, k - 1)
  }

  /** The mask of k low one-bits, 2^k - 1. */
  function Ones(k: nat): (r: nat)
    ensures r == Pow2(k) - 1
  {
    if k == 0 then 0 else 2 * Ones(k - 1) + 1
  }

  /** The number formed by the lowest k bits of n. */
  function LowBits(n: nat, k: nat): (r: nat)
    ensures r < Pow2(k)
  {
    if k == 0 then 0 else 2 * LowBits(n / 2, k - 1) + n % 2
  }

  /** Division with remainder has a unique result. */
  lemma DivModUnique(n: int, d: int, q: int, m: int)
    requires 0 < d && 0 <= m < d && n == d * q + m
    ensures n / d == q && n % d == m
  {
    var z := q - n / d;
    assert d * z == n % d - m by {
      assert n == d * (n / d) + n % d;
      assert d * z == d * q - d * (n / d);
    }
  }

  /** Reading off the low k+1 bits: the lowest bit, then the low k bits of
      what is left. */
  lemma ModDouble(n: nat, p: nat)
    requires p >= 1
    ensures n % (2 * p) == 2 * ((n / 2) % p) + n % 2
  {
    var q := (n / 2) / p;
    var t := (n / 2) % p;
    assert n / 2 == p * q + t;
    assert n == (2 * p) * q + (2 * t + n % 2);
    DivModUnique(n, 2 * p, q, 2 * t + n % 2);
  }

  /** The low k bits of n are n modulo 2^k. */
  lemma {:induction false} LowBitsAreMod(n: nat, k: nat)
    ensures LowBits(n, k) == n % Pow2(k)
  {
    if k > 0 {
      LowBitsAreMod(n / 2, k - 1);
      ModDouble(n, Pow2(k - 1));
    }
  }

  /** Masking with k low ones keeps exactly the low k bits. */
  lemma {:induction false} AndLowMask(n: nat, k: nat)
    ensures And(n, Ones(k)) == LowBits(n, k)
  {
    if k > 0 {
      AndLowMask(n / 2, k - 1);
      AndOdd(n, Ones(k - 1));
    }
  }

  /** And with an odd mask 2h + 1: the lowest bit of n survives, the rest is
      masked by h. */
  lemma {:induction false} AndOdd(n: nat, h: nat)
    ensures And(n, 2 * h + 1) == 2 * And(n / 2, h) + n % 2
  {
  }

  /** Or with an even value 2h: the lowest bit comes from b alone. */
  lemma {:induction false} OrEven(h: nat, b: nat)
    ensures Or(2 * h, b) == 2 * Or(h, b / 2) + b % 2
  {
  }

  /** Or-ing a value into the low k bits of a value shifted left by k places
      adds it: the two have no bit in common. */
  lemma {:induction false} OrDisjoint(a: nat, b: nat, k: nat)
    requires b < Pow2(k)
    ensures Or(ShiftLeft(a, k), b) == ShiftLeft(a, k) + b
  {
    if k > 0 && a > 0 && b > 0 {
      var h := ShiftLeft(a, k - 1);
      OrDisjoint(a, b / 2, k - 1);
      OrEven(h, b);
    }
  }

  /** `x & 0x1f` on a 32-bit int keeps the low five bits of its
      two's-complement pattern, which is x modulo 32 (Euclidean, so never
      negative). */
  lemma LowFiveBits(x: int)
    ensures And(Bits32(x), 0x1f) == x % 32
  {
    assert Ones(5) == 0x1f && Pow2(5) == 32;
    AndLowMask(Bits32(x), 5);
    LowBitsAreMod(Bits32(x), 5);
    var q := x / 0x1_0000_0000;
    assert x == 0x1_0000_0000 * q + Bits32(x);
    DivModUnique(x, 32, 0x800_0000 * q + Bits32(x) / 32, Bits32(x) % 32);
  }

  /** `(x & 0x1f) << 5 | (y & 0x1f) << 0` on 32-bit ints: x modulo 32 and y
      modulo 32 as the two digits of a base-32 number below 1024. */
  lemma PackFive(x: int, y: int)
    ensures Or(ShiftLeft(And(Bits32(x), 0x1f), 5), ShiftLeft(And(Bits32(y), 0x1f), 0))
            == 32 * (x % 32) + y % 32
  {
    var x5 := And(Bits32(x), 0x1f);
    var y5 := And(Bits32(y), 0x1f);
    LowFiveBits(x);
    LowFiveBits(y);
    assert Pow2(5) == 32;
    OrDisjoint(x5, y5, 5);
  }
}
