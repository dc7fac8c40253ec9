/**
 * Java's fixed-width integer arithmetic, stated on mathematical integers.
 *
 * A Java `int` is an integer in [-2^31, 2^31) and a `long` one in [-2^63, 2^63);
 * every arithmetic operator wraps its exact result back into that range
 * (two's complement). Widening `(long) w` sign-extends, so it keeps the numeric
 * value; narrowing `(int) x` keeps the low 32 bits. Bitwise `&` is defined bit by
 * bit on the two's-complement patterns.
 */
module JavaNum {
  const TWO_31: int := 0x8000_0000
  const TWO_32: int := 0x1_0000_0000
  const TWO_63: int := 0x8000_0000_0000_0000
  const TWO_64: int := 0x1_0000_0000_0000_0000

  /** A value of Java's 32-bit `int`. */
  type Int = x: int | -0x8000_0000 <= x < 0x8000_0000
  /** A value of Java's 64-bit `long`. */
  type Long = x: int | -0x8000_0000_0000_0000 <= x < 0x8000_0000_0000_0000

  /** Wrap an exact result into `int`, as every `int` operator does. */
  function WrapInt(x: int): (r: Int)
    ensures (r - x) % TWO_32 == 0
    ensures -TWO_31 <= x < TWO_31 ==> r == x
  {
    (x + TWO_31) % TWO_32 - TWO_31
  }

  /** Wrap an exact result into `long`, as every `long` operator does. */
  function WrapLong(x: int): (r: Long)
    ensures (r - x) % TWO_64 == 0
    ensures -TWO_63 <= x < TWO_63 ==> r == x
  {
    (x + TWO_63) % TWO_64 - TWO_63
  }

  /** Wrapping twice is wrapping once: intermediate overflow does not matter. */
  lemma WrapIntAdd(x: int, y: int)
    ensures WrapInt(WrapInt(x) + y) == WrapInt(x + y)
  {
    var k := (WrapInt(x) - x) / TWO_32;
    assert WrapInt(x) + y == (x + y) + k * TWO_32;
  }

  /** Wrapping twice is wrapping once: intermediate overflow does not matter. */
  lemma WrapLongAdd(x: int, y: int)
    ensures WrapLong(WrapLong(x) + y) == WrapLong(x + y)
  {
    var k := (WrapLong(x) - x) / TWO_64;
    assert WrapLong(x) + y == (x + y) + k * TWO_64;
  }

  /** `a + b` on longs. */
  function LongAdd(a: Long, b: Long): Long
  {
    WrapLong(a + b)
  }

  /** `a - b` on longs. */
  function LongSub(a: Long, b: Long): Long
  {
    WrapLong(a - b)
  }

  /** `(long) w`: widening sign-extends, so the value is the same. */
  function IntToLong(w: Int): Long
  {
    w
  }

  /** `(int) x`: narrowing keeps the low 32 bits of the pattern. */
  function LongToInt(x: Long): Int
  {
    WrapInt(x)
  }

  /** `x >> 32` on a long: arithmetic shift, rounding toward minus infinity. */
  function ShiftRight32(x: Long): (r: Long)
    ensures r * TWO_32 <= x < r * TWO_32 + TWO_32
    ensures -TWO_31 <= r < TWO_31
  {
    x / TWO_32
  }

  /** `x << 32` on a long: bits 32 to 63 of x are lost, zeros come in below. */
  function ShiftLeft32(x: Long): (r: Long)
    ensures r % TWO_32 == 0
    ensures (r - x * TWO_32) % TWO_64 == 0
  {
    WrapLong(x * TWO_32)
  }

  /** The word a long is written as at its lower address: `(int) x`. */
  function LowWord(x: Long): Int
  {
    LongToInt(x)
  }

  /** The word a long is written as at its upper address: `(int) (x >> 32)`. */
  function HighWord(x: Long): Int
  {
    LongToInt(ShiftRight32(x))
  }

  /** The long whose low word is lo and whose high word is hi. */
  function FromWords(lo: Int, hi: Int): (r: Long)
    ensures LowWord(r) == lo && HighWord(r) == hi
  {
    hi * TWO_32 + lo % TWO_32
  }

  /** Splitting a long into its two words and joining them gives it back. */
  lemma WordsRecombine(x: Long)
    ensures FromWords(LowWord(x), HighWord(x)) == x
  {
    var h := x / TWO_32;
    var l := x % TWO_32;
    assert x == h * TWO_32 + l;
    assert LowWord(x) % TWO_32 == l;
  }

  /** Two longs with the same two words are the same long. */
  lemma WordsDetermine(x: Long, y: Long)
    requires LowWord(x) == LowWord(y) && HighWord(x) == HighWord(y)
    ensures x == y
  {
    WordsRecombine(x);
    WordsRecombine(y);
  }

  // ---------------------------------------------------------------------------
  // Bitwise and

  function Pow2(n: nat): (r: nat)
    ensures r >= 1
  {
    if n == 0 then 1 else 2 * Pow2(n - 1)
  }

  lemma {:induction false} Pow2Add(a: nat, b: nat)
    ensures Pow2(a + b) == Pow2(a) * Pow2(b)
  {
    if a > 0 {
      Pow2Add(a - 1, b);
      assert Pow2(a + b) == 2 * Pow2(a - 1 + b);
    }
  }

  lemma Pow2Widths()
    ensures Pow2(32) == TWO_32 && Pow2(64) == TWO_64
  {
    assert Pow2(4) == 0x10;
    Pow2Add(4, 4);
    assert Pow2(8) == 0x100;
    Pow2Add(8, 8);
    assert Pow2(16) == 0x1_0000;
    Pow2Add(16, 16);
    assert Pow2(32) == TWO_32;
    Pow2Add(32, 32);
  }

  /** Bit k of the unsigned pattern u. */
  predicate BitSet(u: nat, k: nat)
  {
    if k == 0 then u % 2 == 1 else BitSet(u / 2, k - 1)
  }

  /** The low n bits of the bitwise and of the unsigned patterns a and b. */
  function AndBits(a: nat, b: nat, n: nat): (r: nat)
    ensures r <= a && r <= b
  {
    if n == 0 then 0
    else (if a % 2 == 1 && b % 2 == 1 then 1 else 0) + 2 * AndBits(a / 2, b / 2, n - 1)
  }

  /** Anding with n one-bits keeps every bit of an n-bit pattern. */
  lemma {:induction false} AndBitsAllOnes(a: nat, n: nat)
    requires a < Pow2(n)
    ensures AndBits(a, Pow2(n) - 1, n) == a
  {
    if n > 0 {
      AndBitsAllOnes(a / 2, n - 1);
    }
  }

  /** Anding with zero gives zero. */
  lemma {:induction false} AndBitsZero(a: nat, n: nat)
    ensures AndBits(a, 0, n) == 0
  {
    if n > 0 {
      AndBitsZero(a / 2, n - 1);
    }
  }

  /** Anding with the single bit k (k < n) isolates bit k. */
  lemma {:induction false} AndBitsSingle(a: nat, k: nat, n: nat)
    requires k < n
    ensures AndBits(a, Pow2(k), n) == if BitSet(a, k) then Pow2(k) else 0
  {
    if k == 0 {
      AndBitsZero(a / 2, n - 1);
    } else {
      AndBitsSingle(a / 2, k - 1, n - 1);
    }
  }

  /** The two's-complement pattern of an int, as an unsigned number. */
  function IntBits(x: Int): nat
  {
    x % TWO_32
  }

  /** The two's-complement pattern of a long, as an unsigned number. */
  function LongBits(x: Long): nat
  {
    x % TWO_64
  }

  /** `a & b` on ints. */
  function IntAnd(a: Int, b: Int): Int
  {
    var u := AndBits(IntBits(a), IntBits(b), 32);
    if u < TWO_31 then u else u - TWO_32
  }

  /** `a & b` on longs. */
  function LongAnd(a: Long, b: Long): Long
  {
    var u := AndBits(LongBits(a), LongBits(b), 64);
    if u < TWO_63 then u else u - TWO_64
  }

  /** `x & -1L` is x: every bit of -1L is set. */
  lemma LongAndMinusOne(x: Long)
    ensures LongAnd(x, -1) == x
  {
    Pow2Widths();
    AndBitsAllOnes(LongBits(x), 64);
  }

  /** `(x & m) == m` for the single-bit mask m == 2^k tests bit k of x. */
  lemma IntAndSingleBit(x: Int, k: nat, mask: Int)
    requires k < 32 && mask == Pow2(k)
    ensures IntAnd(x, mask) == mask <==> BitSet(IntBits(x), k)
  {
    Pow2Widths();
    assert IntBits(mask) == Pow2(k);
    AndBitsSingle(IntBits(x), k, 32);
  }
}
