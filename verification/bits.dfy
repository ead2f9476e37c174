/** The bit-level primitives every word kind shares: single bits, the number
    of ones, the odd-parity bit, the big-endian byte pair of a 16-bit value,
    and shifts by a variable amount. */
module Bits {

  type byte = bv8
  type u16 = bv16

  /** A Rust `[u8; 2]`: `hi` is element 0 (sent first), `lo` is element 1. */
  datatype Bytes2 = Bytes2(hi: byte, lo: byte)

  /** Bit `j` of `x`, counting from the least significant bit. */
  function BitOf(x: u16, j: u16): nat
    requires j < 16
  {
    if (x >> j) & 1 == 1 then 1 else 0
  }

  /** Number of ones among bits 0 .. n-1 of `x`. */
  function OnesBelow(x: u16, n: u16): nat
    requires n <= 16
    decreases n
  {
    if n == 0 then 0 else OnesBelow(x, n - 1) + BitOf(x, n - 1)
  }

  /** Four more bits counted at once. */
  lemma OnesBelowFour(x: u16, n: u16)
    requires n <= 12
    ensures OnesBelow(x, n + 4)
            == OnesBelow(x, n) + BitOf(x, n) + BitOf(x, n + 1) + BitOf(x, n + 2) + BitOf(x, n + 3)
  {
    assert OnesBelow(x, n + 4) == OnesBelow(x, n + 3) + BitOf(x, n + 3);
    assert OnesBelow(x, n + 3) == OnesBelow(x, n + 2) + BitOf(x, n + 2);
    assert OnesBelow(x, n + 2) == OnesBelow(x, n + 1) + BitOf(x, n + 1);
  }

  /** `u16::count_ones`. */
  function CountOnes(x: u16): nat {
    OnesBelow(x, 16)
  }

  /** `u8::count_ones`. */
  function CountOnesByte(b: byte): nat {
    OnesBelow(b as u16, 8)
  }

  /** The count of ones as the sum of the sixteen bits, which evaluates on
      a concrete value. */
  lemma CountOnesSum(x: u16)
    ensures CountOnes(x)
            == BitOf(x, 0) + BitOf(x, 1) + BitOf(x, 2) + BitOf(x, 3)
             + BitOf(x, 4) + BitOf(x, 5) + BitOf(x, 6) + BitOf(x, 7)
             + BitOf(x, 8) + BitOf(x, 9) + BitOf(x, 10) + BitOf(x, 11)
             + BitOf(x, 12) + BitOf(x, 13) + BitOf(x, 14) + BitOf(x, 15)
  {
    OnesBelowFour(x, 0);
    OnesBelowFour(x, 4);
    OnesBelowFour(x, 8);
    OnesBelowFour(x, 12);
  }

  /** No more ones than bits. */
  lemma {:induction false} OnesBelowBound(x: u16, n: u16)
    requires n <= 16
    decreases n
    ensures OnesBelow(x, n) <= n as nat
  {
    if n > 0 {
      OnesBelowBound(x, n - 1);
    }
  }

  /** The odd-parity bit of a 16-bit value: 1 exactly when the value holds
      an even number of ones, so that value and parity together always hold
      an odd number of ones. */
  function ParityBit(x: u16): (p: byte)
    ensures p == 0 || p == 1
    ensures (CountOnes(x) + p as nat) % 2 == 1
  {
    if CountOnes(x) % 2 == 0 then 1 else 0
  }

  /** `u16::from_be_bytes`. */
  function FromBeBytes(b: Bytes2): u16 {
    ((b.hi as u16) << 8) | (b.lo as u16)
  }

  /** `u16::to_be_bytes`: the high byte first. */
  function ToBeBytes(v: u16): (b: Bytes2)
    ensures FromBeBytes(b) == v
  {
    Bytes2((v >> 8) as byte, (v & 0xFF) as byte)
  }

  lemma BytesRoundTrip(b: Bytes2)
    ensures ToBeBytes(FromBeBytes(b)) == b
  {
  }

  // ----- shifts by a variable amount ---------------------------------------
  //
  // Written one bit at a time, so that a law about any amount follows by
  // induction on it, while a literal amount still works out to a constant.

  /** `x << o` for a shift amount below 16, one bit at a time. */
  function ShiftLeft(x: u16, o: u16): u16
    requires o < 16
    decreases o
  {
    if o == 0 then x else ShiftLeft(x, o - 1) << 1
  }

  /** `x >> o` (logical) for a shift amount below 16, one bit at a time. */
  function ShiftRight(x: u16, o: u16): u16
    requires o < 16
    decreases o
  {
    if o == 0 then x else ShiftRight(x >> 1, o - 1)
  }

  lemma ShiftLeftStep(x: u16, o: u16)
    requires 0 < o < 16
    ensures (x << (o - 1)) << 1 == x << o
  {
  }

  lemma ShiftRightStep(x: u16, o: u16)
    requires 0 < o < 16
    ensures (x >> 1) >> (o - 1) == x >> o
  {
  }

  lemma {:induction false} ShiftLeftAgrees(x: u16, o: u16)
    requires o < 16
    ensures ShiftLeft(x, o) == x << o
    decreases o
  {
    if o > 0 {
      ShiftLeftAgrees(x, o - 1);
      ShiftLeftStep(x, o);
    }
  }

  lemma {:induction false} ShiftRightAgrees(x: u16, o: u16)
    requires o < 16
    ensures ShiftRight(x, o) == x >> o
    decreases o
  {
    if o > 0 {
      ShiftRightAgrees(x >> 1, o - 1);
      ShiftRightStep(x, o);
    }
  }

  /** The one-bit-at-a-time shifts are the bit-vector shifts. */
  lemma ShiftsAgree(x: u16, o: u16)
    requires o < 16
    ensures ShiftLeft(x, o) == x << o
    ensures ShiftRight(x, o) == x >> o
  {
    ShiftLeftAgrees(x, o);
    ShiftRightAgrees(x, o);
  }

  /** `x & y`, named so that proofs about shifts can treat it as a unit. */
  function Both(x: u16, y: u16): u16 {
    x & y
  }

  lemma ShiftOneAnd(x: u16, y: u16)
    ensures Both(x, y) >> 1 == Both(x >> 1, y >> 1)
  {
  }

  lemma ShiftOneUpDown(x: u16)
    ensures (x << 1) >> 1 == Both(x, 0x7FFF)
    ensures Both(0xFFFF, 0x7FFF) == 0x7FFF
  {
  }

  lemma BothAssoc(x: u16, y: u16, z: u16)
    ensures Both(Both(x, y), z) == Both(x, Both(y, z))
  {
  }

  /** A right shift distributes over a conjunction of bits. */
  lemma {:induction false} ShiftRightBoth(x: u16, y: u16, o: u16)
    requires o < 16
    ensures ShiftRight(Both(x, y), o) == Both(ShiftRight(x, o), ShiftRight(y, o))
    decreases o
  {
    if o > 0 {
      ShiftOneAnd(x, y);
      ShiftRightBoth(x >> 1, y >> 1, o - 1);
    }
  }

  lemma ShiftUpDownStep(x: u16, o: u16)
    requires 0 < o < 16
    ensures ShiftRight(ShiftLeft(x, o), o) == ShiftRight(Both(ShiftLeft(x, o - 1), 0x7FFF), o - 1)
    ensures ShiftRight(0xFFFF, o) == ShiftRight(0x7FFF, o - 1)
  {
    ShiftOneUpDown(ShiftLeft(x, o - 1));
  }

  /** Shifting up and back down clears the bits that fell off the top. */
  lemma {:induction false} ShiftUpDownBoth(x: u16, o: u16)
    requires o < 16
    ensures ShiftRight(ShiftLeft(x, o), o) == Both(x, ShiftRight(0xFFFF, o))
    decreases o
  {
    if o > 0 {
      var y := ShiftLeft(x, o - 1);
      var a, b := ShiftRight(0xFFFF, o - 1), ShiftRight(0x7FFF, o - 1);
      ShiftUpDownStep(x, o);
      ShiftRightBoth(y, 0x7FFF, o - 1);
      ShiftUpDownBoth(x, o - 1);
      ShiftOneUpDown(0);
      ShiftRightBoth(0xFFFF, 0x7FFF, o - 1);
      BothAssoc(x, a, b);
    }
  }

  /** `x << 1`, named so that proofs about shifts can treat it as a unit. */
  function Doubled(x: u16): u16 {
    x << 1
  }

  lemma ShiftLeftOnce(x: u16, o: u16)
    requires 0 < o < 16
    ensures ShiftLeft(x, o) == Doubled(ShiftLeft(x, o - 1))
  {
  }

  lemma ShiftRightOnce(x: u16, o: u16)
    requires 0 < o < 16
    ensures ShiftRight(x, o) == ShiftRight(x >> 1, o - 1)
  {
  }

  lemma DoubledBoth(x: u16, y: u16)
    ensures Doubled(Both(x >> 1, y)) == Both(x, Doubled(y))
  {
  }

  /** Shifting down and back up clears the bits that fell off the bottom. */
  lemma {:induction false} ShiftDownUpBoth(x: u16, o: u16)
    requires o < 16
    ensures ShiftLeft(ShiftRight(x, o), o) == Both(x, ShiftLeft(0xFFFF, o))
    decreases o
  {
    if o > 0 {
      ShiftRightOnce(x, o);
      ShiftLeftOnce(ShiftRight(x, o), o);
      ShiftLeftOnce(0xFFFF, o);
      ShiftDownUpBoth(x >> 1, o - 1);
      DoubledBoth(x, ShiftLeft(0xFFFF, o - 1));
    }
  }

  lemma {:induction false} ShiftLeftZero(o: u16)
    requires o < 16
    ensures ShiftLeft(0, o) == 0
    decreases o
  {
    if o > 0 {
      ShiftLeftZero(o - 1);
    }
  }

  /** `x` with bit `i` inverted. */
  function FlipBit(x: u16, i: u16): u16
    requires i < 16
  {
    x ^ (1 << i)
  }

  lemma FlipBitOf(x: u16, i: u16, j: u16)
    requires i < 16 && j < 16
    ensures BitOf(FlipBit(x, i), j) == if i == j then 1 - BitOf(x, j) else BitOf(x, j)
  {
  }

  /** Inverting one bit moves the count of ones below `n` by exactly one
      when that bit lies below `n`, and leaves it alone otherwise. */
  lemma {:induction false} FlipOnesBelow(x: u16, i: u16, n: u16)
    requires i < 16 && n <= 16
    decreases n
    ensures OnesBelow(FlipBit(x, i), n) as int
            == OnesBelow(x, n) as int + (if i < n then (if BitOf(x, i) == 0 then 1 else -1) else 0)
  {
    if n > 0 {
      FlipOnesBelow(x, i, n - 1);
      FlipBitOf(x, i, n - 1);
    }
  }

  /** Odd parity detects every single-bit error among the 16 data bits:
      the parity of the corrupted value differs from the original's. */
  lemma SingleDataBitErrorDetected(x: u16, i: u16)
    requires i < 16
    ensures ParityBit(FlipBit(x, i)) != ParityBit(x)
  {
    FlipOnesBelow(x, i, 16);
    OddnessFlips(CountOnes(x), CountOnes(FlipBit(x, i)));
  }

  /** Counts one apart have opposite parity bits. */
  lemma OddnessFlips(a: nat, b: nat)
    requires b == a + 1 || a == b + 1
    ensures (a % 2 == 0) != (b % 2 == 0)
  {
  }

  /** The low byte of a big-endian word holds its bits 0 .. 7. */
  lemma {:induction false} OnesOfLowByte(b: Bytes2, n: u16)
    requires n <= 8
    decreases n
    ensures OnesBelow(FromBeBytes(b), n) == OnesBelow(b.lo as u16, n)
  {
    if n > 0 {
      OnesOfLowByte(b, n - 1);
      assert BitOf(FromBeBytes(b), n - 1) == BitOf(b.lo as u16, n - 1);
    }
  }

  /** The high byte of a big-endian word holds its bits 8 .. 15. */
  lemma {:induction false} OnesOfHighByte(b: Bytes2, n: u16)
    requires n <= 8
    decreases n
    ensures OnesBelow(FromBeBytes(b) >> 8, n) == OnesBelow(b.hi as u16, n)
  {
    if n > 0 {
      OnesOfHighByte(b, n - 1);
      assert BitOf(FromBeBytes(b) >> 8, n - 1) == BitOf(b.hi as u16, n - 1);
    }
  }

  /** Counting the ones of bits 8 .. 8+n-1 of `x` is counting the ones of
      bits 0 .. n-1 of `x >> 8`. */
  lemma {:induction false} OnesAboveEight(x: u16, n: u16)
    requires n <= 8
    decreases n
    ensures OnesBelow(x, 8 + n) == OnesBelow(x, 8) + OnesBelow(x >> 8, n)
  {
    if n > 0 {
      OnesAboveEight(x, n - 1);
      assert BitOf(x, 8 + n - 1) == BitOf(x >> 8, n - 1);
    }
  }

  /** The ones of a big-endian word are the ones of its two bytes. */
  lemma CountOnesSplit(b: Bytes2)
    ensures CountOnes(FromBeBytes(b)) == CountOnesByte(b.hi) + CountOnesByte(b.lo)
  {
    OnesAboveEight(FromBeBytes(b), 8);
    OnesOfLowByte(b, 8);
    OnesOfHighByte(b, 8);
  }

  /** The packets' `make_parity!`: 1 when the two bytes together hold an
      even number of ones, else 0. It is the odd-parity bit of the word the
      two bytes spell big-endian. */
  function PairParity(b: Bytes2): (p: byte)
    ensures p == ParityBit(FromBeBytes(b))
  {
    var n := CountOnesByte(b.hi) + CountOnesByte(b.lo);
    CountOnesSplit(b);
    ParityOfCount(FromBeBytes(b), n);
    if n % 2 == 0 then 1 else 0
  }

  /** The parity bit depends only on the count of ones. */
  lemma ParityOfCount(x: u16, n: nat)
    requires CountOnes(x) == n
    ensures ParityBit(x) == if n % 2 == 0 then 1 else 0
  {
  }
}
