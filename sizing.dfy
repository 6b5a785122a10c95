/** Table sizing of il/container/hash/HashMap.h: next_power_of_2 and nb_bucket.
    il::int_t is a signed 64-bit integer; the bit smearing is modelled on bv64 exactly
    as written, and proved to compute the smallest power of two above its argument
    for every argument that does not overflow. */
module Sizing {
  import opened Arith

  /** Bound on the argument of next_power_of_2: from 2^62 on, the smear reaches
      2^63 - 1 and the closing i + 1 overflows il::int_t, which is undefined
      behaviour in C++; where it wraps, the result is the sign bit, negative, and the
      closing assertion i >= 0 fails. */
  const Pow62: int := 0x4000_0000_0000_0000

  /** next_power_of_2 as written: smear the highest set bit into every lower bit,
      then add one. */
  function NextPowerOf2Bits(i: bv64): bv64
  {
    var i1 := i | (i >> 1);
    var i2 := i1 | (i1 >> 2);
    var i3 := i2 | (i2 >> 4);
    var i4 := i3 | (i3 >> 8);
    var i5 := i4 | (i4 >> 16);
    var i6 := i5 | (i5 >> 32);
    i6 + 1
  }

  /** The smallest power of two strictly greater than i. */
  function NextPowerOf2(i: int): (r: int)
    requires i >= 0
    ensures IsPow2(r) && i < r && r / 2 <= i
    ensures i > 0 ==> r <= 2 * i
  {
    if i == 0 then 1 else 2 * NextPowerOf2(i / 2)
  }

  /** For a non-zero word the power of two above it is twice the one above its
      upper 63 bits. */
  lemma NextPowerOf2BitsStep(x: bv64)
    requires x != 0
    ensures NextPowerOf2Bits(x) == NextPowerOf2Bits(x >> 1) << 1
  {
  }

  lemma NextPowerOf2BitsBelow(x: bv64)
    requires x < 0x4000_0000_0000_0000
    ensures NextPowerOf2Bits(x) <= 0x4000_0000_0000_0000
  {
  }

  lemma DoubleAsInt(y: bv64)
    requires y < 0x8000_0000_0000_0000
    ensures ((y << 1) | 1) as int == 2 * (y as int) + 1
    ensures (y << 1) as int == 2 * (y as int)
  {
  }

  lemma NonZeroAsInt(x: bv64)
    ensures x != 0 ==> x as int > 0
  {
  }

  lemma LowBit(x: bv64)
    ensures x & 1 == 0 ==> x == (x >> 1) << 1
    ensures x & 1 != 0 ==> x == ((x >> 1) << 1) | 1
    ensures x >> 1 < 0x8000_0000_0000_0000
  {
  }

  lemma EvenAsInt(x: bv64)
    requires x & 1 == 0
    ensures x as int == 2 * ((x >> 1) as int)
  {
    LowBit(x);
    DoubleAsInt(x >> 1);
  }

  lemma OddAsInt(x: bv64)
    requires x & 1 != 0
    ensures x as int == 2 * ((x >> 1) as int) + 1
  {
    LowBit(x);
    DoubleAsInt(x >> 1);
  }

  lemma HalfAsInt(x: bv64)
    ensures (x >> 1) as int == x as int / 2
  {
    if x & 1 == 0 {
      EvenAsInt(x);
    } else {
      OddAsInt(x);
    }
  }

  lemma NextPowerOf2BitsDoubles(x: bv64)
    requires x != 0 && x < 0x4000_0000_0000_0000
    ensures NextPowerOf2Bits(x) as int == 2 * (NextPowerOf2Bits(x >> 1) as int)
  {
    NextPowerOf2BitsStep(x);
    NextPowerOf2BitsBelow(x >> 1);
    DoubleAsInt(NextPowerOf2Bits(x >> 1));
  }

  /** Halving a non-zero word below 2^62 gives a smaller word, half its value. */
  lemma ShiftBound(x: bv64)
    requires x < 0x4000_0000_0000_0000
    ensures x >> 1 < 0x4000_0000_0000_0000
  {
  }

  lemma HalfFacts(x: bv64)
    requires x != 0 && x < 0x4000_0000_0000_0000
    ensures x >> 1 < 0x4000_0000_0000_0000
    ensures 0 <= (x >> 1) as int < x as int
    ensures (x >> 1) as int == x as int / 2
  {
    ShiftBound(x);
    HalfAsInt(x);
    NonZeroAsInt(x);
    HalfOfPositive(x as int, (x >> 1) as int);
  }

  lemma HalfOfPositive(a: int, b: int)
    requires a > 0 && b == a / 2
    ensures 0 <= b < a
  {
  }

  lemma BridgeStep(x: bv64)
    requires x != 0 && x < 0x4000_0000_0000_0000
    requires NextPowerOf2Bits(x >> 1) as int == NextPowerOf2((x >> 1) as int)
    ensures NextPowerOf2Bits(x) as int == NextPowerOf2(x as int)
  {
    HalfFacts(x);
    NextPowerOf2BitsDoubles(x);
  }

  /** The bit-smearing code computes the smallest power of two above its argument,
      for every argument below 2^62. */
  lemma {:induction false} NextPowerOf2BitsCorrect(x: bv64)
    requires x < 0x4000_0000_0000_0000
    ensures NextPowerOf2Bits(x) as int == NextPowerOf2(x as int)
    decreases x as int
  {
    if x == 0 {
      NextPowerOf2BitsZero();
    } else {
      HalfFacts(x);
      NextPowerOf2BitsCorrect(x >> 1);
      BridgeStep(x);
    }
  }

  lemma NextPowerOf2BitsZero()
    ensures NextPowerOf2Bits(0) as int == 1
  {
  }

  /** From 2^62 to 2^63 - 1 the smear gives 2^63 - 1, and i + 1 is then a signed
      overflow of il::int_t (undefined behaviour in C++). Where it wraps, as on bv64,
      the result is 2^63, the sign bit: negative, so IL_ASSERT(i >= 0) fails. */
  lemma NextPowerOf2BitsOverflow(x: bv64)
    requires 0x4000_0000_0000_0000 <= x < 0x8000_0000_0000_0000
    ensures NextPowerOf2Bits(x) == 0x8000_0000_0000_0000
  {
  }

  /** nb_bucket: the capacity chosen for n entries, one slot for none and otherwise
      the power of two above 3n/2 + 1, so that at most about two thirds of the
      slots are in use. */
  function NbBucket(n: int): (r: int)
    requires 0 <= n && 3 * n / 2 + 1 < Pow62
    ensures IsPow2(r) && r > n
    ensures n == 0 ==> r == 1
    ensures n > 0 ==> 3 * n / 2 + 1 < r <= 3 * n + 2
  {
    if n == 0 then 1 else NextPowerOf2(3 * n / 2 + 1)
  }
}
