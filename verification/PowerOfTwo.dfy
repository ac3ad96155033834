/** The macro ROUND_TO_NEXT_POWER_OF_2_32 of src/swtpm/utils.h. */
module PowerOfTwo {
  import opened Bytes

  function Pow2(k: nat): (r: nat)
    ensures r >= 1
  {
    if k == 0 then 1 else 2 * Pow2(k - 1)
  }

  /** The C expression `x >> n`. */
  function ShiftRight(x: nat, n: nat): nat {
    if n == 0 then x else ShiftRight(x / 2, n - 1)
  }

  /** The C expression `x | y`, bit by bit. */
  function BitOr(x: nat, y: nat): nat {
    if x == 0 then y
    else if y == 0 then x
    else 2 * BitOr(x / 2, y / 2) + if x % 2 == 1 || y % 2 == 1 then 1 else 0
  }

  /** The macro, on 32-bit words.  Between 1 and 2^31 it is the least power of two
      that is not below `size`; outside that range the arithmetic wraps to zero. */
  method RoundToNextPowerOf2(size: Word32) returns (a: Word32)
    ensures 0 < size <= 0x8000_0000 ==> IsLeastPowerAbove(a, size)
    ensures size == 0 || size > 0x8000_0000 ==> a == 0
  {
    var x := if size == 0 then 0xffff_ffff else size - 1;
    RoundResult(size, x);
    x := SmearOnes(x);
    a := (x + 1) % 0x1_0000_0000;
  }

  lemma RoundResult(size: Word32, x: Word32)
    requires x == if size == 0 then 0xffff_ffff else size - 1
    ensures BitLength(x) <= 32
    ensures var a := Pow2(BitLength(x)) % 0x1_0000_0000;
            && (0 < size <= 0x8000_0000 ==> IsLeastPowerAbove(a, size))
            && (size == 0 || size > 0x8000_0000 ==> a == 0)
  {
    WordLength(x);
    if size > 0 {
      LeastPower(size, BitLength(x));
    }
  }

  /** The shift-or steps of the macro: all bits below the highest one are set. */
  method SmearOnes(a: nat) returns (x: nat)
    requires BitLength(a) <= 32
    ensures x == Pow2(BitLength(a)) - 1
  {
    x := a;
    ghost var k := BitLength(x);
    BitLengthBounds(x);
    SmearStep(x, k, 1);
    x := BitOr(x, ShiftRight(x, 1));
    SmearStep(x, k, 2);
    x := BitOr(x, ShiftRight(x, 2));
    SmearStep(x, k, 4);
    x := BitOr(x, ShiftRight(x, 4));
    SmearStep(x, k, 8);
    x := BitOr(x, ShiftRight(x, 8));
    SmearStep(x, k, 16);
    x := BitOr(x, ShiftRight(x, 16));
  }

  /** Words have at most 32 bits, and exactly 32 from 2^31 on. */
  lemma WordLength(x: Word32)
    ensures BitLength(x) <= 32
    ensures BitLength(x) == 32 <==> x >= 0x8000_0000
    ensures Pow2(BitLength(x)) % 0x1_0000_0000 == if x >= 0x8000_0000 then 0 else Pow2(BitLength(x))
  {
    var k := BitLength(x);
    BitLengthBounds(x);
    PowersOf32Bits();
    if k > 32 {
      Pow2Monotone(32, k - 1);
    } else if k < 32 {
      Pow2Monotone(k, 31);
    }
  }

  ghost predicate IsLeastPowerAbove(a: nat, size: nat) {
    && (exists k: nat :: a == Pow2(k))
    && a >= size
    && forall j: nat :: Pow2(j) >= size ==> Pow2(j) >= a
  }

  /** There is only one least power. */
  lemma LeastPowerUnique(a: nat, b: nat, size: nat)
    requires IsLeastPowerAbove(a, size) && IsLeastPowerAbove(b, size)
    ensures a == b
  {
    var j: nat :| a == Pow2(j);
    var k: nat :| b == Pow2(k);
  }

  function BitLength(x: nat): nat {
    if x == 0 then 0 else 1 + BitLength(x / 2)
  }

  /** `x` has `k` bits and its topmost `w` bits (or all, if w >= k) are ones. */
  ghost predicate TopOnes(x: nat, k: nat, w: nat) {
    if w >= k then x == Pow2(k) - 1 else TopOnes(x / 2, k - 1, w)
  }

  lemma {:induction false} BitLengthBounds(x: nat)
    ensures x < Pow2(BitLength(x))
    ensures x > 0 ==> BitLength(x) > 0 && Pow2(BitLength(x) - 1) <= x
    ensures TopOnes(x, BitLength(x), 1)
  {
    if x > 0 {
      BitLengthBounds(x / 2);
    }
  }

  lemma {:induction false} Pow2Monotone(i: nat, j: nat)
    requires i <= j
    ensures Pow2(i) <= Pow2(j)
    decreases j
  {
    if i < j {
      Pow2Monotone(i, j - 1);
    }
  }

  lemma PowersOf32Bits()
    ensures Pow2(31) == 0x8000_0000 && Pow2(32) == 0x1_0000_0000
  {
    assert Pow2(8) == 256;
    assert Pow2(16) == 0x1_0000;
    assert Pow2(24) == 0x100_0000;
  }

  lemma LeastPower(size: nat, k: nat)
    requires size > 0 && k == BitLength(size - 1)
    ensures IsLeastPowerAbove(Pow2(k), size)
  {
    BitLengthBounds(size - 1);
    forall j: nat | Pow2(j) >= size
      ensures Pow2(j) >= Pow2(k)
    {
      if j < k {
        Pow2Monotone(j, k - 1);
      } else {
        Pow2Monotone(k, j);
      }
    }
  }

  lemma {:induction false} ShiftRightHalf(x: nat, n: nat)
    ensures ShiftRight(x, n) / 2 == ShiftRight(x / 2, n)
  {
    if n > 0 {
      ShiftRightHalf(x / 2, n - 1);
    }
  }

  lemma {:induction false} ShiftedOut(x: nat, n: nat)
    requires x < Pow2(n)
    ensures ShiftRight(x, n) == 0
  {
    if n > 0 {
      ShiftedOut(x / 2, n - 1);
    }
  }

  lemma BitOrHalf(x: nat, y: nat)
    ensures BitOr(x, y) / 2 == BitOr(x / 2, y / 2)
    ensures BitOr(x, y) % 2 == 1 <==> x % 2 == 1 || y % 2 == 1
  {
  }

  /** The i-th bit of a number with enough top ones is a one. */
  lemma {:induction false} BitIsOne(x: nat, k: nat, w: nat, i: nat)
    requires TopOnes(x, k, w) && k - w <= i < k
    ensures ShiftRight(x, i) % 2 == 1
  {
    if i > 0 {
      BitIsOne(x / 2, k - 1, w, i - 1);
    }
  }

  /** One `a |= a >> w` of the macro doubles the run of ones at the top. */
  lemma {:induction false} SmearStep(x: nat, k: nat, w: nat)
    requires w >= 1 && TopOnes(x, k, w)
    ensures TopOnes(BitOr(x, ShiftRight(x, w)), k, 2 * w)
    decreases k
  {
    if w >= k {
      Pow2Monotone(k, w);
      ShiftedOut(x, w);
    } else {
      SmearStep(x / 2, k - 1, w);
      ShiftRightHalf(x, w);
      BitOrHalf(x, ShiftRight(x, w));
      if 2 * w >= k {
        BitIsOne(x, k, w, w);
      }
    }
  }
}
