/** The bit arithmetic at the end of src/mem/Buddy.cpp, on 64-bit machine words. */
module Bits {
  import opened PowersOfTwo

  const WORD: nat := 0x1_0000_0000_0000_0000

  const ALL_SET: seq<nat> := [4294967295, 65535, 255, 15, 7, 3, 1]
  const COUNT: seq<nat> := [32, 16, 8, 4, 2, 1, 1]

  /** What is known of the shifted value before step i of the loop. */
  ghost function StepBound(i: nat): nat
    requires i <= 7
  {
    [WORD, 0x1_0000_0000, 65536, 256, 16, 7, 4, 2][i]
  }

  lemma SmallPowers()
    ensures Pow2(1) == 2 && Pow2(2) == 4 && Pow2(3) == 8 && Pow2(4) == 16 && Pow2(8) == 256
    ensures Pow2(16) == 65536 && Pow2(32) == 0x1_0000_0000 && Pow2(63) * 2 == Pow2(64) == WORD
  {
    assert Pow2(2) == 4;
    assert Pow2(4) == 16 by { Pow2Add(2, 2); }
    assert Pow2(8) == 256 by { Pow2Add(4, 4); }
    assert Pow2(16) == 65536 by { Pow2Add(8, 8); }
    assert Pow2(32) == 0x1_0000_0000 by { Pow2Add(16, 16); }
    assert Pow2(64) == WORD by { Pow2Add(32, 32); }
  }

  /** One step of the search: a value at or above the all-ones threshold loses COUNT[i] digits. */
  lemma StepShift(i: nat, v: nat)
    requires i < 7 && ALL_SET[i] <= v < StepBound(i)
    ensures ShiftRight(v, COUNT[i]) < StepBound(i + 1)
    ensures BitLength(ShiftRight(v, COUNT[i])) + COUNT[i] == BitLength(v)
  {
    SmallPowers();
    var k := COUNT[i];
    if i < 4 {
      ShiftBelow(v, k, k);
    }
    ShiftDigits(v, k, ALL_SET[i]);
  }

  /** A shift by k takes k digits from every value that has at least k of them. */
  lemma ShiftDigits(v: nat, k: nat, threshold: nat)
    requires k >= 1 && threshold + 1 >= Pow2(k) && v >= threshold
    ensures BitLength(ShiftRight(v, k)) + k == BitLength(v)
  {
    if v >= Pow2(k) {
      BitLengthShift(v, k);
    } else {
      assert Pow2(k) == 2 * Pow2(k - 1);
      BitLengthUnique(v, k);
      ShiftBelow(v, 0, k);
    }
  }

  lemma LastStep(v: nat)
    requires v < StepBound(7)
    ensures BitLength(v) == v
  {
  }

  method HighestBitPosition(input: nat) returns (position: nat)
    requires input < WORD
    ensures position == BitLength(input)
  {
    var value: nat := input;
    var result: nat := 0;
    for i := 0 to 7
      invariant value < StepBound(i)
      invariant result + BitLength(value) == BitLength(input)
    {
      if value >= ALL_SET[i] {
        StepShift(i, value);
        value, result := ShiftRight(value, COUNT[i]), result + COUNT[i];
      }
    }
    LastStep(value);
    return result + value;
  }

  const HALF_WORD: nat := 0x8000_0000_0000_0000

  /** The word value + value - 1, where a zero value counts as one; the addition wraps at 64 bits. */
  function DoubledLessOne(value: nat): (w: nat)
    requires value < WORD
    ensures w >= 1
    ensures value <= HALF_WORD ==> w == (if value == 0 then 1 else 2 * value - 1)
    ensures value > HALF_WORD ==> w == 2 * value - 1 - WORD
  {
    var v := if value == 0 then 1 else value;
    (v + v - 1) % WORD
  }

  function CeilingPowerOfTwo(value: nat): (p: nat)
    requires value < WORD
  {
    BitLengthBounds(DoubledLessOne(value));
    Pow2(BitLength(DoubledLessOne(value)) - 1)
  }

  method CeilingPowerOfTwoWord(value: nat) returns (p: nat)
    requires value < WORD
    ensures p == CeilingPowerOfTwo(value)
  {
    var doubled := DoubledLessOne(value);
    var n := HighestBitPosition(doubled);
    BitLengthBounds(doubled);
    p := Pow2(n - 1);
  }

  ghost predicate LeastPowerAtLeast(p: nat, v: nat) {
    && (exists k: nat :: p == Pow2(k))
    && v <= p
    && forall k: nat :: v <= Pow2(k) ==> p <= Pow2(k)
  }

  /** The result is the least power of two at or above the value exactly up to 2^63. */
  lemma CeilingIsLeast(value: nat)
    requires value < WORD
    ensures LeastPowerAtLeast(CeilingPowerOfTwo(value), value) <==> value <= HALF_WORD
  {
    var w := DoubledLessOne(value);
    BitLengthBounds(w);
    if value <= HALF_WORD {
      LeastFromDoubled(if value == 0 then 1 else value, BitLength(w) - 1);
      LeastAlsoForZero(CeilingPowerOfTwo(value), value);
    }
  }

  lemma LeastFromDoubled(v: nat, k: nat)
    requires v >= 1 && Pow2(k) <= 2 * v - 1 < Pow2(k + 1)
    ensures LeastPowerAtLeast(Pow2(k), v)
  {
    forall j: nat | v <= Pow2(j) ensures Pow2(k) <= Pow2(j) {
      if j < k {
        Pow2Monotone(j, k);
      } else {
        Pow2Monotone(k, j);
      }
    }
  }

  lemma LeastAlsoForZero(p: nat, value: nat)
    requires LeastPowerAtLeast(p, if value == 0 then 1 else value)
    ensures LeastPowerAtLeast(p, value)
  {
  }

  lemma CeilingShape(value: nat) returns (k: nat)
    requires 1 <= value <= HALF_WORD
    ensures CeilingPowerOfTwo(value) == Pow2(k) && value <= Pow2(k) < 2 * value
  {
    var w := DoubledLessOne(value);
    BitLengthBounds(w);
    k := BitLength(w) - 1;
  }

  lemma CeilingExact(value: nat, k: nat)
    requires 1 <= value <= Pow2(k) && 2 * value > Pow2(k) && value <= HALF_WORD
    ensures CeilingPowerOfTwo(value) == Pow2(k)
  {
    BitLengthUnique(2 * value - 1, k + 1);
  }

  /** Dividing a wrapped product by one factor gives the other back exactly when nothing was lost. */
  lemma OverflowCheck(a: nat, b: nat)
    requires a >= 1
    ensures a * b % WORD / a == b <==> a * b < WORD
  {
    var product := a * b;
    if product < WORD {
      QuotientOfProduct(a, b);
    } else {
      var q := product % WORD / a;
      assert product % WORD == a * q + product % WORD % a;
      assert q == b ==> a * q == product;
    }
  }

  lemma QuotientOfProduct(a: nat, b: nat)
    requires a >= 1
    ensures a * b / a == b
  {
    var q := a * b / a;
    var r := a * b % a;
    assert a * (b - q) == r;
    MultipleIsFar(a, b - q);
  }

  /** The bytes buddy_calloc is asked for; no members, or empty ones, count as one byte. */
  ghost function TotalSize(members: nat, memberSize: nat): (total: nat)
    ensures total >= 1
  {
    if members == 0 || memberSize == 0 then 1 else members * memberSize
  }

  method CheckedTotal(members: nat, memberSize: nat) returns (fits: bool, total: nat)
    requires members < WORD && memberSize < WORD
    ensures fits <==> TotalSize(members, memberSize) < WORD
    ensures fits ==> total == TotalSize(members, memberSize)
  {
    var m, n := members, memberSize;
    if m == 0 || n == 0 {
      m, n := 1, 1;
    }
    OverflowCheck(m, n);
    total := m * n % WORD;
    fits := total / m == n;
  }
}
