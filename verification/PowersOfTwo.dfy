/**
 Powers of two and bit lengths: the arithmetic behind slot sizes and tree orders.

 Here and in the functions on tree nodes some arguments are conditional although both branches say
 the same. The verifier evaluates a function of integers for ever when it takes its arguments
 for literals; a conditional argument is no literal.
 */
module PowersOfTwo {

  function Pow2(n: nat): (p: nat)
    ensures p >= 1
  {
    if n == 0 then 1 else 2 * Pow2(if n > 1 then n - 1 else 0)
  }

  lemma {:induction false} Pow2Add(a: nat, b: nat)
    ensures Pow2(a + b) == Pow2(a) * Pow2(b)
    decreases b
  {
    if b > 0 {
      Pow2Add(a, b - 1);
      Twice(Pow2(a), Pow2(b - 1));
    }
  }

  lemma {:induction false} Pow2Monotone(a: nat, b: nat)
    requires a <= b
    ensures Pow2(a) <= Pow2(b)
    ensures a < b ==> 2 * Pow2(a) <= Pow2(b)
    decreases b - a
  {
    if a < b {
      Pow2Monotone(a, b - 1);
    }
  }

  lemma Pow2Order(a: nat, b: nat)
    ensures a <= b <==> Pow2(a) <= Pow2(b)
  {
    if a <= b {
      Pow2Monotone(a, b);
    } else {
      Pow2Monotone(b, a);
    }
  }

  /** The number of binary digits of v; zero for zero. */
  function BitLength(v: nat): (n: nat) {
    if v == 0 then 0 else 1 + BitLength(if v > 1 then v / 2 else 0)
  }

  lemma {:induction false} BitLengthBounds(v: nat)
    requires v > 0
    ensures BitLength(v) >= 1
    ensures Pow2(BitLength(v) - 1) <= v < Pow2(BitLength(v))
  {
    if v > 1 {
      BitLengthBounds(v / 2);
    }
  }

  lemma BitLengthUnique(v: nat, n: nat)
    requires n >= 1 && Pow2(n - 1) <= v < Pow2(n)
    ensures BitLength(v) == n
  {
    BitLengthBounds(v);
    if BitLength(v) < n {
      Pow2Monotone(BitLength(v), n - 1);
    } else if n < BitLength(v) {
      Pow2Monotone(n, BitLength(v) - 1);
    }
  }

  /** The unsigned shift v >> k. */
  function ShiftRight(v: nat, k: nat): (r: nat)
    decreases k
  {
    if k == 0 then v else ShiftRight(v / 2, k - 1)
  }

  lemma {:induction false} BitLengthShift(v: nat, k: nat)
    requires v >= Pow2(k)
    ensures BitLength(ShiftRight(v, k)) + k == BitLength(v)
    decreases k
  {
    if k > 0 {
      BitLengthShift(v / 2, k - 1);
    }
  }

  lemma {:induction false} ShiftBelow(v: nat, n: nat, k: nat)
    requires v < Pow2(n + k)
    ensures ShiftRight(v, k) < Pow2(n)
    decreases k
  {
    if k > 0 {
      ShiftBelow(v / 2, n, k - 1);
    }
  }

  lemma {:induction false} ShiftOfPower(c: nat, n: nat, k: nat)
    requires k <= n
    ensures ShiftRight(c * Pow2(n), k) == c * Pow2(n - k)
    decreases k
  {
    if k > 0 {
      Twice(c, Pow2(n - 1));
      ShiftOfPower(c, n - 1, k - 1);
    }
  }

  lemma Twice(c: nat, p: nat)
    ensures c * (2 * p) == 2 * (c * p) && 2 * (c * p) / 2 == c * p
  {
  }

  lemma MultipleIsFar(d: int, k: int)
    requires d > 0
    ensures k >= 1 ==> d * k >= d
    ensures k <= -1 ==> d * k <= -d
  {
  }

  /** The code computes 1u << order, which must fit in 32 bits: no order beyond 31 is in its reach. */
  const UINT_LIMIT: nat := 0x1_0000_0000

  lemma OrderLimit(order: nat)
    ensures Pow2(order) < UINT_LIMIT <==> order <= 31
  {
    assert Pow2(31) < UINT_LIMIT == Pow2(32) by {
      assert Pow2(4) == 16;
      Pow2Add(4, 4);
      Pow2Add(8, 8);
      Pow2Add(16, 16);
    }
    if order <= 31 {
      Pow2Monotone(order, 31);
    } else {
      Pow2Monotone(32, order);
    }
  }
}
