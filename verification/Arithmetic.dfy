/** Rounding to a power of two, which the source does with masks. */
module Arithmetic {

  function Pow2(n: nat): (p: nat)
    ensures p > 0
  {
    if n == 0 then 1 else 2 * Pow2(n - 1)
  }

  lemma {:induction false} Pow2Monotonic(m: nat, n: nat)
    requires m <= n
    ensures Pow2(m) <= Pow2(n)
  {
    if m < n { Pow2Monotonic(m, n - 1); }
  }

  lemma {:induction false} Pow2Sum(m: nat, n: nat)
    ensures Pow2(m + n) == Pow2(m) * Pow2(n)
  {
    if n > 0 {
      Pow2Sum(m, n - 1);
      TwiceProduct(Pow2(m), Pow2(n - 1));
    }
  }

  lemma TwiceProduct(x: int, y: int)
    ensures 2 * (x * y) == x * (2 * y)
  {
  }

  lemma Pow2Of9()
    ensures Pow2(9) == 0x200
  {
  }

  lemma Pow2Of63()
    ensures Pow2(63) == 0x8000_0000_0000_0000
  {
    hide Pow2;
    Pow2Of9();
    Pow2Sum(9, 9);
    Pow2Sum(18, 9);
    Pow2Sum(27, 9);
    Pow2Sum(36, 27);
  }

  /** Value & ~(p - 1) */
  function RoundDown(x: nat, p: nat): nat
    requires p > 0
  {
    x - x % p
  }

  /** (Value + (p - 1)) & ~(p - 1) */
  function RoundUp(x: nat, p: nat): nat
    requires p > 0
  {
    RoundDown(x + p - 1, p)
  }

  lemma {:induction false} StepOver(p: int, a: int, b: int)
    requires p > 0
    ensures a < b ==> p * a + p <= p * b
    decreases b - a
  {
    if a < b {
      StepOver(p, a, b - 1);
      assert p * b == p * (b - 1) + p;
    }
  }

  /** Quotient and remainder are determined by x == p * q + r and 0 <= r < p. */
  lemma DivisionUnique(x: nat, p: nat, q: int, r: nat)
    requires p > 0 && x == p * q + r && r < p
    ensures x / p == q && x % p == r
  {
    var d := x / p;
    StepOver(p, q, d);
    StepOver(p, d, q);
  }

  /** RoundDown(x, p) is the largest multiple of p up to x. */
  lemma RoundDownIs(x: nat, p: nat)
    requires p > 0
    ensures RoundDown(x, p) % p == 0 && RoundDown(x, p) <= x < RoundDown(x, p) + p
  {
    DivisionUnique(RoundDown(x, p), p, x / p, 0);
  }

  lemma LargestMultiple(b: nat, x: nat, p: nat)
    requires p > 0 && b % p == 0 && b <= x
    ensures b <= RoundDown(x, p)
  {
    var q, r := b / p, x / p;
    assert b == p * q && x == p * r + x % p;
    StepOver(p, r, q);
    StepOver(p, q, r);
  }

  /** RoundUp(x, p) is the smallest multiple of p from x on. */
  lemma RoundUpIs(x: nat, p: nat)
    requires p > 0
    ensures RoundUp(x, p) % p == 0 && x <= RoundUp(x, p) < x + p
  {
    RoundDownIs(x + p - 1, p);
  }

  lemma SmallestMultiple(b: nat, x: nat, p: nat)
    requires p > 0 && b % p == 0 && x <= b
    ensures RoundUp(x, p) <= b
  {
    RoundUpIs(x, p);
    DivisionUnique(b + p - 1, p, b / p, p - 1);
    if RoundUp(x, p) > b {
      LargestMultiple(RoundUp(x, p), b + p - 1, p);
    }
  }
}
