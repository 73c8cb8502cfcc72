/** Exact integer and real helpers shared by the C# and Python models:
    powers of two, integer logarithms, absolute value and a total quotient. */
module Arith {

  /** An outcome that is either a value or the exception the source raises. */
  datatype Result<T, E> = Success(value: T) | Failure(error: E)

  type pos = n: nat | n >= 1 witness 1

  /** A positive real, for divisors that the source computes as sqrt(2^k). */
  type PosReal = r: real | r > 0.0 witness 1.0

  /** 2^k */
  function Pow2(k: nat): (r: nat)
    ensures r >= 1
  {
    if k == 0 then 1 else 2 * Pow2(k - 1)
  }

  lemma {:induction false} Pow2Monotone(a: nat, b: nat)
    requires a <= b
    ensures Pow2(a) <= Pow2(b)
  {
    if a < b {
      Pow2Monotone(a, b - 1);
    }
  }

  lemma {:induction false} Pow2Add(a: nat, b: nat)
    ensures Pow2(a + b) == Pow2(a) * Pow2(b)
  {
    if b > 0 {
      Pow2Add(a, b - 1);
      Doubling(Pow2(a), Pow2(b - 1));
    }
  }

  /** A smaller power of two has a smaller exponent. */
  lemma Pow2StrictInverse(a: nat, b: nat)
    requires Pow2(a) < Pow2(b)
    ensures a < b
  {
    if a >= b {
      Pow2Monotone(b, a);
    }
  }

  lemma MulMonotone(a: nat, b: nat, c: nat)
    requires b <= c
    ensures a * b <= a * c
  {
  }

  lemma MulBoth(a: nat, b: nat, x: nat, y: nat)
    requires a <= b && x <= y
    ensures a * x <= b * y
  {
    MulMonotone(a, x, y);
    MulMonotone(y, a, b);
  }

  /** n halved k times, rounding down each time. */
  function ShiftRight(n: nat, k: nat): (r: nat)
    ensures r <= n
  {
    if k == 0 then n else ShiftRight(n / 2, k - 1)
  }

  /** Halving k times is the integer part of n / 2^k. */
  lemma {:induction false} ShiftRightIsQuotient(n: nat, k: nat)
    ensures ShiftRight(n, k) * Pow2(k) <= n < (ShiftRight(n, k) + 1) * Pow2(k)
  {
    if k > 0 {
      var r, p := ShiftRight(n / 2, k - 1), Pow2(k - 1);
      ShiftRightIsQuotient(n / 2, k - 1);
      assert Pow2(k) == 2 * p;
      Doubling(r, p);
      Doubling(r + 1, p);
    }
  }

  lemma Doubling(a: nat, p: nat)
    ensures a * (2 * p) == 2 * (a * p)
  {
  }

  /** floor(log2 n): the exponent of the largest power of two not above n. */
  function Log2Floor(n: nat): (k: nat)
    requires n >= 1
    ensures Pow2(k) <= n < 2 * Pow2(k)
  {
    if n == 1 then 0 else 1 + Log2Floor(n / 2)
  }

  /** ceil(log2 n): the exponent of the smallest power of two not below n. */
  function Log2Ceil(n: nat): (k: nat)
    requires n >= 1
    ensures n <= Pow2(k) < 2 * n
  {
    if n == 1 then 0 else 1 + Log2Floor(n - 1)
  }

  /** The bounds of Log2Floor determine it. */
  lemma {:induction false} Log2FloorUnique(n: nat, k: nat)
    requires Pow2(k) <= n < 2 * Pow2(k)
    ensures Log2Floor(n) == k
  {
    var f := Log2Floor(n);
    if f < k {
      Pow2Monotone(f + 1, k);
    } else if f > k {
      Pow2Monotone(k + 1, f);
    }
  }

  lemma Log2FloorOfPow2(k: nat)
    ensures Log2Floor(Pow2(k)) == k
  {
    Log2FloorUnique(Pow2(k), k);
  }

  lemma {:induction false} Log2FloorMonotone(a: nat, b: nat)
    requires 1 <= a <= b
    ensures Log2Floor(a) <= Log2Floor(b)
  {
    var fa, fb := Log2Floor(a), Log2Floor(b);
    if fa > fb {
      Pow2Monotone(fb + 1, fa);
    }
  }

  lemma {:induction false} Log2FloorAtMostCeil(n: nat)
    requires n >= 1
    ensures Log2Floor(n) <= Log2Ceil(n)
  {
    var f, c := Log2Floor(n), Log2Ceil(n);
    if f > c {
      Pow2Monotone(c + 1, f);
    }
  }

  /** isBinary: n is 2^k for some k. */
  predicate IsPowerOfTwo(n: nat)
  {
    n >= 1 && Pow2(Log2Floor(n)) == n
  }

  lemma {:induction false} PowerOfTwoIff(n: nat)
    ensures IsPowerOfTwo(n) <==> exists k: nat :: Pow2(k) == n
  {
    if exists k: nat :: Pow2(k) == n {
      var k: nat :| Pow2(k) == n;
      Log2FloorOfPow2(k);
    }
  }

  function Abs(x: real): (r: real)
    ensures r >= 0.0 && (r == x || r == -x)
  {
    if x < 0.0 then -x else x
  }

  function Min(a: int, b: int): (r: int)
    ensures r <= a && r <= b && (r == a || r == b)
  {
    if a <= b then a else b
  }

  /** a / b, with 0 where the source's floating point division by zero
      would produce an infinity or NaN. */
  function Quotient(a: real, b: real): (r: real)
    ensures b != 0.0 ==> r * b == a
    ensures b == 0.0 ==> r == 0.0
  {
    if b == 0.0 then 0.0 else a / b
  }
}
