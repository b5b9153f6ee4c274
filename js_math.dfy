/** The few JavaScript numeric idioms the calculators share, over `real`. */
module JsMath {
  import opened Wrappers

  /** `Math.round(x)`: the nearest integer, halves rounded up. */
  function Round(x: real): (k: int)
    ensures k as real - 0.5 <= x < k as real + 0.5
  {
    (x + 0.5).Floor
  }

  /** `Math.ceil(x)`: the least integer not below `x`. */
  function Ceil(x: real): (k: int)
    ensures x <= k as real < x + 1.0
  {
    -((-x).Floor)
  }

  /** `parseFloat(s) || 0`: an unparseable (NaN) or missing input counts as 0. */
  function OrZero(v: Option<real>): (r: real)
    ensures v.None? ==> r == 0.0
    ensures v.Some? ==> r == v.value
  {
    v.GetOr(0.0)
  }

  /** `Math.pow(b, n)` for a whole exponent. */
  function Pow(b: real, n: nat): real
  {
    if n == 0 then 1.0 else b * Pow(b, n - 1)
  }

  /** A base above 1 raised to a positive power exceeds 1. */
  lemma {:induction false} PowAboveOne(b: real, n: nat)
    requires b > 1.0 && n >= 1
    ensures Pow(b, n) > 1.0
  {
    if n > 1 {
      PowAboveOne(b, n - 1);
      assert b * Pow(b, n - 1) > Pow(b, n - 1);
    }
  }

  /** A positive base gives a positive power. */
  lemma {:induction false} PowPositive(b: real, n: nat)
    requires b > 0.0
    ensures Pow(b, n) > 0.0
  {
    if n > 0 {
      PowPositive(b, n - 1);
    }
  }

  /** `Pow` adds exponents: one more factor on the right. */
  lemma {:induction false} PowSucc(b: real, n: nat)
    ensures Pow(b, n + 1) == Pow(b, n) * b
  {
    if n > 0 {
      PowSucc(b, n - 1);
    }
  }
}
