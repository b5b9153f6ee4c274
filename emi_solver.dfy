/** The four-way loan solver of the EMI page: given three of principal P,
    annual rate R (percent), tenure and monthly instalment E, compute the
    fourth.  The monthly rate is r = R / 12 / 100 and the number of
    payments n is the tenure in months, a whole number here. */
module EmiSolver {
  import opened Wrappers
  import opened JsMath

  /** A JavaScript number as far as the page cares: a real value, or one
      of Infinity, -Infinity and NaN.  The EMI page rejects a result that
      is Infinity, NaN or not above zero, so the three fail alike and are
      one case here;
      the calculator, which shows each of them, has its own `JsNumber`. */
  datatype Number = Finite(value: real) | NonFinite

  /** The tenure `calcTenure` returns: a number of years, or
      ln(growth) / ln(base) / 12 years (the logarithms are not modelled). */
  datatype Tenure = Direct(years: Number) | ByLog(growth: real, base: real)

  /** The bisection bracket over monthly rates. */
  datatype Bracket = Bracket(low: real, high: real)

  const RateLow: real := 0.0000001
  const RateHigh: real := 0.2
  const BisectionSteps: nat := 50

  /** The amortizing instalment P r x / (x - 1) for monthly rate r and
      growth factor x = (1+r)^n. */
  function Instalment(P: real, r: real, x: real): real
    requires x - 1.0 != 0.0
  {
    P * r * x / (x - 1.0)
  }

  function MonthlyRate(R: real): (r: real)
    ensures r * 1200.0 == R
  {
    R / 12.0 / 100.0
  }

  /** The instalment that amortizes P over n months at annual rate R. */
  function CalcEMI(P: real, R: real, n: nat): (e: Number)
    ensures n == 0 ==> e == NonFinite
    ensures R == 0.0 && n > 0 ==> e == Finite(P / n as real)
    ensures R > 0.0 && n > 0 ==> e.Finite?
    // A positive loan pays more than its first month's interest.
    ensures R > 0.0 && n > 0 && P > 0.0 ==> e.Finite? && e.value > P * MonthlyRate(R)
  {
    var r := MonthlyRate(R);
    if r == 0.0 then
      (if n == 0 then NonFinite else Finite(P / n as real))
    else
      var x := Pow(1.0 + r, n);
      GrowthAboveOne(r, n);
      if x - 1.0 == 0.0 then NonFinite
      else
        EmiAboveInterest(P, r, x);
        Finite(Instalment(P, r, x))
  }

  /** The growth factor (1+r)^n of a positive rate over at least one month. */
  lemma GrowthAboveOne(r: real, n: nat)
    ensures r > 0.0 && n >= 1 ==> Pow(1.0 + r, n) > 1.0
    ensures r > -1.0 ==> Pow(1.0 + r, n) > 0.0
  {
    if r > 0.0 && n >= 1 {
      PowAboveOne(1.0 + r, n);
    }
    if r > -1.0 {
      PowPositive(1.0 + r, n);
    }
  }

  /** The instalment exceeds the first month's interest P r when x > 1. */
  lemma EmiAboveInterest(P: real, r: real, x: real)
    requires x - 1.0 != 0.0
    ensures P * r > 0.0 && x > 1.0 ==> Instalment(P, r, x) > P * r
  {
    if P * r > 0.0 && x > 1.0 {
      var k, d := P * r, x - 1.0;
      assert P * r * x == k * d + k;
      assert (k * d + k) / d == k + k / d;
    }
  }

  /** The principal that an instalment E pays off over n months at rate R. */
  function CalcPrincipal(E: real, R: real, n: nat): (p: Number)
    ensures R == 0.0 ==> p == Finite(E * n as real)
    ensures R > 0.0 ==> p.Finite?
  {
    var r := MonthlyRate(R);
    if r == 0.0 then Finite(E * n as real)
    else
      var x := Pow(1.0 + r, n);
      GrowthAboveOne(r, n);
      if r * x == 0.0 then NonFinite
      else Finite(E * (x - 1.0) / (r * x))
  }

  /** The tenure, in years, that instalment E needs to pay off P at rate R.
      `None` is the page's "impossible" answer: E does not cover the first
      month's interest. */
  function CalcTenure(P: real, R: real, E: real): (t: Option<Tenure>)
    ensures t.None? <==> R != 0.0 && E - P * MonthlyRate(R) <= 0.0
    ensures R == 0.0 && E != 0.0 ==> t == Some(Direct(Finite(P / E / 12.0)))
    ensures R == 0.0 && E == 0.0 ==> t == Some(Direct(NonFinite))
    ensures t.Some? && t.value.ByLog? ==> t.value.base == 1.0 + MonthlyRate(R) && t.value.base != 1.0
  {
    var r := MonthlyRate(R);
    if r == 0.0 then Some(Direct(if E == 0.0 then NonFinite else Finite(P / E / 12.0)))
    else
      var denominator := E - P * r;
      if denominator <= 0.0 then None
      else Some(ByLog(E / denominator, 1.0 + r))
  }

  /** `calcE > E` at monthly rate `mid`, JavaScript's way: when the
      denominator (1+mid)^n - 1 is zero the quotient is +Infinity, NaN or
      -Infinity according to the sign of the numerator. */
  predicate Exceeds(P: real, mid: real, n: nat, E: real)
  {
    var x := Pow(1.0 + mid, n);
    if x - 1.0 == 0.0 then P * mid * x > 0.0
    else Instalment(P, mid, x) > E
  }

  /** The test `calcRate` applies at each midpoint. */
  function RateTest(P: real, n: nat, E: real): real -> bool
  {
    mid => Exceeds(P, mid, n, E)
  }

  /** `steps` rounds of bisection starting from the bracket [low, high]:
      the bracket keeps the half whose far end passes `above`. */
  function Bisect(above: real -> bool, low: real, high: real, steps: nat): Bracket
    decreases steps
  {
    if steps == 0 then Bracket(low, high)
    else
      var mid := (low + high) / 2.0;
      if above(mid) then Bisect(above, low, mid, steps - 1)
      else Bisect(above, mid, high, steps - 1)
  }

  /** Bisection keeps a non-empty bracket inside the one it started from,
      halves its width each round, moves `high` only to a point that passes
      the test (for `calcRate`: whose instalment exceeds E), and `low` only
      to one that fails it. */
  lemma {:induction false} BisectBracket(above: real -> bool, low: real, high: real, steps: nat)
    requires low < high
    ensures var b := Bisect(above, low, high, steps);
      && low <= b.low < b.high <= high
      && (b.high - b.low) * Pow(2.0, steps) == high - low
      && (b.high == high || above(b.high))
      && (b.low == low || !above(b.low))
    decreases steps
  {
    if steps > 0 {
      var mid := (low + high) / 2.0;
      PowSucc(2.0, steps - 1);
      var b := Bisect(above, low, high, steps);
      if above(mid) {
        BisectBracket(above, low, mid, steps - 1);
      } else {
        BisectBracket(above, mid, high, steps - 1);
      }
      HalvedWidth(b.high - b.low, Pow(2.0, steps - 1), high - low);
    }
  }

  lemma HalvedWidth(w: real, p: real, h: real)
    requires w * p == h / 2.0
    ensures w * (p * 2.0) == h
  {
  }

  /** The annual rate, in percent, that `calcRate` reports. */
  function RateSpec(P: real, n: nat, E: real): (rate: Option<real>)
    ensures rate.None? <==> E * n as real < P
    ensures rate.Some? ==> 0.00012 < rate.value < 240.0
  {
    if E * n as real < P then None
    else
      var b := Bisect(RateTest(P, n, E), RateLow, RateHigh, BisectionSteps);
      BisectBracket(RateTest(P, n, E), RateLow, RateHigh, BisectionSteps);
      Some((b.low + b.high) / 2.0 * 12.0 * 100.0)
  }

  /** `calcRate`: fifty rounds of bisection over monthly rates in
      [0.0000001, 0.2], after rejecting an instalment whose n payments do
      not even add up to the principal. */
  method CalcRate(P: real, n: nat, E: real) returns (rate: Option<real>)
    ensures rate == RateSpec(P, n, E)
  {
    var low, high := RateLow, RateHigh;
    if E * n as real < P {
      return None;
    }
    for i := 0 to BisectionSteps
      invariant RateLow <= low < high <= RateHigh
      invariant Bisect(RateTest(P, n, E), low, high, BisectionSteps - i)
             == Bisect(RateTest(P, n, E), RateLow, RateHigh, BisectionSteps)
    {
      var mid := (low + high) / 2.0;
      var x := Pow(1.0 + mid, n);
      var above: bool;
      if x - 1.0 == 0.0 {
        above := P * mid * x > 0.0;
      } else {
        var calcE := Instalment(P, mid, x);
        above := calcE > E;
      }
      assert above == RateTest(P, n, E)(mid);
      if above {
        high := mid;
      } else {
        low := mid;
      }
    }
    var r := (low + high) / 2.0;
    rate := Some(r * 12.0 * 100.0);
  }

  /** Computing the principal back from the instalment recovers it. */
  lemma PrincipalOfEmi(P: real, R: real, n: nat)
    requires R >= 0.0 && n >= 1
    ensures CalcEMI(P, R, n).Finite?
    ensures CalcPrincipal(CalcEMI(P, R, n).value, R, n) == Finite(P)
  {
    var r := MonthlyRate(R);
    if r != 0.0 {
      GrowthAboveOne(r, n);
      PrincipalUndoesInstalment(P, r, Pow(1.0 + r, n));
    }
  }

  /** Computing the instalment back from the principal recovers it. */
  lemma EmiOfPrincipal(E: real, R: real, n: nat)
    requires R >= 0.0 && n >= 1
    ensures CalcPrincipal(E, R, n).Finite?
    ensures CalcEMI(CalcPrincipal(E, R, n).value, R, n) == Finite(E)
  {
    var r := MonthlyRate(R);
    if r != 0.0 {
      var x := Pow(1.0 + r, n);
      GrowthAboveOne(r, n);
      var p := E * (x - 1.0) / (r * x);
      assert CalcPrincipal(E, R, n) == Finite(p);
      InstalmentUndoesPrincipal(E, r, x);
      assert CalcEMI(p, R, n) == Finite(Instalment(p, r, x));
    }
  }

  /** Computing the tenure back from the instalment of a positive loan
      recovers it: n / 12 years at zero rate, and otherwise a growth factor
      (1+r)^n over base 1+r, whose logarithm ratio is exactly n. */
  lemma TenureOfEmi(P: real, R: real, n: nat)
    requires P > 0.0 && R >= 0.0 && n >= 1
    ensures CalcEMI(P, R, n).Finite?
    ensures var r := MonthlyRate(R);
      CalcTenure(P, R, CalcEMI(P, R, n).value)
      == if r == 0.0 then Some(Direct(Finite(n as real / 12.0)))
         else Some(ByLog(Pow(1.0 + r, n), 1.0 + r))
  {
    if R > 0.0 {
      TenureAtPositiveRate(P, R, n);
    } else {
      assert CalcEMI(P, R, n) == Finite(P / n as real);
      DivideBack(P, n as real);
    }
  }

  lemma TenureAtPositiveRate(P: real, R: real, n: nat)
    requires P > 0.0 && R > 0.0 && n >= 1
    ensures CalcEMI(P, R, n).Finite?
    ensures CalcTenure(P, R, CalcEMI(P, R, n).value)
            == Some(ByLog(Pow(1.0 + MonthlyRate(R), n), 1.0 + MonthlyRate(R)))
  {
    GrowthAboveOne(MonthlyRate(R), n);
    assert CalcEMI(P, R, n) == Finite(Instalment(P, MonthlyRate(R), Pow(1.0 + MonthlyRate(R), n)));
    TenureOfInstalment(P, R, Pow(1.0 + MonthlyRate(R), n));
  }

  /** The tenure of the instalment for growth factor x is logarithm base
      1 + r of x. */
  lemma TenureOfInstalment(P: real, R: real, x: real)
    requires P > 0.0 && MonthlyRate(R) > 0.0 && x > 1.0
    ensures CalcTenure(P, R, Instalment(P, MonthlyRate(R), x)) == Some(ByLog(x, 1.0 + MonthlyRate(R)))
  {
    GrowthRecovered(P, MonthlyRate(R), x);
    TenureFeasible(P, R, Instalment(P, MonthlyRate(R), x));
  }

  lemma DivideBack(P: real, n: real)
    requires P > 0.0 && n > 0.0
    ensures P / n != 0.0 && P / (P / n) / 12.0 == n / 12.0
  {
    var e := P / n;
    assert e * n == P;
    assert P / e == n;
  }

  /** Helper: the feasible branch of `CalcTenure`, with the logarithm's
      argument written out for callers that need it. */
  lemma TenureFeasible(P: real, R: real, E: real)
    requires MonthlyRate(R) != 0.0 && E - P * MonthlyRate(R) > 0.0
    ensures CalcTenure(P, R, E) == Some(ByLog(E / (E - P * MonthlyRate(R)), 1.0 + MonthlyRate(R)))
  {
  }

  lemma PrincipalUndoesInstalment(P: real, r: real, x: real)
    requires r > 0.0 && x > 1.0
    ensures Instalment(P, r, x) * (x - 1.0) / (r * x) == P
  {
    var e, d := Instalment(P, r, x), x - 1.0;
    assert e * d == P * r * x;
    assert e * d / (r * x) == P * (r * x) / (r * x);
  }

  lemma InstalmentUndoesPrincipal(E: real, r: real, x: real)
    requires r > 0.0 && x > 1.0
    ensures Instalment(E * (x - 1.0) / (r * x), r, x) == E
  {
    var p, d := E * (x - 1.0) / (r * x), x - 1.0;
    assert p * (r * x) == E * d;
    assert p * r * x == E * d;
    assert Instalment(p, r, x) == E * d / d;
  }

  /** With the instalment e for principal P and growth x > 1, e / (e - P r)
      gives back x. */
  lemma GrowthRecovered(P: real, r: real, x: real)
    requires P > 0.0 && r > 0.0 && x > 1.0
    ensures var e := Instalment(P, r, x); e - P * r > 0.0 && e / (e - P * r) == x
  {
    var k, d := P * r, x - 1.0;
    var e := Instalment(P, r, x);
    assert e * d == k * x;
    assert (e - k) * d == k;
    assert e == (e - k) * x;
  }
}
