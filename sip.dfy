/** The SIP page: the value of a fixed monthly investment made at the start
    of each month for a number of years, compounded monthly. */
module Sip {
  import opened Wrappers
  import opened JsMath

  /** The three fields: the monthly investment, the annual rate in percent
      and the years, given as the whole number of months `Y * 12`; `None`
      when empty or unparseable. */
  datatype Inputs = Inputs(investment: Option<real>, rate: Option<real>, months: Option<int>)

  datatype SipResult = SipResult(totalValue: real, investedAmount: real, estReturns: real)

  /** `b^1 + b^2 + ... + b^n`: each instalment grown from its month to the
      end of the term. */
  function SumPowers(b: real, n: nat): real
  {
    if n == 0 then 0.0 else SumPowers(b, n - 1) + Pow(b, n)
  }

  /** The closed form of the geometric sum. */
  lemma {:induction false} SumPowersClosed(b: real, n: nat)
    ensures SumPowers(b, n) * (b - 1.0) == b * (Pow(b, n) - 1.0)
  {
    if n > 0 {
      SumPowersClosed(b, n - 1);
      StepClosed(SumPowers(b, n - 1), Pow(b, n - 1), b);
    }
  }

  lemma StepClosed(s: real, q: real, b: real)
    requires s * (b - 1.0) == b * (q - 1.0)
    ensures (s + b * q) * (b - 1.0) == b * (b * q - 1.0)
  {
    calc {
      (s + b * q) * (b - 1.0);
      s * (b - 1.0) + (b * q) * (b - 1.0);
      b * (q - 1.0) + (b * q) * (b - 1.0);
      b * (b * q - 1.0);
    }
  }

  /** Each of `n >= 1` terms above 1 makes the sum exceed `n`. */
  lemma {:induction false} SumPowersAboveCount(b: real, n: nat)
    requires b > 1.0 && n >= 1
    ensures SumPowers(b, n) > n as real
  {
    PowAboveOne(b, n);
    if n > 1 {
      SumPowersAboveCount(b, n - 1);
    }
  }

  /** `P * ((Math.pow(1 + i, n) - 1) / i) * (1 + i)`. */
  function FutureValue(P: real, i: real, n: nat): real
    requires i != 0.0
  {
    P * ((Pow(1.0 + i, n) - 1.0) / i) * (1.0 + i)
  }

  /** The page's formula is the sum of every instalment's compounded
      value. */
  lemma FutureValueIsSum(P: real, i: real, n: nat)
    requires i != 0.0
    ensures FutureValue(P, i, n) == P * SumPowers(1.0 + i, n)
  {
    SumPowersClosed(1.0 + i, n);
    var s := SumPowers(1.0 + i, n);
    var x := Pow(1.0 + i, n);
    assert s * i == (1.0 + i) * (x - 1.0);
    DivideOut(s, i, x);
  }

  lemma DivideOut(s: real, i: real, x: real)
    requires i != 0.0 && s * i == (1.0 + i) * (x - 1.0)
    ensures (x - 1.0) / i * (1.0 + i) == s
  {
    calc {
      (x - 1.0) / i * (1.0 + i);
      ((1.0 + i) * (x - 1.0)) / i;
      (s * i) / i;
      s;
    }
  }

  /** `calculate`: nothing is shown unless P, R and Y are all positive
      numbers; otherwise the total value, the amount invested and the
      returns. */
  function Calculate(f: Inputs): (r: Option<SipResult>)
    ensures r.Some? <==> f.investment.Some? && f.investment.value > 0.0 && f.rate.Some? && f.rate.value > 0.0
                         && f.months.Some? && f.months.value > 0
    ensures r.Some? ==> r.value.totalValue
                        == f.investment.value * SumPowers(1.0 + f.rate.value / 1200.0, f.months.value)
    ensures r.Some? ==> r.value.investedAmount == f.investment.value * f.months.value as real
    ensures r.Some? ==> r.value.estReturns == r.value.totalValue - r.value.investedAmount
    ensures r.Some? ==> r.value.estReturns > 0.0
  {
    if f.investment.None? || f.rate.None? || f.months.None? then None
    else
      var P, R, n := f.investment.value, f.rate.value, f.months.value;
      if P <= 0.0 || R <= 0.0 || n <= 0 then None
      else
        var i := R / 12.0 / 100.0;
        var totalValue := FutureValue(P, i, n);
        var investedAmount := P * n as real;
        FutureValueIsSum(P, i, n);
        SumPowersAboveCount(1.0 + i, n);
        ReturnsPositive(P, SumPowers(1.0 + i, n), n as real);
        Some(SipResult(totalValue, investedAmount, totalValue - investedAmount))
  }

  lemma ReturnsPositive(P: real, s: real, n: real)
    requires P > 0.0 && s > n
    ensures P * s - P * n > 0.0
  {
    assert P * s - P * n == P * (s - n);
  }

  /** The page: the three fields and whether the result card is visible
      with the figures last shown. */
  class Page {
    var investment: Option<real>
    var rate: Option<real>
    var months: Option<int>
    var visible: bool
    var shown: Option<SipResult>

    function Fields(): Inputs
      reads this
    {
      Inputs(investment, rate, months)
    }

    constructor ()
      ensures Fields() == Inputs(None, None, None) && !visible && shown.None?
    {
      investment, rate, months := None, None, None;
      visible := false;
      shown := None;
    }

    /** The `load` handler: clear every field and hide the card. */
    method Load()
      modifies this
      ensures Fields() == Inputs(None, None, None) && !visible
      ensures shown == old(shown)
    {
      investment, rate, months := None, None, None;
      visible := false;
    }

    /** `calculate`: hide the card on bad input, leaving the old figures
        in place; otherwise show the new ones. */
    method Recalculate()
      modifies this
      ensures Fields() == old(Fields())
      ensures visible <==> Calculate(Fields()).Some?
      ensures visible ==> shown == Calculate(Fields())
      ensures !visible ==> shown == old(shown)
    {
      var r := Calculate(Fields());
      if r.None? {
        visible := false;
        return;
      }
      shown := r;
      visible := true;
    }
  }
}
