/** The Kerala pension and DCRG page: pension, commutation, balance
    pension and the death-cum-retirement gratuity from basic pay, DA and
    years of qualifying service. */
module Dcrg {
  import opened Wrappers
  import opened JsMath

  /** The three input fields, `None` when empty or unparseable. */
  datatype Inputs = Inputs(basicPay: Option<real>, daPercent: Option<real>, serviceYears: Option<real>)

  /** What `calculateAll` computes. */
  datatype Benefits = Benefits(years: real, avgEmoluments: real, pensionFactor: real, pension: real,
                               commutation: real, balancePension: real, dcrgFactor: real, dcrg: real,
                               totalLumpSum: real)

  const MaxYears: real := 35.0
  const DcrgCap: real := 1600000.0
  const MaxDcrgFactor: real := 16.5
  /** The commutation factor, and the share of the pension commuted. */
  const CommutationFactor: real := 11.42
  const CommutedShare: real := 0.40

  function Min(a: real, b: real): (m: real)
    ensures m <= a && m <= b && (m == a || m == b)
  {
    if a > b then b else a
  }

  /** `avgEmoluments = bp + bp * da / 100`. */
  function AvgEmoluments(bp: real, da: real): real
  {
    bp + bp * da / 100.0
  }

  /** `min(years / 30, 1)`. */
  function PensionFactor(years: real): (f: real)
    ensures f <= 1.0
    ensures years >= 30.0 ==> f == 1.0
    ensures years < 30.0 ==> f * 30.0 == years
  {
    Min(years / 30.0, 1.0)
  }

  /** `min(years / 2, 16.5)`. */
  function DcrgFactor(years: real): (f: real)
    ensures f <= MaxDcrgFactor
    ensures years >= 33.0 ==> f == MaxDcrgFactor
    ensures years < 33.0 ==> f * 2.0 == years
  {
    Min(years / 2.0, MaxDcrgFactor)
  }

  /** `(avgEmoluments / 2) * pensionFactor`. */
  function Pension(avg: real, years: real): real
  {
    avg / 2.0 * PensionFactor(years)
  }

  /** `min(avgEmoluments * dcrgFactor, 1600000)`. */
  function Gratuity(avg: real, years: real): (g: real)
    ensures g <= DcrgCap && g <= avg * DcrgFactor(years)
    ensures g == DcrgCap || g == avg * DcrgFactor(years)
  {
    Min(avg * DcrgFactor(years), DcrgCap)
  }

  /** `pension * 0.40 * 11.42 * 12`: the lump sum for the commuted 40%. */
  function Commutation(pension: real): real
  {
    pension * 0.40 * 11.42 * 12.0
  }

  /** `calculateAll`: empty or unparseable fields count as 0 and service
      beyond 35 years counts as 35. */
  function Calculate(f: Inputs): (b: Benefits)
    ensures b.years <= MaxYears
    ensures OrZero(f.serviceYears) <= MaxYears ==> b.years == OrZero(f.serviceYears)
    ensures b.avgEmoluments == AvgEmoluments(OrZero(f.basicPay), OrZero(f.daPercent))
    ensures b.pensionFactor == PensionFactor(b.years) && b.dcrgFactor == DcrgFactor(b.years)
    ensures b.pension == Pension(b.avgEmoluments, b.years)
    ensures b.commutation == Commutation(b.pension)
    ensures b.pension * CommutedShare + b.balancePension == b.pension
    ensures b.dcrg == Gratuity(b.avgEmoluments, b.years) && b.dcrg <= DcrgCap
    ensures b.totalLumpSum == b.commutation + b.dcrg
  {
    var bp := OrZero(f.basicPay);
    var da := OrZero(f.daPercent);
    var years := Min(OrZero(f.serviceYears), MaxYears);
    var avg := AvgEmoluments(bp, da);
    var pension := Pension(avg, years);
    var commutation := Commutation(pension);
    var balancePension := pension * 0.60;
    var dcrg := Gratuity(avg, years);
    Benefits(years, avg, PensionFactor(years), pension, commutation, balancePension, DcrgFactor(years), dcrg,
             commutation + dcrg)
  }

  /** The pension never exceeds half the average emoluments, and reaches
      it from 30 years of service on. */
  lemma PensionAtMostHalf(avg: real, years: real)
    requires avg >= 0.0
    ensures Pension(avg, years) <= avg / 2.0
    ensures years >= 30.0 ==> Pension(avg, years) == avg / 2.0
  {
    ScaleAtMostOne(avg / 2.0, PensionFactor(years));
  }

  lemma ScaleAtMostOne(x: real, k: real)
    requires x >= 0.0 && k <= 1.0
    ensures x * k <= x
  {
    assert x * (1.0 - k) >= 0.0;
  }

  lemma ScaleMonotone(x: real, k1: real, k2: real)
    requires x >= 0.0 && k1 <= k2
    ensures x * k1 <= x * k2
  {
    assert x * (k2 - k1) >= 0.0;
  }

  lemma MinMonotone(a1: real, a2: real, c: real)
    requires a1 <= a2
    ensures Min(a1, c) <= Min(a2, c)
  {
  }

  lemma GratuityMonotone(avg: real, years1: real, years2: real)
    requires avg >= 0.0 && years1 <= years2
    ensures Gratuity(avg, years1) <= Gratuity(avg, years2)
  {
    var k1, k2 := DcrgFactor(years1), DcrgFactor(years2);
    assert k1 <= k2;
    ScaleMonotone(avg, k1, k2);
    MinMonotone(avg * k1, avg * k2, DcrgCap);
  }

  lemma CommutationMonotone(p1: real, p2: real)
    requires p1 <= p2
    ensures Commutation(p1) <= Commutation(p2)
  {
    assert p1 * 0.40 * 11.42 * 12.0 == p1 * 54.816;
    assert p2 * 0.40 * 11.42 * 12.0 == p2 * 54.816;
  }

  /** More service never lowers the pension, the commutation or the
      gratuity. */
  lemma MoreServiceNeverLowers(avg: real, years1: real, years2: real)
    requires avg >= 0.0 && years1 <= years2
    ensures Pension(avg, years1) <= Pension(avg, years2)
    ensures Commutation(Pension(avg, years1)) <= Commutation(Pension(avg, years2))
    ensures Gratuity(avg, years1) <= Gratuity(avg, years2)
  {
    ScaleMonotone(avg / 2.0, PensionFactor(years1), PensionFactor(years2));
    CommutationMonotone(Pension(avg, years1), Pension(avg, years2));
    GratuityMonotone(avg, years1, years2);
  }

  /** The figures the page shows depend on service only up to 35 years. */
  lemma ServiceCappedAt35(f: Inputs)
    requires OrZero(f.serviceYears) >= MaxYears
    ensures Calculate(f) == Calculate(f.(serviceYears := Some(MaxYears)))
  {
  }

  /** `displayValue`: a non-positive amount shows as empty. */
  function DisplayValue(v: real): (shown: Option<real>)
    ensures shown.Some? <==> v > 0.0
    ensures shown.Some? ==> shown.value == v
  {
    if v > 0.0 then Some(v) else None
  }

  /** The average-emoluments field shows the rounded value. */
  function AvgShown(b: Benefits): (k: int)
    ensures k as real - 0.5 <= b.avgEmoluments < k as real + 0.5
  {
    Round(b.avgEmoluments)
  }

  /** The four headline figures, empty when not positive. */
  datatype Dashboard = Dashboard(totalBenefits: Option<real>, commutation: Option<real>,
                                 dcrg: Option<real>, balancePension: Option<real>)

  function Headline(f: Inputs): (d: Dashboard)
    ensures d.dcrg.Some? ==> 0.0 < d.dcrg.value <= DcrgCap
    ensures d.totalBenefits.Some? <==> Calculate(f).totalLumpSum > 0.0
    ensures d.commutation.Some? <==> Calculate(f).commutation > 0.0
    ensures d.dcrg.Some? <==> Calculate(f).dcrg > 0.0
    ensures d.balancePension.Some? <==> Calculate(f).balancePension > 0.0
    ensures d.totalBenefits.Some? ==> d.totalBenefits.value == Calculate(f).totalLumpSum
    ensures d.commutation.Some? ==> d.commutation.value == Calculate(f).commutation
    ensures d.dcrg.Some? ==> d.dcrg.value == Calculate(f).dcrg
    ensures d.balancePension.Some? ==> d.balancePension.value == Calculate(f).balancePension
  {
    var b := Calculate(f);
    Dashboard(DisplayValue(b.totalLumpSum), DisplayValue(b.commutation), DisplayValue(b.dcrg), DisplayValue(b.balancePension))
  }

  /** An empty form shows an empty dashboard. */
  lemma EmptyFormShowsNothing(f: Inputs)
    requires f.basicPay.None?
    ensures Headline(f) == Dashboard(None, None, None, None)
  {
    var b := Calculate(f);
    assert b.avgEmoluments == 0.0;
    assert b.pension == 0.0;
    assert b.commutation == 0.0;
    assert b.dcrg <= 0.0;
  }
}
