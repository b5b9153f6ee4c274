/** The pay-revision page: the pay before revision (basic pay with the old
    22% DA, pending DA and HRA) against the pay after it (basic pay with
    the merged 31% DA and the fitment benefit, fixed at the next multiple
    of 100, plus balance DA and the new HRA). */
module PayRevision {
  import opened Wrappers
  import opened JsMath

  /** The six input fields, `None` when empty or unparseable. */
  datatype Inputs = Inputs(basicPay: Option<real>, daPendingPercent: Option<real>, hraOldPercent: Option<real>,
                           fitmentPercent: Option<real>, balanceDaPercent: Option<real>, hraNewPercent: Option<real>)

  /** The pay before revision. */
  datatype Before = Before(daOld: int, daPending: int, hraOld: int, gross: real)

  /** The pay after revision. */
  datatype After = After(daMerged: int, fitment: int, actualTotal: real, bpFixed: int,
                         balanceDa: int, hraNew: int, gross: real)

  /** Everything the page shows, before number formatting. */
  datatype Revision = Revision(basicPay: real, before: Before, after: After, growth: real, growthPercent: real)

  /** The DA rates the page fixes rather than reads. */
  const DaOldPercent: real := 22.0
  const DaMergedPercent: real := 31.0

  /** `Math.round(base * (percent / 100))`: an allowance in whole rupees. */
  function Allowance(base: real, percent: real): (a: int)
    ensures -0.5 < a as real - base * (percent / 100.0) <= 0.5
    ensures base >= 0.0 && percent >= 0.0 ==> a >= 0
  {
    var exact := base * (percent / 100.0);
    NonNegativeShare(base, percent);
    Round(exact)
  }

  lemma NonNegativeShare(base: real, percent: real)
    ensures base >= 0.0 && percent >= 0.0 ==> base * (percent / 100.0) >= 0.0
  {
  }

  /** `Math.ceil(actualTotal / 100) * 100`. */
  function FixAt(actualTotal: real): (bp: int)
    ensures bp % 100 == 0
    ensures actualTotal <= bp as real < actualTotal + 100.0
  {
    Ceil(actualTotal / 100.0) * 100
  }

  /** The fixed pay is the least multiple of 100 not below the actual
      total. */
  lemma FixAtIsLeast(actualTotal: real, m: int)
    requires m % 100 == 0 && actualTotal <= m as real
    ensures FixAt(actualTotal) <= m
  {
  }

  /** The growth in percent of the old gross, or 0 when the old gross is
      not positive (`toFixed(1)` is not modelled). */
  function GrowthPercent(growth: real, grossOld: real): (p: real)
    ensures grossOld > 0.0 ==> p * grossOld == growth * 100.0
    ensures grossOld <= 0.0 ==> p == 0.0
  {
    if grossOld > 0.0 then growth / grossOld * 100.0 else 0.0
  }

  /** The "before revision" column of `calculate`. */
  function PayBefore(bp: real, daPendingPercent: real, hraOldPercent: real): (b: Before)
    ensures b.gross == bp + (b.daOld + b.daPending + b.hraOld) as real
    ensures b.daOld == Allowance(bp, DaOldPercent)
    ensures b.daPending == Allowance(bp, daPendingPercent)
    ensures b.hraOld == Allowance(bp, hraOldPercent)
  {
    var daOld := Allowance(bp, DaOldPercent);
    var daPending := Allowance(bp, daPendingPercent);
    var hraOld := Allowance(bp, hraOldPercent);
    Before(daOld, daPending, hraOld, bp + daOld as real + daPending as real + hraOld as real)
  }

  /** The "after revision" column of `calculate`: balance DA and the new
      HRA are taken on the fixed pay. */
  function PayAfter(bp: real, fitmentPercent: real, balanceDaPercent: real, hraNewPercent: real): (a: After)
    ensures a.daMerged == Allowance(bp, DaMergedPercent)
    ensures a.fitment == Allowance(bp, fitmentPercent)
    ensures a.actualTotal == bp + (a.daMerged + a.fitment) as real
    ensures a.bpFixed % 100 == 0 && a.actualTotal <= a.bpFixed as real < a.actualTotal + 100.0
    ensures a.balanceDa == Allowance(a.bpFixed as real, balanceDaPercent)
    ensures a.hraNew == Allowance(a.bpFixed as real, hraNewPercent)
    ensures a.gross == (a.bpFixed + a.balanceDa + a.hraNew) as real
  {
    var daMerged := Allowance(bp, DaMergedPercent);
    var fitment := Allowance(bp, fitmentPercent);
    var actualTotal := bp + daMerged as real + fitment as real;
    var bpFixed := FixAt(actualTotal);
    var balanceDa := Allowance(bpFixed as real, balanceDaPercent);
    var hraNew := Allowance(bpFixed as real, hraNewPercent);
    After(daMerged, fitment, actualTotal, bpFixed, balanceDa, hraNew, bpFixed as real + balanceDa as real + hraNew as real)
  }

  /** `calculate`: empty or unparseable fields count as 0. */
  function Revise(f: Inputs): (r: Revision)
    ensures r.basicPay == OrZero(f.basicPay)
    ensures r.before == PayBefore(OrZero(f.basicPay), OrZero(f.daPendingPercent), OrZero(f.hraOldPercent))
    ensures r.after == PayAfter(OrZero(f.basicPay), OrZero(f.fitmentPercent), OrZero(f.balanceDaPercent),
                                OrZero(f.hraNewPercent))
    ensures r.growth == r.after.gross - r.before.gross
    ensures r.growthPercent == GrowthPercent(r.growth, r.before.gross)
  {
    var bp := OrZero(f.basicPay);
    var before := PayBefore(bp, OrZero(f.daPendingPercent), OrZero(f.hraOldPercent));
    var after := PayAfter(bp, OrZero(f.fitmentPercent), OrZero(f.balanceDaPercent), OrZero(f.hraNewPercent));
    var growth := after.gross - before.gross;
    Revision(bp, before, after, growth, GrowthPercent(growth, before.gross))
  }

  lemma AllowanceIsRound(base: real, percent: real)
    ensures Allowance(base, percent) == Round(base * (percent / 100.0))
  {
  }

  /** Each allowance before revision is the nearest whole rupee to its
      percentage of the basic pay, the old DA at its fixed 22%. */
  lemma BeforeAllowancesRounded(bp: real, daPendingPercent: real, hraOldPercent: real)
    ensures var b := PayBefore(bp, daPendingPercent, hraOldPercent);
      && b.daOld == Round(bp * (22.0 / 100.0))
      && b.daPending == Round(bp * (daPendingPercent / 100.0))
      && b.hraOld == Round(bp * (hraOldPercent / 100.0))
  {
    AllowanceIsRound(bp, DaOldPercent);
    AllowanceIsRound(bp, daPendingPercent);
    AllowanceIsRound(bp, hraOldPercent);
  }

  /** After revision the merged 31% DA and the fitment are rounded shares
      of the basic pay, balance DA and the new HRA rounded shares of the
      fixed pay. */
  lemma AfterAllowancesRounded(bp: real, fitmentPercent: real, balanceDaPercent: real, hraNewPercent: real)
    ensures var a := PayAfter(bp, fitmentPercent, balanceDaPercent, hraNewPercent);
      && a.daMerged == Round(bp * (31.0 / 100.0))
      && a.fitment == Round(bp * (fitmentPercent / 100.0))
      && a.balanceDa == Round(a.bpFixed as real * (balanceDaPercent / 100.0))
      && a.hraNew == Round(a.bpFixed as real * (hraNewPercent / 100.0))
  {
    var a := PayAfter(bp, fitmentPercent, balanceDaPercent, hraNewPercent);
    AllowanceIsRound(bp, DaMergedPercent);
    AllowanceIsRound(bp, fitmentPercent);
    AllowanceIsRound(a.bpFixed as real, balanceDaPercent);
    AllowanceIsRound(a.bpFixed as real, hraNewPercent);
  }

  /** With no negative input, the new gross is at least the actual total
      and the fixed pay at least the basic pay. */
  lemma RevisedPayCoversActual(bp: real, fitmentPercent: real, balanceDaPercent: real, hraNewPercent: real)
    requires bp >= 0.0 && fitmentPercent >= 0.0 && balanceDaPercent >= 0.0 && hraNewPercent >= 0.0
    ensures PayAfter(bp, fitmentPercent, balanceDaPercent, hraNewPercent).gross
            >= PayAfter(bp, fitmentPercent, balanceDaPercent, hraNewPercent).actualTotal
    ensures PayAfter(bp, fitmentPercent, balanceDaPercent, hraNewPercent).bpFixed as real >= bp
  {
    var a := PayAfter(bp, fitmentPercent, balanceDaPercent, hraNewPercent);
    assert a.daMerged == Allowance(bp, DaMergedPercent);
    assert a.fitment == Allowance(bp, fitmentPercent);
  }

  /** An empty form shows zeros throughout. */
  lemma EmptyFormIsZero(f: Inputs)
    requires f.basicPay.None?
    ensures var r := Revise(f);
      r.before.gross == 0.0 && r.after.actualTotal == 0.0 && r.after.bpFixed == 0 && r.after.gross == 0.0
      && r.growth == 0.0 && r.growthPercent == 0.0
  {
    var r := Revise(f);
    assert r.before == PayBefore(0.0, OrZero(f.daPendingPercent), OrZero(f.hraOldPercent));
    assert r.after == PayAfter(0.0, OrZero(f.fitmentPercent), OrZero(f.balanceDaPercent), OrZero(f.hraNewPercent));
    assert Allowance(0.0, OrZero(f.daPendingPercent)) == 0;
    assert Allowance(0.0, OrZero(f.hraOldPercent)) == 0;
    assert Allowance(0.0, DaOldPercent) == 0;
    assert Allowance(0.0, DaMergedPercent) == 0;
    assert Allowance(0.0, OrZero(f.fitmentPercent)) == 0;
    assert r.after.bpFixed == 0;
    assert Allowance(0.0, OrZero(f.balanceDaPercent)) == 0;
    assert Allowance(0.0, OrZero(f.hraNewPercent)) == 0;
  }
}
