/** The salary page: earnings (basic pay, DA, pending DA, HRA as
    percentages of basic pay, other earnings) less six deductions. */
module Salary {
  import opened Wrappers
  import opened JsMath

  /** The eleven input fields, `None` when empty or unparseable. */
  datatype Inputs = Inputs(basicPay: Option<real>, daPercent: Option<real>, daPendingPercent: Option<real>,
                           hraPercent: Option<real>, otherEarnings: Option<real>,
                           gpf: Option<real>, gis: Option<real>, sli: Option<real>, medisep: Option<real>,
                           sliLoan: Option<real>, otherDeductions: Option<real>)

  /** What `calculate` computes, before display rounding. */
  datatype Payslip = Payslip(da: real, daPending: real, hra: real, gross: real, totalDeductions: real, net: real)

  /** `bp * (percent / 100)`. */
  function Share(bp: real, percent: real): real
  {
    bp * (percent / 100.0)
  }

  /** The six deduction fields in the page's order. */
  function DeductionFields(f: Inputs): seq<Option<real>>
  {
    [f.gpf, f.gis, f.sli, f.medisep, f.sliLoan, f.otherDeductions]
  }

  /** Sum of a list of fields, an empty field counting as 0. */
  function SumFields(fields: seq<Option<real>>): real
  {
    if |fields| == 0 then 0.0 else OrZero(fields[0]) + SumFields(fields[1..])
  }

  lemma SumOfSix(a: Option<real>, b: Option<real>, c: Option<real>, d: Option<real>, e: Option<real>, g: Option<real>)
    ensures SumFields([a, b, c, d, e, g]) == OrZero(a) + OrZero(b) + OrZero(c) + OrZero(d) + OrZero(e) + OrZero(g)
  {
    assert [g][1..] == [];
    assert SumFields([g]) == OrZero(g);
    assert [e, g][1..] == [g];
    assert SumFields([e, g]) == OrZero(e) + OrZero(g);
    assert [d, e, g][1..] == [e, g];
    assert SumFields([d, e, g]) == OrZero(d) + OrZero(e) + OrZero(g);
    assert [c, d, e, g][1..] == [d, e, g];
    assert SumFields([c, d, e, g]) == OrZero(c) + OrZero(d) + OrZero(e) + OrZero(g);
    assert [b, c, d, e, g][1..] == [c, d, e, g];
    assert SumFields([b, c, d, e, g]) == OrZero(b) + OrZero(c) + OrZero(d) + OrZero(e) + OrZero(g);
    assert [a, b, c, d, e, g][1..] == [b, c, d, e, g];
  }

  /** Sum of the six deduction fields, each 0 when empty. */
  function TotalDeductions(f: Inputs): (t: real)
    ensures t == SumFields(DeductionFields(f))
    ensures (f.gpf.None? && f.gis.None? && f.sli.None? && f.medisep.None? && f.sliLoan.None?
             && f.otherDeductions.None?) ==> t == 0.0
  {
    SumOfSix(f.gpf, f.gis, f.sli, f.medisep, f.sliLoan, f.otherDeductions);
    OrZero(f.gpf) + OrZero(f.gis) + OrZero(f.sli) + OrZero(f.medisep) + OrZero(f.sliLoan) + OrZero(f.otherDeductions)
  }

  /** `calculate`: net pay from the unrounded earnings and deductions. */
  function Calculate(f: Inputs): (p: Payslip)
    ensures p.gross == OrZero(f.basicPay) * (1.0 + (OrZero(f.daPercent) + OrZero(f.daPendingPercent)
                                                    + OrZero(f.hraPercent)) / 100.0) + OrZero(f.otherEarnings)
    ensures p.net + p.totalDeductions == p.gross
    ensures p.totalDeductions == TotalDeductions(f)
    ensures p.da * 100.0 == OrZero(f.basicPay) * OrZero(f.daPercent)
    ensures p.daPending * 100.0 == OrZero(f.basicPay) * OrZero(f.daPendingPercent)
    ensures p.hra * 100.0 == OrZero(f.basicPay) * OrZero(f.hraPercent)
    ensures p.gross == OrZero(f.basicPay) + p.da + p.daPending + p.hra + OrZero(f.otherEarnings)
  {
    var bp := OrZero(f.basicPay);
    var da := Share(bp, OrZero(f.daPercent));
    var dap := Share(bp, OrZero(f.daPendingPercent));
    var hra := Share(bp, OrZero(f.hraPercent));
    var gross := bp + da + dap + hra + OrZero(f.otherEarnings);
    var total := TotalDeductions(f);
    SharesAdd(bp, OrZero(f.daPercent), OrZero(f.daPendingPercent), OrZero(f.hraPercent));
    ShareScaled(bp, OrZero(f.daPercent));
    ShareScaled(bp, OrZero(f.daPendingPercent));
    ShareScaled(bp, OrZero(f.hraPercent));
    Payslip(da, dap, hra, gross, total, gross - total)
  }

  lemma ShareScaled(bp: real, percent: real)
    ensures Share(bp, percent) * 100.0 == bp * percent
  {
  }

  lemma SharesAdd(bp: real, a: real, b: real, c: real)
    ensures bp + Share(bp, a) + Share(bp, b) + Share(bp, c) == bp * (1.0 + (a + b + c) / 100.0)
  {
  }

  /** The figures the page shows: each rounded half-up to a whole rupee. */
  datatype Shown = Shown(da: int, daPending: int, hra: int, gross: int, totalDeductions: int, net: int)

  function Display(p: Payslip): (s: Shown)
    ensures s.da as real - 0.5 <= p.da < s.da as real + 0.5
    ensures s.daPending as real - 0.5 <= p.daPending < s.daPending as real + 0.5
    ensures s.hra as real - 0.5 <= p.hra < s.hra as real + 0.5
    ensures s.gross as real - 0.5 <= p.gross < s.gross as real + 0.5
    ensures s.net as real - 0.5 <= p.net < s.net as real + 0.5
    ensures s.totalDeductions as real - 0.5 <= p.totalDeductions < s.totalDeductions as real + 0.5
  {
    Shown(Round(p.da), Round(p.daPending), Round(p.hra), Round(p.gross), Round(p.totalDeductions), Round(p.net))
  }

  /** Because net pay is rounded on its own, the shown net can differ from
      the shown gross less the shown deductions, by at most one rupee. */
  lemma ShownNetWithinOneRupee(f: Inputs)
    ensures var s := Display(Calculate(f));
      -1 <= s.net - (s.gross - s.totalDeductions) <= 1
  {
  }

  /** The difference does occur: a basic pay of 1.5 less a deduction of
      0.4 shows gross 2 and deductions 0, yet net 1. */
  lemma ShownNetCanDiffer()
    ensures var f := Inputs(Some(1.5), None, None, None, None, Some(0.4), None, None, None, None, None);
      var s := Display(Calculate(f));
      s.gross == 2 && s.totalDeductions == 0 && s.net == 1
  {
    var f := Inputs(Some(1.5), None, None, None, None, Some(0.4), None, None, None, None, None);
    assert OrZero(f.basicPay) == 1.5 && OrZero(f.daPercent) == 0.0;
    assert OrZero(f.daPendingPercent) == 0.0 && OrZero(f.hraPercent) == 0.0 && OrZero(f.otherEarnings) == 0.0;
    assert TotalDeductions(f) == 0.4;
    var p := Calculate(f);
    assert p.gross == 1.5 && p.totalDeductions == 0.4 && p.net == 1.1;
  }

  /** An empty form shows zeros. */
  lemma EmptyFormIsZero(f: Inputs)
    requires f == Inputs(None, None, None, None, None, None, None, None, None, None, None)
    ensures Calculate(f) == Payslip(0.0, 0.0, 0.0, 0.0, 0.0, 0.0)
  {
    assert OrZero(f.basicPay) == 0.0 && OrZero(f.daPercent) == 0.0;
    assert OrZero(f.daPendingPercent) == 0.0 && OrZero(f.hraPercent) == 0.0;
    assert Share(0.0, 0.0) == 0.0;
    assert TotalDeductions(f) == 0.0;
  }
}
