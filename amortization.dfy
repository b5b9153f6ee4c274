/** The amortization page: the month-by-month repayment schedule of a loan
    and its grouping into years. */
module Amortization {
  import opened Wrappers
  import opened JsMath

  /** The loan the EMI page hands over: principal, annual rate in percent,
      tenure in years (not necessarily whole) and monthly instalment. */
  datatype LoanData = LoanData(principal: real, rate: real, tenure: real, emi: real)

  /** One schedule row: month number, interest, principal repaid, balance. */
  datatype Entry = Entry(no: int, interest: real, principal: real, balance: real)

  /** One row of the yearly view. */
  datatype YearRow = YearRow(year: int, interest: real, principal: real, balance: real)

  datatype View = Monthly | Yearly

  datatype Table = MonthlyTable(months: seq<Entry>) | YearlyTable(years: seq<YearRow>)

  /** The page's input guard: no stored loan, or a zero (falsy) principal,
      rate or tenure, gives "Please calculate EMI first." and no table. */
  predicate HasSchedule(data: Option<LoanData>)
  {
    data.Some? && data.value.principal != 0.0 && data.value.rate != 0.0 && data.value.tenure != 0.0
  }

  /** `Math.ceil(tenure * 12)`. */
  function TotalMonths(tenure: real): int
  {
    Ceil(tenure * 12.0)
  }

  /** The balance a month opens with: the principal for the first, the
      previous month's closing balance after that. */
  function Opening(schedule: seq<Entry>, k: nat, principal: real): real
    requires k <= |schedule|
  {
    if k == 0 then principal else schedule[k - 1].balance
  }

  /** The rule for month `no` of `total` opening with `opening`: interest is
      opening times the monthly rate; the principal repaid is the rest of the
      instalment, or the whole balance in the last month or when the balance
      is smaller; the new balance is what is left, never below zero. */
  predicate IsMonth(e: Entry, no: int, opening: real, r: real, emi: real, total: int)
  {
    var scheduled := emi - opening * r;
    var paid := if no == total || opening < scheduled then opening else scheduled;
    e == Entry(no, opening * r, paid, if opening - paid < 0.0 then 0.0 else opening - paid)
  }

  /** Entry `k` of `schedule` follows the month rule. */
  predicate MonthOk(schedule: seq<Entry>, k: nat, principal: real, r: real, emi: real, total: int)
    requires k < |schedule|
  {
    IsMonth(schedule[k], k + 1, Opening(schedule, k, principal), r, emi, total)
  }

  /** Every entry of `schedule` follows the month rule. */
  predicate FollowsRule(schedule: seq<Entry>, principal: real, r: real, emi: real, total: int)
  {
    forall k :: 0 <= k < |schedule| ==> MonthOk(schedule, k, principal, r, emi, total)
  }

  lemma FollowsRuleAppend(schedule: seq<Entry>, e: Entry, principal: real, r: real, emi: real, total: int)
    requires FollowsRule(schedule, principal, r, emi, total)
    requires IsMonth(e, |schedule| + 1, Opening(schedule, |schedule|, principal), r, emi, total)
    ensures FollowsRule(schedule + [e], principal, r, emi, total)
  {
    var t := schedule + [e];
    forall k | 0 <= k < |t|
      ensures MonthOk(t, k, principal, r, emi, total)
    {
      if k < |schedule| {
        assert MonthOk(schedule, k, principal, r, emi, total);
        assert t[k] == schedule[k];
        assert Opening(t, k, principal) == Opening(schedule, k, principal);
      }
    }
  }

  /** A schedule that follows the month rule numbers its months from 1,
      never shows a negative balance, and closes at zero in month `total`. */
  lemma FollowsRuleFacts(schedule: seq<Entry>, principal: real, r: real, emi: real, total: int)
    requires FollowsRule(schedule, principal, r, emi, total)
    ensures forall k :: 0 <= k < |schedule| ==> schedule[k].no == k + 1
    ensures forall k :: 0 <= k < |schedule| ==> schedule[k].balance >= 0.0
    ensures |schedule| == total && total > 0 ==> schedule[|schedule| - 1].balance == 0.0
  {
    forall k | 0 <= k < |schedule|
      ensures schedule[k].no == k + 1 && schedule[k].balance >= 0.0
    {
      assert MonthOk(schedule, k, principal, r, emi, total);
    }
    if |schedule| == total && total > 0 {
      var k := |schedule| - 1;
      assert MonthOk(schedule, k, principal, r, emi, total);
    }
  }

  /** Total interest of a run of months. */
  function SumInterest(s: seq<Entry>): real
  {
    if s == [] then 0.0 else SumInterest(s[..|s| - 1]) + s[|s| - 1].interest
  }

  /** Total principal repaid over a run of months. */
  function SumPrincipal(s: seq<Entry>): real
  {
    if s == [] then 0.0 else SumPrincipal(s[..|s| - 1]) + s[|s| - 1].principal
  }

  /** The principal repaid over the first `k` months is what the balance
      has come down by: no month repays more than its opening balance, so
      the clamp at zero never changes a balance. */
  lemma {:induction false} RepaidSoFar(schedule: seq<Entry>, k: nat, principal: real, r: real, emi: real, total: int)
    requires FollowsRule(schedule, principal, r, emi, total) && k <= |schedule|
    ensures SumPrincipal(schedule[..k]) == principal - Opening(schedule, k, principal)
  {
    if k > 0 {
      RepaidSoFar(schedule, k - 1, principal, r, emi, total);
      assert MonthOk(schedule, k - 1, principal, r, emi, total);
      assert schedule[..k][..k - 1] == schedule[..k - 1];
    }
  }

  /** A schedule that ends at a zero balance repays exactly the principal. */
  lemma RepaidInFull(schedule: seq<Entry>, principal: real, r: real, emi: real, total: int)
    requires FollowsRule(schedule, principal, r, emi, total)
    requires |schedule| > 0 && schedule[|schedule| - 1].balance == 0.0
    ensures SumPrincipal(schedule) == principal
  {
    RepaidSoFar(schedule, |schedule|, principal, r, emi, total);
    assert schedule[..|schedule|] == schedule;
  }

  /** `calculateAmortization`: one entry per month, numbered from 1, each
      following the month rule from the previous balance; balances are never
      negative and the loan is paid off in the last month. */
  method CalculateAmortization(data: LoanData) returns (schedule: seq<Entry>)
    ensures |schedule| == if TotalMonths(data.tenure) > 0 then TotalMonths(data.tenure) else 0
    ensures FollowsRule(schedule, data.principal, data.rate / 12.0 / 100.0, data.emi, TotalMonths(data.tenure))
    ensures forall k :: 0 <= k < |schedule| ==> schedule[k].no == k + 1
    ensures forall k :: 0 <= k < |schedule| ==> schedule[k].balance >= 0.0
    ensures |schedule| > 0 ==> schedule[|schedule| - 1].balance == 0.0
    ensures |schedule| > 0 ==> SumPrincipal(schedule) == data.principal
  {
    var r := data.rate / 12.0 / 100.0;
    var balance := data.principal;
    schedule := [];
    var totalMonths := TotalMonths(data.tenure);
    var i := 1;
    while i <= totalMonths
      invariant 1 <= i && |schedule| == i - 1
      invariant totalMonths >= 1 ==> i <= totalMonths + 1
      invariant totalMonths < 1 ==> i == 1
      invariant balance == Opening(schedule, i - 1, data.principal)
      invariant FollowsRule(schedule, data.principal, r, data.emi, totalMonths)
      decreases totalMonths - i
    {
      var interest := balance * r;
      var principalPaid := data.emi - interest;
      if i == totalMonths || balance < principalPaid {
        principalPaid := balance;
      }
      ghost var opening := balance;
      balance := balance - principalPaid;
      if balance < 0.0 {
        balance := 0.0;
      }
      var entry := Entry(i, interest, principalPaid, balance);
      FollowsRuleAppend(schedule, entry, data.principal, r, data.emi, totalMonths);
      schedule := schedule + [entry];
      i := i + 1;
    }
    FollowsRuleFacts(schedule, data.principal, r, data.emi, totalMonths);
    if |schedule| > 0 {
      RepaidInFull(schedule, data.principal, r, data.emi, totalMonths);
    }
  }

  /** The number of yearly rows: one per twelve months and one for a
      trailing part-year, i.e. ceil(months / 12). */
  function YearCount(months: nat): nat
  {
    (months + 11) / 12
  }

  /** Where year `y` (counted from 0) ends in a schedule of `n` months. */
  function YearEnd(n: nat, y: nat): nat
  {
    if 12 * y + 12 <= n then 12 * y + 12 else n
  }

  /** Yearly row `y`: year number y + 1, the sums over its months, and the
      balance after its last month. */
  function YearOf(s: seq<Entry>, y: nat): YearRow
    requires y < YearCount(|s|)
  {
    var lo, hi := 12 * y, YearEnd(|s|, y);
    YearRow(y + 1, SumInterest(s[lo..hi]), SumPrincipal(s[lo..hi]), s[hi - 1].balance)
  }

  lemma SumsStep(s: seq<Entry>, lo: nat, hi: nat)
    requires lo <= hi < |s|
    ensures SumInterest(s[lo..hi + 1]) == SumInterest(s[lo..hi]) + s[hi].interest
    ensures SumPrincipal(s[lo..hi + 1]) == SumPrincipal(s[lo..hi]) + s[hi].principal
  {
    assert s[lo..hi + 1][..hi - lo] == s[lo..hi];
  }

  /** `renderYearly` without the markup: accumulate interest and principal
      month by month and emit a row at every twelfth month and at the last. */
  method RenderYearly(schedule: seq<Entry>) returns (rows: seq<YearRow>)
    ensures |rows| == YearCount(|schedule|)
    ensures forall y :: 0 <= y < |rows| ==> rows[y] == YearOf(schedule, y)
  {
    var yearlyInterest, yearlyPrincipal := 0.0, 0.0;
    var year := 1;
    rows := [];
    for index := 0 to |schedule|
      invariant index < |schedule| ==> |rows| == index / 12
      invariant index == |schedule| ==> |rows| == YearCount(|schedule|)
      invariant year == |rows| + 1
      invariant index < |schedule| ==>
        && yearlyInterest == SumInterest(schedule[12 * |rows|..index])
        && yearlyPrincipal == SumPrincipal(schedule[12 * |rows|..index])
      invariant |rows| <= YearCount(|schedule|)
      invariant forall y :: 0 <= y < |rows| ==> rows[y] == YearOf(schedule, y)
    {
      var item := schedule[index];
      SumsStep(schedule, 12 * |rows|, index);
      yearlyInterest := yearlyInterest + item.interest;
      yearlyPrincipal := yearlyPrincipal + item.principal;
      if (index + 1) % 12 == 0 || index + 1 == |schedule| {
        assert |rows| < YearCount(|schedule|);
        assert YearEnd(|schedule|, |rows|) == index + 1;
        assert YearOf(schedule, |rows|) == YearRow(year, yearlyInterest, yearlyPrincipal, item.balance);
        ghost var before := rows;
        rows := rows + [YearRow(year, yearlyInterest, yearlyPrincipal, item.balance)];
        assert forall y :: 0 <= y < |before| ==> rows[y] == before[y];
        yearlyInterest, yearlyPrincipal := 0.0, 0.0;
        year := year + 1;
      }
    }
  }

  /** Total interest of a run of yearly rows. */
  function RowsInterest(rows: seq<YearRow>): real
  {
    if rows == [] then 0.0 else RowsInterest(rows[..|rows| - 1]) + rows[|rows| - 1].interest
  }

  /** Total principal of a run of yearly rows. */
  function RowsPrincipal(rows: seq<YearRow>): real
  {
    if rows == [] then 0.0 else RowsPrincipal(rows[..|rows| - 1]) + rows[|rows| - 1].principal
  }

  /** Sums over consecutive runs of months add up. */
  lemma {:induction false} SumsSplit(s: seq<Entry>, a: nat, b: nat)
    requires a <= b <= |s|
    ensures SumInterest(s[..b]) == SumInterest(s[..a]) + SumInterest(s[a..b])
    ensures SumPrincipal(s[..b]) == SumPrincipal(s[..a]) + SumPrincipal(s[a..b])
    decreases b - a
  {
    if a == b {
      assert s[a..b] == [];
    } else {
      SumsSplit(s, a, b - 1);
      SumsStep(s, a, b - 1);
      assert s[..b][..b - 1] == s[..b - 1];
    }
  }

  /** The first `m` yearly rows cover the first `min(12 m, n)` months. */
  lemma {:induction false} YearlyPrefix(s: seq<Entry>, rows: seq<YearRow>, m: nat)
    requires |rows| == YearCount(|s|) && m <= |rows|
    requires forall y :: 0 <= y < |rows| ==> rows[y] == YearOf(s, y)
    ensures var covered := if 12 * m <= |s| then 12 * m else |s|;
      RowsInterest(rows[..m]) == SumInterest(s[..covered])
      && RowsPrincipal(rows[..m]) == SumPrincipal(s[..covered])
  {
    if m > 0 {
      YearlyPrefix(s, rows, m - 1);
      assert rows[..m][..m - 1] == rows[..m - 1];
      assert rows[m - 1] == YearOf(s, m - 1);
      SumsSplit(s, 12 * (m - 1), YearEnd(|s|, m - 1));
    }
  }

  /** The yearly view loses nothing: its interest and principal columns
      add up to those of the monthly schedule. */
  lemma YearlyTotals(s: seq<Entry>, rows: seq<YearRow>)
    requires |rows| == YearCount(|s|)
    requires forall y :: 0 <= y < |rows| ==> rows[y] == YearOf(s, y)
    ensures RowsInterest(rows) == SumInterest(s)
    ensures RowsPrincipal(rows) == SumPrincipal(s)
  {
    YearlyPrefix(s, rows, |rows|);
    assert rows[..|rows|] == rows;
    assert s[..|s|] == s;
  }

  /** The whole page for the chosen view; `None` is the guard's message.
      `schedule` is the monthly schedule both views are drawn from. */
  method Render(data: Option<LoanData>, view: View) returns (table: Option<Table>, ghost schedule: seq<Entry>)
    ensures table.None? <==> !HasSchedule(data)
    ensures table.Some? && view == Monthly ==> table.value.MonthlyTable?
    ensures table.Some? && view == Yearly ==> table.value.YearlyTable?
    ensures table.Some? ==>
      var d := data.value;
      && |schedule| == (if TotalMonths(d.tenure) > 0 then TotalMonths(d.tenure) else 0)
      && FollowsRule(schedule, d.principal, d.rate / 12.0 / 100.0, d.emi, TotalMonths(d.tenure))
      && (|schedule| > 0 ==> SumPrincipal(schedule) == d.principal)
    ensures table.Some? && view == Monthly ==> table.value.months == schedule
    ensures table.Some? && view == Yearly ==>
      var d := data.value;
      var rows := table.value.years;
      && |rows| == YearCount(|schedule|)
      && (forall y :: 0 <= y < |rows| ==> rows[y] == YearOf(schedule, y))
      && (forall y :: 0 <= y < |rows| ==> rows[y].year == y + 1)
      && RowsInterest(rows) == SumInterest(schedule)
      && (|rows| > 0 ==> rows[|rows| - 1].balance == 0.0 && RowsPrincipal(rows) == d.principal)
  {
    schedule := [];
    if !HasSchedule(data) {
      return None, schedule;
    }
    var months := CalculateAmortization(data.value);
    schedule := months;
    if view == Monthly {
      table := Some(MonthlyTable(months));
    } else {
      var rows := RenderYearly(months);
      YearlyTotals(months, rows);
      if |rows| > 0 {
        assert rows[|rows| - 1] == YearOf(months, |rows| - 1);
      }
      table := Some(YearlyTable(rows));
    }
  }
}
