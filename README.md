# Verified model of a set of browser calculators

This Dafny project models the logic of a small collection of browser
calculators for loans, salaries and pensions:

- **EMI page** (`emi_page.dfy`, `emi_solver.dfy`). The user fills in three of
  principal, annual rate, tenure and EMI (the monthly instalment), and the
  page computes the fourth.
  - `activeInputs` remembers the last three fields edited. It is a bounded,
    duplicate-free FIFO, and the missing fourth key is the field to solve for.
  - The solvers `calcEMI`, `calcPrincipal`, `calcTenure` and the 50-step
    bisection `calcRate` are modelled.
  - So are the input check, the acceptance test on the solved value, and the
    total-interest summary.
- **Amortization page** (`amortization.dfy`). The month-by-month repayment
  schedule, and its grouping into yearly rows.
- **Four-function calculator** (`calculator.dfy`). The three variables
  `currentOperand`, `previousOperand` and `operation`, and the key handlers
  that edit them.
- **Pay revision** (`pay_revision.dfy`). Pay before and after a revision,
  with the fixed pay rounded up to a multiple of 100.
- **Pension and DCRG** (`dcrg.dfy`). Pension, commutation, the death-cum-
  retirement gratuity and their caps.
- **Housing loan** (`housing.dfy`). Plot and construction cost, a fixed
  30-year EMI at 7.5%, and the salary balances. Also the clear-on-focus /
  restore-on-blur behaviour of the salary and rent fields.
- **Salary** (`salary.dfy`). Gross pay, deductions and net pay.
- **SIP** (`sip.dfy`). The value of a monthly investment compounded monthly.

Shared pieces:

- `js_math.dfy`: `Math.round`, `Math.ceil`, `parseFloat(..) || 0` and a
  whole-exponent power.
- `wrappers.dfy`: the `Option` type used for `null`, NaN and empty fields.

Modelling conventions:

- Money and rates are `real`.
- Exponents are whole months (`nat`), so `(1 + r)^n` is a recursive power.
- `Math.round(x)` is `(x + 1/2).Floor` and `Math.ceil(x)` is `-((-x).Floor)`.
- A field whose `parseFloat` is NaN is `None`.
- Each page's DOM-writing function becomes a function or method that returns
  the values it would display.
- State the source mutates in place is a class with `modifies` clauses. This
  covers `activeInputs`, the calculator's three variables, the housing page's
  stored EMI, its select fields, and the SIP page.

## Model

| member | source | states |
|---|---|---|
| JsMath.Round | pay-revision/script.js:30-32 | `Math.round` gives the integer k with k - 1/2 <= x < k + 1/2 (halves round up) |
| JsMath.Ceil | emi/amortization.js:24 | `Math.ceil` gives the least integer k with x <= k < x + 1 |
| JsMath.OrZero | pay-revision/script.js:16 | an empty or unparseable field counts as 0, any other field as its value |
| EmiSolver.MonthlyRate | emi/script.js:208 | the monthly rate r satisfies 1200 r = R |
| EmiSolver.CalcEMI | emi/script.js:207-213 | zero months gives a non-finite result; a zero rate gives P/n; a positive rate gives a finite EMI, above the first month's interest P·r for P > 0 |
| EmiSolver.CalcPrincipal | emi/script.js:215-221 | a zero rate gives E·n; a positive rate gives a finite principal |
| EmiSolver.CalcTenure | emi/script.js:223-243 | `null` exactly when r != 0 and E - P·r <= 0; a zero rate gives P/E/12 (non-finite when E = 0); otherwise the logarithm's base is 1 + r, never 1 |
| EmiSolver.BisectBracket | emi/script.js:264-273 | after k halvings, low <= low' < high' <= high and the width is (high - low)/2^k; high' is the start or a mid whose instalment exceeds E; low' is the start or a mid whose instalment does not |
| EmiSolver.RateSpec | emi/script.js:245-277 | `null` exactly when E·n < P; otherwise an annual rate strictly between 0.00012% and 240% |
| EmiSolver.CalcRate | emi/script.js:245-277 | the loop over 50 halvings returns exactly the bisection result of `RateSpec` |
| EmiSolver.PrincipalOfEmi | emi/script.js:207-221 | for R >= 0 and n >= 1 months, `calcPrincipal(calcEMI(P, R, n), R, n) = P` |
| EmiSolver.EmiOfPrincipal | emi/script.js:207-221 | for R >= 0 and n >= 1 months, `calcEMI(calcPrincipal(E, R, n), R, n) = E` |
| EmiSolver.TenureOfEmi | emi/script.js:207-243 | for P > 0, `calcTenure` on the EMI of an n-month loan is feasible: n/12 years at zero rate, else log base (1+r) of (1+r)^n, over 12 |
| EmiSolver.TenureAtPositiveRate | emi/script.js:207-243 | at a positive rate, the tenure of an n-month loan's EMI is log base (1+r) of (1+r)^n |
| EmiSolver.TenureOfInstalment | emi/script.js:235-242 | the tenure of the instalment for growth factor x > 1 has exactly x as the logarithm's argument |
| EmiSolver.GrowthRecovered | emi/script.js:227-233 | for P, r > 0 and X > 1, E = P·r·X/(X - 1) gives E - P·r > 0 and E/(E - P·r) = X |
| EmiPage.Without | emi/script.js:35 | the filter keeps exactly the keys other than `id`, keeps a list without `id` unchanged, keeps it duplicate-free, and shortens a duplicate-free list containing `id` by one |
| EmiPage.WithoutRemovesSlot | emi/script.js:35 | removing a key that occurs once removes just its slot; the others keep their order |
| EmiPage.Updated | emi/script.js:33-46 | `id` ends up last and occurs once; every key comes from the old list or is `id`; length <= 3 and no duplicates are kept |
| EmiPage.UpdatedEvictsOldest | emi/script.js:35-45 | a new key on a full list drops only index 0 (s[1..] + [id]); on a shorter list it is appended; an existing key moves to the end and the others keep their order |
| EmiPage.FindMissing | emi/script.js:85-86 | `find` returns the first key of the list, in that order, that is not active, and `undefined` only when every key is active |
| EmiPage.TargetIsMissingKey | emi/script.js:77-88 | with three distinct active keys the target exists, is not active, and is the only key that is not active |
| EmiPage.EvictedKeyBecomesTarget | emi/script.js:43-86 | when a fourth distinct key arrives, the evicted oldest key becomes the computed target |
| EmiPage.Validate | emi/script.js:185-187 | accepts exactly when every argument is a number and >= 0 |
| EmiPage.ValidateThree | emi/script.js:185-187 | `validate` of three values, spelled out |
| EmiPage.Solve | emi/script.js:103-115 | the target's solver only yields a value when `validate` accepts the three inputs of that target (EMI: P, R, T; principal: E, R, T; tenure: P, R, E; rate: P, T, E) |
| EmiPage.Calculate | emi/script.js:75-155 | fewer than three active fields does nothing; three distinct ones always pick an inactive target; the target's solver is run on the other three fields only when `validate` accepts them (EMI from P, R, T; principal from E, R, T; tenure from P, R, E; rate from P, T, E); a solved value is a positive, finite solver result; otherwise the combination is rejected |
| EmiPage.InvalidInputsRejected | emi/script.js:103-126 | whatever the target, an input that `validate` refuses (NaN or negative) makes `calculate` reject it |
| EmiPage.EmiRejectedWithoutMonthsOrLoan | emi/script.js:103-126 | the EMI over zero months (Infinity or NaN) or of a zero loan (0) is rejected |
| EmiPage.PrincipalRejectedWithoutMonthsOrEmi | emi/script.js:106-126 | the principal for a zero EMI or over zero months is 0 and is rejected |
| EmiPage.EmiAlwaysSolved | emi/script.js:103-126 | with P > 0, R >= 0 and at least one month, the EMI is accepted and equals `calcEMI` |
| EmiPage.EmiPositive | emi/script.js:207-213 | the EMI of a positive loan over at least one month is finite and positive |
| EmiPage.PrincipalRoundTrip | emi/script.js:103-126 | solving for the principal from the EMI of a positive loan gives that loan back through `calculate` |
| EmiPage.RateSolvedOrRejected | emi/script.js:113-126 | solving for the rate is rejected exactly when E·n < P; otherwise the answer is the bisection result of `calcRate`, a rate in (0.00012, 240) percent |
| EmiPage.TenureSolvedOrRejected | emi/script.js:110-126 | solving for the tenure at a positive rate is rejected exactly when E - P·r <= 0 or P = 0; otherwise the answer is ln(E/(E - P·r)) / ln(1 + r) / 12 years |
| EmiPage.TenureAtZeroRate | emi/script.js:110-126 | solving for the tenure at a zero rate succeeds exactly when P > 0 and E > 0, with the answer P/E/12 years |
| EmiPage.UpdateSummary | emi/script.js:157-179 | the card is hidden exactly when P, T or E is falsy or E·T·12 - P < 0; otherwise total payment = E·T·12 (non-zero), interest = payment - P >= 0, the percentage is interest / payment · 100 and lies in [0, 100] when P >= 0, and the shown percentage is within half a point of it |
| EmiPage.PercentBounded | emi/script.js:174 | interest as a share of payment is between 0 and 100 percent |
| EmiPage.InputTracker.constructor | emi/script.js:31 | `activeInputs` starts empty |
| EmiPage.InputTracker.Load | emi/script.js:68-73 | the load handler empties `activeInputs` |
| EmiPage.InputTracker.UpdateActiveInputs | emi/script.js:33-46 | the new list is `Updated(old, id)`, so the invariant (<= 3 keys, no duplicates) is kept |
| EmiPage.InputTracker.HandleInput | emi/script.js:48-61 | an empty value removes the field and computes nothing; any other value updates the list and runs `calculate` on it |
| Amortization.FollowsRuleFacts | emi/amortization.js:26-42 | a schedule built by the month rule numbers months from 1, never has a negative balance, and ends at balance 0 in the last month |
| Amortization.FollowsRuleAppend | emi/amortization.js:26-42 | appending a month built by the rule from the last balance keeps the whole schedule following the rule |
| Amortization.RepaidSoFar | emi/amortization.js:27-35 | the principal repaid over the first k months equals how far the balance has fallen: the zero clamp never fires |
| Amortization.RepaidInFull | emi/amortization.js:30-35 | a schedule that ends at zero repays exactly the principal |
| Amortization.CalculateAmortization | emi/amortization.js:18-43 | `ceil(tenure*12)` entries (none if that is not positive), numbered 1.. in order; each month's interest is opening·r, its principal is the rest of the EMI or the whole balance in the last month or when the balance is smaller, and the balance is clamped at 0; balances are never negative, the last one is 0, and the principal column sums to the loan |
| Amortization.SumsSplit | emi/amortization.js:70-72 | sums of interest and principal over adjacent runs of months add up |
| Amortization.RenderYearly | emi/amortization.js:65-89 | ceil(months/12) rows; row y is year y + 1 with the interest and principal summed over its months and the balance of its last month |
| Amortization.YearlyTotals | emi/amortization.js:70-86 | the yearly rows' interest and principal columns add up to the monthly totals |
| Amortization.Render | emi/amortization.js:8-50 | no table exactly when there is no stored loan or its principal, rate or tenure is 0; otherwise both views come from one schedule of ceil(tenure·12) months that follows the month rule and repays the principal: the monthly view is that schedule, the yearly view has one row per year holding that year's interest and principal sums and closing balance (so its interest column totals the schedule's interest), numbered from year 1 and ending at balance 0 |
| Calculator.Clear | calculator/script.js:8-13 | resets to ('0', '', no operation), which satisfies the invariant |
| Calculator.DeleteLast | calculator/script.js:15-23 | no-op on '0' and on ''; a single character becomes '0'; otherwise exactly the last character is dropped; never lengthens the operand |
| Calculator.DeleteLastKeepsDots | calculator/script.js:15-23 | deleting never adds a '.' |
| Calculator.AppendNumber | calculator/script.js:25-33 | a second '.' is ignored; a lone '0' is replaced by a non-'.' key; otherwise the key is appended |
| Calculator.AppendNumberKeepsOneDot | calculator/script.js:25-33 | typing single keys never produces a second '.' |
| Calculator.DeleteUndoesAppend | calculator/script.js:15-33 | on an operand other than '0' and '', backspace undoes a typed key |
| Calculator.Arith | calculator/script.js:68-83 | the switch is defined exactly for + - * /; division by zero gives Infinity, -Infinity or NaN by the sign of the dividend |
| Calculator.Calculate | calculator/script.js:62-89 | nothing changes if either operand is unparseable or the operator is unknown; when both parse and the operator is + - * /, the state is exactly (the result as a string, '', undefined); keeps the invariant |
| Calculator.AppendOperator | calculator/script.js:35-44 | ignored on ''; otherwise the operation becomes `op`, the operand is emptied, and the previous operand is the operand, or the result of the pending operation |
| Calculator.ApplyPercentage | calculator/script.js:46-60 | no-op on '0' or ''; prev·cur/100 with a pending + or -; cur/100 otherwise; NaN for an unparseable operand |
| Calculator.ShareOf | calculator/script.js:54 | 100% of prev is prev, and 0..100% of a non-negative prev lies between 0 and prev |
| Calculator.DisplayOperator | calculator/script.js:91-95 | '*' shows as '×', '/' as '÷', anything else unchanged |
| Calculator.PreviousDisplay | calculator/script.js:97-104 | empty when no operation is pending, otherwise the previous operand and the operator's symbol |
| Calculator.HandlersKeepConsistent | calculator/script.js:1-104 | every handler keeps "an operator is pending exactly when there is a previous operand" |
| Calculator.HandlersKeepOneDot | calculator/script.js:8-89 | with keys typed one character at a time and `toString` giving at most one '.', every handler keeps at most one '.' in the current operand |
| Calculator.Page.constructor | calculator/script.js:1-3 | the variables start as ('0', '', undefined) |
| Calculator.Page.ClearDisplay | calculator/script.js:8-13 | the state becomes `Clear()` |
| Calculator.Page.DeleteLastKey | calculator/script.js:15-23 | the state becomes `DeleteLast` of the old state; the invariant is kept |
| Calculator.Page.AppendNumberKey | calculator/script.js:25-33 | for the one character of a button or key, the state becomes `AppendNumber` of the old state; the invariant, including at most one '.', is kept |
| Calculator.Page.CalculateKey | calculator/script.js:62-89 | the state becomes `Calculate` of the old state; the invariant is kept |
| Calculator.Page.AppendOperatorKey | calculator/script.js:35-44 | the state becomes `AppendOperator` of the old state; the invariant is kept |
| Calculator.Page.ApplyPercentageKey | calculator/script.js:46-60 | the state becomes `ApplyPercentage` of the old state; the invariant is kept |
| PayRevision.Allowance | pay-revision/script.js:30-32 | an allowance is within half a rupee of its exact percentage share, and not negative for non-negative inputs |
| PayRevision.FixAt | pay-revision/script.js:49 | the fixed pay is a multiple of 100 with actualTotal <= bpFixed < actualTotal + 100 |
| PayRevision.FixAtIsLeast | pay-revision/script.js:49 | no smaller multiple of 100 covers the actual total |
| PayRevision.GrowthPercent | pay-revision/script.js:57 | growth% · grossOld = 100 · growth when grossOld > 0, and 0 otherwise |
| PayRevision.PayBefore | pay-revision/script.js:19-33 | the old DA, pending DA and old HRA are the rounded allowances at 22%, the pending-DA percent and the old-HRA percent of bp; grossOld = bp + the three |
| PayRevision.PayAfter | pay-revision/script.js:24-54 | the merged DA and the fitment are the rounded allowances at 31% and the fitment percent of bp; actualTotal = bp + both; bpFixed rounds it up to a multiple of 100 within 100; balance DA and the new HRA are taken on bpFixed; grossNew = bpFixed + both |
| PayRevision.Revise | pay-revision/script.js:15-57 | the two columns are `PayBefore` and `PayAfter` of the fields with empty ones counted as 0; growth = grossNew - grossOld; growth% as in `GrowthPercent` |
| PayRevision.BeforeAllowancesRounded | pay-revision/script.js:19-32 | the old DA, pending DA and old HRA are each `Math.round` of their percentage of bp |
| PayRevision.AfterAllowancesRounded | pay-revision/script.js:24-53 | the merged DA and the fitment are `Math.round` of their percentage of bp; balance DA and the new HRA of their percentage of bpFixed |
| PayRevision.RevisedPayCoversActual | pay-revision/script.js:44-54 | with no negative input, grossNew >= actualTotal and bpFixed >= bp |
| PayRevision.EmptyFormIsZero | pay-revision/script.js:16-27 | an empty form gives zero gross, fixed pay, growth and growth% |
| Dcrg.Min | dcrg/script.js:50 | the smaller of two values |
| Dcrg.PensionFactor | dcrg/script.js:59-60 | years/30 capped at 1, reaching 1 from 30 years |
| Dcrg.DcrgFactor | dcrg/script.js:73-74 | years/2 capped at 16.5, reaching it from 33 years |
| Dcrg.Gratuity | dcrg/script.js:76-78 | DCRG is at most both avg·factor and 1,600,000, and equals one of them: the smaller |
| Dcrg.Calculate | dcrg/script.js:44-81 | years capped at 35; avg = bp + bp·da/100; pension = avg/2·factor; commutation is 40% of the pension times 11.42 times 12; the balance is the other 60%; total = commutation + DCRG |
| Dcrg.PensionAtMostHalf | dcrg/script.js:59-62 | for non-negative emoluments the pension is at most avg/2, and equals it from 30 years of service |
| Dcrg.MoreServiceNeverLowers | dcrg/script.js:59-78 | more service never lowers the pension, commutation or DCRG |
| Dcrg.ServiceCappedAt35 | dcrg/script.js:50 | service beyond 35 years computes exactly as 35 |
| Dcrg.DisplayValue | dcrg/script.js:84 | a value is shown exactly when it is positive |
| Dcrg.AvgShown | dcrg/script.js:55 | the emoluments field shows the nearest whole rupee |
| Dcrg.Headline | dcrg/script.js:84-89 | each of the four headline figures (total, commutation, DCRG, balance pension) is shown exactly when positive and then shows that figure; a shown DCRG is at most 16 lakh |
| Dcrg.EmptyFormShowsNothing | dcrg/script.js:45-89 | an empty basic pay leaves the dashboard empty |
| Housing.RemoveCommas | housing/script.js:35 | the result has no comma, is no longer than the input, uses only its characters, and equals a comma-free input |
| Housing.RemoveCommasAppend | housing/script.js:35 | removing commas distributes over concatenation |
| Housing.RemoveCommasIdempotent | housing/script.js:35 | removing commas twice is removing them once |
| Housing.ParseIndianNumber | housing/script.js:32-36 | 0 for an empty field or unparseable text, otherwise the parse of the text without commas |
| Housing.GroupingIgnored | housing/script.js:32-36 | a number typed with comma grouping reads the same as without |
| Housing.NetPlotCost | housing/script.js:19-47 | the literal 1.12 equals the base plot cost plus the 12% `PLOT_CHARGE_PERCENT` |
| Housing.LoanPrincipal | housing/script.js:39-53 | principal = net plot cost + built-up area · cost per sq ft + other expenses; an empty form gives 0 |
| Housing.HousingEmi | housing/script.js:55-61 | 0 for a principal <= 0; otherwise above the first month's interest |
| Housing.HousingEmiIsCalcEmi | housing/script.js:20-61 | the EMI is the loan calculator's `calcEMI(P, 7.5, 360)`, and `calcPrincipal` recovers P from it |
| Housing.Page.constructor | housing/script.js:23 | `currentEmi` starts at 0 |
| Housing.Page.Calculate | housing/script.js:38-63 | stores the EMI of the form's principal in `currentEmi` |
| Housing.Page.UpdateBalances | housing/script.js:72-87 | uses the stored EMI without recomputing it: balances net - EMI and net - rent, and the final balance is EMI - rent |
| Housing.ClearField | housing/script.js:102-105 | saves the field's text and empties it |
| Housing.BlurField | housing/script.js:110-115 | restores the saved text only if the field is empty |
| Housing.ClearThenBlurRestores | housing/script.js:100-115 | focusing and leaving a field untouched keeps its text |
| Housing.TypedTextKept | housing/script.js:100-115 | text typed after the clear survives the blur |
| Housing.DoubleClearLosesValue | housing/script.js:107-108 | focus followed by click (two clears) saves '' and the original text is lost on blur |
| Housing.SelectField.constructor | housing/script.js:100 | the saved text starts as '' |
| Housing.SelectField.Clear | housing/script.js:102-105 | the state becomes `ClearField` of the old state |
| Housing.SelectField.Blur | housing/script.js:110-113 | the state becomes `BlurField` of the old state |
| Salary.TotalDeductions | salary/script.js:60-68 | equals the running sum (`SumFields`) over the list of the six deduction fields, an empty field counting as 0; 0 when all are empty |
| Salary.Calculate | salary/script.js:38-72 | DA, pending DA and HRA are bp·pct/100 of their percentages; gross = bp + the three + other earnings = bp·(1 + (da% + dap% + hra%)/100) + other earnings; net + deductions = gross, from unrounded values |
| Salary.Display | salary/script.js:34-36 | each of the six figures (DA, pending DA, HRA, gross, deductions, net) is shown within half a rupee, i.e. rounded half-up to a whole rupee |
| Salary.ShownNetWithinOneRupee | salary/script.js:34-73 | the shown net differs from shown gross minus shown deductions by at most one rupee |
| Salary.ShownNetCanDiffer | salary/script.js:56-73 | that difference occurs: basic pay 1.5 less deduction 0.4 shows 2, 0 and net 1 |
| Salary.EmptyFormIsZero | salary/script.js:39-43 | an empty form gives all zeros |
| Sip.SumPowersClosed | sip/script.js:43-44 | (b + b^2 + ... + b^n)(b - 1) = b(b^n - 1) |
| Sip.SumPowersAboveCount | sip/script.js:45-46 | for b > 1 and n >= 1 the sum of n powers exceeds n |
| Sip.FutureValueIsSum | sip/script.js:43-44 | P·((1+i)^n - 1)/i·(1+i) = P·Σ_{k=1..n}(1+i)^k |
| Sip.Calculate | sip/script.js:28-46 | a result exactly when P, R and Y are positive numbers; total value is the sum of every instalment compounded, invested = P·n, returns = total - invested and is positive |
| Sip.Page.constructor | sip/script.js:1-12 | fields empty, card hidden |
| Sip.Page.Load | sip/script.js:15-18 | the load handler clears every field and hides the card |
| Sip.Page.Recalculate | sip/script.js:28-54 | the card is visible exactly when there is a result, which is then shown; bad input hides the card and leaves the old figures |

## Left out

- DOM wiring is not modelled: element lookups, event listeners, `textContent`, `innerHTML`, CSS classes, status messages and table markup. The model returns the values these would show.
- The `localStorage` hand-off between the EMI and amortization pages is I/O. `Amortization.Render` takes the stored loan as a parameter.
- `calculator/sw.js` (the service worker) is not part of this model. It only drives the browser cache and network.
- The `Math.log` step of `calcTenure` is kept symbolic. The answer is the pair (growth, base), meaning ln(growth)/ln(base)/12 years.
- `Math.pow` with a fractional exponent is not modelled. On the EMI and SIP pages the tenure is held as whole months (years × 12). On the amortization page the tenure stays real and only `Math.ceil(tenure*12)` is used.
- IEEE-754 arithmetic is not modelled: real numbers replace doubles. Infinity and NaN appear only as the `NonFinite` or `JsNumber` results that the pages test for. Rounding error and -0 are not modelled.
- Number formatting is not modelled: `toLocaleString`, `Intl.NumberFormat`, `toFixed(1)` of the growth percentage, and `formatValue`'s rounding of a solved field.
  - After a solve, the EMI page re-reads the formatted fields for the summary. `EmiPage.UpdateSummary` is stated on whatever values it is given.
- `parseFloat` and `toString` in the calculator are the parameters `parse` and `show`. The model assumes of `show` only what `Number.prototype.toString` guarantees and the invariants need: it never gives the empty string and never more than one '.'.
  - `parse` returns `Option<real>`, so an operand reading "Infinity" is treated as not parsing. In the browser it parses as Infinity.
- Keyboard dispatch (calculator/script.js:107-115) is DOM events. `Calculator.Handle` maps each kind of key to its handler. The loose digit test `e.key >= 0 && e.key <= 9` also admits ' ', which coerces to 0; that quirk is not modelled.
- `try`/`catch` in the EMI page's `calculate` is not modelled: nothing in the modelled solvers throws.
- EmiSolver.CalcRate: the result is proved to be the 50-step bisection with the stated bracket invariants. It is not proved to converge to the true rate, because monotonicity of the instalment in the rate is not proved.
- Housing.Page.Calculate: the call to `updateBalances` at the end of `calculate`, and the one in the blur handler, are separate methods here (`UpdateBalances`), not one combined method.
- `currentView` on the amortization page is the `view` parameter of `Amortization.Render`, not a field.
- Sip.Page holds the parsed field values rather than their text. `Sip.Page.Load` sets them to "empty".
