/** The housing-loan page: the loan needed for a plot and a house (plot
    cost with a 12% charge, construction, other expenses), its EMI over 30
    years at 7.5%, and what is left of a salary after the EMI or a rent. */
module Housing {
  import opened Wrappers
  import opened JsMath
  import EmiSolver

  const PlotChargePercent: real := 0.12
  const LoanTenureYears: nat := 30
  const AnnualInterestRate: real := 7.5

  /** The five fields of the loan form, `None` when empty or unparseable. */
  datatype PlotInputs = PlotInputs(landArea: Option<real>, costPerCent: Option<real>, builtUpArea: Option<real>,
                                   costPerSqft: Option<real>, otherExpenses: Option<real>)

  /** `str.replace(/,/g, '')`. */
  function RemoveCommas(s: string): (r: string)
    ensures ',' !in r
    ensures |r| <= |s|
    ensures forall c :: c in r ==> c in s
    ensures ',' !in s ==> r == s
  {
    if s == [] then []
    else if s[0] == ',' then RemoveCommas(s[1..])
    else [s[0]] + RemoveCommas(s[1..])
  }

  /** Removing commas piece by piece is removing them from the whole, so
      grouping separators anywhere in the number all go. */
  lemma {:induction false} RemoveCommasAppend(a: string, b: string)
    ensures RemoveCommas(a + b) == RemoveCommas(a) + RemoveCommas(b)
  {
    if a != [] {
      assert (a + b)[1..] == a[1..] + b;
      RemoveCommasAppend(a[1..], b);
    } else {
      assert a + b == b;
    }
  }

  /** Removing commas twice is removing them once. */
  lemma RemoveCommasIdempotent(s: string)
    ensures RemoveCommas(RemoveCommas(s)) == RemoveCommas(s)
  {
  }

  /** `parseIndianNumber`: 0 for an empty field, otherwise `parseFloat`
      (the parameter `parse`) of the text without commas, 0 when that is
      not a number. */
  function ParseIndianNumber(s: string, parse: string -> Option<real>): (v: real)
    ensures s == "" ==> v == 0.0
    ensures s != "" && parse(RemoveCommas(s)).None? ==> v == 0.0
    ensures s != "" && parse(RemoveCommas(s)).Some? ==> v == parse(RemoveCommas(s)).value
  {
    if s == "" then 0.0 else OrZero(parse(RemoveCommas(s)))
  }

  /** Text typed with or without Indian digit grouping reads the same. */
  lemma GroupingIgnored(digits: string, grouped: string, parse: string -> Option<real>)
    requires ',' !in digits && digits != "" && grouped != "" && RemoveCommas(grouped) == digits
    ensures ParseIndianNumber(grouped, parse) == ParseIndianNumber(digits, parse)
  {
  }

  /** `netPlotCost`: the plot cost with the 12% charge, written as the
      literal `1.12`. */
  function NetPlotCost(landArea: real, costPerCent: real): (c: real)
    ensures c == landArea * costPerCent + landArea * costPerCent * PlotChargePercent
  {
    landArea * costPerCent * 1.12
  }

  /** `principal`: plot, construction and other expenses. */
  function LoanPrincipal(f: PlotInputs): (p: real)
    ensures p == NetPlotCost(OrZero(f.landArea), OrZero(f.costPerCent))
                 + OrZero(f.builtUpArea) * OrZero(f.costPerSqft) + OrZero(f.otherExpenses)
    ensures f == PlotInputs(None, None, None, None, None) ==> p == 0.0
  {
    NetPlotCost(OrZero(f.landArea), OrZero(f.costPerCent))
      + OrZero(f.builtUpArea) * OrZero(f.costPerSqft) + OrZero(f.otherExpenses)
  }

  /** The EMI over 360 months at 7.5% a year, 0 for a principal that is
      not positive. */
  function HousingEmi(principal: real): (emi: real)
    ensures principal <= 0.0 ==> emi == 0.0
    ensures principal > 0.0 ==> emi > principal * EmiSolver.MonthlyRate(AnnualInterestRate)
  {
    if principal > 0.0 then
      var r := AnnualInterestRate / 12.0 / 100.0;
      var x := Pow(1.0 + r, LoanTenureYears * 12);
      EmiSolver.GrowthAboveOne(r, LoanTenureYears * 12);
      EmiSolver.EmiAboveInterest(principal, r, x);
      EmiSolver.Instalment(principal, r, x)
    else 0.0
  }

  /** The page's EMI is the loan calculator's `calcEMI` for the fixed rate
      and tenure, so the loan calculator's `calcPrincipal` gives the
      principal back. */
  lemma HousingEmiIsCalcEmi(principal: real)
    requires principal > 0.0
    ensures EmiSolver.CalcEMI(principal, AnnualInterestRate, 360) == EmiSolver.Finite(HousingEmi(principal))
    ensures EmiSolver.CalcPrincipal(HousingEmi(principal), AnnualInterestRate, 360) == EmiSolver.Finite(principal)
  {
    var r := AnnualInterestRate / 12.0 / 100.0;
    EmiSolver.GrowthAboveOne(r, 360);
    EmiSolver.PrincipalOfEmi(principal, AnnualInterestRate, 360);
  }

  /** The three balances `updateBalances` shows. */
  datatype Balances = Balances(balanceEmi: real, balanceRent: real, finalBalance: real)

  /** The page's closure state: the EMI of the last `calculate`. */
  class Page {
    var currentEmi: real
    const parse: string -> Option<real>

    constructor (parse: string -> Option<real>)
      ensures currentEmi == 0.0 && this.parse == parse
    {
      currentEmi := 0.0;
      this.parse := parse;
    }

    /** `calculate` (without its call to `updateBalances`): stores the EMI
        of the loan the form describes and returns the principal and EMI
        shown. */
    method Calculate(f: PlotInputs) returns (principal: real, emi: real)
      modifies this
      ensures principal == LoanPrincipal(f) && emi == HousingEmi(principal)
      ensures currentEmi == emi
    {
      principal := LoanPrincipal(f);
      emi := HousingEmi(principal);
      currentEmi := emi;
    }

    /** `updateBalances`: reads only the stored EMI, never recomputes it,
        and the final balance comes to the EMI less the rent. */
    method UpdateBalances(netSalary: string, rent: string) returns (b: Balances)
      ensures b.balanceEmi == ParseIndianNumber(netSalary, parse) - currentEmi
      ensures b.balanceRent == ParseIndianNumber(netSalary, parse) - ParseIndianNumber(rent, parse)
      ensures b.finalBalance == currentEmi - ParseIndianNumber(rent, parse)
    {
      var net := ParseIndianNumber(netSalary, parse);
      var rentValue := ParseIndianNumber(rent, parse);
      var balanceEmi := net - currentEmi;
      var balanceRent := net - rentValue;
      b := Balances(balanceEmi, balanceRent, balanceRent - balanceEmi);
    }
  }

  /** A salary or rent field with the clear-on-focus, restore-on-blur
      behaviour of `setupImprovedUX`. */
  datatype FieldState = FieldState(value: string, tempValue: string)

  /** `clearInput`, run on both focus and click. */
  function ClearField(s: FieldState): (t: FieldState)
    ensures t.value == "" && t.tempValue == s.value
  {
    FieldState("", s.value)
  }

  /** The blur handler: restore the saved text only if the field is empty. */
  function BlurField(s: FieldState): (t: FieldState)
    ensures t.tempValue == s.tempValue
    ensures s.value == "" ==> t.value == s.tempValue
    ensures s.value != "" ==> t.value == s.value
  {
    if s.value == "" then s.(value := s.tempValue) else s
  }

  /** Leaving a field untouched after a focus restores its text. */
  lemma ClearThenBlurRestores(s: FieldState)
    ensures BlurField(ClearField(s)).value == s.value
  {
  }

  /** Typing after a focus keeps the typed text. */
  lemma TypedTextKept(s: FieldState, typed: string)
    requires typed != ""
    ensures BlurField(ClearField(s).(value := typed)).value == typed
  {
  }

  /** A focus followed by a click saves the already-emptied field, so the
      original text is lost on blur. */
  lemma DoubleClearLosesValue(s: FieldState)
    ensures BlurField(ClearField(ClearField(s))).value == ""
  {
  }

  /** The same handlers on a field object. */
  class SelectField {
    var value: string
    var tempValue: string

    constructor (value: string)
      ensures this.value == value && tempValue == ""
    {
      this.value := value;
      tempValue := "";
    }

    function State(): FieldState
      reads this
    {
      FieldState(value, tempValue)
    }

    method Clear()
      modifies this
      ensures State() == ClearField(old(State()))
    {
      tempValue := value;
      value := "";
    }

    method Blur()
      modifies this
      ensures State() == BlurField(old(State()))
    {
      if value == "" {
        value := tempValue;
      }
    }
  }
}
