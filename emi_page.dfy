/** The EMI page around the solver: which three of the four fields the user
    last edited (`activeInputs`), which field is therefore computed, the
    input check, the acceptance test on the solved value, and the summary
    of total payment and interest. */
module EmiPage {
  import opened Wrappers
  import opened JsMath
  import opened EmiSolver

  /** The four fields, in the order `Object.keys(fields)` lists them. */
  datatype Key = Principal | Rate | Tenure | Emi

  const AllKeys: seq<Key> := [Principal, Rate, Tenure, Emi]

  predicate NoDuplicates(s: seq<Key>)
  {
    forall i, j :: 0 <= i < j < |s| ==> s[i] != s[j]
  }

  /** What `activeInputs` always is: at most three keys, none twice. */
  predicate ValidActive(s: seq<Key>)
  {
    |s| <= 3 && NoDuplicates(s)
  }

  /** `s.filter(item => item !== id)`. */
  function Without(s: seq<Key>, id: Key): (r: seq<Key>)
    ensures forall k :: k in r <==> k in s && k != id
    ensures id !in s ==> r == s
    ensures NoDuplicates(s) ==> NoDuplicates(r)
    ensures NoDuplicates(s) && id in s ==> |r| == |s| - 1
    ensures |r| <= |s|
  {
    if s == [] then []
    else
      NoDuplicatesTail(s);
      (if s[0] == id then [] else [s[0]]) + Without(s[1..], id)
  }

  lemma NoDuplicatesTail(s: seq<Key>)
    requires s != []
    ensures NoDuplicates(s) ==> NoDuplicates(s[1..]) && s[0] !in s[1..]
  {
    if NoDuplicates(s) {
      forall i, j | 0 <= i < j < |s| - 1 ensures s[1..][i] != s[1..][j] {
        assert s[1..][i] == s[i + 1] && s[1..][j] == s[j + 1];
      }
      forall i | 0 <= i < |s| - 1 ensures s[1..][i] != s[0] {
        assert s[1..][i] == s[i + 1];
      }
    }
  }

  /** Removing a key that occurs once takes out exactly its own slot and
      keeps every other key in its order. */
  lemma {:induction false} WithoutRemovesSlot(s: seq<Key>, id: Key, i: nat)
    requires NoDuplicates(s) && i < |s| && s[i] == id
    ensures Without(s, id) == s[..i] + s[i + 1..]
  {
    NoDuplicatesTail(s);
    if i > 0 {
      WithoutRemovesSlot(s[1..], id, i - 1);
      assert s[..i] == [s[0]] + s[1..][..i - 1];
      assert s[i + 1..] == s[1..][i..];
    } else {
      assert s[..i] + s[i + 1..] == s[1..];
    }
  }

  /** `updateActiveInputs(id)`: drop `id`, append it, and shift out the
      oldest entry when there are four. */
  function Updated(s: seq<Key>, id: Key): (r: seq<Key>)
    ensures |r| > 0 && r[|r| - 1] == id && id !in r[..|r| - 1]
    ensures forall k :: k in r ==> k in s || k == id
    ensures ValidActive(s) ==> ValidActive(r)
  {
    var t := Without(s, id) + [id];
    assert t[..|t| - 1] == Without(s, id);
    if |t| > 3 then
      assert t[1..][..|t| - 2] == t[..|t| - 1][1..];
      t[1..]
    else t
  }

  /** A fourth distinct key evicts only the oldest entry; otherwise nothing
      is evicted and the other entries keep their order. */
  lemma UpdatedEvictsOldest(s: seq<Key>, id: Key)
    requires ValidActive(s)
    ensures id !in s && |s| == 3 ==> Updated(s, id) == s[1..] + [id]
    ensures id !in s && |s| < 3 ==> Updated(s, id) == s + [id]
    ensures forall i :: 0 <= i < |s| && s[i] == id ==> Updated(s, id) == s[..i] + s[i + 1..] + [id]
  {
    forall i | 0 <= i < |s| && s[i] == id
      ensures Updated(s, id) == s[..i] + s[i + 1..] + [id]
    {
      WithoutRemovesSlot(s, id, i);
    }
  }

  /** `allKeys.find(key => !activeInputs.includes(key))`. */
  function FindMissing(keys: seq<Key>, active: seq<Key>): (r: Option<Key>)
    ensures r.Some? ==> r.value in keys && r.value !in active
    ensures r.None? <==> forall k :: k in keys ==> k in active
    ensures r.Some? ==> exists j :: 0 <= j < |keys| && keys[j] == r.value && forall i :: 0 <= i < j ==> keys[i] in active
  {
    if keys == [] then None
    else if keys[0] !in active then Some(keys[0])
    else FindMissing(keys[1..], active)
  }

  /** The field `calculate` solves for, or `None` when it returns early. */
  function TargetOf(active: seq<Key>): Option<Key>
  {
    if |active| < 3 then None else FindMissing(AllKeys, active)
  }

  /** With three distinct active keys the target exists and is the one key
      that is not active. */
  lemma TargetIsMissingKey(active: seq<Key>)
    requires ValidActive(active) && |active| == 3
    ensures TargetOf(active).Some?
    ensures TargetOf(active).value !in active
    ensures forall k: Key :: k !in active ==> k == TargetOf(active).value
  {
    assert AllKeys[0] == Principal && AllKeys[1] == Rate && AllKeys[2] == Tenure && AllKeys[3] == Emi;
    var a, b, c := active[0], active[1], active[2];
    assert active == [a, b, c];
    var w := if Principal !in active then Principal else if Rate !in active then Rate
             else if Tenure !in active then Tenure else Emi;
    assert w !in active && w in AllKeys;
    var t := FindMissing(AllKeys, active).value;
    forall k: Key | k !in active ensures k == t {
      var a, b, c := active[0], active[1], active[2];
      assert a != b && b != c && a != c;
      assert k != a && k != b && k != c && t != a && t != b && t != c;
    }
  }

  /** After a fourth distinct key arrives, the evicted oldest key is the
      one computed next. */
  lemma EvictedKeyBecomesTarget(s: seq<Key>, id: Key)
    requires ValidActive(s) && |s| == 3 && id !in s
    ensures TargetOf(Updated(s, id)) == Some(s[0])
  {
    UpdatedEvictsOldest(s, id);
    var u := Updated(s, id);
    assert s[0] !in u;
    TargetIsMissingKey(u);
  }

  /** What `parseFloat` gave for each field; the tenure field is held as
      whole months (years times 12). `None` is NaN. */
  datatype Fields = Fields(principal: Option<real>, rate: Option<real>, months: Option<int>, emi: Option<real>)

  /** The tenure in years, as `validate` sees it. */
  function Years(months: Option<int>): Option<real>
  {
    if months.None? then None else Some(months.value as real / 12.0)
  }

  /** `validate(...args)`: every argument is a number (not NaN) and >= 0. */
  function Validate(args: seq<Option<real>>): (ok: bool)
    ensures ok <==> forall i :: 0 <= i < |args| ==> args[i].Some? && args[i].value >= 0.0
  {
    if args == [] then true
    else args[0].Some? && args[0].value >= 0.0 && Validate(args[1..])
  }

  /** `validate` of three values, spelled out. */
  lemma ValidateThree(a: Option<real>, b: Option<real>, c: Option<real>)
    ensures Validate([a, b, c]) <==>
      a.Some? && a.value >= 0.0 && b.Some? && b.value >= 0.0 && c.Some? && c.value >= 0.0
  {
    assert [a, b, c][0] == a && [a, b, c][1] == b && [a, b, c][2] == c;
  }

  /** A solved value before the page's acceptance test. */
  datatype Answer = Value(v: real) | LogYears(growth: real, base: real)

  /** The acceptance test `result > 0`; ln(growth) / ln(base) is positive
      exactly when both logarithms have the same sign. */
  predicate Positive(a: Answer)
  {
    match a
    case Value(v) => v > 0.0
    case LogYears(g, b) => (g > 1.0 && b > 1.0) || (g < 1.0 && b < 1.0)
  }

  /** A JavaScript number the page can keep: finite. */
  function Kept(x: Number): Option<Answer>
  {
    if x.Finite? then Some(Value(x.value)) else None
  }

  /** The three fields `calculate` hands to `validate` and to the solver for
      each target, in the order the source passes them. */
  function InputsOf(target: Key, f: Fields): (args: seq<Option<real>>)
    ensures |args| == 3
  {
    match target
    case Emi => [f.principal, f.rate, Years(f.months)]
    case Principal => [f.emi, f.rate, Years(f.months)]
    case Tenure => [f.principal, f.rate, f.emi]
    case Rate => [f.principal, Years(f.months), f.emi]
  }

  /** The `switch (targetKey)` of `calculate`: validate the three inputs and
      call the matching solver. `None` is a `null`, Infinity or NaN result. */
  function Solve(target: Key, f: Fields): (r: Option<Answer>)
    ensures r.Some? ==> Validate(InputsOf(target, f))
  {
    var args := InputsOf(target, f);
    ValidateThree(args[0], args[1], args[2]);
    assert args == [args[0], args[1], args[2]];
    if !Validate(args) then None
    else
      match target
      case Emi => Kept(CalcEMI(f.principal.value, f.rate.value, f.months.value as nat))
      case Principal => Kept(CalcPrincipal(f.emi.value, f.rate.value, f.months.value as nat))
      case Tenure =>
        (match CalcTenure(f.principal.value, f.rate.value, f.emi.value)
         case None => None
         case Some(Direct(years)) => Kept(years)
         case Some(ByLog(g, b)) => if g > 0.0 && b > 0.0 then Some(LogYears(g, b)) else None)
      case Rate =>
        (match RateSpec(f.principal.value, f.months.value as nat, f.emi.value)
         case None => None
         case Some(v) => Some(Value(v)))
  }

  /** What one run of `calculate` does: nothing (fewer than three active
      fields), report an invalid combination, or fill in the target. */
  datatype Outcome = Idle | Rejected(target: Key) | Solved(target: Key, answer: Answer)

  function Calculate(active: seq<Key>, f: Fields): (o: Outcome)
    ensures |active| < 3 ==> o == Idle
    ensures ValidActive(active) && |active| == 3 ==> !o.Idle? && o.target !in active
    ensures o.Solved? ==> Positive(o.answer) && Solve(o.target, f) == Some(o.answer)
    ensures o.Rejected? ==> Solve(o.target, f).None? || !Positive(Solve(o.target, f).value)
  {
    assert ValidActive(active) && |active| == 3 ==> TargetOf(active).Some? && TargetOf(active).value !in active by {
      if ValidActive(active) && |active| == 3 {
        TargetIsMissingKey(active);
      }
    }
    match TargetOf(active)
    case None => Idle
    case Some(target) =>
      var result := Solve(target, f);
      if result.Some? && Positive(result.value) then Solved(target, result.value)
      else Rejected(target)
  }

  /** Whatever the target, `calculate` rejects it when `validate` refuses
      one of its three inputs, being NaN or negative. */
  lemma InvalidInputsRejected(active: seq<Key>, f: Fields, t: Key)
    requires TargetOf(active) == Some(t)
    requires !Validate(InputsOf(t, f))
    ensures Calculate(active, f) == Rejected(t)
  {
  }

  /** The EMI over no months (Infinity or NaN) or of no loan (0) is never
      accepted. */
  lemma EmiRejectedWithoutMonthsOrLoan(active: seq<Key>, f: Fields)
    requires TargetOf(active) == Some(Emi)
    requires f.months == Some(0) || f.principal == Some(0.0)
    ensures Calculate(active, f) == Rejected(Emi)
  {
    ValidateThree(f.principal, f.rate, Years(f.months));
    if Validate([f.principal, f.rate, Years(f.months)]) && f.months != Some(0) {
      var R, n := f.rate.value, f.months.value as nat;
      assert n >= 1;
      if R > 0.0 {
        var x := Pow(1.0 + MonthlyRate(R), n);
        GrowthAboveOne(MonthlyRate(R), n);
        assert x > 1.0;
        assert 0.0 * MonthlyRate(R) * x == 0.0;
        assert Instalment(0.0, MonthlyRate(R), x) * (x - 1.0) == 0.0;
        ProductSign(Instalment(0.0, MonthlyRate(R), x), x - 1.0);
        assert CalcEMI(0.0, R, n) == Finite(Instalment(0.0, MonthlyRate(R), x));
      }
    }
  }

  /** The principal for no instalment, or over no months, is 0 and never
      accepted. */
  lemma PrincipalRejectedWithoutMonthsOrEmi(active: seq<Key>, f: Fields)
    requires TargetOf(active) == Some(Principal)
    requires f.months == Some(0) || f.emi == Some(0.0)
    ensures Calculate(active, f) == Rejected(Principal)
  {
    ValidateThree(f.emi, f.rate, Years(f.months));
    if Validate([f.emi, f.rate, Years(f.months)]) && f.rate.value > 0.0 {
      var E, R, n := f.emi.value, f.rate.value, f.months.value as nat;
      var x := Pow(1.0 + MonthlyRate(R), n);
      GrowthAboveOne(MonthlyRate(R), n);
      if n == 0 {
        assert x == 1.0;
      }
      assert E * (x - 1.0) == 0.0;
    }
  }

  /** With principal, rate and whole tenure filled in, the EMI is always
      found and positive. */
  lemma EmiAlwaysSolved(active: seq<Key>, f: Fields)
    requires TargetOf(active) == Some(Emi)
    requires f.principal.Some? && f.principal.value > 0.0
    requires f.rate.Some? && f.rate.value >= 0.0
    requires f.months.Some? && f.months.value >= 1
    ensures Calculate(active, f).Solved?
    ensures Calculate(active, f).answer == Value(CalcEMI(f.principal.value, f.rate.value, f.months.value as nat).value)
  {
    var P, R, n := f.principal.value, f.rate.value, f.months.value as nat;
    EmiPositive(P, R, n);
    assert Validate([f.principal, f.rate, Years(f.months)]);
  }

  /** The instalment of a positive loan is positive. */
  lemma EmiPositive(P: real, R: real, n: nat)
    requires P > 0.0 && R >= 0.0 && n >= 1
    ensures CalcEMI(P, R, n).Finite? && CalcEMI(P, R, n).value > 0.0
  {
    if R > 0.0 {
      assert P * MonthlyRate(R) > 0.0;
    } else {
      assert P / n as real > 0.0;
    }
  }

  /** Solving for the principal from the EMI of a positive loan gives that
      loan back, end to end through `calculate`. */
  lemma PrincipalRoundTrip(active: seq<Key>, f: Fields, P: real)
    requires TargetOf(active) == Some(Principal)
    requires P > 0.0
    requires f.rate.Some? && f.rate.value >= 0.0
    requires f.months.Some? && f.months.value >= 1
    requires f.emi == Some(CalcEMI(P, f.rate.value, f.months.value as nat).value)
    ensures Calculate(active, f) == Solved(Principal, Value(P))
  {
    var R, n := f.rate.value, f.months.value as nat;
    EmiPositive(P, R, n);
    PrincipalOfEmi(P, R, n);
    assert Validate([f.emi, f.rate, Years(f.months)]);
  }

  /** Solving for the rate fails exactly when the payments do not add up to
      the principal; otherwise it reports a rate within (0.00012, 240)
      percent. */
  lemma RateSolvedOrRejected(active: seq<Key>, f: Fields)
    requires TargetOf(active) == Some(Rate)
    requires f.principal.Some? && f.principal.value >= 0.0
    requires f.months.Some? && f.months.value >= 0
    requires f.emi.Some? && f.emi.value >= 0.0
    ensures var o := Calculate(active, f);
      && (o.Rejected? <==> f.emi.value * f.months.value as real < f.principal.value)
      && (o.Solved? ==> o.answer.Value? && 0.00012 < o.answer.v < 240.0)
      && (o.Solved? ==> o.answer == Value(RateSpec(f.principal.value, f.months.value as nat, f.emi.value).value))
  {
    assert Validate([f.principal, Years(f.months), f.emi]);
  }

  /** Solving for the tenure at a positive rate is rejected exactly when the
      instalment does not exceed the first month's interest or there is no
      loan; otherwise the answer is ln(E / (E - P r)) / ln(1 + r). */
  lemma TenureSolvedOrRejected(active: seq<Key>, f: Fields)
    requires TargetOf(active) == Some(Tenure)
    requires f.principal.Some? && f.principal.value >= 0.0
    requires f.rate.Some? && f.rate.value > 0.0
    requires f.emi.Some? && f.emi.value >= 0.0
    ensures var o, P, r, E := Calculate(active, f), f.principal.value, MonthlyRate(f.rate.value), f.emi.value;
      && (o.Rejected? <==> E - P * r <= 0.0 || P == 0.0)
      && (o.Solved? ==> E - P * r > 0.0 && o.answer == LogYears(E / (E - P * r), 1.0 + r))
  {
    var P, R, E := f.principal.value, f.rate.value, f.emi.value;
    assert Validate([f.principal, f.rate, f.emi]);
    assert MonthlyRate(R) > 0.0;
    assert P * MonthlyRate(R) >= 0.0;
    if E - P * MonthlyRate(R) > 0.0 {
      GrowthAboveOneExactly(P, R, E);
      TenureFeasible(P, R, E);
      assert Solve(Tenure, f) == Some(LogYears(E / (E - P * MonthlyRate(R)), 1.0 + MonthlyRate(R)));
      assert 1.0 + MonthlyRate(R) > 1.0;
      assert E / (E - P * MonthlyRate(R)) > 1.0 <==> P > 0.0;
      assert Positive(LogYears(E / (E - P * MonthlyRate(R)), 1.0 + MonthlyRate(R))) <==> P > 0.0;
    } else {
      assert CalcTenure(P, R, E).None?;
    }
  }

  /** E / (E - P r) exceeds 1 exactly when the loan is positive. */
  lemma GrowthAboveOneExactly(P: real, R: real, E: real)
    requires P >= 0.0 && MonthlyRate(R) > 0.0 && E - P * MonthlyRate(R) > 0.0
    ensures E / (E - P * MonthlyRate(R)) > 1.0 <==> P > 0.0
    ensures E / (E - P * MonthlyRate(R)) >= 1.0
  {
    assert E / (E - P * MonthlyRate(R)) * (E - P * MonthlyRate(R)) == E;
    assert (E / (E - P * MonthlyRate(R)) - 1.0) * (E - P * MonthlyRate(R)) == P * MonthlyRate(R);
    ProductSign(E / (E - P * MonthlyRate(R)) - 1.0, E - P * MonthlyRate(R));
    if P > 0.0 {
      assert P * MonthlyRate(R) > 0.0;
    }
  }

  lemma ProductSign(x: real, d: real)
    requires d > 0.0
    ensures x > 0.0 <==> x * d > 0.0
    ensures x == 0.0 <==> x * d == 0.0
  {
    if x > 0.0 {
      assert x * d > 0.0;
    } else if x < 0.0 {
      assert (-x) * d > 0.0;
    }
  }

  /** At a zero rate the tenure is P / E / 12 years, solved exactly when
      both the loan and the instalment are positive. */
  lemma TenureAtZeroRate(active: seq<Key>, f: Fields)
    requires TargetOf(active) == Some(Tenure)
    requires f.principal.Some? && f.principal.value >= 0.0
    requires f.rate == Some(0.0)
    requires f.emi.Some? && f.emi.value >= 0.0
    ensures var o, P, E := Calculate(active, f), f.principal.value, f.emi.value;
      && (o.Solved? <==> P > 0.0 && E > 0.0)
      && (o.Solved? ==> o.answer == Value(P / E / 12.0))
  {
    var P, E := f.principal.value, f.emi.value;
    assert Validate([f.principal, f.rate, f.emi]);
    if E > 0.0 && P > 0.0 {
      assert P / E > 0.0;
    }
  }

  /** The summary card's figures. */
  datatype Summary = Summary(totalPayment: real, totalInterest: real, interestPercent: real, shownPercent: int)

  /** JavaScript falsiness of a parsed number: NaN or 0. */
  predicate Falsy(v: Option<real>)
  {
    v.None? || v.value == 0.0
  }

  /** `updateSummary(P, R, T, E)` with T in years: `None` hides the card. */
  function UpdateSummary(P: Option<real>, R: Option<real>, T: Option<real>, E: Option<real>): (s: Option<Summary>)
    ensures s.None? <==> Falsy(P) || Falsy(T) || Falsy(E) || E.value * T.value * 12.0 - P.value < 0.0
    ensures s.Some? ==> s.value.totalInterest >= 0.0 && s.value.totalPayment == s.value.totalInterest + P.value
    ensures s.Some? ==> s.value.totalPayment == E.value * T.value * 12.0 && s.value.totalPayment != 0.0
    ensures s.Some? ==> s.value.interestPercent == s.value.totalInterest / s.value.totalPayment * 100.0
    ensures s.Some? ==> s.value.shownPercent as real - 0.5 <= s.value.interestPercent < s.value.shownPercent as real + 0.5
    ensures s.Some? && P.value >= 0.0 ==> 0.0 <= s.value.interestPercent <= 100.0
  {
    if Falsy(P) || Falsy(T) || Falsy(E) then None
    else
      var totalPayment := E.value * T.value * 12.0;
      var totalInterest := totalPayment - P.value;
      if totalInterest < 0.0 then None
      else
        assert totalPayment != 0.0 by { NonZeroProduct(E.value, T.value); }
        var percent := totalInterest / totalPayment * 100.0;
        PercentBounded(totalInterest, totalPayment, P.value);
        Some(Summary(totalPayment, totalInterest, percent, Round(percent)))
  }

  lemma NonZeroProduct(a: real, b: real)
    requires a != 0.0 && b != 0.0
    ensures a * b * 12.0 != 0.0
  {
  }

  lemma PercentBounded(part: real, whole: real, principal: real)
    requires whole != 0.0 && 0.0 <= part && whole == part + principal
    ensures principal >= 0.0 ==> 0.0 <= part / whole * 100.0 <= 100.0
  {
    if principal >= 0.0 {
      assert part / whole <= 1.0;
    }
  }

  /** `activeInputs`, the page's record of the last three edited fields. */
  class InputTracker {
    var active: seq<Key>

    ghost predicate Valid()
      reads this
    {
      ValidActive(active)
    }

    constructor ()
      ensures Valid() && active == []
    {
      active := [];
    }

    /** The `load` handler: every field is cleared and nothing is active. */
    method Load()
      modifies this
      ensures Valid() && active == []
    {
      active := [];
    }

    method UpdateActiveInputs(id: Key)
      requires Valid()
      modifies this
      ensures Valid()
      ensures active == Updated(old(active), id)
    {
      active := Without(active, id);
      active := active + [id];
      if |active| > 3 {
        active := active[1..];
      }
    }

    /** `handleInput`: clearing a field drops it from the active ones and
        computes nothing; any other edit marks it active and recalculates
        from the current field values `f`. */
    method HandleInput(id: Key, value: string, f: Fields) returns (o: Outcome)
      requires Valid()
      modifies this
      ensures Valid()
      ensures value == "" ==> active == Without(old(active), id) && o == Idle
      ensures value != "" ==> active == Updated(old(active), id) && o == Calculate(active, f)
    {
      if value == "" {
        active := Without(active, id);
        return Idle;
      }
      UpdateActiveInputs(id);
      o := Calculate(active, f);
    }
  }
}
