/** The four-function calculator: three pieces of state that every key
    handler edits.  `parseFloat` and `Number.prototype.toString` are not
    modelled; they are the parameters `parse` (`None` for NaN) and `show`. */
module Calculator {
  import opened Wrappers

  /** `currentOperand`, `previousOperand` and `operation` (`None` is
      `undefined`). */
  datatype State = State(current: string, previous: string, operation: Option<string>)

  /** The JavaScript numbers a computation can produce. */
  datatype JsNumber = Finite(value: real) | Infinity | NegInfinity | NaN

  /** The `switch` of `calculate`: `None` for an operator it does not know
      (the `default: return`).  Division by zero follows IEEE 754. */
  function Arith(a: real, op: string, b: real): (v: Option<JsNumber>)
    ensures v.Some? <==> KnownOperator(op)
    ensures op == "+" ==> v == Some(Finite(a + b))
    ensures op == "-" ==> v == Some(Finite(a - b))
    ensures op == "*" ==> v == Some(Finite(a * b))
    ensures op == "/" && b != 0.0 ==> v == Some(Finite(a / b))
    ensures op == "/" && b == 0.0 ==> v == Some(if a > 0.0 then Infinity else if a < 0.0 then NegInfinity else NaN)
  {
    if op == "+" then Some(Finite(a + b))
    else if op == "-" then Some(Finite(a - b))
    else if op == "*" then Some(Finite(a * b))
    else if op == "/" then
      Some(if b != 0.0 then Finite(a / b) else if a > 0.0 then Infinity else if a < 0.0 then NegInfinity else NaN)
    else None
  }

  /** `toString` never yields the empty string. */
  ghost predicate ShowsSomething(show: JsNumber -> string)
  {
    forall v :: show(v) != ""
  }

  /** `toString` of a number never holds more than one '.'. */
  ghost predicate ShowsOneDot(show: JsNumber -> string)
  {
    forall v :: Dots(show(v)) <= 1
  }

  /** The invariant every handler keeps: an operator is pending exactly
      when there is a previous operand. */
  predicate Consistent(s: State)
  {
    s.operation.Some? <==> s.previous != ""
  }

  /** The number of '.' characters in `s`. */
  function Dots(s: string): nat
  {
    if s == [] then 0 else (if s[|s| - 1] == '.' then 1 else 0) + Dots(s[..|s| - 1])
  }

  lemma {:induction false} DotsAppend(s: string, t: string)
    ensures Dots(s + t) == Dots(s) + Dots(t)
    decreases |t|
  {
    if t == [] {
      assert s + t == s;
    } else {
      assert (s + t)[..|s + t| - 1] == s + t[..|t| - 1];
      DotsAppend(s, t[..|t| - 1]);
    }
  }

  lemma {:induction false} DotsPrefix(s: string, k: nat)
    requires k <= |s|
    ensures Dots(s[..k]) <= Dots(s)
    decreases |s|
  {
    if k < |s| {
      assert s[..|s| - 1][..k] == s[..k];
      DotsPrefix(s[..|s| - 1], k);
    } else {
      assert s[..k] == s;
    }
  }

  lemma {:induction false} NoDotMeansZero(s: string)
    ensures '.' !in s <==> Dots(s) == 0
    decreases |s|
  {
    if s != [] {
      NoDotMeansZero(s[..|s| - 1]);
      assert s == s[..|s| - 1] + [s[|s| - 1]];
    }
  }

  /** The start state, and `clearDisplay`. */
  function Clear(): (s: State)
    ensures Consistent(s) && s.current == "0" && s.previous == "" && s.operation.None?
  {
    State("0", "", None)
  }

  /** `deleteLast`. */
  function DeleteLast(s: State): (t: State)
    ensures t.previous == s.previous && t.operation == s.operation
    ensures s.current == "0" ==> t == s
    ensures |s.current| == 1 ==> t.current == "0"
    ensures s.current == "" ==> t == s
    ensures s.current != "0" && |s.current| > 1 ==> t.current + [s.current[|s.current| - 1]] == s.current
    ensures |t.current| <= |s.current|
  {
    if s.current == "0" then s
    else if |s.current| == 1 then s.(current := "0")
    else if s.current == "" then s
    else s.(current := s.current[..|s.current| - 1])
  }

  /** `appendNumber(number)`. */
  function AppendNumber(s: State, number: string): (t: State)
    ensures t.previous == s.previous && t.operation == s.operation
    ensures number == "." && '.' in s.current ==> t == s
    ensures s.current == "0" && number != "." ==> t.current == number
    ensures !(number == "." && '.' in s.current) && !(s.current == "0" && number != ".") ==> t.current == s.current + number
  {
    if number == "." && '.' in s.current then s
    else if s.current == "0" && number != "." then s.(current := number)
    else s.(current := s.current + number)
  }

  /** `appendNumber` never makes a second '.' out of single keys. */
  lemma AppendNumberKeepsOneDot(s: State, number: string)
    requires Dots(s.current) <= 1 && |number| == 1
    ensures Dots(AppendNumber(s, number).current) <= 1
  {
    var t := AppendNumber(s, number);
    assert Dots(number) == (if number[0] == '.' then 1 else 0) by {
      assert number[..0] == [];
    }
    if number == "." && '.' in s.current {
    } else if s.current == "0" && number != "." {
    } else {
      DotsAppend(s.current, number);
      if number == "." {
        NoDotMeansZero(s.current);
      } else {
        assert number[0] != '.';
      }
    }
  }

  /** Backspace undoes a key typed onto a non-trivial operand. */
  lemma DeleteUndoesAppend(s: State, number: string)
    requires s.current != "0" && s.current != "" && |number| == 1
    requires !(number == "." && '.' in s.current)
    ensures DeleteLast(AppendNumber(s, number)) == s
  {
    var t := AppendNumber(s, number);
    assert t.current == s.current + number;
    assert t.current[..|t.current| - 1] == s.current;
  }

  /** `deleteLast` never adds a '.'. */
  lemma DeleteLastKeepsDots(s: State)
    ensures Dots(DeleteLast(s).current) <= Dots(s.current)
  {
    if s.current != "0" && |s.current| > 1 {
      DotsPrefix(s.current, |s.current| - 1);
    } else if |s.current| == 1 {
      NoDotMeansZero("0");
    }
  }

  /** The arithmetic of `calculate`, for the operators it knows. */
  predicate KnownOperator(op: string)
  {
    op == "+" || op == "-" || op == "*" || op == "/"
  }

  /** `calculate`: nothing happens unless both operands parse and the
      operator is one of + - * /; then the result, as a string, replaces
      the current operand and the pending operation is cleared. */
  function Calculate(s: State, parse: string -> Option<real>, show: JsNumber -> string): (t: State)
    ensures parse(s.previous).None? || parse(s.current).None? ==> t == s
    ensures s.operation.None? || !KnownOperator(s.operation.value) ==> t == s
    ensures t != s ==> t.previous == "" && t.operation.None?
    ensures t != s ==> t.current == show(Arith(parse(s.previous).value, s.operation.value, parse(s.current).value).value)
    ensures parse(s.previous).Some? && parse(s.current).Some? && s.operation.Some? && KnownOperator(s.operation.value) ==>
      t == State(show(Arith(parse(s.previous).value, s.operation.value, parse(s.current).value).value), "", None)
    ensures Consistent(s) ==> Consistent(t)
  {
    var prev, cur := parse(s.previous), parse(s.current);
    if prev.None? || cur.None? || s.operation.None? then s
    else
      var computation := Arith(prev.value, s.operation.value, cur.value);
      if computation.None? then s else State(show(computation.value), "", None)
  }

  /** `appendOperator(op)`: ignored on an empty operand; otherwise complete
      a pending operation first, then make the operand the previous one. */
  function AppendOperator(s: State, op: string, parse: string -> Option<real>, show: JsNumber -> string): (t: State)
    ensures s.current == "" ==> t == s
    ensures s.current != "" ==> t.operation == Some(op) && t.current == ""
    ensures s.current != "" && s.previous == "" ==> t.previous == s.current
    ensures s.current != "" && s.previous != "" ==> t.previous == Calculate(s, parse, show).current
  {
    if s.current == "" then s
    else
      var u := if s.previous != "" then Calculate(s, parse, show) else s;
      State("", u.current, Some(op))
  }

  /** `applyPercentage`: ignored on "0" and ""; with a pending + or - and a
      previous operand that parses, the operand becomes that share of the
      previous operand, otherwise it is divided by 100.  An operand that
      does not parse gives NaN. */
  function ApplyPercentage(s: State, parse: string -> Option<real>, show: JsNumber -> string): (t: State)
    ensures t.previous == s.previous && t.operation == s.operation
    ensures s.current == "0" || s.current == "" ==> t == s
    ensures s.current != "0" && s.current != "" && parse(s.current).None? ==> t.current == show(NaN)
    ensures s.current != "0" && s.current != "" && parse(s.current).Some? && SharePercent(s, parse) ==>
      t.current == show(Finite(ShareOf(parse(s.previous).value, parse(s.current).value)))
    ensures s.current != "0" && s.current != "" && parse(s.current).Some? && !SharePercent(s, parse) ==>
      t.current == show(Finite(parse(s.current).value / 100.0))
  {
    if s.current == "0" || s.current == "" then s
    else
      var cur, prev := parse(s.current), parse(s.previous);
      if cur.None? then s.(current := show(NaN))
      else if prev.Some? && (s.operation == Some("+") || s.operation == Some("-"))
      then s.(current := show(Finite(ShareOf(prev.value, cur.value))))
      else s.(current := show(Finite(cur.value / 100.0)))
  }

  /** `prev * (current / 100)`: `current` percent of `prev`. */
  function ShareOf(prev: real, current: real): (v: real)
    ensures current == 100.0 ==> v == prev
    ensures prev >= 0.0 && 0.0 <= current <= 100.0 ==> 0.0 <= v <= prev
  {
    var v := prev * (current / 100.0);
    if prev >= 0.0 && 0.0 <= current <= 100.0 then
      var f := current / 100.0;
      assert 0.0 <= f <= 1.0;
      assert prev * f <= prev * 1.0 by {
        assert prev * (1.0 - f) >= 0.0;
      }
      v
    else v
  }

  /** The "smart percentage" case: a previous operand that parses and a
      pending + or -. */
  predicate SharePercent(s: State, parse: string -> Option<real>)
  {
    parse(s.previous).Some? && (s.operation == Some("+") || s.operation == Some("-"))
  }

  /** `getDisplayOperator`. */
  function DisplayOperator(op: string): (d: string)
    ensures op == "*" ==> d == "×"
    ensures op == "/" ==> d == "÷"
    ensures op != "*" && op != "/" ==> d == op
  {
    if op == "*" then "×" else if op == "/" then "÷" else op
  }

  /** The upper line of `updateDisplay`: empty unless an operation is
      pending, else the previous operand and the operator's symbol. */
  function PreviousDisplay(s: State): (d: string)
    ensures s.operation.None? ==> d == ""
    ensures s.operation.Some? ==> d == s.previous + " " + DisplayOperator(s.operation.value)
  {
    if s.operation.Some? then s.previous + " " + DisplayOperator(s.operation.value) else ""
  }

  /** The keys the page reacts to. */
  datatype Key = Digit(number: string) | Operator(op: string) | Percent | Equals | Backspace | Escape

  function Handle(s: State, k: Key, parse: string -> Option<real>, show: JsNumber -> string): State
  {
    match k
    case Digit(number) => AppendNumber(s, number)
    case Operator(op) => AppendOperator(s, op, parse, show)
    case Percent => ApplyPercentage(s, parse, show)
    case Equals => Calculate(s, parse, show)
    case Backspace => DeleteLast(s)
    case Escape => Clear()
  }

  /** Every handler keeps "an operator is pending exactly when there is a
      previous operand". */
  lemma HandlersKeepConsistent(s: State, k: Key, parse: string -> Option<real>, show: JsNumber -> string)
    requires Consistent(s) && ShowsSomething(show)
    ensures Consistent(Handle(s, k, parse, show))
  {
    if k.Operator? && s.current != "" && s.previous != "" {
      var u := Calculate(s, parse, show);
      assert u.current != "" by {
        if u != s {
          assert u.current == show(Arith(parse(s.previous).value, s.operation.value, parse(s.current).value).value);
        }
      }
    }
  }

  /** Every handler keeps at most one '.' in the current operand, given
      that keys are typed one character at a time. */
  lemma HandlersKeepOneDot(s: State, k: Key, parse: string -> Option<real>, show: JsNumber -> string)
    requires Dots(s.current) <= 1 && ShowsOneDot(show)
    requires k.Digit? ==> |k.number| == 1
    ensures Dots(Handle(s, k, parse, show).current) <= 1
  {
    match k
    case Digit(number) => AppendNumberKeepsOneDot(s, number);
    case Operator(op) =>
      if s.current != "" {
        assert AppendOperator(s, op, parse, show).current == "";
      }
    case Percent =>
    case Equals =>
    case Backspace =>
      DeleteLastKeepsDots(s);
      NoDotMeansZero("0");
    case Escape =>
      NoDotMeansZero("0");
  }

  /** The page's three module-level variables, with the conversions the
      handlers use. */
  class Page {
    var currentOperand: string
    var previousOperand: string
    var operation: Option<string>
    const parse: string -> Option<real>
    const show: JsNumber -> string

    function Snapshot(): State
      reads this
    {
      State(currentOperand, previousOperand, operation)
    }

    ghost predicate Valid()
      reads this
    {
      Consistent(Snapshot()) && ShowsSomething(show) && Dots(currentOperand) <= 1 && ShowsOneDot(show)
    }

    constructor (parse: string -> Option<real>, show: JsNumber -> string)
      requires ShowsSomething(show) && ShowsOneDot(show)
      ensures Valid() && Snapshot() == Clear()
      ensures this.parse == parse && this.show == show
    {
      currentOperand, previousOperand, operation := "0", "", None;
      this.parse, this.show := parse, show;
      NoDotMeansZero("0");
    }

    /** `clearDisplay`. */
    method ClearDisplay()
      requires Valid()
      modifies this
      ensures Valid() && Snapshot() == Clear()
    {
      NoDotMeansZero("0");
      currentOperand := "0";
      previousOperand := "";
      operation := None;
    }

    /** `deleteLast`. */
    method DeleteLastKey()
      requires Valid()
      modifies this
      ensures Valid() && Snapshot() == DeleteLast(old(Snapshot()))
    {
      DeleteLastKeepsDots(Snapshot());
      NoDotMeansZero("0");
      if currentOperand == "0" {
        return;
      }
      if |currentOperand| == 1 {
        currentOperand := "0";
      } else if currentOperand != "" {
        currentOperand := currentOperand[..|currentOperand| - 1];
      }
    }

    /** `appendNumber`, with the one character of a button or key. */
    method AppendNumberKey(number: string)
      requires Valid() && |number| == 1
      modifies this
      ensures Valid() && Snapshot() == AppendNumber(old(Snapshot()), number)
    {
      AppendNumberKeepsOneDot(Snapshot(), number);
      if number == "." && '.' in currentOperand {
        return;
      }
      if currentOperand == "0" && number != "." {
        currentOperand := number;
      } else {
        currentOperand := currentOperand + number;
      }
    }

    /** `calculate`. */
    method CalculateKey()
      requires Valid()
      modifies this
      ensures Valid() && Snapshot() == Calculate(old(Snapshot()), parse, show)
    {
      var prev := parse(previousOperand);
      var current := parse(currentOperand);
      if prev.None? || current.None? || operation.None? {
        return;
      }
      var computation := Arith(prev.value, operation.value, current.value);
      if computation.None? {
        return;
      }
      currentOperand := show(computation.value);
      operation := None;
      previousOperand := "";
    }

    /** `appendOperator`. */
    method AppendOperatorKey(op: string)
      requires Valid()
      modifies this
      ensures Valid() && Snapshot() == AppendOperator(old(Snapshot()), op, parse, show)
    {
      if currentOperand == "" {
        return;
      }
      if previousOperand != "" {
        CalculateKey();
      }
      operation := Some(op);
      previousOperand := currentOperand;
      currentOperand := "";
    }

    /** `applyPercentage`. */
    method ApplyPercentageKey()
      requires Valid()
      modifies this
      ensures Valid() && Snapshot() == ApplyPercentage(old(Snapshot()), parse, show)
    {
      if currentOperand == "0" || currentOperand == "" {
        return;
      }
      var current := parse(currentOperand);
      var prev := parse(previousOperand);
      if current.None? {
        currentOperand := show(NaN);
      } else if prev.Some? && (operation == Some("+") || operation == Some("-")) {
        currentOperand := show(Finite(ShareOf(prev.value, current.value)));
      } else {
        currentOperand := show(Finite(current.value / 100.0));
      }
    }
  }
}
