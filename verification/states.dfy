/**
 * The calculator's state as a value, and what each event does to it.
 * Each After- function (and ErrorShown, OperandsSettled, OperatorInstalled)
 * is the specification of one handler of the Calculator class (module
 * Device): the handler's new state is the function applied to its old
 * state. Step and Run apply them to button presses.
 */
module States {
  import opened Numerals
  import opened Arithmetic

  datatype Option<T> = None | Some(value: T)

  /** The action buttons, by their data-action names. */
  datatype Action = ClearAll | Clear | ToggleSign | Decimal | Equals

  function ActionName(a: Action): string
  {
    match a
    case ClearAll => "clear-all"
    case Clear => "clear"
    case ToggleSign => "toggle-sign"
    case Decimal => "decimal"
    case Equals => "equals"
  }

  /** The actions table of handleAction: the action a data-action name stands for, if any. */
  function ActionNamed(name: string): (r: Option<Action>)
    ensures r.Some? ==> ActionName(r.value) == name
    ensures r.None? ==> forall a: Action :: ActionName(a) != name
  {
    if name == "clear-all" then Some(ClearAll)
    else if name == "clear" then Some(Clear)
    else if name == "toggle-sign" then Some(ToggleSign)
    else if name == "decimal" then Some(Decimal)
    else if name == "equals" then Some(Equals)
    else None
  }

  lemma {:induction false} ActionNameRoundTrip(a: Action)
    ensures ActionNamed(ActionName(a)) == Some(a)
  {
    match a
    case ClearAll =>
    case Clear => assert "clear" != "clear-all";
    case ToggleSign =>
    case Decimal =>
    case Equals =>
  }

  /** The record equals keeps of the last completed calculation. */
  datatype Operation = Operation(previous: int, current: int, operator: Op)

  /**
   * The fields of a Calculator, plus the two pieces of page state the
   * calculator writes: the history line and the highlighted operator button.
   */
  datatype State = State(
    currentValue: string,
    previousValue: Option<int>,
    operator: Option<Op>,
    waitingForNewValue: bool,
    hasError: bool,
    lastOperation: Option<Operation>,
    historyText: string,
    activeOp: Option<Op>)

  const ERROR_TOKEN: string := "ERR"

  /** The state after construction and after clearAll. */
  const Startup: State := State("0", None, None, false, false, None, "", None)

  /**
   * The invariant every handler keeps: the display holds "ERR" exactly in
   * the error state and a numeral within the digit limits otherwise, a
   * pending operator has a first operand, and that operand is in range.
   */
  predicate Valid(s: State)
  {
    && (s.hasError ==> s.currentValue == ERROR_TOKEN)
    && (!s.hasError ==> WellFormed(s.currentValue))
    && (s.operator.Some? ==> s.previousValue.Some?)
    && (s.previousValue.Some? ==> InRange(s.previousValue.value))
  }

  lemma StartupValid()
    ensures Valid(Startup)
  {
    ZeroNumerals();
  }

  /** The history line while an operator is pending: "<previous> <symbol>". */
  function PendingHistory(previous: int, op: Op): string
  {
    FormatNumber(previous) + " " + OperatorSymbol(op)
  }

  /** The history line after equals: "<previous> <symbol> <current> =". */
  function CompletedHistory(o: Operation): string
  {
    FormatNumber(o.previous) + " " + OperatorSymbol(o.operator) + " " + FormatNumber(o.current) + " ="
  }

  /** showError: the display shows "ERR" and the error latches; nothing else changes. */
  function ErrorShown(s: State): (r: State)
    requires Valid(s)
    ensures Valid(r) && r.hasError
    ensures r.(currentValue := s.currentValue, hasError := s.hasError) == s
  {
    s.(currentValue := ERROR_TOKEN, hasError := true)
  }

  /** handleNumber(d). */
  function AfterNumber(s: State, d: char): (r: State)
    requires Valid(s) && IsDigit(d)
    ensures s.hasError ==> r == Startup
    ensures !s.hasError ==> r == s.(currentValue := r.currentValue, waitingForNewValue := false)
    ensures !s.hasError && s.waitingForNewValue ==> r.currentValue == [d]
  {
    if s.hasError then Startup
    else if s.waitingForNewValue then s.(currentValue := [d], waitingForNewValue := false)
    else if !CanAddDigit(s.currentValue) then s
    else s.(currentValue := AppendDigit(s.currentValue, d))
  }

  lemma NumberKeepsValid(s: State, d: char)
    requires Valid(s) && IsDigit(d)
    ensures Valid(AfterNumber(s, d))
  {
    if s.hasError {
      StartupValid();
    } else if s.waitingForNewValue {
      DigitNumeral(d);
    } else if CanAddDigit(s.currentValue) {
      AppendDigitWellFormed(s.currentValue, d);
    }
  }

  /** A digit extends the number being entered exactly when the result is still a numeral within the limits. */
  lemma DigitAppended(s: State, d: char)
    requires Valid(s) && IsDigit(d) && !s.hasError && !s.waitingForNewValue
    ensures AfterNumber(s, d).currentValue ==
      if IsNumeral(s.currentValue + [d]) then AppendDigit(s.currentValue, d) else s.currentValue
  {
    CanAddDigitIffRoom(s.currentValue, d);
  }

  /**
   * The first half of handleOperator: with no first operand the display
   * becomes one; with a pending operation whose second operand was entered,
   * that operation is evaluated and its result becomes the first operand
   * (or the error is shown); otherwise nothing changes.
   */
  function OperandsSettled(s: State): (r: State)
    requires Valid(s) && !s.hasError
    ensures r.previousValue.Some?
  {
    var current := ParseValue(s.currentValue);
    if s.previousValue.None? then s.(previousValue := Some(current))
    else if s.operator.Some? && !s.waitingForNewValue then
      match Calculate(s.previousValue.value, current, s.operator.value)
      case Err => ErrorShown(s)
      case Num(result) => s.(currentValue := FormatNumber(result), previousValue := Some(result))
    else s
  }

  lemma OperandsSettledKeepsValid(s: State)
    requires Valid(s) && !s.hasError
    ensures Valid(OperandsSettled(s))
  {
    if s.previousValue.Some? && s.operator.Some? && !s.waitingForNewValue {
      var a, b, op := s.previousValue.value, ParseValue(s.currentValue), s.operator.value;
      CalculateOutcome(a, b, op);
      if Calculate(a, b, op).Num? {
        FormatRoundTrip(Calculate(a, b, op).value);
      }
    }
  }

  /** The second half of handleOperator: install op, wait for the next operand, show the pending history, highlight op. */
  function OperatorInstalled(s: State, op: Op): State
    requires s.previousValue.Some?
  {
    s.(operator := Some(op), waitingForNewValue := true,
       historyText := PendingHistory(s.previousValue.value, op), activeOp := Some(op))
  }

  /** handleOperator(op). */
  function AfterOperator(s: State, op: Op): (r: State)
    requires Valid(s)
    ensures s.hasError ==> r == Startup
  {
    if s.hasError then Startup
    else
      var t := OperandsSettled(s);
      if t.hasError then t else OperatorInstalled(t, op)
  }

  lemma OperatorKeepsValid(s: State, op: Op)
    requires Valid(s)
    ensures Valid(AfterOperator(s, op))
  {
    if s.hasError {
      StartupValid();
    } else {
      OperandsSettledKeepsValid(s);
    }
  }

  /**
   * An operator press that does not fail installs the operator and shows the
   * pending history; the first operand is the value on the display, or the
   * result of the pending operation when a second operand was entered.
   */
  lemma OperatorPressed(s: State, op: Op)
    requires Valid(s) && !s.hasError && !AfterOperator(s, op).hasError
    ensures var r := AfterOperator(s, op);
      && Valid(r)
      && r.operator == Some(op) && r.waitingForNewValue && r.activeOp == Some(op)
      && r.previousValue.Some? && r.historyText == PendingHistory(r.previousValue.value, op)
      && r.lastOperation == s.lastOperation
      && (s.previousValue.None? ==>
            r.currentValue == s.currentValue && r.previousValue == Some(ParseValue(s.currentValue)))
      && (s.previousValue.Some? && s.operator.Some? && !s.waitingForNewValue ==>
            var v := Calculate(s.previousValue.value, ParseValue(s.currentValue), s.operator.value);
            v.Num? && r.currentValue == FormatNumber(v.value) && r.previousValue == Some(v.value)
            && ParseValue(r.currentValue) == v.value)
      && (s.previousValue.Some? && (s.operator.None? || s.waitingForNewValue) ==>
            r.currentValue == s.currentValue && r.previousValue == s.previousValue)
  {
    OperatorKeepsValid(s, op);
    if s.previousValue.Some? && s.operator.Some? && !s.waitingForNewValue {
      var a, b, o := s.previousValue.value, ParseValue(s.currentValue), s.operator.value;
      CalculateOutcome(a, b, o);
      if Calculate(a, b, o).Num? {
        FormatRoundTrip(Calculate(a, b, o).value);
      }
    }
  }

  /** equals. */
  function AfterEquals(s: State): (r: State)
    requires Valid(s)
    ensures s.hasError ==> r == Startup
    ensures !s.hasError && (s.operator.None? || s.previousValue.None?) ==> r == s
  {
    if s.hasError then Startup
    else if s.operator.Some? && s.previousValue.Some? then
      var current := ParseValue(s.currentValue);
      match Calculate(s.previousValue.value, current, s.operator.value)
      case Err => ErrorShown(s)
      case Num(result) =>
        var o := Operation(s.previousValue.value, current, s.operator.value);
        s.(lastOperation := Some(o), currentValue := FormatNumber(result),
           previousValue := None, operator := None, waitingForNewValue := true,
           historyText := CompletedHistory(o), activeOp := None)
    else s
  }

  /** equals when the pending operation fails. */
  lemma EqualsFailed(s: State, current: int)
    requires Valid(s) && !s.hasError && s.operator.Some? && s.previousValue.Some?
    requires current == ParseValue(s.currentValue)
    requires Calculate(s.previousValue.value, current, s.operator.value) == Err
    ensures AfterEquals(s) == ErrorShown(s)
  {
  }

  /** equals when the pending operation gives a number. */
  lemma EqualsSucceeded(s: State, current: int, result: int, o: Operation)
    requires Valid(s) && !s.hasError && s.operator.Some? && s.previousValue.Some?
    requires current == ParseValue(s.currentValue)
    requires Calculate(s.previousValue.value, current, s.operator.value) == Num(result)
    requires o == Operation(s.previousValue.value, current, s.operator.value)
    ensures AfterEquals(s) == s.(lastOperation := Some(o), currentValue := FormatNumber(result),
      previousValue := None, operator := None, waitingForNewValue := true,
      historyText := CompletedHistory(o), activeOp := None)
  {
  }

  lemma EqualsKeepsValid(s: State)
    requires Valid(s)
    ensures Valid(AfterEquals(s))
  {
    if s.hasError {
      StartupValid();
    } else if s.operator.Some? && s.previousValue.Some? {
      var a, b, op := s.previousValue.value, ParseValue(s.currentValue), s.operator.value;
      CalculateOutcome(a, b, op);
      if Calculate(a, b, op).Num? {
        FormatRoundTrip(Calculate(a, b, op).value);
      }
    }
  }

  /** clear. */
  function AfterClear(s: State): (r: State)
    requires Valid(s)
    ensures s.hasError ==> r == Startup
    ensures !s.hasError && s.waitingForNewValue && s.operator.Some? ==>
      r == s.(operator := None, waitingForNewValue := false, activeOp := None, historyText := "")
    ensures !s.hasError && !(s.waitingForNewValue && s.operator.Some?) ==> r == s.(currentValue := "0")
  {
    if s.hasError then Startup
    else if s.waitingForNewValue && s.operator.Some? then
      s.(operator := None, waitingForNewValue := false, activeOp := None, historyText := "")
    else
      s.(currentValue := "0")
  }

  lemma ClearKeepsValid(s: State)
    requires Valid(s)
    ensures Valid(AfterClear(s))
  {
    StartupValid();
    ZeroNumerals();
  }

  /** toggleSign. */
  function AfterToggleSign(s: State): (r: State)
    requires Valid(s)
    ensures s.hasError ==> r == Startup
    ensures !s.hasError ==> r.(currentValue := s.currentValue) == s
  {
    if s.hasError then Startup
    else s.(currentValue := ToggledSign(s.currentValue))
  }

  /** The sign key keeps the invariant and negates the value on the display. */
  lemma SignToggled(s: State)
    requires Valid(s)
    ensures Valid(AfterToggleSign(s))
    ensures !s.hasError ==> ParseValue(AfterToggleSign(s).currentValue) == -ParseValue(s.currentValue)
  {
    if s.hasError {
      StartupValid();
    } else {
      ToggledSignNegates(s.currentValue);
    }
  }

  /** addDecimal. */
  function AfterDecimal(s: State): (r: State)
    requires Valid(s)
    ensures s.hasError ==> r == Startup
    ensures !s.hasError ==> r == s.(currentValue := r.currentValue, waitingForNewValue := false)
    ensures !s.hasError && s.waitingForNewValue ==> r.currentValue == "0."
  {
    if s.hasError then Startup
    else if s.waitingForNewValue then s.(currentValue := "0.", waitingForNewValue := false)
    else s.(currentValue := AppendPoint(s.currentValue))
  }

  /** The decimal key keeps the invariant, leaves a point on the display, and keeps the value of a number being entered. */
  lemma PointEntered(s: State)
    requires Valid(s)
    ensures Valid(AfterDecimal(s))
    ensures !s.hasError ==> '.' in AfterDecimal(s).currentValue
    ensures !s.hasError && !s.waitingForNewValue ==>
      ParseValue(AfterDecimal(s).currentValue) == ParseValue(s.currentValue)
  {
    if s.hasError {
      StartupValid();
    } else if s.waitingForNewValue {
      ZeroNumerals();
    } else {
      AppendPointKeepsValue(s.currentValue);
    }
  }

  /**
   * The handler an action button runs. In the error state every action
   * restarts; apart from equals, no action touches the first operand or
   * the recorded last operation.
   */
  function Perform(s: State, a: Action): (r: State)
    requires Valid(s)
    ensures a == ClearAll || s.hasError ==> r == Startup
    ensures a != ClearAll && a != Equals && !s.hasError ==>
      r.previousValue == s.previousValue && r.lastOperation == s.lastOperation
  {
    match a
    case ClearAll => Startup
    case Clear => AfterClear(s)
    case ToggleSign => AfterToggleSign(s)
    case Decimal => AfterDecimal(s)
    case Equals => AfterEquals(s)
  }

  lemma ActionKeepsValid(s: State, a: Action)
    requires Valid(s)
    ensures Valid(Perform(s, a))
  {
    match a
    case ClearAll => StartupValid();
    case Clear => ClearKeepsValid(s);
    case ToggleSign => SignToggled(s);
    case Decimal => PointEntered(s);
    case Equals => EqualsKeepsValid(s);
  }

  /** handleAction(name): an unknown name does nothing. */
  function AfterAction(s: State, name: string): (r: State)
    requires Valid(s)
    ensures (forall a: Action :: ActionName(a) != name) ==> r == s
    ensures name == "clear-all" ==> r == Startup
  {
    match ActionNamed(name)
    case None => s
    case Some(a) => Perform(s, a)
  }

  // ---------------------------------------------------------------------
  // Sequences of events

  /** A button press: a digit, an operator, or an action by name. */
  datatype Event = DigitKey(digit: char) | OperatorKey(op: Op) | ActionKey(name: string)

  predicate IsEvent(e: Event) { e.DigitKey? ==> IsDigit(e.digit) }

  function Step(s: State, e: Event): State
    requires Valid(s) && IsEvent(e)
  {
    match e
    case DigitKey(d) => AfterNumber(s, d)
    case OperatorKey(op) => AfterOperator(s, op)
    case ActionKey(name) => AfterAction(s, name)
  }

  /** Every button press keeps the invariant. */
  lemma StepKeepsValid(s: State, e: Event)
    requires Valid(s) && IsEvent(e)
    ensures Valid(Step(s, e))
  {
    match e
    case DigitKey(d) => NumberKeepsValid(s, d);
    case OperatorKey(op) => OperatorKeepsValid(s, op);
    case ActionKey(name) =>
      if ActionNamed(name).Some? {
        ActionKeepsValid(s, ActionNamed(name).value);
      }
  }

  /** The state after a sequence of presses; the invariant holds throughout. */
  function Run(s: State, events: seq<Event>): (r: State)
    requires Valid(s) && forall i | 0 <= i < |events| :: IsEvent(events[i])
    ensures Valid(r)
    decreases |events|
  {
    if |events| == 0 then s
    else
      StepKeepsValid(s, events[0]);
      Run(Step(s, events[0]), events[1..])
  }

  // ---------------------------------------------------------------------
  // Properties

  /** The error latch: from the error state every button except an unknown action leads to the startup state. */
  lemma ErrorLatch(s: State, e: Event)
    requires Valid(s) && IsEvent(e) && s.hasError
    ensures Step(s, e) == Startup || Step(s, e) == s
    ensures Step(s, e) == s <==> e.ActionKey? && ActionNamed(e.name).None?
  {
    assert s != Startup;
  }

  /** Pressing equals evaluates the pending operation; the display then reads back as the result. */
  lemma EqualsEvaluates(s: State)
    requires Valid(s) && !s.hasError && s.operator.Some? && s.previousValue.Some?
    ensures var v := Calculate(s.previousValue.value, ParseValue(s.currentValue), s.operator.value);
      var o := Operation(s.previousValue.value, ParseValue(s.currentValue), s.operator.value);
      var r := AfterEquals(s);
      && Valid(r)
      && (v.Err? ==> r == ErrorShown(s) && r.currentValue == ERROR_TOKEN)
      && (v.Num? ==>
        && r.currentValue == FormatNumber(v.value) && ParseValue(r.currentValue) == v.value
        && r.lastOperation == Some(o)
        && r.previousValue.None? && r.operator.None? && r.waitingForNewValue
        && r.historyText == CompletedHistory(o) && r.activeOp.None?)
  {
    EqualsKeepsValid(s);
    var a, b, op := s.previousValue.value, ParseValue(s.currentValue), s.operator.value;
    CalculateOutcome(a, b, op);
    if Calculate(a, b, op).Num? {
      FormatRoundTrip(Calculate(a, b, op).value);
    }
  }

  /** A second equals after a completed calculation changes nothing. */
  lemma EqualsTwice(s: State)
    requires Valid(s)
    ensures Valid(AfterEquals(s))
    ensures !AfterEquals(s).hasError ==> AfterEquals(AfterEquals(s)) == AfterEquals(s)
  {
    EqualsKeepsValid(s);
  }

  /** Dividing by a zero operand latches the error. */
  lemma DivisionByZeroLatchesError(s: State, op: Op)
    requires Valid(s) && !s.hasError && s.operator == Some(Div) && s.previousValue.Some?
    requires ParseValue(s.currentValue) == 0
    ensures AfterEquals(s).hasError && AfterEquals(s).currentValue == ERROR_TOKEN
    ensures AfterOperator(s, op).hasError == !s.waitingForNewValue
  {
  }

  /** An operator pressed while the next operand is awaited only replaces the pending operator. */
  lemma OperatorSwapped(s: State, op: Op)
    requires Valid(s) && !s.hasError && s.operator.Some? && s.waitingForNewValue
    ensures AfterOperator(s, op) ==
      s.(operator := Some(op), historyText := PendingHistory(s.previousValue.value, op), activeOp := Some(op))
  {
  }

  /** An operator pressed after a second operand was entered evaluates the pending operation first. */
  lemma OperatorChained(s: State, op: Op)
    requires Valid(s) && !s.hasError && s.operator.Some? && !s.waitingForNewValue
    ensures var v := Calculate(s.previousValue.value, ParseValue(s.currentValue), s.operator.value);
      var r := AfterOperator(s, op);
      && Valid(r)
      && (v.Err? ==> r == ErrorShown(s) && r.operator == s.operator)
      && (v.Num? ==> r.previousValue == Some(v.value) && r.currentValue == FormatNumber(v.value)
                     && ParseValue(r.currentValue) == v.value && r.operator == Some(op))
  {
    OperatorKeepsValid(s, op);
    var a, b, o := s.previousValue.value, ParseValue(s.currentValue), s.operator.value;
    CalculateOutcome(a, b, o);
    if Calculate(a, b, o).Num? {
      FormatRoundTrip(Calculate(a, b, o).value);
    }
  }

  /**
   * clear drops a pending operator but keeps its first operand: a number
   * typed next and the following operator press leave that operand in place,
   * so the typed number never becomes the first operand.
   */
  lemma ClearKeepsFirstOperand(s: State, d: char, op: Op)
    requires Valid(s) && !s.hasError && s.waitingForNewValue && s.operator.Some? && IsDigit(d)
    ensures Valid(AfterClear(s)) && AfterClear(s).operator.None?
    ensures AfterClear(s).previousValue == s.previousValue
    ensures Valid(AfterNumber(AfterClear(s), d))
    ensures AfterOperator(AfterNumber(AfterClear(s), d), op).previousValue == s.previousValue
  {
    ClearKeepsValid(s);
    NumberKeepsValid(AfterClear(s), d);
  }

  /** Toggling the sign twice restores the state. */
  lemma ToggleSignTwice(s: State)
    requires Valid(s) && !s.hasError
    ensures Valid(AfterToggleSign(s))
    ensures AfterToggleSign(AfterToggleSign(s)) == s
  {
    SignToggled(s);
    ToggledSignNegates(s.currentValue);
  }

  /** A second decimal press changes nothing. */
  lemma DecimalTwice(s: State)
    requires Valid(s)
    ensures Valid(AfterDecimal(s))
    ensures !s.hasError ==> AfterDecimal(AfterDecimal(s)) == AfterDecimal(s)
  {
    PointEntered(s);
  }

  /** Two clears always leave "0" on the display. */
  lemma ClearTwice(s: State)
    requires Valid(s)
    ensures Valid(AfterClear(s))
    ensures AfterClear(AfterClear(s)).currentValue == "0"
  {
    ClearKeepsValid(s);
  }

  /** A whole number of units below ten is formatted as its digit. */
  lemma FormatSingleDigit(n: nat)
    requires n < 10
    ensures FormatNumber(n * DECIMAL_MULTIPLIER) == [DigitChar(n)]
  {
    var m := n * DECIMAL_MULTIPLIER;
    assert Abs(m) / DECIMAL_MULTIPLIER == n && Abs(m) % DECIMAL_MULTIPLIER == 0;
    assert NatToString(n) == [DigitChar(n)];
    ComposeShapes(false, [DigitChar(n)], "", '0');
  }

  lemma StepAction(s: State, a: Action)
    requires Valid(s)
    ensures Step(s, ActionKey(ActionName(a))) == Perform(s, a)
  {
    ActionNameRoundTrip(a);
  }

  lemma StepEquals(s: State)
    requires Valid(s)
    ensures Step(s, ActionKey("equals")) == AfterEquals(s)
  {
    assert ActionNamed("equals") == Some(Equals) by {
      ActionNameRoundTrip(Equals);
    }
    assert AfterAction(s, "equals") == Perform(s, Equals);
    PerformEquals(s);
  }

  lemma PerformEquals(s: State)
    requires Valid(s)
    ensures Perform(s, Equals) == AfterEquals(s)
  {
  }

  lemma FirstDigit(s: State)
    requires s == Startup
    ensures Valid(s) && AfterNumber(s, '5') == Startup.(currentValue := "5")
  {
    StartupValid();
    ZeroNumerals();
    AppendDigitParts(false, "0", false, "", '5');
  }

  lemma OperatorOnFive(s: State)
    requires s == Startup.(currentValue := "5")
    ensures Valid(s)
    ensures var r := AfterOperator(s, Add);
      r.previousValue == Some(5000) && r.operator == Some(Add) && r.waitingForNewValue && !r.hasError
  {
    DigitNumeral('5');
  }

  lemma HistoryOfSingleDigits(a: nat, op: Op, b: nat)
    requires a < 10 && b < 10
    ensures CompletedHistory(Operation(a * DECIMAL_MULTIPLIER, b * DECIMAL_MULTIPLIER, op))
      == [DigitChar(a), ' ', OperatorSymbol(op)[0], ' ', DigitChar(b), ' ', '=']
  {
    FormatSingleDigit(a);
    FormatSingleDigit(b);
  }

  lemma EqualsOnFivePlusThree(s: State)
    requires Valid(s) && !s.hasError && s.currentValue == "3"
    requires s.previousValue == Some(5000) && s.operator == Some(Add)
    ensures var r := AfterEquals(s);
      r.currentValue == "8" && r.historyText == "5 + 3 =" && !r.hasError
  {
    var o := Operation(5000, 3000, Add);
    assert ParseValue(s.currentValue) == 3000 by {
      DigitNumeral('3');
    }
    assert Calculate(5000, 3000, Add) == Num(8000) by {
      CalculateOutcome(5000, 3000, Add);
    }
    EqualsSucceeded(s, 3000, 8000, o);
    FormatSingleDigit(8);
    HistoryOfSingleDigits(5, Add, 3);
  }

  /** Running a press followed by more presses is running the rest from the state after the first. */
  lemma RunFirst(s: State, e: Event, rest: seq<Event>)
    requires Valid(s) && IsEvent(e) && forall i | 0 <= i < |rest| :: IsEvent(rest[i])
    ensures Valid(Step(s, e))
    ensures Run(s, [e] + rest) == Run(Step(s, e), rest)
  {
    StepKeepsValid(s, e);
    assert ([e] + rest)[1..] == rest;
  }

  lemma SecondOperand(s: State)
    requires Valid(s) && s.previousValue == Some(5000) && s.operator == Some(Add) && s.waitingForNewValue && !s.hasError
    ensures var r := AfterNumber(s, '3');
      Valid(r) && r.currentValue == "3" && r.previousValue == Some(5000) && r.operator == Some(Add) && !r.hasError
  {
    NumberKeepsValid(s, '3');
  }

  /** From 5 + pending, typing 3 and = shows 8 with the history "5 + 3 =". */
  lemma ThreeEquals(s: State)
    requires Valid(s) && s.previousValue == Some(5000) && s.operator == Some(Add) && s.waitingForNewValue && !s.hasError
    ensures var r := Run(s, [DigitKey('3'), ActionKey("equals")]);
      r.currentValue == "8" && r.historyText == "5 + 3 =" && !r.hasError
  {
    var e3, e4 := DigitKey('3'), ActionKey("equals");
    RunFirst(s, e3, [e4]);
    SecondOperand(s);
    var s3 := AfterNumber(s, '3');
    RunFirst(s3, e4, []);
    StepEquals(s3);
    EqualsOnFivePlusThree(s3);
  }

  /** Typing 5, +, 3, = shows 8 with the history "5 + 3 =". */
  lemma FivePlusThree()
    ensures Valid(Startup)
    ensures var r := Run(Startup, [DigitKey('5'), OperatorKey(Add), DigitKey('3'), ActionKey("equals")]);
      r.currentValue == "8" && r.historyText == "5 + 3 =" && !r.hasError
  {
    StartupValid();
    var e1, e2, e3, e4 := DigitKey('5'), OperatorKey(Add), DigitKey('3'), ActionKey("equals");
    assert [e1, e2, e3, e4] == [e1] + ([e2] + [e3, e4]);
    RunFirst(Startup, e1, [e2, e3, e4]);
    FirstDigit(Startup);
    var s1 := Startup.(currentValue := "5");
    RunFirst(s1, e2, [e3, e4]);
    OperatorOnFive(s1);
    ThreeEquals(AfterOperator(s1, Add));
  }

  /** The presses of the digit keys of ds, in order. */
  function DigitKeys(ds: string): (es: seq<Event>)
    ensures |es| == |ds| && forall i | 0 <= i < |ds| :: es[i] == DigitKey(ds[i])
  {
    if |ds| == 0 then [] else DigitKeys(ds[..|ds| - 1]) + [DigitKey(ds[|ds| - 1])]
  }

  /** Running presses followed by one more is one more step after them. */
  lemma {:induction false} RunSnoc(s: State, es: seq<Event>, e: Event)
    requires Valid(s) && IsEvent(e) && forall i | 0 <= i < |es| :: IsEvent(es[i])
    ensures Run(s, es + [e]) == Step(Run(s, es), e)
    decreases |es|
  {
    if |es| == 0 {
      assert es + [e] == [e] + [];
      RunFirst(s, e, []);
    } else {
      StepKeepsValid(s, es[0]);
      assert (es + [e])[1..] == es[1..] + [e];
      RunSnoc(Step(s, es[0]), es[1..], e);
    }
  }

  /** From a freshly started calculator showing the digits v, a digit within the limit is appended. */
  lemma DigitEntered(v: string, d: char)
    requires IsDigits(v) && 1 <= |v| < MAX_INTEGER_DIGITS && IsDigit(d)
    ensures Valid(Startup.(currentValue := v))
    ensures AfterNumber(Startup.(currentValue := v), d) == Startup.(currentValue := AppendDigit(v, d))
  {
    assert Compose(false, v, false, "") == v by {
      ComposeShapes(false, v, "", d);
      assert "" + v == v;
    }
    ComposeNumeral(false, v, false, "");
    CanAddDigitParts(false, v, false, "");
  }

  lemma StepDigit(s: State, d: char)
    requires Valid(s) && IsDigit(d)
    ensures Step(s, DigitKey(d)) == AfterNumber(s, d)
  {
  }

  /** One more digit key after presses that left a freshly started calculator showing v. */
  lemma TypedOneMore(es: seq<Event>, v: string, d: char)
    requires Valid(Startup) && forall i | 0 <= i < |es| :: IsEvent(es[i])
    requires IsDigits(v) && 1 <= |v| < MAX_INTEGER_DIGITS && IsDigit(d)
    requires Run(Startup, es) == Startup.(currentValue := v)
    ensures Run(Startup, es + [DigitKey(d)]) == Startup.(currentValue := if v == "0" then [d] else v + [d])
  {
    RunSnoc(Startup, es, DigitKey(d));
    StepDigit(Startup.(currentValue := v), d);
    DigitEntered(v, d);
  }

  /** Typing up to eight digits, the first of several not '0', shows exactly those digits. */
  lemma {:induction false} TypedDigits(ds: string)
    requires 1 <= |ds| <= MAX_INTEGER_DIGITS && IsDigits(ds) && (|ds| == 1 || ds[0] != '0')
    ensures Valid(Startup)
    ensures Run(Startup, DigitKeys(ds)) == Startup.(currentValue := ds)
    decreases |ds|
  {
    StartupValid();
    var p, d := ds[..|ds| - 1], ds[|ds| - 1];
    DropLast(ds);
    assert DigitKeys(ds) == DigitKeys(p) + [DigitKey(d)];
    if |p| == 0 {
      assert Run(Startup, DigitKeys(p)) == Startup.(currentValue := "0");
      TypedOneMore(DigitKeys(p), "0", d);
    } else {
      TypedDigits(p);
      assert p[0] == ds[0];
      TypedOneMore(DigitKeys(p), p, d);
    }
  }
}
