/**
 * The Calculator class: its fields and its event handlers, each changing
 * the fields step by step as the handler does. Every handler's new state
 * is the matching transition of module States applied to its old state,
 * and every handler keeps the invariant States.Valid.
 */
module Device {
  import opened Numerals
  import opened Arithmetic
  import opened States

  class Calculator {
    var currentValue: string
    var previousValue: Option<int>
    var operator: Option<Op>
    var waitingForNewValue: bool
    var hasError: bool
    var lastOperation: Option<Operation>
    /** The text of the history line. */
    var historyText: string
    /** The operator button shown as active, if any. */
    var activeOp: Option<Op>

    /** The fields as a State value. */
    ghost function Snapshot(): State
      reads this
    {
      State(currentValue, previousValue, operator, waitingForNewValue, hasError,
            lastOperation, historyText, activeOp)
    }

    ghost predicate Valid()
      reads this
    {
      States.Valid(Snapshot())
    }

    constructor()
      ensures Snapshot() == Startup
      ensures Valid()
    {
      currentValue := "0";
      previousValue := None;
      operator := None;
      waitingForNewValue := false;
      hasError := false;
      lastOperation := None;
      historyText := "";
      activeOp := None;
      StartupValid();
    }

    /** Leaves the error state through clearAll; reports whether it did. */
    method ClearErrorIfNeeded() returns (cleared: bool)
      modifies this
      ensures cleared == old(hasError)
      ensures Snapshot() == if cleared then Startup else old(Snapshot())
    {
      if hasError {
        ClearAll();
        return true;
      }
      return false;
    }

    method HandleNumber(num: char)
      requires Valid() && IsDigit(num)
      modifies this
      ensures Snapshot() == AfterNumber(old(Snapshot()), num)
      ensures Valid()
    {
      NumberKeepsValid(Snapshot(), num);
      var cleared := ClearErrorIfNeeded();
      if cleared {
        return;
      }
      if waitingForNewValue {
        currentValue := [num];
        waitingForNewValue := false;
      } else {
        if !CanAddDigit(currentValue) {
          return;
        }
        currentValue := if currentValue == "0" then [num] else currentValue + [num];
      }
    }

    method HandleOperator(op: Op)
      requires Valid()
      modifies this
      ensures Snapshot() == AfterOperator(old(Snapshot()), op)
      ensures Valid()
    {
      var cleared := ClearErrorIfNeeded();
      if cleared {
        return;
      }
      var failed := SettleOperands();
      if failed {
        return;
      }
      InstallOperator(op);
    }

    /** The first half of handleOperator: take the first operand, or evaluate the pending operation. */
    method SettleOperands() returns (failed: bool)
      requires Valid() && !hasError
      modifies this
      ensures Snapshot() == OperandsSettled(old(Snapshot()))
      ensures failed == hasError
      ensures Valid()
    {
      var currentNum := ParseValue(currentValue);
      if previousValue.None? {
        previousValue := Some(currentNum);
      } else if operator.Some? && !waitingForNewValue {
        var result := Calculate(previousValue.value, currentNum, operator.value);
        if result.Err? {
          ShowError();
          return true;
        }
        CalculateOutcome(previousValue.value, currentNum, operator.value);
        FormatRoundTrip(result.value);
        currentValue := FormatNumber(result.value);
        previousValue := Some(result.value);
      }
      return false;
    }

    /** The second half of handleOperator: the operator waits for its second operand and is shown. */
    method InstallOperator(op: Op)
      requires previousValue.Some?
      modifies this
      ensures Snapshot() == OperatorInstalled(old(Snapshot()), op)
    {
      ghost var target := OperatorInstalled(Snapshot(), op);
      operator := Some(op);
      waitingForNewValue := true;
      UpdateHistory(None);
      HighlightOperator(op);
      assert Snapshot() == target;
    }

    /** Runs the action a data-action name stands for; an unknown name does nothing. */
    method HandleAction(action: string)
      requires Valid()
      modifies this
      ensures Snapshot() == AfterAction(old(Snapshot()), action)
      ensures Valid()
    {
      var actionFn := ActionNamed(action);
      if actionFn.Some? {
        match actionFn.value
        case ClearAll => ClearAll();
        case Clear => Clear();
        case ToggleSign => ToggleSign();
        case Decimal => AddDecimal();
        case Equals => Equals();
      }
    }

    method Equals()
      requires Valid()
      modifies this
      ensures Snapshot() == AfterEquals(old(Snapshot()))
      ensures Valid()
    {
      var cleared := ClearErrorIfNeeded();
      if cleared {
        return;
      }
      if operator.Some? && previousValue.Some? {
        ghost var before := Snapshot();
        EqualsKeepsValid(before);
        var currentNum := ParseValue(currentValue);
        var result := Calculate(previousValue.value, currentNum, operator.value);
        if result.Err? {
          EqualsFailed(before, currentNum);
          ShowError();
          return;
        }
        var last := Operation(previousValue.value, currentNum, operator.value);
        EqualsSucceeded(before, currentNum, result.value, last);
        RecordResult(last, result.value);
      }
    }

    /** The tail of a successful equals: remember the operation, show its result and its history line. */
    method RecordResult(last: Operation, result: int)
      modifies this
      ensures Snapshot() == old(Snapshot()).(lastOperation := Some(last), currentValue := FormatNumber(result),
        previousValue := None, operator := None, waitingForNewValue := true,
        historyText := CompletedHistory(last), activeOp := None)
    {
      lastOperation := Some(last);
      currentValue := FormatNumber(result);
      previousValue := None;
      operator := None;
      waitingForNewValue := true;
      UpdateHistory(Some(CompletedHistory(last)));
      ClearOperatorHighlight();
    }

    method ClearAll()
      modifies this
      ensures Snapshot() == Startup
      ensures Valid()
    {
      currentValue := "0";
      previousValue := None;
      operator := None;
      waitingForNewValue := false;
      hasError := false;
      lastOperation := None;
      UpdateHistory(Some(""));
      ClearOperatorHighlight();
      StartupValid();
    }

    method Clear()
      requires Valid()
      modifies this
      ensures Snapshot() == AfterClear(old(Snapshot()))
      ensures Valid()
    {
      ClearKeepsValid(Snapshot());
      var cleared := ClearErrorIfNeeded();
      if cleared {
        return;
      }
      if waitingForNewValue && operator.Some? {
        operator := None;
        waitingForNewValue := false;
        ClearOperatorHighlight();
        UpdateHistory(Some(""));
      } else {
        currentValue := "0";
      }
    }

    method ToggleSign()
      requires Valid()
      modifies this
      ensures Snapshot() == AfterToggleSign(old(Snapshot()))
      ensures Valid()
    {
      SignToggled(Snapshot());
      var cleared := ClearErrorIfNeeded();
      if cleared {
        return;
      }
      if currentValue != "0" && currentValue != "0." {
        currentValue := if IsNegative(currentValue) then currentValue[1..] else "-" + currentValue;
      }
    }

    method AddDecimal()
      requires Valid()
      modifies this
      ensures Snapshot() == AfterDecimal(old(Snapshot()))
      ensures Valid()
    {
      PointEntered(Snapshot());
      var cleared := ClearErrorIfNeeded();
      if cleared {
        return;
      }
      if waitingForNewValue {
        currentValue := "0.";
        waitingForNewValue := false;
      } else if '.' !in currentValue {
        currentValue := currentValue + ".";
      }
    }

    method ShowError()
      requires Valid()
      modifies this
      ensures Snapshot() == ErrorShown(old(Snapshot()))
      ensures Valid()
    {
      currentValue := ERROR_TOKEN;
      hasError := true;
    }

    /** Writes the given text, or else the pending operation when there is one, to the history line. */
    method UpdateHistory(text: Option<string>)
      modifies this
      ensures Snapshot() == old(Snapshot()).(historyText :=
        if text.Some? then text.value
        else if operator.Some? && previousValue.Some? then PendingHistory(previousValue.value, operator.value)
        else old(historyText))
    {
      if text.Some? {
        historyText := text.value;
      } else if operator.Some? && previousValue.Some? {
        historyText := PendingHistory(previousValue.value, operator.value);
      }
    }

    method HighlightOperator(op: Op)
      modifies this
      ensures Snapshot() == old(Snapshot()).(activeOp := Some(op))
    {
      ClearOperatorHighlight();
      activeOp := Some(op);
    }

    method ClearOperatorHighlight()
      modifies this
      ensures Snapshot() == old(Snapshot()).(activeOp := None)
    {
      activeOp := None;
    }
  }
}
