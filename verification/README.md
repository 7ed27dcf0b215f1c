# Calculator engine, modelled in Dafny

This project models the `Calculator` class of the browser calculator in
`script.js`: the state machine behind the buttons. The user builds the
number on the display key by key as a string. Operators chain left to
right: a pending operation is evaluated when the next operator or equals
is pressed. Results are rounded to three decimal places and limited to
eight integer digits. Division by zero and overflow latch an error state,
which the next key press clears.

The project has four modules:

- `Numerals` (`numerals.dfy`) covers the string side of the calculator.
  It models the JavaScript string operations the code relies on:
  `split('.')`, `replace('-', '')`, `includes('.')`, and the `startsWith`
  and `substring` of the sign key. `IndexOf` is the search underneath
  `split`, `replace` and `includes`. The module also gives the shape of a
  numeral the display can hold, and the digit-limit test `canAddDigit`. It also
  models parsing a numeral (`parseFloat`) and `formatNumber`.
- `Arithmetic` (`arithmetic.dfy`) models `calculate` and
  `getOperatorSymbol`.
- `States` (`states.dfy`) gives the calculator's fields as a `State`
  value. Every handler is a function from the old state to the new one,
  and the lemmas state what the handlers promise. The invariant `Valid`
  says three things:
  - the display shows `ERR` exactly in the error state, and otherwise a
    numeral within the digit limits that is not a negative zero (`-0`
    or `-0.`);
  - a pending operator has a first operand;
  - that operand is in range.
- `Device` (`calculator.dfy`) is the `Calculator` class itself. It has the
  same fields, and its methods update them step by step as the handlers
  do. Each handler method (`HandleNumber`, `HandleOperator`,
  `HandleAction`, `Equals`, `ClearAll`, `Clear`, `ToggleSign`,
  `AddDecimal`, `ShowError`) is proved to produce the state its `States`
  function describes, and to keep `Valid`. `SettleOperands` and
  `InstallOperator` are proved to produce `OperandsSettled` and
  `OperatorInstalled`. The remaining helpers each state their whole new
  state directly: `ClearErrorIfNeeded`, `RecordResult`, `UpdateHistory`,
  `HighlightOperator` and `ClearOperatorHighlight`.

Numbers are exact integers counting thousandths. Every operand the
calculator enters has at most three fraction digits, and every result is
rounded to three, so a JavaScript number `x` is the integer `x * 1000`.
`Math.round` of a quotient or product is stated as
`IsHalfUpRounding(r, n, d)`: `r - 1/2 <= n/d < r + 1/2`. A result
overflows exactly when its magnitude is at least `10^8` units, which is
`LIMIT` thousandths (`CalculateOutcome`, via `IntegerPartLength`).

One behaviour of the code is easy to miss: `clear` drops a pending
operator but keeps `previousValue`. As a result, the next number typed
never becomes a first operand, because the next operator press finds
`previousValue` already set. `States.ClearKeepsFirstOperand` states this
behaviour.

## Model

| member | source | states |
|---|---|---|
| Numerals.IndexOf | script.js:70-71 | the result is the first position holding the character, or the length when it does not occur |
| Numerals.Split | script.js:70 | the parts joined with the separator give the string back, and no part contains the separator |
| Numerals.RemoveFirst | script.js:71 | without the character the string is unchanged; otherwise its first occurrence is removed, and the text before and after it is kept in order |
| Numerals.CanAddDigit | script.js:69-80 | the digit-limit test as the code writes it: split at '.', drop the '-' from the integer part, and compare the length of the part being extended with its limit; `CanAddDigitIffRoom` characterises it |
| Numerals.AppendDigit | script.js:113 | the digit goes at the end, and everything typed before it is kept, except that a lone "0" becomes exactly the digit |
| Numerals.AppendPoint | script.js:271-273 | the result contains a point and keeps the typed value as its prefix, adding at most one character; a value that already has a point is unchanged |
| Numerals.ToggledSign | script.js:256-260 | the sign key's edit as the code writes it: "0" and "0." stay, and otherwise a leading '-' is removed or added; `ToggledSignNegates` gives its meaning |
| Numerals.CanAddDigitIffRoom | script.js:69-80 | canAddDigit allows a digit exactly when the value with that digit appended is still a numeral within 8 integer and 3 fraction digits |
| Numerals.AppendDigitWellFormed | script.js:109-113 | a digit that canAddDigit allows, appended (or replacing a lone "0"), gives a well-formed numeral |
| Numerals.DigitNumeral | script.js:105-106 | a single digit as a fresh value is a well-formed numeral whose value is that digit |
| Numerals.AppendPointKeepsValue | script.js:271-273 | appending the point when none is present gives a well-formed numeral containing '.' with the same value |
| Numerals.ZeroNumerals | script.js:247 | "0" and "0." are well-formed numerals |
| Numerals.ToggledSignNegates | script.js:256-260 | the sign key keeps the numeral well formed, negates its value and undoes itself |
| Numerals.ParseValue | script.js:122 | parseFloat of a numeral on the display is a value whose integer part has at most 8 digits |
| Numerals.NatToString | script.js:185 | toString of a whole number is a digit string with that value and no leading zero |
| Numerals.NatToStringLength | script.js:185-188 | toString of n has at most k digits exactly when n < 10^k |
| Numerals.FractionText | script.js:95-97 | the fraction digits of a nonzero thousandths value, with trailing zeros removed: 1 to 3 digits, the last not '0', with exactly that value |
| Numerals.FractionPart | script.js:92-97 | the fraction text is empty exactly for a whole number and always has exactly the fraction's value |
| Numerals.FormatNumber | script.js:87-100 | formatNumber never ends in a bare point, nor in a zero after the point |
| Numerals.FormatShape | script.js:87-100 | for every number: a minus sign exactly when it is negative, the integer digits of its magnitude as toString writes them, the fraction digits without trailing zeros, and a point exactly when it is not whole |
| Numerals.IntegerPartOfFormat | script.js:185-186 | the text before the point in a formatted magnitude is toString of its whole part |
| Numerals.IntegerPartLength | script.js:185-188 | the integer part has more than 8 digits exactly when the magnitude reaches 10^8 units |
| Numerals.FormatRoundTrip | script.js:87-100 | a value in range is formatted as a well-formed numeral that parses back to the same value |
| Arithmetic.RoundHalfUp | script.js:182 | Math.round of n / d for a positive d, written as a floor division; `RoundHalfUpRounds` proves it rounds half up |
| Arithmetic.RoundHalfUpRounds | script.js:182 | the rounding used is Math.round: the nearest integer, halves going up |
| Arithmetic.HalfUpRoundingUnique | script.js:182 | Math.round has one result for each quotient |
| Arithmetic.Rounded | script.js:161-182 | each operator's result rounded to thousandths, with a negative divisor turned positive before rounding; `RoundedRounds` proves it is Math.round of the exact result |
| Arithmetic.RoundedRounds | script.js:161-182 | each operator's result is Math.round of the exact sum, difference, product or quotient, counted in thousandths |
| Arithmetic.Calculate | script.js:158-193 | calculate fails on division by zero, and any number it returns is in range (at most 8 integer digits); `CalculateOutcome` gives the exact outcome |
| Arithmetic.CalculateOutcome | script.js:158-193 | calculate fails on division by zero and on a rounded result out of range, and otherwise returns the rounded result |
| Arithmetic.DivideByOne | script.js:171-182 | dividing an in-range value by 1 gives it back |
| Arithmetic.MultiplyByOne | script.js:168-182 | multiplying an in-range value by 1 gives it back |
| Arithmetic.OperatorSymbol | script.js:301-309 | each operator's symbol is one character that is no digit, point or space |
| Arithmetic.OperatorSymbolInjective | script.js:301-309 | distinct operators show distinct symbols |
| States.ActionNamed | script.js:145-156 | the actions table finds an action exactly for its own name, and nothing for any other name |
| States.ActionNameRoundTrip | script.js:146-152 | every action is found under its name |
| States.StartupValid | script.js:9-14 | the startup state satisfies the invariant |
| States.PendingHistory | script.js:297 | the history line while an operator is pending: the formatted first operand, a space, and the operator's symbol |
| States.CompletedHistory | script.js:217 | the history line after equals: the formatted operands around the symbol, followed by " ="; `HistoryOfSingleDigits` gives an instance |
| States.ErrorShown | script.js:278-280 | showError shows ERR, latches the error, keeps the invariant and changes nothing else |
| States.AfterNumber | script.js:102-117 | a digit in the error state only resets; otherwise it changes only the display and ends waiting, and a waiting value is replaced by the digit |
| States.NumberKeepsValid | script.js:102-117 | a digit key keeps the invariant |
| States.DigitAppended | script.js:109-113 | a digit extends the number being entered exactly when the result is still a numeral within the limits |
| States.OperandsSettled | script.js:122-136 | after the first half of handleOperator there is always a first operand |
| States.OperandsSettledKeepsValid | script.js:122-136 | the first half of handleOperator keeps the invariant |
| States.OperatorInstalled | script.js:138-141 | the tail of handleOperator: the operator becomes pending and highlighted, the calculator waits, and the pending history is shown; nothing else changes |
| States.AfterOperator | script.js:119-120 | an operator in the error state only resets |
| States.OperatorKeepsValid | script.js:119-143 | an operator key keeps the invariant |
| States.OperatorPressed | script.js:122-141 | an operator press that does not fail makes the operator pending, waits, highlights it, and shows "<first operand> <symbol>"; the first operand is what the display reads back as, or unchanged when the operator is only swapped |
| States.OperatorSwapped | script.js:126-141 | an operator pressed while waiting only replaces the pending operator, its history and its highlight |
| States.OperatorChained | script.js:126-136 | an operator pressed after a second operand evaluates the pending operation first: a failure shows the error, a result becomes the first operand and the display |
| States.AfterEquals | script.js:195-198 | equals in the error state only resets, and with no pending operation changes nothing |
| States.EqualsFailed | script.js:202-205 | equals whose calculation fails shows the error (the failing branch of AfterEquals, as the proof of Device.Calculator.Equals uses it) |
| States.EqualsSucceeded | script.js:207-218 | equals whose calculation succeeds records the operation, shows the result and the completed history, and clears the pending operation (the succeeding branch of AfterEquals, as the proof of Device.Calculator.Equals uses it) |
| States.EqualsKeepsValid | script.js:195-222 | equals keeps the invariant |
| States.EqualsEvaluates | script.js:198-218 | equals shows ERR when calculate fails, and otherwise a display that reads back as the result, with the completed history "<a> <symbol> <b> =" |
| States.EqualsTwice | script.js:195-222 | a second equals after a successful one changes nothing |
| States.DivisionByZeroLatchesError | script.js:171-174 | dividing by zero latches the error on equals, and on a press of any operator exactly when a second operand was entered |
| States.AfterClear | script.js:236-251 | clear resets in the error state, drops only the pending operator while waiting, and otherwise only sets the display to "0" |
| States.ClearKeepsValid | script.js:236-251 | clear keeps the invariant |
| States.ClearKeepsFirstOperand | script.js:239-244 | after clear drops a pending operator, the first operand survives a typed number and the next operator press |
| States.ClearTwice | script.js:236-251 | from any state, the error state included, two clears leave "0" on the display |
| States.AfterToggleSign | script.js:253-263 | the sign key resets in the error state and otherwise changes only the display |
| States.SignToggled | script.js:253-263 | the sign key keeps the invariant and negates the value on the display |
| States.ToggleSignTwice | script.js:256-260 | toggling the sign twice restores the state |
| States.AfterDecimal | script.js:265-276 | the decimal key resets in the error state, starts "0." when waiting, and otherwise changes only the display |
| States.PointEntered | script.js:265-276 | the decimal key keeps the invariant, leaves a point on the display, and keeps the value of a number being entered |
| States.DecimalTwice | script.js:271-273 | a second decimal press changes nothing |
| States.Perform | script.js:146-152 | the handlers of the action table (clearAll, clear, toggleSign, addDecimal, equals): in the error state each restarts, clear-all always does, and only equals touches the first operand or the recorded last operation |
| States.ActionKeepsValid | script.js:146-152 | every action keeps the invariant |
| States.AfterAction | script.js:154-155 | an unknown action name changes nothing, and "clear-all" gives the startup state |
| States.StepAction | script.js:145-155 | pressing an action button by its name runs that action |
| States.Step | script.js:25-45 | a button press runs the handler its button is wired to: a digit, an operator, or an action by name |
| States.StepKeepsValid | script.js:25-45 | every button press keeps the invariant |
| States.Run | script.js:25-45 | the invariant holds after any sequence of button presses |
| States.ErrorLatch | script.js:57-63 | in the error state every press except an unknown action resets to startup, and an unknown action changes nothing |
| States.FormatSingleDigit | script.js:87-100 | a whole number below ten is formatted as its digit |
| States.HistoryOfSingleDigits | script.js:217 | the completed history of two one-digit operands is "<a> <symbol> <b> =" |
| States.FivePlusThree | script.js:195-218 | pressing 5, +, 3, = shows "8" with the history "5 + 3 =" and no error |
| States.DigitKeys | script.js:25-30 | the presses of a string of digit buttons, one per character, in order |
| States.RunSnoc | script.js:25-45 | running one more press after a sequence is stepping the state the sequence left |
| States.StepDigit | script.js:26-29 | a digit button runs handleNumber with its digit |
| States.DigitEntered | script.js:102-117 | on a freshly started calculator showing a short run of digits, one more digit is appended |
| States.TypedOneMore | script.js:102-117 | one more digit press after presses that left the startup display showing v gives v with the digit appended, or the digit alone when v is "0" |
| States.TypedDigits | script.js:102-117 | typing up to eight digits from startup, the first not "0" unless it is the only one, shows exactly those digits |
| Device.Calculator.constructor | script.js:2-23 | a new calculator is in the startup state |
| Device.Calculator.ClearErrorIfNeeded | script.js:57-63 | in the error state it resets and reports true; otherwise it changes nothing and reports false |
| Device.Calculator.HandleNumber | script.js:102-117 | the new fields are AfterNumber of the old ones, and the invariant is kept |
| Device.Calculator.HandleOperator | script.js:119-143 | the new fields are AfterOperator of the old ones, and the invariant is kept |
| Device.Calculator.SettleOperands | script.js:122-136 | the new fields are OperandsSettled of the old ones, and it reports failure exactly when the error latched |
| Device.Calculator.InstallOperator | script.js:138-141 | the new fields are OperatorInstalled of the old ones |
| Device.Calculator.HandleAction | script.js:145-156 | the new fields are AfterAction of the old ones, and the invariant is kept |
| Device.Calculator.Equals | script.js:195-222 | the new fields are AfterEquals of the old ones, and the invariant is kept |
| Device.Calculator.RecordResult | script.js:207-218 | records the operation, shows the result and the completed history, and clears the pending operation and highlight |
| Device.Calculator.ClearAll | script.js:224-234 | the fields return to the startup state |
| Device.Calculator.Clear | script.js:236-251 | the new fields are AfterClear of the old ones, and the invariant is kept |
| Device.Calculator.ToggleSign | script.js:253-263 | the new fields are AfterToggleSign of the old ones, and the invariant is kept |
| Device.Calculator.AddDecimal | script.js:265-276 | the new fields are AfterDecimal of the old ones, and the invariant is kept |
| Device.Calculator.ShowError | script.js:278-287 | the new fields are ErrorShown of the old ones |
| Device.Calculator.UpdateHistory | script.js:293-299 | the history becomes the given text, or else the pending operation when there is one, or else stays |
| Device.Calculator.HighlightOperator | script.js:311-317 | exactly the given operator is highlighted |
| Device.Calculator.ClearOperatorHighlight | script.js:319-323 | no operator is highlighted |

## Left out

- The DOM is not modelled. The display element's text is `currentValue`, so `updateDisplay` (script.js:289-291) has nothing left to do. The history element's text is the field `historyText`, and the highlighted operator button is the field `activeOp`. The initial history text is taken to be empty.
- The 500 ms `setTimeout` that removes the error style in `showError` is not modelled: a timer and a CSS class, with no effect on the calculator's state.
- `initializeEventListeners`, `handleKeyboard` and the `DOMContentLoaded` start-up are left out: they are event wiring. A button press is the `Event` value given to `States.Step`, and key mapping is not modelled.
- Floating point is not modelled. Values are exact thousandths. The artefacts `Math.round(x * 1000) / 1000` can leave in a binary double are not represented, and neither is the exponent notation of `toString` for very small or very large numbers (unreachable within eight integer digits and three decimals).
- Arithmetic.Rounded: rounds the exact result half up. In the code the double fed to `Math.round` can lie just below a half, so a product or quotient that is exactly half-way between two thousandths can round down there. For example, 1.001 × 0.5 times 1000 is about 500.49999999999994 as a double, which gives 0.5, while the model gives 0.501 (`Calculate(1001, 500, Mul) == Num(501)`).
- The `default` branch of `calculate` (script.js:177-178) is left out: the operator is always one of the four `Op` values.
- Numerals.FormatNumber: takes a value already rounded to thousandths, so the rounding at script.js:89 is the identity. The regex at script.js:96 only removes zeros that `toString` never produces, so the fraction digits are produced directly without trailing zeros (`FractionText`).
- Numerals.ParseValue: `parseFloat` is modelled only on the numerals the display can hold while no error is shown, which is the only place the code applies it.
- States.ActionNamed: the actions object literal would also answer inherited property names such as `toString`. Only the five action names are modelled.
- Device.Calculator.HandleOperator and Device.Calculator.Equals delegate parts of their bodies to `SettleOperands`, `InstallOperator` and `RecordResult`. These are helper methods of the model, not of the source, and they run the same statements in the same order.
- Device.Calculator.constructor: the DOM lookups and the constants of the constructor are module constants (`MAX_INTEGER_DIGITS`, `MAX_DECIMAL_PLACES`, `DECIMAL_MULTIPLIER`), not fields.
