/**
 * The four operations of the calculator (Calculator.calculate) on values
 * counted in thousandths, with the rounding to three decimal places and
 * the error cases: division by zero and a result whose integer part has
 * more than eight digits.
 */
module Arithmetic {
  import opened Numerals

  /** The operator keys '+', '-', '*' and '/'. */
  datatype Op = Add | Sub | Mul | Div

  /** What calculate returns: a number, or the 'ERR' marker. */
  datatype CalcResult = Num(value: int) | Err

  /**
   * r is Math.round(n / d): the integer nearest to n / d, halves going up,
   * that is r - 1/2 <= n / d < r + 1/2.
   */
  ghost predicate IsHalfUpRounding(r: int, n: int, d: int)
    requires d > 0
  {
    d * (2 * r - 1) <= 2 * n < d * (2 * r + 1)
  }

  lemma MulCancel(d: int, x: int, y: int)
    requires d > 0 && d * x < d * y
    ensures x < y
  {
  }

  lemma HalfUpRoundingUnique(r: int, r': int, n: int, d: int)
    requires d > 0 && IsHalfUpRounding(r, n, d) && IsHalfUpRounding(r', n, d)
    ensures r == r'
  {
    MulCancel(d, 2 * r - 1, 2 * r' + 1);
    MulCancel(d, 2 * r' - 1, 2 * r + 1);
  }

  /** Math.round(n / d) for a positive divisor. */
  function RoundHalfUp(n: int, d: int): int
    requires d > 0
  {
    (2 * n + d) / (2 * d)
  }

  lemma RoundHalfUpRounds(n: int, d: int)
    requires d > 0
    ensures IsHalfUpRounding(RoundHalfUp(n, d), n, d)
  {
    var q := RoundHalfUp(n, d);
    assert 2 * d * q <= 2 * n + d < 2 * d * q + 2 * d;
  }

  /** Numerator of the exact result of a op b, in thousandths (a, b in thousandths). */
  ghost function ExactNumerator(a: int, b: int, op: Op): int
  {
    match op
    case Add => a + b
    case Sub => a - b
    case Mul => a * b
    case Div => if b < 0 then -a * DECIMAL_MULTIPLIER else a * DECIMAL_MULTIPLIER
  }

  /** Denominator of the exact result of a op b, in thousandths; positive unless b divides by zero. */
  ghost function ExactDenominator(a: int, b: int, op: Op): int
  {
    match op
    case Add => 1
    case Sub => 1
    case Mul => DECIMAL_MULTIPLIER
    case Div => Abs(b)
  }

  /** The result of a op b rounded to three decimal places, in thousandths. */
  function Rounded(a: int, b: int, op: Op): int
    requires op == Div ==> b != 0
  {
    match op
    case Add => a + b
    case Sub => a - b
    case Mul => RoundHalfUp(a * b, DECIMAL_MULTIPLIER)
    case Div => if b > 0 then RoundHalfUp(a * DECIMAL_MULTIPLIER, b) else RoundHalfUp(-a * DECIMAL_MULTIPLIER, -b)
  }

  /** The rounded result is Math.round of the exact quotient or product, counted in thousandths. */
  lemma RoundedRounds(a: int, b: int, op: Op)
    requires op == Div ==> b != 0
    ensures ExactDenominator(a, b, op) > 0
    ensures IsHalfUpRounding(Rounded(a, b, op), ExactNumerator(a, b, op), ExactDenominator(a, b, op))
  {
    match op
    case Add =>
    case Sub =>
    case Mul => RoundHalfUpRounds(a * b, DECIMAL_MULTIPLIER);
    case Div =>
      if b > 0 {
        RoundHalfUpRounds(a * DECIMAL_MULTIPLIER, b);
      } else {
        RoundHalfUpRounds(-a * DECIMAL_MULTIPLIER, -b);
      }
  }

  /**
   * Calculator.calculate: division by zero fails, otherwise the rounded
   * result fails when its integer part needs more than eight digits.
   */
  function Calculate(a: int, b: int, op: Op): (r: CalcResult)
    ensures op == Div && b == 0 ==> r == Err
    ensures r.Num? ==> InRange(r.value)
  {
    if op == Div && b == 0 then Err
    else
      var result := Rounded(a, b, op);
      var resultStr := FormatNumber(Abs(result));
      var integerPart := Split(resultStr, '.')[0];
      IntegerPartLength(Abs(result));
      if |integerPart| > MAX_INTEGER_DIGITS then Err else Num(result)
  }

  /** calculate fails exactly on division by zero and on a rounded result out of range. */
  lemma CalculateOutcome(a: int, b: int, op: Op)
    ensures op == Div && b == 0 ==> Calculate(a, b, op) == Err
    ensures !(op == Div && b == 0) ==>
      Calculate(a, b, op) == if InRange(Rounded(a, b, op)) then Num(Rounded(a, b, op)) else Err
  {
    if !(op == Div && b == 0) {
      IntegerPartLength(Abs(Rounded(a, b, op)));
    }
  }

  /** Dividing by one unit (1000 thousandths) gives the dividend back. */
  lemma {:induction false} DivideByOne(a: int)
    requires InRange(a)
    ensures Calculate(a, DECIMAL_MULTIPLIER, Div) == Num(a)
  {
    var r := Rounded(a, DECIMAL_MULTIPLIER, Div);
    RoundedRounds(a, DECIMAL_MULTIPLIER, Div);
    CalculateOutcome(a, DECIMAL_MULTIPLIER, Div);
    assert IsHalfUpRounding(a, a * DECIMAL_MULTIPLIER, DECIMAL_MULTIPLIER);
    HalfUpRoundingUnique(r, a, a * DECIMAL_MULTIPLIER, DECIMAL_MULTIPLIER);
  }

  /** Multiplying by one unit gives the other factor back. */
  lemma {:induction false} MultiplyByOne(a: int)
    requires InRange(a)
    ensures Calculate(a, DECIMAL_MULTIPLIER, Mul) == Num(a)
  {
    var r := Rounded(a, DECIMAL_MULTIPLIER, Mul);
    RoundedRounds(a, DECIMAL_MULTIPLIER, Mul);
    CalculateOutcome(a, DECIMAL_MULTIPLIER, Mul);
    assert IsHalfUpRounding(a, a * DECIMAL_MULTIPLIER, DECIMAL_MULTIPLIER);
    HalfUpRoundingUnique(r, a, a * DECIMAL_MULTIPLIER, DECIMAL_MULTIPLIER);
  }

  /** Calculator.getOperatorSymbol: the sign shown in the history line. */
  function OperatorSymbol(op: Op): (s: string)
    ensures |s| == 1 && s[0] != ' ' && s[0] != '.' && !IsDigit(s[0])
  {
    match op
    case Add => "+"
    case Sub => "\U{2212}"
    case Mul => "\U{00D7}"
    case Div => "\U{00F7}"
  }

  lemma OperatorSymbolInjective(op: Op, op': Op)
    ensures OperatorSymbol(op) == OperatorSymbol(op') <==> op == op'
  {
  }
}
