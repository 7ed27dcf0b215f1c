/**
 * The calculator's display value is a string that is built key by key.
 * This module holds what the calculator does with such strings: the
 * JavaScript string operations it relies on (split, replace, includes,
 * and the character search underneath them), the shape of a numeral it
 * can show, the digit-limit test, parsing a numeral into a number and
 * formatting a number back into a numeral.
 *
 * Numbers are exact integers counting thousandths of a unit: every value
 * the calculator enters or computes has at most three fraction digits.
 */
module Numerals {

  const MAX_INTEGER_DIGITS: nat := 8
  const MAX_DECIMAL_PLACES: nat := 3
  /** 10^MAX_DECIMAL_PLACES: thousandths per unit. */
  const DECIMAL_MULTIPLIER: nat := 1000
  /** 10^MAX_INTEGER_DIGITS units, in thousandths: the least magnitude whose integer part has too many digits. */
  const LIMIT: nat := 100_000_000_000

  predicate InRange(n: int) { -(LIMIT as int) < n < LIMIT }

  function Abs(n: int): nat { if n < 0 then -n else n }

  function Pow10(n: nat): (p: nat)
    ensures p >= 1
  {
    if n == 0 then 1 else 10 * Pow10(n - 1)
  }

  lemma {:induction false} PowMonotone(i: nat, j: nat)
    requires i <= j
    ensures Pow10(i) <= Pow10(j)
    decreases j
  {
    if i < j { PowMonotone(i, j - 1); }
  }

  // ---------------------------------------------------------------------
  // Sequence shapes used by the proofs below

  lemma SplitAt<T>(u: seq<T>, k: nat)
    requires k < |u|
    ensures u == u[..k] + ([u[k]] + u[k + 1..])
  {
  }

  lemma DropLast<T>(u: seq<T>)
    requires |u| > 0
    ensures u == u[..|u| - 1] + [u[|u| - 1]]
  {
  }

  lemma TakeDropConcat<T>(a: seq<T>, b: seq<T>)
    ensures (a + b)[..|a|] == a && (a + b)[|a|..] == b
  {
  }

  lemma DropCons<T>(x: T, a: seq<T>)
    ensures ([x] + a)[1..] == a
  {
  }

  // ---------------------------------------------------------------------
  // Digits

  predicate IsDigit(c: char) { '0' <= c <= '9' }

  predicate IsDigits(s: string) { forall i | 0 <= i < |s| :: IsDigit(s[i]) }

  function DigitValue(c: char): (v: nat)
    requires IsDigit(c)
    ensures v < 10
  {
    c as int - '0' as int
  }

  function DigitChar(v: nat): (c: char)
    requires v < 10
    ensures IsDigit(c) && DigitValue(c) == v
  {
    ('0' as int + v) as char
  }

  /** The number a string of decimal digits denotes (most significant first). */
  function DigitsValue(ds: string): (v: nat)
    requires IsDigits(ds)
    ensures v < Pow10(|ds|)
    decreases |ds|
  {
    if |ds| == 0 then 0 else DigitsValue(ds[..|ds| - 1]) * 10 + DigitValue(ds[|ds| - 1])
  }

  lemma DigitsValueSnoc(ds: string, d: char)
    requires IsDigits(ds) && IsDigit(d)
    ensures IsDigits(ds + [d]) && DigitsValue(ds + [d]) == DigitsValue(ds) * 10 + DigitValue(d)
  {
    TakeDropConcat(ds, [d]);
  }

  // ---------------------------------------------------------------------
  // The JavaScript string operations the calculator uses

  /** String.prototype.indexOf for one character, with |s| standing for "not found". */
  function IndexOf(s: string, c: char): (i: nat)
    ensures i <= |s|
    ensures i < |s| ==> s[i] == c
    ensures forall j | 0 <= j < i :: s[j] != c
  {
    if |s| == 0 || s[0] == c then 0 else 1 + IndexOf(s[1..], c)
  }

  lemma {:induction false} IndexOfConcat(a: string, b: string, c: char)
    requires c !in a
    ensures IndexOf(a + b, c) == |a| + IndexOf(b, c)
    decreases |a|
  {
    if |a| == 0 {
      assert a + b == b;
    } else {
      assert (a + b)[1..] == a[1..] + b;
      IndexOfConcat(a[1..], b, c);
    }
  }

  /** The inverse of Split: the parts with the separator between them. */
  function Join(parts: seq<string>, sep: char): string
    requires |parts| >= 1
  {
    if |parts| == 1 then parts[0] else parts[0] + [sep] + Join(parts[1..], sep)
  }

  /** String.prototype.split with a one-character separator. */
  function Split(s: string, sep: char): (parts: seq<string>)
    ensures |parts| >= 1
    ensures Join(parts, sep) == s
    ensures forall k | 0 <= k < |parts| :: sep !in parts[k]
    decreases |s|
  {
    var i := IndexOf(s, sep);
    if i == |s| then [s]
    else
      var rest := Split(s[i + 1..], sep);
      DropCons(s[..i], rest);
      SplitAt(s, i);
      [s[..i]] + rest
  }

  lemma SplitWithout(s: string, sep: char)
    requires sep !in s
    ensures Split(s, sep) == [s]
  {
  }

  lemma SplitOnce(a: string, b: string, sep: char)
    requires sep !in a && sep !in b
    ensures Split(a + ([sep] + b), sep) == [a, b]
  {
    IndexOfConcat(a, [sep] + b, sep);
    TakeDropConcat(a, [sep] + b);
    DropCons(sep, b);
    SplitWithout(b, sep);
  }

  /** String.prototype.replace(c, ''): drops the first occurrence of c, if any. */
  function RemoveFirst(s: string, c: char): (r: string)
    ensures c !in s ==> r == s
    ensures c in s ==> |r| + 1 == |s| && multiset(r) + multiset{c} == multiset(s)
    ensures r[..IndexOf(s, c)] == s[..IndexOf(s, c)]
    ensures c in s ==> r[IndexOf(s, c)..] == s[IndexOf(s, c) + 1..]
  {
    var i := IndexOf(s, c);
    if i == |s| then s
    else
      SplitAt(s, i);
      s[..i] + s[i + 1..]
  }

  // ---------------------------------------------------------------------
  // Numerals: an optional '-', integer digits, optionally '.' and fraction digits

  predicate IsNegative(s: string) { |s| > 0 && s[0] == '-' }

  function Unsigned(s: string): string { if IsNegative(s) then s[1..] else s }

  /** The digits before the point, sign removed. */
  function IntegerDigits(s: string): string
  {
    var u := Unsigned(s);
    u[..IndexOf(u, '.')]
  }

  /** The digits after the point; empty when there is no point. */
  function FractionDigits(s: string): string
  {
    var u := Unsigned(s);
    var k := IndexOf(u, '.');
    if k < |u| then u[k + 1..] else ""
  }

  /** A numeral that fits the display: 1 to 8 integer digits, at most one point, at most 3 fraction digits. */
  predicate IsNumeral(s: string)
  {
    && IsDigits(IntegerDigits(s)) && 1 <= |IntegerDigits(s)| <= MAX_INTEGER_DIGITS
    && IsDigits(FractionDigits(s)) && |FractionDigits(s)| <= MAX_DECIMAL_PLACES
  }

  /** A signed zero with no fraction digits: "-0" or "-0.". */
  predicate IsNegativeZero(s: string)
  {
    IsNegative(s) && IntegerDigits(s) == "0" && FractionDigits(s) == ""
  }

  /** The values the display can hold while no error is shown. */
  predicate WellFormed(s: string)
  {
    IsNumeral(s) && !IsNegativeZero(s)
  }

  function Sign(negative: bool): string { if negative then "-" else "" }

  /** The text after the integer digits: '.' and the fraction digits, or nothing. */
  function PointTail(point: bool, fraction: string): string
  {
    if point then "." + fraction else ""
  }

  /** The numeral with the given sign, integer digits and optional fraction. */
  function Compose(negative: bool, whole: string, point: bool, fraction: string): string
  {
    Sign(negative) + (whole + PointTail(point, fraction))
  }

  predicate ValidParts(whole: string, point: bool, fraction: string)
  {
    IsDigits(whole) && |whole| >= 1 && IsDigits(fraction) && (!point ==> fraction == "")
  }

  lemma ComposeSign(negative: bool, whole: string, point: bool, fraction: string)
    requires |whole| >= 1 && IsDigit(whole[0])
    ensures IsNegative(Compose(negative, whole, point, fraction)) == negative
    ensures Unsigned(Compose(negative, whole, point, fraction)) == whole + PointTail(point, fraction)
  {
    var u := whole + PointTail(point, fraction);
    assert u[0] == whole[0];
    DropCons('-', u);
  }

  lemma PointIndex(whole: string, point: bool, fraction: string)
    requires '.' !in whole && '.' !in fraction
    ensures IndexOf(whole + PointTail(point, fraction), '.') == |whole|
  {
    IndexOfConcat(whole, PointTail(point, fraction), '.');
  }

  lemma UnsignedParts(whole: string, point: bool, fraction: string)
    requires ValidParts(whole, point, fraction)
    ensures var u := whole + PointTail(point, fraction);
      && IndexOf(u, '.') == |whole|
      && u[..IndexOf(u, '.')] == whole
      && (if IndexOf(u, '.') < |u| then u[IndexOf(u, '.') + 1..] else "") == fraction
      && ('.' in u <==> point)
  {
    assert '.' !in whole && '.' !in fraction;
    PointIndex(whole, point, fraction);
    TakeDropConcat(whole, PointTail(point, fraction));
    if point {
      DropCons('.', fraction);
    }
  }

  lemma ComposeParts(negative: bool, whole: string, point: bool, fraction: string)
    requires ValidParts(whole, point, fraction)
    ensures IsNegative(Compose(negative, whole, point, fraction)) == negative
    ensures IntegerDigits(Compose(negative, whole, point, fraction)) == whole
    ensures FractionDigits(Compose(negative, whole, point, fraction)) == fraction
    ensures '.' in Compose(negative, whole, point, fraction) <==> point
  {
    ComposeSign(negative, whole, point, fraction);
    UnsignedParts(whole, point, fraction);
    assert '.' !in Sign(negative);
  }

  lemma ComposeNumeral(negative: bool, whole: string, point: bool, fraction: string)
    requires ValidParts(whole, point, fraction)
    ensures IsNumeral(Compose(negative, whole, point, fraction))
      <==> |whole| <= MAX_INTEGER_DIGITS && |fraction| <= MAX_DECIMAL_PLACES
    ensures IsNegativeZero(Compose(negative, whole, point, fraction))
      <==> negative && whole == "0" && fraction == ""
  {
    ComposeParts(negative, whole, point, fraction);
  }

  lemma SignSplit(s: string)
    ensures s == Sign(IsNegative(s)) + Unsigned(s)
  {
    if IsNegative(s) {
      SplitAt(s, 0);
    }
  }

  lemma IndexOfFound(u: string, c: char)
    ensures c in u <==> IndexOf(u, c) < |u|
  {
    var k := IndexOf(u, c);
    if c in u {
      var j :| 0 <= j < |u| && u[j] == c;
      assert k <= j;
    }
  }

  lemma PointSplit(u: string)
    ensures var k := IndexOf(u, '.');
      u == u[..k] + PointTail(k < |u|, if k < |u| then u[k + 1..] else "")
    ensures '.' in u <==> IndexOf(u, '.') < |u|
  {
    IndexOfFound(u, '.');
    var k := IndexOf(u, '.');
    if k < |u| {
      SplitAt(u, k);
      assert [u[k]] + u[k + 1..] == PointTail(true, u[k + 1..]);
    } else {
      assert u[..k] == u;
    }
  }

  /** Every numeral is the composition of the parts read from it. */
  lemma Decompose(s: string)
    requires IsNumeral(s)
    ensures ValidParts(IntegerDigits(s), '.' in s, FractionDigits(s))
    ensures s == Compose(IsNegative(s), IntegerDigits(s), '.' in s, FractionDigits(s))
  {
    var u := Unsigned(s);
    SignSplit(s);
    PointSplit(u);
    assert '.' in s <==> '.' in u by {
      assert '.' !in Sign(IsNegative(s));
    }
  }

  lemma ComposeShapes(negative: bool, whole: string, fraction: string, d: char)
    ensures Compose(negative, whole, true, fraction) == (Sign(negative) + whole) + (['.'] + fraction)
    ensures Compose(negative, whole, false, "") == Sign(negative) + whole
    ensures Compose(negative, whole, true, fraction) + [d] == Compose(negative, whole, true, fraction + [d])
    ensures Compose(negative, whole, false, "") + [d] == Compose(negative, whole + [d], false, "")
    ensures Compose(negative, whole, false, "") + "." == Compose(negative, whole, true, "")
    ensures Compose(true, whole, true, fraction) == "-" + Compose(false, whole, true, fraction)
    ensures Compose(true, whole, false, "") == "-" + Compose(false, whole, false, "")
  {
  }

  // ---------------------------------------------------------------------
  // Editing the value being entered

  /**
   * Calculator.canAddDigit: split at '.', drop the sign from the integer part,
   * and allow a digit while the part being extended is below its limit.
   */
  function CanAddDigit(value: string): bool
  {
    var parts := Split(value, '.');
    var integerPart := RemoveFirst(parts[0], '-');
    if |parts| == 1 then |integerPart| < MAX_INTEGER_DIGITS
    else |parts[1]| < MAX_DECIMAL_PLACES
  }

  /** The value after a digit key that canAddDigit allows: a lone "0" is replaced, anything else extended. */
  function AppendDigit(value: string, d: char): (r: string)
    ensures |r| >= 1 && r[|r| - 1] == d
    ensures value != "0" ==> r[..|r| - 1] == value
    ensures value == "0" ==> r == [d]
  {
    if value == "0" then [d] else value + [d]
  }

  /** The value after the decimal key when a number is being extended (addDecimal). */
  function AppendPoint(value: string): (r: string)
    ensures '.' in r && |value| <= |r| <= |value| + 1 && r[..|value|] == value
    ensures '.' in value ==> r == value
  {
    if '.' in value then value else value + "."
  }

  /** The value after the sign key (toggleSign): zero and "0." stay, otherwise a leading '-' is added or removed. */
  function ToggledSign(value: string): string
  {
    if value != "0" && value != "0." then
      (if IsNegative(value) then value[1..] else "-" + value)
    else value
  }

  lemma UnsignedIntegerPart(negative: bool, whole: string)
    requires IsDigits(whole)
    ensures RemoveFirst(Sign(negative) + whole, '-') == whole
  {
    assert '-' !in whole;
    if negative {
      assert IndexOf("-" + whole, '-') == 0;
      DropCons('-', whole);
    }
  }

  lemma CanAddDigitParts(negative: bool, whole: string, point: bool, fraction: string)
    requires ValidParts(whole, point, fraction)
    ensures CanAddDigit(Compose(negative, whole, point, fraction))
      <==> if point then |fraction| < MAX_DECIMAL_PLACES else |whole| < MAX_INTEGER_DIGITS
  {
    var value := Compose(negative, whole, point, fraction);
    ComposeShapes(negative, whole, fraction, '0');
    UnsignedIntegerPart(negative, whole);
    if point {
      assert '.' !in Sign(negative) + whole && '.' !in fraction;
      SplitOnce(Sign(negative) + whole, fraction, '.');
    } else {
      assert '.' !in value;
      SplitWithout(value, '.');
    }
  }

  /** The numeral with one more digit, as parts. */
  function AppendedParts(negative: bool, whole: string, point: bool, fraction: string, d: char): string
  {
    if point then Compose(negative, whole, true, fraction + [d]) else Compose(negative, whole + [d], false, "")
  }

  lemma AppendDigitParts(negative: bool, whole: string, point: bool, fraction: string, d: char)
    requires ValidParts(whole, point, fraction) && IsDigit(d)
    ensures Compose(negative, whole, point, fraction) + [d] == AppendedParts(negative, whole, point, fraction, d)
    ensures IsNumeral(AppendedParts(negative, whole, point, fraction, d))
      <==> if point then |fraction| < MAX_DECIMAL_PLACES && |whole| <= MAX_INTEGER_DIGITS
           else |whole| < MAX_INTEGER_DIGITS && |fraction| <= MAX_DECIMAL_PLACES
    ensures IsNegativeZero(AppendedParts(negative, whole, point, fraction, d))
      <==> negative && whole == "0" && point && fraction + [d] == ""
  {
    ComposeShapes(negative, whole, fraction, d);
    if point {
      ComposeNumeral(negative, whole, true, fraction + [d]);
    } else {
      ComposeNumeral(negative, whole + [d], false, "");
    }
  }

  lemma CanAddDigitIffRoom(value: string, d: char)
    requires IsNumeral(value) && IsDigit(d)
    ensures CanAddDigit(value) <==> IsNumeral(value + [d])
  {
    var negative, whole, point, fraction :=
      IsNegative(value), IntegerDigits(value), '.' in value, FractionDigits(value);
    Decompose(value);
    CanAddDigitParts(negative, whole, point, fraction);
    AppendDigitParts(negative, whole, point, fraction, d);
  }

  /** A single digit is a numeral of that many units. */
  lemma DigitNumeral(d: char)
    requires IsDigit(d)
    ensures WellFormed([d]) && ParseValue([d]) == DigitValue(d) * DECIMAL_MULTIPLIER
  {
    ComposeShapes(false, "", "", d);
    ParseParts(false, [d], false, "");
    ComposeNumeral(false, [d], false, "");
  }

  lemma AppendDigitWellFormed(value: string, d: char)
    requires WellFormed(value) && IsDigit(d) && CanAddDigit(value)
    ensures WellFormed(AppendDigit(value, d))
  {
    if value != "0" {
      var negative, whole, point, fraction :=
        IsNegative(value), IntegerDigits(value), '.' in value, FractionDigits(value);
      Decompose(value);
      CanAddDigitParts(negative, whole, point, fraction);
      AppendDigitParts(negative, whole, point, fraction, d);
    } else {
      DigitNumeral(d);
    }
  }

  /** The value, in thousandths, of a numeral with the given sign, integer digits and fraction digits. */
  function PartsValue(negative: bool, whole: string, fraction: string): int
    requires IsDigits(whole) && IsDigits(fraction) && |fraction| <= MAX_DECIMAL_PLACES
  {
    var magnitude := DigitsValue(whole) * DECIMAL_MULTIPLIER
      + DigitsValue(fraction) * Pow10(MAX_DECIMAL_PLACES - |fraction|);
    if negative then -magnitude else magnitude
  }

  lemma PartsValueInRange(negative: bool, whole: string, fraction: string)
    requires IsDigits(whole) && |whole| <= MAX_INTEGER_DIGITS
    requires IsDigits(fraction) && |fraction| <= MAX_DECIMAL_PLACES
    ensures InRange(PartsValue(negative, whole, fraction))
  {
    assert DigitsValue(whole) < 100_000_000 by {
      PowMonotone(|whole|, MAX_INTEGER_DIGITS);
    }
    assert DigitsValue(fraction) * Pow10(MAX_DECIMAL_PLACES - |fraction|) < 1000 by {
      var k := |fraction|;
      assert k == 0 || k == 1 || k == 2 || k == 3;
    }
  }

  lemma ParseParts(negative: bool, whole: string, point: bool, fraction: string)
    requires ValidParts(whole, point, fraction)
    requires |whole| <= MAX_INTEGER_DIGITS && |fraction| <= MAX_DECIMAL_PLACES
    ensures IsNumeral(Compose(negative, whole, point, fraction))
    ensures ParseValue(Compose(negative, whole, point, fraction)) == PartsValue(negative, whole, fraction)
  {
    ComposeParts(negative, whole, point, fraction);
    ComposeNumeral(negative, whole, point, fraction);
  }

  lemma AppendPointKeepsValue(value: string)
    requires WellFormed(value)
    ensures WellFormed(AppendPoint(value)) && '.' in AppendPoint(value)
    ensures ParseValue(AppendPoint(value)) == ParseValue(value)
  {
    Decompose(value);
    if '.' !in value {
      var negative, whole := IsNegative(value), IntegerDigits(value);
      ComposeShapes(negative, whole, "", '0');
      ComposeParts(negative, whole, true, "");
      ComposeNumeral(negative, whole, true, "");
      ParseParts(negative, whole, true, "");
      ParseParts(negative, whole, false, "");
    }
  }

  lemma ZeroNumerals()
    ensures Compose(false, "0", false, "") == "0" && Compose(false, "0", true, "") == "0."
    ensures IntegerDigits("0") == "0" && FractionDigits("0") == "" && !IsNegative("0")
    ensures IntegerDigits("0.") == "0" && FractionDigits("0.") == "" && !IsNegative("0.")
    ensures WellFormed("0") && WellFormed("0.")
  {
    ComposeParts(false, "0", false, "");
    ComposeParts(false, "0", true, "");
  }

  /** toggleSign on a numeral given by its parts: zero stays, anything else changes sign. */
  lemma ToggleParts(negative: bool, whole: string, point: bool, fraction: string)
    requires ValidParts(whole, point, fraction)
    ensures ToggledSign(Compose(negative, whole, point, fraction))
      == if !negative && whole == "0" && fraction == "" then Compose(negative, whole, point, fraction)
         else Compose(!negative, whole, point, fraction)
  {
    var value := Compose(negative, whole, point, fraction);
    ZeroNumerals();
    ComposeParts(negative, whole, point, fraction);
    ComposeShapes(true, whole, fraction, '0');
    if negative {
      DropCons('-', Compose(false, whole, point, fraction));
    }
  }

  lemma ToggledSignNegates(value: string)
    requires WellFormed(value)
    ensures WellFormed(ToggledSign(value))
    ensures ParseValue(ToggledSign(value)) == -ParseValue(value)
    ensures ToggledSign(ToggledSign(value)) == value
  {
    var negative, whole, point, fraction :=
      IsNegative(value), IntegerDigits(value), '.' in value, FractionDigits(value);
    Decompose(value);
    ToggleParts(negative, whole, point, fraction);
    ParseParts(negative, whole, point, fraction);
    if !negative && whole == "0" && fraction == "" {
      assert DigitsValue("0") == 0;
    } else {
      ToggleParts(!negative, whole, point, fraction);
      ComposeNumeral(!negative, whole, point, fraction);
      ParseParts(!negative, whole, point, fraction);
    }
  }

  // ---------------------------------------------------------------------
  // Parsing and formatting

  /** parseFloat on a numeral, in thousandths. */
  function ParseValue(s: string): (n: int)
    requires IsNumeral(s)
    ensures InRange(n)
  {
    PartsValueInRange(IsNegative(s), IntegerDigits(s), FractionDigits(s));
    PartsValue(IsNegative(s), IntegerDigits(s), FractionDigits(s))
  }

  /** Number.prototype.toString on a non-negative integer. */
  function NatToString(n: nat): (s: string)
    ensures 1 <= |s| && IsDigits(s) && DigitsValue(s) == n
    ensures |s| > 1 ==> s[0] != '0'
  {
    if n < 10 then [DigitChar(n)]
    else
      var prefix := NatToString(n / 10);
      assert prefix[0] != '0' by {
        if |prefix| == 1 { assert DigitsValue(prefix) == DigitValue(prefix[0]); }
      }
      DigitsValueSnoc(prefix, DigitChar(n % 10));
      prefix + [DigitChar(n % 10)]
  }

  lemma {:induction false} NatToStringLength(n: nat, k: nat)
    requires k >= 1
    ensures |NatToString(n)| <= k <==> n < Pow10(k)
    decreases n
  {
    PowMonotone(1, k);
    if n >= 10 {
      if k > 1 {
        NatToStringLength(n / 10, k - 1);
      }
    }
  }

  lemma ThousandthsDigits(f: nat)
    requires f < DECIMAL_MULTIPLIER
    ensures f / 100 < 10 && f == f / 100 * 100 + f / 10 % 10 * 10 + f % 10
  {
  }

  /** The fraction digits of f thousandths, with trailing zeros removed (the regex in formatNumber). */
  function FractionText(f: nat): (s: string)
    requires 0 < f < DECIMAL_MULTIPLIER
    ensures 1 <= |s| <= MAX_DECIMAL_PLACES && IsDigits(s) && s[|s| - 1] != '0'
    ensures DigitsValue(s) * Pow10(MAX_DECIMAL_PLACES - |s|) == f
  {
    ThousandthsDigits(f);
    var hundreds, tens, units := f / 100, f / 10 % 10, f % 10;
    var one := [DigitChar(hundreds)];
    var two := one + [DigitChar(tens)];
    var three := two + [DigitChar(units)];
    DigitsValueSnoc([], DigitChar(hundreds));
    DigitsValueSnoc(one, DigitChar(tens));
    DigitsValueSnoc(two, DigitChar(units));
    assert Pow10(0) == 1 && Pow10(1) == 10 && Pow10(2) == 100;
    if units != 0 then three
    else if tens != 0 then two
    else one
  }

  /** The fraction digits of a value in [0, 1000) thousandths, empty for none. */
  function FractionPart(f: nat): (s: string)
    requires f < DECIMAL_MULTIPLIER
    ensures IsDigits(s) && |s| <= MAX_DECIMAL_PLACES && (f == 0 <==> s == "")
    ensures DigitsValue(s) * Pow10(MAX_DECIMAL_PLACES - |s|) == f
  {
    if f == 0 then "" else FractionText(f)
  }

  /** Calculator.formatNumber on a value already rounded to thousandths. */
  function FormatNumber(n: int): (s: string)
    ensures |s| >= 1 && s[|s| - 1] != '.'
    ensures '.' in s ==> s[|s| - 1] != '0'
  {
    var magnitude := Abs(n);
    var fraction := magnitude % DECIMAL_MULTIPLIER;
    var whole := NatToString(magnitude / DECIMAL_MULTIPLIER);
    var text := FractionPart(fraction);
    ComposeEnd(n < 0, whole, fraction != 0, text);
    Compose(n < 0, whole, fraction != 0, text)
  }

  lemma ComposeEnd(negative: bool, whole: string, point: bool, fraction: string)
    requires ValidParts(whole, point, fraction)
    requires point ==> |fraction| >= 1 && fraction[|fraction| - 1] != '0'
    ensures var s := Compose(negative, whole, point, fraction);
      |s| >= 1 && s[|s| - 1] != '.' && ('.' in s ==> s[|s| - 1] != '0')
  {
    var s := Compose(negative, whole, point, fraction);
    ComposeShapes(negative, whole, fraction, '0');
    if point {
      assert s[|s| - 1] == fraction[|fraction| - 1];
    } else {
      assert s[|s| - 1] == whole[|whole| - 1];
      assert '.' !in s by {
        assert '.' !in Sign(negative) && '.' !in whole;
      }
    }
  }

  /**
   * formatNumber gives the shortest numeral of n: the sign exactly when n is
   * negative, the integer part as toString writes it (no leading zeros), and
   * a point followed by the fraction digits without trailing zeros exactly
   * when n is not whole.
   */
  lemma FormatShape(n: int)
    ensures IsNegative(FormatNumber(n)) == (n < 0)
    ensures IntegerDigits(FormatNumber(n)) == NatToString(Abs(n) / DECIMAL_MULTIPLIER)
    ensures FractionDigits(FormatNumber(n)) == FractionPart(Abs(n) % DECIMAL_MULTIPLIER)
    ensures '.' in FormatNumber(n) <==> Abs(n) % DECIMAL_MULTIPLIER != 0
  {
    var fraction := Abs(n) % DECIMAL_MULTIPLIER;
    ComposeParts(n < 0, NatToString(Abs(n) / DECIMAL_MULTIPLIER), fraction != 0, FractionPart(fraction));
  }

  /** The text before the point in formatNumber's output is the integer part. */
  lemma IntegerPartOfFormat(n: nat)
    ensures Split(FormatNumber(n), '.')[0] == NatToString(n / DECIMAL_MULTIPLIER)
  {
    var fraction := n % DECIMAL_MULTIPLIER;
    var whole := NatToString(n / DECIMAL_MULTIPLIER);
    var text := FractionPart(fraction);
    ComposeShapes(false, whole, text, '0');
    assert '.' !in whole && '.' !in text;
    if fraction != 0 {
      SplitOnce(whole, text, '.');
    } else {
      SplitWithout(whole, '.');
    }
  }

  /** The integer part of formatNumber's output has more than eight digits exactly when n is out of range. */
  lemma IntegerPartLength(n: nat)
    ensures |Split(FormatNumber(n), '.')[0]| > MAX_INTEGER_DIGITS <==> n >= LIMIT
  {
    IntegerPartOfFormat(n);
    NatToStringLength(n / DECIMAL_MULTIPLIER, MAX_INTEGER_DIGITS);
  }

  lemma FormatRoundTrip(n: int)
    requires InRange(n)
    ensures WellFormed(FormatNumber(n))
    ensures ParseValue(FormatNumber(n)) == n
  {
    var magnitude := Abs(n);
    var fraction := magnitude % DECIMAL_MULTIPLIER;
    var whole := NatToString(magnitude / DECIMAL_MULTIPLIER);
    var text := FractionPart(fraction);
    assert FormatNumber(n) == Compose(n < 0, whole, fraction != 0, text);
    NatToStringLength(magnitude / DECIMAL_MULTIPLIER, MAX_INTEGER_DIGITS);
    assert |whole| <= MAX_INTEGER_DIGITS;
    ParseParts(n < 0, whole, fraction != 0, text);
    ComposeNumeral(n < 0, whole, fraction != 0, text);
    assert whole == "0" ==> magnitude / DECIMAL_MULTIPLIER == 0 by {
      assert DigitsValue("0") == 0;
    }
  }
}
