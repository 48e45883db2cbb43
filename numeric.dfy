/** `validate_numeric_param`: converts a numeric string (`float()` when it
    contains a dot, `int()` otherwise), passes any other value through, and
    then checks the optional inclusive bounds, the minimum first. */
module NumericValidation {
  import opened Python
  import opened Errors
  import PyInt

  /** Python's `float(s)` on a string, left abstract: the decimal grammar and the
      rounding to the nearest double are not modelled. None stands for ValueError. */
  type FloatParser = string -> Option<Float>

  /** The conversion inside the `try`; None where it raised ValueError. */
  function Convert(value: Value, parseFloat: FloatParser): Option<Value> {
    if !value.Str? then Some(value)
    else if '.' in value.s then
      (var f := parseFloat(value.s); if f.Some? then Some(Number(FloatNum(f.value))) else None)
    else
      (var i := PyInt.Parse(value.s, 10); if i.Some? then Some(Number(IntNum(i.value))) else None)
  }

  /** Comparing an object that is not a number with a numeric bound. */
  const UnorderableTypes := Foreign("TypeError", "'<' not supported between instances")

  /** The bound checks, after conversion: `num_value < min_value` first, then
      `num_value > max_value`; a comparison of a non-number raises TypeError. */
  function CheckBounds(v: Value, paramName: string, minValue: Option<Num>, maxValue: Option<Num>): Outcome<Value> {
    if minValue.Some? && !v.Number? then Raised(UnorderableTypes)
    else if minValue.Some? && Less(v.n, minValue.value) then
      Raised(InvalidParameterError(paramName, BelowMinimum(v.n, minValue.value)))
    else if maxValue.Some? && !v.Number? then Raised(UnorderableTypes)
    else if maxValue.Some? && Less(maxValue.value, v.n) then
      Raised(InvalidParameterError(paramName, AboveMaximum(v.n, maxValue.value)))
    else Returned(v)
  }

  /** Neither bound rejects n (Python's `not (n < lo)` and `not (n > hi)`). */
  predicate WithinBounds(n: Num, minValue: Option<Num>, maxValue: Option<Num>) {
    (minValue.Some? ==> !Less(n, minValue.value)) && (maxValue.Some? ==> !Less(maxValue.value, n))
  }

  /** The validated value, or the exception: an `InvalidParameterError` naming the
      parameter for a string that does not convert or a bound that is violated,
      and a foreign `TypeError` when a non-number meets a bound. */
  function ValidateNumericParam(value: Value, paramName: string, minValue: Option<Num>, maxValue: Option<Num>, parseFloat: FloatParser): (r: Outcome<Value>)
    ensures r.Returned? && r.value.Number? ==> WithinBounds(r.value.n, minValue, maxValue)
    ensures r.Returned? && !value.Str? ==> r.value == value
    ensures r.Returned? && value.Str? ==> r.value.Number?
    ensures r.Raised? ==> (r.exc.InvalidParameterError? && r.exc.param == paramName) || (r.exc == UnorderableTypes && value.Other?)
  {
    match Convert(value, parseFloat)
    case None => Raised(InvalidParameterError(paramName, NotANumber))
    case Some(v) => CheckBounds(v, paramName, minValue, maxValue)
  }

  /** A string without a dot goes through `int()` only: the float parser is never consulted. */
  lemma IntPathIgnoresFloatParser(s: string, paramName: string, minValue: Option<Num>, maxValue: Option<Num>, f1: FloatParser, f2: FloatParser)
    requires '.' !in s
    ensures ValidateNumericParam(Str(s), paramName, minValue, maxValue, f1)
         == ValidateNumericParam(Str(s), paramName, minValue, maxValue, f2)
  {
  }

  /** A string with a dot goes through `float()` only: it converts exactly when
      `float()` accepts it, whether or not `int()` would. */
  lemma DotPathUsesFloatOnly(s: string, paramName: string, minValue: Option<Num>, maxValue: Option<Num>, parseFloat: FloatParser)
    requires '.' in s
    ensures parseFloat(s).None? ==>
      ValidateNumericParam(Str(s), paramName, minValue, maxValue, parseFloat) == Raised(InvalidParameterError(paramName, NotANumber))
    ensures parseFloat(s).Some? ==>
      ValidateNumericParam(Str(s), paramName, minValue, maxValue, parseFloat)
      == ValidateNumericParam(Number(FloatNum(parseFloat(s).value)), paramName, minValue, maxValue, parseFloat)
  {
  }

  /** An exponent form without a dot (such as `1e5`) takes the `int()` path and
      is rejected, whatever `float()` would have made of it. */
  lemma ExponentWithoutDotRejected(s: string, k: nat, paramName: string, minValue: Option<Num>, maxValue: Option<Num>, parseFloat: FloatParser)
    requires '.' !in s && k < |s| && (s[k] == 'e' || s[k] == 'E')
    ensures ValidateNumericParam(Str(s), paramName, minValue, maxValue, parseFloat)
         == Raised(InvalidParameterError(paramName, NotANumber))
  {
    assert !PyInt.MayAppear(s[k], 10) by {
      assert PyInt.DigitValue('e') == PyInt.DigitValue('E') == 14;
    }
    PyInt.ForeignCharRejected(s, 10, k);
  }

  /** The decimal rendering of an integer has no dot, so it takes the `int()` path. */
  lemma FormatHasNoDot(i: int)
    ensures '.' !in PyInt.Format(i, 10)
  {
    var s := PyInt.Format(i, 10);
    assert PyInt.DigitValue('.') == 36;
    if i < 0 {
      var d := PyInt.Digits(-i, 10);
      assert s == "-" + d;
      forall k | 0 <= k < |s|
        ensures s[k] != '.'
      {
        if k > 0 {
          assert s[k] == d[k - 1];
        }
      }
    }
  }

  /** Round trip: the decimal rendering of any integer validates to that integer. */
  lemma FormattedIntAccepted(i: int, paramName: string, parseFloat: FloatParser)
    ensures ValidateNumericParam(Str(PyInt.Format(i, 10)), paramName, None, None, parseFloat)
         == Returned(Number(IntNum(i)))
  {
    PyInt.FormatThenParse(i, 10);
    FormatHasNoDot(i);
  }

  /** For a number that is not NaN, the bounds are inclusive and decide acceptance:
      it is returned unchanged exactly when `min_value <= n <= max_value`. */
  lemma AcceptedIffWithinBounds(n: Num, paramName: string, minValue: Option<Num>, maxValue: Option<Num>, parseFloat: FloatParser)
    requires n != FloatNum(NaN)
    requires minValue.Some? ==> minValue.value != FloatNum(NaN)
    requires maxValue.Some? ==> maxValue.value != FloatNum(NaN)
    ensures ValidateNumericParam(Number(n), paramName, minValue, maxValue, parseFloat) == Returned(Number(n))
        <==> (minValue.Some? ==> LessOrEqual(minValue.value, n)) && (maxValue.Some? ==> LessOrEqual(n, maxValue.value))
  {
    if minValue.Some? {
      NotLessIsLessOrEqual(n, minValue.value);
    }
    if maxValue.Some? {
      NotLessIsLessOrEqual(maxValue.value, n);
    }
  }

  /** The bounds are inclusive: a number other than NaN that equals both bounds
      is returned unchanged. */
  lemma BoundsAreInclusive(n: Num, paramName: string, parseFloat: FloatParser)
    requires n != FloatNum(NaN)
    ensures ValidateNumericParam(Number(n), paramName, Some(n), Some(n), parseFloat) == Returned(Number(n))
  {
    LessIsStrictOrder(n, n, n);
  }

  /** The minimum is checked first: a value below it is reported as such even
      when it also violates the maximum. */
  lemma BelowMinimumReportedFirst(value: Value, n: Num, paramName: string, lo: Num, maxValue: Option<Num>, parseFloat: FloatParser)
    requires Convert(value, parseFloat) == Some(Number(n)) && Less(n, lo)
    ensures ValidateNumericParam(value, paramName, Some(lo), maxValue, parseFloat)
         == Raised(InvalidParameterError(paramName, BelowMinimum(n, lo)))
  {
  }

  /** A value above the maximum that passes the minimum is reported as above the maximum. */
  lemma AboveMaximumReported(value: Value, n: Num, paramName: string, minValue: Option<Num>, hi: Num, parseFloat: FloatParser)
    requires Convert(value, parseFloat) == Some(Number(n))
    requires minValue.Some? ==> !Less(n, minValue.value)
    requires Less(hi, n)
    ensures ValidateNumericParam(value, paramName, minValue, Some(hi), parseFloat)
         == Raised(InvalidParameterError(paramName, AboveMaximum(n, hi)))
  {
  }

  /** NaN compares false both ways, so a NaN float passes every bound. */
  lemma NaNPassesBounds(paramName: string, minValue: Option<Num>, maxValue: Option<Num>, parseFloat: FloatParser)
    ensures ValidateNumericParam(Number(FloatNum(NaN)), paramName, minValue, maxValue, parseFloat)
         == Returned(Number(FloatNum(NaN)))
  {
  }

  /** An object that is not a number passes when no bound is given, and raises a
      foreign TypeError (not `InvalidParameterError`) as soon as one is. */
  lemma NonNumberMeetsBound(typeName: string, paramName: string, minValue: Option<Num>, maxValue: Option<Num>, parseFloat: FloatParser)
    ensures ValidateNumericParam(Other(typeName), paramName, minValue, maxValue, parseFloat)
         == if minValue.None? && maxValue.None? then Returned(Other(typeName)) else Raised(UnorderableTypes)
  {
  }

  /** `"3.5"` against the bounds 0 and 10 is returned as the float 3.5, given that `float("3.5")` is 3.5. */
  lemma ThreeAndAHalfAccepted(paramName: string, parseFloat: FloatParser)
    requires parseFloat("3.5") == Some(Finite(3.5))
    ensures ValidateNumericParam(Str("3.5"), paramName, Some(IntNum(0)), Some(IntNum(10)), parseFloat)
         == Returned(Number(FloatNum(Finite(3.5))))
  {
    assert "3.5"[1] == '.';
  }
}
