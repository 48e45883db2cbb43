/** The part of Python's value model that the error-handling utilities rely on:
    optional values, the numbers `int` and `float` (with float's infinities and
    NaN, but without rounding), and Python's `<` between numbers. */
module Python {

  datatype Option<+T> = None | Some(value: T)

  /** A Python `float`. A finite value is an exact real: IEEE rounding is not modelled. */
  datatype Float = Finite(r: real) | PosInf | NegInf | NaN

  /** A Python number: an `int` or a `float`. */
  datatype Num = IntNum(i: int) | FloatNum(f: Float)

  /** A Python object as the validators receive it: a `str`, a number, or any
      other object (`None`, a list, ...), which cannot be ordered against a number. */
  datatype Value = Str(s: string) | Number(n: Num) | Other(typeName: string)

  /** A number that is not NaN, placed on the extended real line. */
  datatype Extended = MinusInfinity | At(r: real) | PlusInfinity

  function Position(n: Num): (p: Option<Extended>)
    ensures p.None? <==> n == FloatNum(NaN)
  {
    match n
    case IntNum(i) => Some(At(i as real))
    case FloatNum(Finite(r)) => Some(At(r))
    case FloatNum(PosInf) => Some(PlusInfinity)
    case FloatNum(NegInf) => Some(MinusInfinity)
    case FloatNum(NaN) => None
  }

  predicate ExtendedLess(a: Extended, b: Extended) {
    match a
    case MinusInfinity => !b.MinusInfinity?
    case At(x) => (b.At? && x < b.r) || b.PlusInfinity?
    case PlusInfinity => false
  }

  /** Python's `a < b` on numbers: exact between `int` and `float`, false whenever NaN is involved. */
  predicate Less(a: Num, b: Num)
    ensures Less(a, b) ==> a != FloatNum(NaN) && b != FloatNum(NaN)
  {
    Position(a).Some? && Position(b).Some? && ExtendedLess(Position(a).value, Position(b).value)
  }

  /** Python's `a <= b` on numbers: `a < b` or `a == b`, again false whenever NaN is involved. */
  predicate LessOrEqual(a: Num, b: Num)
    ensures LessOrEqual(a, b) ==> a != FloatNum(NaN) && b != FloatNum(NaN)
  {
    Position(a).Some? && Position(b).Some?
    && (ExtendedLess(Position(a).value, Position(b).value) || Position(a).value == Position(b).value)
  }

  /** `<` is a strict order on the numbers other than NaN. */
  lemma LessIsStrictOrder(a: Num, b: Num, c: Num)
    ensures !Less(a, a)
    ensures Less(a, b) ==> !Less(b, a)
    ensures Less(a, b) && Less(b, c) ==> Less(a, c)
  {
  }

  /** Away from NaN the order is total: exactly one of `a < b` and `b <= a` holds,
      so a guard `if x < lo: raise` admits exactly `lo <= x`. */
  lemma NotLessIsLessOrEqual(a: Num, b: Num)
    requires a != FloatNum(NaN) && b != FloatNum(NaN)
    ensures !Less(a, b) <==> LessOrEqual(b, a)
  {
    var pa, pb := Position(a).value, Position(b).value;
    if !Less(a, b) {
      assert !ExtendedLess(pa, pb);
      match pa
      case MinusInfinity => assert pb.MinusInfinity?;
      case At(x) => assert pb.At? ==> pb.r <= x;
      case PlusInfinity =>
    }
  }
}
