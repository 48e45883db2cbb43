/** The SDK's exception classes (`HyperliquidError` and its two subclasses),
    the exceptions of other modules that the utilities let through, and
    Python's `isinstance` test that `except` clauses use to pick them out. */
module Errors {
  import opened Python

  /** What an `InvalidParameterError` message reports about the parameter. */
  datatype Violation =
    | NotANumber
    | BelowMinimum(value: Num, minimum: Num)
    | AboveMaximum(value: Num, maximum: Num)

  /** A raised exception. `Foreign` is an instance of a class defined outside
      the SDK (`ValueError`, `TypeError`, a `requests` error, ...), named by its class. */
  datatype Exception =
    | HyperliquidError(message: string)
    | InvalidParameterError(param: string, violation: Violation)
    | APIError(message: string, statusCode: Option<int>, response: Option<string>)
    | Foreign(className: string, message: string)

  /** A class an `except` clause can name. `PyException` is Python's `Exception`. */
  datatype ExceptionClass =
    | PyException
    | HyperliquidErrorClass
    | InvalidParameterErrorClass
    | APIErrorClass
    | ForeignClass(name: string)

  /** The outcome of calling a Python function: a value, or an exception. */
  datatype Outcome<+T> = Returned(value: T) | Raised(exc: Exception)

  /** The class an exception was constructed from. */
  function ClassOf(e: Exception): ExceptionClass {
    match e
    case HyperliquidError(_) => HyperliquidErrorClass
    case InvalidParameterError(_, _) => InvalidParameterErrorClass
    case APIError(_, _, _) => APIErrorClass
    case Foreign(name, _) => ForeignClass(name)
  }

  function Depth(c: ExceptionClass): nat {
    match c
    case PyException => 0
    case HyperliquidErrorClass => 1
    case ForeignClass(_) => 1
    case InvalidParameterErrorClass => 2
    case APIErrorClass => 2
  }

  /** The base class named in each class statement; foreign classes are taken to
      derive from `Exception` directly (their own hierarchy is not modelled). */
  function Base(c: ExceptionClass): (b: Option<ExceptionClass>)
    ensures b.Some? ==> Depth(b.value) + 1 == Depth(c)
    ensures b.None? <==> c == PyException
  {
    match c
    case PyException => None
    case HyperliquidErrorClass => Some(PyException)
    case ForeignClass(_) => Some(PyException)
    case InvalidParameterErrorClass => Some(HyperliquidErrorClass)
    case APIErrorClass => Some(HyperliquidErrorClass)
  }

  /** `issubclass(a, b)`: b is a or one of its ancestors. */
  predicate IsSubclass(a: ExceptionClass, b: ExceptionClass)
    decreases Depth(a)
  {
    a == b || (Base(a).Some? && IsSubclass(Base(a).value, b))
  }

  /** `isinstance(e, c)`, by cases on the exception. */
  predicate IsInstance(e: Exception, c: ExceptionClass)
    ensures c == ClassOf(e) || c == PyException ==> IsInstance(e, c)
    ensures IsInstance(e, c) ==> Depth(c) <= Depth(ClassOf(e))
  {
    match c
    case PyException => true
    case HyperliquidErrorClass => !e.Foreign?
    case InvalidParameterErrorClass => e.InvalidParameterError?
    case APIErrorClass => e.APIError?
    case ForeignClass(name) => e.Foreign? && e.className == name
  }

  /** `except classes as e` catches e: e is an instance of one of the named classes. */
  predicate Catches(classes: seq<ExceptionClass>, e: Exception)
    ensures Catches(classes, e) ==> |classes| > 0
    ensures PyException in classes || ClassOf(e) in classes ==> Catches(classes, e)
  {
    exists i :: 0 <= i < |classes| && IsInstance(e, classes[i])
  }

  /** `isinstance` agrees with the class hierarchy: an exception is an instance of
      exactly its own class and that class's ancestors. */
  lemma IsInstanceFollowsHierarchy(e: Exception, c: ExceptionClass)
    ensures IsInstance(e, c) <==> IsSubclass(ClassOf(e), c)
  {
  }

  /** The retry decorator's default tuple `(APIError,)` catches API errors and
      nothing else: a validation error or a foreign exception passes through. */
  lemma DefaultTupleCatchesOnlyApiErrors(e: Exception)
    ensures Catches([APIErrorClass], e) <==> e.APIError?
  {
    if e.APIError? {
      assert IsInstance(e, [APIErrorClass][0]);
    }
  }
}
