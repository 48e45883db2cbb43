# Error handling of the Hyperliquid Python SDK, in Dafny

This project models `hyperliquid/utils/error_handling.py` of the Hyperliquid
Python SDK and proves what its parts promise:

- the exception classes `HyperliquidError`, `InvalidParameterError` and
  `APIError`, together with the `isinstance` test that an `except` clause
  applies;
- `validate_address`, the guard chain that checks for an `0x` prefix, a
  length of 42 and a body that `int(..., 16)` accepts;
- `retry_on_failure`, the decorator that calls a function up to
  `max_retries + 1` times, sleeping with exponential backoff between
  attempts;
- `validate_numeric_param`, which converts a string with `float()` or
  `int()` and then checks the optional inclusive bounds;
- how `API.post` in `hyperliquid/api.py` composes with the decorator. The
  HTTP round trip stays abstract.

Modules:

| file | module | contents |
|---|---|---|
| `python.dfy` | `Python` | `Option`; Python numbers (`int`, and `float` with its infinities and NaN); other objects; Python's `<` between numbers |
| `errors.dfy` | `Errors` | the exception classes as a datatype, the class hierarchy, `isinstance`, what an `except` tuple catches, and `Outcome` (a value or an exception) |
| `py_int.dfy` | `PyInt` | `int(s, base)` on a string: surrounding whitespace, a sign, an `0x`/`0o`/`0b` prefix, and `_` between digits; and the rendering of an integer in a base |
| `address.dfy` | `AddressValidation` | `validate_address` |
| `retry.dfy` | `Retry` | the retry loop as a method, proved against a declarative description of its run |
| `numeric.dfy` | `NumericValidation` | `validate_numeric_param` |
| `api.dfy` | `Api` | `API.post` under `retry_on_failure(max_retries=3)` |

The wrapped function of `retry_on_failure` is given as `call: nat -> Outcome<T>`:
`call(i)` is the outcome of the i-th call. `RetryOnFailure` returns three
things:

- the result;
- the number of calls it made;
- the delays `time.sleep` accepted, in order (a delay it refuses ends the run and is not recorded).

`IsTraceOf` states the wrapper's contract: which runs are possible. The
lemmas beside it derive what a caller relies on:
- the number of calls;
- which exception surfaces;
- the number of sleeps;
- the shape of the backoff schedule.

Two consequences of the code are worth stating, because a reader might expect otherwise:

- **Decode errors are retried.** `post` re-raises a body that is not JSON as
  an `APIError` (`hyperliquid/api.py:40-41`). `APIError` is in the decorator's
  default tuple (`hyperliquid/utils/error_handling.py:50`), so a decode
  failure is retried exactly like a failed request.
  `Api.PostGivesUpAfterFourAttempts` and `Api.DecodeFailureThenSuccess`
  state this.
- **The decorator checks none of its arguments.** The model takes any
  policy and follows the code where the settings are unusual:
  - `max_retries < 0` leaves the loop empty, and `raise None` fails with a
    `TypeError`.
  - The first sleep is `initial_delay` without a clamp.
  - `time.sleep` first converts a delay to whole nanoseconds, rounding away from zero. A delay that does not fit in a signed 64-bit count makes it raise `OverflowError`; this covers lengths above 9223372036.854775807 seconds or below -9223372036.854775808 seconds. Any other negative delay makes it raise `ValueError`. Either exception ends the run in place of the caught one.
  - The schedule lemmas state the conditions under which they hold.

## Model

| member | source | states |
|---|---|---|
| Python.Position | hyperliquid/utils/error_handling.py:118 | only NaN lacks a place on the extended real line, so every comparison involving NaN is false |
| Python.Less | hyperliquid/utils/error_handling.py:118-123 | Python's `<` (and `>` with the operands swapped) is false whenever NaN is involved |
| Python.LessOrEqual | hyperliquid/utils/error_handling.py:118-123 | Python's `<=`, `<` or equal on the extended real line, is false whenever NaN is involved |
| Python.LessIsStrictOrder | hyperliquid/utils/error_handling.py:118-123 | `<` is irreflexive, asymmetric and transitive |
| Python.NotLessIsLessOrEqual | hyperliquid/utils/error_handling.py:118-128 | trichotomy: away from NaN, "not `a < b`" holds exactly when `b < a` or `b == a`, which makes a raise-if-below guard an inclusive bound |
| Errors.Base | hyperliquid/utils/error_handling.py:8-16 | exactly the classes other than `Exception` have a base class, and it lies exactly one level closer to `Exception`, so the hierarchy is well founded |
| Errors.IsInstance | hyperliquid/utils/error_handling.py:73 | an exception is an instance of its own class and of `Exception`, and of no class deeper in the hierarchy than its own |
| Errors.Catches | hyperliquid/utils/error_handling.py:73 | an empty tuple catches nothing; a tuple naming `Exception` or the exception's own class catches it |
| Errors.IsInstanceFollowsHierarchy | hyperliquid/utils/error_handling.py:8-21 | an exception is an instance of a class exactly when its own class is that class or a subclass of it |
| Errors.DefaultTupleCatchesOnlyApiErrors | hyperliquid/utils/error_handling.py:50 | the default tuple `(APIError,)` catches an exception if and only if it is an `APIError` |
| PyInt.DigitValue | hyperliquid/utils/error_handling.py:40 | a character's digit value is at most 36; 36 marks a character that is a digit in no base |
| PyInt.TrimStartIsSuffix | hyperliquid/utils/error_handling.py:40 | trimming the start leaves a suffix of the input that does not start with whitespace |
| PyInt.TrimEndIsPrefix | hyperliquid/utils/error_handling.py:40 | trimming the end leaves a prefix of the input that does not end with whitespace |
| PyInt.TrimStartKeeps | hyperliquid/utils/error_handling.py:40 | stripping leading whitespace keeps every character that is not whitespace |
| PyInt.TrimEndKeeps | hyperliquid/utils/error_handling.py:40 | stripping trailing whitespace keeps every character that is not whitespace |
| PyInt.StripUnchanged | hyperliquid/utils/error_handling.py:40 | a string with no whitespace at either end is unchanged by stripping |
| PyInt.DigitChar | hyperliquid/utils/error_handling.py:40 | the character rendered for a digit value reads back as that value |
| PyInt.Digits | hyperliquid/utils/error_handling.py:40 | the rendering of a natural number is a non-empty run of digits of the base, with no leading zero |
| PyInt.DigitsValue | hyperliquid/utils/error_handling.py:40 | reading back the rendered digits gives the number |
| PyInt.ParseStripped | hyperliquid/utils/error_handling.py:40 | a stripped string that parses is not empty, and a negative result means it starts with `-` |
| PyInt.Parse | hyperliquid/utils/error_handling.py:40 | `int(s, base)`: a string that parses is not empty, and a negative result needs a `-` in the string |
| PyInt.Format | hyperliquid/utils/error_handling.py:40 | the rendering of an integer is non-empty and starts with `-` exactly when the integer is negative |
| PyInt.PlainDigitsParse | hyperliquid/utils/error_handling.py:40 | `int()` accepts a non-empty string of digits of the base and returns its value |
| PyInt.NegatedDigitsParse | hyperliquid/utils/error_handling.py:40 | a minus sign in front of such digits negates the value |
| PyInt.HexPrefixedDigitsParse | hyperliquid/utils/error_handling.py:40 | in base 16, an `0x` prefix in front of hex digits is accepted and skipped |
| PyInt.FormatThenParse | hyperliquid/utils/error_handling.py:40 | round trip: `int()` of the rendering of any integer (negative ones included) is that integer |
| PyInt.NaturalRoundTrip | hyperliquid/utils/error_handling.py:112 | `int()` of the digits of a natural number is that number |
| PyInt.NegativeRoundTrip | hyperliquid/utils/error_handling.py:112 | `int()` of a minus sign followed by the digits of a positive number is its negation |
| PyInt.ForeignCharRejected | hyperliquid/utils/error_handling.py:40 | a string with any character that cannot appear in an integer literal of the base makes `int()` raise `ValueError` |
| PyInt.SeparatorRejected | hyperliquid/utils/error_handling.py:40 | the ASCII separators U+001C to U+001F are not stripped: one anywhere in the string makes `int()` raise `ValueError` |
| AddressValidation.ValidateAddress | hyperliquid/utils/error_handling.py:23-43 | an address is valid only when it is a string of length 42 starting with `0x`; a non-string, a missing prefix or another length is rejected whatever the content |
| AddressValidation.HexDigitIsDigit | hyperliquid/utils/error_handling.py:40 | the characters `0-9a-fA-F` are exactly the base-16 digits |
| AddressValidation.StrictHexAccepted | hyperliquid/utils/error_handling.py:34-41 | `0x` followed by 40 hex digits is a valid address |
| AddressValidation.ForeignCharacterRejected | hyperliquid/utils/error_handling.py:38-43 | a 42-character `0x` string whose body has a character that no base-16 literal contains is rejected |
| AddressValidation.LetterGRejected | hyperliquid/utils/error_handling.py:38-43 | in particular a body containing `g` or `G` is rejected |
| AddressValidation.SeparatorInBodyRejected | hyperliquid/utils/error_handling.py:38-43 | an ASCII separator U+001C to U+001F in the 40-character body, even at an end, makes the address invalid |
| AddressValidation.SignedBodyAccepted | hyperliquid/utils/error_handling.py:38-41 | `0x-` followed by 39 hex digits is accepted, because `int()` takes the sign |
| AddressValidation.DoublePrefixAccepted | hyperliquid/utils/error_handling.py:38-41 | `0x0x` followed by 38 hex digits is accepted, because `int(..., 16)` takes an inner `0x` prefix |
| Retry.Min | hyperliquid/utils/error_handling.py:79 | `min` returns one of its arguments, and the result is no greater than either |
| Retry.Delay | hyperliquid/utils/error_handling.py:67-79 | every delay after the first is at most `max_delay` |
| Retry.SleepError | hyperliquid/utils/error_handling.py:78 | `time.sleep` accepts exactly the lengths from 0 to 2^63 - 1 nanoseconds; it raises `ValueError` for a negative length down to -2^63 nanoseconds and `OverflowError` for any other length |
| Retry.RetryOnFailure | hyperliquid/utils/error_handling.py:64-84 | the loop's result, call count and sleeps form the run that `IsTraceOf` describes, in which every sleep made is one `time.sleep` accepts and a refused sleep ends the run with its exception |
| Retry.TraceIsUnique | hyperliquid/utils/error_handling.py:70-81 | the wrapper is deterministic: a policy and a function admit exactly one run |
| Retry.DelaySleepable | hyperliquid/utils/error_handling.py:67-79 | with a non-negative factor and an initial delay and maximum between 0 and the longest sleep, every scheduled delay is one `time.sleep` accepts |
| Retry.Exhaustion | hyperliquid/utils/error_handling.py:70-81 | when every attempt raises a caught exception and `time.sleep` accepts each of the `max_retries` delays between them, the function is called `max_retries + 1` times with `max_retries` sleeps, and the last attempt's exception is raised |
| Retry.StopsAtFirstUncaught | hyperliquid/utils/error_handling.py:70-73 | the first attempt that returns, or raises an exception outside the tuple, ends the run after k+1 calls and k sleeps with that outcome, when `time.sleep` accepted each of the k delays before it |
| Retry.SleepFailureEndsRun | hyperliquid/utils/error_handling.py:70-78 | when the k-th scheduled delay is one `time.sleep` refuses, k+1 caught failures end after k sleeps with the sleep's exception, not the caught one |
| Retry.NegativeInitialDelayAborts | hyperliquid/utils/error_handling.py:67-78 | a negative initial delay that still fits in 64-bit nanoseconds makes the first sleep raise `ValueError` after one call |
| Retry.HugeInitialDelayOverflows | hyperliquid/utils/error_handling.py:67-78 | an initial delay beyond 64-bit nanoseconds, in either direction, makes the first sleep raise `OverflowError` after one call |
| Retry.DelayMonotone | hyperliquid/utils/error_handling.py:67-79 | with factor >= 1 and `0 <= initial_delay <= max_delay`, delays never decrease and stay between `initial_delay` and `max_delay` |
| Retry.DelayOrdered | hyperliquid/utils/error_handling.py:67-79 | under the same conditions, an earlier delay is never longer than a later one |
| Retry.SleepsWithinSchedule | hyperliquid/utils/error_handling.py:75-79 | in any run, every sleep after the first is at most `max_delay`, and under the monotone conditions the sleeps never decrease |
| Retry.DelayClosedForm | hyperliquid/utils/error_handling.py:67-79 | with `backoff_factor >= 1` and `max_delay >= 0`, the k-th delay (k >= 1) is `min(initial_delay * factor^k, max_delay)`; outside these conditions the closed form can fail |
| Retry.DefaultSchedule | hyperliquid/utils/error_handling.py:45-79 | the default schedule is 1, 2, 4, 8, 10, 10 seconds |
| Retry.DefaultExhaustion | hyperliquid/utils/error_handling.py:45-84 | with the defaults, a function that always raises `APIError` is called 4 times with sleeps of 1, 2 and 4 seconds, and the fourth error surfaces |
| Retry.DefaultSecondAttemptSucceeds | hyperliquid/utils/error_handling.py:45-84 | with the defaults, success on the second attempt returns its value after one sleep of 1 second |
| NumericValidation.ValidateNumericParam | hyperliquid/utils/error_handling.py:86-128 | a returned number is within the bounds; a non-string is returned unchanged; a string comes back as a number; every exception is an `InvalidParameterError` naming the parameter, except the `TypeError` of a non-number meeting a bound |
| NumericValidation.IntPathIgnoresFloatParser | hyperliquid/utils/error_handling.py:109-112 | a string without a dot goes only through `int()` |
| NumericValidation.DotPathUsesFloatOnly | hyperliquid/utils/error_handling.py:109-116 | a string with a dot goes only through `float()`: it is rejected exactly when `float()` raises, and otherwise it is treated as the float |
| NumericValidation.ExponentWithoutDotRejected | hyperliquid/utils/error_handling.py:109-116 | an exponent form without a dot, such as `1e5`, is rejected as not a number |
| NumericValidation.FormattedIntAccepted | hyperliquid/utils/error_handling.py:106-128 | round trip: the decimal rendering of any integer validates to that integer |
| NumericValidation.AcceptedIffWithinBounds | hyperliquid/utils/error_handling.py:118-128 | a number other than NaN is returned unchanged if and only if `min_value <= n <= max_value`, with either bound optional; the bounds are inclusive |
| NumericValidation.BoundsAreInclusive | hyperliquid/utils/error_handling.py:118-128 | a number other than NaN that equals both bounds is returned unchanged |
| NumericValidation.BelowMinimumReportedFirst | hyperliquid/utils/error_handling.py:118-121 | a value below the minimum is reported as such even when it also exceeds the maximum |
| NumericValidation.AboveMaximumReported | hyperliquid/utils/error_handling.py:123-126 | a value that passes the minimum but exceeds the maximum is reported as above the maximum |
| NumericValidation.NaNPassesBounds | hyperliquid/utils/error_handling.py:118-128 | NaN passes every bound |
| NumericValidation.NonNumberMeetsBound | hyperliquid/utils/error_handling.py:113-126 | another object is returned when no bound is given, and raises a `TypeError` rather than `InvalidParameterError` once a bound is given |
| NumericValidation.ThreeAndAHalfAccepted | hyperliquid/utils/error_handling.py:106-128 | `"3.5"` within 0 and 10 is returned as the float 3.5 |
| Api.PostOnce | hyperliquid/api.py:26-41 | one undecorated `post` returns exactly the decoded body; a failed request or a decode failure becomes an `APIError`, which carries the status and body of a failed request and neither for a decode failure; any other exception passes through unchanged |
| Api.Post | hyperliquid/api.py:12-13 | the decorated `post` runs the retry loop with three retries around the undecorated one |
| Api.EveryFailureIsRetried | hyperliquid/api.py:12-41 | the decorator catches exactly a failed request and a decode failure, and no value or other exception |
| Api.PostGivesUpAfterFourAttempts | hyperliquid/api.py:12-41 | four failed requests or decode failures give 4 calls, sleeps of 1, 2 and 4 seconds, and the fourth `APIError` |
| Api.DecodeFailureThenSuccess | hyperliquid/api.py:12-41 | a response that is not JSON is retried, and a decoded second response is returned after one sleep |
| Api.EscapedExceptionNotRetried | hyperliquid/api.py:12-41 | an exception that neither `except` clause names surfaces unchanged from the first request that raises it, after one sleep per earlier failure |

## Left out

- Real time: `time.sleep` is not performed. The model records the delays that `time.sleep` accepts during a run.
- Floating point:
  - The delays and the factor of a policy are reals, so two `float` settings cannot be expressed: `float('inf')`, the natural "no cap" `max_delay`, and NaN (which `0.0 * inf` produces and which `time.sleep` rejects with `ValueError`).
  - Delays are exact reals, and neither the backoff product nor the comparison with `max_delay` is rounded.
  - A finite `float` is an exact real.
- `float(s)`: the parser is left abstract. `NumericValidation` takes it as a parameter, and its decimal grammar and rounding are not modelled.
- `int(s)` (`PyInt`):
  - It knows ASCII digits only. The Unicode decimal digits that CPython also accepts are not modelled.
  - The limit on the number of digits in a string conversion, and its `ValueError`, are not modelled.
  - Whitespace is what CPython strips around an integer literal: the ASCII whitespace `\t \n \v \f \r` and space, and the characters above ASCII that `str.isspace` accepts, written out as a list of code points. The ASCII separators U+001C to U+001F are not stripped.
- Exception messages:
  - `ValidateNumericParam` records why it rejected a value (not a number, below the minimum, above the maximum) but not the formatted message text.
  - The texts of the foreign `TypeError`/`ValueError` exceptions are placeholders.
- Exceptions from other libraries: their own class hierarchies are not modelled. Each is taken to derive from `Exception` directly, so only a tuple naming that exact class or `Exception` catches it.
- Other Python objects: `validate_numeric_param` and `validate_address` see any object that is neither a string nor a number as `Other`. A user-defined `__lt__` or `__index__` is not modelled.
- The `functools.wraps` metadata and the arguments passed through `*args, **kwargs` are not modelled. The wrapped function is the sequence of its outcomes.
- `hyperliquid/api.py`:
  - The HTTP request is abstract: the base URL, the session, JSON serialisation and `raise_for_status`.
  - Each request's result is an input to the model.
  - In recent versions of `requests`, the error that `response.json()` raises is also a `RequestException`, so the first `except` clause catches it. The message and empty status then come from that clause. The model uses the second clause's message. With `requests` 2.27 or later, or with the standard `json` module underneath, either way the failure is an `APIError` and is retried. With an older `requests` and `simplejson` installed, `response.json()` raises `simplejson`'s `JSONDecodeError`, which neither clause names; it escapes unretried, as the `Escaped` attempt does.
- Retry.SleepError: the 64-bit bound is applied to the exact product of the delay and 10^9. CPython computes that product as a `float`, so a delay within a few hundred nanoseconds of the bound may land on the other side of it.
- `hyperliquid/utils/__init__.py` only re-exports names and is not part of this model.
- Retry.DelayClosedForm: covers the delays after the first only. The first delay is `initial_delay` unclamped, which can exceed `max_delay`.

## Proof steps

Lemmas that the members of the "Model" table rely on. They state facts about the
model's own arithmetic and strings, not a promise of the source:

| member | source | states |
|---|---|---|
| PyInt.SymbolValues | hyperliquid/utils/error_handling.py:40 | sign, underscore and dot are digits of no base, and the prefix letters `b`, `o`, `x` are not digits of their own bases |
| PyInt.ValueAppend | hyperliquid/utils/error_handling.py:40 | appending a digit multiplies the value by the base and adds the digit |
| PyInt.AppendDigit | hyperliquid/utils/error_handling.py:40 | appending the digit `r` to digits worth `q` gives `q * base + r` |
| PyInt.DivMod | hyperliquid/utils/error_handling.py:40 | a number splits into the quotient and remainder by the base; a number at least the base has a smaller, positive quotient |
| PyInt.PrefixNotDigits | hyperliquid/utils/error_handling.py:40 | a string made of digits does not start with a base prefix |
| PyInt.DigitsAreRun | hyperliquid/utils/error_handling.py:40 | a non-empty string of digits is a valid digit run |
| PyInt.UnsignedWithoutSign | hyperliquid/utils/error_handling.py:40 | a string that does not start with a sign has nothing removed as a sign |
| PyInt.UnsignedKeeps | hyperliquid/utils/error_handling.py:40 | removing the sign keeps every character other than a sign |
| PyInt.BodyKeeps | hyperliquid/utils/error_handling.py:40 | removing the base prefix and its underscore keeps every character that is not part of a prefix |
| PyInt.StrangerBreaksRun | hyperliquid/utils/error_handling.py:40 | a digit run contains only digits of the base and `_` |
| PyInt.RunParses | hyperliquid/utils/error_handling.py:40 | a string with no whitespace at either end, whose body after the sign and the prefix is a digit run, parses to the run's value, negated after a minus sign |
| PyInt.NegatedValueParse | hyperliquid/utils/error_handling.py:40 | a minus sign in front of a digit string worth n parses to -n |
| Retry.RetriedForExtend | hyperliquid/utils/error_handling.py:73-79 | one more caught failure followed by a sleep of the scheduled delay extends a run of retries |
| Retry.GrowsByFactor | hyperliquid/utils/error_handling.py:79 | a factor of at least 1 never shrinks a non-negative delay |
| NumericValidation.FormatHasNoDot | hyperliquid/utils/error_handling.py:109 | the decimal rendering of an integer contains no dot |
