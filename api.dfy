/** `API.post` decorated with `retry_on_failure(max_retries=3)`. The HTTP round
    trip itself is left abstract: `attempts(i)` is what the i-th request
    produced, and only the way `post` turns that into a value or an
    exception is modelled, composed with the retry loop. */
module Api {
  import opened Python
  import opened Errors
  import opened Retry

  /** What one request produced: a decoded JSON body, a `requests` failure
      (with the response's status and text when there was a response), a
      body that is not JSON, or an exception of another class, which neither
      `except` clause names. */
  datatype Attempt<J> =
    | Decoded(json: J)
    | RequestFailed(reason: string, status: Option<int>, body: Option<string>)
    | NotJson(reason: string)
    | Escaped(className: string, message: string)

  /** One undecorated call of `post`: both caught kinds of failure are re-raised
      as `APIError`, and any other exception passes through unchanged. */
  function PostOnce<J>(a: Attempt<J>): (o: Outcome<J>)
    ensures o.Returned? <==> a.Decoded?
    ensures o.Returned? ==> o.value == a.json
    ensures o.Raised? ==> (o.exc.APIError? <==> !a.Escaped?)
    ensures a.Escaped? ==> o == Raised(Foreign(a.className, a.message))
    ensures a.RequestFailed? ==> o.exc.statusCode == a.status && o.exc.response == a.body
    ensures a.NotJson? ==> o.exc.statusCode.None? && o.exc.response.None?
  {
    match a
    case Decoded(json) => Returned(json)
    case RequestFailed(reason, status, body) => Raised(APIError("API request failed: " + reason, status, body))
    case NotJson(reason) => Raised(APIError("Failed to decode API response: " + reason, None, None))
    case Escaped(className, message) => Raised(Foreign(className, message))
  }

  /** The undecorated `post`, as the function the decorator wraps. */
  function PostCall<J>(attempts: nat -> Attempt<J>): nat -> Outcome<J> {
    (i: nat) => PostOnce(attempts(i))
  }

  /** The decorator's arguments on `post`: three retries, every other setting at its default. */
  const PostPolicy := DefaultPolicy.(maxRetries := 3)

  /** The decorated `post`: the retry loop around the undecorated one. */
  method Post<J>(attempts: nat -> Attempt<J>) returns (result: Outcome<J>, calls: nat, sleeps: seq<real>)
    ensures IsTraceOf(PostPolicy, PostCall(attempts), Trace(result, calls, sleeps))
  {
    result, calls, sleeps := RetryOnFailure(PostPolicy, PostCall(attempts));
  }

  /** The decorator retries exactly the two failures `post` turns into
      `APIError`, a decode failure included; a value or another exception ends the run. */
  lemma EveryFailureIsRetried<J>(a: Attempt<J>)
    ensures Caught(PostPolicy, PostOnce(a)) <==> a.RequestFailed? || a.NotJson?
  {
    if !a.Decoded? {
      DefaultTupleCatchesOnlyApiErrors(PostOnce(a).exc);
    }
  }

  /** Four failed requests, of either kind: four calls, sleeps of 1, 2 and 4
      seconds, and the `APIError` of the fourth request is raised. */
  lemma PostGivesUpAfterFourAttempts<J>(attempts: nat -> Attempt<J>, t: Trace<J>)
    requires forall i :: 0 <= i <= 3 ==> attempts(i).RequestFailed? || attempts(i).NotJson?
    requires IsTraceOf(PostPolicy, PostCall(attempts), t)
    ensures t.calls == 4 && t.sleeps == [1.0, 2.0, 4.0]
    ensures t.result == PostOnce(attempts(3)) && t.result.exc.APIError?
  {
    forall i | 0 <= i <= 3
      ensures PostCall(attempts)(i).Raised? && PostCall(attempts)(i).exc.APIError?
    {
      EveryFailureIsRetried(attempts(i));
    }
    DefaultExhaustion(PostCall(attempts), t);
  }

  /** A response that is not JSON is retried: when the second request decodes,
      `post` returns its body after one sleep of 1 second. */
  lemma DecodeFailureThenSuccess<J>(attempts: nat -> Attempt<J>, v: J, t: Trace<J>)
    requires attempts(0).NotJson? && attempts(1) == Decoded(v)
    requires IsTraceOf(PostPolicy, PostCall(attempts), t)
    ensures t.result == Returned(v) && t.calls == 2 && t.sleeps == [1.0]
  {
    DefaultSecondAttemptSucceeds(PostCall(attempts), v, t);
  }

  /** An exception that neither `except` clause names is not retried: it
      surfaces from the first request that raises it, after one sleep for each
      earlier failure. */
  lemma EscapedExceptionNotRetried<J>(attempts: nat -> Attempt<J>, k: nat, t: Trace<J>)
    requires k <= 3
    requires forall i :: 0 <= i < k ==> attempts(i).RequestFailed? || attempts(i).NotJson?
    requires attempts(k).Escaped?
    requires IsTraceOf(PostPolicy, PostCall(attempts), t)
    ensures t.calls == k + 1 && |t.sleeps| == k
    ensures t.result == Raised(Foreign(attempts(k).className, attempts(k).message))
  {
    forall i | 0 <= i <= k
      ensures Caught(PostPolicy, PostCall(attempts)(i)) <==> i < k
    {
      EveryFailureIsRetried(attempts(i));
    }
    forall i | 0 <= i < k ensures SleepError(Delay(PostPolicy, i)).None? {
      DelaySleepable(PostPolicy, i);
    }
    StopsAtFirstUncaught(PostPolicy, PostCall(attempts), k, t);
  }
}
