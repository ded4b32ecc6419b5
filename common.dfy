/** Values shared by the whole model: optional values, the exceptions the
    script raises (as tags rather than Python exception classes), substring
    containment and the `require_non_null` helper. */
module Common {

  datatype Option<T> = None | Some(value: T)

  /** The exceptions that travel through the retry logic. Python tells the
      transient ones apart by matching the text of the exception's class; here
      that classification is a tag. */
  datatype Error =
    | PlaywrightError           // navigation race inside the browser engine (transient)
    | PageError                 // any other exception raised by the page layer (in the driver's event stream)
    | PollTimeout(callId: string) // TimeoutError raised by wait_for_condition
    | RunTimeout                // TimeoutError raised by main once the deadline has passed
    | UnknownResult             // AssertionError raised by main on an unknown signal
    | ValueError(message: string) // raised by require_non_null
    | ZeroDivision              // timeout / delay with a zero delay
    | IndexOutOfRange           // next_back_off on an empty list of values

  /** The errors the poller and the driver swallow and retry: the engine's
      navigation race, and none of the script's own exceptions. */
  predicate IsTransient(e: Error) {
    e.PlaywrightError?
  }

  datatype Result<T> = Ok(value: T) | Err(error: Error)

  /** Python's `needle in haystack` on strings: substring containment. The
      empty string is in every string, and a string is in itself and in
      anything it starts or ends. */
  predicate Contains(haystack: string, needle: string)
    ensures Contains(haystack, needle) ==> |needle| <= |haystack|
    ensures needle <= haystack ==> Contains(haystack, needle)
    ensures |needle| <= |haystack| && haystack[|haystack| - |needle|..] == needle ==> Contains(haystack, needle)
  {
    assert needle <= haystack ==> OccursAt(haystack, needle, 0);
    assert |needle| <= |haystack| && haystack[|haystack| - |needle|..] == needle ==>
             OccursAt(haystack, needle, |haystack| - |needle|);
    exists i :: 0 <= i <= |haystack| - |needle| && OccursAt(haystack, needle, i)
  }

  predicate OccursAt(haystack: string, needle: string, i: int)
    requires 0 <= i <= |haystack| - |needle|
  {
    haystack[i..i + |needle|] == needle
  }

  /** `require_non_null`: the value itself, or a ValueError naming it. */
  function RequireNonNull<T>(value: Option<T>, name: string): (r: Result<T>)
    ensures r.Ok? <==> value.Some?
    ensures r.Ok? ==> r.value == value.value
    ensures r.Err? ==> r.error == ValueError(name + " must not be null")
  {
    match value
    case None => Err(ValueError(name + " must not be null"))
    case Some(v) => Ok(v)
  }
}
