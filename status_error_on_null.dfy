/** `errorOnNull`: turns an OK null or undefined result into an error. */
module StatusErrorOnNull {
  import opened JsValues
  import opened Status

  const NULL_RESULT_MESSAGE: string := "Got null result when expecting a value."

  /**
   * Errors pass through unchanged; an OK `null` or `undefined` (the source
   * tests `value == null`, which holds of both) becomes a fresh error, and any
   * other OK value stays OK.
   */
  function ErrorOnNull<T>(statusOr: StatusOr<Nullish<T>, string>, traceback: string): (r: StatusOr<T, string>)
    ensures !IsOk(statusOr) ==> r == statusOr.Propagate()
    ensures IsOk(statusOr) && statusOr.value.IsNullLike() ==>
      r == FromError(NULL_RESULT_MESSAGE, None, traceback)
    ensures IsOk(statusOr) && statusOr.value.Present? ==> r == Ok(statusOr.value.value)
  {
    if !IsOk(statusOr) then statusOr.Propagate()
    else
      var value := statusOr.value;
      if value.IsNullLike() then FromError(NULL_RESULT_MESSAGE, None, traceback)
      else FromValue(value.value)
  }

  /** An OK result of `errorOnNull` always carries a real value, never null or undefined. */
  lemma OkResultIsPresent<T>(statusOr: StatusOr<Nullish<T>, string>, traceback: string)
    ensures IsOk(ErrorOnNull(statusOr, traceback)) ==>
      IsOk(statusOr) && statusOr.value == Present(ErrorOnNull(statusOr, traceback).value)
  {
  }

  /** A fresh null error is not retriable. */
  lemma NullErrorNotRetriable<T>(traceback: string)
    ensures ErrorOnNull<T>(Ok(Null), traceback) == Error(NULL_RESULT_MESSAGE, false, Some(traceback))
    ensures ErrorOnNull<T>(Ok(Undefined), traceback) == Error(NULL_RESULT_MESSAGE, false, Some(traceback))
  {
  }
}
