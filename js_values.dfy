/** Values a JavaScript caller can hand to the library in place of a real value. */
module JsValues {

  /** `T | null` where the source uses null only as "no value". */
  datatype Option<+T> = None | Some(value: T) {
    function GetOr(default: T): (r: T)
      ensures Some? ==> r == value
      ensures None? ==> r == default
    {
      match this
      case Some(v) => v
      case None => default
    }
  }

  /** `T | null | undefined`, where both absent values must be told apart. */
  datatype Nullish<+T> = Null | Undefined | Present(value: T) {
    /** JavaScript's loose `value == null`, true of both null and undefined. */
    predicate IsNullLike() {
      Null? || Undefined?
    }
  }

  /** How a call into caller-supplied code finished: it returned a value or threw. */
  datatype Outcome<+R> = Returned(value: R) | Threw(error: string)
}
