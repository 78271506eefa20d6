/**
 * The `StatusOr` result type of the status package: either an OK value or an
 * error carrying its payload, whether the failure may be retried, and an
 * optional traceback. The traceback is the captured call stack, which this
 * model treats as an opaque string supplied by the caller of `FromError`.
 */
module Status {
  import opened JsValues

  /** The placeholder value carried by a valueless OK `Status`. */
  const OK_VALUE: string := "Status{THIS_MUST_BE_UNIQUE_AND_SERIALIZABLE}"

  datatype StatusOr<+T, +E> =
    | Ok(value: T)
    | Error(error: E, retriable: bool, traceback: Option<string>)
  {
    /** The same error, viewed as a `StatusOr` with another value type. */
    function Propagate<U>(): (r: StatusOr<U, E>)
      requires Error?
      ensures r.Error? && r.error == error && r.retriable == retriable && r.traceback == traceback
    {
      Error(error, retriable, traceback)
    }
  }

  /** A `StatusOr` whose OK value is only ever `OK_VALUE`. */
  type Status<+E> = StatusOr<string, E>

  /** `isOk`: the source tests for a `value` field, which only OK statuses have. */
  predicate IsOk<T, E>(s: StatusOr<T, E>) {
    s.Ok?
  }

  /** `isOk` holds exactly on statuses carrying a value, and fails exactly on errors. */
  lemma IsOkExactlyOnValues<T, E>(s: StatusOr<T, E>)
    ensures IsOk(s) <==> exists v :: s == Ok(v)
    ensures !IsOk(s) <==> exists e, retriable, traceback :: s == Error(e, retriable, traceback)
  {
    if s.Ok? {
      assert s == Ok(s.value);
    } else {
      assert s == Error(s.error, s.retriable, s.traceback);
    }
  }

  function FromValue<T, E>(value: T): (r: StatusOr<T, E>)
    ensures IsOk(r) && r.value == value
  {
    Ok(value)
  }

  function OkStatus<E>(): (r: Status<E>)
    ensures IsOk(r) && r.value == OK_VALUE
  {
    FromValue(OK_VALUE)
  }

  /** The `options` argument of `fromError`; `None` is an absent or undefined field. */
  datatype FromErrorOptions = FromErrorOptions(retriable: Option<bool>)

  /** `fromError`: retriable unless the caller says otherwise is false; the traceback is always recorded. */
  function FromError<T, E>(error: E, options: Option<FromErrorOptions>, traceback: string): (r: StatusOr<T, E>)
    ensures !IsOk(r) && r.error == error && r.traceback == Some(traceback)
    ensures r.retriable <==> options.Some? && options.value.retriable == Some(true)
  {
    var retriable := if options.Some? then options.value.retriable.GetOr(false) else false;
    Error(error, retriable, Some(traceback))
  }

  /** `rewriteError`: only the error payload changes; the metadata is kept. */
  function RewriteError<T, E, E2>(s: StatusOr<T, E>, mapper: E -> E2): (r: StatusOr<T, E2>)
    requires !IsOk(s)
    ensures !IsOk(r) && r.error == mapper(s.error)
    ensures r.retriable == s.retriable && r.traceback == s.traceback
  {
    Error(mapper(s.error), s.retriable, s.traceback)
  }

  /** `stripValue`: forgets the OK value, keeps every error as it is. */
  function StripValue<T, E>(s: StatusOr<T, E>): (r: Status<E>)
    ensures IsOk(r) <==> IsOk(s)
    ensures IsOk(r) ==> r == OkStatus()
    ensures !IsOk(r) ==> r == s.Propagate()
  {
    if IsOk(s) then OkStatus() else s.Propagate()
  }

  /** `stripTraceback`: clears the traceback and keeps the error and its retriability. */
  function StripTraceback<T, E>(s: StatusOr<T, E>): (r: StatusOr<T, E>)
    requires !IsOk(s)
    ensures !IsOk(r) && r.traceback == None
    ensures r.error == s.error && r.retriable == s.retriable
  {
    Error(s.error, s.retriable, None)
  }

  /** `graftValue`: an OK status becomes OK with `value`; an error is copied over. */
  function GraftValue<T, E>(status: Status<E>, value: T): (r: StatusOr<T, E>)
    ensures IsOk(r) <==> IsOk(status)
    ensures IsOk(r) ==> r.value == value
    ensures !IsOk(r) ==> r == status.Propagate()
  {
    if !IsOk(status) then status.Propagate() else FromValue(value)
  }

  /** Grafting a value onto a stripped status restores the shape of the original. */
  lemma GraftAfterStrip<T, E>(s: StatusOr<T, E>, v: T)
    ensures GraftValue(StripValue(s), v) == if IsOk(s) then Ok(v) else s
  {
  }

  /** Stripping the value of a grafted status gives back the status it started from. */
  lemma StripAfterGraft<T, E>(status: Status<E>, v: T)
    requires IsOk(status) ==> status.value == OK_VALUE
    ensures StripValue(GraftValue(status, v)) == status
  {
  }

  /** Rewriting with two mappers in turn is rewriting with their composition. */
  lemma RewriteErrorCompose<T, E, E2, E3>(s: StatusOr<T, E>, f: E -> E2, g: E2 -> E3)
    requires !IsOk(s)
    ensures RewriteError(RewriteError(s, f), g) == RewriteError(s, e => g(f(e)))
  {
  }

  /** Stripping is idempotent; a stripped traceback survives any rewrite. */
  lemma StripTracebackIdempotent<T, E, E2>(s: StatusOr<T, E>, f: E -> E2)
    requires !IsOk(s)
    ensures StripTraceback(StripTraceback(s)) == StripTraceback(s)
    ensures RewriteError(StripTraceback(s), f) == StripTraceback(RewriteError(s, f))
  {
  }
}
