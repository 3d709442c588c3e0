/**
 * Throwables as far as the event bus looks at them, and the unwrapping done by
 * `SubscriberExecutionException.wrap`.
 *
 * A Java `null` cause or target is `None`.  Only the three wrapper kinds are peeled:
 * `InvocationTargetException` through its target, `ExecutionException` and
 * `SubscriberExecutionException` through their cause.
 */
module Faults {
  import opened Common

  datatype Throwable =
    | InvocationTarget(target: Option<Throwable>)     // java.lang.reflect.InvocationTargetException
    | Execution(cause: Option<Throwable>)             // java.util.concurrent.ExecutionException
    | SubscriberExecution(cause: Option<Throwable>)   // SubscriberExecutionException
    | IllegalState(message: string)
    | IllegalArgument(message: string)
    | Timeout(message: string)                        // java.util.concurrent.TimeoutException
    | Failure(className: string, cause: Option<Throwable>)  // any other exception
    | JvmError(className: string)                     // any Throwable that is not an Exception (an Error, say): what `catch (Exception e)` lets through

  /** A value or the exception thrown instead. */
  datatype Outcome<T> = Ok(value: T) | Fault(error: Throwable)

  /** The exception `Ensure.notNull` throws for a missing argument of the given name. */
  function Missing(name: string): Throwable {
    IllegalArgument(name + " cannot be null")
  }

  /** `Ensure.notNull`: a missing argument is an IllegalArgumentException naming it. */
  function NotNull<T>(arg: Option<T>, name: string): (r: Outcome<T>)
    ensures r.Ok? <==> arg.Some?
    ensures r.Ok? ==> r.value == arg.value
    ensures r.Fault? ==> r.error == Missing(name) && r.error.IllegalArgument?
  {
    match arg
    case Some(v) => Ok(v)
    case None => Fault(Missing(name))
  }

  /** Whether `catch (Exception e)` catches it. */
  predicate IsException(t: Throwable) {
    !t.JvmError?
  }

  /** The kinds `wrap` peels. */
  predicate IsWrapper(t: Throwable) {
    t.InvocationTarget? || t.Execution? || t.SubscriberExecution?
  }

  /** The root cause `wrap` arrives at (declarative). */
  function RootCause(t: Option<Throwable>): Option<Throwable>
    decreases t
  {
    match t
    case None => None
    case Some(x) =>
      if x.InvocationTarget? then RootCause(x.target)
      else if x.Execution? || x.SubscriberExecution? then RootCause(x.cause)
      else t
  }

  /** `SubscriberExecutionException.wrap`: a new wrapper around the root cause. */
  function Wrap(t: Option<Throwable>): (ee: Throwable)
    ensures ee.SubscriberExecution?
    ensures ee.cause.None? || !IsWrapper(ee.cause.value)
  {
    RootIsNoWrapper(t);
    SubscriberExecution(RootCause(t))
  }

  /** The unwrapping loop of `wrap`, as written. */
  method WrapLoop(throwable: Option<Throwable>) returns (ee: Throwable)
    ensures ee.SubscriberExecution?
    ensures ee.cause == RootCause(throwable)
    ensures ee.cause.None? || !IsWrapper(ee.cause.value)
  {
    var t := throwable;
    while t.Some? && IsWrapper(t.value)
      invariant RootCause(t) == RootCause(throwable)
      decreases t
    {
      t := if t.value.InvocationTarget? then t.value.target else t.value.cause;
    }
    RootIsNoWrapper(throwable);
    ee := SubscriberExecution(t);
  }

  /** The root cause is absent or not a wrapper. */
  lemma {:induction false} RootIsNoWrapper(t: Option<Throwable>)
    ensures RootCause(t).None? || !IsWrapper(RootCause(t).value)
    decreases t
  {
    match t
    case None =>
    case Some(x) =>
      if x.InvocationTarget? {
        RootIsNoWrapper(x.target);
      } else if x.Execution? || x.SubscriberExecution? {
        RootIsNoWrapper(x.cause);
      }
  }

  /** A throwable that is not a wrapper becomes the cause unchanged. */
  lemma NonWrapperIsRoot(t: Throwable)
    requires !IsWrapper(t)
    ensures Wrap(Some(t)).cause == Some(t)
  {
  }

  /** Unwrapping is idempotent: wrapping a wrapped throwable, or its cause, changes
      nothing. */
  lemma {:induction false} WrapIdempotent(t: Option<Throwable>)
    ensures RootCause(RootCause(t)) == RootCause(t)
    ensures Wrap(Some(Wrap(t))).cause == Wrap(t).cause
    ensures Wrap(Wrap(t).cause) == Wrap(t)
  {
    RootIsNoWrapper(t);
  }

  /** A wrapper without a cause unwraps to no cause at all. */
  lemma EmptyWrapper(t: Throwable)
    requires IsWrapper(t)
    requires t.InvocationTarget? ==> t.target.None?
    requires !t.InvocationTarget? ==> t.cause.None?
    ensures Wrap(Some(t)).cause.None?
  {
  }
}
