/**
 * The two error policies of the bus, applied to an exception a subscriber threw.
 *
 * `IgnoreErrors` swallows it.  `Rethrow` unwraps it to its root cause; for a request
 * payload it fails the request with that cause, for any other payload it throws a
 * `SubscriberExecutionException` around the cause.  Neither policy looks at the
 * subscription it is given, so the model leaves it out.
 */
module ErrorHandlers {
  import opened Common
  import opened Faults
  import opened Messages
  import opened Events

  datatype ErrorHandler = IgnoreErrors | Rethrow

  /** What handling did: nothing, failed the request (the message after replyError and
      the listener calls made), or threw. */
  datatype Handled =
    | Swallowed
    | RequestFailed(request: Message<string, string>, notified: seq<Notification<string>>)
    | Thrown(fault: Throwable)

  /** `onError` of the chosen policy, for an exception e. */
  function Handle(h: ErrorHandler, ev: Event, e: Throwable): (r: Handled)
    requires IsException(e)
    ensures h.IgnoreErrors? ==> r == Swallowed
    ensures h.Rethrow? && ev.source.Plain? ==> r == Thrown(SubscriberExecution(RootCause(Some(e))))
    ensures h.Rethrow? && ev.source.Request? && !Released(ev.source.message) ==>
      && r.RequestFailed?
      && r.request == ev.source.message.(state := Errored(Wrap(Some(e))))
      && |r.notified| == |ev.source.message.listeners|
      && forall i :: 0 <= i < |r.notified| ==>
           r.notified[i] == OnError(ev.source.message.listeners[i], RootCause(Some(e)))
    ensures h.Rethrow? && ev.source.Request? && Released(ev.source.message) ==> r == Thrown(AlreadyReplied)
    ensures r.Thrown? ==> IsException(r.fault)
  {
    match h
    case IgnoreErrors => Swallowed
    case Rethrow =>
      var ee := Wrap(Some(e));
      if ev.source.Request? then
        WrapIdempotent(Some(e));
        match ReplyError(ev.source.message, ee.cause)
        case Accepted(m, notified) => RequestFailed(m, notified)
        case Rejected(f) => Thrown(f)
      else Thrown(ee)
  }
}
