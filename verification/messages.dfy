/**
 * The request future (`Message`): a one-shot state machine that leaves WAITING for
 * exactly one of DONE, ERROR or CANCELLED.
 *
 * The state is a sum type, so the reply and the stored error live inside the state
 * that owns them.  Listener calls come back as a trace of notifications, in listener
 * order.  A blocking `get` on a message that is still waiting is `Blocked`: in this
 * sequential model nobody else can release it.
 */
module Messages {
  import opened Common
  import opened Faults

  datatype State<R> =
    | Waiting
    | Done(reply: R)
    | Errored(error: Throwable)   // the SubscriberExecutionException built by replyError
    | Cancelled

  /** A call made on a listener, identified by its position in the listener collection. */
  datatype Notification<R> =
    | OnResponse(listener: nat, reply: R)
    | OnError(listener: nat, cause: Option<Throwable>)

  datatype Message<P, R> = Message(parameters: seq<P>, state: State<R>, listeners: seq<nat>)

  /** The outcome of reply or replyError: the new message and the listener calls, or the
      exception thrown. */
  datatype Replied<P, R> =
    | Accepted(message: Message<P, R>, notified: seq<Notification<R>>)
    | Rejected(fault: Throwable)

  /** The outcome of get. */
  datatype Answer<R> = Returned(value: R) | Raised(fault: Throwable) | Blocked

  const AlreadyReplied: Throwable := IllegalState("Request has already been replied")
  const NotAvailable: Throwable := IllegalState("Result not available yet !")

  /** The constructor: the parameters are copied, the state is WAITING. */
  function Create<P, R>(listeners: seq<nat>, parameters: seq<P>): (m: Message<P, R>)
    ensures m.parameters == parameters && m.listeners == listeners
    ensures !IsDone(m) && !IsCancelled(m)
    ensures Get(m).Blocked?
  {
    Message(parameters, Waiting, listeners)
  }

  /** `isCancelled`: the latch was released by cancel, not by a reply. */
  predicate IsCancelled<P, R>(m: Message<P, R>): (cancelled: bool)
    ensures cancelled ==> Released(m) && !m.state.Done? && !m.state.Errored?
  {
    m.state.Cancelled?
  }

  /** `isDone`: the latch was released by a reply or an error reply, not by cancel. */
  predicate IsDone<P, R>(m: Message<P, R>): (done: bool)
    ensures done ==> Released(m) && !m.state.Cancelled?
    ensures Released(m) && !done ==> m.state.Cancelled?
  {
    m.state.Done? || m.state.Errored?
  }

  /** Whether the latch has been released. */
  predicate Released<P, R>(m: Message<P, R>) {
    !m.state.Waiting?
  }

  /** `cancel`: succeeds, and moves to CANCELLED, only from WAITING. */
  function Cancel<P, R>(m: Message<P, R>): (r: (bool, Message<P, R>))
    ensures r.0 <==> !Released(m)
    ensures r.0 ==> IsCancelled(r.1) && r.1 == m.(state := Cancelled)
    ensures !r.0 ==> r.1 == m
  {
    if m.state.Waiting? then (true, m.(state := Cancelled)) else (false, m)
  }

  /** The onResponse calls, one per listener in order. */
  function ResponseTrace<R>(listeners: seq<nat>, v: R): (t: seq<Notification<R>>)
    ensures |t| == |listeners|
    ensures forall i :: 0 <= i < |t| ==> t[i] == OnResponse(listeners[i], v)
    decreases |listeners|
  {
    if |listeners| == 0 then []
    else [OnResponse(listeners[0], v)] + ResponseTrace(listeners[1..], v)
  }

  /** The onError calls, one per listener in order. */
  function ErrorTrace<R>(listeners: seq<nat>, cause: Option<Throwable>): (t: seq<Notification<R>>)
    ensures |t| == |listeners|
    ensures forall i :: 0 <= i < |t| ==> t[i] == OnError(listeners[i], cause)
    decreases |listeners|
  {
    if |listeners| == 0 then []
    else [OnError(listeners[0], cause)] + ErrorTrace(listeners[1..], cause)
  }

  /** `reply`: from WAITING stores the value, moves to DONE and tells every listener;
      otherwise throws and changes nothing. */
  function Reply<P, R>(m: Message<P, R>, v: R): (r: Replied<P, R>)
    ensures r.Accepted? <==> !Released(m)
    ensures r.Accepted? ==> r.message == m.(state := Done(v)) && IsDone(r.message)
    ensures r.Accepted? ==> |r.notified| == |m.listeners|
    ensures r.Accepted? ==>
      forall i :: 0 <= i < |m.listeners| ==> r.notified[i] == OnResponse(m.listeners[i], v)
    ensures r.Rejected? ==> r.fault == AlreadyReplied
  {
    if m.state.Waiting? then Accepted(m.(state := Done(v)), ResponseTrace(m.listeners, v))
    else Rejected(AlreadyReplied)
  }

  /** `replyError`: from WAITING stores the wrapped error, moves to ERROR and gives every
      listener the root cause; otherwise throws and changes nothing. */
  function ReplyError<P, R>(m: Message<P, R>, e: Option<Throwable>): (r: Replied<P, R>)
    ensures r.Accepted? <==> !Released(m)
    ensures r.Accepted? ==> r.message == m.(state := Errored(Wrap(e))) && IsDone(r.message)
    ensures r.Accepted? ==> |r.notified| == |m.listeners|
    ensures r.Accepted? ==>
      forall i :: 0 <= i < |m.listeners| ==> r.notified[i] == OnError(m.listeners[i], RootCause(e))
    ensures r.Rejected? ==> r.fault == AlreadyReplied
  {
    if m.state.Waiting? then
      var error := Wrap(e);
      Accepted(m.(state := Errored(error)), ErrorTrace(m.listeners, error.cause))
    else Rejected(AlreadyReplied)
  }

  /** The private `result`: the outcome recorded in the state. */
  function Result<P, R>(m: Message<P, R>): (a: Answer<R>)
    ensures !a.Blocked?
    ensures a.Returned? <==> m.state.Done?
    ensures a.Raised? && !m.state.Errored? ==> a.fault == NotAvailable
  {
    match m.state
    case Done(v) => Returned(v)
    case Errored(error) => Raised(error)
    case _ => Raised(NotAvailable)
  }

  /** `get`: waits for the latch, then reports the result. */
  function Get<P, R>(m: Message<P, R>): (a: Answer<R>)
    ensures a.Blocked? <==> !Released(m)
    ensures m.state.Done? ==> a == Returned(m.state.reply)
    ensures m.state.Errored? ==> a == Raised(m.state.error)
    ensures IsCancelled(m) ==> a == Raised(NotAvailable)
  {
    if m.state.Waiting? then Blocked else Result(m)
  }

  /** `get(timeout, unit)`: a message still waiting when the time is up gives a timeout;
      `waited` is the rendering of the timeout and its unit. */
  function TimedGet<P, R>(m: Message<P, R>, waited: string): (a: Answer<R>)
    ensures !Released(m) ==> a == Raised(Timeout("No response returned within " + waited))
    ensures Released(m) ==> a == Get(m)
  {
    if m.state.Waiting? then Raised(Timeout("No response returned within " + waited)) else Result(m)
  }

  /** Done and cancelled exclude each other. */
  lemma DoneOrCancelled<P, R>(m: Message<P, R>)
    ensures !(IsDone(m) && IsCancelled(m))
    ensures Released(m) <==> IsDone(m) || IsCancelled(m)
  {
  }

  /** An error reply stores a wrapper whose cause is never itself a wrapper, and that is
      what get raises. */
  lemma ErrorReplyRaisesRoot<P, R>(m: Message<P, R>, e: Option<Throwable>)
    requires !Released(m)
    ensures var r := ReplyError(m, e);
      r.Accepted? && Get(r.message) == Raised(SubscriberExecution(RootCause(e)))
      && (RootCause(e).None? || !IsWrapper(RootCause(e).value))
  {
    RootIsNoWrapper(e);
  }

  /** The ways a request can be completed. */
  datatype Completion<R> = ByReply(value: R) | ByError(error: Option<Throwable>) | ByCancel

  /** The message after one completion attempt; a rejected attempt leaves it alone. */
  function Complete<P, R>(m: Message<P, R>, c: Completion<R>): Message<P, R> {
    match c
    case ByReply(v) =>
      var r := Reply(m, v);
      if r.Accepted? then r.message else m
    case ByError(e) =>
      var r := ReplyError(m, e);
      if r.Accepted? then r.message else m
    case ByCancel => Cancel(m).1
  }

  function CompleteAll<P, R>(m: Message<P, R>, cs: seq<Completion<R>>): Message<P, R>
    decreases |cs|
  {
    if |cs| == 0 then m else CompleteAll(Complete(m, cs[0]), cs[1..])
  }

  /** A released message ignores every later completion attempt. */
  lemma {:induction false} SettledStaysSettled<P, R>(m: Message<P, R>, cs: seq<Completion<R>>)
    requires Released(m)
    ensures CompleteAll(m, cs) == m
    decreases |cs|
  {
    if |cs| > 0 {
      SettledStaysSettled(m, cs[1..]);
    }
  }

  /** The first completion attempt decides the outcome for good: later replies, errors and
      cancellations change nothing, and the parameters and listeners never change. */
  lemma FirstCompletionWins<P, R>(m: Message<P, R>, cs: seq<Completion<R>>)
    requires !Released(m) && |cs| > 0
    ensures CompleteAll(m, cs) == Complete(m, cs[0])
    ensures Released(CompleteAll(m, cs))
    ensures CompleteAll(m, cs).parameters == m.parameters
    ensures CompleteAll(m, cs).listeners == m.listeners
  {
    SettledStaysSettled(Complete(m, cs[0]), cs[1..]);
  }
}
