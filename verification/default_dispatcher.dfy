/**
 * `DefaultDispatcher`: the public face of the bus, with both executors running their
 * tasks immediately on the calling thread.
 *
 * `publish` checks its arguments, resolves the topic's cached subscription list, and
 * calls every live subscriber whose event type accepts the payload's class, in list
 * order.  An `Exception` a subscriber throws goes to the error handler; any other
 * throwable, and anything the handler throws, ends the publication and reaches the
 * publisher.  What a subscriber does with an event is a parameter of the model.
 */
module DefaultDispatchers {
  import opened Common
  import opened Faults
  import opened Refs
  import opened Topics
  import opened Messages
  import opened Subscriptions
  import opened SubscriptionLists
  import opened SubscriptionManagers
  import opened Events
  import opened ErrorHandlers

  /** The dispatcher: its subscription manager, its error policy, and the identity the
      next subscription will get. */
  datatype Dispatcher = Dispatcher(manager: Manager, handler: ErrorHandler, nextId: nat)

  /** The constructor: no subscription yet. */
  function New(handler: ErrorHandler): (d: Dispatcher)
    ensures d.handler == handler
    ensures forall alive: Alive :: Sound(d, alive) && Live(d.manager.master, alive) == []
  {
    Dispatcher(Empty(), handler, 0)
  }

  // ---------------------------------------------------------------------------
  // Subscribers and one delivery.

  /** What a subscriber's `onEvent` does: return, throw, or answer a request payload.
      Answering a payload that is not a request is a plain return. */
  datatype Reaction =
    | Returns
    | Throws(thrown: Throwable)
    | Answers(completion: Completion<string>)

  /** The behaviour of every subscriber of the program. */
  type Behaviour = (Subscriber, Event) -> Reaction

  /** The effect of one delivery: the payload afterwards, the listener calls made, and
      the throwable that escaped, if any. */
  datatype Step = Step(source: Source, notified: seq<Notification<string>>, escaped: Option<Throwable>)

  /** Whether a reaction to an ordinary payload escapes the subscriber's task. */
  predicate Escapes(h: ErrorHandler, r: Reaction) {
    r.Throws? && (h.Rethrow? || !IsException(r.thrown))
  }

  /** What reaches the publisher when a subscriber throws e at an ordinary payload: the
      error policy's wrapper for an `Exception`, e itself otherwise. */
  function Escalated(e: Throwable): Throwable {
    if IsException(e) then Wrap(Some(e)) else e
  }

  /** A reaction that throws, if at all, an `Exception`. */
  predicate Harmless(r: Reaction) {
    r.Throws? ==> IsException(r.thrown)
  }

  /** The listener calls that moving a waiting request into state st makes. */
  function Trace(listeners: seq<nat>, st: State<string>): seq<Notification<string>> {
    match st
    case Done(v) => ResponseTrace(listeners, v)
    case Errored(err) => ErrorTrace(listeners, RootCause(Some(err)))
    case _ => []
  }

  /** How a request may change between two points of a publication: parameters and
      listeners stay; a released request stays as it is and nobody is told; a waiting
      one tells each listener, once and in order, how it was settled. */
  predicate Transition(m: Message<string, string>, m2: Message<string, string>, notified: seq<Notification<string>>) {
    && m2.parameters == m.parameters
    && m2.listeners == m.listeners
    && (Released(m) ==> m2 == m && notified == [])
    && (!Released(m) ==> notified == Trace(m.listeners, m2.state))
  }

  /** The `catch` around a subscriber call: an `Exception` goes to the error handler;
      any other throwable escapes, as does whatever the handler throws. */
  function Catch(h: ErrorHandler, ev: Event, e: Throwable): (r: Step)
    ensures !IsException(e) ==> r == Step(ev.source, [], Some(e))
    ensures ev.source.Plain? ==> r.source == ev.source && r.notified == []
    ensures ev.source.Plain? ==> (r.escaped.Some? <==> h.Rethrow? || !IsException(e))
    ensures ev.source.Plain? && r.escaped.Some? ==> r.escaped.value == Escalated(e)
    ensures ev.source.Request? ==> r.source.Request? && Transition(ev.source.message, r.source.message, r.notified)
    ensures h.IgnoreErrors? && IsException(e) ==> r.escaped.None?
  {
    if !IsException(e) then Step(ev.source, [], Some(e))
    else
      match Handle(h, ev, e)
      case Swallowed => Step(ev.source, [], None)
      case RequestFailed(m, notified) => Step(Request(m), notified, None)
      case Thrown(f) => Step(ev.source, [], Some(f))
  }

  /** A reply or error reply attempted by a subscriber: accepted, it settles the request;
      rejected, it throws out of `onEvent` into the `catch`. */
  function Answered(h: ErrorHandler, ev: Event, r: Replied<string, string>): Step
    requires ev.source.Request?
  {
    match r
    case Accepted(m, notified) => Step(Request(m), notified, None)
    case Rejected(f) => Catch(h, ev, f)
  }

  /** The subscriber's task: `onEvent` with the reaction given, inside the `catch`. */
  function Deliver(h: ErrorHandler, ev: Event, reaction: Reaction): (r: Step)
    ensures ev.source.Plain? ==> r.source == ev.source && r.notified == []
    ensures ev.source.Plain? ==> (r.escaped.Some? <==> Escapes(h, reaction))
    ensures ev.source.Plain? && r.escaped.Some? ==> r.escaped.value == Escalated(reaction.thrown)
    ensures ev.source.Request? ==> r.source.Request? && Transition(ev.source.message, r.source.message, r.notified)
    ensures h.IgnoreErrors? && Harmless(reaction) ==> r.escaped.None?
  {
    match reaction
    case Returns => Step(ev.source, [], None)
    case Throws(e) => Catch(h, ev, e)
    case Answers(c) =>
      match ev.source
      case Plain(_, _) => Step(ev.source, [], None)
      case Request(m) =>
        match c
        case ByCancel => Step(Request(Cancel(m).1), [], None)
        case ByReply(v) => Answered(h, ev, Reply(m, v))
        case ByError(e) =>
          WrapIdempotent(e);
          Answered(h, ev, ReplyError(m, e))
  }

  // ---------------------------------------------------------------------------
  // One publication.

  /** A subscriber call: which subscription got which event. */
  datatype Call = Call(subscription: Subscription, event: Event)

  /** The end of a walk over a subscription list: the list afterwards, the calls made,
      the payload afterwards, the listener calls, and what escaped. */
  datatype Walked = Walked(
    remaining: SubscriptionList,
    calls: seq<Call>,
    source: Source,
    notified: seq<Notification<string>>,
    escaped: Option<Throwable>)

  /** The publishing loop over the iterator of list l for payload class c: a dead
      reference is deleted from the list, a subscription whose event type does not
      accept c is skipped, any other is called with the payload as it now stands.  A
      throwable that escapes ends the loop and leaves the rest of the list unread. */
  function Walk(l: SubscriptionList, alive: Alive, c: JClass, h: ErrorHandler, t: Topic, react: Behaviour, src: Source): (w: Walked)
    ensures |w.calls| <= |l|
    decreases |l|
  {
    if |l| == 0 then Walked([], [], src, [], None)
    else
      match Refs.Get(l[0], alive)
      case None => Walk(l[1..], alive, c, h, t, react, src)
      case Some(s) =>
        if !IsAssignableFrom(s.eventType, c) then
          var w := Walk(l[1..], alive, c, h, t, react, src);
          w.(remaining := [l[0]] + w.remaining)
        else
          var ev := Event(t, src);
          var d := Deliver(h, ev, react(s.subscriber, ev));
          if d.escaped.Some? then Walked(l, [Call(s, ev)], d.source, d.notified, d.escaped)
          else
            var w := Walk(l[1..], alive, c, h, t, react, d.source);
            Walked([l[0]] + w.remaining, [Call(s, ev)] + w.calls, w.source, d.notified + w.notified, w.escaped)
  }

  /** What `publish` leaves behind and reports. */
  datatype Published = Published(
    dispatcher: Dispatcher,
    calls: seq<Call>,
    source: Source,
    notified: seq<Notification<string>>,
    escaped: Option<Throwable>)

  /** `publish`: a missing topic or payload is refused before anything happens;
      otherwise the topic is resolved and its list walked, and the list as the walk
      leaves it is the topic's cached list. */
  function Publish(d: Dispatcher, topic: Option<Topic>, source: Option<Source>, react: Behaviour, alive: Alive): (r: Outcome<Published>)
    ensures topic.None? ==> r == Fault(Missing("Topic"))
    ensures topic.Some? && source.None? ==> r == Fault(Missing("Event source"))
    ensures r.Ok? <==> topic.Some? && source.Some?
    ensures r.Ok? ==> r.value.dispatcher.handler == d.handler && r.value.dispatcher.nextId == d.nextId
    ensures r.Ok? ==> topic.value in r.value.dispatcher.manager.cache
  {
    match NotNull(topic, "Topic")
    case Fault(f) => Fault(f)
    case Ok(t) =>
      match NotNull(source, "Event source")
      case Fault(f) => Fault(f)
      case Ok(src) =>
        var resolved := Resolve(d.manager, t, alive);
        var m := resolved.0;
        var w := Walk(resolved.1, alive, ClassOf(src), d.handler, t, react, src);
        Ok(Published(d.(manager := m.(cache := m.cache[t := w.remaining])), w.calls, w.source, w.notified, w.escaped))
  }

  // ---------------------------------------------------------------------------
  // Subscribing and unsubscribing.

  /** `subscribe`: the matcher, the event type and the subscriber must be given, checked
      in that order; the new subscription gets the next identity. */
  function Subscribe(d: Dispatcher, matcher: Option<Matcher>, eventType: Option<JClass>, subscriber: Option<Subscriber>): (r: Outcome<Dispatcher>)
    ensures matcher.None? ==> r == Fault(Missing("TopicMatcher"))
    ensures matcher.Some? && eventType.None? ==> r == Fault(Missing("Event type"))
    ensures matcher.Some? && eventType.Some? && subscriber.None? ==> r == Fault(Missing("Subscriber"))
    ensures r.Ok? <==> matcher.Some? && eventType.Some? && subscriber.Some?
    ensures r.Ok? ==> r.value.handler == d.handler && r.value.nextId == d.nextId + 1
    ensures r.Ok? ==> r.value.manager == AddSubscription(d.manager, Subscriptions.Create(d.nextId, matcher.value, eventType.value, subscriber.value))
  {
    match NotNull(matcher, "TopicMatcher")
    case Fault(f) => Fault(f)
    case Ok(mt) =>
      match NotNull(eventType, "Event type")
      case Fault(f) => Fault(f)
      case Ok(et) =>
        match NotNull(subscriber, "Subscriber")
        case Fault(f) => Fault(f)
        case Ok(sub) =>
          Ok(Dispatcher(AddSubscription(d.manager, Subscriptions.Create(d.nextId, mt, et, sub)), d.handler, d.nextId + 1))
  }

  /** `unsubscribe(subscriber)`: every subscription of the subscriber goes. */
  function Unsubscribe(d: Dispatcher, subscriber: Option<Subscriber>, alive: Alive): (r: Outcome<Dispatcher>)
    ensures subscriber.None? ==> r == Fault(Missing("Subscriber"))
    ensures r.Ok? <==> subscriber.Some?
    ensures r.Ok? ==> r.value.handler == d.handler && r.value.nextId == d.nextId
  {
    match NotNull(subscriber, "Subscriber")
    case Fault(f) => Fault(f)
    case Ok(sub) => Ok(d.(manager := RemoveSubscriber(d.manager, SubscriberIs(sub), alive)))
  }

  /** `unsubscribe(matcher, subscriber)`: the subscriber's subscriptions with an equal
      matcher go.  The subscriber is checked before the matcher. */
  function UnsubscribeFrom(d: Dispatcher, matcher: Option<Matcher>, subscriber: Option<Subscriber>, alive: Alive): (r: Outcome<Dispatcher>)
    ensures subscriber.None? ==> r == Fault(Missing("Subscriber"))
    ensures subscriber.Some? && matcher.None? ==> r == Fault(Missing("TopicMatcher"))
    ensures r.Ok? <==> matcher.Some? && subscriber.Some?
    ensures r.Ok? ==> r.value.handler == d.handler && r.value.nextId == d.nextId
  {
    match NotNull(subscriber, "Subscriber")
    case Fault(f) => Fault(f)
    case Ok(sub) =>
      match NotNull(matcher, "TopicMatcher")
      case Fault(f) => Fault(f)
      case Ok(mt) => Ok(d.(manager := RemoveSubscriber(d.manager, SubscriberAndMatcher(mt, sub), alive)))
  }

  /** `close`: does nothing. */
  function Close(d: Dispatcher): (r: Dispatcher)
    ensures r.manager == d.manager && r.handler == d.handler && r.nextId == d.nextId
  {
    d
  }

  // ---------------------------------------------------------------------------
  // The dispatcher invariant.

  /** Every reference of l is to a subscription with an identity below n. */
  predicate IdsBelow(l: SubscriptionList, n: nat) {
    forall r :: r in l ==> r.referent.id < n
  }

  /** The manager is valid, and no subscription it holds has the identity the next one
      will get. */
  predicate Sound(d: Dispatcher, alive: Alive) {
    && Valid(d.manager, alive)
    && IdsBelow(d.manager.master, d.nextId)
    && forall t :: t in d.manager.cache ==> IdsBelow(d.manager.cache[t], d.nextId)
  }

  // ---------------------------------------------------------------------------
  // What a walk does.

  /** A walk deletes only dead references: the list yields the same subscriptions
      afterwards, and it holds nothing it did not hold before. */
  lemma {:induction false} WalkKeepsLive(l: SubscriptionList, alive: Alive, c: JClass, h: ErrorHandler, t: Topic, react: Behaviour, src: Source)
    ensures var w := Walk(l, alive, c, h, t, react, src);
      && Live(w.remaining, alive) == Live(l, alive)
      && forall x :: x in w.remaining ==> x in l
    decreases |l|
  {
    if |l| > 0 {
      var w := Walk(l, alive, c, h, t, react, src);
      match Refs.Get(l[0], alive)
      case None =>
        WalkKeepsLive(l[1..], alive, c, h, t, react, src);
      case Some(s) =>
        if !IsAssignableFrom(s.eventType, c) {
          WalkKeepsLive(l[1..], alive, c, h, t, react, src);
          KeepHead(l, w.remaining, alive);
        } else {
          var ev := Event(t, src);
          var d := Deliver(h, ev, react(s.subscriber, ev));
          if d.escaped.None? {
            WalkKeepsLive(l[1..], alive, c, h, t, react, d.source);
            KeepHead(l, w.remaining, alive);
          }
        }
    }
  }

  /** A list that keeps the head of l before a list yielding what l's tail yields
      yields what l yields. */
  lemma KeepHead(l: SubscriptionList, r: SubscriptionList, alive: Alive)
    requires |l| > 0 && |r| > 0 && r[0] == l[0]
    requires Live(r[1..], alive) == Live(l[1..], alive)
    ensures Live(r, alive) == Live(l, alive)
  {
  }

  /** Calls that went, in order, to a prefix of ds, each with an event of topic t: to
      all of ds when nothing escaped, to at least one when something did. */
  predicate CallsOf(calls: seq<Call>, ds: seq<Subscription>, t: Topic, escaped: Option<Throwable>) {
    && |calls| <= |ds|
    && (forall i :: 0 <= i < |calls| ==> calls[i].subscription == ds[i] && calls[i].event.topic == t)
    && (escaped.None? ==> |calls| == |ds|)
    && (escaped.Some? ==> |calls| > 0)
  }

  /** A call to the first of ds before calls to a prefix of the rest. */
  lemma CallsOfCons(call: Call, calls: seq<Call>, s: Subscription, ds: seq<Subscription>, t: Topic, escaped: Option<Throwable>)
    requires call.subscription == s && call.event.topic == t
    requires CallsOf(calls, ds, t, escaped)
    ensures CallsOf([call] + calls, [s] + ds, t, escaped)
  {
    var all := [call] + calls;
    assert forall i :: 1 <= i < |all| ==> all[i] == calls[i - 1];
  }

  /** The calls of a walk go, in order, to a prefix of what the list's iterator yields
      for the payload class; to all of it when nothing escaped. */
  lemma {:induction false} WalkCalls(l: SubscriptionList, alive: Alive, c: JClass, h: ErrorHandler, t: Topic, react: Behaviour, src: Source)
    ensures var w := Walk(l, alive, c, h, t, react, src);
      CallsOf(w.calls, Deliverable(l, c, alive), t, w.escaped)
    decreases |l|
  {
    if |l| > 0 {
      match Refs.Get(l[0], alive)
      case None =>
        WalkCalls(l[1..], alive, c, h, t, react, src);
      case Some(s) =>
        assert Live(l, alive) == [s] + Live(l[1..], alive);
        if !IsAssignableFrom(s.eventType, c) {
          WalkCalls(l[1..], alive, c, h, t, react, src);
        } else {
          var ev := Event(t, src);
          var d := Deliver(h, ev, react(s.subscriber, ev));
          var rest := Deliverable(l[1..], c, alive);
          assert Deliverable(l, c, alive) == [s] + rest;
          if d.escaped.None? {
            WalkCalls(l[1..], alive, c, h, t, react, d.source);
            var w := Walk(l[1..], alive, c, h, t, react, d.source);
            CallsOfCons(Call(s, ev), w.calls, s, rest, t, w.escaped);
          }
        }
    }
  }

  /** The calls of a publication of an ordinary event ev and what escaped it: every call
      carries ev, every call but the last returned or was handled, and the publication
      escapes exactly when the last call's reaction escapes, with the throwable the
      error policy makes of it. */
  predicate PlainRun(h: ErrorHandler, react: Behaviour, ev: Event, calls: seq<Call>, escaped: Option<Throwable>) {
    && (forall i :: 0 <= i < |calls| ==> calls[i].event == ev)
    && (forall i :: 0 <= i < |calls| - 1 ==> !Escapes(h, react(calls[i].subscription.subscriber, ev)))
    && (escaped.None? ==> forall i :: 0 <= i < |calls| ==> !Escapes(h, react(calls[i].subscription.subscriber, ev)))
    && (escaped.Some? ==> |calls| > 0 && LastEscapes(h, react, ev, calls[|calls| - 1], escaped.value))
  }

  /** The call's reaction escapes, as the throwable e. */
  predicate LastEscapes(h: ErrorHandler, react: Behaviour, ev: Event, call: Call, e: Throwable) {
    var r := react(call.subscription.subscriber, ev);
    Escapes(h, r) && e == Escalated(r.thrown)
  }

  /** A call that returned or was handled, before a run. */
  lemma PlainRunCons(h: ErrorHandler, react: Behaviour, ev: Event, call: Call, calls: seq<Call>, escaped: Option<Throwable>)
    requires call.event == ev && !Escapes(h, react(call.subscription.subscriber, ev))
    requires PlainRun(h, react, ev, calls, escaped)
    ensures PlainRun(h, react, ev, [call] + calls, escaped)
  {
    var all := [call] + calls;
    assert forall i :: 1 <= i < |all| ==> all[i] == calls[i - 1];
    if escaped.Some? {
      assert all[|all| - 1] == calls[|calls| - 1];
    }
  }

  /** For an ordinary payload the walk leaves the payload alone, tells no listener, and
      its calls and escape form a run of the event. */
  lemma {:induction false} WalkPlain(l: SubscriptionList, alive: Alive, c: JClass, h: ErrorHandler, t: Topic, react: Behaviour, src: Source)
    requires src.Plain?
    ensures var w := Walk(l, alive, c, h, t, react, src);
      && w.source == src && w.notified == []
      && PlainRun(h, react, Event(t, src), w.calls, w.escaped)
    decreases |l|
  {
    if |l| > 0 {
      match Refs.Get(l[0], alive)
      case None =>
        WalkPlain(l[1..], alive, c, h, t, react, src);
      case Some(s) =>
        if !IsAssignableFrom(s.eventType, c) {
          WalkPlain(l[1..], alive, c, h, t, react, src);
        } else {
          var ev := Event(t, src);
          var d := Deliver(h, ev, react(s.subscriber, ev));
          if d.escaped.None? {
            WalkPlain(l[1..], alive, c, h, t, react, src);
            var w := Walk(l[1..], alive, c, h, t, react, src);
            PlainRunCons(h, react, ev, Call(s, ev), w.calls, w.escaped);
          } else {
            assert LastEscapes(h, react, ev, Call(s, ev), d.escaped.value);
          }
        }
    }
  }

  /** For a request payload, the walk moves the request as one delivery may: a request
      released before stays untouched and nobody is told; a waiting one that gets
      settled tells each listener once. */
  lemma {:induction false} WalkRequest(l: SubscriptionList, alive: Alive, c: JClass, h: ErrorHandler, t: Topic, react: Behaviour, src: Source)
    requires src.Request?
    ensures var w := Walk(l, alive, c, h, t, react, src);
      w.source.Request? && Transition(src.message, w.source.message, w.notified)
    decreases |l|
  {
    if |l| > 0 {
      match Refs.Get(l[0], alive)
      case None =>
        WalkRequest(l[1..], alive, c, h, t, react, src);
      case Some(s) =>
        if !IsAssignableFrom(s.eventType, c) {
          WalkRequest(l[1..], alive, c, h, t, react, src);
        } else {
          var ev := Event(t, src);
          var d := Deliver(h, ev, react(s.subscriber, ev));
          if d.escaped.None? {
            WalkRequest(l[1..], alive, c, h, t, react, d.source);
            var w := Walk(l[1..], alive, c, h, t, react, d.source);
            TransitionsCompose(src.message, d.source.message, w.source.message, d.notified, w.notified);
          }
        }
    }
  }

  /** Two request moves in a row are one request move. */
  lemma TransitionsCompose(m0: Message<string, string>, m1: Message<string, string>, m2: Message<string, string>,
                           n1: seq<Notification<string>>, n2: seq<Notification<string>>)
    requires Transition(m0, m1, n1) && Transition(m1, m2, n2)
    ensures Transition(m0, m2, n1 + n2)
  {
    if !Released(m0) {
      if Released(m1) {
        assert n1 + n2 == n1;
      } else {
        assert n1 == [];
        assert n1 + n2 == n2;
      }
    } else {
      assert n1 + n2 == [];
    }
  }

  /** With errors ignored and no subscriber throwing anything but an `Exception`, the
      walk calls everything the iterator yields and nothing escapes. */
  lemma {:induction false} WalkIgnoring(l: SubscriptionList, alive: Alive, c: JClass, t: Topic, react: Behaviour, src: Source)
    requires forall s, ev :: Harmless(react(s, ev))
    ensures Walk(l, alive, c, IgnoreErrors, t, react, src).escaped.None?
    decreases |l|
  {
    if |l| > 0 {
      match Refs.Get(l[0], alive)
      case None =>
        WalkIgnoring(l[1..], alive, c, t, react, src);
      case Some(s) =>
        if !IsAssignableFrom(s.eventType, c) {
          WalkIgnoring(l[1..], alive, c, t, react, src);
        } else {
          var ev := Event(t, src);
          var d := Deliver(IgnoreErrors, ev, react(s.subscriber, ev));
          WalkIgnoring(l[1..], alive, c, t, react, d.source);
        }
    }
  }

  // ---------------------------------------------------------------------------
  // What a publication does.

  /** Publishing keeps the dispatcher sound and the live subscriptions as they were. */
  lemma PublishKeepsSound(d: Dispatcher, t: Topic, src: Source, react: Behaviour, alive: Alive)
    requires Sound(d, alive)
    ensures var r := Publish(d, Some(t), Some(src), react, alive);
      && Sound(r.value.dispatcher, alive)
      && Live(r.value.dispatcher.manager.master, alive) == Live(d.manager.master, alive)
  {
    var resolved := Resolve(d.manager, t, alive);
    var m := resolved.0;
    var w := Walk(resolved.1, alive, ClassOf(src), d.handler, t, react, src);
    var d1 := d.(manager := m);
    assert Sound(d1, alive) && Live(m.master, alive) == Live(d.manager.master, alive) by {
      ResolveKeepsValid(d.manager, t, alive);
      ResolveKeepsIds(d, t, alive);
    }
    assert t in m.cache && m.cache[t] == resolved.1;
    WalkKeepsLive(resolved.1, alive, ClassOf(src), d.handler, t, react, src);
    SubListKeeps(w.remaining, m.cache[t], d.nextId);
    ReplaceCached(d1, t, w.remaining, alive);
  }

  /** Replacing a cached list by one with the same live subscriptions, well-kinded and
      with small identities, keeps the dispatcher sound. */
  lemma ReplaceCached(d: Dispatcher, t: Topic, l: SubscriptionList, alive: Alive)
    requires Sound(d, alive) && t in d.manager.cache
    requires WellKindedList(l) && IdsBelow(l, d.nextId)
    requires Live(l, alive) == Live(d.manager.cache[t], alive)
    ensures Sound(d.(manager := d.manager.(cache := d.manager.cache[t := l])), alive)
  {
  }

  /** A list holding only references of a well-kinded list with small identities is
      one too. */
  lemma SubListKeeps(sub: SubscriptionList, l: SubscriptionList, n: nat)
    requires forall x :: x in sub ==> x in l
    requires WellKindedList(l) && IdsBelow(l, n)
    ensures WellKindedList(sub) && IdsBelow(sub, n)
  {
  }

  /** Resolution brings in no subscription with a new identity. */
  lemma ResolveKeepsIds(d: Dispatcher, t: Topic, alive: Alive)
    requires Sound(d, alive)
    ensures var m := Resolve(d.manager, t, alive).0;
      && IdsBelow(m.master, d.nextId)
      && forall u :: u in m.cache ==> IdsBelow(m.cache[u], d.nextId)
  {
    if t !in d.manager.cache {
      var live := Live(d.manager.master, alive);
      LiveMembers(d.manager.master, alive);
      var list := RefsOf(Matching(live, t));
      forall x | x in list ensures x.referent.id < d.nextId {
        var k :| 0 <= k < |list| && list[k] == x;
        var s := Matching(live, t)[k];
        assert s in live;
        var r :| r in d.manager.master && Refs.Get(r, alive) == Some(s);
      }
    }
  }

  /** A publication with both arguments calls, in master order, a prefix of the live
      subscriptions whose matcher matches the topic and whose event type accepts the
      payload's class; all of them when nothing escaped.  Each call's event has the
      published topic. */
  lemma PublishCalls(d: Dispatcher, t: Topic, src: Source, react: Behaviour, alive: Alive)
    requires Valid(d.manager, alive)
    ensures var p := Publish(d, Some(t), Some(src), react, alive).value;
      CallsOf(p.calls, OfType(Matching(Live(d.manager.master, alive), t), ClassOf(src)), t, p.escaped)
  {
    var resolved := Resolve(d.manager, t, alive);
    ResolveDelivers(d.manager, t, ClassOf(src), alive);
    WalkCalls(resolved.1, alive, ClassOf(src), d.handler, t, react, src);
  }

  /** Publishing an ordinary payload: every subscriber gets the same event; under
      `rethrow` the first subscriber that throws ends the publication with a
      `SubscriberExecutionException` around the root cause of what it threw, and under
      `ignore` only a throwable that is not an `Exception` ends it, unchanged. */
  lemma PublishPlain(d: Dispatcher, t: Topic, src: Source, react: Behaviour, alive: Alive)
    requires src.Plain?
    ensures var p := Publish(d, Some(t), Some(src), react, alive).value;
      && p.source == src && p.notified == []
      && PlainRun(d.handler, react, Event(t, src), p.calls, p.escaped)
  {
    var resolved := Resolve(d.manager, t, alive);
    WalkPlain(resolved.1, alive, ClassOf(src), d.handler, t, react, src);
  }

  /** Publishing a request: a request answered before stays as it was and no listener
      is told; a waiting one that some subscriber settles tells each listener once, in
      order, with the reply or the root cause of the error. */
  lemma PublishRequest(d: Dispatcher, t: Topic, src: Source, react: Behaviour, alive: Alive)
    requires src.Request?
    ensures var p := Publish(d, Some(t), Some(src), react, alive).value;
      && p.source.Request?
      && Transition(src.message, p.source.message, p.notified)
  {
    var resolved := Resolve(d.manager, t, alive);
    WalkRequest(resolved.1, alive, ClassOf(src), d.handler, t, react, src);
  }

  /** Under `ignore`, when no subscriber throws anything but an `Exception`, every
      matching live subscription that accepts the payload's class is called. */
  lemma PublishIgnoringErrors(d: Dispatcher, t: Topic, src: Source, react: Behaviour, alive: Alive)
    requires Valid(d.manager, alive) && d.handler == IgnoreErrors
    requires forall s, ev :: Harmless(react(s, ev))
    ensures var p := Publish(d, Some(t), Some(src), react, alive).value;
      var ds := OfType(Matching(Live(d.manager.master, alive), t), ClassOf(src));
      && p.escaped.None?
      && CallsOf(p.calls, ds, t, None)
  {
    var resolved := Resolve(d.manager, t, alive);
    WalkIgnoring(resolved.1, alive, ClassOf(src), t, react, src);
    PublishCalls(d, t, src, react, alive);
  }

  // ---------------------------------------------------------------------------
  // Subscribing and unsubscribing keep the dispatcher sound.

  /** A subscription is added under a new identity: it is not among the subscriptions
      held before, and, when reachable, it is the last one the master list yields. */
  lemma SubscribeAddsOne(d: Dispatcher, matcher: Matcher, eventType: JClass, subscriber: Subscriber, alive: Alive)
    requires Sound(d, alive)
    ensures var d2 := Subscribe(d, Some(matcher), Some(eventType), Some(subscriber)).value;
      var s := Subscriptions.Create(d.nextId, matcher, eventType, subscriber);
      && Sound(d2, alive)
      && s !in Live(d.manager.master, alive)
      && (Reachable(s, alive) ==> Live(d2.manager.master, alive) == Live(d.manager.master, alive) + [s])
      && (!Reachable(s, alive) ==> Live(d2.manager.master, alive) == Live(d.manager.master, alive))
  {
    var s := Subscriptions.Create(d.nextId, matcher, eventType, subscriber);
    AddKeepsValid(d.manager, s, alive);
    LiveMembers(d.manager.master, alive);
    forall x | x in Live(d.manager.master, alive) ensures x.id < d.nextId {
      var r :| r in d.manager.master && Refs.Get(r, alive) == Some(x);
    }
  }

  /** Subscribing the same subscriber twice with the same arguments makes two distinct
      subscriptions, both yielded when reachable. */
  lemma SubscribeTwice(d: Dispatcher, matcher: Matcher, eventType: JClass, subscriber: Subscriber, alive: Alive)
    requires Sound(d, alive)
    requires OfObject(subscriber) == Hard
    ensures var d1 := Subscribe(d, Some(matcher), Some(eventType), Some(subscriber)).value;
      var d2 := Subscribe(d1, Some(matcher), Some(eventType), Some(subscriber)).value;
      var s1 := Subscriptions.Create(d.nextId, matcher, eventType, subscriber);
      var s2 := Subscriptions.Create(d.nextId + 1, matcher, eventType, subscriber);
      && s1 != s2
      && Live(d2.manager.master, alive) == Live(d.manager.master, alive) + [s1, s2]
  {
    var d1 := Subscribe(d, Some(matcher), Some(eventType), Some(subscriber)).value;
    var d2 := Subscribe(d1, Some(matcher), Some(eventType), Some(subscriber)).value;
    var s1 := Subscriptions.Create(d.nextId, matcher, eventType, subscriber);
    var s2 := Subscriptions.Create(d.nextId + 1, matcher, eventType, subscriber);
    assert s1.id != s2.id;
    assert Reachable(s1, alive) && Reachable(s2, alive) by {
      assert GetReachability(s1) == OfObject(subscriber) == GetReachability(s2);
    }
    var l0 := Live(d.manager.master, alive);
    var l1 := Live(d1.manager.master, alive);
    assert Sound(d1, alive) && l1 == l0 + [s1] by { SubscribeAddsOne(d, matcher, eventType, subscriber, alive); }
    assert Live(d2.manager.master, alive) == l1 + [s2] by { SubscribeAddsOne(d1, matcher, eventType, subscriber, alive); }
    assert l0 + [s1] + [s2] == l0 + [s1, s2];
  }

  /** After `unsubscribe(subscriber)` the dispatcher is sound, the subscriber has no live
      subscription left and every other live subscription stays, in order. */
  lemma UnsubscribeRemovesAll(d: Dispatcher, subscriber: Subscriber, alive: Alive)
    requires Sound(d, alive)
    ensures var d2 := Unsubscribe(d, Some(subscriber), alive).value;
      && Sound(d2, alive)
      && forall s :: s in Live(d2.manager.master, alive) <==> s in Live(d.manager.master, alive) && s.subscriber != subscriber
  {
    RemoveDropsExactlyHits(d.manager, SubscriberIs(subscriber), alive);
    RemoveKeepsValid(d.manager, SubscriberIs(subscriber), alive);
  }

  /** After `unsubscribe(matcher, subscriber)` the dispatcher is sound and exactly the
      subscriber's live subscriptions with that matcher are gone. */
  lemma UnsubscribeFromRemovesMatching(d: Dispatcher, matcher: Matcher, subscriber: Subscriber, alive: Alive)
    requires Sound(d, alive)
    ensures var d2 := UnsubscribeFrom(d, Some(matcher), Some(subscriber), alive).value;
      && Sound(d2, alive)
      && forall s :: s in Live(d2.manager.master, alive) <==>
           s in Live(d.manager.master, alive) && !(s.subscriber == subscriber && s.matcher == matcher)
  {
    var v := SubscriberAndMatcher(matcher, subscriber);
    RemoveDropsExactlyHits(d.manager, v, alive);
    RemoveKeepsValid(d.manager, v, alive);
    forall s ensures Hits(v, s) <==> s.subscriber == subscriber && s.matcher == matcher {
      JEqualsIsEquality(s.matcher, matcher);
    }
  }

  /** An unsubscribed subscriber is not called by any later publication. */
  lemma UnsubscribedNotCalled(d: Dispatcher, subscriber: Subscriber, t: Topic, src: Source, react: Behaviour, alive: Alive)
    requires Sound(d, alive)
    ensures var d2 := Unsubscribe(d, Some(subscriber), alive).value;
      var p := Publish(d2, Some(t), Some(src), react, alive).value;
      forall i :: 0 <= i < |p.calls| ==> p.calls[i].subscription.subscriber != subscriber
  {
    var d2 := Unsubscribe(d, Some(subscriber), alive).value;
    UnsubscribeRemovesAll(d, subscriber, alive);
    PublishCalls(d2, t, src, react, alive);
    var ds := OfType(Matching(Live(d2.manager.master, alive), t), ClassOf(src));
    forall i | 0 <= i < |ds| ensures ds[i].subscriber != subscriber {
      assert ds[i] in ds;
    }
  }

  /** Garbage collection between operations keeps the dispatcher sound. */
  lemma CollectionKeepsSound(d: Dispatcher, alive: Alive, later: Alive)
    requires Sound(d, alive) && later <= alive
    ensures Sound(d, later)
  {
    CollectionKeepsValid(d.manager, alive, later);
  }

  /** `close` changes nothing: the dispatcher goes on publishing as before. */
  lemma CloseChangesNothing(d: Dispatcher, t: Option<Topic>, src: Option<Source>, react: Behaviour, alive: Alive)
    ensures Publish(Close(d), t, src, react, alive) == Publish(d, t, src, react, alive)
    ensures Close(Close(d)) == Close(d)
  {
  }

  // ---------------------------------------------------------------------------
  // The dispatcher unit tests about strong and weak subscribers.

  const StringClass: JClass :=
    JClass("java.lang.String", {"java.lang.Object", "java.io.Serializable", "java.lang.Comparable", "java.lang.CharSequence"}, None)

  const IntegerClass: JClass :=
    JClass("java.lang.Integer", {"java.lang.Number", "java.lang.Object", "java.io.Serializable", "java.lang.Comparable"}, None)

  /** An Integer is not a String. */
  lemma StringIsNotInteger()
    ensures !IsAssignableFrom(StringClass, IntegerClass)
  {
    assert "java.lang.String" != "java.lang.Integer" by {
      assert "java.lang.String"[10] != "java.lang.Integer"[10];
    }
    assert "java.lang.String" !in IntegerClass.supertypes;
  }

  /** A new dispatcher with one subscription for payloads of class c: publishing such a
      payload on a topic calls the subscriber exactly when its matcher matches the topic
      and the subscriber has not been reclaimed; publishing a payload of a class c does
      not accept calls nobody. */
  lemma OneSubscriber(h: ErrorHandler, matcher: Matcher, c: JClass, other: JClass, subscriber: Subscriber, t: Topic,
                      text: string, n: string, react: Behaviour, alive: Alive)
    requires !IsAssignableFrom(c, other)
    ensures var d := Subscribe(New(h), Some(matcher), Some(c), Some(subscriber)).value;
      var s := Subscriptions.Create(0, matcher, c, subscriber);
      var str := Plain(c, text);
      && Publish(d, Some(t), Some(str), react, alive).value.calls ==
           (if Matches(matcher, t) && Reachable(s, alive) then [Call(s, Event(t, str))] else [])
      && Publish(d, Some(t), Some(Plain(other, n)), react, alive).value.calls == []
  {
    var d0 := New(h);
    var d := Subscribe(d0, Some(matcher), Some(c), Some(subscriber)).value;
    var s := Subscriptions.Create(0, matcher, c, subscriber);
    assert Valid(d.manager, alive) && Live(d.manager.master, alive) == if Reachable(s, alive) then [s] else [] by {
      SubscribeAddsOne(d0, matcher, c, subscriber, alive);
    }
    PublishToOne(d, s, t, Plain(c, text), react, alive);
    PublishToOne(d, s, t, Plain(other, n), react, alive);
  }

  /** Publishing a plain payload on a dispatcher whose only subscription is s: s is called once when its
      matcher accepts the topic, it is reachable and it takes the payload's class, and
      nobody is called otherwise. */
  lemma PublishToOne(d: Dispatcher, s: Subscription, t: Topic, src: Source, react: Behaviour, alive: Alive)
    requires Valid(d.manager, alive) && src.Plain?
    requires Live(d.manager.master, alive) == if Reachable(s, alive) then [s] else []
    ensures Publish(d, Some(t), Some(src), react, alive).value.calls ==
      if Matches(s.matcher, t) && Reachable(s, alive) && IsAssignableFrom(s.eventType, ClassOf(src))
      then [Call(s, Event(t, src))] else []
  {
    var live := Live(d.manager.master, alive);
    OneOrNone(live, s, t, ClassOf(src));
    PublishCalls(d, t, src, react, alive);
    var p := Publish(d, Some(t), Some(src), react, alive).value;
    if Matches(s.matcher, t) && Reachable(s, alive) && IsAssignableFrom(s.eventType, ClassOf(src)) {
      PublishPlain(d, t, src, react, alive);
      assert |p.calls| == 1 && p.calls[0].event == Event(t, src);
    }
  }

  /** What a master list of at most one subscription delivers. */
  lemma OneOrNone(xs: seq<Subscription>, s: Subscription, t: Topic, c: JClass)
    requires xs == [] || xs == [s]
    ensures OfType(Matching(xs, t), c) ==
      if xs == [s] && Matches(s.matcher, t) && IsAssignableFrom(s.eventType, c) then [s] else []
  {
    if xs == [s] {
      assert xs[1..] == [];
    }
  }

  /** `test_subscribe_strong` and `test_subscribe_weak`, for any matcher and topic: a
      subscriber of `String` payloads gets a string published on a topic its matcher
      matches, unless it is WEAK and reclaimed, and never gets an integer. */
  lemma StringSubscriberTest(h: ErrorHandler, matcher: Matcher, subscriber: Subscriber, t: Topic, text: string, n: string,
                             react: Behaviour, alive: Alive)
    ensures var d := Subscribe(New(h), Some(matcher), Some(StringClass), Some(subscriber)).value;
      var s := Subscriptions.Create(0, matcher, StringClass, subscriber);
      var str := Plain(StringClass, text);
      && (Matches(matcher, t) && (OfObject(subscriber) == Hard || s in alive) ==>
            Publish(d, Some(t), Some(str), react, alive).value.calls == [Call(s, Event(t, str))])
      && (OfObject(subscriber) == Weak && s !in alive ==>
            Publish(d, Some(t), Some(str), react, alive).value.calls == [])
      && Publish(d, Some(t), Some(Plain(IntegerClass, n)), react, alive).value.calls == []
  {
    StringIsNotInteger();
    OneSubscriber(h, matcher, StringClass, IntegerClass, subscriber, t, text, n, react, alive);
  }
}
