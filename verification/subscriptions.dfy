/**
 * A subscription: a topic matcher, the event type the subscriber accepts, and the
 * subscriber itself.
 *
 * Subscriptions define no equality of their own, so each one is distinct by identity.
 * The identity is the `id` field, which the caller picks fresh.
 */
module Subscriptions {
  import opened Common
  import opened Refs
  import opened Topics

  /** Subscribers are arbitrary objects with an identity. */
  type Subscriber = JObject

  datatype Subscription = Subscription(id: nat, matcher: Matcher, eventType: JClass, subscriber: Subscriber)

  /** `Subscription.create`: a new subscription that answers exactly what it was given. */
  function Create(id: nat, matcher: Matcher, eventType: JClass, subscriber: Subscriber): (s: Subscription)
    ensures s.matcher == matcher && s.eventType == eventType && s.subscriber == subscriber
    ensures s.id == id
  {
    Subscription(id, matcher, eventType, subscriber)
  }

  /** `getReachability`: the subscriber's own reachability when it is Referencable,
      otherwise its class's annotation, HARD by default. */
  function GetReachability(s: Subscription): (r: Reachability)
    ensures s.subscriber.referencable.Some? ==> r == s.subscriber.referencable.value
    ensures s.subscriber.referencable.None? && s.subscriber.cls.reference.Some?
      ==> r == s.subscriber.cls.reference.value
    ensures s.subscriber.referencable.None? && s.subscriber.cls.reference.None? ==> r == Hard
    ensures r == OfObject(s.subscriber)
  {
    match s.subscriber.referencable
    case Some(k) => k
    case None => OfClass(s.subscriber.cls)
  }

  /** Two subscriptions created from the same arguments are still distinct. */
  lemma CreateIsFresh(i: nat, j: nat, matcher: Matcher, eventType: JClass, subscriber: Subscriber)
    requires i != j
    ensures Create(i, matcher, eventType, subscriber) != Create(j, matcher, eventType, subscriber)
  {
  }
}
