/**
 * Events as the dispatcher builds them: a topic and a payload (the event source).
 *
 * A payload is either an ordinary value, reduced to its class and a text standing for
 * its contents, or a request (`Message`), which subscribers may answer.  The event's
 * timestamp is not modelled.
 */
module Events {
  import opened Common
  import opened Refs
  import opened Topics
  import opened Messages

  datatype Source =
    | Plain(cls: JClass, text: string)
    | Request(message: Message<string, string>)

  datatype Event = Event(topic: Topic, source: Source)

  /** The runtime class of a request payload. */
  const MessageClass: JClass :=
    JClass("com.mycila.event.internal.Message",
           {"com.mycila.event.EventRequest", "java.util.concurrent.Future", "java.lang.Object"}, None)

  /** `getClass()` of the payload. */
  function ClassOf(src: Source): (c: JClass)
    ensures src.Plain? ==> c == src.cls
    ensures src.Request? ==> "com.mycila.event.EventRequest" in c.supertypes
    ensures src.Request? ==> "java.util.concurrent.Future" in c.supertypes
  {
    match src
    case Plain(c, _) => c
    case Request(_) => MessageClass
  }
}
