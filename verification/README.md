# Mycila event bus — a Dafny model of its dispatching core

This project models the core of the Mycila event bus, a small in-process
publish/subscribe library for Java, and proves properties of the model.

A **dispatcher** keeps **subscriptions**. Each subscription holds:
- a topic **matcher**;
- an event type;
- a subscriber.

`publish(topic, source)` hands the event to every subscription whose matcher
accepts the topic and whose event type is assignable from the payload's class.
The calls happen in subscription order.

**Topic matching.** Topic names are slash-separated. Patterns follow Ant's
rules: `?` and `*` work inside one segment, and `**` spans any number of
segments. The matchers combine with `and`, `or`, `not`, `only` and `anyOf`.

**Subscription storage.** The subscription manager keeps a master list and a
per-topic cache of matching lists. The lists hold references: HARD or WEAK,
according to the subscriber's own choice when it implements `Referencable`, else
its class's `@Reference` annotation (HARD by default). A dead reference is
dropped the next time the list is iterated.

**Errors and requests.**
- An exception from a subscriber goes to the error handler.
  - `silent` swallows it.
  - `rethrow` unwraps it to its root cause. For a request payload
    (`Message`), it fails the request with that cause. Otherwise it throws a
    `SubscriberExecutionException`.
- `Message` is the request/reply payload. It is a future that is settled
  once, by a reply, an error reply or a cancellation. A reply or an error
  reply tells every listener. A cancellation tells no one.

## Modules

| file | module | what it holds |
|---|---|---|
| common.dfy | `Common` | `Option`, `Outcome` (a value or a thrown `Throwable`) |
| faults.dfy | `Faults` | the throwables, `Ensure.notNull`, `SubscriberExecutionException.wrap` |
| messages.dfy | `Messages` | `Message`: states, reply, error reply, cancel, get |
| wildcard.dfy | `Wildcard` | generic wildcard matching, used for both the character and the segment level of the matcher |
| tokenizer.dfy | `Tokenizer` | `tokenizeToStringArray`, with a declarative `Tokens` |
| topics_matcher.dfy | `TopicsMatcher` | the two matching algorithms (`matchStrings`, `doMatch`), proved equal to declarative definitions |
| topics.dfy | `Topics` | `Topic`, the matcher combinators, `equals` and `hashCode` |
| refs.dfy | `Refs` | classes, `Reachability`, HARD and WEAK references |
| subscriptions.dfy | `Subscriptions` | `Subscription` |
| subscription_list.dfy | `SubscriptionLists` | `SubscriptionList` |
| subscription_manager.dfy | `SubscriptionManagers` | `SubscriptionManager` and its invariant |
| events.dfy | `Events` | events and payloads |
| error_handlers.dfy | `ErrorHandlers` | `silent` and `rethrow` |
| default_dispatcher.dfy | `DefaultDispatchers` | `DefaultDispatcher`: publish, subscribe, unsubscribe, close |
| dispatcher_scenario.dfy | `DispatcherScenarios` | publishing a sequence of payloads, and the strong and weak subscriber tests |

**Modelling choices.**
- **Garbage collector.** It is a parameter, `alive`: the set of subscriptions
  the collector has not yet reclaimed. A WEAK reference holds the
  `Subscription` object itself (Reachability.java:40-44), and nothing else
  holds that object strongly. A WEAK reference answers exactly while its
  subscription is in `alive`.
- **Subscriber behaviour.** Subscribers are a parameter too: a `Behaviour`
  maps a subscriber and an event to a reaction. The reaction returns, throws
  a given throwable, or answers the request.
- **Null arguments.** The arguments that `DefaultDispatcher` checks for
  `null` (in `publish`, `subscribe` and both `unsubscribe` methods) are
  `Option`s. A missing one yields the `IllegalArgumentException` that
  `Ensure.notNull` throws. The library's other null checks are ruled out by
  the types: see "Left out".
- **Executors.** The dispatcher runs its executors immediately, as the
  synchronous dispatchers do. Publishing is therefore one pure function from
  the dispatcher state to:
  - the new state, with pruned and cached lists;
  - the calls made;
  - the payload after the calls;
  - the listener notifications;
  - the throwable that escapes, if any.

**Two consequences of the code that its names do not suggest.**
- `Topics.any()` is `match("**")` (Topics.java:90), and `**` can take every
  segment of a name. But before tokenizing, `doMatch` requires the pattern and
  the name to agree on a leading '/' (TopicsMatcher.java:64-65). So `any()`
  rejects every name that starts with '/' (`TopicsMatcher.DoubleStarPattern`,
  `Topics.AnyMatches`).
- The master list and each cached list hold references of their own.
  `SubscriptionList.add` wraps the subscription in a new reference of its
  reachability every time it is called (SubscriptionList.java:36-39). The
  model does the same. Each list drops its own dead references when it is
  iterated. The dispatcher invariant (`SubscriptionManagers.Valid`) is
  stated over what the lists yield, so it does not depend on which list was
  iterated last.

## Model

| member | source | states |
|---|---|---|
| Faults.NotNull | src/main/java/com/mycila/event/internal/Ensure.java:27-31 | a present argument is passed through unchanged; a missing one fails with an IllegalArgumentException naming the argument, and only then |
| Faults.WrapLoop | src/main/java/com/mycila/event/SubscriberExecutionException.java:30-38 | the unwrapping loop ends in a SubscriberExecutionException whose cause is the root cause, and that cause is neither an InvocationTargetException, an ExecutionException nor a SubscriberExecutionException |
| Faults.RootIsNoWrapper | src/main/java/com/mycila/event/SubscriberExecutionException.java:31-36 | the loop only stops at a throwable that is not a wrapper, or at none |
| Faults.Wrap | src/main/java/com/mycila/event/SubscriberExecutionException.java:30-38 | `wrap` always builds a SubscriberExecutionException, and its cause is absent or not itself a wrapper |
| Faults.NonWrapperIsRoot | src/main/java/com/mycila/event/SubscriberExecutionException.java:30-38 | a throwable that is not a wrapper becomes the cause as it is |
| Faults.WrapIdempotent | src/main/java/com/mycila/event/SubscriberExecutionException.java:30-38 | wrapping is idempotent: wrapping the result of a wrap keeps the same cause |
| Faults.EmptyWrapper | src/main/java/com/mycila/event/SubscriberExecutionException.java:31-36 | a wrapper with no cause unwraps to no cause |
| Messages.Create | src/main/java/com/mycila/event/internal/Message.java:53-56 | a new request keeps its parameters and listeners, is neither done nor cancelled, and `get` on it blocks |
| Messages.Cancel | src/main/java/com/mycila/event/internal/Message.java:74-82 | cancel succeeds exactly while the request waits, then moves it to CANCELLED; otherwise nothing changes |
| Messages.Reply | src/main/java/com/mycila/event/internal/Message.java:97-106 | a reply is accepted exactly while the request waits: it then becomes done with that reply, and every listener is told the reply once, in order; otherwise it fails with "already replied" |
| Messages.ReplyError | src/main/java/com/mycila/event/internal/Message.java:108-117 | an error reply is accepted exactly while the request waits: it then records the wrapped error, and every listener is told the root cause once, in order; otherwise it fails with "already replied" |
| Messages.ResponseTrace | src/main/java/com/mycila/event/internal/Message.java:101-103 | one onResponse per listener, in listener order |
| Messages.ErrorTrace | src/main/java/com/mycila/event/internal/Message.java:112-114 | one onError per listener, in listener order |
| Messages.IsCancelled | src/main/java/com/mycila/event/internal/Message.java:58-61 | a cancelled request has been released, and holds neither a reply nor an error |
| Messages.IsDone | src/main/java/com/mycila/event/internal/Message.java:63-67 | a done request has been released and is not cancelled; a released request that is not done is cancelled |
| Messages.Result | src/main/java/com/mycila/event/internal/Message.java:119-128 | `result` never waits: it returns exactly when the request holds a reply, and raises "not available" unless it holds an error |
| Messages.Get | src/main/java/com/mycila/event/internal/Message.java:84-88 | get blocks exactly while the request waits; afterwards it returns the reply, or raises the recorded error, or raises "not available" for a cancelled request |
| Messages.TimedGet | src/main/java/com/mycila/event/internal/Message.java:90-95 | a timed get on a waiting request times out with the waiting time in the message; on a settled one it is get |
| Messages.DoneOrCancelled | src/main/java/com/mycila/event/internal/Message.java:58-67 | a request is never both done and cancelled, and it is released exactly when it is one of them |
| Messages.ErrorReplyRaisesRoot | src/main/java/com/mycila/event/internal/Message.java:108-128 | after an error reply, get raises a SubscriberExecutionException around the root cause, which is not itself a wrapper |
| Messages.SettledStaysSettled | src/main/java/com/mycila/event/internal/Message.java:74-117 | once released, no further reply, error reply or cancel changes a request |
| Messages.FirstCompletionWins | src/main/java/com/mycila/event/internal/Message.java:74-117 | of several completions of a waiting request, the first decides the outcome, and parameters and listeners never change |
| Wildcard.EmptySubject | src/main/java/com/mycila/event/internal/TopicsMatcher.java:206-211 | an empty subject is matched exactly by a pattern made only of stars |
| Wildcard.NoStarsMatch | src/main/java/com/mycila/event/internal/TopicsMatcher.java:188-196 | a pattern without stars matches exactly the subjects of its length that it matches element by element |
| Wildcard.AllStarsMatchAll | src/main/java/com/mycila/event/internal/TopicsMatcher.java:105-110 | a non-empty all-star pattern matches everything |
| Wildcard.LeftmostBlock | src/main/java/com/mycila/event/internal/TopicsMatcher.java:224-253 | between two stars, committing to the leftmost occurrence of the literal block loses no match (the greedy middle phase is complete) |
| Wildcard.NoBlockNoMatch | src/main/java/com/mycila/event/internal/TopicsMatcher.java:240-241 | if the literal block between two stars occurs nowhere, there is no match |
| Wildcard.FindBlock | src/main/java/com/mycila/event/internal/TopicsMatcher.java:229-243 | the search finds the leftmost position where the block matches, or reports that there is none |
| Tokenizer.TrimStart | src/main/java/com/mycila/event/internal/TopicsMatcher.java:163 | the result is the input without its leading blanks (characters up to ' '), and only those: everything dropped is blank, and the result is empty or starts with a non-blank character |
| Tokenizer.TrimEnd | src/main/java/com/mycila/event/internal/TopicsMatcher.java:163 | the result is the input without its trailing blanks, and only those: everything dropped is blank, and the result is empty or ends with a non-blank character |
| Tokenizer.Trim | src/main/java/com/mycila/event/internal/TopicsMatcher.java:165-166 | `String.trim`: the result is an infix of the input with only blanks around it, and it is empty or has non-blank characters at both ends |
| Tokenizer.TokenizeToStringArray | src/main/java/com/mycila/event/internal/TopicsMatcher.java:154-171 | the tokenizer loop yields exactly the declarative segments: the trimmed non-empty pieces between '/' separators, each free of '/' and of blank ends |
| Tokenizer.TokensAreSegments | src/main/java/com/mycila/event/internal/TopicsMatcher.java:160-168 | every token is non-empty, has no '/' and no blank first or last character |
| Tokenizer.TokensJoin | src/main/java/com/mycila/event/internal/TopicsMatcher.java:154-171 | the tokens of `a/b` are those of `a` followed by those of `b` |
| Tokenizer.SingleSegment | src/main/java/com/mycila/event/internal/TopicsMatcher.java:154-171 | a segment tokenizes to itself |
| Tokenizer.LeadingSeparator | src/main/java/com/mycila/event/internal/TopicsMatcher.java:163-166 | a leading '/' adds no token |
| Tokenizer.DoubledSeparator | src/main/java/com/mycila/event/internal/TopicsMatcher.java:163-166 | an empty piece between two separators is dropped: `a//b` has the tokens of `a/b` |
| Tokenizer.TokensOfEmpty | src/main/java/com/mycila/event/internal/TopicsMatcher.java:154-171 | the empty name has no tokens |
| Tokenizer.SplitJoin | src/main/java/com/mycila/event/internal/TopicsMatcher.java:158-169 | splitting at a separator splits the two sides independently |
| TopicsMatcher.MatchStrings | src/main/java/com/mycila/event/internal/TopicsMatcher.java:173-259 | the segment matcher, with its front, back and leftmost-window middle phases, decides exactly the declarative glob: '?' takes one character, '*' any run, anything else itself (characters are Basic Multilingual Plane UTF-16 units) |
| TopicsMatcher.MatchLiteral | src/main/java/com/mycila/event/internal/TopicsMatcher.java:188-196 | a star-free segment pattern matches exactly the strings of its length that agree with it, '?' taking any character (lengths in Basic Multilingual Plane characters) |
| TopicsMatcher.MatchBack | src/main/java/com/mycila/event/internal/TopicsMatcher.java:212-259 | from the first star on, the back and middle phases decide the glob of the rest |
| TopicsMatcher.GlobMiddle | src/main/java/com/mycila/event/internal/TopicsMatcher.java:224-253 | the middle loop decides the glob of the window between the first and the last star |
| TopicsMatcher.DoMatch | src/main/java/com/mycila/event/internal/TopicsMatcher.java:63-146 | the topic matcher answers exactly the declarative topic match: same leading '/' on both, then segment matching with '**' spanning any run of segments, plus the code's trailing-'/' rules (names and patterns in Basic Multilingual Plane characters) |
| TopicsMatcher.MatchDirs | src/main/java/com/mycila/event/internal/TopicsMatcher.java:72-145 | the segment phases of doMatch decide exactly the declarative segment match |
| TopicsMatcher.MatchDirsBack | src/main/java/com/mycila/event/internal/TopicsMatcher.java:96-141 | from the first '**' on, the back and middle phases decide the segment match of the rest |
| TopicsMatcher.SegmentsMiddle | src/main/java/com/mycila/event/internal/TopicsMatcher.java:111-141 | the middle loop decides the segment match between the first and the last '**' |
| TopicsMatcher.FindSegments | src/main/java/com/mycila/event/internal/TopicsMatcher.java:119-133 | the leftmost position where the segment block matches, or none |
| TopicsMatcher.RestIsDoubleStars | src/main/java/com/mycila/event/internal/TopicsMatcher.java:105-110 | once the name is used up, the rest matches exactly when it is all '**' |
| TopicsMatcher.PrefixMismatch | src/main/java/com/mycila/event/internal/TopicsMatcher.java:72-80 | a mismatching literal segment before any '**' rules the match out |
| TopicsMatcher.BothConsumed | src/main/java/com/mycila/event/internal/TopicsMatcher.java:81-91 | a star-free pattern that matches segment by segment matches exactly when both or neither end with '/' |
| TopicsMatcher.LoneStarAtEnd | src/main/java/com/mycila/event/internal/TopicsMatcher.java:86-88 | a pattern ending in a lone '*' segment matches the name ending with '/' that matches the rest |
| TopicsMatcher.PathConsumed | src/main/java/com/mycila/event/internal/TopicsMatcher.java:81-91 | once the name is used up, the match holds exactly when the rest of the pattern is all '**' |
| TopicsMatcher.PatternConsumed | src/main/java/com/mycila/event/internal/TopicsMatcher.java:92-93 | a star-free pattern shorter than the name does not match |
| TopicsMatcher.ReachedDoubleStar | src/main/java/com/mycila/event/internal/TopicsMatcher.java:72-80 | after the matching literal prefix, the first '**' hands the decision to the rest |
| TopicsMatcher.GlobLiteral | src/main/java/com/mycila/event/internal/TopicsMatcher.java:188-196 | a segment pattern without '*' and '?' matches exactly itself |
| TopicsMatcher.GlobStar | src/main/java/com/mycila/event/internal/TopicsMatcher.java:198-199 | the segment pattern "*" matches every string |
| TopicsMatcher.SegmentsLiteral | src/main/java/com/mycila/event/internal/TopicsMatcher.java:72-91 | segments free of wildcards match exactly the equal segments |
| TopicsMatcher.LiteralPattern | src/main/java/com/mycila/event/internal/TopicsMatcher.java:63-146 | a wildcard-free pattern matches exactly the names with its segments and its leading and trailing separators |
| TopicsMatcher.DoubleStarPattern | src/main/java/com/mycila/event/internal/TopicsMatcher.java:63-146 | "**" matches exactly the names that do not start with '/' |
| TopicsMatcher.SubtreePattern | src/main/java/com/mycila/event/internal/TopicsMatcher.java:63-146 | `prefix/**` matches every name that `prefix` matches segment by segment, with the same leading '/', and every name below such a name: `**` takes zero or more segments |
| TopicsMatcher.FirstSegmentDiffers | src/main/java/com/mycila/event/internal/TopicsMatcher.java:72-80 | a pattern whose literal first segment differs from the name's does not match, whatever follows |
| TopicsMatcher.TokensOfSubtree | src/main/java/com/mycila/event/internal/TopicsMatcher.java:154-171 | the segments of `prefix/**` are those of the prefix followed by "**" |
| Topics.Evaluate | src/main/java/com/mycila/event/Topics.java:101-260 | evaluating a combined matcher gives its declarative meaning: and, or, not, only, anyOf and the pattern matcher |
| Topics.AnyOfPatterns | src/main/java/com/mycila/event/Topics.java:76-82 | `anyOf(String...)` builds one pattern matcher per pattern, in order |
| Topics.AnyOfPatternsMatches | src/main/java/com/mycila/event/Topics.java:76-82 | `anyOf(patterns)` matches exactly the topics some pattern matches |
| Topics.TopicsOf | src/main/java/com/mycila/event/Topic.java:61-67 | `topics(names)` makes one topic per name, in order |
| Topics.Random | src/main/java/com/mycila/event/Topic.java:73-75 | a random topic is "temp/" followed by the unique id |
| Topics.JEquals | src/main/java/com/mycila/event/Topics.java:107-265 | `equals` of each matcher subclass; JEqualsIsEquality proves it is structural equality |
| Topics.ArraysEquals | src/main/java/com/mycila/event/Topics.java:262-265 | `Arrays.equals` over matchers; ArraysEqualsIsEquality proves it is sequence equality |
| Topics.StringHashSnoc | src/main/java/com/mycila/event/Topic.java:51-54 | the modelled `String.hashCode` is 0 on the empty string, and each further character multiplies the hash by 31 and adds the character, with 32-bit wrap-around |
| Topics.StringHash | src/main/java/com/mycila/event/Topic.java:51-54 | `String.hashCode`, computed as Java's loop does; StringHashSnoc states its documented formula |
| Topics.TopicHash | src/main/java/com/mycila/event/Topic.java:51-54 | `Topic.hashCode`: 31 times the name's hash; HashRespectsEquals relates it to `equals` |
| Topics.Hash | src/main/java/com/mycila/event/Topics.java:114-270 | `hashCode` of each matcher subclass, with 32-bit wrap-around; HashRespectsEquals proves that equal matchers hash alike |
| Topics.JEqualsIsEquality | src/main/java/com/mycila/event/Topics.java:107-265 | matcher `equals` holds exactly for structurally equal matchers |
| Topics.ArraysEqualsIsEquality | src/main/java/com/mycila/event/Topics.java:262-265 | `Arrays.equals` over matchers holds exactly for equal arrays |
| Topics.HashRespectsEquals | src/main/java/com/mycila/event/Topics.java:107-270 | equal matchers have equal hash codes |
| Topics.AnyMatches | src/main/java/com/mycila/event/Topics.java:60-62 | `any()` matches exactly the topics not starting with '/' |
| Topics.OnlyMatches | src/main/java/com/mycila/event/Topics.java:68-74 | `only(name)` matches exactly the topic of that name |
| Topics.NotNot | src/main/java/com/mycila/event/Topics.java:52-66 | double negation and delegation do not change what a matcher accepts |
| Topics.EmptyAnyOf | src/main/java/com/mycila/event/Topics.java:253-260 | `anyOf()` with no matcher matches nothing |
| Topics.PatternMatches | src/main/java/com/mycila/event/Topics.java:56-58 | `match(pattern)` accepts a topic exactly when the pattern matches its name |
| Topics.LiteralPatternMatches | src/main/java/com/mycila/event/Topics.java:56-58 | `match` with a wildcard-free pattern accepts exactly the names with the same segments and separators at both ends |
| Topics.SubtreeTestCase | src/test/java/com/mycila/event/MatcherTest.java:44-53 | a `prog/events/**` pattern matches names below `prog/events` |
| Topics.OutsideTestCase | src/test/java/com/mycila/event/MatcherTest.java:44-53 | a `prog/events/**` pattern rejects a one-segment name other than `prog`, and its negation accepts it |
| Topics.AnyTestCase | src/test/java/com/mycila/event/MatcherTest.java:44-53 | `any()` matches a one-segment name and the empty name |
| Refs.Get | src/main/java/com/mycila/event/Reachability.java:61-72 | a HARD reference always answers its object; a WEAK one only while the object is alive; neither answers anything else |
| Refs.OfClass | src/main/java/com/mycila/event/Reachability.java:55-59 | a class's `@Reference` annotation decides its reachability, HARD by default |
| Refs.OfObject | src/main/java/com/mycila/event/Reachability.java:48-53 | an object that is itself referencable decides its reachability; otherwise its class does |
| Refs.ReclaimedStaysReclaimed | src/main/java/com/mycila/event/Reachability.java:40-44 | once a reference stops answering, it never answers again as the collector goes on |
| Subscriptions.Create | src/main/java/com/mycila/event/Subscription.java:59-64 | a subscription keeps the matcher, event type and subscriber it was created with |
| Subscriptions.GetReachability | src/main/java/com/mycila/event/Subscription.java:47-52 | a subscription is as reachable as its subscriber: the subscriber's own choice first, then its class's annotation, then HARD |
| Subscriptions.CreateIsFresh | src/main/java/com/mycila/event/Subscription.java:29-33 | two subscriptions created separately are distinct, even with the same arguments |
| SubscriptionLists.Add | src/main/java/com/mycila/event/internal/SubscriptionList.java:36-39 | add appends one reference, of the subscription's reachability, after the existing ones, and reports success |
| SubscriptionLists.Size | src/main/java/com/mycila/event/internal/SubscriptionList.java:45-47 | `size` is the number of stored references, dead ones included, so it is never smaller than the number of subscriptions an iteration yields, whatever the collector has reclaimed |
| SubscriptionLists.IsEmpty | src/main/java/com/mycila/event/internal/SubscriptionList.java:41-43 | a list is empty exactly when its size is 0, and an empty list yields nothing |
| SubscriptionLists.Prune | src/main/java/com/mycila/event/internal/SubscriptionList.java:66-74 | the references left after an iteration are exactly those that still answer |
| SubscriptionLists.Remove | src/main/java/com/mycila/event/internal/SubscriptionList.java:53-57 | remove deletes exactly the references that answer the given subscription |
| SubscriptionLists.Iterate | src/main/java/com/mycila/event/internal/SubscriptionList.java:49-74 | an iteration yields exactly the subscriptions of answering references, in list order, and deletes exactly the dead references |
| SubscriptionLists.LiveConcat | src/main/java/com/mycila/event/internal/SubscriptionList.java:49-51 | iterating two lists one after the other yields what iterating their concatenation yields |
| SubscriptionLists.LiveMembers | src/main/java/com/mycila/event/internal/SubscriptionList.java:49-51 | a subscription is yielded exactly when some reference of the list answers it |
| SubscriptionLists.LivePrune | src/main/java/com/mycila/event/internal/SubscriptionList.java:66-74 | deleting dead references does not change what the list yields |
| SubscriptionLists.LiveRemove | src/main/java/com/mycila/event/internal/SubscriptionList.java:53-57 | after remove, the list yields what it yielded before minus the removed subscription |
| SubscriptionLists.LiveAdd | src/main/java/com/mycila/event/internal/SubscriptionList.java:36-39 | add makes the list also yield the new subscription at the end, unless it is WEAK and already collected |
| SubscriptionLists.DeadRefsCounted | src/main/java/com/mycila/event/internal/SubscriptionList.java:45-47 | `size` counts a dead reference until an iteration deletes it |
| SubscriptionLists.HardSurvivesPruning | src/main/java/com/mycila/event/internal/SubscriptionList.java:66-74 | a HARD reference is never deleted by an iteration |
| SubscriptionManagers.Matching | src/main/java/com/mycila/event/internal/SubscriptionManager.java:71-73 | the subscriptions whose matcher accepts the topic, in order |
| SubscriptionManagers.OfType | src/main/java/com/mycila/event/internal/SubscriptionManager.java:77-84 | the subscriptions whose event type is assignable from the payload's class, in order |
| SubscriptionManagers.AddSubscription | src/main/java/com/mycila/event/internal/SubscriptionManager.java:39-44 | the subscription is appended to the master list and to the cached list of exactly the topics its matcher accepts; no topic is added to or dropped from the cache |
| SubscriptionManagers.Resolve | src/main/java/com/mycila/event/internal/SubscriptionManager.java:66-76 | a cached topic answers its cached list and changes nothing; an uncached one gets a new list of the master's live subscriptions that match it, and the master is pruned on the way |
| Events.ClassOf | src/main/java/com/mycila/event/internal/SubscriptionManager.java:78 | the payload's runtime class, which the event-type filter tests: a plain payload keeps its class, and a request payload is a `Message`, which is an `EventRequest` and a `Future` |
| SubscriptionManagers.Deliverable | src/main/java/com/mycila/event/internal/SubscriptionManager.java:77-84 | what a getSubscriptions iteration yields: exactly the live subscriptions of the list whose event type takes the payload's class |
| SubscriptionManagers.RemoveSubscriber | src/main/java/com/mycila/event/internal/SubscriptionManager.java:46-64 | removal keeps the cached topics, and only ever deletes references |
| SubscriptionManagers.AddKeepsValid | src/main/java/com/mycila/event/internal/SubscriptionManager.java:39-44 | adding keeps every cached list equal to the master's matching live subscriptions, and appends the new subscription to what the master yields while it is reachable |
| SubscriptionManagers.ResolveKeepsValid | src/main/java/com/mycila/event/internal/SubscriptionManager.java:66-76 | looking a topic up keeps the invariant, answers the master's matching live subscriptions, does not change what the master yields, and a second lookup answers the same list |
| SubscriptionManagers.ResolveDelivers | src/main/java/com/mycila/event/internal/SubscriptionManager.java:66-85 | getSubscriptions yields the master's live subscriptions that match the topic and take the payload's class, in subscription order, whether or not the topic was cached |
| SubscriptionManagers.RemoveKeepsValid | src/main/java/com/mycila/event/internal/SubscriptionManager.java:46-64 | removal keeps the invariant, and the master then yields its former live subscriptions minus those removed |
| SubscriptionManagers.RemoveDropsExactlyHits | src/main/java/com/mycila/event/internal/SubscriptionManager.java:46-64 | after removal, a subscription is yielded exactly when it was yielded before and is not one of the subscriber's (with an equal matcher, for the two-argument form) |
| SubscriptionManagers.RemoveAbsentSubscriber | src/main/java/com/mycila/event/internal/SubscriptionManager.java:46-54 | removing a subscriber that has no subscription only prunes dead references from the master |
| SubscriptionManagers.RemoveKeepsOtherMatchers | src/main/java/com/mycila/event/internal/SubscriptionManager.java:56-64 | removing a subscriber for one matcher keeps its subscriptions with other matchers |
| SubscriptionManagers.CollectionKeepsValid | src/main/java/com/mycila/event/internal/SubscriptionManager.java:36-37 | the invariant survives any garbage collection |
| SubscriptionManagers.EmptyIsValid | src/main/java/com/mycila/event/internal/SubscriptionManager.java:36-37 | an empty manager satisfies the invariant |
| SubscriptionManagers.MatchingReachables | src/main/java/com/mycila/event/internal/SubscriptionManager.java:71-73 | filtering by topic and by reachability commute |
| ErrorHandlers.Handle | src/main/java/com/mycila/event/ErrorHandlers.java:34-50 | `silent` swallows; `rethrow` fails a waiting request with the root cause and tells every listener, throws "already replied" for a settled request, and throws a SubscriberExecutionException around the root cause for any other payload |
| DefaultDispatchers.New | src/main/java/com/mycila/event/internal/DefaultDispatcher.java:41-47 | a new dispatcher keeps its error handler, satisfies the invariant and has no subscription |
| DefaultDispatchers.Catch | src/main/java/com/mycila/event/internal/DefaultDispatcher.java:61-65 | only an `Exception` reaches the error handler, and any other throwable escapes as it is; for an ordinary payload something escapes exactly under `rethrow` or for a non-`Exception` |
| DefaultDispatchers.Deliver | src/main/java/com/mycila/event/internal/DefaultDispatcher.java:59-67 | one subscriber call: an ordinary payload is unchanged and escapes exactly when the reaction escapes; a request changes only by a legal transition that tells its listeners once; under `silent` an `Exception` never escapes |
| DefaultDispatchers.Publish | src/main/java/com/mycila/event/internal/DefaultDispatcher.java:50-71 | a missing topic or payload fails with the argument's name, in the code's order; otherwise the handler and the identity counter stay, and the topic is cached afterwards |
| DefaultDispatchers.Subscribe | src/main/java/com/mycila/event/internal/DefaultDispatcher.java:74-79 | a missing matcher, event type or subscriber fails with its name, in the code's order; otherwise exactly one new subscription is handed to the manager |
| DefaultDispatchers.Unsubscribe | src/main/java/com/mycila/event/internal/DefaultDispatcher.java:82-85 | a missing subscriber fails with its name; otherwise only the manager changes |
| DefaultDispatchers.UnsubscribeFrom | src/main/java/com/mycila/event/internal/DefaultDispatcher.java:88-92 | the subscriber is checked before the matcher; otherwise only the manager changes |
| DefaultDispatchers.Walk | src/main/java/com/mycila/event/internal/DefaultDispatcher.java:56-68 | the subscriber loop makes at most one call per stored reference; WalkCalls, WalkPlain, WalkRequest and WalkKeepsLive state what it does |
| DefaultDispatchers.Close | src/main/java/com/mycila/event/internal/DefaultDispatcher.java:95-96 | `close` keeps the subscriptions, the error handler and the identity counter |
| DefaultDispatchers.WalkKeepsLive | src/main/java/com/mycila/event/internal/DefaultDispatcher.java:56-68 | walking a list only deletes dead references: it yields the same subscriptions afterwards |
| DefaultDispatchers.WalkCalls | src/main/java/com/mycila/event/internal/DefaultDispatcher.java:56-68 | the walk calls the deliverable subscriptions in order, all of them unless a throwable escapes, in which case the walk stops at that call |
| DefaultDispatchers.WalkPlain | src/main/java/com/mycila/event/internal/DefaultDispatcher.java:56-68 | with an ordinary payload, every call gets the same event; every call but the last is harmless; and what escapes, if anything, comes from the last call |
| DefaultDispatchers.WalkRequest | src/main/java/com/mycila/event/internal/DefaultDispatcher.java:56-68 | with a request payload, the request changes only by a legal transition over the whole walk |
| DefaultDispatchers.TransitionsCompose | src/main/java/com/mycila/event/internal/Message.java:97-117 | two legal request transitions in a row make one legal transition, and the listener calls add up |
| DefaultDispatchers.WalkIgnoring | src/main/java/com/mycila/event/ErrorHandlers.java:34-38 | under `silent`, with subscribers that throw only `Exception`s, nothing escapes a walk |
| DefaultDispatchers.PublishKeepsSound | src/main/java/com/mycila/event/internal/DefaultDispatcher.java:50-71 | publishing keeps the dispatcher invariant, and the master yields the same subscriptions afterwards |
| DefaultDispatchers.PublishCalls | src/main/java/com/mycila/event/internal/DefaultDispatcher.java:50-71 | publishing calls, in order, the live subscriptions that match the topic and take the payload's class, stopping only at an escaping throwable |
| DefaultDispatchers.PublishPlain | src/main/java/com/mycila/event/internal/DefaultDispatcher.java:50-71 | publishing an ordinary payload gives every subscriber the same event and tells no listener |
| DefaultDispatchers.PublishRequest | src/main/java/com/mycila/event/internal/DefaultDispatcher.java:50-71 | publishing a request changes it only by a legal transition: a settled one not at all, a waiting one settled once with each listener told in order |
| DefaultDispatchers.PublishIgnoringErrors | src/main/java/com/mycila/event/ErrorHandlers.java:34-38 | under `silent`, with subscribers that throw only `Exception`s, publishing calls every deliverable subscription and nothing escapes |
| DefaultDispatchers.SubscribeAddsOne | src/main/java/com/mycila/event/internal/DefaultDispatcher.java:74-79 | subscribing keeps the invariant and appends the new, previously absent subscription to what the master yields while it is reachable |
| DefaultDispatchers.SubscribeTwice | src/main/java/com/mycila/event/internal/DefaultDispatcher.java:74-79 | subscribing the same HARD subscriber twice with the same arguments adds two distinct subscriptions |
| DefaultDispatchers.UnsubscribeRemovesAll | src/main/java/com/mycila/event/internal/DefaultDispatcher.java:82-85 | after unsubscribe, a subscription is live exactly when it was live and belongs to another subscriber |
| DefaultDispatchers.UnsubscribeFromRemovesMatching | src/main/java/com/mycila/event/internal/DefaultDispatcher.java:88-92 | after unsubscribing for a matcher, a subscription is live exactly when it was live and does not pair that subscriber with an equal matcher |
| DefaultDispatchers.UnsubscribedNotCalled | src/main/java/com/mycila/event/internal/DefaultDispatcher.java:82-85 | an unsubscribed subscriber is not called by later publications |
| DefaultDispatchers.CollectionKeepsSound | src/main/java/com/mycila/event/Reachability.java:40-44 | the dispatcher invariant survives any garbage collection |
| DefaultDispatchers.CloseChangesNothing | src/main/java/com/mycila/event/internal/DefaultDispatcher.java:95-96 | close changes nothing: publishing afterwards behaves as before |
| DefaultDispatchers.PublishToOne | src/main/java/com/mycila/event/internal/DefaultDispatcher.java:50-71 | with a single subscription, publishing an ordinary payload calls it once exactly when its matcher accepts the topic, it is reachable and it takes the payload's class, and calls nobody otherwise |
| DefaultDispatchers.OneSubscriber | src/test/java/com/mycila/event/DefaultDispatcherTest.java:56-83 | a new dispatcher with one subscription calls it for a payload of its type on an accepted topic while it is reachable, and never for a payload of another class |
| DefaultDispatchers.StringSubscriberTest | src/test/java/com/mycila/event/DefaultDispatcherTest.java:56-83 | a `String` subscriber gets a string on an accepted topic unless its subscription is WEAK and has been collected, and never gets an Integer |
| DispatcherScenarios.PublishAllToOne | src/main/java/com/mycila/event/internal/DefaultDispatcher.java:50-71 | over any sequence of ordinary payloads, a lone subscription whose subscriber never throws gets exactly the calls it is owed, in publication order |
| DispatcherScenarios.PublishStepToOne | src/main/java/com/mycila/event/internal/DefaultDispatcher.java:50-71 | one such publication makes the owed call, lets nothing escape, and leaves a sound dispatcher with the same single subscription |
| DispatcherScenarios.TokensOfPath | src/main/java/com/mycila/event/internal/TopicsMatcher.java:154-171 | segments joined with '/' tokenize back into themselves |
| DispatcherScenarios.TestMatcherAccepts | src/test/java/com/mycila/event/DefaultDispatcherTest.java:58 | the test's matcher, `only` of prog/events/a or `match` of the pattern prog/events/b/** (segments as parameters), accepts prog/events/a and prog/events/b/b1 and rejects prog/events/a/a1 |
| DispatcherScenarios.ThirdDirDiffers | src/main/java/com/mycila/event/internal/TopicsMatcher.java:72-80 | segments that agree on two literal segments and differ on the third literal one do not match |
| DispatcherScenarios.CallsForConcat | src/main/java/com/mycila/event/internal/DefaultDispatcher.java:50-71 | what a subscription is owed by two runs of publications is what it is owed by each, in order |
| DispatcherScenarios.SubscribeScenario | src/test/java/com/mycila/event/DefaultDispatcherTest.java:56-83 | with `rethrow`, after the eight publications of the test, a strong `String` subscriber has received exactly "Hello for a", "hello for b1" and "hello for b2", in that order, on their topics; a subscriber whose WEAK subscription has been collected has received nothing |

## Left out

- Executors and threads: the model runs every executor immediately and
  models no concurrency. The asynchronous and "safe" dispatchers of
  `Dispatchers`, and the race that `putIfAbsent` resolves in
  `getSubscriptions`, are not modelled.
- The garbage collector is the parameter `alive`. The model does not
  schedule collections during a publication. Any WEAK subscription may be
  missing from `alive`, whatever the reachability of its subscriber: the
  subscription object is held only weakly, so it may go at any collection.
- The subscriber's behaviour during a call is a fixed function of subscriber
  and event. A subscriber that subscribes or unsubscribes while it is being
  called is not modelled.
- Reflection-based wiring is not modelled: annotation processing, proxies,
  `Subscribers`, `PublisherInterceptor`, `EventQueue`, `MycilaEvent`, the
  `Dispatchers` factories and the Guice integration.
- The constructor's null checks of the handler and executors: the error
  handler is a datatype value, and the executors are not modelled.
- `event()`'s own null checks (DefaultDispatcher.java:98-100) cannot fail
  after `publish` has checked the same values, so they are not modelled.
  Neither are the event's timestamp and `toString`.
- `Topic.random` takes the UUID as a parameter, because randomness is
  outside the model.
- Topics.Hash: `String.hashCode` is computed over the characters with 32-bit
  wrap-around (`bv32`). A Dafny char is a Unicode scalar value, never a lone
  surrogate, so the hash agrees with Java's only for names and patterns made of
  Basic Multilingual Plane characters, where each char is one UTF-16 code unit.
  A character outside that plane is two units in Java and one char here.
- TopicsMatcher.MatchStrings: compares Dafny chars where Java compares the UTF-16
  units of `toCharArray()` (TopicsMatcher.java:174-175). The two agree only for
  segments made of Basic Multilingual Plane characters. For pattern `?` and the
  name U+1F600 (an emoji) Java sees two units and answers false; the model sees one char
  and answers true.
- TopicsMatcher.MatchLiteral: the length comparison (TopicsMatcher.java:189)
  counts Dafny chars, not UTF-16 units, so it agrees with Java only for Basic
  Multilingual Plane text, as for MatchStrings.
- TopicsMatcher.DoMatch: inherits the same restriction through its segment
  comparisons: topic names and patterns are taken to hold only Basic
  Multilingual Plane characters, so that each Dafny char is one UTF-16 unit.
- Null checks outside `DefaultDispatcher` are excluded by the types, so they
  are not modelled. These are:
  - `Topics.or` and `Topics.and` (Topics.java:42-48);
  - `only(Topic)` (Topics.java:72-74);
  - `anyOf(String...)` (Topics.java:76-82) and null elements inside the
    arrays given to `anyOf`;
  - `Subscription.create` (Subscription.java:59-64);
  - `Reachability.wrap` and `Reachability.of` (Reachability.java:31, 43, 49,
    56).
- SubscriptionManagers.RemoveSubscriber: subscribers are compared by
  identity. The code calls the subscriber's own `equals`
  (SubscriptionManager.java:48, 58), which a subscriber class may override;
  `EventQueue` does. The model takes every subscriber's `equals` to be
  identity.
- SubscriptionManagers.RemoveDropsExactlyHits: "the subscriber's
  subscriptions" means those whose subscriber is identical to the given one,
  for the same reason.
- `SubscriptionList.remove` is modelled as deleting every reference that
  answers the subscription. The copy-on-write list's removal by reference
  equality is not modelled separately, because references are values here.
- TopicsMatcher.DoMatch: `doMatch` is always called with `fullMatch` set to
  true. Its branches for `fullMatch` false (TopicsMatcher.java:84-85 and
  94-95) are dead and are not modelled.
- ErrorHandlers.Handle: the handlers ignore the subscription argument, so it
  is not a parameter. Under `rethrow`, a request's listeners are assumed not
  to throw (see Messages.Reply).
- Messages.Reply: listeners are assumed not to throw. In the code, `reply`
  sets the state and then calls the listeners in a loop
  (Message.java:99-103). A listener that throws would end the loop early,
  so later listeners would not be told, and its exception would leave
  `reply`. The model always tells every listener and returns normally.
- Messages.ReplyError: listeners are assumed not to throw, as for `reply`
  (Message.java:110-114). A throwing `onError` would end the loop early and
  leave `replyError` with its exception.
- DefaultDispatchers.Deliver: each subscriber call does exactly one thing:
  it returns, throws, or settles the request once. A Java subscriber can
  reply and then throw, or reply twice, in which case the second reply's
  IllegalStateException goes to the error handler. Such calls are not
  modelled. Listener exceptions are not modelled either (see Messages.Reply).
- DefaultDispatchers.WalkRequest: the full listener trace it promises relies
  on listeners that do not throw (see Messages.Reply).
- DefaultDispatchers.PublishRequest: the listener calls it promises, each
  listener told once and in order, rely on listeners that do not throw (see
  Messages.Reply).
- A subscriber that answers an ordinary (non-request) payload simply
  returns, because there is no request to settle.
- DefaultDispatchers.CloseChangesNothing: `close` has an empty body, so the
  lemma is only the observation that nothing changes.
- DefaultDispatchers.SubscribeTwice is stated for HARD subscribers only. For
  WEAK ones, `DefaultDispatchers.SubscribeAddsOne` applies to each call
  separately.
- DispatcherScenarios.SubscribeScenario: the literal names and payload
  strings of the test are replaced by arbitrary wildcard-free segments and
  arbitrary texts. The numbers are payloads of class `Integer`, each standing
  for its text.
