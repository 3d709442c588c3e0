/**
 * `SubscriptionManager`: the master list of all subscriptions, plus a per-topic
 * cache that is built lazily the first time a topic is resolved.
 *
 * The invariant `Valid` says two things:
 *  - every cached list yields exactly the master's live subscriptions whose matcher
 *    matches the cached topic, in master order;
 *  - every reference has its subscription's own reachability.
 * The lemmas show that `Valid` is kept by add, by both removals, by resolution, and by
 * any further garbage collection.
 */
module SubscriptionManagers {
  import opened Common
  import opened Refs
  import opened Topics
  import opened Subscriptions
  import opened SubscriptionLists

  datatype Manager = Manager(master: SubscriptionList, cache: map<Topic, SubscriptionList>)

  /** A new manager: no subscription, nothing cached. */
  function Empty(): Manager {
    Manager([], map[])
  }

  // ---------------------------------------------------------------------------
  // Filters over sequences of subscriptions.

  /** The subscriptions whose matcher matches t, in order. */
  function Matching(xs: seq<Subscription>, t: Topic): (r: seq<Subscription>)
    ensures forall s :: s in r <==> s in xs && Matches(s.matcher, t)
    decreases |xs|
  {
    if |xs| == 0 then []
    else if Matches(xs[0].matcher, t) then [xs[0]] + Matching(xs[1..], t)
    else Matching(xs[1..], t)
  }

  /** The subscriptions whose event type accepts a payload of class c, in order. */
  function OfType(xs: seq<Subscription>, c: JClass): (r: seq<Subscription>)
    ensures forall s :: s in r <==> s in xs && IsAssignableFrom(s.eventType, c)
    decreases |xs|
  {
    if |xs| == 0 then []
    else if IsAssignableFrom(xs[0].eventType, c) then [xs[0]] + OfType(xs[1..], c)
    else OfType(xs[1..], c)
  }

  /** Whether a reference made by `add` for s still answers. */
  predicate Reachable(s: Subscription, alive: Alive) {
    GetReachability(s) == Hard || s in alive
  }

  /** The subscriptions still reachable, in order. */
  function Reachables(xs: seq<Subscription>, alive: Alive): (r: seq<Subscription>)
    ensures forall s :: s in r <==> s in xs && Reachable(s, alive)
    decreases |xs|
  {
    if |xs| == 0 then []
    else if Reachable(xs[0], alive) then [xs[0]] + Reachables(xs[1..], alive)
    else Reachables(xs[1..], alive)
  }

  /** The subscriptions of xs that are not in vs, in order. */
  function FilterOut(xs: seq<Subscription>, vs: seq<Subscription>): (r: seq<Subscription>)
    ensures forall s :: s in r <==> s in xs && s !in vs
    decreases |xs|
  {
    if |xs| == 0 then []
    else if xs[0] in vs then FilterOut(xs[1..], vs)
    else [xs[0]] + FilterOut(xs[1..], vs)
  }

  /** The references `add` makes for each subscription, in order. */
  function RefsOf(xs: seq<Subscription>): (r: SubscriptionList)
    ensures |r| == |xs|
    ensures forall i :: 0 <= i < |xs| ==> r[i] == RefOf(xs[i])
    decreases |xs|
  {
    if |xs| == 0 then [] else [RefOf(xs[0])] + RefsOf(xs[1..])
  }

  // ---------------------------------------------------------------------------
  // The invariant.

  /** Every reference carries its subscription's own reachability. */
  predicate WellKindedList(l: SubscriptionList) {
    forall r :: r in l ==> r == RefOf(r.referent)
  }

  predicate WellKinded(m: Manager) {
    && WellKindedList(m.master)
    && forall t :: t in m.cache ==> WellKindedList(m.cache[t])
  }

  /** Every cached list yields the master's live subscriptions that match its topic. */
  predicate Consistent(m: Manager, alive: Alive) {
    forall t :: t in m.cache ==> Live(m.cache[t], alive) == Matching(Live(m.master, alive), t)
  }

  predicate Valid(m: Manager, alive: Alive) {
    WellKinded(m) && Consistent(m, alive)
  }

  // ---------------------------------------------------------------------------
  // The operations.

  /** `addSubscription`: appended to the master list and to the cached list of every
      topic its matcher matches, and to nothing else. */
  function AddSubscription(m: Manager, s: Subscription): (r: Manager)
    ensures r.master == Add(m.master, s).1
    ensures r.cache.Keys == m.cache.Keys
    ensures forall t :: t in m.cache && Matches(s.matcher, t) ==> r.cache[t] == Add(m.cache[t], s).1
    ensures forall t :: t in m.cache && !Matches(s.matcher, t) ==> r.cache[t] == m.cache[t]
  {
    Manager(Add(m.master, s).1,
            map t | t in m.cache :: if Matches(s.matcher, t) then Add(m.cache[t], s).1 else m.cache[t])
  }

  /** `getSubscriptions`, up to the iterator it returns: the manager afterwards and the
      cached list of the topic.  A topic seen for the first time gets a new list of
      the matching master subscriptions; reading the master prunes its dead
      references. */
  function Resolve(m: Manager, t: Topic, alive: Alive): (r: (Manager, SubscriptionList))
    ensures t in r.0.cache && r.0.cache[t] == r.1
    ensures t in m.cache ==> r == (m, m.cache[t])
    ensures t !in m.cache ==> r.0.master == Prune(m.master, alive)
    ensures t !in m.cache ==> r.0.cache == m.cache[t := r.1]
    ensures t !in m.cache ==> r.1 == RefsOf(Matching(Live(m.master, alive), t))
  {
    if t in m.cache then (m, m.cache[t])
    else
      var list := RefsOf(Matching(Live(m.master, alive), t));
      (Manager(Prune(m.master, alive), m.cache[t := list]), list)
  }

  /** What the iterator returned by `getSubscriptions` yields when run to the end: the
      live subscriptions of the list whose event type accepts the payload's class. */
  function Deliverable(list: SubscriptionList, c: JClass, alive: Alive): (r: seq<Subscription>)
    ensures forall s :: s in r ==> IsAssignableFrom(s.eventType, c)
    ensures forall s :: s in r <==> s in Live(list, alive) && IsAssignableFrom(s.eventType, c)
  {
    OfType(Live(list, alive), c)
  }

  /** Which subscriptions a removal targets: all of a subscriber's, or only those with an
      equal matcher. */
  datatype Victim = SubscriberIs(subscriber: Subscriber) | SubscriberAndMatcher(matcher: Matcher, subscriber: Subscriber)

  /** The removal condition of the two `removeSubscriber` overloads. */
  predicate Hits(v: Victim, s: Subscription) {
    s.subscriber == v.subscriber && (v.SubscriberAndMatcher? ==> JEquals(s.matcher, v.matcher))
  }

  function Victims(xs: seq<Subscription>, v: Victim): (r: seq<Subscription>)
    ensures forall s :: s in r <==> s in xs && Hits(v, s)
    decreases |xs|
  {
    if |xs| == 0 then []
    else if Hits(v, xs[0]) then [xs[0]] + Victims(xs[1..], v)
    else Victims(xs[1..], v)
  }

  /** `remove` applied for each of vs in turn. */
  function RemoveEach(l: SubscriptionList, vs: seq<Subscription>, alive: Alive): (r: SubscriptionList)
    ensures forall x :: x in r ==> x in l
    decreases |vs|
  {
    if |vs| == 0 then l else RemoveEach(Remove(l, vs[0], alive), vs[1..], alive)
  }

  /** Both `removeSubscriber` overloads: the scan of the master list prunes its dead
      references; each live subscription hit is removed from the master list and from
      the cached list of every topic its matcher matches. */
  function RemoveSubscriber(m: Manager, v: Victim, alive: Alive): (r: Manager)
    ensures r.cache.Keys == m.cache.Keys
    ensures forall x :: x in r.master ==> x in m.master && Get(x, alive).Some?
    ensures forall t, x :: t in r.cache && x in r.cache[t] ==> x in m.cache[t]
  {
    var victims := Victims(Live(m.master, alive), v);
    Manager(RemoveEach(Prune(m.master, alive), victims, alive),
            map t | t in m.cache :: RemoveEach(m.cache[t], Matching(victims, t), alive))
  }

  // ---------------------------------------------------------------------------
  // Facts about the filters.

  lemma {:induction false} MatchingConcat(a: seq<Subscription>, b: seq<Subscription>, t: Topic)
    ensures Matching(a + b, t) == Matching(a, t) + Matching(b, t)
    decreases |a|
  {
    if |a| == 0 {
      assert a + b == b;
    } else {
      assert (a + b)[0] == a[0];
      assert (a + b)[1..] == a[1..] + b;
      MatchingConcat(a[1..], b, t);
    }
  }

  /** Removing the victims and then selecting a topic is selecting the topic and then
      removing the victims that match it. */
  lemma {:induction false} MatchingFilterOut(xs: seq<Subscription>, vs: seq<Subscription>, t: Topic)
    ensures FilterOut(Matching(xs, t), Matching(vs, t)) == Matching(FilterOut(xs, vs), t)
    decreases |xs|
  {
    if |xs| > 0 {
      MatchingFilterOut(xs[1..], vs, t);
      var x := xs[0];
      if Matches(x.matcher, t) {
        var m := [x] + Matching(xs[1..], t);
        assert m[0] == x && m[1..] == Matching(xs[1..], t);
        assert x in Matching(vs, t) <==> x in vs;
      }
      if x !in vs {
        var f := [x] + FilterOut(xs[1..], vs);
        assert f[0] == x && f[1..] == FilterOut(xs[1..], vs);
      }
    }
  }

  lemma {:induction false} FilterOutWithout(xs: seq<Subscription>, v: Subscription, vs: seq<Subscription>)
    ensures FilterOut(Without(xs, v), vs) == FilterOut(xs, [v] + vs)
    decreases |xs|
  {
    if |xs| > 0 {
      FilterOutWithout(xs[1..], v, vs);
      if xs[0] != v {
        var w := [xs[0]] + Without(xs[1..], v);
        assert w[0] == xs[0] && w[1..] == Without(xs[1..], v);
      }
    }
  }

  lemma {:induction false} FilterOutNone(xs: seq<Subscription>)
    ensures FilterOut(xs, []) == xs
    decreases |xs|
  {
    if |xs| > 0 {
      FilterOutNone(xs[1..]);
      assert [xs[0]] + xs[1..] == xs;
    }
  }

  /** Removing each of vs removes exactly vs from what iteration yields. */
  lemma {:induction false} LiveRemoveEach(l: SubscriptionList, vs: seq<Subscription>, alive: Alive)
    ensures Live(RemoveEach(l, vs, alive), alive) == FilterOut(Live(l, alive), vs)
    decreases |vs|
  {
    if |vs| == 0 {
      FilterOutNone(Live(l, alive));
    } else {
      LiveRemoveEach(Remove(l, vs[0], alive), vs[1..], alive);
      LiveRemove(l, vs[0], alive);
      FilterOutWithout(Live(l, alive), vs[0], vs[1..]);
      assert [vs[0]] + vs[1..] == vs;
    }
  }

  /** Fresh references for reachable subscriptions yield those subscriptions. */
  lemma {:induction false} LiveRefsOf(xs: seq<Subscription>, alive: Alive)
    requires forall s :: s in xs ==> Reachable(s, alive)
    ensures Live(RefsOf(xs), alive) == xs
    decreases |xs|
  {
    if |xs| > 0 {
      var r := RefsOf(xs);
      assert r[0] == RefOf(xs[0]);
      assert xs[0] in xs;
      assert r[1..] == RefsOf(xs[1..]);
      LiveRefsOf(xs[1..], alive);
      assert [xs[0]] + xs[1..] == xs;
    }
  }

  /** For well-kinded references, iteration yields exactly the reachable targets, in
      order. */
  lemma {:induction false} LiveWellKinded(l: SubscriptionList, alive: Alive)
    requires WellKindedList(l)
    ensures Live(l, alive) == Reachables(Targets(l), alive)
    decreases |l|
  {
    if |l| > 0 {
      assert l[0] in l;
      assert WellKindedList(l[1..]) by {
        forall r | r in l[1..] ensures r == RefOf(r.referent) {
          assert r in l;
        }
      }
      LiveWellKinded(l[1..], alive);
    }
  }

  /** The subscriptions referred to, dead or alive, in order. */
  function Targets(l: SubscriptionList): (r: seq<Subscription>)
    ensures |r| == |l|
    ensures forall i :: 0 <= i < |l| ==> r[i] == l[i].referent
    decreases |l|
  {
    if |l| == 0 then [] else [l[0].referent] + Targets(l[1..])
  }

  lemma {:induction false} ReachablesShrink(xs: seq<Subscription>, alive: Alive, later: Alive)
    requires later <= alive
    ensures Reachables(Reachables(xs, alive), later) == Reachables(xs, later)
    decreases |xs|
  {
    if |xs| > 0 {
      ReachablesShrink(xs[1..], alive, later);
      if Reachable(xs[0], alive) {
        var r := [xs[0]] + Reachables(xs[1..], alive);
        assert r[0] == xs[0] && r[1..] == Reachables(xs[1..], alive);
      }
    }
  }

  lemma {:induction false} MatchingReachables(xs: seq<Subscription>, t: Topic, alive: Alive)
    ensures Reachables(Matching(xs, t), alive) == Matching(Reachables(xs, alive), t)
    decreases |xs|
  {
    if |xs| > 0 {
      MatchingReachables(xs[1..], t, alive);
      var x := xs[0];
      if Matches(x.matcher, t) {
        var m := [x] + Matching(xs[1..], t);
        assert m[0] == x && m[1..] == Matching(xs[1..], t);
      }
      if Reachable(x, alive) {
        var r := [x] + Reachables(xs[1..], alive);
        assert r[0] == x && r[1..] == Reachables(xs[1..], alive);
      }
    }
  }

  /** Everything a well-kinded list yields is reachable. */
  lemma LiveIsReachable(l: SubscriptionList, alive: Alive)
    requires WellKindedList(l)
    ensures forall s :: s in Live(l, alive) ==> Reachable(s, alive)
  {
    LiveWellKinded(l, alive);
  }

  // ---------------------------------------------------------------------------
  // The operations keep the invariant.

  lemma AddKeepsWellKinded(m: Manager, s: Subscription)
    requires WellKinded(m)
    ensures WellKinded(AddSubscription(m, s))
  {
  }

  /** `addSubscription` keeps the caches consistent; the added subscription is yielded
      last by the master list as long as it is reachable. */
  lemma AddKeepsValid(m: Manager, s: Subscription, alive: Alive)
    requires Valid(m, alive)
    ensures Valid(AddSubscription(m, s), alive)
    ensures Reachable(s, alive) ==> Live(AddSubscription(m, s).master, alive) == Live(m.master, alive) + [s]
    ensures !Reachable(s, alive) ==> Live(AddSubscription(m, s).master, alive) == Live(m.master, alive)
  {
    var r := AddSubscription(m, s);
    AddKeepsWellKinded(m, s);
    LiveAdd(m.master, s, alive);
    var x := if Reachable(s, alive) then [s] else [];
    assert Live(r.master, alive) == Live(m.master, alive) + x;
    forall t | t in r.cache
      ensures Live(r.cache[t], alive) == Matching(Live(r.master, alive), t)
    {
      LiveAdd(m.cache[t], s, alive);
      MatchingConcat(Live(m.master, alive), x, t);
      if Reachable(s, alive) {
        var y := [s];
        assert y[1..] == [];
        assert Matching(x, t) == if Matches(s.matcher, t) then [s] else [];
      } else {
        assert Matching(x, t) == [];
      }
    }
  }

  /** Resolution keeps the invariant, caches the topic, and the cached list yields the
      master's live subscriptions that match the topic, whether or not it was cached
      before.  A second resolution finds the same list and changes nothing. */
  lemma ResolveKeepsValid(m: Manager, t: Topic, alive: Alive)
    requires Valid(m, alive)
    ensures var r := Resolve(m, t, alive);
      && Valid(r.0, alive)
      && Live(r.1, alive) == Matching(Live(m.master, alive), t)
      && Live(r.0.master, alive) == Live(m.master, alive)
      && Resolve(r.0, t, alive) == r
  {
    var r := Resolve(m, t, alive);
    if t !in m.cache {
      var subs := Matching(Live(m.master, alive), t);
      LiveIsReachable(m.master, alive);
      LiveRefsOf(subs, alive);
      LivePrune(m.master, alive);
      assert WellKinded(r.0) by {
        forall x | x in r.0.master ensures x == RefOf(x.referent) {
          assert x in m.master;
        }
        forall u, x | u in r.0.cache && x in r.0.cache[u] ensures x == RefOf(x.referent) {
          if u == t {
            var k :| 0 <= k < |r.1| && r.1[k] == x;
          } else {
            assert x in m.cache[u];
          }
        }
      }
    }
  }

  /** What a publication finds: the live subscriptions of the master list that match
      the topic and accept the payload's class, in master order. */
  lemma ResolveDelivers(m: Manager, t: Topic, c: JClass, alive: Alive)
    requires Valid(m, alive)
    ensures Deliverable(Resolve(m, t, alive).1, c, alive) == OfType(Matching(Live(m.master, alive), t), c)
  {
    ResolveKeepsValid(m, t, alive);
  }

  /** A removal keeps the invariant.  Afterwards the master list yields exactly the
      live subscriptions that were not hit, in order, and every cached list the ones
      of those that match its topic. */
  lemma RemoveKeepsValid(m: Manager, v: Victim, alive: Alive)
    requires Valid(m, alive)
    ensures var r := RemoveSubscriber(m, v, alive);
      && Valid(r, alive)
      && Live(r.master, alive) == FilterOut(Live(m.master, alive), Victims(Live(m.master, alive), v))
  {
    var r := RemoveSubscriber(m, v, alive);
    var live := Live(m.master, alive);
    var victims := Victims(live, v);
    LivePrune(m.master, alive);
    LiveRemoveEach(Prune(m.master, alive), victims, alive);
    forall t | t in r.cache
      ensures Live(r.cache[t], alive) == Matching(Live(r.master, alive), t)
    {
      LiveRemoveEach(m.cache[t], Matching(victims, t), alive);
      MatchingFilterOut(live, victims, t);
    }
  }

  /** A removal drops exactly the live subscriptions it hits: those of the subscriber,
      or, for the second overload, those of the subscriber with an equal matcher. */
  lemma RemoveDropsExactlyHits(m: Manager, v: Victim, alive: Alive)
    requires Valid(m, alive)
    ensures forall s ::
      (s in Live(RemoveSubscriber(m, v, alive).master, alive) <==> s in Live(m.master, alive) && !Hits(v, s))
  {
    RemoveKeepsValid(m, v, alive);
  }

  /** Removing a subscriber that has no live subscription changes nothing but the
      pruning of dead references from the master list. */
  lemma RemoveAbsentSubscriber(m: Manager, v: Victim, alive: Alive)
    requires forall s :: s in Live(m.master, alive) ==> !Hits(v, s)
    ensures RemoveSubscriber(m, v, alive) == Manager(Prune(m.master, alive), m.cache)
  {
    var victims := Victims(Live(m.master, alive), v);
    NoVictims(Live(m.master, alive), v);
    var r := RemoveSubscriber(m, v, alive);
    forall t | t in m.cache ensures r.cache[t] == m.cache[t] {
      assert Matching(victims, t) == [];
    }
  }

  lemma {:induction false} NoVictims(xs: seq<Subscription>, v: Victim)
    requires forall s :: s in xs ==> !Hits(v, s)
    ensures Victims(xs, v) == []
    decreases |xs|
  {
    if |xs| > 0 {
      assert xs[0] in xs;
      NoVictims(xs[1..], v);
    }
  }

  /** The second overload leaves the subscriber's subscriptions with another matcher in
      place. */
  lemma RemoveKeepsOtherMatchers(m: Manager, matcher: Matcher, sub: Subscriber, s: Subscription, alive: Alive)
    requires Valid(m, alive)
    requires s in Live(m.master, alive) && s.subscriber == sub && s.matcher != matcher
    ensures s in Live(RemoveSubscriber(m, SubscriberAndMatcher(matcher, sub), alive).master, alive)
  {
    RemoveDropsExactlyHits(m, SubscriberAndMatcher(matcher, sub), alive);
    JEqualsIsEquality(s.matcher, matcher);
  }

  /** Garbage collection between operations keeps the invariant. */
  lemma CollectionKeepsValid(m: Manager, alive: Alive, later: Alive)
    requires Valid(m, alive) && later <= alive
    ensures Valid(m, later)
  {
    forall t | t in m.cache
      ensures Live(m.cache[t], later) == Matching(Live(m.master, later), t)
    {
      LiveWellKinded(m.cache[t], alive);
      LiveWellKinded(m.cache[t], later);
      ReachablesShrink(Targets(m.cache[t]), alive, later);
      LiveWellKinded(m.master, alive);
      LiveWellKinded(m.master, later);
      ReachablesShrink(Targets(m.master), alive, later);
      MatchingReachables(Live(m.master, alive), t, later);
    }
  }

  /** The empty manager is valid. */
  lemma EmptyIsValid(alive: Alive)
    ensures Valid(Empty(), alive)
  {
  }
}
