/**
 * Publishing several payloads in a row, and the scenario of the dispatcher's unit
 * tests `test_subscribe_strong` and `test_subscribe_weak`: one `String` subscriber on
 * `only("prog/events/a")` or the pattern of everything below "prog/events/b", then
 * eight publications.
 * The scenario is stated for any wildcard-free segments in place of "prog",
 * "events", "a", "b", "b1" and "a1", and any texts in place of the payloads.
 */
module DispatcherScenarios {
  import opened Common
  import opened Refs
  import opened Tokenizer
  import opened Wildcard
  import opened TopicsMatcher
  import opened Topics
  import opened Subscriptions
  import opened SubscriptionLists
  import opened SubscriptionManagers
  import opened Events
  import opened ErrorHandlers
  import opened DefaultDispatchers

  /** One call of `publish(topic, source)`. */
  datatype Post = Post(topic: Topic, source: Source)

  /** The calls made by publishing the posts one after the other, starting from d.  A
      throwable that escapes a publication ends the sequence, as it ends the caller. */
  function PublishAll(d: Dispatcher, posts: seq<Post>, react: Behaviour, alive: Alive): seq<Call>
    decreases |posts|
  {
    if |posts| == 0 then []
    else
      var p := Publish(d, Some(posts[0].topic), Some(posts[0].source), react, alive).value;
      if p.escaped.Some? then p.calls
      else p.calls + PublishAll(p.dispatcher, posts[1..], react, alive)
  }

  /** What a lone subscription s is owed by the posts: one call per post whose topic its
      matcher accepts and whose payload its event type takes, while s is reachable. */
  function CallsFor(s: Subscription, posts: seq<Post>, alive: Alive): seq<Call>
    decreases |posts|
  {
    if |posts| == 0 then []
    else
      var t, src := posts[0].topic, posts[0].source;
      (if Matches(s.matcher, t) && Reachable(s, alive) && IsAssignableFrom(s.eventType, ClassOf(src))
       then [Call(s, Event(t, src))] else [])
      + CallsFor(s, posts[1..], alive)
  }

  /** A dispatcher whose only subscription is s, and whose subscriber never throws,
      makes exactly the calls s is owed, in order, for any sequence of ordinary
      payloads. */
  lemma {:induction false} PublishAllToOne(d: Dispatcher, s: Subscription, posts: seq<Post>, react: Behaviour, alive: Alive)
    requires Sound(d, alive)
    requires Live(d.manager.master, alive) == if Reachable(s, alive) then [s] else []
    requires forall i :: 0 <= i < |posts| ==> posts[i].source.Plain?
    requires forall ev :: !react(s.subscriber, ev).Throws?
    ensures PublishAll(d, posts, react, alive) == CallsFor(s, posts, alive)
    decreases |posts|
  {
    if |posts| > 0 {
      var p := Publish(d, Some(posts[0].topic), Some(posts[0].source), react, alive).value;
      PublishStepToOne(d, s, posts[0].topic, posts[0].source, react, alive);
      var rest := posts[1..];
      assert forall i :: 0 <= i < |rest| ==> rest[i] == posts[i + 1];
      PublishAllToOne(p.dispatcher, s, rest, react, alive);
    }
  }

  /** One publication of an ordinary payload to a lone subscription whose subscriber
      never throws: it makes the call s is owed, nothing escapes, and the dispatcher
      after it is sound and still has s as its only subscription. */
  lemma PublishStepToOne(d: Dispatcher, s: Subscription, t: Topic, src: Source, react: Behaviour, alive: Alive)
    requires Sound(d, alive) && src.Plain?
    requires Live(d.manager.master, alive) == if Reachable(s, alive) then [s] else []
    requires forall ev :: !react(s.subscriber, ev).Throws?
    ensures var p := Publish(d, Some(t), Some(src), react, alive).value;
      && p.calls == (if Matches(s.matcher, t) && Reachable(s, alive) && IsAssignableFrom(s.eventType, ClassOf(src))
                     then [Call(s, Event(t, src))] else [])
      && p.escaped.None?
      && Sound(p.dispatcher, alive)
      && Live(p.dispatcher.manager.master, alive) == Live(d.manager.master, alive)
  {
    PublishToOne(d, s, t, src, react, alive);
    PublishPlain(d, t, src, react, alive);
    PublishKeepsSound(d, t, src, react, alive);
  }

  // ---------------------------------------------------------------------------
  // The test scenario.

  /** Segments joined by '/': `Path([x, y, z])` is "x/y/z". */
  function Path(dirs: seq<string>): string
    requires |dirs| > 0
    decreases |dirs|
  {
    if |dirs| == 1 then dirs[0] else Path(dirs[..|dirs| - 1]) + "/" + dirs[|dirs| - 1]
  }

  /** A path of segments tokenizes back into them. */
  lemma {:induction false} TokensOfPath(dirs: seq<string>)
    requires |dirs| > 0
    requires forall i :: 0 <= i < |dirs| ==> IsSegment(dirs[i])
    ensures Tokens(Path(dirs)) == dirs
    decreases |dirs|
  {
    var last := dirs[|dirs| - 1];
    if |dirs| > 1 {
      var init := dirs[..|dirs| - 1];
      assert init + [last] == dirs;
      assert forall i :: 0 <= i < |init| ==> init[i] == dirs[i];
      TokensOfPath(init);
      TokensJoin(Path(init), last);
    }
    SingleSegment(last);
  }

  /** The subscriber's matcher: exactly "prog/events/a", or the pattern of everything
      below "prog/events/b" (that directory followed by a double star). */
  function TestMatcher(prog: string, events: string, a: string, b: string): Matcher {
    OrMatcher(OnlyName(Path([prog, events, a])), MatchPattern(Path([prog, events, b]) + "/**"))
  }

  /** A payload of class c and then one of class o, published on the same topic; the
      tests publish a string and then a number. */
  function PostPair(t: Topic, c: JClass, x: string, o: JClass, n: string): seq<Post> {
    [Post(t, Plain(c, x)), Post(t, Plain(o, n))]
  }

  /** The eight publications of the tests' `publish()`: a string and a number on
      "prog/events/a", twice a string and a number on "prog/events/b/b1", and a string
      and a number on "prog/events/a/a1". */
  function TestPosts(prog: string, events: string, a: string, b: string, b1: string, a1: string,
                     x1: string, x2: string, x3: string, x4: string,
                     n1: string, n2: string, n3: string, n4: string): seq<Post>
  {
    var pa, pb1, pa1 := Topic(Path([prog, events, a])), Topic(Path([prog, events, b, b1])), Topic(Path([prog, events, a, a1]));
    PostPair(pa, StringClass, x1, IntegerClass, n1) + PostPair(pb1, StringClass, x2, IntegerClass, n2) + PostPair(pb1, StringClass, x3, IntegerClass, n3) + PostPair(pa1, StringClass, x4, IntegerClass, n4)
  }

  /** Which of the three topics the test matcher accepts. */
  lemma TestMatcherAccepts(prog: string, events: string, a: string, b: string, b1: string, a1: string)
    requires IsSegment(prog) && IsSegment(events) && IsSegment(a) && IsSegment(b) && IsSegment(b1) && IsSegment(a1)
    requires '*' !in prog && '?' !in prog && '*' !in events && '?' !in events && '*' !in b && '?' !in b
    requires a != b
    ensures Matches(TestMatcher(prog, events, a, b), Topic(Path([prog, events, a])))
    ensures Matches(TestMatcher(prog, events, a, b), Topic(Path([prog, events, b, b1])))
    ensures !Matches(TestMatcher(prog, events, a, b), Topic(Path([prog, events, a, a1])))
  {
    var dir := Path([prog, events, b]);
    var pattern := dir + "/**";
    assert Matches(MatchPattern(pattern), Topic(Path([prog, events, b, b1]))) by {
      SubtreeMatches(prog, events, b, b1);
    }
    assert !Matches(MatchPattern(pattern), Topic(Path([prog, events, a, a1]))) by {
      OtherBranch(prog, events, a, b, a1);
    }
    assert Path([prog, events, a, a1]) != Path([prog, events, a]) by {
      assert [prog, events, a, a1][..3] == [prog, events, a];
    }
  }

  /** The pattern of everything below "prog/events/b" accepts "prog/events/b/b1". */
  lemma SubtreeMatches(prog: string, events: string, b: string, b1: string)
    requires IsSegment(prog) && IsSegment(events) && IsSegment(b) && IsSegment(b1)
    requires '*' !in prog && '?' !in prog && '*' !in events && '?' !in events && '*' !in b && '?' !in b
    ensures Matches(MatchPattern(Path([prog, events, b]) + "/**"), Topic(Path([prog, events, b, b1])))
  {
    assert [prog, events, b] + [b1] == [prog, events, b, b1];
    SubtreeOfPath([prog, events, b], b1);
  }

  /** The double-star pattern below a literal path accepts any name one segment deeper. */
  lemma SubtreeOfPath(dirs: seq<string>, last: string)
    requires |dirs| > 0
    requires forall i :: 0 <= i < |dirs| ==> IsSegment(dirs[i]) && '*' !in dirs[i] && '?' !in dirs[i]
    ensures Matches(MatchPattern(Path(dirs) + "/**"), Topic(Path(dirs + [last])))
  {
    var dir := Path(dirs);
    assert Path(dirs + [last]) == dir + "/" + last by {
      assert (dirs + [last])[..|dirs|] == dirs;
    }
    assert Segments(Tokens(dir), Tokens(dir)) by {
      TokensOfPath(dirs);
      SegmentsLiteral(dirs, dirs);
    }
    SelfSubtree(dir, last);
  }

  /** A name whose segments match themselves is the root of the subtree that its
      double-star pattern accepts. */
  lemma SelfSubtree(dir: string, rest: string)
    requires |dir| > 0 && Segments(Tokens(dir), Tokens(dir))
    ensures Matches(MatchPattern(dir + "/**"), Topic(dir + "/" + rest))
  {
    SubtreePattern(dir, dir, rest);
    PatternMatches(dir + "/**", Topic(dir + "/" + rest));
  }

  /** The pattern of everything below "prog/events/b" rejects "prog/events/a/a1": the
      third segments differ. */
  lemma OtherBranch(prog: string, events: string, a: string, b: string, a1: string)
    requires IsSegment(prog) && IsSegment(events) && IsSegment(a) && IsSegment(b) && IsSegment(a1)
    requires '*' !in prog && '?' !in prog && '*' !in events && '?' !in events && '*' !in b && '?' !in b
    requires a != b
    ensures !Matches(MatchPattern(Path([prog, events, b]) + "/**"), Topic(Path([prog, events, a, a1])))
  {
    OtherBranchOfPaths([prog, events, b], [prog, events, a, a1]);
  }

  /** The double-star pattern below a three-segment literal path rejects a name that
      shares its first two segments but not its third. */
  lemma OtherBranchOfPaths(dirs: seq<string>, Q: seq<string>)
    requires |dirs| == 3 && |Q| > 2
    requires forall i :: 0 <= i < |dirs| ==> IsSegment(dirs[i]) && '*' !in dirs[i] && '?' !in dirs[i]
    requires forall i :: 0 <= i < |Q| ==> IsSegment(Q[i])
    requires dirs[0] == Q[0] && dirs[1] == Q[1] && dirs[2] != Q[2]
    ensures !Matches(MatchPattern(Path(dirs) + "/**"), Topic(Path(Q)))
  {
    var P := dirs + ["**"];
    var pattern, name := Path(dirs) + "/**", Path(Q);
    assert Tokens(pattern) == P by {
      TokensOfPath(dirs);
      TokensOfSubtree(Path(dirs));
    }
    assert Tokens(name) == Q by {
      TokensOfPath(Q);
    }
    RejectedByTokens(pattern, name, P, Q);
  }

  /** A pattern and a name whose segments agree on two literal segments and then
      differ on a third literal one do not match. */
  lemma RejectedByTokens(pattern: string, name: string, P: seq<string>, Q: seq<string>)
    requires Tokens(pattern) == P && Tokens(name) == Q
    requires |P| > 2 && |Q| > 2 && P[0] == Q[0] && P[1] == Q[1] && P[2] != Q[2]
    requires '*' !in P[0] && '?' !in P[0] && '*' !in P[1] && '?' !in P[1] && '*' !in P[2] && '?' !in P[2]
    ensures !Matches(MatchPattern(pattern), Topic(name))
  {
    ThirdDirDiffers(P, Q, EndsWithSep(pattern), EndsWithSep(name));
    PatternMatches(pattern, Topic(name));
  }

  /** Segments that agree on two wildcard-free pattern segments and then differ on a
      third, wildcard-free in the pattern, do not match. */
  lemma ThirdDirDiffers(P: seq<string>, Q: seq<string>, pattTrailing: bool, pathTrailing: bool)
    requires |P| > 2 && |Q| > 2 && P[0] == Q[0] && P[1] == Q[1] && P[2] != Q[2]
    requires '*' !in P[0] && '?' !in P[0] && '*' !in P[1] && '?' !in P[1] && '*' !in P[2] && '?' !in P[2]
    ensures !TokensMatch(P, Q, pattTrailing, pathTrailing)
  {
    assert NoStars(P[..3], IsDoubleStar) by {
      LiteralIsNoDoubleStar(P[0]);
      LiteralIsNoDoubleStar(P[1]);
      LiteralIsNoDoubleStar(P[2]);
      assert P[..3] == [P[0], P[1], P[2]];
    }
    assert BlockAt(P[..2], Q, 0, Glob) by {
      GlobLiteral(P[0], Q[0]);
      GlobLiteral(P[1], Q[1]);
      assert P[..2] == [P[0], P[1]];
    }
    GlobLiteral(P[2], Q[2]);
    PrefixMismatch(P, Q, 2, pattTrailing, pathTrailing);
  }

  lemma LiteralIsNoDoubleStar(seg: string)
    requires '*' !in seg
    ensures !IsDoubleStar(seg)
  {
    assert "**"[0] == '*';
    assert |seg| > 0 ==> seg[0] in seg;
  }

  /** `test_subscribe_strong` and `test_subscribe_weak`: with `rethrow` as error
      policy, a `String` subscriber that never throws gets exactly the three strings
      published on "prog/events/a" and "prog/events/b/b1", in that order, and none of
      the numbers and not the string on "prog/events/a/a1"; once the garbage collector
      has reclaimed a WEAK subscriber it gets nothing. */
  lemma SubscribeScenario(prog: string, events: string, a: string, b: string, b1: string, a1: string,
                          x1: string, x2: string, x3: string, x4: string,
                          n1: string, n2: string, n3: string, n4: string,
                          subscriber: Subscriber, react: Behaviour, alive: Alive)
    requires IsSegment(prog) && IsSegment(events) && IsSegment(a) && IsSegment(b) && IsSegment(b1) && IsSegment(a1)
    requires '*' !in prog && '?' !in prog && '*' !in events && '?' !in events && '*' !in b && '?' !in b
    requires a != b
    requires forall ev :: !react(subscriber, ev).Throws?
    ensures var matcher := TestMatcher(prog, events, a, b);
      var d := Subscribe(New(Rethrow), Some(matcher), Some(StringClass), Some(subscriber)).value;
      var s := Subscriptions.Create(0, matcher, StringClass, subscriber);
      var calls := PublishAll(d, TestPosts(prog, events, a, b, b1, a1, x1, x2, x3, x4, n1, n2, n3, n4), react, alive);
      && (OfObject(subscriber) == Hard || s in alive ==>
            calls == [Call(s, Event(Topic(Path([prog, events, a])), Plain(StringClass, x1))),
                      Call(s, Event(Topic(Path([prog, events, b, b1])), Plain(StringClass, x2))),
                      Call(s, Event(Topic(Path([prog, events, b, b1])), Plain(StringClass, x3)))])
      && (OfObject(subscriber) == Weak && s !in alive ==> calls == [])
  {
    var matcher := TestMatcher(prog, events, a, b);
    var d0 := New(Rethrow);
    var d := Subscribe(d0, Some(matcher), Some(StringClass), Some(subscriber)).value;
    var s := Subscriptions.Create(0, matcher, StringClass, subscriber);
    var posts := TestPosts(prog, events, a, b, b1, a1, x1, x2, x3, x4, n1, n2, n3, n4);
    assert Sound(d, alive) && Live(d.manager.master, alive) == if Reachable(s, alive) then [s] else [] by {
      SubscribeAddsOne(d0, matcher, StringClass, subscriber, alive);
    }
    PublishAllToOne(d, s, posts, react, alive);
    TestMatcherAccepts(prog, events, a, b, b1, a1);
    StringIsNotInteger();
    TestCalls(s, alive, StringClass, IntegerClass, Topic(Path([prog, events, a])), Topic(Path([prog, events, b, b1])), Topic(Path([prog, events, a, a1])),
              x1, x2, x3, x4, n1, n2, n3, n4);
  }

  /** The calls owed to s by the eight posts, given which topics its matcher accepts
      and that it takes the first class of each pair and not the second. */
  lemma TestCalls(s: Subscription, alive: Alive, c: JClass, o: JClass, pa: Topic, pb1: Topic, pa1: Topic,
                  x1: string, x2: string, x3: string, x4: string,
                  n1: string, n2: string, n3: string, n4: string)
    requires s.eventType == c && !IsAssignableFrom(c, o)
    requires Matches(s.matcher, pa) && Matches(s.matcher, pb1) && !Matches(s.matcher, pa1)
    ensures var posts := PostPair(pa, c, x1, o, n1) + PostPair(pb1, c, x2, o, n2)
                         + PostPair(pb1, c, x3, o, n3) + PostPair(pa1, c, x4, o, n4);
      && (Reachable(s, alive) ==>
            CallsFor(s, posts, alive) == [Call(s, Event(pa, Plain(c, x1))),
                                          Call(s, Event(pb1, Plain(c, x2))),
                                          Call(s, Event(pb1, Plain(c, x3)))])
      && (!Reachable(s, alive) ==> CallsFor(s, posts, alive) == [])
  {
    var p1, p2, p3, p4 := PostPair(pa, c, x1, o, n1), PostPair(pb1, c, x2, o, n2),
                          PostPair(pb1, c, x3, o, n3), PostPair(pa1, c, x4, o, n4);
    var live := Reachable(s, alive);
    var c1 := if live then [Call(s, Event(pa, Plain(c, x1)))] else [];
    var c2 := if live then [Call(s, Event(pb1, Plain(c, x2)))] else [];
    var c3 := if live then [Call(s, Event(pb1, Plain(c, x3)))] else [];
    PairCalls(s, pa, c, x1, o, n1, alive);
    PairCalls(s, pb1, c, x2, o, n2, alive);
    PairCalls(s, pb1, c, x3, o, n3, alive);
    PairCalls(s, pa1, c, x4, o, n4, alive);
    CallsForFour(s, p1, p2, p3, p4, alive);
    assert c1 + c2 + c3 + [] == c1 + c2 + c3;
  }

  lemma CallsForFour(s: Subscription, p1: seq<Post>, p2: seq<Post>, p3: seq<Post>, p4: seq<Post>, alive: Alive)
    ensures CallsFor(s, p1 + p2 + p3 + p4, alive) ==
      CallsFor(s, p1, alive) + CallsFor(s, p2, alive) + CallsFor(s, p3, alive) + CallsFor(s, p4, alive)
  {
    CallsForConcat(s, p1, p2, alive);
    CallsForConcat(s, p1 + p2, p3, alive);
    CallsForConcat(s, p1 + p2 + p3, p4, alive);
  }

  /** What a subscription taking class c and not class o is owed by a pair of posts. */
  lemma PairCalls(s: Subscription, t: Topic, c: JClass, x: string, o: JClass, n: string, alive: Alive)
    requires s.eventType == c && !IsAssignableFrom(c, o)
    ensures CallsFor(s, PostPair(t, c, x, o, n), alive) ==
      if Matches(s.matcher, t) && Reachable(s, alive) then [Call(s, Event(t, Plain(c, x)))] else []
  {
    var posts := PostPair(t, c, x, o, n);
    assert posts[0..] == posts && posts[2..] == [];
    CallsFrom(s, posts, 0, alive);
    CallsFrom(s, posts, 1, alive);
  }

  /** The calls owed by two runs of posts are those owed by each, in order. */
  lemma {:induction false} CallsForConcat(s: Subscription, xs: seq<Post>, ys: seq<Post>, alive: Alive)
    ensures CallsFor(s, xs + ys, alive) == CallsFor(s, xs, alive) + CallsFor(s, ys, alive)
    decreases |xs|
  {
    if |xs| > 0 {
      assert (xs + ys)[0] == xs[0] && (xs + ys)[1..] == xs[1..] + ys;
      CallsForConcat(s, xs[1..], ys, alive);
    } else {
      assert xs + ys == ys;
    }
  }

  /** One step of `CallsFor` along the posts from index k. */
  lemma CallsFrom(s: Subscription, posts: seq<Post>, k: nat, alive: Alive)
    requires k < |posts|
    ensures CallsFor(s, posts[k..], alive) ==
      (if Matches(s.matcher, posts[k].topic) && Reachable(s, alive) && IsAssignableFrom(s.eventType, ClassOf(posts[k].source))
       then [Call(s, Event(posts[k].topic, posts[k].source))] else [])
      + CallsFor(s, posts[k + 1..], alive)
  {
    assert posts[k..][0] == posts[k] && posts[k..][1..] == posts[k + 1..];
  }
}
