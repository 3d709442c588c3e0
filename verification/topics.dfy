/**
 * Topics and the algebra of topic matchers (the abstract class `Topics` and its
 * private subclasses, plus `Topic`, which is itself a matcher).
 *
 * Java's `equals` on matchers is structural, so the datatype's own equality is the
 * model of it; `JEquals` spells out the Java methods (operands compared in the
 * order the source compares them) and `JEqualsIsEquality` shows the two agree.
 * Hash codes are 32-bit two's complement values, so they are `bv32` here and every
 * multiplication wraps around as Java's `int` arithmetic does.
 */
module Topics {
  import opened Tokenizer
  import opened TopicsMatcher

  /** A topic: a name, equal to another topic exactly when the names are equal. */
  datatype Topic = Topic(name: string)

  /** A topic matcher; one constructor per concrete subclass of `Topics`. */
  datatype Matcher =
    | TopicName(topic: Topic)             // a `Topic` used as a matcher
    | Pattern(pattern: string)            // `TopicsMatcher`
    | AndMatcher(a: Matcher, b: Matcher)
    | OrMatcher(a: Matcher, b: Matcher)
    | Delegate(matcher: Matcher)
    | Not(matcher: Matcher)
    | Only(topic: Topic)
    | AnyOf(matchers: seq<Matcher>)

  // ---------------------------------------------------------------------------
  // Semantics.

  /** Which topics a matcher accepts. */
  predicate Matches(m: Matcher, t: Topic)
    decreases m
  {
    match m
    case TopicName(topic) => topic == t
    case Pattern(pattern) => TopicMatch(pattern, t.name)
    case AndMatcher(a, b) => Matches(a, t) && Matches(b, t)
    case OrMatcher(a, b) => Matches(a, t) || Matches(b, t)
    case Delegate(matcher) => Matches(matcher, t)
    case Not(matcher) => !Matches(matcher, t)
    case Only(topic) => topic == t
    case AnyOf(matchers) => exists i :: 0 <= i < |matchers| && Matches(matchers[i], t)
  }

  /** `matches` as the subclasses compute it: patterns through the matcher's index
      loops, `and`/`or` short-circuiting, `anyOf` stopping at the first member that
      accepts. */
  method Evaluate(m: Matcher, t: Topic) returns (b: bool)
    ensures b == Matches(m, t)
    decreases m
  {
    match m
    case TopicName(topic) =>
      b := topic.name == t.name;
    case Pattern(pattern) =>
      b := DoMatch(pattern, t.name);
    case AndMatcher(x, y) =>
      b := Evaluate(x, t);
      if b {
        b := Evaluate(y, t);
      }
    case OrMatcher(x, y) =>
      b := Evaluate(x, t);
      if !b {
        b := Evaluate(y, t);
      }
    case Delegate(matcher) =>
      b := Evaluate(matcher, t);
    case Not(matcher) =>
      b := Evaluate(matcher, t);
      b := !b;
    case Only(topic) =>
      b := topic.name == t.name;
    case AnyOf(matchers) =>
      var i := 0;
      while i < |matchers|
        invariant 0 <= i <= |matchers|
        invariant forall j :: 0 <= j < i ==> !Matches(matchers[j], t)
      {
        var r := Evaluate(matchers[i], t);
        if r {
          return true;
        }
        i := i + 1;
      }
      b := false;
  }

  // ---------------------------------------------------------------------------
  // Factories.

  /** `Topics.match(Topics)`. */
  function MatchMatcher(matcher: Matcher): Matcher {
    Delegate(matcher)
  }

  /** `Topics.match(String)`. */
  function MatchPattern(pattern: string): Matcher {
    Delegate(Pattern(pattern))
  }

  /** `Topics.any()`: the shared `match("**")`. */
  function Any(): Matcher {
    MatchPattern("**")
  }

  /** `Topics.only(String)`. */
  function OnlyName(exactTopicName: string): Matcher {
    Only(Topic(exactTopicName))
  }

  /** `Topics.anyOf(String...)`. */
  method AnyOfPatterns(patterns: seq<string>) returns (m: Matcher)
    ensures m.AnyOf? && |m.matchers| == |patterns|
    ensures forall i :: 0 <= i < |patterns| ==> m.matchers[i] == MatchPattern(patterns[i])
  {
    var matchers: seq<Matcher> := [];
    var i := 0;
    while i < |patterns|
      invariant 0 <= i <= |patterns| && |matchers| == i
      invariant forall j :: 0 <= j < i ==> matchers[j] == MatchPattern(patterns[j])
    {
      matchers := matchers + [MatchPattern(patterns[i])];
      i := i + 1;
    }
    m := AnyOf(matchers);
  }

  /** `Topic.topics(String...)`. */
  method TopicsOf(names: seq<string>) returns (topics: seq<Topic>)
    ensures |topics| == |names|
    ensures forall i :: 0 <= i < |names| ==> topics[i].name == names[i]
  {
    topics := [];
    var i := 0;
    while i < |names|
      invariant 0 <= i <= |names| && |topics| == i
      invariant forall j :: 0 <= j < i ==> topics[j].name == names[j]
    {
      topics := topics + [Topic(names[i])];
      i := i + 1;
    }
  }

  /** `Topic.random()`, with the random UUID text supplied by the caller. */
  function Random(uuid: string): (t: Topic)
    ensures |t.name| >= 5 && t.name[..5] == "temp/"
    ensures t.name[5..] == uuid
  {
    Topic("temp/" + uuid)
  }

  // ---------------------------------------------------------------------------
  // Java equality.

  /** Number of matcher nodes; the measure for the mutually recursive equality. */
  function Size(m: Matcher): (n: nat)
    ensures n >= 1
    decreases m, 1
  {
    match m
    case AndMatcher(a, b) => 1 + Size(a) + Size(b)
    case OrMatcher(a, b) => 1 + Size(a) + Size(b)
    case Delegate(matcher) => 1 + Size(matcher)
    case Not(matcher) => 1 + Size(matcher)
    case AnyOf(matchers) => 1 + SizeAll(matchers)
    case _ => 1
  }

  function SizeAll(ms: seq<Matcher>): nat
    decreases ms, 0
  {
    if |ms| == 0 then 0 else Size(ms[0]) + SizeAll(ms[1..])
  }

  /** `a.equals(b)` as the subclasses define it: the same subclass, and each operand
      of `b` equal to the corresponding operand of `a`. */
  predicate JEquals(a: Matcher, b: Matcher)
    decreases Size(a) + Size(b), 1
  {
    match a
    case TopicName(topic) => b.TopicName? && b.topic.name == topic.name
    case Pattern(pattern) => b.Pattern? && b.pattern == pattern
    case AndMatcher(x, y) => b.AndMatcher? && JEquals(b.a, x) && JEquals(b.b, y)
    case OrMatcher(x, y) => b.OrMatcher? && JEquals(b.a, x) && JEquals(b.b, y)
    case Delegate(matcher) => b.Delegate? && JEquals(b.matcher, matcher)
    case Not(matcher) => b.Not? && JEquals(b.matcher, matcher)
    case Only(topic) => b.Only? && b.topic.name == topic.name
    case AnyOf(matchers) => b.AnyOf? && ArraysEquals(b.matchers, matchers)
  }

  /** `Arrays.equals` on two matcher arrays. */
  predicate ArraysEquals(xs: seq<Matcher>, ys: seq<Matcher>)
    decreases SizeAll(xs) + SizeAll(ys), 2
  {
    if |xs| == 0 then |ys| == 0
    else |ys| > 0 && JEquals(xs[0], ys[0]) && ArraysEquals(xs[1..], ys[1..])
  }

  /** Java equality of matchers is structural equality, in both directions. */
  lemma {:induction false} JEqualsIsEquality(a: Matcher, b: Matcher)
    ensures JEquals(a, b) <==> a == b
    decreases Size(a) + Size(b), 1
  {
    match a
    case AndMatcher(x, y) =>
      if b.AndMatcher? {
        JEqualsIsEquality(b.a, x);
        JEqualsIsEquality(b.b, y);
      }
    case OrMatcher(x, y) =>
      if b.OrMatcher? {
        JEqualsIsEquality(b.a, x);
        JEqualsIsEquality(b.b, y);
      }
    case Delegate(matcher) =>
      if b.Delegate? {
        JEqualsIsEquality(b.matcher, matcher);
      }
    case Not(matcher) =>
      if b.Not? {
        JEqualsIsEquality(b.matcher, matcher);
      }
    case AnyOf(matchers) =>
      if b.AnyOf? {
        ArraysEqualsIsEquality(b.matchers, matchers);
      }
    case _ =>
  }

  lemma {:induction false} ArraysEqualsIsEquality(xs: seq<Matcher>, ys: seq<Matcher>)
    ensures ArraysEquals(xs, ys) <==> xs == ys
    decreases SizeAll(xs) + SizeAll(ys), 2
  {
    if |xs| > 0 && |ys| > 0 {
      JEqualsIsEquality(xs[0], ys[0]);
      ArraysEqualsIsEquality(xs[1..], ys[1..]);
      if xs[0] == ys[0] && xs[1..] == ys[1..] {
        assert xs == [xs[0]] + xs[1..];
        assert ys == [ys[0]] + ys[1..];
      }
    }
  }

  // ---------------------------------------------------------------------------
  // Java hash codes.

  /** `String.hashCode`: h := 31 * h + c over the characters, from h = 0. */
  function StringHash(s: string): bv32 {
    StringHashFrom(s, 0)
  }

  function StringHashFrom(s: string, h: bv32): bv32
    decreases |s|
  {
    if |s| == 0 then h else StringHashFrom(s[1..], HashStep(h, s[0]))
  }

  /** One step of `String.hashCode`, with 32-bit wrap-around. */
  function HashStep(h: bv32, c: char): bv32 {
    31 * h + (c as int) as bv32
  }

  /** Appending a character multiplies the hash so far by 31 and adds the character,
      as `String.hashCode` is documented: s[0]*31^(n-1) + ... + s[n-1]. */
  lemma StringHashSnoc(s: string, c: char)
    ensures StringHash([]) == 0
    ensures StringHash(s + [c]) == HashStep(StringHash(s), c)
  {
    StringHashFromSnoc(s, c, 0);
  }

  lemma {:induction false} StringHashFromSnoc(s: string, c: char, h: bv32)
    ensures StringHashFrom(s + [c], h) == HashStep(StringHashFrom(s, h), c)
    decreases |s|
  {
    if |s| == 0 {
      assert (s + [c])[1..] == [];
      assert (s + [c])[0] == c;
    } else {
      assert (s + [c])[0] == s[0];
      assert (s + [c])[1..] == s[1..] + [c];
      StringHashFromSnoc(s[1..], c, HashStep(h, s[0]));
    }
  }

  /** `Topic.hashCode`. */
  function TopicHash(t: Topic): bv32 {
    31 * StringHash(t.name)
  }

  /** `hashCode` of every matcher subclass. */
  function Hash(m: Matcher): bv32
    decreases Size(m), 1
  {
    match m
    case TopicName(topic) => TopicHash(topic)
    case Pattern(pattern) => 31 * StringHash(pattern)
    case AndMatcher(a, b) => 41 * (Hash(a) ^ Hash(b))
    case OrMatcher(a, b) => 37 * (Hash(a) ^ Hash(b))
    case Delegate(matcher) => Hash(matcher)
    case Not(matcher) => 0 - Hash(matcher)
    case Only(topic) => 37 * TopicHash(topic)
    case AnyOf(matchers) => ArraysHashFrom(matchers, 1)
  }

  /** `Arrays.hashCode`: r := 31 * r + hash(e) over the elements, from r = 1. */
  function ArraysHashFrom(ms: seq<Matcher>, r: bv32): bv32
    decreases SizeAll(ms), 2
  {
    if |ms| == 0 then r else ArraysHashFrom(ms[1..], 31 * r + Hash(ms[0]))
  }

  /** Java's contract between `equals` and `hashCode`. */
  lemma HashRespectsEquals(a: Matcher, b: Matcher)
    requires JEquals(a, b)
    ensures Hash(a) == Hash(b)
  {
    JEqualsIsEquality(a, b);
  }

  // ---------------------------------------------------------------------------
  // What the factories build.

  /** `any()` accepts every topic whose name does not start with '/', the empty name
      included. */
  lemma AnyMatches(t: Topic)
    ensures Matches(Any(), t) <==> !StartsWithSep(t.name)
  {
    assert Matches(Any(), t) <==> TopicMatch("**", t.name) by {
      PatternMatches("**", t);
    }
    assert TopicMatch("**", t.name) <==> !StartsWithSep(t.name) by {
      DoubleStarPattern(t.name);
    }
  }

  /** `only(name)` and a topic used as a matcher accept exactly the topic of that name. */
  lemma OnlyMatches(name: string, t: Topic)
    ensures Matches(OnlyName(name), t) <==> t.name == name
    ensures Matches(TopicName(Topic(name)), t) <==> t.name == name
  {
  }

  /** `not` is an involution on what is matched, and `match(m)` matches what `m` does. */
  lemma NotNot(m: Matcher, t: Topic)
    ensures Matches(Not(Not(m)), t) <==> Matches(m, t)
    ensures Matches(MatchMatcher(m), t) <==> Matches(m, t)
  {
  }

  /** An empty `anyOf` matches nothing. */
  lemma EmptyAnyOf(t: Topic)
    ensures !Matches(AnyOf([]), t)
  {
  }

  /** `anyOf(patterns...)` accepts a topic exactly when one of the patterns does. */
  lemma AnyOfPatternsMatches(m: Matcher, patterns: seq<string>, t: Topic)
    requires m.AnyOf? && |m.matchers| == |patterns|
    requires forall i :: 0 <= i < |patterns| ==> m.matchers[i] == MatchPattern(patterns[i])
    ensures Matches(m, t) <==> exists i :: 0 <= i < |patterns| && TopicMatch(patterns[i], t.name)
  {
    forall i | 0 <= i < |patterns|
      ensures Matches(m.matchers[i], t) <==> TopicMatch(patterns[i], t.name)
    {
      PatternMatches(patterns[i], t);
    }
  }

  /** `match(pattern)` accepts what the pattern matcher accepts. */
  lemma PatternMatches(pattern: string, t: Topic)
    ensures Matches(MatchPattern(pattern), t) <==> TopicMatch(pattern, t.name)
  {
  }

  /** A pattern free of '*' and '?' matches exactly the topics with its segments and
      its leading and trailing separators. */
  lemma LiteralPatternMatches(pattern: string, t: Topic)
    requires '*' !in pattern && '?' !in pattern
    ensures Matches(MatchPattern(pattern), t) <==>
      && (StartsWithSep(pattern) <==> StartsWithSep(t.name))
      && Tokens(pattern) == Tokens(t.name)
      && (EndsWithSep(pattern) <==> EndsWithSep(t.name))
  {
    LiteralPattern(pattern, t.name);
  }

  /** The matcher unit tests, for any wildcard-free segments in place of the test's
      "prog", "events", "a" and "b" (`only` and `or` hold by definition).
      The pattern of segments "prog", "events", "**" accepts the name "prog/events/a". */
  lemma SubtreeTestCase(prog: string, events: string, a: string)
    requires IsSegment(prog) && IsSegment(events) && IsSegment(a)
    requires '*' !in prog && '?' !in prog && '*' !in events && '?' !in events
    ensures Matches(MatchPattern(prog + "/" + events + "/**"), Topic(prog + "/" + events + "/" + a))
  {
    var dir := prog + "/" + events;
    assert Segments(Tokens(dir), Tokens(dir)) by {
      var dirs := [prog, events];
      assert Tokens(dir) == dirs by {
        TokensJoin(prog, events);
        SingleSegment(prog);
        SingleSegment(events);
      }
      assert dirs[0] == prog && dirs[1] == events;
      SegmentsLiteral(dirs, dirs);
    }
    SubtreePattern(dir, dir, a);
    assert prog + "/" + events + "/**" == dir + "/**";
    assert prog + "/" + events + "/" + a == dir + "/" + a;
    PatternMatches(dir + "/**", Topic(dir + "/" + a));
  }

  /** The same pattern rejects a one-segment name other than "prog"; its negation
      accepts it. */
  lemma OutsideTestCase(prog: string, events: string, a: string)
    requires IsSegment(prog) && IsSegment(events) && IsSegment(a)
    requires '*' !in prog && '?' !in prog
    requires a != prog
    ensures !Matches(MatchPattern(prog + "/" + events + "/**"), Topic(a))
    ensures Matches(Not(MatchPattern(prog + "/" + events + "/**")), Topic(a))
  {
    var dir := prog + "/" + events;
    assert prog + "/" + events + "/**" == dir + "/**";
    SingleSegment(prog);
    SingleSegment(events);
    SingleSegment(a);
    TokensJoin(prog, events);
    TokensOfSubtree(dir);
    FirstSegmentDiffers(dir + "/**", a);
    PatternMatches(dir + "/**", Topic(a));
  }

  /** `any()` accepts every single-segment name and the empty name. */
  lemma AnyTestCase(b: string)
    requires IsSegment(b)
    ensures Matches(Any(), Topic(b)) && Matches(Any(), Topic(""))
  {
    assert !StartsWithSep(b) by {
      assert b[0] in b;
    }
    AnyMatches(Topic(b));
    AnyMatches(Topic(""));
  }
}
