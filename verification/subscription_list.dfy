/**
 * `SubscriptionList`: an ordered list of references to subscriptions.
 *
 * Each subscription is wrapped in a reference of its own reachability.  Iteration
 * yields the subscriptions whose references still answer, in insertion order, and it
 * deletes from the list every reference it finds dead.  References are values here:
 * two references are interchangeable exactly when they have the same kind and the
 * same subscription.
 */
module SubscriptionLists {
  import opened Common
  import opened Refs
  import opened Subscriptions

  type SubscriptionList = seq<Ref<Subscription>>

  /** The subscriptions the garbage collector has not reclaimed. */
  type Alive = set<Subscription>

  /** The reference `add` stores: the subscription wrapped with its own reachability. */
  function RefOf(s: Subscription): Ref<Subscription> {
    Ref(GetReachability(s), s)
  }

  /** `add`: appends the subscription's reference at the end and reports success. */
  function Add(l: SubscriptionList, s: Subscription): (r: (bool, SubscriptionList))
    ensures r.0
    ensures |r.1| == |l| + 1 && r.1[..|l|] == l
    ensures r.1[|l|].referent == s && r.1[|l|].kind == GetReachability(s)
  {
    (true, l + [RefOf(s)])
  }

  /** `size`: the stored references, dead ones included. */
  function Size(l: SubscriptionList): (n: nat)
    ensures n == |l|
    ensures forall alive: Alive :: |Live(l, alive)| <= n
  {
    |l|
  }

  /** `isEmpty`: no reference stored, dead or alive. */
  predicate IsEmpty(l: SubscriptionList): (empty: bool)
    ensures empty <==> Size(l) == 0
    ensures empty ==> forall alive: Alive :: Live(l, alive) == []
  {
    |l| == 0
  }

  /** What a complete iteration yields: the targets of the references that still
      answer, in list order. */
  function Live(l: SubscriptionList, alive: Alive): (subs: seq<Subscription>)
    ensures |subs| <= |l|
    decreases |l|
  {
    if |l| == 0 then []
    else
      match Get(l[0], alive)
      case Some(s) => [s] + Live(l[1..], alive)
      case None => Live(l[1..], alive)
  }

  /** The list after a complete iteration: exactly the references that still answer. */
  function Prune(l: SubscriptionList, alive: Alive): (r: SubscriptionList)
    ensures forall x :: x in r <==> x in l && Get(x, alive).Some?
    decreases |l|
  {
    if |l| == 0 then []
    else if Get(l[0], alive).Some? then [l[0]] + Prune(l[1..], alive)
    else Prune(l[1..], alive)
  }

  /** `remove(s)`: drops every reference whose current target is s and keeps all
      others.  A dead reference answers nothing, so it is never s's. */
  function Remove(l: SubscriptionList, s: Subscription, alive: Alive): (r: SubscriptionList)
    ensures forall x :: x in r <==> x in l && Get(x, alive) != Some(s)
    decreases |l|
  {
    if |l| == 0 then []
    else if Get(l[0], alive) == Some(s) then Remove(l[1..], s, alive)
    else [l[0]] + Remove(l[1..], s, alive)
  }

  /** The subscriptions of xs other than x, in order. */
  function Without(xs: seq<Subscription>, x: Subscription): (r: seq<Subscription>)
    ensures forall y :: y in r <==> y in xs && y != x
    decreases |xs|
  {
    if |xs| == 0 then []
    else if xs[0] == x then Without(xs[1..], x)
    else [xs[0]] + Without(xs[1..], x)
  }

  /** The iterator of the list, run to the end: the transforming step reads every
      reference and deletes the dead ones from the list, the filtering step drops
      the empty answers. */
  method Iterate(l: SubscriptionList, alive: Alive) returns (yielded: seq<Subscription>, remaining: SubscriptionList)
    ensures yielded == Live(l, alive)
    ensures remaining == Prune(l, alive)
    ensures forall s :: s in yielded <==> exists r :: r in l && Get(r, alive) == Some(s)
  {
    // The list during the scan is `kept + l[i..]`: the visited references that
    // survived, then the ones not yet visited.
    yielded := [];
    var kept: SubscriptionList := [];
    var i := 0;
    while i < |l|
      invariant 0 <= i <= |l|
      invariant yielded == Live(l[..i], alive)
      invariant kept == Prune(l[..i], alive)
    {
      ScanStep(l, i, alive);
      var next := Get(l[i], alive);
      if next.Some? {
        yielded := yielded + [next.value];
        kept := kept + [l[i]];
      }
      i := i + 1;
    }
    assert l[..i] == l;
    remaining := kept + l[i..];
    assert remaining == kept;
    LiveMembers(l, alive);
  }

  /** One more reference read by the iterator. */
  lemma ScanStep(l: SubscriptionList, i: nat, alive: Alive)
    requires i < |l|
    ensures Get(l[i], alive).Some? ==> Live(l[..i + 1], alive) == Live(l[..i], alive) + [l[i].referent]
    ensures Get(l[i], alive).Some? ==> Prune(l[..i + 1], alive) == Prune(l[..i], alive) + [l[i]]
    ensures Get(l[i], alive).None? ==> Live(l[..i + 1], alive) == Live(l[..i], alive)
    ensures Get(l[i], alive).None? ==> Prune(l[..i + 1], alive) == Prune(l[..i], alive)
  {
    assert l[..i + 1] == l[..i] + [l[i]];
    LiveConcat(l[..i], [l[i]], alive);
    PruneConcat(l[..i], [l[i]], alive);
    assert [l[i]][1..] == [];
  }

  lemma {:induction false} LiveConcat(a: SubscriptionList, b: SubscriptionList, alive: Alive)
    ensures Live(a + b, alive) == Live(a, alive) + Live(b, alive)
    decreases |a|
  {
    if |a| == 0 {
      assert a + b == b;
    } else {
      assert (a + b)[0] == a[0];
      assert (a + b)[1..] == a[1..] + b;
      LiveConcat(a[1..], b, alive);
    }
  }

  lemma {:induction false} PruneConcat(a: SubscriptionList, b: SubscriptionList, alive: Alive)
    ensures Prune(a + b, alive) == Prune(a, alive) + Prune(b, alive)
    decreases |a|
  {
    if |a| == 0 {
      assert a + b == b;
    } else {
      assert (a + b)[0] == a[0];
      assert (a + b)[1..] == a[1..] + b;
      PruneConcat(a[1..], b, alive);
    }
  }

  /** Iteration yields s exactly when some reference of the list answers s. */
  lemma {:induction false} LiveMembers(l: SubscriptionList, alive: Alive)
    ensures forall s :: s in Live(l, alive) <==> exists r :: r in l && Get(r, alive) == Some(s)
    decreases |l|
  {
    if |l| > 0 {
      LiveMembers(l[1..], alive);
      assert forall r :: r in l <==> r == l[0] || r in l[1..];
    }
  }

  /** Pruning loses nothing that iteration would yield. */
  lemma {:induction false} LivePrune(l: SubscriptionList, alive: Alive)
    ensures Live(Prune(l, alive), alive) == Live(l, alive)
    decreases |l|
  {
    if |l| > 0 {
      LivePrune(l[1..], alive);
      if Get(l[0], alive).Some? {
        var p := [l[0]] + Prune(l[1..], alive);
        assert p[0] == l[0] && p[1..] == Prune(l[1..], alive);
      }
    }
  }

  /** Removing s removes it, and only it, from what iteration yields. */
  lemma {:induction false} LiveRemove(l: SubscriptionList, s: Subscription, alive: Alive)
    ensures Live(Remove(l, s, alive), alive) == Without(Live(l, alive), s)
    decreases |l|
  {
    if |l| > 0 {
      LiveRemove(l[1..], s, alive);
      if Get(l[0], alive) != Some(s) {
        var p := [l[0]] + Remove(l[1..], s, alive);
        assert p[0] == l[0] && p[1..] == Remove(l[1..], s, alive);
        if Get(l[0], alive).Some? {
          var q := [Get(l[0], alive).value] + Live(l[1..], alive);
          assert q[0] == Get(l[0], alive).value && q[1..] == Live(l[1..], alive);
        }
      } else {
        var q := [s] + Live(l[1..], alive);
        assert q[0] == s && q[1..] == Live(l[1..], alive);
      }
    }
  }

  /** An added subscription is yielded last, after everything yielded before, as long as
      it is reachable. */
  lemma LiveAdd(l: SubscriptionList, s: Subscription, alive: Alive)
    ensures GetReachability(s) == Hard || s in alive ==> Live(Add(l, s).1, alive) == Live(l, alive) + [s]
    ensures GetReachability(s) == Weak && s !in alive ==> Live(Add(l, s).1, alive) == Live(l, alive)
  {
    LiveConcat(l, [RefOf(s)], alive);
    assert [RefOf(s)][1..] == [];
  }

  /** A reclaimed WEAK subscription still counts in the size until an iteration prunes
      it. */
  lemma DeadRefsCounted(l: SubscriptionList, s: Subscription, alive: Alive)
    requires GetReachability(s) == Weak && s !in alive
    ensures Size(Add(l, s).1) == Size(l) + 1
    ensures Live(Add(l, s).1, alive) == Live(l, alive)
    ensures Size(Prune(Add(l, s).1, alive)) == Size(Prune(l, alive))
  {
    LiveAdd(l, s, alive);
    PruneConcat(l, [RefOf(s)], alive);
    assert [RefOf(s)][1..] == [];
  }

  /** HARD references survive any iteration. */
  lemma HardSurvivesPruning(l: SubscriptionList, r: Ref<Subscription>, alive: Alive)
    requires r in l && r.kind == Hard
    ensures r in Prune(l, alive)
  {
  }
}
