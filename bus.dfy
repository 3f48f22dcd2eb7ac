/**
 * `localBus`: the registry of subscriptions, keyed by exchange and then by
 * binding, the list of wiretaps, and the three operations on them
 * (`subscribe`, `unsubscribe`, `publish`) plus `addWireTap`.
 *
 * `publish` walks the buckets of an exchange in the order of the object's
 * keys; the model leaves that order open and reports the one it took.
 */
module Bus {
  import opened Values
  import opened TopicMatch
  import opened Resolver
  import opened Subscriptions
  import opened Buckets
  import opened Dispatch

  /** The priorities of a bucket, in bucket order. */
  function Priorities(b: seq<SubscriptionDefinition>): (ps: seq<int>)
    reads b`priority
    ensures |ps| == |b|
    ensures forall i :: 0 <= i < |b| ==> ps[i] == b[i].priority
  {
    if b == [] then [] else Priorities(b[..|b| - 1]) + [b[|b| - 1].priority]
  }

  /**
   * `subscribe`'s splice on a bucket whose priorities are sorted: the new
   * member's priority lands where `InsertionIndex` puts it, and the bucket's
   * priorities stay sorted.
   */
  lemma BucketInsertKeepsSorted(b: seq<SubscriptionDefinition>, s: SubscriptionDefinition)
    requires Sorted(Priorities(b))
    ensures var k := InsertionIndex(Priorities(b), s.priority);
      && Priorities(InsertAt(b, k, s)) == InsertAt(Priorities(b), k, s.priority)
      && Sorted(Priorities(InsertAt(b, k, s)))
  {
    var ps := Priorities(b);
    var k := InsertionIndex(ps, s.priority);
    var r := InsertAt(b, k, s);
    assert forall j :: 0 <= j < |r| ==> r[j] == if j < k then b[j] else if j == k then s else b[j - 1];
    assert Priorities(r) == InsertAt(ps, k, s.priority);
    InsertKeepsSorted(ps, s.priority);
  }

  /** `unsubscribe`'s splice takes the removed member's priority out of the bucket's priorities. */
  lemma PrioritiesRemove(b: seq<SubscriptionDefinition>, s: SubscriptionDefinition)
    requires s in b
    ensures var i := IndexOf(b, s);
      Priorities(RemoveFirst(b, s)) == Priorities(b)[..i] + Priorities(b)[i + 1..]
  {
    var i := IndexOf(b, s);
    RemoveFirstAt(b, s);
    var r := RemoveFirst(b, s);
    var ps := Priorities(b);
    var qs := ps[..i] + ps[i + 1..];
    forall j | 0 <= j < |r|
      ensures Priorities(r)[j] == qs[j]
    {
      if j < i {
        assert r[j] == b[j];
      } else {
        assert r[j] == b[j + 1];
      }
    }
  }

  /** `unsubscribe`'s splice keeps a bucket's priorities sorted. */
  lemma BucketRemoveKeepsSorted(b: seq<SubscriptionDefinition>, s: SubscriptionDefinition)
    requires Sorted(Priorities(b))
    ensures Sorted(Priorities(RemoveFirst(b, s)))
  {
    if s in b {
      PrioritiesRemove(b, s);
      RemoveKeepsSorted(Priorities(b), IndexOf(b, s));
    } else {
      RemoveFirstAbsent(b, s);
    }
  }

  /** A bucket holds each instance once, each filed under its own exchange and binding. */
  ghost predicate BucketFits(b: seq<SubscriptionDefinition>, ex: string, tp: string) {
    && NoDup(b)
    && forall s :: s in b ==> s.exchange == ex && s.topic == tp
  }

  /** Every bucket of exchange `ex` is keyed by a well-formed binding and fits it. */
  ghost predicate ExchangeFits(m: map<string, seq<SubscriptionDefinition>>, ex: string) {
    forall tp :: tp in m ==> WellFormed(tp) && BucketFits(m[tp], ex, tp)
  }

  /** The registry's shape: every bucket fits the keys it is filed under. */
  ghost predicate Registry(subs: map<string, map<string, seq<SubscriptionDefinition>>>) {
    forall ex :: ex in subs ==> ExchangeFits(subs[ex], ex)
  }

  /** Replacing one bucket by another that fits the same keys keeps the registry's shape. */
  lemma ReplaceBucket(subs: map<string, map<string, seq<SubscriptionDefinition>>>,
                      ex: string, tp: string, nb: seq<SubscriptionDefinition>)
    requires Registry(subs) && ex in subs && tp in subs[ex]
    requires BucketFits(nb, ex, tp)
    ensures Registry(subs[ex := subs[ex][tp := nb]])
  {
    var subs' := subs[ex := subs[ex][tp := nb]];
    assert ExchangeFits(subs[ex], ex);
    assert ExchangeFits(subs'[ex], ex);
    forall e | e in subs' ensures ExchangeFits(subs'[e], e) {
      if e != ex {
        assert subs'[e] == subs[e];
      }
    }
  }

  lemma InsertFits(b: seq<SubscriptionDefinition>, k: nat, s: SubscriptionDefinition, ex: string, tp: string)
    requires BucketFits(b, ex, tp) && k <= |b| && s !in b && s.exchange == ex && s.topic == tp
    ensures BucketFits(InsertAt(b, k, s), ex, tp)
  {
    InsertNoDup(b, k, s);
  }

  /** A subscription that the walk has not reached: its fields are still its view. */
  ghost predicate Pending(s: SubscriptionDefinition, views: map<SubscriptionDefinition, Fields>)
    reads s
  {
    s in views && s.AllFields() == views[s]
  }

  /** A subscription that the walk has processed against its view. */
  ghost predicate Done(s: SubscriptionDefinition, views: map<SubscriptionDefinition, Fields>, env: Envelope)
    reads s
  {
    s in views && s.AllFields() == After(views[s], StepOf(s, views, env))
  }

  /** A bucket walked up to position `i`: the members before it processed, the rest untouched. */
  ghost predicate Walking(b: seq<SubscriptionDefinition>, views: map<SubscriptionDefinition, Fields>, env: Envelope, i: nat)
    reads b
  {
    && (forall j :: 0 <= j < i && j < |b| ==> Done(b[j], views, env))
    && (forall j :: i <= j < |b| ==> Pending(b[j], views))
  }

  lemma WalkingStart(b: seq<SubscriptionDefinition>, views: map<SubscriptionDefinition, Fields>, env: Envelope)
    requires forall s :: s in b ==> Pending(s, views)
    ensures Walking(b, views, env, 0)
  {
  }

  lemma WalkingEnd(b: seq<SubscriptionDefinition>, views: map<SubscriptionDefinition, Fields>, env: Envelope)
    requires Walking(b, views, env, |b|)
    ensures forall s :: s in b ==> Done(s, views, env)
  {
  }

  /**
   * The members of an exchange part-way through a publish: those filed under
   * a binding still `left` are untouched, the others have been processed.
   */
  ghost predicate Progress(m: map<string, seq<SubscriptionDefinition>>, views: map<SubscriptionDefinition, Fields>,
                           env: Envelope, left: set<string>)
    reads Members(m)
  {
    forall tp, s :: tp in m && s in m[tp] ==> if tp in left then Pending(s, views) else Done(s, views, env)
  }

  /** Two successive replacements of one entry amount to the second. */
  lemma Reassign<K, V>(start: map<K, V>, k: K, x: V, y: V)
    ensures start[k := x][k := y] == start[k := y]
  {
  }

  /** Two successive replacements of one bucket amount to the second. */
  lemma UpdateTwice<T>(m: map<string, map<string, T>>, ex: string, tp: string, x: T, y: T)
    requires ex in m && tp in m[ex]
    ensures var m' := m[ex := m[ex][tp := x]];
      && ex in m' && tp in m'[ex] && m'[ex][tp] == x
      && m'[ex := m'[ex][tp := y]] == m[ex := m[ex][tp := y]]
  {
    var m' := m[ex := m[ex][tp := x]];
    assert m'[ex][tp := y] == m[ex][tp := y];
  }

  /**
   * The search in `subscribe`: walking down from the end of the bucket, the
   * new member goes just after the first one whose priority is at most its
   * own; if there is none it goes to the front.
   */
  method Place(b: seq<SubscriptionDefinition>, s: SubscriptionDefinition) returns (nb: seq<SubscriptionDefinition>)
    ensures nb == InsertAt(b, InsertionIndex(Priorities(b), s.priority), s)
  {
    ghost var ps := Priorities(b);
    var idx := |b| - 1;
    var found := false;
    while idx >= 0
      invariant -1 <= idx < |b|
      invariant forall j :: idx < j < |b| ==> ps[j] > s.priority
      decreases idx + 1
    {
      if b[idx].priority <= s.priority {
        found := true;
        break;
      }
      idx := idx - 1;
    }
    if found {
      nb := b[..idx + 1] + [s] + b[idx + 1..];
    } else {
      nb := [s] + b;
    }
    ghost var k: nat := if found then idx + 1 else 0;
    assert nb == InsertAt(b, k, s);
    assert k == 0 || ps[k - 1] <= s.priority;
    InsertionIndexUnique(ps, s.priority, k);
  }

  class LocalBus {
    var subscriptions: map<string, map<string, seq<SubscriptionDefinition>>>
    var wireTaps: seq<Arg<nat>>
    const resolver: BindingsResolver

    ghost predicate Valid()
      reads this, resolver
    {
      && resolver.Valid()
      && Registry(subscriptions)
    }

    constructor (resolver: BindingsResolver)
      requires resolver.Valid()
      ensures Valid()
      ensures this.resolver == resolver
      ensures subscriptions == map[] && wireTaps == []
    {
      this.resolver := resolver;
      subscriptions := map[];
      wireTaps := [];
    }

    function ExchangeMembers(ex: string): set<SubscriptionDefinition>
      reads this
    {
      if ex in subscriptions then Members(subscriptions[ex]) else {}
    }

    /**
     * Wraps `onHandled` with the auto-dispose counter when `maxCalls` is
     * non-zero (also when the instance is already registered), then files the
     * subscription: just after the last member whose priority is at most its
     * own, or at the front, unless that instance is already in the bucket.
     * A bucket that `createChannel` never made makes the lookup throw.
     */
    method Subscribe(s: SubscriptionDefinition) returns (r: Outcome)
      requires Valid()
      modifies this, s
      ensures Valid()
      ensures wireTaps == old(wireTaps)
      ensures s.AllFields() == old(s.AllFields()).(onHandled :=
        if old(s.maxCalls) != 0 then WithDispose(old(s.onHandled), old(s.maxCalls)) else old(s.onHandled))
      ensures !(s.exchange in old(subscriptions) && s.topic in old(subscriptions)[s.exchange]) ==>
        r == Threw(TypeError) && subscriptions == old(subscriptions)
      ensures s.exchange in old(subscriptions) && s.topic in old(subscriptions)[s.exchange] ==>
        var b := old(subscriptions)[s.exchange][s.topic];
        && r == Ok
        && subscriptions == old(subscriptions)[s.exchange := old(subscriptions)[s.exchange][s.topic :=
             if s in b then b else InsertAt(b, InsertionIndex(old(Priorities(b)), s.priority), s)]]
    {
      if s.maxCalls != 0 {
        s.onHandled := WithDispose(s.onHandled, s.maxCalls);
      }
      if !(s.exchange in subscriptions && s.topic in subscriptions[s.exchange]) {
        return Threw(TypeError);
      }
      ghost var b := subscriptions[s.exchange][s.topic];
      assert Priorities(b) == old(Priorities(b));
      File(s);
      r := Ok;
    }

    /** The part of `subscribe` after the lookup: `s` goes into its existing bucket. */
    method File(s: SubscriptionDefinition)
      requires Valid() && s.exchange in subscriptions && s.topic in subscriptions[s.exchange]
      modifies this
      ensures Valid()
      ensures wireTaps == old(wireTaps)
      ensures var b := old(subscriptions)[s.exchange][s.topic];
        subscriptions == old(subscriptions)[s.exchange := old(subscriptions)[s.exchange][s.topic :=
          if s in b then b else InsertAt(b, InsertionIndex(old(Priorities(b)), s.priority), s)]]
    {
      var b := subscriptions[s.exchange][s.topic];
      assert ExchangeFits(subscriptions[s.exchange], s.exchange);
      assert BucketFits(b, s.exchange, s.topic);
      if s in b {
        assert subscriptions[s.exchange][s.topic := b] == subscriptions[s.exchange];
        assert subscriptions[s.exchange := subscriptions[s.exchange]] == subscriptions;
        return;
      }
      var nb := Place(b, s);
      InsertFits(b, InsertionIndex(Priorities(b), s.priority), s, s.exchange, s.topic);
      ReplaceBucket(subscriptions, s.exchange, s.topic, nb);
      subscriptions := subscriptions[s.exchange := subscriptions[s.exchange][s.topic := nb]];
      assert s !in old(subscriptions)[s.exchange][s.topic];
    }

    /**
     * Splices out the first entry identical to `s`. A missing binding leaves
     * everything as it was; a missing exchange makes the lookup throw.
     */
    method Unsubscribe(s: SubscriptionDefinition) returns (r: Outcome)
      requires Valid()
      modifies this
      ensures Valid()
      ensures wireTaps == old(wireTaps)
      ensures s.exchange !in old(subscriptions) ==> r == Threw(TypeError) && subscriptions == old(subscriptions)
      ensures s.exchange in old(subscriptions) ==>
        && r == Ok
        && subscriptions == if s.topic in old(subscriptions)[s.exchange] then
             old(subscriptions)[s.exchange := old(subscriptions)[s.exchange][s.topic :=
               RemoveFirst(old(subscriptions)[s.exchange][s.topic], s)]]
           else old(subscriptions)
    {
      if s.exchange !in subscriptions {
        return Threw(TypeError);
      }
      r := Ok;
      if s.topic !in subscriptions[s.exchange] {
        return;
      }
      var b := subscriptions[s.exchange][s.topic];
      assert ExchangeFits(subscriptions[s.exchange], s.exchange);
      assert BucketFits(b, s.exchange, s.topic);
      var len := |b|;
      var idx := 0;
      while idx < len
        invariant 0 <= idx <= len
        invariant forall j :: 0 <= j < idx ==> b[j] != s
      {
        if b[idx] == s {
          RemoveFirstAt(b, s);
          assert IndexOf(b, s) == idx;
          RemoveFirstNoDup(b, s);
          var nb := b[..idx] + b[idx + 1..];
          assert forall x :: x in nb ==> x in b;
          ReplaceBucket(subscriptions, s.exchange, s.topic, nb);
          subscriptions := subscriptions[s.exchange := subscriptions[s.exchange][s.topic := nb]];
          return;
        }
        idx := idx + 1;
      }
      RemoveFirstAbsent(b, s);
      assert subscriptions[s.exchange][s.topic := b] == subscriptions[s.exchange];
      assert subscriptions[s.exchange := subscriptions[s.exchange]] == subscriptions;
    }

    /** Appends a tap; any value is accepted, and only `publish` finds out if it is not a function. */
    method AddWireTap(tap: Arg<nat>)
      requires Valid()
      modifies this
      ensures Valid()
      ensures wireTaps == old(wireTaps) + [tap]
      ensures subscriptions == old(subscriptions)
    {
      wireTaps := wireTaps + [tap];
    }

    /**
     * What `publish` does for one subscription: compare its binding with the
     * topic, run its constraints, then call back and run `onHandled`, whose
     * auto-dispose counter unsubscribes the subscription when it fires.
     */
    method Visit(s: SubscriptionDefinition, env: Envelope) returns (events: seq<Event>)
      requires Valid() && s.exchange in subscriptions && s.topic in subscriptions[s.exchange]
      modifies this, resolver, s
      ensures Valid()
      ensures wireTaps == old(wireTaps)
      ensures Grown(old(resolver.cache), resolver.cache, env.topic)
      ensures var st := Process(s.topic, old(s.AllFields()), env);
        && events == (if st.delivered then [Invoked(s, env.data, old(s.context)), Handled(s)] else [])
        && s.AllFields() == After(old(s.AllFields()), st)
        && subscriptions == if st.disposes then
             old(subscriptions)[s.exchange := old(subscriptions)[s.exchange][s.topic :=
               RemoveFirst(old(subscriptions)[s.exchange][s.topic], s)]]
           else old(subscriptions)
    {
      assert ExchangeFits(subscriptions[s.exchange], s.exchange);
      events := [];
      var matched := resolver.Compare(s.topic, env.topic);
      if matched {
        var (ok, cs) := EvalConstraints(s.constraints, env.data);
        s.constraints := cs;
        if ok && IsFunction(s.callback) {
          events := events + [Invoked(s, env.data, s.context)];
          var (hook, fired) := Tick(s.onHandled);
          s.onHandled := hook;
          events := events + [Handled(s)];
          if fired > 0 {
            var _ := Unsubscribe(s);
          }
        }
      }
    }

    /**
     * One member of a bucket walk: `b[i]` is visited, and the bucket and the
     * members' fields move from the state before it to the state after it.
     */
    method Advance(ex: string, tp: string, env: Envelope, ghost views: map<SubscriptionDefinition, Fields>,
                   b: seq<SubscriptionDefinition>, i: nat, ghost start: map<string, map<string, seq<SubscriptionDefinition>>>)
      returns (events: seq<Event>)
      requires Valid() && i < |b| && BucketFits(b, ex, tp) && Covers(b, views)
      requires ex in start && tp in start[ex]
      requires subscriptions == start[ex := start[ex][tp := Survivors(b[..i], views, env) + b[i..]]]
      requires Walking(b, views, env, i)
      modifies this, resolver, b[i]
      ensures Valid() && wireTaps == old(wireTaps)
      ensures Grown(old(resolver.cache), resolver.cache, env.topic)
      ensures events == EventsOf(b[i], views, env)
      ensures subscriptions == start[ex := start[ex][tp := Survivors(b[..i + 1], views, env) + b[i + 1..]]]
      ensures Walking(b, views, env, i + 1)
    {
      var s := b[i];
      assert s.exchange == ex && s.topic == tp;
      ghost var cur := Survivors(b[..i], views, env) + b[i..];
      assert Pending(s, views);
      events := Visit(s, env);
      assert Done(s, views, env);
      SurvivorsStep(b, views, env, i);
      UpdateTwice(start, ex, tp, cur, RemoveFirst(cur, s));
      forall j | 0 <= j < |b| && j != i
        ensures b[j].AllFields() == old(b[j].AllFields())
      {
        assert b[j] != s;
      }
    }

    /**
     * One bucket of a publish, walked over the bucket as it stood when the
     * walk began: every member is processed against its fields in `views`,
     * and the members whose auto-dispose fires unsubscribe themselves.
     */
    method DispatchBucket(ex: string, tp: string, env: Envelope, ghost views: map<SubscriptionDefinition, Fields>)
      returns (trace: seq<Event>)
      requires Valid() && ex in subscriptions && tp in subscriptions[ex]
      requires Covers(subscriptions[ex][tp], views)
      requires forall s :: s in subscriptions[ex][tp] ==> Pending(s, views)
      modifies this, resolver, set s | s in subscriptions[ex][tp]
      ensures Valid()
      ensures wireTaps == old(wireTaps)
      ensures Grown(old(resolver.cache), resolver.cache, env.topic)
      ensures var b := old(subscriptions[ex][tp]);
        && trace == Trace(b, views, env)
        && subscriptions == old(subscriptions)[ex := old(subscriptions)[ex][tp := Survivors(b, views, env)]]
        && forall s :: s in b ==> Done(s, views, env)
    {
      ghost var start := subscriptions;
      var b := subscriptions[ex][tp];
      assert ExchangeFits(subscriptions[ex], ex);
      assert BucketFits(b, ex, tp);
      WalkEnds(b, views, env);
      WalkingStart(b, views, env);
      assert start[ex][tp := b] == start[ex];
      assert start[ex := start[ex][tp := b]] == start;
      trace := [];
      var i := 0;
      while i < |b|
        invariant 0 <= i <= |b|
        invariant Valid()
        invariant wireTaps == old(wireTaps)
        invariant Grown(old(resolver.cache), resolver.cache, env.topic)
        invariant trace == Trace(b[..i], views, env)
        invariant subscriptions == start[ex := start[ex][tp := Survivors(b[..i], views, env) + b[i..]]]
        invariant Walking(b, views, env, i)
      {
        ghost var c := resolver.cache;
        var events := Advance(ex, tp, env, views, b, i, start);
        GrownTrans(old(resolver.cache), c, resolver.cache, env.topic);
        TraceStep(b, views, env, i);
        trace := trace + events;
        i := i + 1;
      }
      WalkingEnd(b, views, env);
    }

    /**
     * The first loop of `publish`: each wiretap is handed a copy of the
     * envelope, in order; calling a tap that is not a function throws.
     */
    method CallWireTaps(env: Envelope) returns (trace: seq<Event>, r: Outcome)
      ensures var k := FirstNotCallable(wireTaps);
        && trace == TapEvents(wireTaps[..k], env)
        && (r == Ok <==> k == |wireTaps|)
        && (r != Ok ==> r == Threw(TypeError))
    {
      trace := [];
      var i := 0;
      while i < |wireTaps|
        invariant 0 <= i <= |wireTaps|
        invariant forall j :: 0 <= j < i ==> wireTaps[j].Callable?
        invariant trace == TapEvents(wireTaps[..i], env)
      {
        var tap := wireTaps[i];
        if tap.NotCallable? {
          assert i == FirstNotCallable(wireTaps);
          return trace, Threw(TypeError);
        }
        assert wireTaps[..i + 1][..i] == wireTaps[..i];
        trace := trace + [Tapped(tap.fn, env)];
        i := i + 1;
      }
      assert wireTaps[..i] == wireTaps;
      r := Ok;
    }

    /**
     * One bucket of the exchange walk in `publish`: the bucket filed under
     * `tp` is walked, and the exchange moves on by that one binding.
     */
    method Sweep(ex: string, tp: string, env: Envelope, ghost views: map<SubscriptionDefinition, Fields>,
                 ghost m: map<string, seq<SubscriptionDefinition>>, ghost left: set<string>)
      returns (part: seq<Event>)
      requires ExchangeFits(m, ex) && CoversAll(m, views) && tp in left && left <= m.Keys
      requires Valid() && ex in subscriptions && tp in subscriptions[ex] && subscriptions[ex][tp] == m[tp]
      requires Progress(m, views, env, left)
      modifies this, resolver, set s | s in m[tp]
      ensures Valid() && wireTaps == old(wireTaps)
      ensures Grown(old(resolver.cache), resolver.cache, env.topic)
      ensures part == Trace(m[tp], views, env)
      ensures subscriptions == old(subscriptions)[ex := old(subscriptions)[ex][tp := Survivors(m[tp], views, env)]]
      ensures Progress(m, views, env, left - {tp})
    {
      assert BucketFits(m[tp], ex, tp);
      label Before:
      part := DispatchBucket(ex, tp, env, views);
      forall t, s | t in m && s in m[t]
        ensures if t in left - {tp} then Pending(s, views) else Done(s, views, env)
      {
        if t != tp {
          assert s.topic == t;
          assert s.AllFields() == old@Before(s.AllFields());
        }
      }
    }

    /**
     * The second loop of `publish`: every bucket of exchange `ex` is walked,
     * in an order the model leaves open and reports as `order`.
     */
    method DispatchExchange(ex: string, env: Envelope, ghost views: map<SubscriptionDefinition, Fields>)
      returns (trace: seq<Event>, ghost order: seq<string>)
      requires Valid() && ex in subscriptions
      requires CoversAll(subscriptions[ex], views)
      requires Progress(subscriptions[ex], views, env, subscriptions[ex].Keys)
      modifies this, resolver, Members(subscriptions[ex])
      ensures Valid()
      ensures wireTaps == old(wireTaps)
      ensures Grown(old(resolver.cache), resolver.cache, env.topic)
      ensures var m := old(subscriptions)[ex];
        && NoDup(order) && (forall tp :: tp in order <==> tp in m)
        && trace == TraceAll(BucketsIn(m, order), views, env)
        && subscriptions == old(subscriptions)[ex := map tp | tp in m :: Survivors(m[tp], views, env)]
        && forall tp, s :: tp in m && s in m[tp] ==> Done(s, views, env)
    {
      ghost var start := subscriptions;
      ghost var m := subscriptions[ex];
      assert ExchangeFits(m, ex);
      var left := subscriptions[ex].Keys;
      assert Swept(subscriptions[ex], m, views, env, left);
      assert subscriptions == start[ex := subscriptions[ex]];
      trace := [];
      order := [];
      while left != {}
        invariant Valid() && wireTaps == old(wireTaps)
        invariant Grown(old(resolver.cache), resolver.cache, env.topic)
        invariant Walked(order, m.Keys, left)
        invariant trace == TraceAll(BucketsIn(m, order), views, env)
        invariant ex in subscriptions && subscriptions == start[ex := subscriptions[ex]]
        invariant Swept(subscriptions[ex], m, views, env, left)
        invariant Progress(m, views, env, left)
        decreases left
      {
        var tp :| tp in left;
        SweptStep(subscriptions[ex], m, views, env, left, tp);
        ghost var cur := subscriptions[ex];
        ghost var c := resolver.cache;
        var part := Sweep(ex, tp, env, views, m, left);
        GrownTrans(old(resolver.cache), c, resolver.cache, env.topic);
        Reassign(start, ex, cur, cur[tp := Survivors(m[tp], views, env)]);
        TraceAllStep(m, order, tp, views, env);
        WalkedStep(order, m.Keys, left, tp);
        trace := trace + part;
        order := order + [tp];
        left := left - {tp};
      }
      SweptAll(subscriptions[ex], m, views, env);
      assert NoDup(order);
    }

    /**
     * Hands each wiretap a copy of the envelope in order (a tap that is not a
     * function throws, before any subscription is reached), then walks the
     * buckets of the envelope's exchange, if it has any.
     */
    method Publish(env: Envelope) returns (trace: seq<Event>, r: Outcome, ghost order: seq<string>)
      requires Valid()
      modifies this, resolver, ExchangeMembers(env.exchange)
      ensures Valid()
      ensures wireTaps == old(wireTaps)
      ensures Grown(old(resolver.cache), resolver.cache, env.topic)
      ensures var k := FirstNotCallable(wireTaps);
        k < |wireTaps| ==>
          && r == Threw(TypeError)
          && trace == TapEvents(wireTaps[..k], env)
          && subscriptions == old(subscriptions)
          && resolver.cache == old(resolver.cache)
          && forall s :: s in old(ExchangeMembers(env.exchange)) ==> s.AllFields() == old(s.AllFields())
      ensures FirstNotCallable(wireTaps) == |wireTaps| && env.exchange !in old(subscriptions) ==>
        r == Ok && trace == TapEvents(wireTaps, env) && subscriptions == old(subscriptions)
        && resolver.cache == old(resolver.cache)
      ensures FirstNotCallable(wireTaps) == |wireTaps| && env.exchange in old(subscriptions) ==>
        var m := old(subscriptions)[env.exchange];
        var views := old(ViewOf(Members(m)));
        && r == Ok
        && NoDup(order) && (forall tp :: tp in order <==> tp in m)
        && trace == TapEvents(wireTaps, env) + TraceAll(BucketsIn(m, order), views, env)
        && subscriptions == old(subscriptions)[env.exchange := map tp | tp in m :: Survivors(m[tp], views, env)]
        && forall tp, s :: tp in m && s in m[tp] ==> Done(s, views, env)
    {
      order := [];
      trace, r := CallWireTaps(env);
      if r != Ok || env.exchange !in subscriptions {
        assert wireTaps[..|wireTaps|] == wireTaps;
        return;
      }
      ghost var m := subscriptions[env.exchange];
      ghost var views := ViewOf(Members(m));
      forall tp, s | tp in m && s in m[tp]
        ensures Pending(s, views)
      {
        assert s in Members(m);
      }
      assert Progress(m, views, env, m.Keys);
      var part;
      part, order := DispatchExchange(env.exchange, env, views);
      assert wireTaps[..|wireTaps|] == wireTaps;
      trace := trace + part;
    }
  }
}
