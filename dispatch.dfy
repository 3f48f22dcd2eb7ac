/**
 * What one `publish` does to the subscriptions of one bucket, stated as
 * functions of the subscriptions' fields as they were when the publish began
 * (their "views"): which of them receive the payload, in which order, what
 * their constraint and hook state becomes, and which of them leave the bucket.
 *
 * It also holds the model of the bucket walk as the source writes it, which
 * iterates the live array (`_.each`) while the auto-dispose hook splices it.
 */
module Dispatch {
  import opened Values
  import opened TopicMatch
  import opened Subscriptions
  import opened Buckets

  /** What the bus does that a caller could observe, in order. */
  datatype Event =
    | Tapped(tap: nat, envelope: Envelope)
    | Invoked(sub: SubscriptionDefinition, data: Data, context: Context)
    | Handled(sub: SubscriptionDefinition)

  /** Processing one subscription: delivered or not, its new state, and whether it unsubscribes itself. */
  datatype Step = Step(delivered: bool, constraints: seq<Constraint>, onHandled: Hook, disposes: bool)

  /**
   * One subscription, one envelope: compare the binding with the topic; on a
   * match run the constraints; if they all pass and the callback is a function,
   * deliver and then run `onHandled`, whose auto-dispose layers may unsubscribe.
   */
  function Process(binding: string, f: Fields, env: Envelope): Step {
    if !Matches(binding, env.topic) then
      Step(false, f.constraints, f.onHandled, false)
    else
      var (ok, cs) := EvalConstraints(f.constraints, env.data);
      if !(ok && IsFunction(f.callback)) then
        Step(false, cs, f.onHandled, false)
      else
        var (hook, fired) := Tick(f.onHandled);
        Step(true, cs, hook, fired > 0)
  }

  /**
   * A subscription receives the payload exactly when its binding matches the
   * topic, every constraint passes, and its callback is a function; only a
   * delivery can make it unsubscribe itself, and an unmatched subscription's
   * constraints are not called.
   */
  lemma ProcessSpec(binding: string, f: Fields, env: Envelope)
    ensures Process(binding, f, env).delivered <==>
      && Matches(binding, env.topic)
      && (forall i :: 0 <= i < |f.constraints| ==> Passes(f.constraints[i], env.data))
      && IsFunction(f.callback)
    ensures Process(binding, f, env).disposes ==> Process(binding, f, env).delivered
    ensures !Matches(binding, env.topic) ==> Process(binding, f, env).constraints == f.constraints
    ensures Process(binding, f, env).delivered ==> Process(binding, f, env).onHandled == Tick(f.onHandled).0
    ensures !Process(binding, f, env).delivered ==> Process(binding, f, env).onHandled == f.onHandled
  {
    EvalConstraintsSpec(f.constraints, env.data);
  }

  /** A subscription's fields after it has been processed. */
  function After(f: Fields, st: Step): Fields {
    f.(constraints := st.constraints, onHandled := st.onHandled)
  }

  /** The fields of each subscription in a set, taken at one moment. */
  function ViewOf(ss: set<SubscriptionDefinition>): (views: map<SubscriptionDefinition, Fields>)
    reads ss
    ensures views.Keys == ss
    ensures forall s :: s in ss ==> views[s] == s.AllFields()
  {
    map s | s in ss :: s.AllFields()
  }

  /** Every subscription in the buckets of one exchange. */
  function Members(m: map<string, seq<SubscriptionDefinition>>): (ss: set<SubscriptionDefinition>)
    ensures forall tp, s :: tp in m && s in m[tp] ==> s in ss
  {
    set tp, s | tp in m && s in m[tp] :: s
  }

  /** The buckets of one exchange, in the order of `order`. */
  function BucketsIn(m: map<string, seq<SubscriptionDefinition>>, order: seq<string>)
    : (bs: seq<seq<SubscriptionDefinition>>)
    ensures |bs| == |order|
    ensures forall i :: 0 <= i < |order| ==> bs[i] == if order[i] in m then m[order[i]] else []
  {
    seq(|order|, i requires 0 <= i < |order| => if order[i] in m then m[order[i]] else [])
  }

  /** The events of the wiretaps, each handed a copy of the envelope. */
  function TapEvents(taps: seq<Arg<nat>>, env: Envelope): (es: seq<Event>)
    requires forall i :: 0 <= i < |taps| ==> taps[i].Callable?
  {
    if taps == [] then [] else TapEvents(taps[..|taps| - 1], env) + [Tapped(taps[|taps| - 1].fn, env)]
  }

  ghost predicate Covers(b: seq<SubscriptionDefinition>, views: map<SubscriptionDefinition, Fields>) {
    forall s :: s in b ==> s in views
  }

  function StepOf(s: SubscriptionDefinition, views: map<SubscriptionDefinition, Fields>, env: Envelope): Step
    requires s in views
  {
    Process(s.topic, views[s], env)
  }

  /** The events of one subscription: the callback and then `onHandled`, or nothing. */
  function EventsOf(s: SubscriptionDefinition, views: map<SubscriptionDefinition, Fields>, env: Envelope): seq<Event>
    requires s in views
  {
    if StepOf(s, views, env).delivered then [Invoked(s, env.data, views[s].context), Handled(s)] else []
  }

  /** The events of a bucket walked in its stored order. */
  function Trace(b: seq<SubscriptionDefinition>, views: map<SubscriptionDefinition, Fields>, env: Envelope): seq<Event>
    requires Covers(b, views)
  {
    if b == [] then [] else Trace(b[..|b| - 1], views, env) + EventsOf(b[|b| - 1], views, env)
  }

  /** The bucket after the walk: the members that unsubscribed themselves are gone. */
  function Survivors(b: seq<SubscriptionDefinition>, views: map<SubscriptionDefinition, Fields>, env: Envelope)
    : seq<SubscriptionDefinition>
    requires Covers(b, views)
  {
    if b == [] then []
    else
      var last := b[|b| - 1];
      Survivors(b[..|b| - 1], views, env) + if StepOf(last, views, env).disposes then [] else [last]
  }

  /** The events of several buckets walked one after the other. */
  function TraceAll(bs: seq<seq<SubscriptionDefinition>>, views: map<SubscriptionDefinition, Fields>, env: Envelope)
    : seq<Event>
    requires forall i :: 0 <= i < |bs| ==> Covers(bs[i], views)
  {
    if bs == [] then [] else TraceAll(bs[..|bs| - 1], views, env) + Trace(bs[|bs| - 1], views, env)
  }

  /** Every bucket of an exchange has its members in `views`. */
  ghost predicate CoversAll(m: map<string, seq<SubscriptionDefinition>>, views: map<SubscriptionDefinition, Fields>) {
    forall tp :: tp in m ==> Covers(m[tp], views)
  }

  /**
   * An exchange part-way through a publish: the bindings still `left` keep
   * their buckets, the others have lost their self-removing members.
   */
  ghost predicate Swept(cur: map<string, seq<SubscriptionDefinition>>, m: map<string, seq<SubscriptionDefinition>>,
                        views: map<SubscriptionDefinition, Fields>, env: Envelope, left: set<string>)
    requires CoversAll(m, views)
  {
    && cur.Keys == m.Keys
    && forall tp :: tp in m ==> cur[tp] == if tp in left then m[tp] else Survivors(m[tp], views, env)
  }

  /** Walking the bucket filed under `tp` moves the exchange on by that binding. */
  lemma SweptStep(cur: map<string, seq<SubscriptionDefinition>>, m: map<string, seq<SubscriptionDefinition>>,
                  views: map<SubscriptionDefinition, Fields>, env: Envelope, left: set<string>, tp: string)
    requires CoversAll(m, views) && Swept(cur, m, views, env, left) && tp in left && tp in m
    ensures cur[tp] == m[tp]
    ensures Swept(cur[tp := Survivors(m[tp], views, env)], m, views, env, left - {tp})
  {
  }

  /** Once no binding is left, every bucket has lost its self-removing members. */
  lemma SweptAll(cur: map<string, seq<SubscriptionDefinition>>, m: map<string, seq<SubscriptionDefinition>>,
                 views: map<SubscriptionDefinition, Fields>, env: Envelope)
    requires CoversAll(m, views) && Swept(cur, m, views, env, {})
    ensures cur == map tp | tp in m :: Survivors(m[tp], views, env)
  {
  }

  /** The bindings walked so far, each once, are exactly those of `keys` no longer `left`. */
  ghost predicate Walked(order: seq<string>, keys: set<string>, left: set<string>) {
    && left <= keys
    && NoDup(order)
    && forall tp :: tp in order <==> tp in keys && tp !in left
  }

  /** Walking one more binding that was left. */
  lemma WalkedStep(order: seq<string>, keys: set<string>, left: set<string>, tp: string)
    requires Walked(order, keys, left) && tp in left
    ensures Walked(order + [tp], keys, left - {tp})
  {
    assert tp !in order;
    var o := order + [tp];
    forall i, j | 0 <= i < j < |o|
      ensures o[i] != o[j]
    {
      if j == |order| {
        assert o[i] == order[i];
      }
    }
  }

  /** Walking one more bucket appends its events. */
  lemma TraceAllStep(m: map<string, seq<SubscriptionDefinition>>, order: seq<string>, tp: string,
                     views: map<SubscriptionDefinition, Fields>, env: Envelope)
    requires CoversAll(m, views) && tp in m
    ensures forall i :: 0 <= i < |order| ==> Covers(BucketsIn(m, order)[i], views)
    ensures TraceAll(BucketsIn(m, order + [tp]), views, env) == TraceAll(BucketsIn(m, order), views, env) + Trace(m[tp], views, env)
  {
    var bs := BucketsIn(m, order + [tp]);
    assert bs[..|bs| - 1] == BucketsIn(m, order);
  }

  lemma {:induction false} TraceAppend(a: seq<SubscriptionDefinition>, c: seq<SubscriptionDefinition>,
                                      views: map<SubscriptionDefinition, Fields>, env: Envelope)
    requires Covers(a, views) && Covers(c, views)
    ensures Covers(a + c, views)
    ensures Trace(a + c, views, env) == Trace(a, views, env) + Trace(c, views, env)
    decreases |c|
  {
    if c != [] {
      var c' := c[..|c| - 1];
      assert (a + c)[..|a + c| - 1] == a + c';
      TraceAppend(a, c', views, env);
    } else {
      assert a + c == a;
    }
  }

  /**
   * The callback of a member is invoked during the walk exactly when that
   * member is delivered to, with the envelope's payload and its own context,
   * and each invocation is followed at once by its `onHandled`.
   */
  lemma {:induction false} TraceSpec(b: seq<SubscriptionDefinition>, views: map<SubscriptionDefinition, Fields>,
                                     env: Envelope, s: SubscriptionDefinition, d: Data, c: Context)
    requires Covers(b, views)
    ensures Invoked(s, d, c) in Trace(b, views, env) <==>
      s in b && StepOf(s, views, env).delivered && d == env.data && c == views[s].context
    ensures forall i :: 0 <= i < |Trace(b, views, env)| && Trace(b, views, env)[i] == Invoked(s, d, c) ==>
      i + 1 < |Trace(b, views, env)| && Trace(b, views, env)[i + 1] == Handled(s)
    decreases |b|
  {
    if b != [] {
      var b' := b[..|b| - 1];
      var last := b[|b| - 1];
      assert b == b' + [last];
      TraceSpec(b', views, env, s, d, c);
      assert s in b <==> s in b' || s == last;
      var t := Trace(b, views, env);
      var t' := Trace(b', views, env);
      assert t == t' + EventsOf(last, views, env);
      forall i | 0 <= i < |t| && t[i] == Invoked(s, d, c)
        ensures i + 1 < |t| && t[i + 1] == Handled(s)
      {
        if i >= |t'| {
          assert t[i] == EventsOf(last, views, env)[i - |t'|];
        } else {
          assert t'[i] == t[i];
        }
      }
    }
  }

  /** How often one member's events name `s`. */
  lemma EventsOfCount(t: SubscriptionDefinition, views: map<SubscriptionDefinition, Fields>, env: Envelope,
                      s: SubscriptionDefinition, d: Data, c: Context)
    requires t in views
    ensures multiset(EventsOf(t, views, env))[Invoked(s, d, c)] ==
      if t == s && StepOf(t, views, env).delivered && d == env.data && c == views[t].context then 1 else 0
    ensures multiset(EventsOf(t, views, env))[Handled(s)] ==
      if t == s && StepOf(t, views, env).delivered then 1 else 0
  {
    if StepOf(t, views, env).delivered {
      assert multiset(EventsOf(t, views, env)) == multiset{Invoked(t, env.data, views[t].context), Handled(t)};
    }
  }

  /**
   * In a bucket that holds each member once, a member's callback is invoked
   * exactly once when it is delivered to and never otherwise, and its
   * `onHandled` runs exactly as often.
   */
  lemma {:induction false} TraceOnce(b: seq<SubscriptionDefinition>, views: map<SubscriptionDefinition, Fields>,
                                     env: Envelope, s: SubscriptionDefinition, d: Data, c: Context)
    requires Covers(b, views) && NoDup(b)
    ensures multiset(Trace(b, views, env))[Invoked(s, d, c)] ==
      if s in b && StepOf(s, views, env).delivered && d == env.data && c == views[s].context then 1 else 0
    ensures multiset(Trace(b, views, env))[Handled(s)] ==
      if s in b && StepOf(s, views, env).delivered then 1 else 0
    decreases |b|
  {
    if b != [] {
      var b' := b[..|b| - 1];
      var last := b[|b| - 1];
      assert b == b' + [last];
      assert last !in b';
      assert s in b <==> s in b' || s == last;
      TraceOnce(b', views, env, s, d, c);
      EventsOfCount(last, views, env, s, d, c);
      assert multiset(Trace(b, views, env)) == multiset(Trace(b', views, env)) + multiset(EventsOf(last, views, env));
    }
  }

  /** A member whose callback shows up in the events of a bucket is in that bucket. */
  lemma InvokedIn(b: seq<SubscriptionDefinition>, views: map<SubscriptionDefinition, Fields>, env: Envelope,
                  s: SubscriptionDefinition, d: Data, c: Context, x: int)
    requires Covers(b, views) && 0 <= x < |Trace(b, views, env)| && Trace(b, views, env)[x] == Invoked(s, d, c)
    ensures s in b
  {
    TraceSpec(b, views, env, s, d, c);
  }

  /**
   * Members are invoked in the order in which the bucket stores them: both
   * callbacks of two delivered members run, and every invocation of the
   * earlier one comes before every invocation of the later one.
   */
  lemma StoredOrder(b: seq<SubscriptionDefinition>, views: map<SubscriptionDefinition, Fields>, env: Envelope,
                    i: nat, j: nat)
    requires Covers(b, views) && NoDup(b)
    requires i < j < |b|
    requires StepOf(b[i], views, env).delivered && StepOf(b[j], views, env).delivered
    ensures Invoked(b[i], env.data, views[b[i]].context) in Trace(b, views, env)
    ensures Invoked(b[j], env.data, views[b[j]].context) in Trace(b, views, env)
    ensures forall x, y ::
      (&& 0 <= x < |Trace(b, views, env)| && 0 <= y < |Trace(b, views, env)|
       && Trace(b, views, env)[x] == Invoked(b[i], env.data, views[b[i]].context)
       && Trace(b, views, env)[y] == Invoked(b[j], env.data, views[b[j]].context))
      ==> x < y
  {
    var si, sj := b[i], b[j];
    var ei := Invoked(si, env.data, views[si].context);
    var ej := Invoked(sj, env.data, views[sj].context);
    var front, back := b[..j], b[j..];
    assert b == front + back;
    assert si in front by { assert front[i] == si; }
    assert sj in back by { assert back[0] == sj; }
    assert si !in back by {
      forall k | 0 <= k < |back| ensures back[k] != si { assert back[k] == b[j + k]; }
    }
    assert sj !in front by {
      forall k | 0 <= k < |front| ensures front[k] != sj { assert front[k] == b[k]; }
    }
    TraceAppend(front, back, views, env);
    TraceSpec(b, views, env, si, env.data, views[si].context);
    TraceSpec(b, views, env, sj, env.data, views[sj].context);
    var t, tf, tb := Trace(b, views, env), Trace(front, views, env), Trace(back, views, env);
    assert t == tf + tb;
    forall x, y | 0 <= x < |t| && 0 <= y < |t| && t[x] == ei && t[y] == ej
      ensures x < y
    {
      if x >= |tf| {
        assert tb[x - |tf|] == ei;
        InvokedIn(back, views, env, si, env.data, views[si].context, x - |tf|);
      }
      if y < |tf| {
        assert tf[y] == ej;
        InvokedIn(front, views, env, sj, env.data, views[sj].context, y);
      }
    }
  }

  /**
   * A bucket is walked in its stored order: when the bucket is sorted by
   * priority and two members of different priorities are both delivered to,
   * the lower priority's callback runs, and runs before the higher one's.
   */
  lemma PriorityOrder(b: seq<SubscriptionDefinition>, views: map<SubscriptionDefinition, Fields>, env: Envelope,
                      i: nat, j: nat)
    requires Covers(b, views) && NoDup(b)
    requires i < |b| && j < |b|
    requires forall a, c :: 0 <= a < c < |b| ==> views[b[a]].priority <= views[b[c]].priority
    requires views[b[i]].priority < views[b[j]].priority
    requires StepOf(b[i], views, env).delivered && StepOf(b[j], views, env).delivered
    ensures Invoked(b[i], env.data, views[b[i]].context) in Trace(b, views, env)
    ensures Invoked(b[j], env.data, views[b[j]].context) in Trace(b, views, env)
    ensures forall x, y ::
      (&& 0 <= x < |Trace(b, views, env)| && 0 <= y < |Trace(b, views, env)|
       && Trace(b, views, env)[x] == Invoked(b[i], env.data, views[b[i]].context)
       && Trace(b, views, env)[y] == Invoked(b[j], env.data, views[b[j]].context))
      ==> x < y
  {
    StoredOrder(b, views, env, i, j);
  }

  /** The events of a prefix of the bucket come first in the events of the whole. */
  lemma TracePrefix(b: seq<SubscriptionDefinition>, views: map<SubscriptionDefinition, Fields>, env: Envelope, k: nat)
    requires Covers(b, views) && k <= |b|
    ensures Covers(b[..k], views)
    ensures |Trace(b[..k], views, env)| <= |Trace(b, views, env)|
    ensures forall n :: 0 <= n < |Trace(b[..k], views, env)| ==> Trace(b[..k], views, env)[n] == Trace(b, views, env)[n]
  {
    assert b == b[..k] + b[k..];
    TraceAppend(b[..k], b[k..], views, env);
  }

  /** The members that stay are those that did not unsubscribe themselves, in their old order. */
  lemma {:induction false} SurvivorsSpec(b: seq<SubscriptionDefinition>, views: map<SubscriptionDefinition, Fields>,
                                         env: Envelope, s: SubscriptionDefinition)
    requires Covers(b, views)
    ensures s in Survivors(b, views, env) <==> s in b && !StepOf(s, views, env).disposes
    ensures |Survivors(b, views, env)| <= |b|
    decreases |b|
  {
    if b != [] {
      var b' := b[..|b| - 1];
      assert b == b' + [b[|b| - 1]];
      assert s in b <==> s in b' || s == b[|b| - 1];
      SurvivorsSpec(b', views, env, s);
    }
  }

  lemma {:induction false} SurvivorsNoDup(b: seq<SubscriptionDefinition>, views: map<SubscriptionDefinition, Fields>,
                                          env: Envelope)
    requires Covers(b, views) && NoDup(b)
    ensures NoDup(Survivors(b, views, env))
    ensures forall s :: s in Survivors(b, views, env) ==> s in b
    decreases |b|
  {
    if b != [] {
      var b' := b[..|b| - 1];
      var last := b[|b| - 1];
      assert b == b' + [last];
      assert last !in b';
      SurvivorsNoDup(b', views, env);
    }
  }

  /** The two ends of a walk over a bucket: nothing walked yet, and everything walked. */
  lemma WalkEnds(b: seq<SubscriptionDefinition>, views: map<SubscriptionDefinition, Fields>, env: Envelope)
    requires Covers(b, views)
    ensures Covers(b[..0], views) && Covers(b[..|b|], views)
    ensures Trace(b[..0], views, env) == [] && Survivors(b[..0], views, env) + b[0..] == b
    ensures Trace(b[..|b|], views, env) == Trace(b, views, env)
    ensures Survivors(b[..|b|], views, env) + b[|b|..] == Survivors(b, views, env)
  {
    assert b[..0] == [] && b[0..] == b;
    assert b[..|b|] == b && b[|b|..] == [];
  }

  /** The walk over a snapshot, one member further: the trace gains that member's events. */
  lemma TraceStep(b: seq<SubscriptionDefinition>, views: map<SubscriptionDefinition, Fields>, env: Envelope, i: nat)
    requires Covers(b, views) && i < |b|
    ensures Covers(b[..i], views) && Covers(b[..i + 1], views)
    ensures Trace(b[..i + 1], views, env) == Trace(b[..i], views, env) + EventsOf(b[i], views, env)
  {
    assert b[..i + 1][..i] == b[..i];
  }

  /**
   * The bucket during the walk over a snapshot: the part already walked has
   * lost its self-removing members and the rest is untouched. Walking one more
   * member either leaves the bucket as it is or splices that member out.
   */
  lemma SurvivorsStep(b: seq<SubscriptionDefinition>, views: map<SubscriptionDefinition, Fields>, env: Envelope, i: nat)
    requires Covers(b, views) && NoDup(b) && i < |b|
    ensures Covers(b[..i], views) && Covers(b[..i + 1], views)
    ensures StepOf(b[i], views, env).disposes ==>
      RemoveFirst(Survivors(b[..i], views, env) + b[i..], b[i]) == Survivors(b[..i + 1], views, env) + b[i + 1..]
    ensures !StepOf(b[i], views, env).disposes ==>
      Survivors(b[..i], views, env) + b[i..] == Survivors(b[..i + 1], views, env) + b[i + 1..]
  {
    var front := b[..i];
    assert b[..i + 1] == front + [b[i]];
    assert b[..i + 1][..i] == front;
    assert b[i..] == [b[i]] + b[i + 1..];
    SurvivorsNoDup(front, views, env);
    assert b[i] !in front;
    assert Survivors(b[..i + 1], views, env) ==
      Survivors(front, views, env) + if StepOf(b[i], views, env).disposes then [] else [b[i]];
    assert Survivors(front, views, env) + b[i..] == Survivors(front, views, env) + [b[i]] + b[i + 1..];
    if StepOf(b[i], views, env).disposes {
      RemoveFirstJoin(Survivors(front, views, env), b[i], b[i + 1..]);
    }
  }

  // ---------------------------------------------------------------------------
  // The walk as written: `_.each` over the live bucket

  /**
   * The members visited when the bucket is walked like `Array.prototype.forEach`:
   * the length `n` is read once, index `i` is visited only while it is still
   * inside the array, and a member in `disposing` splices itself out when it is
   * visited, so the member after it moves to index `i` and is not visited.
   */
  function LiveVisits<T(==)>(b: seq<T>, i: nat, n: nat, disposing: set<T>): seq<T>
    decreases n - i
  {
    if i >= n || i >= |b| then []
    else if b[i] in disposing then [b[i]] + LiveVisits(b[..i] + b[i + 1..], i + 1, n, disposing)
    else [b[i]] + LiveVisits(b, i + 1, n, disposing)
  }

  /** Without a self-removing member the live walk visits the whole bucket in order. */
  lemma {:induction false} LiveVisitsAllWithoutDisposal<T>(b: seq<T>, i: nat)
    requires i <= |b|
    ensures LiveVisits(b, i, |b|, {}) == b[i..]
    decreases |b| - i
  {
    if i < |b| {
      LiveVisitsAllWithoutDisposal(b, i + 1);
      assert b[i..] == [b[i]] + b[i + 1..];
    }
  }

  /**
   * The discrepancy: in a bucket [x, y] where x is delivered to for the last
   * time (its auto-dispose fires), the live walk never reaches y, although y
   * has not unsubscribed and a walk over a snapshot visits both.
   */
  lemma LiveWalkSkipsNeighbour<T>(x: T, y: T)
    requires x != y
    ensures LiveVisits([x, y], 0, 2, {x}) == [x]
    ensures LiveVisits([x, y], 0, 2, {}) == [x, y]
  {
    assert [x, y][..0] + [x, y][1..] == [y];
    LiveVisitsAllWithoutDisposal([x, y], 0);
  }
}
