/**
 * `SubscriptionDefinition` and the closures it carries.
 *
 * A definition is a record of mutable fields that the builder methods reassign.
 * Two of the values stored in those fields are stateful closures: the
 * `DistinctPredicate` that `ignoreDuplicates` appends to `constraints` keeps the
 * previous payload, and the auto-dispose wrapper that `subscribe` installs as
 * `onHandled` keeps the countdown of `_.after`. Their state is held here as
 * part of the stored value (`Distinct(previous)`, `WithDispose(fn, times)`), and
 * a call of the closure yields the value with the state advanced, which the
 * caller writes back into the field.
 */
module Subscriptions {
  import opened Values

  const DefaultPriority: int := 50
  const DefaultDisposeAfter: int := 0

  const DisposeAfterMessage: string := "The value provided to disposeAfter (maxCalls) must be a number"
  const HandledMessage: string := "Value provided to 'whenHandledThenExecute' must be a function"
  const PredicateMessage: string := "Predicate constraint must be a function"
  const MillisecondsMessage: string := "Milliseconds must be a number"
  const PriorityMessage: string := "Priority must be a number"

  /**
   * The value of a definition's `callback` field. `Handler(id)` is a caller's
   * function, `NotAFunction` any other value (the source does not check it when
   * subscribing); the timer decorators replace the field with a new function
   * closing over the previous value.
   */
  datatype Callback =
    | Handler(id: nat)
    | NotAFunction
    | Deferred(fn: Callback)
    | Delayed(ms: int, fn: Callback)
    | Debounced(ms: int, fn: Callback)
    | Throttled(ms: int, fn: Callback)

  /** `typeof callback === 'function'`: every decorator's wrapper is a function. */
  predicate IsFunction(c: Callback) {
    !c.NotAFunction?
  }

  /** A constraint: a caller's predicate over the payload, or a `DistinctPredicate` with its state. */
  datatype Constraint = Predicate(test: Data -> bool) | Distinct(previous: Data)

  /**
   * The value of `onHandled`: the no-op default, a caller's hook, or the wrapper
   * `subscribe` installs when `maxCalls` is non-zero, which runs the previous
   * hook and then the `_.after(maxCalls, unsubscribe)` countdown `times`.
   */
  datatype Hook = NoOp | UserHook(id: nat) | WithDispose(fn: Hook, times: int)

  // ---------------------------------------------------------------------------
  // DistinctPredicate

  /** Structural equality of two payloads (`_.isEqual`); strings compare by value. */
  function IsEqual(a: Data, b: Data): bool {
    a == b
  }

  /** An independent copy of a payload (`_.clone`). */
  function Clone(d: Data): Data {
    d
  }

  /**
   * One call of a `DistinctPredicate` whose captured `previous` is `previous`:
   * whether the payload passes, and the new `previous`. Strings compare with
   * `===`, other values with `_.isEqual` and are stored as a copy.
   */
  function DistinctCall(previous: Data, data: Data): (bool, Data) {
    if data.Str? then
      (!(data == previous), data)
    else
      (!IsEqual(data, previous), Clone(data))
  }

  /** What a run of calls on one fresh-or-used predicate returns. */
  function DistinctRun(previous: Data, xs: seq<Data>): seq<bool>
    decreases |xs|
  {
    if xs == [] then []
    else
      var (pass, next) := DistinctCall(previous, xs[0]);
      [pass] + DistinctRun(next, xs[1..])
  }

  /**
   * Each call rejects exactly the payload equal to the one seen by the call
   * before it, whether that earlier call passed or not.
   */
  lemma {:induction false} DistinctRunRejectsRepeats(previous: Data, xs: seq<Data>)
    decreases |xs|
    ensures |DistinctRun(previous, xs)| == |xs|
    ensures forall i :: 0 <= i < |xs| ==>
      DistinctRun(previous, xs)[i] == (xs[i] != if i == 0 then previous else xs[i - 1])
  {
    if xs != [] {
      DistinctRunRejectsRepeats(xs[0], xs[1..]);
      var r := DistinctRun(previous, xs);
      assert r == [xs[0] != previous] + DistinctRun(xs[0], xs[1..]);
      forall i | 0 < i < |xs|
        ensures r[i] == (xs[i] != xs[i - 1])
      {
        assert r[i] == DistinctRun(xs[0], xs[1..])[i - 1];
        assert xs[1..][i - 1] == xs[i];
        if i > 1 {
          assert xs[1..][i - 2] == xs[i - 1];
        }
      }
    }
  }

  /** A new predicate starts from `undefined`: payloads x, x, y give pass, reject, pass. */
  lemma DistinctOnRepeat(x: Data, y: Data)
    requires x != Undefined && x != y
    ensures DistinctRun(Undefined, [x, x, y]) == [true, false, true]
  {
    DistinctRunRejectsRepeats(Undefined, [x, x, y]);
  }

  /** Because `previous` starts out `undefined`, a first `undefined` payload is rejected. */
  lemma DistinctRejectsFirstUndefined(xs: seq<Data>)
    requires xs != [] && xs[0] == Undefined
    ensures !DistinctRun(Undefined, xs)[0]
  {
  }

  // ---------------------------------------------------------------------------
  // Constraint evaluation: `_.all(constraints, c => c(data))`

  /** One constraint applied to the payload, with its state advanced. */
  function CallConstraint(c: Constraint, data: Data): (bool, Constraint) {
    match c
    case Predicate(test) => (test(data), c)
    case Distinct(previous) =>
      var (pass, next) := DistinctCall(previous, data);
      (pass, Distinct(next))
  }

  predicate Passes(c: Constraint, data: Data) {
    CallConstraint(c, data).0
  }

  /** Left to right, stopping at the first constraint that fails. */
  function EvalConstraints(cs: seq<Constraint>, data: Data): (bool, seq<Constraint>)
    decreases |cs|
  {
    if cs == [] then (true, [])
    else
      var (pass, c') := CallConstraint(cs[0], data);
      if pass then
        var (ok, rest) := EvalConstraints(cs[1..], data);
        (ok, [c'] + rest)
      else
        (false, [c'] + cs[1..])
  }

  /** The index of the first constraint that fails, or the length when all pass. */
  function FirstFailure(cs: seq<Constraint>, data: Data): (k: nat)
    ensures k <= |cs|
    ensures forall j :: 0 <= j < k ==> Passes(cs[j], data)
    ensures k < |cs| ==> !Passes(cs[k], data)
  {
    if cs == [] then 0
    else if !Passes(cs[0], data) then 0
    else 1 + FirstFailure(cs[1..], data)
  }

  /**
   * All constraints hold iff each one does; the constraints up to and including
   * the first failing one are called (their state advanced), the rest are not.
   */
  lemma {:induction false} EvalConstraintsSpec(cs: seq<Constraint>, data: Data)
    decreases |cs|
    ensures EvalConstraints(cs, data).0 <==> forall i :: 0 <= i < |cs| ==> Passes(cs[i], data)
    ensures |EvalConstraints(cs, data).1| == |cs|
    ensures forall i :: 0 <= i < |cs| ==>
      EvalConstraints(cs, data).1[i] ==
        if i <= FirstFailure(cs, data) then CallConstraint(cs[i], data).1 else cs[i]
  {
    if cs != [] {
      var r := EvalConstraints(cs, data);
      var c' := CallConstraint(cs[0], data).1;
      if Passes(cs[0], data) {
        EvalConstraintsSpec(cs[1..], data);
        var rest := EvalConstraints(cs[1..], data);
        assert r == (rest.0, [c'] + rest.1);
        if rest.0 {
          forall i | 0 <= i < |cs| ensures Passes(cs[i], data) {
            if i > 0 { assert cs[i] == cs[1..][i - 1]; }
          }
        } else {
          var k :| 0 <= k < |cs[1..]| && !Passes(cs[1..][k], data);
          assert !Passes(cs[k + 1], data);
        }
        forall i | 0 < i < |cs|
          ensures r.1[i] == if i <= FirstFailure(cs, data) then CallConstraint(cs[i], data).1 else cs[i]
        {
          assert r.1[i] == rest.1[i - 1];
          assert cs[1..][i - 1] == cs[i];
        }
      } else {
        assert r.1 == [c'] + cs[1..];
      }
    }
  }

  // ---------------------------------------------------------------------------
  // onHandled and the auto-dispose countdown

  /**
   * One call of `onHandled`: the wrapped hook first, then the countdown of this
   * layer (`if (--times < 1) unsubscribe()`). Yields the hook with every
   * countdown advanced and the number of layers that asked to unsubscribe.
   */
  function Tick(h: Hook): (Hook, nat) {
    match h
    case WithDispose(fn, times) =>
      var (fn', fired) := Tick(fn);
      (WithDispose(fn', times - 1), fired + if times - 1 < 1 then 1 else 0)
    case _ => (h, 0)
  }

  /** The hook after `n` handled deliveries. */
  function Ticks(h: Hook, n: nat): Hook
    decreases n
  {
    if n == 0 then h else Ticks(Tick(h).0, n - 1)
  }

  lemma {:induction false} TicksCountDown(inner: Hook, times: int, n: nat)
    requires !inner.WithDispose?
    decreases n
    ensures Ticks(WithDispose(inner, times), n) == WithDispose(inner, times - n)
  {
    if n > 0 {
      assert Tick(WithDispose(inner, times)).0 == WithDispose(inner, times - 1);
      TicksCountDown(inner, times - 1, n - 1);
    }
  }

  /**
   * With one auto-dispose layer of `times` over a plain hook, the `j`-th handled
   * delivery asks to unsubscribe iff `j >= times`: for `times = n > 0` the first
   * `n - 1` deliveries leave the subscription in place and the `n`-th removes
   * it (later calls repeat the harmless unsubscribe, as `_.after` keeps firing).
   */
  lemma AutoDisposeOnNthDelivery(inner: Hook, times: int, j: nat)
    requires !inner.WithDispose? && j >= 1
    ensures Tick(Ticks(WithDispose(inner, times), j - 1)).1 == if j >= times then 1 else 0
  {
    TicksCountDown(inner, times, j - 1);
  }

  // ---------------------------------------------------------------------------
  // The definition and its builder methods

  /** The mutable fields of a definition, as one value. */
  datatype Fields = Fields(
    callback: Callback,
    priority: int,
    constraints: seq<Constraint>,
    maxCalls: int,
    onHandled: Hook,
    context: Context)

  /** The items of an argument that `withConstraints` probes with `_.isArray`. */
  datatype ArrayArg<T> = Array(items: seq<T>) | NotArray

  /** The index of the first non-callable item, or the length when all are callable. */
  function FirstNotCallable<T>(items: seq<Arg<T>>): (k: nat)
    ensures k <= |items|
    ensures forall i :: 0 <= i < k ==> items[i].Callable?
    ensures k < |items| ==> items[k].NotCallable?
  {
    if items == [] then 0
    else if items[0].NotCallable? then 0
    else 1 + FirstNotCallable(items[1..])
  }

  function AsConstraints(items: seq<Arg<Data -> bool>>): (cs: seq<Constraint>)
    requires forall i :: 0 <= i < |items| ==> items[i].Callable?
    ensures |cs| == |items|
    ensures forall i :: 0 <= i < |items| ==> cs[i] == Predicate(items[i].fn)
  {
    if items == [] then [] else [Predicate(items[0].fn)] + AsConstraints(items[1..])
  }

  class SubscriptionDefinition {
    const exchange: string
    const topic: string
    var callback: Callback
    var priority: int
    var constraints: seq<Constraint>
    var maxCalls: int
    var onHandled: Hook
    var context: Context

    function AllFields(): Fields
      reads this
    {
      Fields(callback, priority, constraints, maxCalls, onHandled, context)
    }

    constructor (exchange: string, topic: string, callback: Callback)
      ensures this.exchange == exchange && this.topic == topic
      ensures AllFields() == Fields(callback, DefaultPriority, [], DefaultDisposeAfter, NoOp, NoContext)
    {
      this.exchange := exchange;
      this.topic := topic;
      this.callback := callback;
      priority := DefaultPriority;
      constraints := [];
      maxCalls := DefaultDisposeAfter;
      onHandled := NoOp;
      context := NoContext;
    }

    method Defer()
      modifies this
      ensures AllFields() == old(AllFields()).(callback := Deferred(old(callback)))
    {
      callback := Deferred(callback);
    }

    method DisposeAfter(n: Numeric) returns (r: Outcome)
      modifies this
      ensures IsNaN(n) ==> r == Threw(DisposeAfterMessage) && AllFields() == old(AllFields())
      ensures !IsNaN(n) ==> r == Ok && AllFields() == old(AllFields()).(maxCalls := n.value)
    {
      if IsNaN(n) {
        return Threw(DisposeAfterMessage);
      }
      maxCalls := n.value;
      r := Ok;
    }

    /** Appends (not prepends) a fresh `DistinctPredicate`, whose `previous` is `undefined`. */
    method IgnoreDuplicates()
      modifies this
      ensures AllFields() == old(AllFields()).(constraints := old(constraints) + [Distinct(Undefined)])
    {
      constraints := constraints + [Distinct(Undefined)];
    }

    method WhenHandledThenExecute(hook: Arg<nat>) returns (r: Outcome)
      modifies this
      ensures hook.NotCallable? ==> r == Threw(HandledMessage) && AllFields() == old(AllFields())
      ensures hook.Callable? ==> r == Ok && AllFields() == old(AllFields()).(onHandled := UserHook(hook.fn))
    {
      if hook.NotCallable? {
        return Threw(HandledMessage);
      }
      onHandled := UserHook(hook.fn);
      r := Ok;
    }

    method WithConstraint(pred: Arg<Data -> bool>) returns (r: Outcome)
      modifies this
      ensures pred.NotCallable? ==> r == Threw(PredicateMessage) && AllFields() == old(AllFields())
      ensures pred.Callable? ==>
        r == Ok && AllFields() == old(AllFields()).(constraints := old(constraints) + [Predicate(pred.fn)])
    {
      if pred.NotCallable? {
        return Threw(PredicateMessage);
      }
      constraints := constraints + [Predicate(pred.fn)];
      r := Ok;
    }

    /**
     * A non-array is ignored. An array is added item by item through
     * `withConstraint`, so the items before the first non-function are kept
     * and that item's error ends the call.
     */
    method WithConstraints(predicates: ArrayArg<Arg<Data -> bool>>) returns (r: Outcome)
      modifies this
      ensures predicates.NotArray? ==> r == Ok && AllFields() == old(AllFields())
      ensures predicates.Array? ==>
        var k := FirstNotCallable(predicates.items);
        && r == (if k < |predicates.items| then Threw(PredicateMessage) else Ok)
        && AllFields() == old(AllFields()).(constraints := old(constraints) + AsConstraints(predicates.items[..k]))
    {
      r := Ok;
      if predicates.NotArray? {
        return;
      }
      var items := predicates.items;
      var k := FirstNotCallable(items);
      var i := 0;
      while i < |items|
        invariant 0 <= i <= k
        invariant r == Ok
        invariant callback == old(callback) && priority == old(priority) && maxCalls == old(maxCalls)
        invariant onHandled == old(onHandled) && context == old(context)
        invariant constraints == old(constraints) + AsConstraints(items[..i])
      {
        r := WithConstraint(items[i]);
        if r.Threw? {
          assert i == k;
          return;
        }
        assert items[..i + 1] == items[..i] + [items[i]];
        assert AsConstraints(items[..i + 1]) == AsConstraints(items[..i]) + [Predicate(items[i].fn)];
        i := i + 1;
      }
      assert items[..i] == items[..k];
    }

    method WithContext(ctx: Context)
      modifies this
      ensures AllFields() == old(AllFields()).(context := ctx)
    {
      context := ctx;
    }

    method WithDebounce(milliseconds: Numeric) returns (r: Outcome)
      modifies this
      ensures IsNaN(milliseconds) ==> r == Threw(MillisecondsMessage) && AllFields() == old(AllFields())
      ensures !IsNaN(milliseconds) ==>
        r == Ok && AllFields() == old(AllFields()).(callback := Debounced(milliseconds.value, old(callback)))
    {
      if IsNaN(milliseconds) {
        return Threw(MillisecondsMessage);
      }
      callback := Debounced(milliseconds.value, callback);
      r := Ok;
    }

    method WithDelay(milliseconds: Numeric) returns (r: Outcome)
      modifies this
      ensures IsNaN(milliseconds) ==> r == Threw(MillisecondsMessage) && AllFields() == old(AllFields())
      ensures !IsNaN(milliseconds) ==>
        r == Ok && AllFields() == old(AllFields()).(callback := Delayed(milliseconds.value, old(callback)))
    {
      if IsNaN(milliseconds) {
        return Threw(MillisecondsMessage);
      }
      callback := Delayed(milliseconds.value, callback);
      r := Ok;
    }

    /** Only the field changes: a definition already in a bucket keeps its position. */
    method WithPriority(p: Numeric) returns (r: Outcome)
      modifies this
      ensures IsNaN(p) ==> r == Threw(PriorityMessage) && AllFields() == old(AllFields())
      ensures !IsNaN(p) ==> r == Ok && AllFields() == old(AllFields()).(priority := p.value)
    {
      if IsNaN(p) {
        return Threw(PriorityMessage);
      }
      priority := p.value;
      r := Ok;
    }

    method WithThrottle(milliseconds: Numeric) returns (r: Outcome)
      modifies this
      ensures IsNaN(milliseconds) ==> r == Threw(MillisecondsMessage) && AllFields() == old(AllFields())
      ensures !IsNaN(milliseconds) ==>
        r == Ok && AllFields() == old(AllFields()).(callback := Throttled(milliseconds.value, old(callback)))
    {
      if IsNaN(milliseconds) {
        return Threw(MillisecondsMessage);
      }
      callback := Throttled(milliseconds.value, callback);
      r := Ok;
    }
  }
}
