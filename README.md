# postal.js 0.1.0 in Dafny

This project models the in-memory message bus of postal.js 0.1.0 (`build/output/browser/postal.js`) and proves properties of it:

- **Channels.** `createChannel` makes sure that an exchange and its bucket exist. The channel's `subscribe` and `publish` hand work to the bus.
- **Subscription definitions.** A `SubscriptionDefinition` carries a callback, a priority, constraint predicates, an auto-dispose count, an `onHandled` hook and a context. Its builder methods reassign those fields. A builder throws when its argument is `NaN` or is not a function.
- **`DistinctPredicate`.** This is the stateful constraint that `ignoreDuplicates` installs. It rejects a payload equal to the payload of the call before it.
- **The bindings resolver.**
  - `regexify` turns a binding into a regular expression with three chained replacements:
    - `.` becomes a literal dot;
    - `*` becomes "any run";
    - `#` becomes "a run of `[A-Z,a-z,0-9]`".
  - `compare` anchors that expression, tests the topic against it and memoises the positive answers.
- **The local bus.**
  - The registry is exchange → binding → bucket. `subscribe` files a new definition just after the last member whose priority is at most its own. So inserting into a bucket that is sorted by priority keeps it sorted, with equal priorities in arrival order (`InsertKeepsSorted`, and `BucketInsertKeepsSorted` on a bucket of definitions). `withPriority` on a definition that is already filed does not move it, so a bucket need not stay sorted, and the model does not claim it does.
  - `subscribe` files a definition, `unsubscribe` splices it out and `addWireTap` records a tap.
  - `publish` first hands the envelope to every wiretap. It then walks every bucket of the envelope's exchange. A subscription gets the payload, followed by its `onHandled` hook, when three things hold:
    - its binding matches the topic;
    - all its constraints pass;
    - its callback is a function.

    The auto-dispose hook that `subscribe` installs when `maxCalls` is positive unsubscribes the subscription on its `maxCalls`-th delivery.
  - The source walks each bucket's live array, which a self-disposing subscription splices while the walk is going on. The model's `Publish` walks a snapshot of the bucket instead, which is the corrected behaviour. The as-written walk and the input that shows the difference are under "## Findings".

How the model is built:

- **Mutable objects are Dafny classes.** `SubscriptionDefinition`, `BindingsResolver`, `LocalBus`, `ChannelDefinition` and the `postal` facade are classes, and their methods reassign the fields that the source reassigns.
- **Closure state is stored as values.** Two closures keep state: the `previous` payload of a `DistinctPredicate` and the countdown of `_.after`. The model stores that state as values inside the `constraints` and `onHandled` fields. A call yields the advanced value, and the bus writes it back.
- **A publish is specified against snapshots.** Module `Dispatch` states a publish with functions of the subscriptions' fields as they were when the publish began. `Trace` gives the observable events in order. `Survivors` gives the bucket after self-disposal. `LocalBus.Publish` is proved equal to those functions.
- **Topic matching uses a backtracking matcher.** The matcher runs over the constructs that `regexify` can emit. It is proved equal to a declarative reading of the grammar. The expression that `regexify` builds is proved to parse back to exactly the binding's constructs.

Inputs from outside the program become parameters:

- the clock reading for `timeStamp`;
- the order in which an exchange's buckets are walked. That order is the object's key order, which the model leaves open: `Publish` returns the order it took as a ghost result.

## Model

| member | source | states |
|---|---|---|
| Subscriptions.DistinctRunRejectsRepeats | build/output/browser/postal.js:14-28 | over any run of calls on one predicate, call i passes exactly when its payload differs from the payload of call i-1, or from the starting `previous` for the first call; it does not matter whether that earlier call passed |
| Subscriptions.DistinctOnRepeat | build/output/browser/postal.js:14-28 | a fresh predicate given x, x, y answers pass, reject, pass |
| Subscriptions.DistinctRejectsFirstUndefined | build/output/browser/postal.js:14-28 | `previous` starts out undefined, so a first undefined payload is rejected |
| Subscriptions.FirstFailure | build/output/browser/postal.js:196 | the constraints before the returned index all pass, and the constraint at it fails |
| Subscriptions.EvalConstraintsSpec | build/output/browser/postal.js:196 | `_.all` over the constraints holds iff every constraint passes; exactly the constraints up to the first failing one are called and have their state advanced, and the rest are left untouched |
| Subscriptions.TicksCountDown | build/output/browser/postal.js:209-218 | after n handled deliveries the auto-dispose wrapper's countdown has dropped by n and the wrapped hook is the same |
| Subscriptions.AutoDisposeOnNthDelivery | build/output/browser/postal.js:209-218 | the j-th handled delivery asks to unsubscribe exactly when j >= maxCalls |
| Subscriptions.FirstNotCallable | build/output/browser/postal.js:103-109 | every item before the returned index is a function, and the item at it is not |
| Subscriptions.AsConstraints | build/output/browser/postal.js:103-109 | the constraints are the items' predicates, one per item and in the same order |
| Subscriptions.SubscriptionDefinition.constructor | build/output/browser/postal.js:50-59 | the exchange, binding and callback are the given ones; priority 50, no constraints, maxCalls 0, a no-op `onHandled` and no context |
| Subscriptions.SubscriptionDefinition.Defer | build/output/browser/postal.js:66-72 | the callback is wrapped in a deferring function over the old callback, and no other field changes |
| Subscriptions.SubscriptionDefinition.DisposeAfter | build/output/browser/postal.js:74-80 | NaN throws the source's message and changes nothing; any other number becomes maxCalls and no other field changes |
| Subscriptions.SubscriptionDefinition.IgnoreDuplicates | build/output/browser/postal.js:82-85 | a fresh distinct predicate (previous undefined) is appended after the existing constraints |
| Subscriptions.SubscriptionDefinition.WhenHandledThenExecute | build/output/browser/postal.js:87-93 | a non-function throws and changes nothing; a function becomes `onHandled` |
| Subscriptions.SubscriptionDefinition.WithConstraint | build/output/browser/postal.js:95-101 | a non-function throws and changes nothing; a function is appended as the last constraint |
| Subscriptions.SubscriptionDefinition.WithConstraints | build/output/browser/postal.js:103-109 | a non-array is ignored; for an array, the items before the first non-function are appended in order, and that item, if there is one, makes the call throw |
| Subscriptions.SubscriptionDefinition.WithContext | build/output/browser/postal.js:111-114 | only the context changes, to the given one |
| Subscriptions.SubscriptionDefinition.WithDebounce | build/output/browser/postal.js:116-123 | NaN throws and changes nothing; otherwise the callback is wrapped in a debouncer with that delay, and nothing else changes |
| Subscriptions.SubscriptionDefinition.WithDelay | build/output/browser/postal.js:125-134 | NaN throws and changes nothing; otherwise the callback is wrapped in a delayed call with that delay |
| Subscriptions.SubscriptionDefinition.WithPriority | build/output/browser/postal.js:136-142 | NaN throws and changes nothing; otherwise only the priority field changes, and an already filed definition is not moved |
| Subscriptions.SubscriptionDefinition.WithThrottle | build/output/browser/postal.js:144-151 | NaN throws and changes nothing; otherwise the callback is wrapped in a throttle with that interval |
| TopicMatch.ReplaceAllAppend | build/output/browser/postal.js:172-174 | a global single-character replacement distributes over concatenation |
| TopicMatch.RegexifyCons | build/output/browser/postal.js:171-175 | the three chained replacements never rewrite each other's output: each binding character is translated on its own |
| TopicMatch.ParsePiece | build/output/browser/postal.js:171-175 | the translation of one character parses back to that character's construct |
| TopicMatch.ParseRegexify | build/output/browser/postal.js:171-175 | for a binding over the modelled alphabet, the output of `regexify` parses to exactly the binding's construct sequence |
| TopicMatch.CompileRegexify | build/output/browser/postal.js:160 | the anchored expression `^…$` that `compare` builds compiles to exactly the binding's construct sequence |
| TopicMatch.TestIffAccepts | build/output/browser/postal.js:161 | the backtracking test accepts a topic iff the topic splits into consecutive pieces: one literal per literal, a line-terminator-free run per `*`, and a word-character run per `#` |
| TopicMatch.MatchesIffAccepts | build/output/browser/postal.js:160-161 | a binding matches a topic iff the declarative reading of the binding accepts the topic |
| TopicMatch.LiteralBindingMatchesOnlyItself | build/output/browser/postal.js:171-175 | a binding without `*` or `#` matches the identical topic and nothing else |
| TopicMatch.StarSpansAnyRun | build/output/browser/postal.js:173 | `a.*.c` matches `a.b.c` and `a.bb.c` |
| TopicMatch.StarKeepsTheSuffix | build/output/browser/postal.js:173 | `a.*.c` does not match `a.b.d` |
| TopicMatch.TrailingWordRun | build/output/browser/postal.js:174 | a trailing `#` accepts the rest of the topic iff every remaining character is a letter, a digit or a comma |
| TopicMatch.HashTail | build/output/browser/postal.js:174 | `a.#` matches `a.` followed by s iff s consists of word characters |
| TopicMatch.HashSpansWordCharacters | build/output/browser/postal.js:174 | `a.#` matches `a.`, `a.bc123` and `a.b,c` (the comma is a class member) |
| TopicMatch.HashStopsAtDot | build/output/browser/postal.js:174 | `a.#` does not match `a.b.c`: `#` does not cross a dot |
| TopicMatch.EmptyBindingMatchesOnlyEmptyTopic | build/output/browser/postal.js:160-161 | the empty binding matches only the empty topic |
| Resolver.BindingsResolver.constructor | build/output/browser/postal.js:153-154 | the cache starts empty |
| Resolver.BindingsResolver.Compare | build/output/browser/postal.js:156-169 | the answer is whether the binding matches the topic, whether or not the cache was hit; a match is recorded under the topic, a mismatch leaves the cache alone, no entry is ever removed, and no other topic's entry changes (`Grown`) |
| Buckets.InsertionIndex | build/output/browser/postal.js:221-232 | the slot just after the last member whose priority is at most the new priority, or 0 if there is none; every member after the slot has a higher priority |
| Buckets.InsertionIndexUnique | build/output/browser/postal.js:221-232 | those two conditions pin down a single slot |
| Buckets.InsertKeepsSorted | build/output/browser/postal.js:221-232 | in a bucket sorted by priority, the new member lands after every member of lower or equal priority and before every higher one, and the bucket stays sorted |
| Buckets.InsertNoDup | build/output/browser/postal.js:222-233 | inserting a member not already present keeps the bucket free of duplicates and adds exactly that member |
| Buckets.IndexOf | build/output/browser/postal.js:242-243 | the position of the first entry identical to the member |
| Buckets.RemoveFirstAbsent | build/output/browser/postal.js:238-249 | removing a member that is not in the bucket leaves the bucket as it was |
| Buckets.RemoveFirstAt | build/output/browser/postal.js:242-245 | removal splices out exactly the first identical entry |
| Buckets.RemoveFirstMultiset | build/output/browser/postal.js:238-249 | removal takes one copy of the member out of the bucket's multiset and nothing else |
| Buckets.RemoveKeepsSorted | build/output/browser/postal.js:244 | splicing one entry out of a sorted bucket keeps it sorted |
| Bus.BucketInsertKeepsSorted | build/output/browser/postal.js:221-232 | on a bucket of definitions whose priorities are sorted, `subscribe`'s splice puts the new priority at `InsertionIndex` and the bucket's priorities stay sorted |
| Bus.PrioritiesRemove | build/output/browser/postal.js:240-248 | `unsubscribe`'s splice takes exactly the removed member's priority out of the bucket's priorities |
| Bus.BucketRemoveKeepsSorted | build/output/browser/postal.js:240-248 | `unsubscribe`'s splice keeps a bucket's sorted priorities sorted |
| Buckets.RemoveFirstNoDup | build/output/browser/postal.js:238-249 | removal keeps a duplicate-free bucket duplicate-free, and the member is gone afterwards |
| Buckets.RemoveFirstJoin | build/output/browser/postal.js:242-245 | removing x from front + [x] + back, where x is not in front, gives front + back |
| Bus.Place | build/output/browser/postal.js:221-232 | the downward search with its `found` flag inserts the definition at InsertionIndex |
| Bus.ReplaceBucket | build/output/browser/postal.js:225 | putting a bucket that fits its keys in place of another keeps the registry well-formed |
| Bus.InsertFits | build/output/browser/postal.js:225-231 | a new definition filed under its own exchange and binding keeps the bucket's shape |
| Bus.LocalBus.constructor | build/output/browser/postal.js:177-181 | there are no subscriptions and no wiretaps |
| Bus.LocalBus.Subscribe | build/output/browser/postal.js:207-236 | a non-zero maxCalls wraps `onHandled` in the auto-dispose countdown, even for a definition that is already filed; a missing exchange or bucket throws a TypeError and the registry is unchanged; otherwise the definition is inserted at InsertionIndex unless that instance is already in the bucket, and nothing else changes |
| Bus.LocalBus.File | build/output/browser/postal.js:221-233 | the part of `subscribe` after the lookup: a duplicate leaves the bucket as it is, and a new definition is inserted at InsertionIndex |
| Bus.LocalBus.Unsubscribe | build/output/browser/postal.js:238-249 | a missing exchange throws a TypeError; a missing bucket changes nothing; otherwise the first entry identical to the definition is spliced out, and no other bucket changes |
| Bus.LocalBus.AddWireTap | build/output/browser/postal.js:251-252 | the tap is appended, any value is accepted, and the subscriptions are unchanged |
| Bus.LocalBus.Visit | build/output/browser/postal.js:194-202 | one subscription is processed as `Process` says: the events, its new constraint and hook state, and its removal when the countdown fires; the resolver's cache only grows, and only under the envelope's topic |
| Bus.LocalBus.Advance | build/output/browser/postal.js:194-203 | one step of the bucket walk emits that member's events and moves the bucket from the survivors of the first i members to the survivors of the first i+1; the resolver's cache only grows, and only under the envelope's topic |
| Bus.LocalBus.DispatchBucket | build/output/browser/postal.js:194-203 | walking a bucket emits Trace of the bucket as it stood at the start; the bucket becomes its Survivors; every member ends in its processed state; the resolver's cache only grows, and only under the envelope's topic |
| Bus.LocalBus.CallWireTaps | build/output/browser/postal.js:184-191 | the taps are called in order, each with the envelope; the call fails with a TypeError exactly when a tap is not a function, and then only the taps before it have run |
| Bus.LocalBus.Sweep | build/output/browser/postal.js:193-204 | walking the bucket under one binding emits its Trace and replaces it by its survivors; every other bucket is unchanged, and the members of buckets not yet walked keep their fields; the resolver's cache only grows, and only under the envelope's topic |
| Bus.LocalBus.DispatchExchange | build/output/browser/postal.js:193-204 | every bucket of the exchange is walked exactly once, in some order; the events are the buckets' traces concatenated in that order; each bucket becomes its survivors; the resolver's cache only grows, and only under the envelope's topic |
| Bus.LocalBus.Publish | build/output/browser/postal.js:183-205 | the taps run first; a non-function tap throws before any subscription is reached and the registry is unchanged; an unknown exchange delivers nothing; otherwise every bucket of the exchange is walked as DispatchExchange states, and the wiretaps are never changed. The resolver's cache keeps every entry and can gain bindings only under the envelope's topic; a throwing tap or an unknown exchange leaves it as it was |
| Dispatch.ProcessSpec | build/output/browser/postal.js:195-201 | a subscription is delivered to iff its binding matches the topic, every constraint passes and its callback is a function; only a delivery advances `onHandled` or can unsubscribe; an unmatched subscription's constraints are not called |
| Dispatch.TraceAppend | build/output/browser/postal.js:194 | the trace of two consecutive parts of a bucket is their traces concatenated |
| Dispatch.TraceSpec | build/output/browser/postal.js:194-201 | a callback is invoked during the walk iff its subscription is in the bucket and is delivered to, with the envelope's payload and the subscription's own context; each invocation is immediately followed by that subscription's `onHandled` |
| Dispatch.TraceOnce | build/output/browser/postal.js:194-201 | in a bucket holding each member once, a member's callback is invoked exactly once when it is delivered to and never otherwise, and its `onHandled` runs exactly as often |
| Dispatch.StoredOrder | build/output/browser/postal.js:194-198 | in a bucket holding each member once, both of two delivered members are invoked, and every invocation of the earlier-stored one comes before every invocation of the later one |
| Dispatch.PriorityOrder | build/output/browser/postal.js:194-198 | in a duplicate-free bucket sorted by priority, both of two delivered members of different priorities are invoked, and every invocation of the lower-priority one comes before every invocation of the higher-priority one |
| Dispatch.TracePrefix | build/output/browser/postal.js:194 | the trace of a prefix of the bucket is a prefix of the bucket's trace |
| Dispatch.SurvivorsSpec | build/output/browser/postal.js:211-213 | after a walk a member is still in the bucket iff it was there and its countdown did not fire; the bucket never grows |
| Dispatch.SurvivorsNoDup | build/output/browser/postal.js:238-249 | the survivors of a duplicate-free bucket are duplicate-free members of it |
| Dispatch.TraceStep | build/output/browser/postal.js:194-203 | visiting member i appends that member's events to the trace |
| Dispatch.SurvivorsStep | build/output/browser/postal.js:211-213 | visiting member i either keeps it or splices its first occurrence out of the current bucket, in step with Survivors |
| Dispatch.TraceAllStep | build/output/browser/postal.js:193 | walking one more bucket appends that bucket's trace to the exchange's trace |
| Dispatch.WalkedStep | build/output/browser/postal.js:193 | taking one more unvisited binding keeps the visit order duplicate-free and matching the bindings visited |
| Dispatch.SweptAll | build/output/browser/postal.js:193-204 | once no binding is left, the exchange holds each bucket's survivors |
| Dispatch.LiveVisitsAllWithoutDisposal | build/output/browser/postal.js:194 | a live walk in which no member removes itself visits the whole bucket in order |
| Dispatch.LiveWalkSkipsNeighbour | build/output/browser/postal.js:194-203 | in [x, y], when x's auto-dispose fires, the live walk visits only x; without disposal it visits x and y |
| Postal.WithChannel | build/output/browser/postal.js:270-275 | afterwards the exchange and its bucket exist, the other exchanges are unchanged, and exactly one exchange key may have been added |
| Postal.WithChannelKeeps | build/output/browser/postal.js:270-275 | no existing bucket is dropped or changed; an existing channel leaves the registry as it was; a new bucket is empty |
| Postal.WithChannelIdempotent | build/output/browser/postal.js:270-275 | creating the same channel twice has the effect of creating it once |
| Postal.WithChannelFits | build/output/browser/postal.js:270-275 | an empty bucket under a well-formed binding keeps the registry well-formed |
| Postal.Unsubscribe | build/output/browser/postal.js:62-64 | a definition's `unsubscribe` has exactly the bus's `unsubscribe` effect on itself |
| Postal.ChannelDefinition.constructor | build/output/browser/postal.js:29-32 | the channel keeps the given exchange and binding |
| Postal.ChannelDefinition.Subscribe | build/output/browser/postal.js:35-39 | a fresh definition with the channel's exchange and binding and all-default fields is filed at the InsertionIndex of priority 50; a missing bucket throws a TypeError and leaves the registry unchanged |
| Postal.ChannelDefinition.Publish | build/output/browser/postal.js:41-48 | the envelope carries the channel's exchange and binding, the payload and the time stamp. It is published as LocalBus.Publish states: a throwing tap leaves the registry and every member's fields unchanged, and otherwise every member of the exchange ends in its processed state. The resolver's cache keeps every entry and grows only under the channel's binding, and it is untouched when nothing is walked |
| Postal.Postal.constructor | build/output/browser/postal.js:261-265 | the facade is configured with the given bus |
| Postal.Postal.CreateChannel | build/output/browser/postal.js:267-277 | two arguments are an exchange and a binding; any other count uses the first argument as the binding on exchange "/"; the registry becomes WithChannel of the old one, and the wiretaps are unchanged |
| Postal.Postal.AddWireTap | build/output/browser/postal.js:279-281 | the tap is appended to the bus's wiretaps, and nothing else changes |

## Left out

- The timer decorators (`defer`, `withDelay`, `withDebounce`, `withThrottle`) are modelled only as the callback wrapper they install. Scheduling, and which deferred calls actually run, is not modelled.
- The clock is not modelled: `new Date()` in a channel's `publish` becomes the `timeStamp` parameter.
- `_.isEqual` and `_.clone` are abstracted. A payload is a string, `undefined` or an object summarised by its shape. Structural equality is equality of those values, and a clone is the value itself.
- Only `NaN` and integers are modelled as arguments of the `_.isNaN` guards. Fractional numbers and non-numeric values are not.
- The host's regular-expression engine is replaced by the matcher over the three constructs that `regexify` emits.
- Bindings with regular-expression metacharacters (`\ ^ $ + ? ( ) [ ] { } |`) are not modelled. `regexify` leaves those characters unescaped.
- Resolver.BindingsResolver.Compare: requires a binding free of those metacharacters, which the source does not demand.
- Resolver.BindingsResolver.Compare: the cache is modelled as a map with no inherited keys.
  - The source's cache is a plain object, and its truthiness test reads inherited `Object.prototype` members.
  - Topics or bindings that name such members (`constructor`, `toString`, `__proto__`, …) are not modelled.
  - Example: in the source, `compare("name", "constructor")` finds `cache["constructor"]`, which is the `Object` function, and `Object["name"]`, which is `"Object"`. It therefore returns true although `^name$` does not match `constructor`. The model returns false.
- The registry and the resolver's cache are modelled as maps with no inherited keys.
  - The source's registry and cache are plain objects, whose lookups and truthiness tests also see inherited `Object.prototype` members.
  - This holds for every operation that reads them: `subscribe`, `unsubscribe`, `publish`, `compare` and `createChannel`.
  - Exchange, binding or topic names that name such members are not modelled.
- Bus.LocalBus.Unsubscribe: the same inherited-key gap.
  - Example: for a definition whose exchange is `constructor`, the source reads the inherited `Object` function, and its binding property is `undefined`, so `unsubscribe` returns without throwing.
  - The model's `Unsubscribe` throws a TypeError there.
- Postal.Postal.CreateChannel: the registry is modelled as maps with no inherited keys.
  - The source's registry is a plain object.
  - Exchange or binding names that are inherited `Object.prototype` members are not modelled.
  - Example: `createChannel("__proto__", "x")` finds `subscriptions["__proto__"]` truthy and assigns `x` on `Object.prototype`, instead of creating an exchange. The model adds an exchange key.
- Postal.Postal.CreateChannel: requires a binding free of those metacharacters, which the source does not demand.
- Postal.Postal.CreateChannel: calling `createChannel` with no argument (binding `undefined`) is not modelled.
- The order in which `publish` visits the buckets of an exchange is left open. The object's key order (integer-like keys first, then insertion order) is not modelled.
- Callbacks and hooks are values. A publish records each callback invocation and each `onHandled` call as an event.
- A caller's constraint is modelled as a pure predicate `Data -> bool`. Its calls are not recorded as events.
- A callback, hook or constraint that calls back into the bus (re-entrant publish or subscribe) is not modelled, and neither is one that throws.
- A `DistinctPredicate` or an auto-dispose wrapper shared between two definitions is not modelled. Each definition owns its closure state.
- The unsubscribe function that `subscribe` returns is not modelled. Calling `Unsubscribe` on the definition has the same effect.
- The remover function that `addWireTap` returns is not modelled. It depends on the receiver it is called with.
- Bus.LocalBus.Subscribe: assumes an `_.after` without an immediate call for a non-positive count, as in underscore 1.5 and later. The model counts down for every non-zero `maxCalls`, so a negative count disposes on the first delivery.
  - Under underscore 1.4, `_.after` calls its function at once when the count is not positive. A negative `maxCalls` would then unsubscribe inside `subscribe` and leave `dispose` undefined, so the first delivery would throw a TypeError.
  - That behaviour is not modelled. For a positive `maxCalls`, both versions agree with the model.
- Subscriptions.AutoDisposeOnNthDelivery: the same assumption about `_.after`. Its statement is the source's behaviour for a positive `maxCalls` under every underscore version.
- Installing `postal` on the global object is not modelled, and neither is the surrounding module wrapper.

## Findings

| source | as written | input that shows it | evidently intended | confidence | as-written member | corrected member |
|---|---|---|---|---|---|---|
| build/output/browser/postal.js:194-203 | The inner `_.each` iterates the live bucket array. A subscription's auto-dispose hook splices that same array during the iteration. | On one channel, x = `ch.subscribe(f).disposeAfter(1)`. Calling the bus's `subscribe(x)` again installs the auto-dispose wrapper, and x keeps its slot because it is already filed. Then y = `ch.subscribe(g)` is filed after x at the same priority. One `ch.publish(d)` removes x when x is delivered to, and y, which moves into x's index, is never called. | Every subscription present when the publish starts is offered the message, as in a walk over a snapshot of the bucket. | not executed | Dispatch.LiveWalkSkipsNeighbour | Bus.LocalBus.DispatchBucket |
