/**
 * The `postal` facade: channels over an exchange and a binding, created on
 * demand, and the wiretap registration it forwards to the bus.
 *
 * The facade's global bus is a constant field of `Postal`; a channel takes
 * the bus it works on as a parameter.
 */
module Postal {
  import opened Values
  import opened TopicMatch
  import opened Resolver
  import opened Subscriptions
  import opened Buckets
  import opened Dispatch
  import opened Bus

  /** The exchange a channel gets when it is created from a binding alone. */
  const DefaultExchange: string := "/"

  type Table = map<string, map<string, seq<SubscriptionDefinition>>>

  /** The registry once `createChannel` has made sure the exchange and its bucket exist. */
  function WithChannel(subs: Table, ex: string, tp: string): (r: Table)
    ensures ex in r && tp in r[ex]
    ensures r.Keys == subs.Keys + {ex}
    ensures forall e :: e in subs && e != ex ==> r[e] == subs[e]
  {
    var m := if ex in subs then subs[ex] else map[];
    subs[ex := m[tp := if tp in m then m[tp] else []]]
  }

  /** Creating a channel never drops or changes a bucket that was already there. */
  lemma WithChannelKeeps(subs: Table, ex: string, tp: string)
    ensures forall e, t :: e in subs && t in subs[e] ==>
      e in WithChannel(subs, ex, tp) && t in WithChannel(subs, ex, tp)[e]
      && WithChannel(subs, ex, tp)[e][t] == subs[e][t]
    ensures ex in subs && tp in subs[ex] ==> WithChannel(subs, ex, tp) == subs
    ensures !(ex in subs && tp in subs[ex]) ==> WithChannel(subs, ex, tp)[ex][tp] == []
    ensures ex in subs ==> WithChannel(subs, ex, tp)[ex].Keys == subs[ex].Keys + {tp}
  {
    if ex in subs && tp in subs[ex] {
      assert subs[ex][tp := subs[ex][tp]] == subs[ex];
      assert subs[ex := subs[ex]] == subs;
    }
  }

  /** Creating the same channel twice leaves the registry as creating it once. */
  lemma WithChannelIdempotent(subs: Table, ex: string, tp: string)
    ensures WithChannel(WithChannel(subs, ex, tp), ex, tp) == WithChannel(subs, ex, tp)
  {
    WithChannelKeeps(WithChannel(subs, ex, tp), ex, tp);
  }

  /** An empty bucket under a well-formed binding keeps the registry's shape. */
  lemma WithChannelFits(subs: Table, ex: string, tp: string)
    requires Registry(subs) && WellFormed(tp)
    ensures Registry(WithChannel(subs, ex, tp))
  {
    var r := WithChannel(subs, ex, tp);
    forall e | e in r
      ensures ExchangeFits(r[e], e)
    {
      if e == ex {
        var m := if ex in subs then subs[ex] else map[];
        assert r[ex] == m[tp := if tp in m then m[tp] else []];
        if ex in subs {
          assert ExchangeFits(m, ex);
        }
      } else {
        assert ExchangeFits(subs[e], e);
      }
    }
  }

  /** `unsubscribe` of a definition: it takes itself off the bus it was filed on. */
  method Unsubscribe(bus: LocalBus, s: SubscriptionDefinition) returns (r: Outcome)
    requires bus.Valid()
    modifies bus
    ensures bus.Valid() && bus.wireTaps == old(bus.wireTaps)
    ensures s.exchange !in old(bus.subscriptions) ==> r == Threw(TypeError) && bus.subscriptions == old(bus.subscriptions)
    ensures s.exchange in old(bus.subscriptions) ==>
      && r == Ok
      && bus.subscriptions == if s.topic in old(bus.subscriptions)[s.exchange] then
           old(bus.subscriptions)[s.exchange := old(bus.subscriptions)[s.exchange][s.topic :=
             RemoveFirst(old(bus.subscriptions)[s.exchange][s.topic], s)]]
         else old(bus.subscriptions)
  {
    r := bus.Unsubscribe(s);
  }

  /** A channel: the exchange and binding its subscriptions and messages use. */
  class ChannelDefinition {
    const exchange: string
    const topic: string

    constructor (exchange: string, topic: string)
      ensures this.exchange == exchange && this.topic == topic
    {
      this.exchange := exchange;
      this.topic := topic;
    }

    /**
     * Makes a subscription with the default fields on this channel and files
     * it on `bus` straight away; the bucket must already exist.
     */
    method Subscribe(bus: LocalBus, callback: Callback) returns (s: SubscriptionDefinition, r: Outcome)
      requires bus.Valid()
      modifies bus
      ensures fresh(s) && s.exchange == exchange && s.topic == topic
      ensures s.AllFields() == Fields(callback, DefaultPriority, [], DefaultDisposeAfter, NoOp, NoContext)
      ensures bus.Valid() && bus.wireTaps == old(bus.wireTaps)
      ensures !(exchange in old(bus.subscriptions) && topic in old(bus.subscriptions)[exchange]) ==>
        r == Threw(TypeError) && bus.subscriptions == old(bus.subscriptions)
      ensures exchange in old(bus.subscriptions) && topic in old(bus.subscriptions)[exchange] ==>
        var b := old(bus.subscriptions)[exchange][topic];
        && r == Ok
        && bus.subscriptions == old(bus.subscriptions)[exchange := old(bus.subscriptions)[exchange][topic :=
             InsertAt(b, InsertionIndex(old(Priorities(b)), DefaultPriority), s)]]
    {
      s := new SubscriptionDefinition(exchange, topic, callback);
      if exchange in bus.subscriptions && topic in bus.subscriptions[exchange] {
        ghost var b := bus.subscriptions[exchange][topic];
        assert Priorities(b) == old(Priorities(b));
        assert s !in b;
      }
      r := bus.Subscribe(s);
    }

    /**
     * Publishes `data` on this channel; `timeStamp` stands for the clock
     * reading the source takes when it builds the envelope.
     */
    method Publish(bus: LocalBus, data: Data, timeStamp: nat)
      returns (env: Envelope, trace: seq<Event>, r: Outcome, ghost order: seq<string>)
      requires bus.Valid()
      modifies bus, bus.resolver, bus.ExchangeMembers(exchange)
      ensures env == Envelope(exchange, topic, data, timeStamp)
      ensures bus.Valid() && bus.wireTaps == old(bus.wireTaps)
      ensures Grown(old(bus.resolver.cache), bus.resolver.cache, topic)
      ensures var k := FirstNotCallable(bus.wireTaps);
        k < |bus.wireTaps| ==>
          && r == Threw(TypeError)
          && trace == TapEvents(bus.wireTaps[..k], env)
          && bus.subscriptions == old(bus.subscriptions)
          && bus.resolver.cache == old(bus.resolver.cache)
          && forall s :: s in old(bus.ExchangeMembers(exchange)) ==> s.AllFields() == old(s.AllFields())
      ensures FirstNotCallable(bus.wireTaps) == |bus.wireTaps| && exchange !in old(bus.subscriptions) ==>
        r == Ok && trace == TapEvents(bus.wireTaps, env) && bus.subscriptions == old(bus.subscriptions)
        && bus.resolver.cache == old(bus.resolver.cache)
      ensures FirstNotCallable(bus.wireTaps) == |bus.wireTaps| && exchange in old(bus.subscriptions) ==>
        var m := old(bus.subscriptions)[exchange];
        var views := old(ViewOf(Members(m)));
        && r == Ok
        && NoDup(order) && (forall tp :: tp in order <==> tp in m)
        && trace == TapEvents(bus.wireTaps, env) + TraceAll(BucketsIn(m, order), views, env)
        && bus.subscriptions == old(bus.subscriptions)[exchange := map tp | tp in m :: Survivors(m[tp], views, env)]
        && forall tp, s :: tp in m && s in m[tp] ==> Done(s, views, env)
    {
      env := Envelope(exchange, topic, data, timeStamp);
      trace, r, order := bus.Publish(env);
    }
  }

  /** The facade: the bus every channel it creates works on. */
  class Postal {
    const bus: LocalBus

    constructor (bus: LocalBus)
      ensures this.bus == bus
    {
      this.bus := bus;
    }

    /**
     * `createChannel` with its arguments as given: two arguments are an
     * exchange and a binding, any other count takes the first as the binding
     * on the default exchange. The exchange and the bucket are created when
     * missing, and an existing bucket is kept as it is.
     */
    method CreateChannel(args: seq<string>) returns (ch: ChannelDefinition)
      requires 1 <= |args|
      requires WellFormed(if |args| == 2 then args[1] else args[0])
      requires bus.Valid()
      modifies bus
      ensures fresh(ch)
      ensures ch.exchange == (if |args| == 2 then args[0] else DefaultExchange)
      ensures ch.topic == (if |args| == 2 then args[1] else args[0])
      ensures bus.Valid() && bus.wireTaps == old(bus.wireTaps)
      ensures bus.subscriptions == WithChannel(old(bus.subscriptions), ch.exchange, ch.topic)
    {
      var ex := if |args| == 2 then args[0] else DefaultExchange;
      var tp := if |args| == 2 then args[1] else args[0];
      var subs := bus.subscriptions;
      if ex !in subs {
        subs := subs[ex := map[]];
      }
      if tp !in subs[ex] {
        subs := subs[ex := subs[ex][tp := []]];
      } else {
        assert subs[ex][tp := subs[ex][tp]] == subs[ex];
      }
      assert subs == WithChannel(bus.subscriptions, ex, tp);
      WithChannelFits(bus.subscriptions, ex, tp);
      bus.subscriptions := subs;
      ch := new ChannelDefinition(ex, tp);
    }

    /** Forwards a wiretap to the bus. */
    method AddWireTap(tap: Arg<nat>)
      requires bus.Valid()
      modifies bus
      ensures bus.Valid()
      ensures bus.wireTaps == old(bus.wireTaps) + [tap]
      ensures bus.subscriptions == old(bus.subscriptions)
    {
      bus.AddWireTap(tap);
    }
  }
}
