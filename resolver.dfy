/**
 * `bindingsResolver`: `compare(binding, topic)` with its memo of positive results.
 * Only matches are recorded and nothing is ever removed, so the object invariant
 * `Valid` (every cached pair really matches) makes a cache hit return what a
 * fresh evaluation would.
 */
module Resolver {
  import opened Values
  import opened TopicMatch

  /**
   * `after` is the memo `before` after compares against `topic` only: no
   * entry is dropped, and only the entry of `topic` may have gained bindings.
   */
  predicate Grown(before: map<string, set<string>>, after: map<string, set<string>>, topic: string) {
    && (forall t :: t in before ==> t in after && before[t] <= after[t])
    && (forall t :: t in after && t != topic ==> t in before && after[t] == before[t])
  }

  /** Growing twice for the same topic is growing once. */
  lemma GrownTrans(c0: map<string, set<string>>, c1: map<string, set<string>>, c2: map<string, set<string>>, topic: string)
    requires Grown(c0, c1, topic) && Grown(c1, c2, topic)
    ensures Grown(c0, c2, topic)
  {
  }

  class BindingsResolver {
    /** `cache[topic]` holds the bindings already found to match `topic`. */
    var cache: map<string, set<string>>

    ghost predicate Valid()
      reads this
    {
      forall topic, binding :: topic in cache && binding in cache[topic] ==>
        WellFormed(binding) && Matches(binding, topic)
    }

    constructor ()
      ensures Valid() && cache == map[]
    {
      cache := map[];
    }

    /** The bindings cached for `topic` (none when the topic has no entry yet). */
    static function CachedFor(cache: map<string, set<string>>, topic: string): set<string> {
      if topic in cache then cache[topic] else {}
    }

    method Compare(binding: string, topic: string) returns (r: bool)
      requires Valid() && WellFormed(binding)
      modifies this
      ensures Valid()
      ensures r == Matches(binding, topic)
      ensures cache == if r then old(cache)[topic := CachedFor(old(cache), topic) + {binding}] else old(cache)
      ensures Grown(old(cache), cache, topic)
    {
      if topic in cache && binding in cache[topic] {
        assert CachedFor(cache, topic) + {binding} == cache[topic];
        assert cache[topic := cache[topic]] == cache;
        return true;
      }
      var rgx := Compile("^" + Regexify(binding) + "$");
      CompileRegexify(binding);
      r := Test(rgx.value, topic);
      if r {
        if topic !in cache {
          cache := cache[topic := {}];
        }
        cache := cache[topic := cache[topic] + {binding}];
      }
    }
  }
}
