/**
 * The key-value store behind the sessions: set with a time-to-live, get, delete.
 * Values are kept as they were written, with the time-to-live each key was given.
 * Whether a call reaches the store is decided call by call: `reachable(i)` is the fate
 * of the i-th call, and `calls` counts the calls made. A call that does not reach the
 * store rejects and changes nothing, so two calls in a row can fail one without the other.
 */
module Redis {
  import opened Wrappers
  import opened Exceptions

  class RedisService<V> {
    var entries: map<string, V>
    var ttls: map<string, nat>
    /** Whether the i-th call reaches the store. */
    const reachable: nat -> bool
    /** How many calls have been made. */
    var calls: nat

    /** Every key has the time-to-live it was last written with. */
    ghost predicate Valid()
      reads this
    {
      entries.Keys == ttls.Keys
    }

    /** The next n calls all reach the store. */
    ghost predicate Answers(n: nat)
      reads this
    {
      forall i :: calls <= i < calls + n ==> reachable(i)
    }

    constructor (reachable: nat -> bool)
      ensures Valid() && this.reachable == reachable && calls == 0
      ensures entries == map[] && ttls == map[]
    {
      entries := map[];
      ttls := map[];
      this.reachable := reachable;
      calls := 0;
    }

    method Set(key: string, value: V, ttl: nat) returns (ok: bool)
      requires Valid()
      modifies this
      ensures Valid() && calls == old(calls) + 1
      ensures ok == reachable(old(calls))
      ensures ok ==> entries == old(entries)[key := value] && ttls == old(ttls)[key := ttl]
      ensures !ok ==> entries == old(entries) && ttls == old(ttls)
    {
      ok := reachable(calls);
      calls := calls + 1;
      if ok {
        entries := entries[key := value];
        ttls := ttls[key := ttl];
      }
    }

    /** The stored value (None when the key is absent); rejects when the call does not reach the store. */
    method Get(key: string) returns (r: Result<Option<V>, Exception>)
      modifies this`calls
      ensures calls == old(calls) + 1
      ensures !reachable(old(calls)) <==> r.Failure?
      ensures r.Failure? ==> r.error == STORE_UNAVAILABLE
      ensures r.Success? ==> (r.value.Some? <==> key in entries)
      ensures r.Success? && r.value.Some? ==> r.value.value == entries[key]
    {
      var ok := reachable(calls);
      calls := calls + 1;
      if !ok {
        return Failure(STORE_UNAVAILABLE);
      }
      r := Success(if key in entries then Some(entries[key]) else None);
    }

    method Del(key: string) returns (ok: bool)
      requires Valid()
      modifies this
      ensures Valid() && calls == old(calls) + 1
      ensures ok == reachable(old(calls))
      ensures ok ==> entries == old(entries) - {key} && ttls == old(ttls) - {key}
      ensures !ok ==> entries == old(entries) && ttls == old(ttls)
    {
      ok := reachable(calls);
      calls := calls + 1;
      if ok {
        entries := entries - {key};
        ttls := ttls - {key};
      }
    }
  }
}
