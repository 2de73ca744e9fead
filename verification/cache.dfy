/**
 * A time-to-live key/value cache with lazy expiry. The store is a map from
 * key to (value, expiry instant); the current time in milliseconds is an
 * explicit `now` argument instead of a clock read.
 */
module TtlCache {
  import opened Wrappers

  datatype Entry<T> = Entry(value: T, expiresAt: int)

  datatype Cache<T> = Cache(defaultTtl: int, store: map<string, Entry<T>>)

  /** The value `get` returns together with the cache after the lookup. */
  datatype Lookup<T> = Lookup(value: Option<T>, cache: Cache<T>)

  /** `new TtlCache(defaultTtlMs)`: an empty store. */
  function New<T>(defaultTtl: int): (c: Cache<T>)
    ensures c.defaultTtl == defaultTtl
    ensures forall k :: k !in c.store
  {
    Cache(defaultTtl, map[])
  }

  /** An entry is live at `now` up to and including its expiry instant. */
  predicate Live<T>(e: Entry<T>, now: int) {
    now <= e.expiresAt
  }

  /** `get`: the stored value while live; an expired entry is deleted on read. */
  function Get<T>(c: Cache<T>, key: string, now: int): (r: Lookup<T>)
    ensures r.value.Some? <==> key in c.store && Live(c.store[key], now)
    ensures r.value.Some? ==> r.value.value == c.store[key].value && r.cache == c
    ensures key !in c.store ==> r.cache == c
    ensures key in c.store && !Live(c.store[key], now) ==> r.cache == c.(store := c.store - {key})
    ensures r.cache.defaultTtl == c.defaultTtl
    ensures key !in r.cache.store || r.cache.store[key] == c.store[key]
    ensures forall k :: k != key ==> (k in r.cache.store <==> k in c.store)
    ensures forall k :: k != key && k in c.store ==> r.cache.store[k] == c.store[k]
  {
    if key !in c.store then Lookup(None, c)
    else
      var hit := c.store[key];
      if now > hit.expiresAt then Lookup(None, c.(store := c.store - {key}))
      else Lookup(Some(hit.value), c)
  }

  /** `set`: store `value` under `key` until `now + ttl`, using the default TTL when none is given. */
  function Set<T>(c: Cache<T>, key: string, value: T, ttl: Option<int>, now: int): (c': Cache<T>)
    ensures key in c'.store && c'.store[key].value == value
    ensures ttl.Some? ==> c'.store[key].expiresAt == now + ttl.value
    ensures ttl.None? ==> c'.store[key].expiresAt == now + c.defaultTtl
    ensures c'.defaultTtl == c.defaultTtl
    ensures forall k :: k != key ==> (k in c'.store <==> k in c.store)
    ensures forall k :: k != key && k in c.store ==> c'.store[k] == c.store[k]
  {
    c.(store := c.store[key := Entry(value, now + ttl.GetOr(c.defaultTtl))])
  }

  /** `clear`: empty the store. */
  function Clear<T>(c: Cache<T>): (c': Cache<T>)
    ensures c'.defaultTtl == c.defaultTtl
    ensures forall k :: k !in c'.store
  {
    c.(store := map[])
  }

  /** A read no later than `now + ttl` after a write returns the written value. */
  lemma SetThenGet<T>(c: Cache<T>, key: string, value: T, ttl: Option<int>, t: int, now: int)
    requires now <= t + ttl.GetOr(c.defaultTtl)
    ensures Get(Set(c, key, value, ttl, t), key, now).value == Some(value)
  {
  }

  /** A read strictly after `t + ttl` misses and removes only that key. */
  lemma SetThenExpire<T>(c: Cache<T>, key: string, value: T, ttl: Option<int>, t: int, now: int)
    requires now > t + ttl.GetOr(c.defaultTtl)
    ensures var r := Get(Set(c, key, value, ttl, t), key, now);
            r.value.None? && r.cache.store == c.store - {key}
  {
    var c' := Set(c, key, value, ttl, t);
    assert c'.store - {key} == c.store - {key};
  }

  /** Writing one key does not change what a read of another key returns. */
  lemma SetOtherKey<T>(c: Cache<T>, key: string, other: string, value: T, ttl: Option<int>, t: int, now: int)
    requires other != key
    ensures Get(Set(c, key, value, ttl, t), other, now).value == Get(c, other, now).value
  {
  }

  /** The last write to a key wins. */
  lemma LastWriteWins<T>(c: Cache<T>, key: string, v1: T, v2: T, ttl1: Option<int>, ttl2: Option<int>, t1: int, t2: int)
    ensures Set(Set(c, key, v1, ttl1, t1), key, v2, ttl2, t2) == Set(c, key, v2, ttl2, t2)
  {
  }

  /** After `clear`, every read misses and leaves the cache empty. */
  lemma ClearThenGet<T>(c: Cache<T>, key: string, now: int)
    ensures Get(Clear(c), key, now) == Lookup(None, Clear(c))
  {
  }
}
