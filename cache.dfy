/**
 * The Redis cache wrapper: a lazily created client handle whose readiness
 * gates every operation, and a key-value store whose entries carry an optional
 * expiry. Every failure is absorbed: a read that fails is a miss, a write or a
 * deletion that fails changes nothing.
 */
module RedisCache {
  import opened Options
  import opened Text

  /** The client handle; `ready` stands for the client's status being 'ready'. */
  class Connection {
    var ready: bool

    /** A new client is still connecting. */
    constructor ()
      ensures !ready
    {
      ready := false;
    }
  }

  /** A stored value (serialisation is the identity) and its expiry in seconds, if any. */
  datatype Entry<V> = Entry(value: V, ttl: Option<nat>)

  type Entries<V> = map<string, Entry<V>>

  /** `SET key value EX ttl` for a positive ttl; a plain `SET` (no expiry) otherwise. */
  function ExpiryFor(ttlSeconds: int): (t: Option<nat>)
    ensures t.Some? <==> ttlSeconds > 0
    ensures t.Some? ==> t.value == ttlSeconds
  {
    if ttlSeconds > 0 then Some(ttlSeconds) else None
  }

  /** The value stored under `key`, if any. */
  function Lookup<V>(entries: Entries<V>, key: string): (v: Option<V>)
    ensures v.Some? <==> key in entries
    ensures v.Some? ==> entries[key].value == v.value
  {
    if key in entries then Some(entries[key].value) else None
  }

  /** The store after a successful `SET`. */
  function Stored<V>(entries: Entries<V>, key: string, value: V, ttlSeconds: int): (r: Entries<V>)
    ensures r.Keys == entries.Keys + {key}
    ensures r[key] == Entry(value, ExpiryFor(ttlSeconds))
    ensures forall k | k in entries && k != key :: r[k] == entries[k]
  {
    entries[key := Entry(value, ExpiryFor(ttlSeconds))]
  }

  /** The store after `KEYS prefix*` followed by `DEL` of every key found. */
  function WithoutPrefix<V>(entries: Entries<V>, prefix: string): (r: Entries<V>)
    ensures forall k :: k in r <==> k in entries && !StartsWith(k, prefix)
    ensures forall k | k in r :: r[k] == entries[k]
  {
    map k | k in entries && !StartsWith(k, prefix) :: entries[k]
  }

  /** Round trip: a value just set is what a read of its key returns. */
  lemma SetThenGet<V>(entries: Entries<V>, key: string, value: V, ttlSeconds: int)
    ensures Lookup(Stored(entries, key, value, ttlSeconds), key) == Some(value)
  {
  }

  /** A `SET` touches its own key only. */
  lemma SetLeavesOtherKeys<V>(entries: Entries<V>, key: string, value: V, ttlSeconds: int, other: string)
    requires other != key
    ensures Lookup(Stored(entries, key, value, ttlSeconds), other) == Lookup(entries, other)
  {
  }

  /** Deleting by prefix a second time changes nothing. */
  lemma WithoutPrefixIdempotent<V>(entries: Entries<V>, prefix: string)
    ensures WithoutPrefix(WithoutPrefix(entries, prefix), prefix) == WithoutPrefix(entries, prefix)
  {
  }

  /** Two prefix deletions (as run side by side under `Promise.all`) may happen in either order. */
  lemma WithoutPrefixCommutes<V>(entries: Entries<V>, p: string, q: string)
    ensures WithoutPrefix(WithoutPrefix(entries, p), q) == WithoutPrefix(WithoutPrefix(entries, q), p)
  {
  }

  class Cache<V> {
    /** The module-level client handle, null until first use. */
    var redis: Connection?
    /** The server's key space. */
    var entries: Entries<V>

    constructor ()
      ensures redis == null && entries == map[]
    {
      redis := null;
      entries := map[];
    }

    predicate Ready()
      reads this, redis
    {
      redis != null && redis.ready
    }

    /** Creates the client on first use; afterwards always returns the same one. */
    method InitRedis() returns (c: Connection)
      modifies this
      ensures redis == c && entries == old(entries)
      ensures old(redis) != null ==> c == old(redis)
      ensures old(redis) == null ==> fresh(c) && !c.ready
      ensures Ready() == old(Ready())
    {
      if redis == null {
        redis := new Connection();
      }
      c := redis;
    }

    /** `getCache`: the stored value, or a miss when the client is not ready or the read fails. */
    method Get(key: string, fail: bool) returns (v: Option<V>)
      modifies this
      ensures redis != null
      ensures old(redis) != null ==> redis == old(redis)
      ensures old(redis) == null ==> fresh(redis) && !redis.ready
      ensures entries == old(entries) && Ready() == old(Ready())
      ensures v == if old(Ready()) && !fail then Lookup(entries, key) else None
    {
      if redis == null {
        var _ := InitRedis();
      }
      if !Ready() {
        return None;
      }
      if fail {
        return None;
      }
      v := Lookup(entries, key);
    }

    /** `setCache`: best effort; a client that is not ready or a failing write changes nothing. */
    method Set(key: string, value: V, ttlSeconds: int, fail: bool)
      modifies this
      ensures redis != null
      ensures old(redis) != null ==> redis == old(redis)
      ensures old(redis) == null ==> fresh(redis) && !redis.ready
      ensures Ready() == old(Ready())
      ensures entries == if old(Ready()) && !fail then Stored(old(entries), key, value, ttlSeconds) else old(entries)
    {
      if redis == null {
        var _ := InitRedis();
      }
      if !Ready() {
        return;
      }
      if !fail {
        entries := Stored(entries, key, value, ttlSeconds);
      }
    }

    /** `delCacheByPrefix`: best effort removal of every key that starts with `prefix`. */
    method DelByPrefix(prefix: string, fail: bool)
      modifies this
      ensures redis != null
      ensures old(redis) != null ==> redis == old(redis)
      ensures old(redis) == null ==> fresh(redis) && !redis.ready
      ensures Ready() == old(Ready())
      ensures entries == if old(Ready()) && !fail then WithoutPrefix(old(entries), prefix) else old(entries)
    {
      if redis == null {
        var _ := InitRedis();
      }
      if !Ready() {
        return;
      }
      if !fail {
        entries := WithoutPrefix(entries, prefix);
      }
    }
  }
}
