/**
 * The server's in-process seat cache: a map from a string key to an entry
 * carrying the cached value, a 60-second deadline and a version stamp.
 * Stale entries are not swept; `get` evicts them lazily when it meets them.
 * The clock is the parameter `now` (milliseconds).
 */
module Cache {
  import opened Basics

  /** TTL_SECONDS * 1000. */
  const TtlMs: int := 60 * 1000

  datatype CacheItem<V> = CacheItem(value: V, expiresAt: int, version: int, cachedAt: int)

  /** The cache key `seat:${seatId}:event:${eventId}`. */
  function GenerateKey(seatId: string, eventId: string): (key: string)
    ensures StartsWith(key, "seat:")
    ensures |key| == |seatId| + |eventId| + 12
  {
    "seat:" + seatId + ":event:" + eventId
  }

  /** For one event context the key determines the seat. */
  lemma KeyInjectiveForEvent(s1: string, s2: string, eventId: string)
    requires GenerateKey(s1, eventId) == GenerateKey(s2, eventId)
    ensures s1 == s2
  {
    var k := GenerateKey(s1, eventId);
    assert |s1| == |s2|;
    assert k[5..5 + |s1|] == s1;
    assert GenerateKey(s2, eventId)[5..5 + |s2|] == s2;
  }

  /**
   * Across event contexts the key is not injective: an id containing
   * ":event:" collides with a different (seat, event) pair.
   */
  lemma KeyCollidesAcrossEvents()
    ensures GenerateKey("1:event:2", "3") == GenerateKey("1", "2:event:3")
  {
  }

  /** An entry can be served only while `expiresAt >= now` and its version matches. */
  predicate Usable<V>(item: CacheItem<V>, version: int, now: int)
  {
    !(item.expiresAt < now) && item.version == version
  }

  /** What `get` returns. */
  function Lookup<V>(entries: map<string, CacheItem<V>>, key: string, version: int, now: int): (r: Option<V>)
    ensures r.Some? <==> key in entries && Usable(entries[key], version, now)
    ensures r.Some? ==> r.value == entries[key].value
  {
    if key in entries && Usable(entries[key], version, now) then Some(entries[key].value) else None
  }

  /** The map after `get`: an entry found expired or of another version is deleted. */
  function AfterLookup<V>(entries: map<string, CacheItem<V>>, key: string, version: int, now: int)
    : (r: map<string, CacheItem<V>>)
    ensures r.Keys <= entries.Keys
    ensures forall k :: k in r ==> r[k] == entries[k]
    ensures forall k :: k in entries && k != key ==> k in r
    ensures key in r <==> key in entries && Usable(entries[key], version, now)
  {
    if key in entries && !Usable(entries[key], version, now) then entries - {key} else entries
  }

  /** The map after `set` at time `now`. */
  function Stored<V>(entries: map<string, CacheItem<V>>, key: string, value: V, version: int, now: int)
    : (r: map<string, CacheItem<V>>)
    ensures r.Keys == entries.Keys + {key}
    ensures r[key] == CacheItem(value, now + TtlMs, version, now)
    ensures forall k :: k in entries && k != key ==> r[k] == entries[k]
  {
    entries[key := CacheItem(value, now + TtlMs, version, now)]
  }

  /** A value `set` at time `t` is returned by `get` with the same version up to `t + TtlMs`. */
  lemma SetThenGet<V>(entries: map<string, CacheItem<V>>, key: string, value: V, version: int, t: int, now: int)
    requires now <= t + TtlMs
    ensures Lookup(Stored(entries, key, value, version, t), key, version, now) == Some(value)
    ensures AfterLookup(Stored(entries, key, value, version, t), key, version, now)
         == Stored(entries, key, value, version, t)
  {
  }

  /** Past its deadline the same entry is a miss and is evicted. */
  lemma SetThenGetAfterDeadline<V>(entries: map<string, CacheItem<V>>, key: string, value: V, version: int, t: int, now: int)
    requires now > t + TtlMs
    ensures Lookup(Stored(entries, key, value, version, t), key, version, now) == None
    ensures key !in AfterLookup(Stored(entries, key, value, version, t), key, version, now)
  {
  }

  /** `set` adds one to the size on a new key and nothing on an existing one. */
  lemma StoredSize<V>(entries: map<string, CacheItem<V>>, key: string, value: V, version: int, now: int)
    ensures |Stored(entries, key, value, version, now)| == if key in entries then |entries| else |entries| + 1
  {
    var r := Stored(entries, key, value, version, now);
    if key in entries {
      assert r.Keys == entries.Keys;
    } else {
      assert r.Keys == entries.Keys + {key};
    }
  }

  /** A `get` that evicts drops the size by exactly one; any other `get` keeps it. */
  lemma AfterLookupSize<V>(entries: map<string, CacheItem<V>>, key: string, version: int, now: int)
    ensures |AfterLookup(entries, key, version, now)|
         == if key in entries && !Usable(entries[key], version, now) then |entries| - 1 else |entries|
  {
    var r := AfterLookup(entries, key, version, now);
    if key in entries && !Usable(entries[key], version, now) {
      assert r.Keys == entries.Keys - {key};
    }
  }

  /** The cache object; `entries` is the private `cache` Map. */
  class SeatCache<V> {
    var entries: map<string, CacheItem<V>>

    constructor ()
      ensures entries == map[]
    {
      entries := map[];
    }

    method Get(seatId: string, eventId: string, version: int, now: int) returns (r: Option<V>)
      modifies this
      ensures r == Lookup(old(entries), GenerateKey(seatId, eventId), version, now)
      ensures entries == AfterLookup(old(entries), GenerateKey(seatId, eventId), version, now)
    {
      var key := GenerateKey(seatId, eventId);
      if key !in entries {
        return None;
      }
      var item := entries[key];
      if item.expiresAt < now {
        entries := entries - {key};
        return None;
      }
      if item.version != version {
        entries := entries - {key};
        return None;
      }
      return Some(item.value);
    }

    method Set(seatId: string, eventId: string, data: V, version: int, now: int)
      modifies this
      ensures entries == Stored(old(entries), GenerateKey(seatId, eventId), data, version, now)
    {
      var key := GenerateKey(seatId, eventId);
      entries := entries[key := CacheItem(data, now + TtlMs, version, now)];
    }

    method Invalidate(seatId: string, eventId: string)
      modifies this
      ensures entries == old(entries) - {GenerateKey(seatId, eventId)}
    {
      var key := GenerateKey(seatId, eventId);
      entries := entries - {key};
    }

    method Clear()
      modifies this
      ensures entries == map[]
    {
      entries := map[];
    }

    method Size() returns (n: nat)
      ensures n == |entries.Keys|
    {
      n := |entries|;
    }
  }
}
