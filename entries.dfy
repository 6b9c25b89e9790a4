/**
 * Configuration and per-entry metadata of the cache: `LruCacheOptions`,
 * `CacheEntry` (timestamps, expiration, cost and the intrusive recency links)
 * and `CachedItem`, the value paired with its metadata.
 *
 * Time is an explicit monotonic instant `now: nat` in milliseconds; durations
 * are signed milliseconds, as the clock's duration type is signed.
 */
module Entries {
  import opened Wrappers

  /** One hour in milliseconds: the default sliding expiration. */
  const ONE_HOUR_MS: int := 3_600_000

  /** Cache-wide options, fixed when the cache is built. */
  datatype LruCacheOptions = LruCacheOptions(
    sizeLimit: nat,                  // maximum entry count, 0 = unlimited
    slidingExpiration: int,          // default time-to-live since last access
    backgroundCleanupInterval: int)  // minimum gap between amortized sweeps, <= 0 = disabled
  {
    /** Capacity eviction applies only under a positive limit. */
    predicate IsBounded()
    {
      sizeLimit > 0
    }

    /** The amortized sweep is enabled only by a positive interval. */
    predicate CleanupEnabled()
    {
      backgroundCleanupInterval > 0
    }
  }

  /** The options a default-constructed cache uses. */
  function DefaultOptions(): (o: LruCacheOptions)
    ensures !o.IsBounded()
    ensures !o.CleanupEnabled()
    ensures o.slidingExpiration == ONE_HOUR_MS
  {
    LruCacheOptions(0, ONE_HOUR_MS, 0)
  }

  /**
   * Metadata of one entry. `lruPrev`/`lruNext` name the neighbouring keys in
   * the recency list, `keyPtr` the entry's own key once it is stored.
   */
  datatype CacheEntry<K> = CacheEntry(
    lastAccessed: nat,
    slidingExpiration: int,
    size: nat,
    lruPrev: Option<K>,
    lruNext: Option<K>,
    keyPtr: Option<K>)
  {
    /** Expired strictly after `slidingExpiration` has elapsed since the last access. */
    predicate IsExpired(now: nat)
    {
      now - lastAccessed > slidingExpiration
    }

    /** Restart the sliding window at `now`. */
    function UpdateAccess(now: nat): CacheEntry<K>
    {
      this.(lastAccessed := now)
    }

    /** The same metadata with its recency links replaced. */
    function Relinked(prev: Option<K>, next: Option<K>): CacheEntry<K>
    {
      this.(lruPrev := prev, lruNext := next)
    }
  }

  /** Metadata of an entry created at `now`: cost 1, unlinked, without its key yet. */
  function NewEntry<K>(expiration: int, now: nat): (e: CacheEntry<K>)
    ensures e.size == 1
    ensures e.lruPrev == None && e.lruNext == None && e.keyPtr == None
    ensures e.lastAccessed == now && e.slidingExpiration == expiration
    ensures expiration >= 0 ==> !e.IsExpired(now)
  {
    CacheEntry(now, expiration, 1, None, None, None)
  }

  /**
   * What a caller's configuration step may change on a new entry: its
   * sliding expiration and its cost. A missing field is left as it was.
   */
  datatype EntryOverride = EntryOverride(slidingExpiration: Option<int>, size: Option<nat>)

  /** Apply an override to fresh metadata. */
  function Configure<K>(e: CacheEntry<K>, c: EntryOverride): (r: CacheEntry<K>)
    ensures c.slidingExpiration.Some? ==> r.slidingExpiration == c.slidingExpiration.value
    ensures c.slidingExpiration.None? ==> r.slidingExpiration == e.slidingExpiration
    ensures c.size.Some? ==> r.size == c.size.value
    ensures c.size.None? ==> r.size == e.size
    ensures r.(slidingExpiration := e.slidingExpiration, size := e.size) == e
  {
    e.(slidingExpiration := c.slidingExpiration.GetOr(e.slidingExpiration),
       size := c.size.GetOr(e.size))
  }

  /** A stored value with its metadata. */
  datatype CachedItem<K, V> = CachedItem(value: V, metadata: CacheEntry<K>)

  /**
   * An entry created with expiration 0 is live at its creation instant and
   * expired at every later instant.
   */
  lemma ZeroExpiration<K>(e: CacheEntry<K>, later: nat)
    requires e.slidingExpiration == 0
    ensures !e.IsExpired(e.lastAccessed)
    ensures later > e.lastAccessed ==> e.IsExpired(later)
  {
  }
}
