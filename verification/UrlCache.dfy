/** The cache-aside accessor: short code to destination, with a TTL that slides on every read. */
module UrlCaching {
  import opened Common
  import opened TokenBucket
  import opened RedisStore
  import opened RateLimiting

  /** GETEX as the handler sees it: an error reads as a miss. */
  function Fetched(e: Option<Entry>, clock: int, fault: Fault): Option<string> {
    if fault != NoFault then None
    else
      var reply := GetExReply(e, clock);
      if reply.None? then None else reply.value
  }

  function FetchEntry(e: Option<Entry>, ttlMs: int, clock: int, fault: Fault): Option<Entry> {
    if fault == BeforeEffect then e else GetExEntry(e, ttlMs, clock)
  }

  function FillEntry(e: Option<Entry>, url: string, ttlMs: int, clock: int, fault: Fault): Option<Entry> {
    if fault == BeforeEffect then e else Some(Entry(Str(url), clock + ttlMs))
  }

  class UrlCache {
    const redis: Redis
    const ttlSeconds: int
    var hits: nat
    var misses: nat
    var fallbacks: nat

    constructor (redis: Redis, ttlSeconds: int)
      ensures this.redis == redis && this.ttlSeconds == ttlSeconds
      ensures hits == misses == fallbacks == 0
    {
      this.redis, this.ttlSeconds := redis, ttlSeconds;
      hits, misses, fallbacks := 0, 0, 0;
    }

    /** Every call counts as exactly one of hit, miss and fallback; only a hit returns a URL. */
    method GetCachedUrl(shortCode: string, fault: Fault) returns (url: Option<string>)
      modifies redis`keys, `hits, `misses, `fallbacks
      ensures var e := At(old(redis.keys), CacheKey(shortCode));
        && url == Fetched(e, redis.clock, fault)
        && redis.keys == Put(old(redis.keys), CacheKey(shortCode), FetchEntry(e, 1000 * ttlSeconds, redis.clock, fault))
        && hits == old(hits) + (if url.Some? then 1 else 0)
        && fallbacks == old(fallbacks) + (if fault != NoFault || GetExReply(e, redis.clock).None? then 1 else 0)
        && hits + misses + fallbacks == old(hits + misses + fallbacks) + 1
    {
      var key := CacheKey(shortCode);
      var reply: Option<Option<string>> := None;
      if fault != BeforeEffect {
        reply := redis.GetEx(key, 1000 * ttlSeconds);
      } else {
        assert Put(redis.keys, key, At(redis.keys, key)) == redis.keys;
      }
      if fault != NoFault || reply.None? {
        fallbacks := fallbacks + 1;
        return None;
      }
      if reply.value.None? {
        misses := misses + 1;
        return None;
      }
      hits := hits + 1;
      url := reply.value;
    }

    /** The TTL defaults to the configured one; an error is swallowed. */
    method SetCachedUrl(shortCode: string, longUrl: string, ttlOverride: Option<int>, fault: Fault)
      modifies redis`keys, `fallbacks
      ensures var e := At(old(redis.keys), CacheKey(shortCode));
        var ttl := if ttlOverride.Some? then ttlOverride.value else ttlSeconds;
        redis.keys == Put(old(redis.keys), CacheKey(shortCode), FillEntry(e, longUrl, 1000 * ttl, redis.clock, fault))
      ensures fallbacks == old(fallbacks) + if fault != NoFault then 1 else 0
    {
      var key := CacheKey(shortCode);
      var ttl := ttlSeconds;
      if ttlOverride.Some? {
        ttl := ttlOverride.value;
      }
      if fault != BeforeEffect {
        redis.Set(key, longUrl, 1000 * ttl);
      } else {
        assert Put(redis.keys, key, At(redis.keys, key)) == redis.keys;
      }
      if fault != NoFault {
        fallbacks := fallbacks + 1;
      }
    }

    method InvalidateCachedUrl(shortCode: string, fault: Fault)
      modifies redis`keys, `fallbacks
      ensures redis.keys == old(redis.keys) - if fault == BeforeEffect then {} else {CacheKey(shortCode)}
      ensures fallbacks == old(fallbacks) + if fault != NoFault then 1 else 0
    {
      if fault != BeforeEffect {
        redis.Delete(CacheKey(shortCode));
      }
      if fault != NoFault {
        fallbacks := fallbacks + 1;
      }
    }
  }

  /******* Sliding expiration *******/

  /** The entry after it was SET at time at[0] and read at times at[1], ..., at[k]. */
  function EntryAfter(url: string, ttlMs: int, at: seq<int>, k: nat): Option<Entry>
    requires k < |at|
  {
    if k == 0 then FillEntry(None, url, ttlMs, at[0], NoFault)
    else FetchEntry(EntryAfter(url, ttlMs, at, k - 1), ttlMs, at[k], NoFault)
  }

  predicate GapsWithin(ttlMs: int, at: seq<int>, k: nat)
    requires k < |at|
  {
    forall j :: 0 < j <= k ==> at[j] - at[j - 1] <= ttlMs
  }

  lemma {:induction false} EntrySlides(url: string, ttlMs: int, at: seq<int>, k: nat)
    requires k < |at| && 0 < ttlMs
    requires Nondecreasing(at)
    ensures EntryAfter(url, ttlMs, at, k).Some? && EntryAfter(url, ttlMs, at, k).value.value == Str(url)
    ensures var deadline := EntryAfter(url, ttlMs, at, k).value.deadline;
      if GapsWithin(ttlMs, at, k) then deadline == at[k] + ttlMs else deadline < at[k]
  {
    if k > 0 {
      EntrySlides(url, ttlMs, at, k - 1);
      assert at[k - 1] <= at[k];
    }
  }

  /**
   A cached link is still there at time t if and only if every gap between its consecutive
   accesses since it was set, up to t, is within the TTL. Otherwise the read is a miss.
   */
  lemma {:induction false} SlidingTtl(url: string, ttlMs: int, at: seq<int>, k: nat, t: int)
    requires k < |at| && 0 < ttlMs
    requires Nondecreasing(at) && at[k] <= t
    ensures Fetched(EntryAfter(url, ttlMs, at, k), t, NoFault) ==
            if GapsWithin(ttlMs, at, k) && t - at[k] <= ttlMs then Some(url) else None
  {
    EntrySlides(url, ttlMs, at, k);
  }
}
