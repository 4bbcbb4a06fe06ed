/** The rate limiter in front of the script, and the HTTP edge that turns it into a 429. */
module RateLimiting {
  import opened Common
  import opened TokenBucket
  import opened RetryAfter
  import opened RedisStore

  datatype Settings = Settings(redirect: Limits, create: Limits)

  /** When a Redis call raises: not at all, before it took effect, or after. */
  datatype Fault = NoFault | BeforeEffect | AfterEffect

  /** NaN marks a result the script did not produce. */
  datatype Remaining = NaN | Units(units: int)

  datatype RateLimitResult = RateLimitResult(allowed: bool, retryAfterSeconds: Option<real>, tokensRemaining: Remaining)

  /** None stands for the ValueError raised on an unknown route class. */
  function LimitsFor(s: Settings, routeClass: string): Option<Limits> {
    if routeClass == "redirect" then Some(s.redirect)
    else if routeClass == "create" then Some(s.create)
    else None
  }

  function RateKey(clientId: string, routeClass: string): string {
    "ratelimit:" + clientId + ":" + routeClass
  }

  /** The result of a check given the script's reply; no reply means Redis raised. */
  function ResultOf(reply: Option<Reply>): RateLimitResult {
    match reply
    case None => RateLimitResult(true, None, NaN)
    case Some(r) =>
      RateLimitResult(r.allowed,
                      if r.allowed then None else Some(Max(r.retryAfterMs, 0) as real / 1000.0),
                      Units(r.remaining))
  }

  /** What the caller hears of a reply when the call may raise. */
  function Heard(reply: Option<Reply>, fault: Fault): Option<Reply> {
    if fault == NoFault then reply else None
  }

  function CheckEntry(l: Limits, e: Option<Entry>, now: int, clock: int, fault: Fault): Option<Entry> {
    if fault == BeforeEffect then e else ScriptEntry(l, e, now, clock)
  }

  function CheckReply(l: Limits, e: Option<Entry>, now: int, clock: int, fault: Fault): Option<Reply> {
    Heard(ScriptReply(l, e, now, clock), fault)
  }

  /** What a result tells of the script's reply: all of it, or by the marker that there was none. */
  predicate Tells(r: RateLimitResult, reply: Option<Reply>) {
    match reply
    case None => r.allowed && r.retryAfterSeconds.None? && r.tokensRemaining == NaN
    case Some(answer) =>
      && r.allowed == answer.allowed
      && r.tokensRemaining == Units(answer.remaining)
      && (if r.allowed then r.retryAfterSeconds.None?
          else r.retryAfterSeconds == Some(Max(answer.retryAfterMs, 0) as real / 1000.0))
  }

  lemma ResultTellsReply(reply: Option<Reply>, r: RateLimitResult)
    ensures Tells(r, reply) <==> r == ResultOf(reply)
  {
  }

  /** One check of a bucket with limits l under `key`: what it leaves of the keys, and the reply the caller hears. */
  predicate Consumed(
      l: Limits, key: string, nowMs: int, fault: Fault, clock: int, before: Keys, after: Keys, reply: Option<Reply>)
  {
    && after == Put(before, key, CheckEntry(l, At(before, key), nowMs, clock, fault))
    && reply == CheckReply(l, At(before, key), nowMs, clock, fault)
  }

  class RateLimiter {
    const redis: Redis
    const settings: Settings
    var fallbacks: nat

    constructor (redis: Redis, settings: Settings)
      ensures this.redis == redis && this.settings == settings && fallbacks == 0
    {
      this.redis, this.settings, this.fallbacks := redis, settings, 0;
    }

    /** The script call as the client sees it. */
    method CallScript(key: string, l: Limits, nowMs: int, fault: Fault) returns (reply: Option<Reply>)
      modifies redis`keys
      ensures var e := At(old(redis.keys), key);
        redis.keys == Put(old(redis.keys), key, CheckEntry(l, e, nowMs, redis.clock, fault))
      ensures reply == CheckReply(l, At(old(redis.keys), key), nowMs, redis.clock, fault)
    {
      if fault == BeforeEffect {
        assert Put(redis.keys, key, At(redis.keys, key)) == redis.keys;
        return None;
      }
      reply := redis.Eval(key, l, nowMs);
      if fault == AfterEffect {
        reply := None;
      }
    }

    /**
     Consume one token of the client's bucket for the route class, within that class's own limits;
     a Redis error lets the request through. None: the class is unknown.
     */
    method Check(clientId: string, routeClass: string, nowMs: int, fault: Fault)
      returns (r: Option<RateLimitResult>, ghost reply: Option<Reply>)
      modifies redis`keys, this`fallbacks
      ensures r.None? <==> routeClass != "redirect" && routeClass != "create"
      ensures r.None? ==> redis.keys == old(redis.keys) && fallbacks == old(fallbacks)
      ensures routeClass == "redirect" ==>
        Consumed(settings.redirect, RateKey(clientId, "redirect"), nowMs, fault, redis.clock,
                 old(redis.keys), redis.keys, reply)
      ensures routeClass == "create" ==>
        Consumed(settings.create, RateKey(clientId, "create"), nowMs, fault, redis.clock,
                 old(redis.keys), redis.keys, reply)
      ensures r.Some? ==> Tells(r.value, reply) && fallbacks == old(fallbacks) + if reply.None? then 1 else 0
    {
      var limits := LimitsFor(settings, routeClass);
      if limits.None? {
        return None, None;
      }
      var key := RateKey(clientId, routeClass);
      var raw := CallScript(key, limits.value, nowMs, fault);
      reply := raw;
      if raw.None? {
        fallbacks := fallbacks + 1;
        return Some(RateLimitResult(true, None, NaN)), reply;
      }
      var allowed, retryAfterMs := raw.value.allowed, raw.value.retryAfterMs;
      var seconds: Option<real> := None;
      if !allowed {
        seconds := Some(Max(retryAfterMs, 0) as real / 1000.0);
      }
      r := Some(RateLimitResult(allowed, seconds, Units(raw.value.remaining)));
    }
  }

  /** What a route sees of its rate-limit dependency. */
  datatype Verdict = Pass | TooManyRequests(retryAfter: int) | UnknownClass

  class Gate {
    const limiter: RateLimiter
    var rejections: map<string, nat>

    constructor (limiter: RateLimiter)
      ensures this.limiter == limiter && rejections == map[]
    {
      this.limiter, this.rejections := limiter, map[];
    }

    ghost function Rejected(routeClass: string): nat
      reads this`rejections
    {
      if routeClass in rejections then rejections[routeClass] else 0
    }

    /**
     Reject with 429 exactly when the script answered and said no, count it, and quote the
     least whole number of seconds, at least one, that covers the script's wait.
     */
    method Enforce(clientId: string, routeClass: string, nowMs: int, fault: Fault)
      returns (v: Verdict, ghost reply: Option<Reply>)
      modifies limiter.redis`keys, limiter`fallbacks, this`rejections
      ensures v.UnknownClass? <==> routeClass != "redirect" && routeClass != "create"
      ensures v.UnknownClass? ==> limiter.redis.keys == old(limiter.redis.keys)
      ensures routeClass == "redirect" ==>
        Consumed(limiter.settings.redirect, RateKey(clientId, "redirect"), nowMs, fault, limiter.redis.clock,
                 old(limiter.redis.keys), limiter.redis.keys, reply)
      ensures routeClass == "create" ==>
        Consumed(limiter.settings.create, RateKey(clientId, "create"), nowMs, fault, limiter.redis.clock,
                 old(limiter.redis.keys), limiter.redis.keys, reply)
      ensures !v.UnknownClass? ==>
        && (v.TooManyRequests? <==> reply.Some? && !reply.value.allowed)
        && (v.TooManyRequests? ==> v.retryAfter == HeaderSeconds(reply.value.retryAfterMs))
        && limiter.fallbacks == old(limiter.fallbacks) + if reply.None? then 1 else 0
      ensures Rejected(routeClass) == old(Rejected(routeClass)) + if v.TooManyRequests? then 1 else 0
      ensures forall c :: c != routeClass ==> Rejected(c) == old(Rejected(c))
    {
      var result;
      result, reply := limiter.Check(clientId, routeClass, nowMs, fault);
      if result.None? {
        return UnknownClass, reply;
      }
      if !result.value.allowed {
        var soFar := if routeClass in rejections then rejections[routeClass] else 0;
        rejections := rejections[routeClass := soFar + 1];
        var retryAfter := if result.value.retryAfterSeconds.Some? then result.value.retryAfterSeconds.value else 0.0;
        return TooManyRequests(Max(1, Ceil(retryAfter))), reply;
      }
      v := Pass;
    }
  }

  /******* Key names *******/

  predicate KnownClass(routeClass: string) {
    routeClass == "redirect" || routeClass == "create"
  }

  /** Distinct buckets have distinct keys, whatever characters the client id holds. */
  lemma RateKeyInjective(c1: string, k1: string, c2: string, k2: string)
    requires KnownClass(k1) && KnownClass(k2)
    requires RateKey(c1, k1) == RateKey(c2, k2)
    ensures c1 == c2 && k1 == k2
  {
    var key := RateKey(c1, k1);
    LastOfKey(c1, k1);
    LastOfKey(c2, k2);
    assert k1 == k2;
    MiddleOfKey(c1, k1);
    MiddleOfKey(c2, k2);
  }

  lemma LastOfKey(c: string, k: string)
    requires KnownClass(k)
    ensures var key := RateKey(c, k);
      key[|key| - 1] == k[|k| - 1] && |key| == 11 + |c| + |k|
  {
  }

  lemma MiddleOfKey(c: string, k: string)
    ensures RateKey(c, k)[10..10 + |c|] == c
  {
  }

  function CacheKey(shortCode: string): string {
    "cache:url:" + shortCode
  }

  lemma CacheKeyInjective(a: string, b: string)
    requires CacheKey(a) == CacheKey(b)
    ensures a == b
  {
    assert CacheKey(a)[10..] == a && CacheKey(b)[10..] == b;
  }

  lemma KeysDisjoint(c: string, k: string, code: string)
    ensures RateKey(c, k) != CacheKey(code)
  {
    assert RateKey(c, k)[0] == 'r' && CacheKey(code)[0] == 'c';
  }
}
