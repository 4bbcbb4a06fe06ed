/**
 The script as it is written, over real token counts: nothing is lost by counting in
 1/60000 of a token.
 */
module RealScript {
  import opened Common
  import opened TokenBucket

  /** The two fields of the Redis hash, with the token count in tokens. */
  datatype RealBucket = RealBucket(tokens: real, ts: int)

  function Tokens(units: int): real {
    units as real / UNIT as real
  }

  function InTokens(st: Option<Bucket>): Option<RealBucket> {
    match st
    case None => None
    case Some(b) => Some(RealBucket(Tokens(b.tokens), b.ts))
  }

  /**
   The script, line by line. Every state it can meet is absent or was written by it, and
   then it writes back, answers and expires exactly what the unit arithmetic says.
   */
  method TokenBucketLua(l: Limits, state: Option<RealBucket>, nowMs: int, ghost st: Option<Bucket>)
    returns (written: RealBucket, allowed: bool, retryAfterMs: int, ttlMs: int)
    requires state == InTokens(st)
    ensures Some(written) == InTokens(Some(NextBucket(l, st, nowMs)))
    ensures allowed == Answer(l, st, nowMs).allowed
    ensures retryAfterMs == Answer(l, st, nowMs).retryAfterMs
    ensures ttlMs == TtlMs(l)
  {
    var capacity := l.capacity as real;
    var ratePerMs := l.refill as real / 60000.0;
    var tokens, lastTs := capacity, nowMs;
    if state.Some? {
      tokens, lastTs := state.value.tokens, state.value.ts;
    }
    ghost var units := if st.Some? then st.value.tokens else l.Full();
    TokensScale(l.capacity);

    var elapsed := nowMs - lastTs;
    if elapsed < 0 {
      elapsed := 0;
    }
    tokens := RefillReal(l, tokens, elapsed, capacity, ratePerMs, units);
    ghost var level := Refilled(l, st, nowMs);
    TokensOrder(UNIT, level);

    allowed, retryAfterMs := false, 0;
    if tokens >= 1.0 {
      allowed := true;
      tokens := tokens - 1.0;
    } else {
      var deficit := 1.0 - tokens;
      QuotientInTokens(UNIT - level, l.refill);
      retryAfterMs := Ceil(deficit / ratePerMs);
    }
    written := RealBucket(tokens, nowMs);
    QuotientInTokens(l.Full(), l.refill);
    ttlMs := Ceil(capacity / ratePerMs) + 1000;
  }

  /** math.min(capacity, tokens + elapsed * rate_per_ms) */
  method RefillReal(l: Limits, tokens: real, elapsed: nat, capacity: real, ratePerMs: real, ghost units: int)
    returns (level: real)
    requires tokens == Tokens(units) && capacity == Tokens(l.Full()) && ratePerMs == l.refill as real / 60000.0
    ensures level == Tokens(Min(l.Full(), units + l.refill * elapsed))
  {
    var refilled := tokens + elapsed as real * ratePerMs;
    assert (l.refill * elapsed) as real == l.refill as real * elapsed as real;
    TokensOrder(units + l.refill * elapsed, l.Full());
    level := if refilled < capacity then refilled else capacity;
  }

  lemma TokensScale(n: int)
    ensures Tokens(n * UNIT) == n as real
  {
  }

  lemma TokensOrder(a: int, b: int)
    ensures Tokens(a) <= Tokens(b) <==> a <= b
    ensures Tokens(a) - Tokens(b) == Tokens(a - b)
    ensures Tokens(UNIT) == 1.0
  {
  }

  /** Dividing tokens by tokens per millisecond is dividing units by units per millisecond. */
  lemma QuotientInTokens(units: int, refill: int)
    requires 0 < refill
    ensures Ceil(Tokens(units) / (refill as real / 60000.0)) == CeilDiv(units, refill)
  {
    var u, r := units as real, refill as real;
    var q := u / r;
    assert q * r == u;
    assert q * (r / 60000.0) == u / 60000.0;
    QuotientUnique(u / 60000.0, r / 60000.0, q);
    CeilIsCeilDiv(units, refill);
  }

  lemma QuotientUnique(x: real, y: real, q: real)
    requires y != 0.0 && q * y == x
    ensures x / y == q
  {
    var p := x / y;
    assert p * y == x;
    assert (p - q) * y == 0.0;
  }
}
