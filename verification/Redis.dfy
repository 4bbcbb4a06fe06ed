/**
 The one Redis both the rate limiter and the URL cache use: a map from keys to values with
 deadlines on Redis's own clock. A key is readable up to and including its deadline.
 */
module RedisStore {
  import opened Common
  import opened TokenBucket

  datatype Value = Hash(bucket: Bucket) | Str(text: string)

  datatype Entry = Entry(value: Value, deadline: int)

  type Keys = map<string, Entry>

  /** The entry itself, expired or not. */
  function At(ks: Keys, key: string): Option<Entry> {
    if key in ks then Some(ks[key]) else None
  }

  function LiveEntry(e: Option<Entry>, clock: int): Option<Value> {
    if e.Some? && clock <= e.value.deadline then Some(e.value.value) else None
  }

  function Live(ks: Keys, key: string, clock: int): Option<Value> {
    LiveEntry(At(ks, key), clock)
  }

  /** A command on a key of the other type is refused by Redis. */
  predicate NotHash(v: Option<Value>) {
    v.Some? && v.value.Str?
  }

  predicate NotStr(v: Option<Value>) {
    v.Some? && v.value.Hash?
  }

  function AsBucket(v: Option<Value>): Option<Bucket>
    requires !NotHash(v)
  {
    if v.None? then None else Some(v.value.bucket)
  }

  /******* What each command leaves under its key, and what it returns (None: an error) *******/

  function ScriptEntry(l: Limits, e: Option<Entry>, now: int, clock: int): Option<Entry> {
    var v := LiveEntry(e, clock);
    if NotHash(v) then e
    else Some(Entry(Hash(NextBucket(l, AsBucket(v), now)), clock + TtlMs(l)))
  }

  function ScriptReply(l: Limits, e: Option<Entry>, now: int, clock: int): Option<Reply> {
    var v := LiveEntry(e, clock);
    if NotHash(v) then None else Some(Answer(l, AsBucket(v), now))
  }

  function GetExEntry(e: Option<Entry>, ttlMs: int, clock: int): Option<Entry> {
    var v := LiveEntry(e, clock);
    if v.Some? && v.value.Str? then Some(Entry(v.value, clock + ttlMs)) else e
  }

  function GetExReply(e: Option<Entry>, clock: int): Option<Option<string>> {
    var v := LiveEntry(e, clock);
    if NotStr(v) then None
    else if v.None? then Some(None) else Some(Some(v.value.text))
  }

  function Put(ks: Keys, key: string, e: Option<Entry>): Keys {
    match e
    case None => ks
    case Some(entry) => ks[key := entry]
  }

  /** The server: commands run one at a time, each to completion. */
  class Redis {
    var keys: Keys
    var clock: int

    constructor ()
      ensures keys == map[]
    {
      keys, clock := map[], 0;
    }

    /** The token-bucket script on the stored hash. */
    method Eval(key: string, l: Limits, nowMs: int) returns (reply: Option<Reply>)
      modifies this`keys
      ensures keys == Put(old(keys), key, ScriptEntry(l, At(old(keys), key), nowMs, clock))
      ensures reply == ScriptReply(l, At(old(keys), key), nowMs, clock)
    {
      var state := Live(keys, key, clock);
      if state.Some? && state.value.Str? {
        return None;
      }
      var tokens, lastTs := l.Full(), nowMs;
      if state.Some? {
        tokens, lastTs := state.value.bucket.tokens, state.value.bucket.ts;
      }

      var elapsed := nowMs - lastTs;
      if elapsed < 0 {
        elapsed := 0;
      }
      tokens := Min(l.Full(), tokens + l.refill * elapsed);

      var allowed, retryAfterMs := false, 0;
      if tokens >= UNIT {
        allowed := true;
        tokens := tokens - UNIT;
      } else {
        var deficit := UNIT - tokens;
        retryAfterMs := CeilDiv(deficit, l.refill);
      }

      keys := keys[key := Entry(Hash(Bucket(tokens, nowMs)), clock + TtlMs(l))];
      reply := Some(Reply(allowed, retryAfterMs, tokens));
    }

    /** GETEX: read and push the deadline back in one command. */
    method GetEx(key: string, ttlMs: int) returns (reply: Option<Option<string>>)
      modifies this`keys
      ensures keys == Put(old(keys), key, GetExEntry(At(old(keys), key), ttlMs, clock))
      ensures reply == GetExReply(At(old(keys), key), clock)
    {
      var v := Live(keys, key, clock);
      if v.None? {
        assert Put(keys, key, At(keys, key)) == keys;
        return Some(None);
      }
      if v.value.Hash? {
        assert Put(keys, key, At(keys, key)) == keys;
        return None;
      }
      keys := keys[key := keys[key].(deadline := clock + ttlMs)];
      reply := Some(Some(v.value.text));
    }

    method Set(key: string, text: string, ttlMs: int)
      modifies this`keys
      ensures keys == old(keys)[key := Entry(Str(text), clock + ttlMs)]
    {
      keys := keys[key := Entry(Str(text), clock + ttlMs)];
    }

    method Delete(key: string)
      modifies this`keys
      ensures keys == old(keys) - {key}
    {
      keys := keys - {key};
    }
  }
}
