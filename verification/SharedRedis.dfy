/**
 Every client, both route classes and the cache share one Redis. Seen from one bucket, none
 of the others exist.
 */
module SharedRedis {
  import opened Common
  import opened TokenBucket
  import opened RedisStore
  import opened RateLimiting
  import opened UrlCaching
  import opened BucketExpiry
  import opened FailOpen

  datatype Config = Config(limits: Settings, cacheTtlMs: int)

  /** One call of the application, in the order Redis runs them. */
  datatype Command =
    | Check(client: string, routeClass: string, now: int, clock: int, fault: Fault)
    | Fetch(code: string, clock: int, fault: Fault)
    | Fill(code: string, url: string, clock: int, fault: Fault)
    | Evict(key: string)

  /** What the caller gets back. */
  datatype Response = Limited(result: RateLimitResult) | Cached(url: Option<string>) | Nothing

  /** The key a command works on; an unknown route class is refused before Redis is called. */
  function KeyOf(c: Command): Option<string> {
    match c
    case Check(client, cls, _, _, _) => if KnownClass(cls) then Some(RateKey(client, cls)) else None
    case Fetch(code, _, _) => Some(CacheKey(code))
    case Fill(code, _, _, _) => Some(CacheKey(code))
    case Evict(key) => Some(key)
  }

  /** What the command leaves under its key, given what was there. */
  function EntryAfterCommand(cfg: Config, c: Command, e: Option<Entry>): Option<Entry> {
    match c
    case Check(_, cls, now, clock, fault) =>
      if KnownClass(cls) then CheckEntry(LimitsFor(cfg.limits, cls).value, e, now, clock, fault) else e
    case Fetch(_, clock, fault) => FetchEntry(e, cfg.cacheTtlMs, clock, fault)
    case Fill(_, url, clock, fault) => FillEntry(e, url, cfg.cacheTtlMs, clock, fault)
    case Evict(_) => None
  }

  function Respond(cfg: Config, c: Command, e: Option<Entry>): Response {
    match c
    case Check(_, cls, now, clock, fault) =>
      if KnownClass(cls) then Limited(ResultOf(CheckReply(LimitsFor(cfg.limits, cls).value, e, now, clock, fault)))
      else Nothing
    case Fetch(_, clock, fault) => Cached(Fetched(e, clock, fault))
    case Fill(_, _, _, _) => Nothing
    case Evict(_) => Nothing
  }

  function Store(ks: Keys, key: string, e: Option<Entry>): Keys {
    if e.Some? then ks[key := e.value] else ks - {key}
  }

  /** The whole store after the commands cmds. */
  function Run(cfg: Config, cmds: seq<Command>): Keys {
    if cmds == [] then map[]
    else
      var ks, c := Run(cfg, cmds[..|cmds| - 1]), cmds[|cmds| - 1];
      var key := KeyOf(c);
      if key.None? then ks else Store(ks, key.value, EntryAfterCommand(cfg, c, At(ks, key.value)))
  }

  lemma RunStep(cfg: Config, cmds: seq<Command>, key: string)
    requires cmds != []
    ensures var before, c := Run(cfg, cmds[..|cmds| - 1]), cmds[|cmds| - 1];
      At(Run(cfg, cmds), key) ==
        if KeyOf(c) == Some(key) then EntryAfterCommand(cfg, c, At(before, key)) else At(before, key)
  {
  }

  /** The responses to the commands on `key`, in order. */
  function ResponsesAt(cfg: Config, cmds: seq<Command>, key: string): seq<Response> {
    if cmds == [] then []
    else
      var before, c := cmds[..|cmds| - 1], cmds[|cmds| - 1];
      ResponsesAt(cfg, before, key) +
      if KeyOf(c) == Some(key) then [Respond(cfg, c, At(Run(cfg, before), key))] else []
  }

  /** The commands on `key`, in order. */
  function Mine(cmds: seq<Command>, key: string): seq<Command> {
    if cmds == [] then []
    else
      var c := cmds[|cmds| - 1];
      Mine(cmds[..|cmds| - 1], key) + if KeyOf(c) == Some(key) then [c] else []
  }

  /**
   Projection: what one key holds and answers in a run of the whole system is what it holds
   and answers when only its own commands are run.
   */
  lemma {:induction false} Projection(cfg: Config, cmds: seq<Command>, key: string)
    ensures At(Run(cfg, cmds), key) == At(Run(cfg, Mine(cmds, key)), key)
    ensures ResponsesAt(cfg, cmds, key) == ResponsesAt(cfg, Mine(cmds, key), key)
    decreases |cmds|
  {
    if cmds != [] {
      var before, c := cmds[..|cmds| - 1], cmds[|cmds| - 1];
      Projection(cfg, before, key);
      var mine := Mine(before, key);
      if KeyOf(c) == Some(key) {
        assert (mine + [c])[..|mine|] == mine;
      } else {
        assert Mine(cmds, key) == mine;
      }
    }
  }

  /** Mine is what it says: the commands on the key and no others, each in its place. */
  lemma {:induction false} MineIsFilter(cmds: seq<Command>, key: string)
    ensures |Mine(cmds, key)| == |Where(cmds, OnKey(key))|
    ensures forall c :: c in Mine(cmds, key) ==> KeyOf(c) == Some(key)
    ensures forall i :: 0 <= i < |cmds| && KeyOf(cmds[i]) == Some(key) ==> InPlace(cmds, key, i)
    decreases |cmds|
  {
    hide KeyOf;
    if cmds != [] {
      var n := |cmds| - 1;
      MineIsFilter(cmds[..n], key);
      WhereLast(cmds, OnKey(key));
      forall i | 0 <= i < |cmds| && KeyOf(cmds[i]) == Some(key) ensures InPlace(cmds, key, i) {
        if i < n {
          assert cmds[..n][..i] == cmds[..i] && cmds[..n][i] == cmds[i];
          assert InPlace(cmds[..n], key, i);
        }
      }
    }
  }

  predicate InPlace(cmds: seq<Command>, key: string, i: nat)
    requires i < |cmds|
  {
    var n := |Mine(cmds[..i], key)|;
    n < |Mine(cmds, key)| && Mine(cmds, key)[n] == cmds[i]
  }

  function OnKey(key: string): Command -> bool {
    (c: Command) => KeyOf(c) == Some(key)
  }

  /** Command by command: each is answered as if the commands on its key were the only ones before it. */
  lemma AnsweredAlone(cfg: Config, cmds: seq<Command>, key: string, i: nat)
    requires i < |cmds| && KeyOf(cmds[i]) == Some(key)
    ensures Respond(cfg, cmds[i], At(Run(cfg, cmds[..i]), key)) ==
            Respond(cfg, cmds[i], At(Run(cfg, Mine(cmds[..i], key)), key))
  {
    Projection(cfg, cmds[..i], key);
  }

  /******* One client's bucket in the whole system *******/

  predicate IsCheckBy(c: Command, client: string, cls: string) {
    c.Check? && c.client == client && c.routeClass == cls
  }

  /** Redis lost the bucket, other than by its TTL, since the client's last check. */
  predicate EvictedSince(cmds: seq<Command>, client: string, cls: string) {
    if cmds == [] then false
    else
      var c := cmds[|cmds| - 1];
      c == Evict(RateKey(client, cls)) ||
      (!IsCheckBy(c, client, cls) && EvictedSince(cmds[..|cmds| - 1], client, cls))
  }

  /** The checks of one client on one route class, in order. */
  function AttemptsBy(cmds: seq<Command>, client: string, cls: string): seq<Attempt> {
    if cmds == [] then []
    else
      var before, c := cmds[..|cmds| - 1], cmds[|cmds| - 1];
      AttemptsBy(before, client, cls) +
      if IsCheckBy(c, client, cls) then [Attempt(c.now, c.clock, c.fault, EvictedSince(before, client, cls))] else []
  }

  /** What that client hears on that route class in a run of the whole system. */
  function HeardBy(cfg: Config, cmds: seq<Command>, client: string, cls: string): seq<RateLimitResult>
    requires KnownClass(cls)
  {
    if cmds == [] then []
    else
      var before, c := cmds[..|cmds| - 1], cmds[|cmds| - 1];
      HeardBy(cfg, before, client, cls) +
      if IsCheckBy(c, client, cls) then [Respond(cfg, c, At(Run(cfg, before), RateKey(client, cls))).result] else []
  }

  /** The attempts are the client's checks, each in its place, with the answer Redis gave it there. */
  lemma {:induction false} AttemptsAreChecks(cfg: Config, cmds: seq<Command>, client: string, cls: string)
    requires KnownClass(cls)
    ensures |AttemptsBy(cmds, client, cls)| == |HeardBy(cfg, cmds, client, cls)| == |Where(cmds, ChecksOf(client, cls))|
    ensures forall i :: 0 <= i < |cmds| && IsCheckBy(cmds[i], client, cls) ==> AttemptIs(cfg, cmds, client, cls, i)
    decreases |cmds|
  {
    if cmds != [] {
      hide Run, Respond;
      var n := |cmds| - 1;
      AttemptsAreChecks(cfg, cmds[..n], client, cls);
      WhereLast(cmds, ChecksOf(client, cls));
      forall i | 0 <= i < |cmds| && IsCheckBy(cmds[i], client, cls) ensures AttemptIs(cfg, cmds, client, cls, i) {
        if i < n {
          assert cmds[..n][..i] == cmds[..i] && cmds[..n][i] == cmds[i];
          assert AttemptIs(cfg, cmds[..n], client, cls, i);
        }
      }
    }
  }

  function ChecksOf(client: string, cls: string): Command -> bool {
    (c: Command) => IsCheckBy(c, client, cls)
  }

  /** Command i is the client's attempt number n, and was answered from what its key then held. */
  predicate AttemptIs(cfg: Config, cmds: seq<Command>, client: string, cls: string, i: nat)
    requires KnownClass(cls) && i < |cmds| && IsCheckBy(cmds[i], client, cls)
  {
    var c, before, n := cmds[i], cmds[..i], |AttemptsBy(cmds[..i], client, cls)|;
    var xs, rs := AttemptsBy(cmds, client, cls), HeardBy(cfg, cmds, client, cls);
    && n < |xs| && xs[n] == Attempt(c.now, c.clock, c.fault, EvictedSince(before, client, cls))
    && n < |rs| && rs[n] == Respond(cfg, c, At(Run(cfg, before), RateKey(client, cls))).result
  }

  /** Short of an eviction, the commands on a bucket's key are the checks of that client and class. */
  lemma OnKeyIff(c: Command, client: string, cls: string)
    requires KnownClass(cls) && c != Evict(RateKey(client, cls))
    ensures KeyOf(c) == Some(RateKey(client, cls)) <==> IsCheckBy(c, client, cls)
  {
    if KeyOf(c) == Some(RateKey(client, cls)) {
      if c.Check? {
        RateKeyInjective(c.client, c.routeClass, client, cls);
      } else {
        KeysDisjoint(client, cls, c.code);
      }
    }
  }

  /** The stored entry of a bucket after the given arrivals. */
  function BucketEntry(l: Limits, arr: seq<Arrival>): Option<Entry> {
    if arr == [] then None
    else
      var k := |arr| - 1;
      Some(Entry(Hash(Written(l, arr, k)), arr[k].clock + TtlMs(l)))
  }

  /** The same, unless Redis has lost it since. */
  function EntryUnless(lost: bool, l: Limits, arr: seq<Arrival>): Option<Entry> {
    if lost then None else BucketEntry(l, arr)
  }

  /** Running the script on a bucket's entry appends one arrival to its run. */
  lemma {:induction false} AppendArrival(l: Limits, arr: seq<Arrival>, a: Arrival)
    ensures var e := EntryUnless(a.evicted, l, arr);
      && ScriptEntry(l, e, a.now, a.clock) == BucketEntry(l, arr + [a])
      && ScriptReply(l, e, a.now, a.clock) == Some(DroppingReply(l, arr + [a], |arr|))
  {
    var all, k := arr + [a], |arr|;
    if arr != [] {
      PrefixWritten(l, arr, a, k - 1);
      assert all[k - 1] == arr[k - 1];
    }
    assert Seen(l, all, k) == AsBucket(LiveEntry(EntryUnless(a.evicted, l, arr), a.clock));
  }

  lemma {:induction false} AttemptAppended(xs: seq<Attempt>, x: Attempt)
    ensures Arrivals(xs + [x]) == Arrivals(xs) +
            if x.fault == BeforeEffect then [] else [Arrival(x.now, x.clock, x.evicted || LostSince(xs))]
    ensures LostSince(xs + [x]) == (x.fault == BeforeEffect && (x.evicted || LostSince(xs)))
  {
    assert (xs + [x])[..|xs|] == xs;
  }

  /** What the key of a bucket holds: what its own checks alone would leave, unless it was lost since. */
  function OwnEntry(cfg: Config, cmds: seq<Command>, client: string, cls: string): Option<Entry>
    requires KnownClass(cls)
  {
    var xs := AttemptsBy(cmds, client, cls);
    EntryUnless(EvictedSince(cmds, client, cls) || LostSince(xs), LimitsFor(cfg.limits, cls).value, Arrivals(xs))
  }

  /** One more check of the client, on its own entry, is one more attempt. */
  lemma {:induction false} CheckAppended(l: Limits, xs: seq<Attempt>, x: Attempt)
    ensures var e := EntryUnless(x.evicted || LostSince(xs), l, Arrivals(xs));
      && CheckEntry(l, e, x.now, x.clock, x.fault) == EntryUnless(LostSince(xs + [x]), l, Arrivals(xs + [x]))
      && Expected(l, xs + [x]) == Expected(l, xs) + [ResultOf(CheckReply(l, e, x.now, x.clock, x.fault))]
  {
    AttemptAppended(xs, x);
    assert (xs + [x])[..|xs|] == xs;
    if x.fault != BeforeEffect {
      AppendArrival(l, Arrivals(xs), Arrival(x.now, x.clock, x.evicted || LostSince(xs)));
    } else {
      assert Arrivals(xs + [x]) == Arrivals(xs);
    }
  }

  /**
   Whatever else runs in the shared Redis, whatever fails and whatever is lost, the key of a bucket
   holds what its own checks and losses alone would leave, and its client hears exactly what a
   bucket of its own would answer.
   */
  lemma {:induction false} SharedRedisRefinesBucket(cfg: Config, cmds: seq<Command>, client: string, cls: string)
    requires KnownClass(cls)
    ensures At(Run(cfg, cmds), RateKey(client, cls)) == OwnEntry(cfg, cmds, client, cls)
    ensures HeardBy(cfg, cmds, client, cls)
            == Expected(LimitsFor(cfg.limits, cls).value, AttemptsBy(cmds, client, cls))
    ensures LimitsFor(cfg.limits, cls).value == if cls == "redirect" then cfg.limits.redirect else cfg.limits.create
    decreases |cmds|
  {
    if cmds != [] {
      hide Run, Expected, Arrivals, LostSince, EntryUnless;
      var before, c, l := cmds[..|cmds| - 1], cmds[|cmds| - 1], LimitsFor(cfg.limits, cls).value;
      var xs := AttemptsBy(before, client, cls);
      SharedRedisRefinesBucket(cfg, before, client, cls);
      RunStep(cfg, cmds, RateKey(client, cls));
      if IsCheckBy(c, client, cls) {
        CheckAppended(l, xs, Attempt(c.now, c.clock, c.fault, EvictedSince(before, client, cls)));
      } else {
        assert AttemptsBy(cmds, client, cls) == xs;
        OthersLeaveEntry(cfg, before, c, client, cls);
      }
    }
  }

  /** A command that is not one of its checks leaves a bucket's entry alone, unless it is its loss. */
  lemma OthersLeaveEntry(cfg: Config, before: seq<Command>, c: Command, client: string, cls: string)
    requires KnownClass(cls) && !IsCheckBy(c, client, cls)
    ensures var own, own' := OwnEntry(cfg, before, client, cls), OwnEntry(cfg, before + [c], client, cls);
      own' == if KeyOf(c) == Some(RateKey(client, cls)) then EntryAfterCommand(cfg, c, own) else own
  {
    assert (before + [c])[..|before|] == before;
    assert AttemptsBy(before + [c], client, cls) == AttemptsBy(before, client, cls);
    if c != Evict(RateKey(client, cls)) {
      OnKeyIff(c, client, cls);
    }
  }

  /** Redis may expire a bucket, but never loses it otherwise. */
  predicate NeverEvicted(cmds: seq<Command>, client: string, cls: string) {
    Evict(RateKey(client, cls)) !in cmds
  }

  lemma {:induction false} NeverEvictedArrives(cmds: seq<Command>, client: string, cls: string)
    requires NeverEvicted(cmds, client, cls)
    ensures !EvictedSince(cmds, client, cls) && !LostSince(AttemptsBy(cmds, client, cls))
    ensures NoneEvicted(Arrivals(AttemptsBy(cmds, client, cls)))
    decreases |cmds|
  {
    if cmds != [] {
      var before, c := cmds[..|cmds| - 1], cmds[|cmds| - 1];
      assert c in cmds;
      NeverEvictedArrives(before, client, cls);
      if IsCheckBy(c, client, cls) {
        AttemptAppended(AttemptsBy(before, client, cls), Attempt(c.now, c.clock, c.fault, false));
      } else {
        assert AttemptsBy(cmds, client, cls) == AttemptsBy(before, client, cls);
      }
    }
  }

  /** The clocks seen by one client's checks keep step closely enough for expiry to be invisible. */
  predicate DriftTolerated(cmds: seq<Command>, client: string, cls: string) {
    DriftWithin(Arrivals(AttemptsBy(cmds, client, cls)), TOLERATED_DRIFT)
  }

  /**
   If only the TTL drops the bucket and the clocks keep step, each client hears exactly what a
   bucket of its own that is never dropped would answer to the checks that took effect.
   */
  lemma {:induction false} SharedRedisLosesNoState(cfg: Config, cmds: seq<Command>, client: string, cls: string)
    requires KnownClass(cls) && NeverEvicted(cmds, client, cls) && DriftTolerated(cmds, client, cls)
    ensures HeardBy(cfg, cmds, client, cls)
            == ExpectedUndropped(LimitsFor(cfg.limits, cls).value, AttemptsBy(cmds, client, cls))
  {
    SharedRedisRefinesBucket(cfg, cmds, client, cls);
    NeverEvictedArrives(cmds, client, cls);
    DroppingUnheard(LimitsFor(cfg.limits, cls).value, AttemptsBy(cmds, client, cls));
  }

  /**
   Fail open, but on the books: whatever fails or is lost and whatever else goes on in Redis, in
   every window one client is admitted at most the envelope of its bucket, plus the debt forgiven
   by drops, plus once per fallback.
   */
  lemma {:induction false} FailOpenLedger(
      cfg: Config, cmds: seq<Command>, client: string, cls: string, p: nat, q: nat)
    requires KnownClass(cls)
    requires p <= q <= |AttemptsBy(cmds, client, cls)|
    ensures |HeardBy(cfg, cmds, client, cls)| == |AttemptsBy(cmds, client, cls)|
    ensures var l, xs := LimitsFor(cfg.limits, cls).value, AttemptsBy(cmds, client, cls);
      WithinEnvelope(l, xs, HeardBy(cfg, cmds, client, cls), p, q)
  {
    SharedRedisRefinesBucket(cfg, cmds, client, cls);
    Ledger(LimitsFor(cfg.limits, cls).value, AttemptsBy(cmds, client, cls), p, q);
  }

  /******* One link's cache entry in the whole system *******/

  /** Redis's clock at each read of the link that took effect. */
  function Reads(cmds: seq<Command>, code: string): seq<int> {
    if cmds == [] then []
    else
      var c := cmds[|cmds| - 1];
      Reads(cmds[..|cmds| - 1], code) +
      if c.Fetch? && c.code == code && c.fault != BeforeEffect then [c.clock] else []
  }

  /** The link is read, but neither set again nor evicted. */
  predicate OnlyRead(cmds: seq<Command>, code: string) {
    forall i :: 0 <= i < |cmds| && KeyOf(cmds[i]) == Some(CacheKey(code)) ==> cmds[i].Fetch?
  }

  /** Since it was set, a link's entry is what its own reads have made of it, whatever else ran. */
  lemma {:induction false} EntryFollowsReads(
      cfg: Config, before: seq<Command>, fill: Command, later: seq<Command>)
    requires fill.Fill? && fill.fault != BeforeEffect && OnlyRead(later, fill.code)
    ensures var times := Reads(later, fill.code);
      At(Run(cfg, before + [fill] + later), CacheKey(fill.code))
      == EntryAfter(fill.url, cfg.cacheTtlMs, [fill.clock] + times, |times|)
    decreases |later|
  {
    var key, cmds := CacheKey(fill.code), before + [fill] + later;
    RunStep(cfg, cmds, key);
    if later == [] {
      assert cmds == before + [fill];
    } else {
      var front, c := later[..|later| - 1], later[|later| - 1];
      assert cmds[..|cmds| - 1] == before + [fill] + front;
      EntryFollowsReads(cfg, before, fill, front);
      if KeyOf(c) == Some(key) {
        CacheKeyInjective(c.code, fill.code);
      }
      if c.Fetch? && c.code == fill.code && c.fault != BeforeEffect {
        var at := [fill.clock] + Reads(front, fill.code);
        assert [fill.clock] + Reads(later, fill.code) == at + [c.clock];
        EntryPrefix(fill.url, cfg.cacheTtlMs, at, c.clock, |at| - 1);
      } else {
        assert Reads(later, fill.code) == Reads(front, fill.code);
      }
    }
  }

  lemma {:induction false} EntryPrefix(url: string, ttlMs: int, at: seq<int>, t: int, k: nat)
    requires k < |at|
    ensures EntryAfter(url, ttlMs, at + [t], k) == EntryAfter(url, ttlMs, at, k)
  {
    if k > 0 {
      EntryPrefix(url, ttlMs, at, t, k - 1);
    }
  }

  /**
   In any run over the shared Redis, a link that was set and neither set again nor evicted since
   answers a read at time t if and only if no gap between its reads, up to t, exceeded the TTL.
   */
  lemma {:induction false} LinkStaysCached(
      cfg: Config, before: seq<Command>, fill: Command, later: seq<Command>, t: int)
    requires fill.Fill? && fill.fault != BeforeEffect && OnlyRead(later, fill.code)
    requires 0 < cfg.cacheTtlMs && Nondecreasing([fill.clock] + Reads(later, fill.code) + [t])
    ensures var ks, at := Run(cfg, before + [fill] + later), [fill.clock] + Reads(later, fill.code) + [t];
      Respond(cfg, Fetch(fill.code, t, NoFault), At(ks, CacheKey(fill.code))) ==
        Cached(if GapsWithin(cfg.cacheTtlMs, at, |at| - 1) then Some(fill.url) else None)
  {
    var at := [fill.clock] + Reads(later, fill.code);
    EntryFollowsReads(cfg, before, fill, later);
    GapsAppend(cfg.cacheTtlMs, at, t);
    SlidingTtl(fill.url, cfg.cacheTtlMs, at, |at| - 1, t);
  }

  lemma GapsAppend(ttlMs: int, at: seq<int>, t: int)
    requires at != [] && Nondecreasing(at + [t])
    ensures var k := |at| - 1;
      && Nondecreasing(at) && at[k] <= t
      && (GapsWithin(ttlMs, at + [t], k + 1) <==> GapsWithin(ttlMs, at, k) && t - at[k] <= ttlMs)
  {
    var all, k := at + [t], |at| - 1;
    assert all[k] == at[k] && all[k + 1] == t;
    assert forall j :: 0 <= j < |at| ==> all[j] == at[j];
  }
}
