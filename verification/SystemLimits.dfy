/**
 The rate limiter inside the running system: the link store's Redis is the shared Redis of
 the limiter's theorems, so they hold of every run of the whole system.
 */
module SystemLimits {
  import opened Common
  import opened TokenBucket
  import opened RedisStore
  import opened RateLimiting
  import opened BucketExpiry
  import opened FailOpen
  import opened SharedRedis
  import opened LinkStore
  import opened LinkInvariants

  /** The Redis command a step issues, if it issues one. */
  function CommandOf(s: State, step: Step): Option<Command> {
    match step
    case Arrive(id, _, client, now, fault) =>
      if id in s.redirects then None else Some(Check(client, "redirect", now, s.redisClock, fault))
    case Submit(id, _, client, now, fault) =>
      if id in s.creates then None else Some(Check(client, "create", now, s.redisClock, fault))
    case CacheRead(id, fault) =>
      if id !in s.redirects || s.redirects[id].phase != Reading then None
      else Some(Fetch(s.redirects[id].visit.code, s.redisClock, fault))
    case CacheFill(id, fault) =>
      if id !in s.redirects || !s.redirects[id].phase.Filling? then None
      else Some(Fill(s.redirects[id].visit.code, s.redirects[id].phase.url, s.redisClock, fault))
    case Lose(key) => Some(Evict(key))
    case _ => None
  }

  /** The commands issued by the first k steps of a run. */
  function Commands(cfg: Config, steps: seq<Step>, k: nat): seq<Command>
    requires k <= |steps|
  {
    if k == 0 then []
    else
      var before, c := Commands(cfg, steps, k - 1), CommandOf(After(cfg, steps, k - 1), steps[k - 1]);
      if c.Some? then before + [c.value] else before
  }

  lemma RunAppend(cfg: Config, cmds: seq<Command>, c: Command)
    ensures var ks := Run(cfg, cmds);
      Run(cfg, cmds + [c]) ==
        if KeyOf(c).None? then ks else Store(ks, KeyOf(c).value, EntryAfterCommand(cfg, c, At(ks, KeyOf(c).value)))
  {
    assert (cmds + [c])[..|cmds|] == cmds;
  }

  /** Writing back what a command leaves is the same as storing it. */
  lemma PutIsStore(ks: Keys, key: string, e: Option<Entry>)
    requires e.None? ==> At(ks, key).None?
    ensures Put(ks, key, e) == Store(ks, key, e)
  {
    if e.None? {
      assert ks - {key} == ks;
    }
  }

  /** The store after the command of a step, if it has one. */
  function AfterCommand(cfg: Config, s: State, step: Step): Keys {
    var c := CommandOf(s, step);
    if c.None? || KeyOf(c.value).None? then s.redis
    else
      var key := KeyOf(c.value).value;
      Store(s.redis, key, EntryAfterCommand(cfg, c.value, At(s.redis, key)))
  }

  lemma StepRunsCommand(cfg: Config, s: State, step: Step)
    ensures Next(cfg, s, step).redis == AfterCommand(cfg, s, step)
  {
    hide Next, RedirectNext, CreateNext, StatsNext, AfterCommand;
    NextByKind(cfg, s, step);
    Frame(cfg, s, step);
    if IsRedirectStep(step) {
      RedirectRunsCommand(cfg, s, step);
    } else if IsCreateStep(step) {
      CreateRunsCommand(cfg, s, step);
    } else {
      RestRunsCommand(cfg, s, step);
    }
  }

  lemma RedirectRunsCommand(cfg: Config, s: State, step: Step)
    requires IsRedirectStep(step)
    ensures RedirectNext(cfg, s, step).redis == AfterCommand(cfg, s, step)
  {
    hide Put, Store, RateKey, CacheKey;
    var c := CommandOf(s, step);
    if c.Some? {
      var key := KeyOf(c.value).value;
      PutIsStore(s.redis, key, EntryAfterCommand(cfg, c.value, At(s.redis, key)));
    }
  }

  lemma CreateRunsCommand(cfg: Config, s: State, step: Step)
    requires IsCreateStep(step)
    ensures CreateNext(cfg, s, step).redis == AfterCommand(cfg, s, step)
  {
    hide Put, Store, RateKey;
    var c := CommandOf(s, step);
    if c.Some? {
      var key := KeyOf(c.value).value;
      PutIsStore(s.redis, key, EntryAfterCommand(cfg, c.value, At(s.redis, key)));
    }
  }

  lemma RestRunsCommand(cfg: Config, s: State, step: Step)
    requires !IsRedirectStep(step) && !IsCreateStep(step)
    ensures AfterCommand(cfg, s, step) == if step.Lose? then s.redis - {step.key} else s.redis
  {
  }

  /** The link store's Redis is the shared Redis after the commands the run has issued. */
  lemma {:induction false} RedisIsShared(cfg: Config, steps: seq<Step>, k: nat)
    requires k <= |steps|
    ensures After(cfg, steps, k).redis == Run(cfg, Commands(cfg, steps, k))
  {
    hide Next;
    if k > 0 {
      RedisIsShared(cfg, steps, k - 1);
      var s, step := After(cfg, steps, k - 1), steps[k - 1];
      StepRunsCommand(cfg, s, step);
      if CommandOf(s, step).Some? {
        RunAppend(cfg, Commands(cfg, steps, k - 1), CommandOf(s, step).value);
      }
    }
  }

  /** What a client hears of one more check, after the first k steps of a run. */
  function Checked(cfg: Config, steps: seq<Step>, k: nat, client: string, cls: string, now: int, fault: Fault):
    RateLimitResult
    requires k <= |steps| && KnownClass(cls)
  {
    var check := Check(client, cls, now, After(cfg, steps, k).redisClock, fault);
    Respond(cfg, check, At(Run(cfg, Commands(cfg, steps, k)), RateKey(client, cls))).result
  }

  /** A redirect enters its handler exactly when its check in the shared Redis lets it pass. */
  lemma EntersIffAllowed(
      cfg: Config, steps: seq<Step>, k: nat, id: nat, visit: Visit, client: string, now: int, fault: Fault)
    requires k <= |steps| && id !in After(cfg, steps, k).redirects
    ensures id in Next(cfg, After(cfg, steps, k), Arrive(id, visit, client, now, fault)).redirects
       <==> Checked(cfg, steps, k, client, "redirect", now, fault).allowed
  {
    RedisIsShared(cfg, steps, k);
  }

  /** A create likewise. */
  lemma CreateEntersIffAllowed(
      cfg: Config, steps: seq<Step>, k: nat, id: nat, request: Create, client: string, now: int, fault: Fault)
    requires k <= |steps| && id !in After(cfg, steps, k).creates
    ensures id in Next(cfg, After(cfg, steps, k), Submit(id, request, client, now, fault)).creates
       <==> Checked(cfg, steps, k, client, "create", now, fault).allowed
  {
    RedisIsShared(cfg, steps, k);
  }

  /** The checks of one client on one route class in a run of the whole system. */
  function Attempts(cfg: Config, steps: seq<Step>, client: string, cls: string): seq<Attempt> {
    AttemptsBy(Commands(cfg, steps, |steps|), client, cls)
  }

  /** What that client hears. */
  function Heard(cfg: Config, steps: seq<Step>, client: string, cls: string): seq<RateLimitResult>
    requires KnownClass(cls)
  {
    HeardBy(cfg, Commands(cfg, steps, |steps|), client, cls)
  }

  /**
   In every run of the whole system and every window of it, whatever the other clients, the cache,
   the database, either clock and Redis's failures and losses do, one client's admissions on one
   route class are within the envelope of its bucket, plus the debt forgiven by drops, plus once
   per fallback.
   */
  lemma {:induction false} SystemObeysLimits(
      cfg: Config, steps: seq<Step>, client: string, cls: string, p: nat, q: nat)
    requires KnownClass(cls)
    requires p <= q <= |Attempts(cfg, steps, client, cls)|
    ensures |Heard(cfg, steps, client, cls)| == |Attempts(cfg, steps, client, cls)|
    ensures cls == "redirect" ==>
      WithinEnvelope(cfg.limits.redirect, Attempts(cfg, steps, client, cls), Heard(cfg, steps, client, cls), p, q)
    ensures cls == "create" ==>
      WithinEnvelope(cfg.limits.create, Attempts(cfg, steps, client, cls), Heard(cfg, steps, client, cls), p, q)
  {
    FailOpenLedger(cfg, Commands(cfg, steps, |steps|), client, cls, p, q);
  }

  /**
   In particular, if Redis never loses the bucket other than by its TTL and the clocks keep step,
   nothing is forgiven: the admissions of every window are within the plain envelope plus once per
   fallback.
   */
  lemma {:induction false} SystemForgivesNothing(
      cfg: Config, steps: seq<Step>, client: string, cls: string, p: nat, q: nat)
    requires KnownClass(cls) && Lose(RateKey(client, cls)) !in steps
    requires DriftTolerated(Commands(cfg, steps, |steps|), client, cls)
    requires p <= q <= |Attempts(cfg, steps, client, cls)|
    ensures |Heard(cfg, steps, client, cls)| == |Attempts(cfg, steps, client, cls)|
    ensures var l := if cls == "redirect" then cfg.limits.redirect else cfg.limits.create;
      var xs := Attempts(cfg, steps, client, cls);
      var rs, arr, i := Heard(cfg, steps, client, cls)[p..q], Arrivals(xs[..q]), |Arrivals(xs[..p])|;
      && i <= |arr|
      && UNIT * (Admissions(rs) - Fallbacks(rs)) <=
         if i == |arr| then 0 else Budget(l, Forward(Times(arr), i, |arr| - 1))
  {
    hide AttemptsBy, HeardBy, Arrivals, WindowBudget, Admissions, Fallbacks;
    var cmds := Commands(cfg, steps, |steps|);
    SystemObeysLimits(cfg, steps, client, cls, p, q);
    EvictionsAreLosses(cfg, steps, |steps|, RateKey(client, cls));
    NeverEvictedArrives(cmds, client, cls);
    NothingForgiven(LimitsFor(cfg.limits, cls).value, AttemptsBy(cmds, client, cls), p, q);
  }

  /**
   Each class admits its own burst: when the application's clock stands still, n checks of one
   client that are all answered pass exactly min(n, capacity) redirects, or creates, whatever
   everyone else does.
   */
  lemma {:induction false} FrozenSystemAdmitsCapacity(
      cfg: Config, steps: seq<Step>, client: string, cls: string, now: int)
    requires KnownClass(cls) && Lose(RateKey(client, cls)) !in steps
    requires DriftTolerated(Commands(cfg, steps, |steps|), client, cls)
    requires forall x :: x in Attempts(cfg, steps, client, cls) ==> x.fault == NoFault && x.now == now
    ensures var n, passed := |Attempts(cfg, steps, client, cls)|, Where(Heard(cfg, steps, client, cls), IsAdmission());
      && (cls == "redirect" ==> |passed| == Min(n, cfg.limits.redirect.capacity))
      && (cls == "create" ==> |passed| == Min(n, cfg.limits.create.capacity))
  {
    hide Expected, Arrivals, AttemptsBy, HeardBy, Where;
    var cmds, xs := Commands(cfg, steps, |steps|), Attempts(cfg, steps, client, cls);
    EvictionsAreLosses(cfg, steps, |steps|, RateKey(client, cls));
    NeverEvictedArrives(cmds, client, cls);
    SharedRedisRefinesBucket(cfg, cmds, client, cls);
    FrozenAdmissions(LimitsFor(cfg.limits, cls).value, xs, now);
    LedgerCounts(Heard(cfg, steps, client, cls));
  }

  lemma {:induction false} EvictionsAreLosses(cfg: Config, steps: seq<Step>, k: nat, key: string)
    requires k <= |steps| && Lose(key) !in steps
    ensures Evict(key) !in Commands(cfg, steps, k)
  {
    if k > 0 {
      EvictionsAreLosses(cfg, steps, k - 1, key);
      assert steps[k - 1] in steps;
    }
  }
}
