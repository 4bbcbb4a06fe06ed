/**
 The handlers as they are written, statement by statement, on one shared server. At every
 await the scheduler may run any steps of any other task. Whatever it runs, a handler's own
 execution is a run of the transition system, so what is proved of runs holds of handlers.
 */
module LinkHandlers {
  import opened Common
  import opened TokenBucket
  import opened RedisStore
  import opened RateLimiting
  import opened UrlCaching
  import opened SharedRedis
  import opened LinkStore
  import opened LinkInvariants
  import opened LinkTheorems
  import opened LinkClicks

  /** What happens around one request: which Redis calls raise, and what runs at the n-th await. */
  datatype World = World(limiter: Fault, read: Fault, fill: Fault, commitFails: bool, others: nat -> seq<Step>)

  /** Steps of other requests; the background is always free to move. */
  predicate Foreign(step: Step, id: nat) {
    !((IsRedirectStep(step) || IsCreateStep(step)) && step.id == id)
  }

  ghost predicate OthersForeign(w: World, id: nat) {
    forall n: nat, i :: 0 <= i < |w.others(n)| ==> Foreign(w.others(n)[i], id)
  }

  lemma {:induction false} AfterPrefix(cfg: Config, steps: seq<Step>, step: Step, k: nat)
    requires k <= |steps|
    ensures After(cfg, steps + [step], k) == After(cfg, steps, k)
  {
    hide Next;
    if k > 0 {
      AfterPrefix(cfg, steps, step, k - 1);
    }
  }

  lemma {:induction false} AfterAppend(cfg: Config, steps: seq<Step>, step: Step)
    ensures After(cfg, steps + [step], |steps| + 1) == Next(cfg, After(cfg, steps, |steps|), step)
  {
    hide Next;
    AfterPrefix(cfg, steps, step, |steps|);
  }

  lemma ForeignKeeps(cfg: Config, s: State, step: Step, id: nat)
    requires Foreign(step, id)
    ensures var s' := Next(cfg, s, step);
      && (id in s.redirects ==> id in s'.redirects && s'.redirects[id] == s.redirects[id])
      && (id in s.creates ==> id in s'.creates && s'.creates[id] == s.creates[id])
  {
    hide Next;
    Frame(cfg, s, step);
    if IsRedirectStep(step) {
      OneRedirectMoves(cfg, s, step);
    }
    if IsCreateStep(step) {
      OneCreateMoves(cfg, s, step);
    }
  }

  /** A cacheless lookup says outcome at some instant after state a and before the last. */
  ghost predicate LookedUpWithin(cfg: Config, steps: seq<Step>, a: nat, code: string, outcome: Outcome) {
    exists j: nat ::
      a < j < |steps| && outcome == Lookup(After(cfg, steps, j).rows, code, After(cfg, steps, j).clock)
  }

  /** In state `free` of the run, codes[k] is the first of the codes that no row carries. */
  ghost predicate FirstFree(cfg: Config, steps: seq<Step>, free: nat, codes: seq<string>, k: nat)
    requires free <= |steps|
  {
    && k < |codes|
    && Resolve(After(cfg, steps, free).rows, codes[k]).None?
    && forall j :: 0 <= j < k ==> Resolve(After(cfg, steps, free).rows, codes[j]).Some?
  }

  /** A create that has asked about its first k codes found all of them taken. */
  lemma AskedAreTaken(cfg: Config, steps: seq<Step>, id: nat)
    requires id in After(cfg, steps, |steps|).creates
    ensures var s := After(cfg, steps, |steps|);
      var c := s.creates[id];
      c.phase.Checking? ==> forall k :: 0 <= k < c.phase.next && k < |c.codes| ==> Resolve(s.rows, c.codes[k]).Some?
  {
    hide Next;
    AlwaysSound(cfg, steps, |steps|);
    assert CreateSound(After(cfg, steps, |steps|).rows, After(cfg, steps, |steps|).creates[id]);
  }

  /** The code was free in some state of the run from `before` on. */
  ghost predicate FreeWithin(cfg: Config, before: seq<Step>, steps: seq<Step>, code: string) {
    exists j: nat :: |before| <= j < |steps| && Resolve(After(cfg, steps, j).rows, code).None?
  }

  /** The limiter lets a request through unless its script answers, and refuses. */
  predicate LetsPass(l: Limits, redis: Keys, key: string, now: int, clock: int, fault: Fault) {
    var reply := CheckReply(l, At(redis, key), now, clock, fault);
    reply.None? || reply.value.allowed
  }

  lemma QueuedIffServed(cfg: Config, steps: seq<Step>, id: nat)
    requires var s := After(cfg, steps, |steps|);
      id !in s.redirects || !IsServed(s.redirects[id])
    ensures id !in After(cfg, steps, |steps|).queue
  {
    if id in After(cfg, steps, |steps|).queue {
      QueuedIsServed(cfg, steps, id);
    }
  }

  datatype RedirectResponse = LimitExceeded | Answered(outcome: Outcome)

  datatype CreateResponse =
    | TooMany
    | Created201(row: nat)
    | Taken409(code: string)
    | Saturated503
    | Error500
    | StillWaiting

  /**
   What each answer of a create that began after the steps `before`, with `rows` rows, says of the
   state s it ends in.
   */
  ghost predicate Justified(
      cfg: Config, before: seq<Step>, rows: nat, steps: seq<Step>, s: State, id: nat, request: Create,
      r: CreateResponse)
  {
    match r
    case TooMany => id !in s.creates
    case Created201(row) => Owns(s, id, row) && rows <= row && RowFor(cfg, before, steps, request, s.rows[row])
    case Taken409(code) =>
      && code in request.codes && Resolve(s.rows, code).Some?
      && (request.custom || FreeWithin(cfg, before, steps, code))
    case Saturated503 => forall k :: 0 <= k < |request.codes| ==> Resolve(s.rows, request.codes[k]).Some?
    case Error500 => id in s.creates && s.creates[id].phase == Failed
    case StillWaiting => exists code :: code in request.codes && HeldByAnother(s, id, code)
  }

  /** The last row is the one this create committed, and its code is nobody else's. */
  predicate Owns(s: State, id: nat, row: nat) {
    && id in s.creates && s.creates[id].phase == CreatePhase.Created(row)
    && row == |s.rows| - 1
    && forall i :: 0 <= i < |s.rows| && i != row ==> s.rows[i].code != s.rows[row].code
  }

  /** The row carries one of the request's codes, its destination and its expiry, and no clicks. */
  ghost predicate RowFor(cfg: Config, before: seq<Step>, steps: seq<Step>, request: Create, row: Row) {
    && row.code in request.codes && row.clicks == 0
    && row.link.longUrl == request.longUrl
    && DatedWithin(cfg, before, steps, request.days, row.link)
  }

  ghost predicate HeldByAnother(s: State, id: nat, code: string) {
    exists other ::
      other in s.creates && other != id && s.creates[other].phase.Inserted? && s.creates[other].phase.code == code
  }

  class Server {
    const cfg: Config
    var s: State
    ghost var steps: seq<Step>

    /** The state is the one that the steps taken so far lead to. */
    ghost predicate Valid()
      reads this
    {
      s == After(cfg, steps, |steps|)
    }

    constructor (cfg: Config)
      ensures this.cfg == cfg && Valid() && steps == []
    {
      this.cfg, this.s, this.steps := cfg, INIT, [];
    }

    predicate RedirectAt(id: nat, visit: Visit, phase: RedirectPhase)
      reads this
    {
      id in s.redirects && s.redirects[id] == Redirect(visit, phase)
    }

    method Do(step: Step)
      requires Valid()
      modifies this
      ensures Valid() && steps == old(steps) + [step] && s == Next(cfg, old(s), step)
    {
      hide Next;
      AfterAppend(cfg, steps, step);
      s := Next(cfg, s, step);
      steps := steps + [step];
    }

    /** This request awaits; other tasks run. */
    method Await(others: seq<Step>, ghost id: nat)
      requires Valid()
      requires forall i :: 0 <= i < |others| ==> Foreign(others[i], id)
      modifies this
      ensures Valid() && steps == old(steps) + others
      ensures id in old(s.redirects) ==> id in s.redirects && s.redirects[id] == old(s.redirects[id])
      ensures id in old(s.creates) ==> id in s.creates && s.creates[id] == old(s.creates[id])
    {
      hide Next, After;
      for n := 0 to |others|
        invariant Valid() && steps == old(steps) + others[..n]
        invariant id in old(s.redirects) ==> id in s.redirects && s.redirects[id] == old(s.redirects[id])
        invariant id in old(s.creates) ==> id in s.creates && s.creates[id] == old(s.creates[id])
      {
        ForeignKeeps(cfg, s, others[n], id);
        Do(others[n]);
      }
    }

    /******* GET /{short_code} *******/

    /** The rate-limit dependency of the redirect route. */
    method Enter(id: nat, visit: Visit, client: string, now: int, fault: Fault)
      requires Valid() && id !in s.redirects
      modifies this
      ensures Valid() && steps == old(steps) + [Arrive(id, visit, client, now, fault)]
      ensures id in s.redirects ==> RedirectAt(id, visit, Reading)
      ensures id in s.redirects <==>
        LetsPass(cfg.limits.redirect, old(s.redis), RateKey(client, "redirect"), now, old(s.redisClock), fault)
    {
      Do(Arrive(id, visit, client, now, fault));
    }

    /** await cache.get_cached_url(short_code) */
    method CachedUrl(id: nat, visit: Visit, fault: Fault) returns (url: Option<string>)
      requires Valid() && RedirectAt(id, visit, Reading)
      modifies this
      ensures Valid() && steps == old(steps) + [CacheRead(id, fault)]
      ensures url == Fetched(At(old(s.redis), CacheKey(visit.code)), old(s.redisClock), fault)
      ensures RedirectAt(id, visit, if url.Some? then Answering(url.value) else Missed)
    {
      url := Fetched(At(s.redis, CacheKey(visit.code)), s.redisClock, fault);
      Do(CacheRead(id, fault));
    }

    /** await repository.get_url(session, short_code) */
    method UrlRow(id: nat, visit: Visit) returns (url: Option<Link>)
      requires Valid() && RedirectAt(id, visit, Missed)
      modifies this
      ensures Valid() && steps == old(steps) + [DbRead(id)]
      ensures url == Resolve(old(s.rows), visit.code)
      ensures RedirectAt(id, visit, Judging(url))
    {
      url := Resolve(s.rows, visit.code);
      Do(DbRead(id));
    }

    /** datetime.now(UTC), and the branch it decides */
    method Now(id: nat, visit: Visit, url: Option<Link>) returns (now: int)
      requires Valid() && RedirectAt(id, visit, Judging(url))
      modifies this
      ensures Valid() && steps == old(steps) + [Judge(id)]
      ensures now == old(s.clock)
      ensures RedirectAt(id, visit,
        if url.None? then Done(NotFound)
        else if IsExpired(url.value, now) then Done(Expired)
        else if url.value.expiresAt.None? then Filling(url.value.longUrl)
        else Answering(url.value.longUrl))
    {
      now := s.clock;
      Do(Judge(id));
    }

    /** await cache.set_cached_url(short_code, long_url) */
    method FillCache(id: nat, visit: Visit, url: string, fault: Fault)
      requires Valid() && RedirectAt(id, visit, Filling(url))
      modifies this
      ensures Valid() && steps == old(steps) + [CacheFill(id, fault)]
      ensures RedirectAt(id, visit, Answering(url))
    {
      Do(CacheFill(id, fault));
    }

    /** Count the success, schedule the click, answer 302. */
    method Finish(id: nat, visit: Visit, url: string)
      requires Valid() && RedirectAt(id, visit, Answering(url))
      modifies this
      ensures Valid() && steps == old(steps) + [Answer(id)]
      ensures RedirectAt(id, visit, Done(Found(url)))
      ensures s.successes == old(s.successes) + 1 && s.queue == old(s.queue)[id := visit]
    {
      Do(Answer(id));
    }

    /** The row read in state `read`, and the clock of state `judged`, which decide the branch. */
    method ReadAndJudge(id: nat, visit: Visit, w: World)
      returns (url: Option<Link>, now: int, ghost read: nat, ghost judged: nat)
      requires Valid() && RedirectAt(id, visit, Missed) && OthersForeign(w, id)
      modifies this
      ensures Valid() && old(steps) <= steps
      ensures |old(steps)| <= read < judged < |steps|
      ensures url == Resolve(After(cfg, steps, read).rows, visit.code) && now == After(cfg, steps, judged).clock
      ensures RedirectAt(id, visit,
        if url.None? then Done(NotFound)
        else if IsExpired(url.value, now) then Done(Expired)
        else if url.value.expiresAt.None? then Filling(url.value.longUrl)
        else Answering(url.value.longUrl))
      ensures CacheFill(id, w.fill) !in steps[|old(steps)|..]
    {
      hide Next, After;
      Await(w.others(1), id);
      read := |steps|;
      ghost var before := steps;
      url := UrlRow(id, visit);
      Await(w.others(2), id);
      judged := |steps|;
      ghost var until := steps;
      now := Now(id, visit, url);
      NoneOfMine(w.others(1), id, w.fill);
      NoneOfMine(w.others(2), id, w.fill);
      assert steps == old(steps) + w.others(1) + [DbRead(id)] + w.others(2) + [Judge(id)];
      PrefixAgrees(cfg, before, steps, read);
      PrefixAgrees(cfg, until, steps, judged);
    }

    /**
     The cache missed. The row read in state `read` is judged on the clock of state `judged`; the
     cache is filled if and only if the link is to be served and never expires.
     */
    method ResolveMiss(id: nat, visit: Visit, w: World)
      returns (refused: Option<Outcome>, longUrl: string, ghost read: nat, ghost judged: nat)
      requires Valid() && RedirectAt(id, visit, Missed) && OthersForeign(w, id)
      modifies this
      ensures Valid() && old(steps) <= steps
      ensures RedirectAt(id, visit, if refused.Some? then Done(refused.value) else Answering(longUrl))
      ensures |old(steps)| <= read < judged < |steps|
      ensures var found := Resolve(After(cfg, steps, read).rows, visit.code);
        var outcome := Judgement(found, After(cfg, steps, judged).clock);
        if refused.Some? then refused.value == outcome && !outcome.Found? else outcome == Found(longUrl)
      ensures CacheFill(id, w.fill) in steps[|old(steps)|..] <==>
        refused.None? && Resolve(After(cfg, steps, read).rows, visit.code).value.expiresAt.None?
    {
      hide Next, After, Resolve;
      var url, now;
      longUrl := "";
      url, now, read, judged := ReadAndJudge(id, visit, w);
      ghost var until := steps;
      if url.None? {
        return Some(NotFound), longUrl, read, judged;
      }
      if IsExpired(url.value, now) {
        return Some(Expired), longUrl, read, judged;
      }
      longUrl := url.value.longUrl;
      if url.value.expiresAt.None? {
        Await(w.others(3), id);
        FillCache(id, visit, longUrl, w.fill);
        PrefixAgrees(cfg, until, steps, read);
        PrefixAgrees(cfg, until, steps, judged);
        assert steps[|steps| - 1] == CacheFill(id, w.fill);
      }
      refused := None;
    }

    /**
     GET /{short_code}. The answer is what a lookup that never touches the cache says at some
     instant between the request's arrival and its answer.
     */
    method RedirectHandler(id: nat, visit: Visit, client: string, now: int, w: World) returns (r: RedirectResponse)
      requires Valid() && id !in s.redirects && OthersForeign(w, id)
      modifies this
      ensures Valid() && old(steps) <= steps
      ensures r.LimitExceeded? <==>
        !LetsPass(cfg.limits.redirect, old(s.redis), RateKey(client, "redirect"), now, old(s.redisClock), w.limiter)
      ensures r.LimitExceeded? ==> id !in s.redirects
      ensures r.Answered? ==> RedirectAt(id, visit, Done(r.outcome))
      ensures r.Answered? ==> LookedUpWithin(cfg, steps, |old(steps)|, visit.code, r.outcome)
      ensures r.Answered? && r.outcome.Found? ==> id in s.queue && s.queue[id] == visit
      ensures id in s.queue ==> r.Answered? && r.outcome.Found?
    {
      hide Next, After, LetsPass;
      Enter(id, visit, client, now, w.limiter);
      if id !in s.redirects {
        QueuedIffServed(cfg, steps, id);
        return LimitExceeded;
      }
      Await(w.others(0), id);
      var cached := CachedUrl(id, visit, w.read);
      var longUrl := "";
      if cached.Some? {
        longUrl := cached.value;
      } else {
        var refused, found, _, _ := ResolveMiss(id, visit, w);
        if refused.Some? {
          PrefixAgrees(cfg, old(steps), steps, |old(steps)|);
          AnsweredWithin(cfg, steps, |old(steps)|, id, visit.code);
          QueuedIffServed(cfg, steps, id);
          return Answered(refused.value);
        }
        longUrl := found;
      }
      Await(w.others(4), id);
      Finish(id, visit, longUrl);
      PrefixAgrees(cfg, old(steps), steps, |old(steps)|);
      AnsweredWithin(cfg, steps, |old(steps)|, id, visit.code);
      r := Answered(Found(longUrl));
    }

    /******* POST /api/urls *******/

    predicate CreateIn(id: nat, request: Create, phase: CreatePhase)
      reads this
    {
      id in s.creates && s.creates[id] == request.(phase := phase)
    }

    /** The rate-limit dependency of the create route. */
    method EnterCreate(id: nat, request: Create, client: string, now: int, fault: Fault)
      requires Valid() && id !in s.creates
      modifies this
      ensures Valid() && steps == old(steps) + [Submit(id, request, client, now, fault)]
      ensures id in s.creates ==> CreateIn(id, request, Checking(0))
      ensures id in s.creates <==>
        LetsPass(cfg.limits.create, old(s.redis), RateKey(client, "create"), now, old(s.redisClock), fault)
    {
      Do(Submit(id, request, client, now, fault));
    }

    /** await repository.code_exists(session, code), and the branch it decides */
    method CodeExists(id: nat, request: Create, k: nat) returns (taken: bool)
      requires Valid() && k < |request.codes| && CreateIn(id, request, Checking(k))
      modifies this
      ensures Valid() && steps == old(steps) + [CheckExists(id)]
      ensures taken == Resolve(old(s.rows), request.codes[k]).Some?
      ensures CreateIn(id, request,
        if !taken then Chosen(request.codes[k])
        else if request.custom then Conflict(request.codes[k])
        else Checking(k + 1))
    {
      taken := Resolve(s.rows, request.codes[k]).Some?;
      Do(CheckExists(id));
    }

    /** A request that finds every candidate taken. */
    method GiveUp(id: nat, request: Create, k: nat)
      requires Valid() && |request.codes| <= k && CreateIn(id, request, Checking(k))
      modifies this
      ensures Valid() && steps == old(steps) + [CheckExists(id)] && CreateIn(id, request, Saturated)
    {
      Do(CheckExists(id));
    }

    /** datetime.now(UTC) + timedelta(days=...), when the link is to expire */
    method Dated(id: nat, request: Create, code: string) returns (link: Link)
      requires Valid() && CreateIn(id, request, Chosen(code))
      modifies this
      ensures Valid() && steps == old(steps) + [Stamp(id)]
      ensures link.longUrl == request.longUrl && LinkStamped(old(s), request.days, link)
      ensures CreateIn(id, request, Inserting(code, link))
    {
      link := Link(request.longUrl, ExpiryAt(request.days, s.clock));
      Do(Stamp(id));
    }

    /** session.flush(): fails on a committed duplicate, waits for an uncommitted one. */
    method TryInsert(id: nat, request: Create, code: string, link: Link) returns (waits: bool, duplicate: bool)
      requires Valid() && CreateIn(id, request, Inserting(code, link))
      modifies this
      ensures Valid() && steps == old(steps) + [Insert(id)]
      ensures duplicate == Resolve(old(s.rows), code).Some?
      ensures waits == (!duplicate && Held(old(s), id, code)) && (waits ==> s == old(s))
      ensures CreateIn(id, request,
        if duplicate then Conflict(code) else if waits then Inserting(code, link) else Inserted(code, link))
    {
      duplicate := Resolve(s.rows, code).Some?;
      waits := !duplicate && Held(s, id, code);
      Do(Insert(id));
    }

    method CommitSession(id: nat, request: Create, code: string, link: Link)
      requires Valid() && CreateIn(id, request, Inserted(code, link))
      modifies this
      ensures Valid() && steps == old(steps) + [Commit(id)]
      ensures CreateIn(id, request, Created(|old(s.rows)|)) && s.rows == old(s.rows) + [Row(code, link, 0)]
    {
      Do(Commit(id));
    }

    method RollBackSession(id: nat, request: Create, code: string, link: Link)
      requires Valid() && CreateIn(id, request, Inserted(code, link))
      modifies this
      ensures Valid() && steps == old(steps) + [Rollback(id)]
      ensures CreateIn(id, request, Failed) && s.rows == old(s.rows)
    {
      Do(Rollback(id));
    }

    /** The session dependency: commit, or roll back when something raised. */
    method EndSession(id: nat, request: Create, code: string, link: Link, fails: bool) returns (row: nat)
      requires Valid() && CreateIn(id, request, Inserted(code, link))
      modifies this
      ensures Valid() && old(steps) <= steps
      ensures row == |old(s.rows)|
      ensures fails ==> CreateIn(id, request, Failed) && s.rows == old(s.rows)
      ensures !fails ==> CreateIn(id, request, Created(row)) && s.rows == old(s.rows) + [Row(code, link, 0)]
    {
      hide Next, After;
      row := |s.rows|;
      if fails {
        RollBackSession(id, request, code, link);
      } else {
        CommitSession(id, request, code, link);
      }
    }

    /**
     The custom code, or the first candidate found free: codes[k] in state `free`. The link is the
     request's, expiring its days after the clock of state `dated`. A 409 is for a custom code.
     */
    method ChooseCode(id: nat, request: Create, w: World)
      returns (refused: Option<CreateResponse>, code: string, link: Link,
               ghost k: nat, ghost free: nat, ghost dated: nat)
      requires Valid() && CreateIn(id, request, Checking(0)) && OthersForeign(w, id)
      modifies this
      ensures Valid() && old(steps) <= steps
      ensures refused.None? ==>
        && CreateIn(id, request, Inserting(code, link))
        && |old(steps)| <= free < dated < |steps|
        && FirstFree(cfg, steps, free, request.codes, k) && code == request.codes[k] && (request.custom ==> k == 0)
        && link.longUrl == request.longUrl && LinkStamped(After(cfg, steps, dated), request.days, link)
      ensures refused.Some? ==>
        || (refused.value == Saturated503 && CreateIn(id, request, Saturated))
        || (refused.value == Taken409(code) && CreateIn(id, request, Conflict(code)) && request.custom)
    {
      hide Next, After;
      refused, code, link, k, free, dated := None, "", Link("", None), 0, 0, 0;
      var next := 0;
      while next < |request.codes|
        invariant Valid() && old(steps) <= steps && next <= |request.codes|
        invariant CreateIn(id, request, Checking(next)) && (request.custom ==> next == 0)
      {
        Await(w.others(next), id);
        AskedAreTaken(cfg, steps, id);
        k, free := next, |steps|;
        ghost var asked := steps;
        var taken := CodeExists(id, request, next);
        code := request.codes[next];
        if !taken {
          Await(w.others(|request.codes|), id);
          dated := |steps|;
          ghost var until := steps;
          link := Dated(id, request, code);
          PrefixAgrees(cfg, asked, steps, free);
          PrefixAgrees(cfg, until, steps, dated);
          return;
        }
        if request.custom {
          return Some(Taken409(code)), code, link, k, free, dated;
        }
        next := next + 1;
      }
      GiveUp(id, request, next);
      refused := Some(Saturated503);
    }

    /** Insert, waiting while another transaction holds the code. */
    method InsertRow(id: nat, request: Create, code: string, link: Link, patience: nat, w: World)
      returns (refused: Option<CreateResponse>)
      requires Valid() && CreateIn(id, request, Inserting(code, link)) && OthersForeign(w, id)
      modifies this
      ensures Valid() && old(steps) <= steps
      ensures refused.None? ==> CreateIn(id, request, Inserted(code, link))
      ensures refused.Some? ==>
        || (refused.value == StillWaiting && CreateIn(id, request, Inserting(code, link)) && Held(s, id, code))
        || (refused.value == Taken409(code) && CreateIn(id, request, Conflict(code)))
    {
      hide Next, After, Held;
      for tries := 0 to patience + 1
        invariant Valid() && old(steps) <= steps
        invariant CreateIn(id, request, Inserting(code, link)) && (0 < tries ==> Held(s, id, code))
      {
        Await(w.others(|request.codes| + 1 + tries), id);
        var waits, duplicate := TryInsert(id, request, code, link);
        if duplicate {
          return Some(Taken409(code));
        }
        if !waits {
          return None;
        }
      }
      refused := Some(StillWaiting);
    }

    /** The session ends: the new row is the only one with its code, or there is none. */
    method Conclude(id: nat, request: Create, code: string, link: Link, fails: bool) returns (r: CreateResponse)
      requires Valid() && CreateIn(id, request, Inserted(code, link))
      modifies this
      ensures Valid() && old(steps) <= steps
      ensures if fails then r == Error500 && CreateIn(id, request, Failed) else r == Created201(|old(s.rows)|)
      ensures !fails ==>
        && CreateIn(id, request, Created(r.row)) && s.rows == old(s.rows) + [Row(code, link, 0)]
        && code in request.codes
        && (forall i :: 0 <= i < |s.rows| && i != r.row ==> s.rows[i].code != code)
    {
      hide Next, After;
      var row := EndSession(id, request, code, link, fails);
      CreateFacts(cfg, steps, id);
      r := if fails then Error500 else Created201(row);
    }

    /**
     POST /api/urls. A 201 has added one row during the request, carrying one of its codes, its
     destination and its expiry, and that code is nobody else's; a 409 names a code that is taken;
     a 503 means that every candidate is. `patience` bounds how often the blocked insert is looked
     at again before the request is reported as still waiting for another one.
     */
    method CreateHandler(id: nat, request: Create, client: string, now: int, patience: nat, w: World)
      returns (r: CreateResponse)
      requires Valid() && id !in s.creates && OthersForeign(w, id)
      modifies this
      ensures Valid() && old(steps) <= steps
      ensures r.TooMany? <==>
        !LetsPass(cfg.limits.create, old(s.redis), RateKey(client, "create"), now, old(s.redisClock), w.limiter)
      ensures r.Created201? ==> !w.commitFails
      ensures r.Error500? ==> w.commitFails
      ensures Justified(cfg, old(steps), |old(s.rows)|, steps, s, id, request, r)
    {
      hide Next, After, Held, Resolve, LetsPass, Justified, LinkStamped;
      EnterCreate(id, request, client, now, w.limiter);
      if id !in s.creates {
        NeverEntered(cfg, old(steps), |old(s.rows)|, steps, s, id, request);
        return TooMany;
      }
      var refused, code, link, _, free, dated := ChooseCode(id, request, w);
      ghost var chosen := steps;
      if refused.None? {
        refused := InsertRow(id, request, code, link, patience, w);
        PrefixAgrees(cfg, chosen, steps, free);
        assert FreeWithin(cfg, old(steps), steps, code);
      }
      if refused.Some? {
        RefusalJustified(cfg, old(steps), |old(s.rows)|, steps, s, id, request, code, link, refused.value);
        return refused.value;
      }
      Await(w.others(|request.codes| + 2 + patience), id);
      RowsGrow(cfg, old(steps), steps);
      r := Conclude(id, request, code, link, w.commitFails);
      PrefixAgrees(cfg, chosen, steps, dated);
      assert DatedWithin(cfg, old(steps), steps, request.days, link);
      EndJustified(cfg, old(steps), |old(s.rows)|, steps, s, id, request, code, link, r);
    }
  }

  lemma NeverEntered(
      cfg: Config, before: seq<Step>, rows: nat, steps: seq<Step>, s: State, id: nat, request: Create)
    requires id !in s.creates
    ensures Justified(cfg, before, rows, steps, s, id, request, TooMany)
  {
  }

  /** A refusal is justified by the phase it leaves the create in. */
  lemma RefusalJustified(
      cfg: Config, before: seq<Step>, rows: nat, steps: seq<Step>, s: State, id: nat, request: Create,
      code: string, link: Link, r: CreateResponse)
    requires s == After(cfg, steps, |steps|) && id in s.creates
    requires
      || (r == Saturated503 && s.creates[id] == request.(phase := Saturated))
      || (r == Taken409(code) && s.creates[id] == request.(phase := Conflict(code)) &&
          (request.custom || FreeWithin(cfg, before, steps, code)))
      || (r == StillWaiting && s.creates[id] == request.(phase := Inserting(code, link)) && Held(s, id, code))
    ensures Justified(cfg, before, rows, steps, s, id, request, r)
  {
    hide After, Held, FreeWithin;
    CreateFacts(cfg, steps, id);
    if r.StillWaiting? {
      HeldIsByAnother(s, id, code);
    }
  }

  lemma EndJustified(
      cfg: Config, before: seq<Step>, rows: nat, steps: seq<Step>, s: State, id: nat, request: Create,
      code: string, link: Link, r: CreateResponse)
    requires id in s.creates
    requires
      || (r == Error500 && s.creates[id].phase == Failed)
      || (s.rows != [] && r == Created201(|s.rows| - 1) && rows <= |s.rows| - 1
          && s.creates[id].phase == CreatePhase.Created(r.row) && s.rows[r.row] == Row(code, link, 0)
          && code in request.codes && link.longUrl == request.longUrl
          && DatedWithin(cfg, before, steps, request.days, link)
          && forall i :: 0 <= i < |s.rows| && i != r.row ==> s.rows[i].code != code)
    ensures Justified(cfg, before, rows, steps, s, id, request, r)
  {
  }

  lemma HeldIsByAnother(s: State, id: nat, code: string)
    requires Held(s, id, code)
    ensures HeldByAnother(s, id, code)
  {
  }

  /** The link's days were counted from a state of the run after `before`. */
  ghost predicate DatedWithin(cfg: Config, before: seq<Step>, steps: seq<Step>, days: Option<nat>, link: Link) {
    exists j: nat :: |before| <= j < |steps| && LinkStamped(After(cfg, steps, j), days, link)
  }

  lemma NoneOfMine(others: seq<Step>, id: nat, fault: Fault)
    requires forall i :: 0 <= i < |others| ==> Foreign(others[i], id)
    ensures CacheFill(id, fault) !in others
  {
  }

  lemma RowsGrow(cfg: Config, before: seq<Step>, steps: seq<Step>)
    requires before <= steps
    ensures |After(cfg, before, |before|).rows| <= |After(cfg, steps, |steps|).rows|
  {
    hide Next;
    PrefixAgrees(cfg, before, steps, |before|);
    RunExtends(cfg, steps, |before|, |steps|);
  }

  /** What the phase of a create says about the database. */
  predicate TrueOf(rows: seq<Row>, c: Create) {
    match c.phase
    case Inserting(code, _) => code in c.codes
    case Conflict(code) => code in c.codes && Resolve(rows, code).Some?
    case Saturated => forall k :: 0 <= k < |c.codes| ==> Resolve(rows, c.codes[k]).Some?
    case Created(row) =>
      && row < |rows| && rows[row].code in c.codes
      && forall i :: 0 <= i < |rows| && i != row ==> rows[i].code != rows[row].code
    case _ => true
  }

  lemma CreateFacts(cfg: Config, steps: seq<Step>, id: nat)
    requires id in After(cfg, steps, |steps|).creates
    ensures var s := After(cfg, steps, |steps|);
      TrueOf(s.rows, s.creates[id])
  {
    hide Next;
    AlwaysSound(cfg, steps, |steps|);
    var s := After(cfg, steps, |steps|);
    assert CreateSound(s.rows, s.creates[id]) && UniqueCodes(s.rows);
  }

  lemma {:induction false} PrefixAgrees(cfg: Config, before: seq<Step>, steps: seq<Step>, k: nat)
    requires before <= steps && k <= |before|
    ensures After(cfg, steps, k) == After(cfg, before, k)
  {
    hide Next;
    if k > 0 {
      PrefixAgrees(cfg, before, steps, k - 1);
    }
  }

  /** A redirect that starts after state a and is done was answered by a lookup in between. */
  lemma {:induction false} AnsweredWithin(cfg: Config, steps: seq<Step>, a: nat, id: nat, code: string)
    requires a <= |steps| && AnsweredBetween(cfg, steps, a, |steps|, id, code)
    ensures LookedUpWithin(cfg, steps, a, code, After(cfg, steps, |steps|).redirects[id].phase.outcome)
  {
    hide Next;
    var b := |steps|;
    CacheRefinesDatabase(cfg, steps, b, id);
    var j: nat :| InstantOf(cfg, steps, j, b, id, After(cfg, steps, b).redirects[id].phase.outcome);
    if j <= a {
      RedirectPersists(cfg, steps, j, a, id);
    }
    RedirectPersists(cfg, steps, j, b, id);
  }
}
