/**
 The link store as a transition system. Handlers interleave wherever they await, so each
 handler is a task that advances by atomic steps: one Redis call, one database statement, or
 the code between two of them. Any sequence of steps is a run; a step that is not possible in
 a state leaves it unchanged.
 */
module LinkStore {
  import opened Common
  import opened RedisStore
  import opened RateLimiting
  import opened UrlCaching
  import opened SharedRedis

  /******* Tables *******/

  /** What a short code stands for. No expiry means never. */
  datatype Link = Link(longUrl: string, expiresAt: Option<int>)

  datatype Row = Row(code: string, link: Link, clicks: nat)

  datatype Click = Click(code: string, referrer: Option<string>, clickedAt: int)

  /** One entry of the referrer report. */
  datatype Group = Group(referrer: Option<string>, count: nat)

  /** One request for a short code; once served, it is to be recorded as a click. */
  datatype Visit = Visit(code: string, referrer: Option<string>)

  function FindRow(rows: seq<Row>, code: string): Option<Row> {
    if rows == [] then None
    else if rows[0].code == code then Some(rows[0])
    else FindRow(rows[1..], code)
  }

  function Resolve(rows: seq<Row>, code: string): Option<Link> {
    var row := FindRow(rows, code);
    if row.None? then None else Some(row.value.link)
  }

  function IsExpired(link: Link, now: int): bool {
    link.expiresAt.Some? && link.expiresAt.value <= now
  }

  datatype Outcome = Found(longUrl: string) | NotFound | Expired

  function Judgement(found: Option<Link>, now: int): Outcome {
    if found.None? then NotFound
    else if IsExpired(found.value, now) then Expired
    else Found(found.value.longUrl)
  }

  /** What a redirect answers when it asks the database and nothing else. */
  function Lookup(rows: seq<Row>, code: string, now: int): Outcome {
    Judgement(Resolve(rows, code), now)
  }

  /** UPDATE urls SET click_count = click_count + 1 WHERE short_code = code */
  function Bump(rows: seq<Row>, code: string): (r: seq<Row>)
    ensures |r| == |rows|
  {
    seq(|rows|, i requires 0 <= i < |rows| =>
      if rows[i].code == code then rows[i].(clicks := rows[i].clicks + 1) else rows[i])
  }

  function EventCount(events: seq<Click>, code: string): nat {
    if events == [] then 0
    else EventCount(events[..|events| - 1], code) + if events[|events| - 1].code == code then 1 else 0
  }

  /******* Tasks: requests in flight, and the background task of each served redirect *******/

  /** Where a redirect that passed the rate limiter has got to. */
  datatype RedirectPhase =
    | Reading
    | Missed
    | Judging(found: Option<Link>)
    | Filling(url: string)
    | Answering(url: string)
    | Done(outcome: Outcome)

  datatype Redirect = Redirect(visit: Visit, phase: RedirectPhase)

  datatype CreatePhase =
    | Checking(next: nat)
    | Chosen(code: string)
    | Inserting(code: string, link: Link)
    | Inserted(code: string, link: Link)
    | Created(row: nat)
    | Conflict(code: string)
    | Saturated
    | Failed

  /** `codes` is the custom code alone, or the candidates the generator will draw. */
  datatype Create = Create(custom: bool, codes: seq<string>, longUrl: string, days: Option<nat>, phase: CreatePhase)

  datatype StatsPhase =
    | Missing
    | Counted(clicks: nat)
    | Listed(clicks: nat, recent: seq<Click>)
    | Reported(clicks: nat, recent: seq<Click>, top: seq<Group>)

  datatype Stats = Stats(code: string, phase: StatsPhase)

  datatype State = State(
    clock: int,
    redisClock: int,
    redis: Keys,
    rows: seq<Row>,
    events: seq<Click>,
    queue: map<nat, Visit>,
    lost: map<nat, Visit>,
    redirects: map<nat, Redirect>,
    creates: map<nat, Create>,
    stats: map<nat, Stats>,
    successes: nat)

  const INIT := State(0, 0, map[], [], [], map[], map[], map[], map[], map[], 0)

  /******* Steps *******/

  datatype Step =
    // clocks, which may be set back, and Redis losing a key to expiry, eviction, deletion or a restart
    | Tick(ms: int)
    | RedisTick(ms: int)
    | Lose(key: string)
    // GET /{short_code}
    | Arrive(id: nat, visit: Visit, client: string, now: int, fault: Fault)
    | CacheRead(id: nat, fault: Fault)
    | DbRead(id: nat)
    | Judge(id: nat)
    | CacheFill(id: nat, fault: Fault)
    | Answer(id: nat)
    // the background task of a redirect: one transaction, or an error
    | Record(id: nat, at: int)
    | Drop(id: nat)
    // POST /api/urls
    | Submit(id: nat, request: Create, client: string, now: int, fault: Fault)
    | CheckExists(id: nat)
    | Stamp(id: nat)
    | Insert(id: nat)
    | Commit(id: nat)
    | Rollback(id: nat)
    // GET /api/urls/{short_code}/stats
    | StatsCount(id: nat, target: string)
    | StatsRecent(id: nat, recent: seq<Click>, rest: seq<Click>)
    | StatsTop(id: nat, top: seq<Group>, others: seq<Group>)

  const RECENT_LIMIT := 20
  const TOP_LIMIT := 10
  const MS_PER_DAY := 86400000

  /** The rate-limit dependency: the state after the check, and whether the handler runs. */
  function PassLimiter(cfg: Config, s: State, cls: string, client: string, now: int, fault: Fault): (State, bool)
    requires KnownClass(cls)
  {
    var l, key := LimitsFor(cfg.limits, cls).value, RateKey(client, cls);
    var e := At(s.redis, key);
    (s.(redis := Put(s.redis, key, CheckEntry(l, e, now, s.redisClock, fault))),
     ResultOf(CheckReply(l, e, now, s.redisClock, fault)).allowed)
  }

  /** At most the one redirect differs, and it stays the same visit. */
  ghost predicate OneRedirectMoved(s: State, s': State, id: nat) {
    && (forall other :: other != id ==> (other in s'.redirects <==> other in s.redirects))
    && (forall other :: other != id && other in s.redirects ==> s'.redirects[other] == s.redirects[other])
    && (id in s.redirects ==> id in s'.redirects && s'.redirects[id].visit == s.redirects[id].visit)
  }

  function AtPhase(s: State, id: nat, phase: RedirectPhase): State
    requires id in s.redirects
  {
    s.(redirects := s.redirects[id := s.redirects[id].(phase := phase)])
  }

  function DoArrive(cfg: Config, s: State, id: nat, visit: Visit, client: string, now: int, fault: Fault): (r: State)
    ensures r == s.(redis := r.redis, redirects := r.redirects)
    ensures OneRedirectMoved(s, r, id)
  {
    if id in s.redirects then s
    else
      var (s', allowed) := PassLimiter(cfg, s, "redirect", client, now, fault);
      if allowed then s'.(redirects := s.redirects[id := Redirect(visit, Reading)]) else s'
  }

  function DoCacheRead(cfg: Config, s: State, id: nat, fault: Fault): (r: State)
    ensures r == s.(redis := r.redis, redirects := r.redirects)
    ensures OneRedirectMoved(s, r, id)
  {
    if id !in s.redirects || s.redirects[id].phase != Reading then s
    else
      var key := CacheKey(s.redirects[id].visit.code);
      var e := At(s.redis, key);
      var got := Fetched(e, s.redisClock, fault);
      AtPhase(s, id, if got.Some? then Answering(got.value) else Missed).(
        redis := Put(s.redis, key, FetchEntry(e, cfg.cacheTtlMs, s.redisClock, fault)))
  }

  function DoDbRead(s: State, id: nat): (r: State)
    ensures r == s.(redirects := r.redirects)
    ensures OneRedirectMoved(s, r, id)
  {
    if id !in s.redirects || s.redirects[id].phase != Missed then s
    else AtPhase(s, id, Judging(Resolve(s.rows, s.redirects[id].visit.code)))
  }

  function DoJudge(s: State, id: nat): (r: State)
    ensures r == s.(redirects := r.redirects)
    ensures OneRedirectMoved(s, r, id)
  {
    if id !in s.redirects || !s.redirects[id].phase.Judging? then s
    else
      var found := s.redirects[id].phase.found;
      AtPhase(s, id,
        if found.None? then Done(NotFound)
        else if IsExpired(found.value, s.clock) then Done(Expired)
        else if found.value.expiresAt.None? then Filling(found.value.longUrl)
        else Answering(found.value.longUrl))
  }

  function DoCacheFill(cfg: Config, s: State, id: nat, fault: Fault): (r: State)
    ensures r == s.(redis := r.redis, redirects := r.redirects)
    ensures OneRedirectMoved(s, r, id)
  {
    if id !in s.redirects || !s.redirects[id].phase.Filling? then s
    else
      var key, url := CacheKey(s.redirects[id].visit.code), s.redirects[id].phase.url;
      AtPhase(s, id, Answering(url)).(
        redis := Put(s.redis, key, FillEntry(At(s.redis, key), url, cfg.cacheTtlMs, s.redisClock, fault)))
  }

  function DoAnswer(s: State, id: nat): (r: State)
    ensures r == s.(redirects := r.redirects, successes := r.successes, queue := r.queue)
    ensures OneRedirectMoved(s, r, id)
  {
    if id !in s.redirects || !s.redirects[id].phase.Answering? then s
    else
      AtPhase(s, id, Done(Found(s.redirects[id].phase.url))).(
        successes := s.successes + 1,
        queue := s.queue[id := s.redirects[id].visit])
  }

  function DoRecord(s: State, id: nat, at: int): (r: State)
    ensures r == s.(queue := r.queue, events := r.events, rows := r.rows)
  {
    if id !in s.queue then s
    else
      var visit := s.queue[id];
      s.(queue := s.queue - {id},
         events := s.events + [Click(visit.code, visit.referrer, at)],
         rows := Bump(s.rows, visit.code))
  }

  function DoDrop(s: State, id: nat): (r: State)
    ensures r == s.(queue := r.queue, lost := r.lost)
  {
    if id !in s.queue then s
    else s.(queue := s.queue - {id}, lost := s.lost[id := s.queue[id]])
  }

  /** At most the one create differs. */
  ghost predicate OneCreateMoved(s: State, s': State, id: nat) {
    && (forall other :: other != id ==> (other in s'.creates <==> other in s.creates))
    && (forall other :: other != id && other in s.creates ==> s'.creates[other] == s.creates[other])
  }

  function CreateAt(s: State, id: nat, phase: CreatePhase): State
    requires id in s.creates
  {
    s.(creates := s.creates[id := s.creates[id].(phase := phase)])
  }

  function DoSubmit(cfg: Config, s: State, id: nat, request: Create, client: string, now: int, fault: Fault): (r: State)
    ensures r == s.(redis := r.redis, creates := r.creates)
    ensures OneCreateMoved(s, r, id)
  {
    if id in s.creates then s
    else
      var (s', allowed) := PassLimiter(cfg, s, "create", client, now, fault);
      if allowed then s'.(creates := s.creates[id := request.(phase := Checking(0))]) else s'
  }

  /** The expiry of a link created now. */
  function ExpiryAt(days: Option<nat>, now: int): Option<int> {
    if days.None? then None else Some(now + days.value * MS_PER_DAY)
  }

  function DoCheckExists(s: State, id: nat): (r: State)
    ensures r == s.(creates := r.creates)
    ensures OneCreateMoved(s, r, id)
  {
    if id !in s.creates || !s.creates[id].phase.Checking? then s
    else
      var c := s.creates[id];
      var k := c.phase.next;
      CreateAt(s, id,
        if k >= |c.codes| then Saturated
        else if Resolve(s.rows, c.codes[k]).None? then Chosen(c.codes[k])
        else if c.custom then Conflict(c.codes[k])
        else Checking(k + 1))
  }

  /** The handler samples its clock and works out the expiry of the link. */
  function DoStamp(s: State, id: nat): (r: State)
    ensures r == s.(creates := r.creates)
    ensures OneCreateMoved(s, r, id)
  {
    if id !in s.creates || !s.creates[id].phase.Chosen? then s
    else
      var c := s.creates[id];
      CreateAt(s, id, Inserting(c.phase.code, Link(c.longUrl, ExpiryAt(c.days, s.clock))))
  }

  /** Another transaction has inserted this code and not yet ended. */
  predicate Held(s: State, id: nat, code: string) {
    exists other :: other in s.creates && other != id &&
      s.creates[other].phase.Inserted? && s.creates[other].phase.code == code
  }

  /** The unique index: a committed duplicate fails, an uncommitted one makes the insert wait. */
  function DoInsert(s: State, id: nat): (r: State)
    ensures r == s.(creates := r.creates)
    ensures OneCreateMoved(s, r, id)
  {
    if id !in s.creates || !s.creates[id].phase.Inserting? then s
    else
      var code, link := s.creates[id].phase.code, s.creates[id].phase.link;
      if Resolve(s.rows, code).Some? then CreateAt(s, id, Conflict(code))
      else if Held(s, id, code) then s
      else CreateAt(s, id, Inserted(code, link))
  }

  function DoCommit(s: State, id: nat): (r: State)
    ensures r == s.(creates := r.creates, rows := r.rows)
    ensures OneCreateMoved(s, r, id)
  {
    if id !in s.creates || !s.creates[id].phase.Inserted? then s
    else
      CreateAt(s, id, Created(|s.rows|)).(
        rows := s.rows + [Row(s.creates[id].phase.code, s.creates[id].phase.link, 0)])
  }

  function DoRollback(s: State, id: nat): (r: State)
    ensures r == s.(creates := r.creates)
    ensures OneCreateMoved(s, r, id)
  {
    if id !in s.creates || !s.creates[id].phase.Inserted? then s else CreateAt(s, id, Failed)
  }

  function StatsAt(s: State, id: nat, phase: StatsPhase): State
    requires id in s.stats
  {
    s.(stats := s.stats[id := s.stats[id].(phase := phase)])
  }

  function DoStatsCount(s: State, id: nat, code: string): (r: State)
    ensures r == s.(stats := r.stats)
  {
    if id in s.stats then s
    else
      var row := FindRow(s.rows, code);
      s.(stats := s.stats[id := Stats(code, if row.None? then Missing else Counted(row.value.clicks))])
  }

  function DoStatsRecent(s: State, id: nat, recent: seq<Click>, rest: seq<Click>): (r: State)
    ensures r == s.(stats := r.stats)
  {
    if && id in s.stats && s.stats[id].phase.Counted?
       && CutAt(EventsOf(s.events, s.stats[id].code), RECENT_LIMIT, recent, rest)
    then StatsAt(s, id, Listed(s.stats[id].phase.clicks, recent))
    else s
  }

  function DoStatsTop(s: State, id: nat, top: seq<Group>, others: seq<Group>): (r: State)
    ensures r == s.(stats := r.stats)
  {
    if id in s.stats && s.stats[id].phase.Listed? && TopAt(s.events, s.stats[id].code, TOP_LIMIT, top, others)
    then StatsAt(s, id, Reported(s.stats[id].phase.clicks, s.stats[id].phase.recent, top))
    else s
  }

  /******* What the two list queries may return; ties are broken arbitrarily *******/

  function EventsOf(events: seq<Click>, code: string): seq<Click> {
    if events == [] then []
    else
      var e := events[|events| - 1];
      EventsOf(events[..|events| - 1], code) + if e.code == code then [e] else []
  }

  /** ORDER BY clicked_at DESC LIMIT limit, cutting off `rest`. */
  predicate CutAt(all: seq<Click>, limit: nat, first: seq<Click>, rest: seq<Click>) {
    && multiset(first + rest) == multiset(all)
    && (forall i, j :: 0 <= i < j < |first + rest| ==> (first + rest)[j].clickedAt <= (first + rest)[i].clickedAt)
    && |first| == Min(limit, |all|)
  }

  /** Clicks on a code that came from one referrer. */
  function CountFrom(events: seq<Click>, code: string, referrer: Option<string>): nat {
    if events == [] then 0
    else
      var e := events[|events| - 1];
      CountFrom(events[..|events| - 1], code, referrer) + if e.code == code && e.referrer == referrer then 1 else 0
  }

  /** GROUP BY referrer: one entry per referrer that occurs, with its count. */
  predicate IsGrouping(events: seq<Click>, code: string, groups: seq<Group>) {
    && (forall i, j :: 0 <= i < j < |groups| ==> groups[i].referrer != groups[j].referrer)
    && (forall i :: 0 <= i < |groups| ==> groups[i].count == CountFrom(events, code, groups[i].referrer) > 0)
    && (forall i :: 0 <= i < |events| ==> events[i].code == code ==>
          exists j :: 0 <= j < |groups| && groups[j].referrer == events[i].referrer)
  }

  /** GROUP BY referrer ORDER BY count DESC LIMIT limit, cutting off `others`. */
  predicate TopAt(events: seq<Click>, code: string, limit: nat, top: seq<Group>, others: seq<Group>) {
    && IsGrouping(events, code, top + others)
    && (forall i, j :: 0 <= i < j < |top + others| ==> (top + others)[j].count <= (top + others)[i].count)
    && |top| == Min(limit, |top + others|)
  }

  /******* Runs *******/

  predicate IsRedirectStep(step: Step) {
    step.Arrive? || step.CacheRead? || step.DbRead? || step.Judge? || step.CacheFill? || step.Answer?
  }

  predicate IsCreateStep(step: Step) {
    step.Submit? || step.CheckExists? || step.Stamp? || step.Insert? || step.Commit? || step.Rollback?
  }

  predicate IsStatsStep(step: Step) {
    step.StatsCount? || step.StatsRecent? || step.StatsTop?
  }

  predicate TouchesRedis(step: Step) {
    step.Lose? || step.Arrive? || step.CacheRead? || step.CacheFill? || step.Submit?
  }

  function RedirectNext(cfg: Config, s: State, step: Step): (r: State)
    requires IsRedirectStep(step)
    ensures r == s.(redis := r.redis, redirects := r.redirects, successes := r.successes, queue := r.queue)
    ensures OneRedirectMoved(s, r, step.id)
    ensures !step.Answer? ==> r.successes == s.successes && r.queue == s.queue
    ensures !TouchesRedis(step) ==> r.redis == s.redis
  {
    match step
    case Arrive(id, visit, client, now, fault) => DoArrive(cfg, s, id, visit, client, now, fault)
    case CacheRead(id, fault) => DoCacheRead(cfg, s, id, fault)
    case DbRead(id) => DoDbRead(s, id)
    case Judge(id) => DoJudge(s, id)
    case CacheFill(id, fault) => DoCacheFill(cfg, s, id, fault)
    case Answer(id) => DoAnswer(s, id)
  }

  function CreateNext(cfg: Config, s: State, step: Step): (r: State)
    requires IsCreateStep(step)
    ensures r == s.(redis := r.redis, creates := r.creates, rows := r.rows)
    ensures OneCreateMoved(s, r, step.id)
    ensures !step.Commit? ==> r.rows == s.rows
    ensures !TouchesRedis(step) ==> r.redis == s.redis
  {
    match step
    case Submit(id, request, client, now, fault) => DoSubmit(cfg, s, id, request, client, now, fault)
    case CheckExists(id) => DoCheckExists(s, id)
    case Stamp(id) => DoStamp(s, id)
    case Insert(id) => DoInsert(s, id)
    case Commit(id) => DoCommit(s, id)
    case Rollback(id) => DoRollback(s, id)
  }

  function StatsNext(s: State, step: Step): (r: State)
    requires IsStatsStep(step)
    ensures r == s.(stats := r.stats)
  {
    match step
    case StatsCount(id, code) => DoStatsCount(s, id, code)
    case StatsRecent(id, recent, rest) => DoStatsRecent(s, id, recent, rest)
    case StatsTop(id, top, others) => DoStatsTop(s, id, top, others)
  }

  /** The remaining steps: time, loss, and the click tasks. */
  function BackgroundNext(s: State, step: Step): State
    requires !IsRedirectStep(step) && !IsCreateStep(step) && !IsStatsStep(step)
  {
    match step
    case Tick(ms) => s.(clock := s.clock + ms)
    case RedisTick(ms) => s.(redisClock := s.redisClock + ms)
    case Lose(key) => s.(redis := s.redis - {key})
    case Record(id, at) => DoRecord(s, id, at)
    case Drop(id) => DoDrop(s, id)
  }

  function Next(cfg: Config, s: State, step: Step): State {
    if IsRedirectStep(step) then RedirectNext(cfg, s, step)
    else if IsCreateStep(step) then CreateNext(cfg, s, step)
    else if IsStatsStep(step) then StatsNext(s, step)
    else BackgroundNext(s, step)
  }

  /** The state after the first k steps. */
  function After(cfg: Config, steps: seq<Step>, k: nat): State
    requires k <= |steps|
  {
    if k == 0 then INIT else Next(cfg, After(cfg, steps, k - 1), steps[k - 1])
  }
}
