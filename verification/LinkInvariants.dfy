/** What every reachable state of the link store satisfies. */
module LinkInvariants {
  import opened Common
  import opened RedisStore
  import opened RateLimiting
  import opened SharedRedis
  import opened LinkStore

  /******* What a step leaves alone *******/

  /** The kind of a step decides who takes it. */
  lemma NextByKind(cfg: Config, s: State, step: Step)
    ensures IsRedirectStep(step) ==> Next(cfg, s, step) == RedirectNext(cfg, s, step)
    ensures IsCreateStep(step) ==> Next(cfg, s, step) == CreateNext(cfg, s, step)
    ensures IsStatsStep(step) ==> Next(cfg, s, step) == StatsNext(s, step)
    ensures !IsRedirectStep(step) && !IsCreateStep(step) && !IsStatsStep(step) ==>
              Next(cfg, s, step) == BackgroundNext(s, step)
  {
    hide RedirectNext, CreateNext, StatsNext, BackgroundNext;
  }

  /** Which part of the state a step may change. */
  lemma Frame(cfg: Config, s: State, step: Step)
    ensures Framed(s, Next(cfg, s, step), step)
  {
    hide Next, Framed;
    NextByKind(cfg, s, step);
    if IsRedirectStep(step) {
      RedirectFrame(cfg, s, step);
    } else if IsCreateStep(step) {
      CreateFrame(cfg, s, step);
    } else if IsStatsStep(step) {
      StatsFrame(s, step);
    } else {
      BackgroundFrame(s, step);
    }
  }

  predicate Framed(s: State, s': State, step: Step) {
    && (!IsRedirectStep(step) ==> s'.redirects == s.redirects)
    && (!IsCreateStep(step) ==> s'.creates == s.creates)
    && (!IsStatsStep(step) ==> s'.stats == s.stats)
    && (!step.Record? && !step.Commit? ==> s'.rows == s.rows)
    && (!step.Record? ==> s'.events == s.events)
    && (!MovesVisits(step) ==> s'.queue == s.queue && s'.lost == s.lost && s'.successes == s.successes)
    && (!TouchesRedis(step) ==> s'.redis == s.redis)
    && (!step.Tick? ==> s'.clock == s.clock)
  }

  lemma RedirectFrame(cfg: Config, s: State, step: Step)
    requires IsRedirectStep(step)
    ensures Framed(s, RedirectNext(cfg, s, step), step)
  {
    hide RedirectNext;
  }

  lemma CreateFrame(cfg: Config, s: State, step: Step)
    requires IsCreateStep(step)
    ensures Framed(s, CreateNext(cfg, s, step), step)
  {
    hide CreateNext;
  }

  lemma StatsFrame(s: State, step: Step)
    requires IsStatsStep(step)
    ensures Framed(s, StatsNext(s, step), step)
  {
    hide StatsNext;
  }

  lemma BackgroundFrame(s: State, step: Step)
    requires !IsRedirectStep(step) && !IsCreateStep(step) && !IsStatsStep(step)
    ensures Framed(s, BackgroundNext(s, step), step)
  {
    hide DoRecord, DoDrop;
  }

  predicate MovesVisits(step: Step) {
    step.Answer? || step.Record? || step.Drop?
  }

  /** Clocks move by what they are told, and a loss takes its one key; nothing else changes. */
  lemma Surroundings(cfg: Config, s: State, ms: int, key: string)
    ensures Next(cfg, s, Tick(ms)) == s.(clock := s.clock + ms)
    ensures Next(cfg, s, RedisTick(ms)) == s.(redisClock := s.redisClock + ms)
    ensures Next(cfg, s, Lose(key)) == s.(redis := s.redis - {key})
  {
  }

  /******* Links are permanent *******/

  /** Everything that was resolvable still resolves, to the same link. */
  ghost predicate Keeps(rows: seq<Row>, rows': seq<Row>) {
    forall code :: Resolve(rows, code).Some? ==> Resolve(rows', code) == Resolve(rows, code)
  }

  lemma {:induction false} ResolveAppend(rows: seq<Row>, row: Row, code: string)
    ensures Resolve(rows + [row], code) ==
            if Resolve(rows, code).Some? then Resolve(rows, code)
            else if row.code == code then Some(row.link) else None
  {
    if rows == [] {
      assert rows + [row] == [row];
      assert [row][1..] == [];
    } else {
      assert (rows + [row])[1..] == rows[1..] + [row];
      ResolveAppend(rows[1..], row, code);
    }
  }

  lemma {:induction false} ResolveBump(rows: seq<Row>, bumped: string, code: string)
    ensures Resolve(Bump(rows, bumped), code) == Resolve(rows, code)
  {
    if rows != [] {
      assert Bump(rows, bumped)[1..] == Bump(rows[1..], bumped);
      ResolveBump(rows[1..], bumped, code);
    }
  }

  /** A code resolves exactly when some row carries it; the row is the first such. */
  lemma {:induction false} ResolveIff(rows: seq<Row>, code: string)
    ensures Resolve(rows, code).Some? <==> exists i :: 0 <= i < |rows| && rows[i].code == code
    ensures FindRow(rows, code).Some? ==>
              exists i :: 0 <= i < |rows| && rows[i].code == code && rows[i] == FindRow(rows, code).value
  {
    if rows != [] {
      ResolveIff(rows[1..], code);
      if rows[0].code != code && FindRow(rows[1..], code).Some? {
        var i :| 0 <= i < |rows[1..]| && rows[1..][i].code == code && rows[1..][i] == FindRow(rows[1..], code).value;
        assert rows[i + 1] == rows[1..][i];
      }
      if exists i :: 0 <= i < |rows| && rows[i].code == code {
        var i :| 0 <= i < |rows| && rows[i].code == code;
        if i > 0 {
          assert rows[1..][i - 1] == rows[i];
        }
      }
    }
  }

  lemma StepKeeps(cfg: Config, s: State, step: Step)
    ensures Keeps(s.rows, Next(cfg, s, step).rows)
  {
    Frame(cfg, s, step);
    if step.Record? {
      forall code ensures Resolve(Next(cfg, s, step).rows, code) == Resolve(s.rows, code) {
        if step.id in s.queue {
          ResolveBump(s.rows, s.queue[step.id].code, code);
        }
      }
    } else if step.Commit? && step.id in s.creates && s.creates[step.id].phase.Inserted? {
      forall code
        ensures Resolve(s.rows, code).Some? ==> Resolve(Next(cfg, s, step).rows, code) == Resolve(s.rows, code)
      {
        ResolveAppend(s.rows, Row(s.creates[step.id].phase.code, s.creates[step.id].phase.link, 0), code);
      }
    }
  }

  /** Rows are only appended, and keep their code and link. */
  ghost predicate Extends(rows: seq<Row>, rows': seq<Row>) {
    && |rows| <= |rows'|
    && (forall i :: 0 <= i < |rows| ==> rows'[i].code == rows[i].code && rows'[i].link == rows[i].link)
    && Keeps(rows, rows')
  }

  lemma StepExtends(cfg: Config, s: State, step: Step)
    ensures Extends(s.rows, Next(cfg, s, step).rows)
  {
    Frame(cfg, s, step);
    StepKeeps(cfg, s, step);
  }

  lemma ExtendsTransitive(a: seq<Row>, b: seq<Row>, c: seq<Row>)
    requires Extends(a, b) && Extends(b, c)
    ensures Extends(a, c)
  {
  }

  /******* The cache agrees with the database *******/

  ghost predicate Coherent(redis: Keys, rows: seq<Row>, code: string) {
    CacheKey(code) in redis ==>
      redis[CacheKey(code)].value.Str? &&
      Resolve(rows, code) == Some(Link(redis[CacheKey(code)].value.text, None))
  }

  /** Every cache entry, live or not, is a committed row's link with no expiry; buckets are hashes. */
  ghost predicate CacheSound(s: State) {
    && (forall code :: Coherent(s.redis, s.rows, code))
    && (forall client, cls :: HashAt(s.redis, client, cls))
  }

  /** What a redirect in flight has learned is true of the database. */
  ghost predicate RedirectSound(rows: seq<Row>, r: Redirect) {
    match r.phase
    case Reading => true
    case Missed => true
    case Judging(found) => found.Some? ==> Resolve(rows, r.visit.code) == found
    case Filling(url) => Resolve(rows, r.visit.code) == Some(Link(url, None))
    case Answering(url) => Resolve(rows, r.visit.code).Some? && Resolve(rows, r.visit.code).value.longUrl == url
    case Done(outcome) =>
      && (outcome.Found? ==>
            Resolve(rows, r.visit.code).Some? && Resolve(rows, r.visit.code).value.longUrl == outcome.longUrl)
      && (outcome.Expired? ==> Resolve(rows, r.visit.code).Some?)
  }

  ghost predicate RedirectsSound(s: State) {
    forall id :: id in s.redirects ==> RedirectSound(s.rows, s.redirects[id])
  }

  lemma CacheStep(cfg: Config, s: State, step: Step)
    requires CacheSound(s) && RedirectsSound(s)
    ensures CacheSound(Next(cfg, s, step))
  {
    var s' := Next(cfg, s, step);
    Frame(cfg, s, step);
    StepKeeps(cfg, s, step);
    forall code ensures Coherent(s'.redis, s'.rows, code) {
      assert Coherent(s.redis, s.rows, code);
      if TouchesRedis(step) {
        KeyChange(cfg, s, step, code);
      }
    }
    forall client, cls ensures HashAt(s'.redis, client, cls) {
      assert HashAt(s.redis, client, cls);
      if TouchesRedis(step) {
        RateKeyChange(cfg, s, step, client, cls);
      }
    }
  }

  /** A step changes a cache key only by dropping it, refreshing it or filling it with a sound link. */
  lemma KeyChange(cfg: Config, s: State, step: Step, code: string)
    requires CacheSound(s) && RedirectsSound(s) && TouchesRedis(step)
    ensures KeyKept(s, Next(cfg, s, step).redis, code)
  {
    match step
    case Arrive(id, _, client, now, fault) => LimitedKeeps(cfg, s, "redirect", client, now, fault, code);
    case Submit(id, _, client, now, fault) => LimitedKeeps(cfg, s, "create", client, now, fault, code);
    case CacheRead(id, fault) => CacheReadKeeps(cfg, s, id, fault, code);
    case CacheFill(id, fault) => CacheFillKeeps(cfg, s, id, fault, code);
    case Lose(_) =>
  }

  ghost predicate KeyKept(s: State, redis': Keys, code: string) {
    var key := CacheKey(code);
    key in redis' ==>
      (key in s.redis && redis'[key].value == s.redis[key].value) ||
      (redis'[key].value.Str? && Resolve(s.rows, code) == Some(Link(redis'[key].value.text, None)))
  }

  lemma LimitedKeeps(cfg: Config, s: State, cls: string, client: string, now: int, fault: Fault, code: string)
    requires KnownClass(cls)
    ensures KeyKept(s, PassLimiter(cfg, s, cls, client, now, fault).0.redis, code)
  {
    KeysDisjoint(client, cls, code);
  }

  lemma CacheReadKeeps(cfg: Config, s: State, id: nat, fault: Fault, code: string)
    ensures KeyKept(s, DoCacheRead(cfg, s, id, fault).redis, code)
  {
  }

  lemma CacheFillKeeps(cfg: Config, s: State, id: nat, fault: Fault, code: string)
    requires RedirectsSound(s)
    ensures KeyKept(s, DoCacheFill(cfg, s, id, fault).redis, code)
  {
    if id in s.redirects && CacheKey(s.redirects[id].visit.code) == CacheKey(code) {
      CacheKeyInjective(s.redirects[id].visit.code, code);
      assert RedirectSound(s.rows, s.redirects[id]);
    }
  }

  ghost predicate HashAt(redis: Keys, client: string, cls: string) {
    RateKey(client, cls) in redis ==> redis[RateKey(client, cls)].value.Hash?
  }

  lemma RateKeyChange(cfg: Config, s: State, step: Step, client: string, cls: string)
    requires HashAt(s.redis, client, cls) && TouchesRedis(step)
    ensures HashAt(Next(cfg, s, step).redis, client, cls)
  {
    match step
    case Arrive(_, _, c, now, fault) => LimitedHash(cfg, s, "redirect", c, now, fault, client, cls);
    case Submit(_, _, c, now, fault) => LimitedHash(cfg, s, "create", c, now, fault, client, cls);
    case CacheRead(id, fault) => CacheReadHash(cfg, s, id, fault, client, cls);
    case CacheFill(id, fault) => CacheFillHash(cfg, s, id, fault, client, cls);
    case Lose(_) =>
  }

  lemma LimitedHash(cfg: Config, s: State, k: string, c: string, now: int, fault: Fault, client: string, cls: string)
    requires KnownClass(k) && HashAt(s.redis, client, cls)
    ensures HashAt(PassLimiter(cfg, s, k, c, now, fault).0.redis, client, cls)
  {
  }

  lemma CacheReadHash(cfg: Config, s: State, id: nat, fault: Fault, client: string, cls: string)
    requires HashAt(s.redis, client, cls)
    ensures HashAt(DoCacheRead(cfg, s, id, fault).redis, client, cls)
  {
  }

  lemma CacheFillHash(cfg: Config, s: State, id: nat, fault: Fault, client: string, cls: string)
    requires HashAt(s.redis, client, cls)
    ensures HashAt(DoCacheFill(cfg, s, id, fault).redis, client, cls)
  {
    if id in s.redirects {
      KeysDisjoint(client, cls, s.redirects[id].visit.code);
    }
  }

  lemma RedirectsStep(cfg: Config, s: State, step: Step)
    requires CacheSound(s) && RedirectsSound(s)
    ensures RedirectsSound(Next(cfg, s, step))
  {
    var s' := Next(cfg, s, step);
    Frame(cfg, s, step);
    StepKeeps(cfg, s, step);
    if IsRedirectStep(step) {
      OneRedirectMoves(cfg, s, step);
      if step.id in s'.redirects {
        RedirectMoveSound(cfg, s, step);
      }
    }
    forall id | id in s'.redirects ensures RedirectSound(s'.rows, s'.redirects[id]) {
      if !IsRedirectStep(step) || id != step.id {
        assert RedirectSound(s.rows, s.redirects[id]);
        RedirectSoundKept(s.rows, s'.rows, s.redirects[id]);
      }
    }
  }

  lemma RedirectSoundKept(rows: seq<Row>, rows': seq<Row>, r: Redirect)
    requires RedirectSound(rows, r) && Keeps(rows, rows')
    ensures RedirectSound(rows', r)
  {
  }

  lemma OneRedirectMoves(cfg: Config, s: State, step: Step)
    requires IsRedirectStep(step)
    ensures OneRedirectMoved(s, Next(cfg, s, step), step.id)
  {
    hide RedirectNext;
  }

  /** Each step of a redirect carries on only what the cache, the database or the redirect itself knew. */
  lemma RedirectMoveSound(cfg: Config, s: State, step: Step)
    requires CacheSound(s) && RedirectsSound(s)
    requires IsRedirectStep(step) && step.id in RedirectNext(cfg, s, step).redirects
    ensures RedirectSound(s.rows, RedirectNext(cfg, s, step).redirects[step.id])
  {
    hide DoCacheRead, CacheSound;
    if step.CacheRead? {
      HitSound(cfg, s, step.id, step.fault);
    } else if step.id in s.redirects {
      assert RedirectSound(s.rows, s.redirects[step.id]);
    }
  }

  /** What a hit returns is the link of a committed row. */
  lemma HitSound(cfg: Config, s: State, id: nat, fault: Fault)
    requires CacheSound(s) && RedirectsSound(s)
    requires id in DoCacheRead(cfg, s, id, fault).redirects
    ensures RedirectSound(s.rows, DoCacheRead(cfg, s, id, fault).redirects[id])
  {
    assert RedirectSound(s.rows, s.redirects[id]);
    assert Coherent(s.redis, s.rows, s.redirects[id].visit.code);
  }

  /******* First writer wins *******/

  ghost predicate UniqueCodes(rows: seq<Row>) {
    forall i, j :: 0 <= i < j < |rows| ==> rows[i].code != rows[j].code
  }

  predicate IsLinkFor(c: Create, link: Link) {
    link.longUrl == c.longUrl && (link.expiresAt.None? <==> c.days.None?)
  }

  ghost predicate CreateSound(rows: seq<Row>, c: Create) {
    match c.phase
    case Checking(next) => forall k :: 0 <= k < next && k < |c.codes| ==> Resolve(rows, c.codes[k]).Some?
    case Chosen(code) => code in c.codes
    case Inserting(code, link) => code in c.codes && IsLinkFor(c, link)
    case Inserted(code, link) =>
      Resolve(rows, code).None? && code in c.codes && IsLinkFor(c, link)
    case Created(row) =>
      row < |rows| && rows[row].code in c.codes && IsLinkFor(c, rows[row].link)
    case Conflict(code) => code in c.codes && Resolve(rows, code).Some?
    case Saturated => forall k :: 0 <= k < |c.codes| ==> Resolve(rows, c.codes[k]).Some?
    case Failed => true
  }

  ghost predicate HasCreator(creates: map<nat, Create>, row: nat) {
    exists id :: id in creates && creates[id].phase == Created(row)
  }

  /** Not both hold the same code, nor own the same row. */
  predicate Apart(a: CreatePhase, b: CreatePhase) {
    && (a.Inserted? && b.Inserted? ==> a.code != b.code)
    && (a.Created? && b.Created? ==> a.row != b.row)
  }

  /** No two creates hold or own the same code; every row has its one creator. */
  ghost predicate CreatesSound(s: State) {
    && UniqueCodes(s.rows)
    && (forall id :: id in s.creates ==> CreateSound(s.rows, s.creates[id]))
    && (forall a, b :: a in s.creates && b in s.creates && a != b ==> Apart(s.creates[a].phase, s.creates[b].phase))
    && (forall row: nat :: row < |s.rows| ==> HasCreator(s.creates, row))
  }

  lemma OneCreateMoves(cfg: Config, s: State, step: Step)
    requires IsCreateStep(step)
    ensures OneCreateMoved(s, Next(cfg, s, step), step.id)
  {
    hide CreateNext;
  }

  lemma CreateSoundKept(rows: seq<Row>, rows': seq<Row>, c: Create)
    requires CreateSound(rows, c) && Extends(rows, rows')
    requires c.phase.Inserted? ==> Resolve(rows', c.phase.code).None?
    ensures CreateSound(rows', c)
  {
  }

  lemma CreatesStep(cfg: Config, s: State, step: Step)
    requires CreatesSound(s)
    ensures CreatesSound(Next(cfg, s, step))
  {
    hide RedirectNext, CreateNext, StatsNext, DoRecord, DoDrop, CreatesSound;
    if IsCreateStep(step) {
      CreateNextSound(cfg, s, step);
    } else if step.Record? {
      RecordSound(s, step.id, step.at);
    } else {
      Frame(cfg, s, step);
      SameCreates(s, Next(cfg, s, step));
    }
  }

  lemma SameCreates(s: State, s': State)
    requires CreatesSound(s) && s'.rows == s.rows && s'.creates == s.creates
    ensures CreatesSound(s')
  {
  }

  lemma CreateNextSound(cfg: Config, s: State, step: Step)
    requires CreatesSound(s) && IsCreateStep(step)
    ensures CreatesSound(CreateNext(cfg, s, step))
  {
    hide DoCommit, DoInsert, DoCheckExists, DoStamp, DoRollback, DoSubmit, CreatesSound;
    match step
    case Commit(id) => CommitSound(s, id);
    case Insert(id) => InsertSound(s, id);
    case CheckExists(id) => CheckExistsSound(s, id);
    case Stamp(id) => StampSound(s, id);
    case Rollback(id) => RollbackSound(s, id);
    case Submit(id, request, client, now, fault) => SubmitSound(cfg, s, id, request, client, now, fault);
  }

  lemma RecordSound(s: State, id: nat, at: int)
    requires CreatesSound(s)
    ensures CreatesSound(DoRecord(s, id, at))
  {
    if id in s.queue {
      var s', code := DoRecord(s, id, at), s.queue[id].code;
      forall c ensures Resolve(s'.rows, c) == Resolve(s.rows, c) {
        ResolveBump(s.rows, code, c);
      }
      assert Extends(s.rows, s'.rows);
      forall c | c in s'.creates ensures CreateSound(s'.rows, s'.creates[c]) {
        CreateSoundKept(s.rows, s'.rows, s.creates[c]);
      }
    }
  }

  lemma SubmitSound(cfg: Config, s: State, id: nat, request: Create, client: string, now: int, fault: Fault)
    requires CreatesSound(s)
    ensures CreatesSound(DoSubmit(cfg, s, id, request, client, now, fault))
  {
    if id !in s.creates {
      OneCreateChanged(s, DoSubmit(cfg, s, id, request, client, now, fault), id);
    }
  }

  /** A step that moves one create to a phase that neither holds nor owns a row. */
  lemma OneCreateChanged(s: State, s': State, id: nat)
    requires CreatesSound(s) && s'.rows == s.rows
    requires OneCreateMoved(s, s', id)
    requires id in s.creates ==> !s.creates[id].phase.Created? && id in s'.creates
    requires id in s'.creates ==> CreateSound(s'.rows, s'.creates[id]) && !s'.creates[id].phase.Created?
    requires id in s'.creates && s'.creates[id].phase.Inserted? ==> !Held(s, id, s'.creates[id].phase.code)
    ensures CreatesSound(s')
  {
    forall row: nat | row < |s'.rows| ensures HasCreator(s'.creates, row) {
      assert HasCreator(s.creates, row);
      var c :| c in s.creates && s.creates[c].phase == Created(row);
      assert s'.creates[c] == s.creates[c];
    }
  }

  lemma InsertSound(s: State, id: nat)
    requires CreatesSound(s)
    ensures CreatesSound(DoInsert(s, id))
  {
    if id in s.creates && s.creates[id].phase.Inserting? {
      assert CreateSound(s.rows, s.creates[id]);
      OneCreateChanged(s, DoInsert(s, id), id);
    }
  }

  lemma CheckExistsSound(s: State, id: nat)
    requires CreatesSound(s)
    ensures CreatesSound(DoCheckExists(s, id))
  {
    if id in s.creates && s.creates[id].phase.Checking? {
      assert CreateSound(s.rows, s.creates[id]);
      OneCreateChanged(s, DoCheckExists(s, id), id);
    }
  }

  lemma StampSound(s: State, id: nat)
    requires CreatesSound(s)
    ensures CreatesSound(DoStamp(s, id))
  {
    if id in s.creates && s.creates[id].phase.Chosen? {
      assert CreateSound(s.rows, s.creates[id]);
      OneCreateChanged(s, DoStamp(s, id), id);
    }
  }

  lemma RollbackSound(s: State, id: nat)
    requires CreatesSound(s)
    ensures CreatesSound(DoRollback(s, id))
  {
    if id in s.creates && s.creates[id].phase.Inserted? {
      OneCreateChanged(s, DoRollback(s, id), id);
    }
  }

  /** A committed insert binds its own code and nothing else. */
  lemma CommitBinds(s: State, id: nat)
    requires CreatesSound(s) && id in s.creates && s.creates[id].phase.Inserted?
    ensures var rows', phase := DoCommit(s, id).rows, s.creates[id].phase;
      && UniqueCodes(rows') && Extends(s.rows, rows')
      && forall c :: Resolve(rows', c) == if c == phase.code then Some(phase.link) else Resolve(s.rows, c)
  {
    var rows', code, link := DoCommit(s, id).rows, s.creates[id].phase.code, s.creates[id].phase.link;
    assert CreateSound(s.rows, s.creates[id]);
    ResolveIff(s.rows, code);
    forall c ensures Resolve(rows', c) == if c == code then Some(link) else Resolve(s.rows, c) {
      ResolveAppend(s.rows, Row(code, link, 0), c);
    }
  }

  lemma CommitOwns(s: State, id: nat)
    requires CreatesSound(s) && id in s.creates && s.creates[id].phase.Inserted?
    ensures var s' := DoCommit(s, id);
      && (forall row: nat :: row < |s'.rows| ==> HasCreator(s'.creates, row))
      && (forall c :: c in s.creates && c != id && s.creates[c].phase.Created? ==> s.creates[c].phase.row < |s.rows|)
  {
    var s' := DoCommit(s, id);
    forall row: nat | row < |s'.rows| ensures HasCreator(s'.creates, row) {
      if row < |s.rows| {
        assert HasCreator(s.creates, row);
        var c :| c in s.creates && s.creates[c].phase == Created(row);
        assert s'.creates[c] == s.creates[c];
      } else {
        assert s'.creates[id].phase == Created(row);
      }
    }
    forall c | c in s.creates && s.creates[c].phase.Created? ensures s.creates[c].phase.row < |s.rows| {
      assert CreateSound(s.rows, s.creates[c]);
    }
  }

  lemma CommitSound(s: State, id: nat)
    requires CreatesSound(s)
    ensures CreatesSound(DoCommit(s, id))
  {
    hide Resolve, UniqueCodes, HasCreator;
    if id in s.creates && s.creates[id].phase.Inserted? {
      var s' := DoCommit(s, id);
      CommitBinds(s, id);
      CommitOwns(s, id);
      assert CreateSound(s.rows, s.creates[id]);
      forall c | c in s'.creates ensures CreateSound(s'.rows, s'.creates[c]) {
        if c != id {
          CreateSoundKept(s.rows, s'.rows, s.creates[c]);
        }
      }
    }
  }

  /******* Clicks are conserved *******/

  /** Counters equal events, and every click, recorded or to come, is on a code that has a row. */
  ghost predicate ClicksSound(s: State) {
    && (forall i :: 0 <= i < |s.rows| ==> s.rows[i].clicks == EventCount(s.events, s.rows[i].code))
    && (forall i :: 0 <= i < |s.events| ==> Resolve(s.rows, s.events[i].code).Some?)
    && (forall id :: id in s.queue ==> Resolve(s.rows, s.queue[id].code).Some?)
  }

  lemma {:induction false} NoEvents(events: seq<Click>, code: string)
    requires forall i :: 0 <= i < |events| ==> events[i].code != code
    ensures EventCount(events, code) == 0
  {
    if events != [] {
      NoEvents(events[..|events| - 1], code);
    }
  }

  lemma ClicksStep(cfg: Config, s: State, step: Step)
    requires ClicksSound(s) && RedirectsSound(s) && CreatesSound(s)
    ensures ClicksSound(Next(cfg, s, step))
  {
    hide RedirectNext, CreateNext, StatsNext, DoRecord, DoDrop, ClicksSound, RedirectsSound, CreatesSound;
    match step
    case Record(id, at) => RecordBalanced(s, id, at);
    case Drop(id) => DropBalanced(s, id);
    case Commit(id) => CommitBalanced(cfg, s, id);
    case Answer(id) => AnswerBalanced(cfg, s, id);
    case _ =>
      Frame(cfg, s, step);
      SameClicks(s, Next(cfg, s, step));
  }

  lemma SameClicks(s: State, s': State)
    requires ClicksSound(s) && s'.rows == s.rows && s'.events == s.events && s'.queue == s.queue
    ensures ClicksSound(s')
  {
  }

  lemma AnswerBalanced(cfg: Config, s: State, id: nat)
    requires ClicksSound(s) && RedirectsSound(s)
    ensures ClicksSound(RedirectNext(cfg, s, Answer(id)))
  {
    if id in s.redirects && s.redirects[id].phase.Answering? {
      assert RedirectSound(s.rows, s.redirects[id]);
    }
  }

  lemma RecordBalanced(s: State, id: nat, at: int)
    requires ClicksSound(s)
    ensures ClicksSound(DoRecord(s, id, at))
  {
    if id in s.queue {
      var s', visit := DoRecord(s, id, at), s.queue[id];
      var e := Click(visit.code, visit.referrer, at);
      assert (s.events + [e])[..|s.events|] == s.events;
      forall code ensures Resolve(s'.rows, code) == Resolve(s.rows, code) {
        ResolveBump(s.rows, visit.code, code);
      }
    }
  }

  lemma DropBalanced(s: State, id: nat)
    requires ClicksSound(s)
    ensures ClicksSound(DoDrop(s, id))
  {
  }

  lemma CommitBalanced(cfg: Config, s: State, id: nat)
    requires ClicksSound(s) && CreatesSound(s)
    ensures ClicksSound(CreateNext(cfg, s, Commit(id)))
  {
    if id in s.creates && s.creates[id].phase.Inserted? {
      var s', code := DoCommit(s, id), s.creates[id].phase.code;
      assert CreateSound(s.rows, s.creates[id]);
      NoEvents(s.events, code);
      forall c ensures Resolve(s.rows, c).Some? ==> Resolve(s'.rows, c).Some? {
        ResolveAppend(s.rows, Row(code, s.creates[id].phase.link, 0), c);
      }
    }
  }

  /******* Every run *******/

  ghost predicate Sound(s: State) {
    CacheSound(s) && RedirectsSound(s) && CreatesSound(s) && ClicksSound(s)
  }

  lemma InitSound()
    ensures Sound(INIT)
  {
  }

  lemma {:induction false} AlwaysSound(cfg: Config, steps: seq<Step>, k: nat)
    requires k <= |steps|
    ensures Sound(After(cfg, steps, k))
  {
    hide Next;
    if k == 0 {
      InitSound();
    } else {
      AlwaysSound(cfg, steps, k - 1);
      var s := After(cfg, steps, k - 1);
      CacheStep(cfg, s, steps[k - 1]);
      RedirectsStep(cfg, s, steps[k - 1]);
      CreatesStep(cfg, s, steps[k - 1]);
      ClicksStep(cfg, s, steps[k - 1]);
    }
  }
}
