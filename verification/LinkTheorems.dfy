/** What runs of the link store promise their users. */
module LinkTheorems {
  import opened Common
  import opened SharedRedis
  import opened LinkStore
  import opened LinkInvariants

  /******* The cache refines the database *******/

  /** State j comes after the redirect started and before it answered, and a lookup there says outcome. */
  ghost predicate InstantOf(cfg: Config, steps: seq<Step>, j: nat, b: nat, id: nat, outcome: Outcome)
    requires b <= |steps|
  {
    && j < b
    && id in After(cfg, steps, j).redirects
    && !After(cfg, steps, j).redirects[id].phase.Done?
    && var s := After(cfg, steps, j);
       outcome == Lookup(s.rows, s.redirects[id].visit.code, s.clock)
  }

  /** What a redirect has concluded so far, if anything. */
  function Conclusion(r: Redirect): Option<Outcome> {
    match r.phase
    case Judging(found) => if found.None? then Some(NotFound) else None
    case Filling(url) => Some(Found(url))
    case Answering(url) => Some(Found(url))
    case Done(outcome) => Some(outcome)
    case _ => None
  }

  /**
   In every interleaving, with any Redis failures and losses, a redirect answers what a lookup
   that never touches the cache answers at some instant between its start and its answer.
   */
  lemma {:induction false} CacheRefinesDatabase(cfg: Config, steps: seq<Step>, b: nat, id: nat)
    requires b <= |steps| && id in After(cfg, steps, b).redirects
    ensures var r := After(cfg, steps, b).redirects[id];
      Conclusion(r).Some? ==> exists j: nat :: InstantOf(cfg, steps, j, b, id, Conclusion(r).value)
    decreases b
  {
    hide Next;
    if b > 0 {
      var s, step := After(cfg, steps, b - 1), steps[b - 1];
      AlwaysSound(cfg, steps, b - 1);
      if id in s.redirects {
        CacheRefinesDatabase(cfg, steps, b - 1, id);
        var r, r' := s.redirects[id], After(cfg, steps, b).redirects[id];
        Frame(cfg, s, step);
        if IsRedirectStep(step) {
          OneRedirectMoves(cfg, s, step);
        }
        if Conclusion(r').Some? && Conclusion(r') != Conclusion(r) {
          assert RedirectSound(s.rows, r);
          ConclusionIsLookup(cfg, s, step, id);
          assert InstantOf(cfg, steps, b - 1, b, id, Conclusion(r').value);
        } else if Conclusion(r').Some? {
          var j: nat :| InstantOf(cfg, steps, j, b - 1, id, Conclusion(r).value);
          assert InstantOf(cfg, steps, j, b, id, Conclusion(r').value);
        }
      } else {
        EntersReading(cfg, s, step, id);
      }
    }
  }

  lemma EntersReading(cfg: Config, s: State, step: Step, id: nat)
    requires id !in s.redirects && id in Next(cfg, s, step).redirects
    ensures Next(cfg, s, step).redirects[id].phase == Reading
  {
    Frame(cfg, s, step);
    if IsRedirectStep(step) {
      OneRedirectMoves(cfg, s, step);
    }
  }

  /** The step that concludes does so on what a lookup says in the state it starts from. */
  lemma ConclusionIsLookup(cfg: Config, s: State, step: Step, id: nat)
    requires CacheSound(s) && RedirectsSound(s)
    requires id in s.redirects && IsRedirectStep(step) && step.id == id
    requires var r' := Next(cfg, s, step).redirects[id];
      Conclusion(r').Some? && Conclusion(r') != Conclusion(s.redirects[id])
    ensures !s.redirects[id].phase.Done?
    ensures Conclusion(Next(cfg, s, step).redirects[id]).value == Lookup(s.rows, s.redirects[id].visit.code, s.clock)
  {
    assert RedirectSound(s.rows, s.redirects[id]);
    assert Coherent(s.redis, s.rows, s.redirects[id].visit.code);
  }

  /******* Permanence and expiry, end to end *******/

  lemma {:induction false} RunExtends(cfg: Config, steps: seq<Step>, a: nat, b: nat)
    requires a <= b <= |steps|
    ensures Extends(After(cfg, steps, a).rows, After(cfg, steps, b).rows)
    decreases b - a
  {
    hide Next;
    if a < b {
      RunExtends(cfg, steps, a, b - 1);
      var s := After(cfg, steps, b - 1);
      StepExtends(cfg, s, steps[b - 1]);
      ExtendsTransitive(After(cfg, steps, a).rows, s.rows, After(cfg, steps, b).rows);
    }
  }

  lemma {:induction false} RedirectPersists(cfg: Config, steps: seq<Step>, a: nat, b: nat, id: nat)
    requires a <= b <= |steps| && id in After(cfg, steps, a).redirects
    ensures id in After(cfg, steps, b).redirects
    ensures After(cfg, steps, b).redirects[id].visit == After(cfg, steps, a).redirects[id].visit
    decreases b - a
  {
    hide Next;
    if a < b {
      RedirectPersists(cfg, steps, a, b - 1, id);
      var s := After(cfg, steps, b - 1);
      Frame(cfg, s, steps[b - 1]);
      if IsRedirectStep(steps[b - 1]) {
        OneRedirectMoves(cfg, s, steps[b - 1]);
      }
    }
  }

  lemma UniqueResolves(rows: seq<Row>, row: nat)
    requires UniqueCodes(rows) && row < |rows|
    ensures Resolve(rows, rows[row].code) == Some(rows[row].link)
  {
    ResolveIff(rows, rows[row].code);
  }

  /** Create c has been acknowledged and has bound this code. */
  ghost predicate Acknowledged(s: State, c: nat, code: string) {
    && c in s.creates && s.creates[c].phase.Created?
    && s.creates[c].phase.row < |s.rows| && s.rows[s.creates[c].phase.row].code == code
  }

  /** Redirect id, for this code, starts after state a and has been answered by state b. */
  ghost predicate AnsweredBetween(cfg: Config, steps: seq<Step>, a: nat, b: nat, id: nat, code: string)
    requires a <= |steps| && b <= |steps|
  {
    && id !in After(cfg, steps, a).redirects
    && id in After(cfg, steps, b).redirects
    && After(cfg, steps, b).redirects[id].visit.code == code
    && After(cfg, steps, b).redirects[id].phase.Done?
  }

  function ClockAt(cfg: Config, steps: seq<Step>, k: nat): int
    requires k <= |steps|
  {
    After(cfg, steps, k).clock
  }

  /**
   Once a create has been acknowledged, every redirect on its code that starts later and passes
   the limiter answers by that create alone, never "not found". It is judged on the clock of one
   instant m between its start and answer: "expired" if that has reached the expiry, else the
   destination. The clock may be set forward or back at any time.
   */
  lemma {:induction false} AcknowledgedLinkIsServed(
      cfg: Config, steps: seq<Step>, a: nat, b: nat, c: nat, id: nat, code: string) returns (m: nat)
    requires a <= b <= |steps|
    requires Acknowledged(After(cfg, steps, a), c, code)
    requires AnsweredBetween(cfg, steps, a, b, id, code)
    ensures a < m < b
    ensures var s, outcome := After(cfg, steps, a), After(cfg, steps, b).redirects[id].phase.outcome;
      var expiry := s.rows[s.creates[c].phase.row].link.expiresAt;
      && (expiry.None? <==> s.creates[c].days.None?)
      && outcome ==
         if expiry.Some? && expiry.value <= ClockAt(cfg, steps, m) then Expired else Found(s.creates[c].longUrl)
  {
    hide Next;
    var s := After(cfg, steps, a);
    var row := s.creates[c].phase.row;
    AlwaysSound(cfg, steps, a);
    assert CreateSound(s.rows, s.creates[c]);
    UniqueResolves(s.rows, row);
    m := JudgedByLink(cfg, steps, a, b, id, code, s.rows[row].link);
  }

  /** A redirect that starts after its code is bound to a link judges that link, at an instant it lived through. */
  lemma {:induction false} JudgedByLink(
      cfg: Config, steps: seq<Step>, a: nat, b: nat, id: nat, code: string, link: Link) returns (m: nat)
    requires a <= b <= |steps|
    requires AnsweredBetween(cfg, steps, a, b, id, code)
    requires Resolve(After(cfg, steps, a).rows, code) == Some(link)
    ensures a < m < b
    ensures After(cfg, steps, b).redirects[id].phase.outcome == Judgement(Some(link), ClockAt(cfg, steps, m))
  {
    hide Next;
    CacheRefinesDatabase(cfg, steps, b, id);
    m :| InstantOf(cfg, steps, m, b, id, After(cfg, steps, b).redirects[id].phase.outcome);
    if m <= a {
      RedirectPersists(cfg, steps, m, a, id);
    }
    RedirectPersists(cfg, steps, m, b, id);
    RunExtends(cfg, steps, a, m);
  }

  /******* How long a link lives *******/

  /** The link a create has bound its code to, once it has sampled its clock. */
  function BoundLink(rows: seq<Row>, c: Create): Option<Link> {
    match c.phase
    case Inserting(_, link) => Some(link)
    case Inserted(_, link) => Some(link)
    case Created(row) => if row < |rows| then Some(rows[row].link) else None
    case _ => None
  }

  /** The link expires the given days after the clock of state s. */
  ghost predicate LinkStamped(s: State, days: Option<nat>, link: Link) {
    if days.None? then link.expiresAt.None? else link.expiresAt == Some(s.clock + days.value * 86400000)
  }

  /** State j comes after the create entered its handler, and the link expires its days after that state. */
  ghost predicate CountedFrom(cfg: Config, steps: seq<Step>, j: nat, b: nat, c: nat, link: Link)
    requires b <= |steps|
  {
    && j < b
    && c in After(cfg, steps, j).creates
    && LinkStamped(After(cfg, steps, j), After(cfg, steps, j).creates[c].days, link)
  }

  /** The create keeps its request, and any link it newly has in s' it has just stamped. */
  ghost predicate BindsNow(s: State, s': State, c: nat)
    requires c in s.creates
  {
    && c in s'.creates && s'.creates[c].days == s.creates[c].days
    && var link := BoundLink(s'.rows, s'.creates[c]);
       link.Some? && link != BoundLink(s.rows, s.creates[c]) ==> LinkStamped(s, s.creates[c].days, link.value)
  }

  lemma BoundLinkKept(cfg: Config, s: State, step: Step, c: nat)
    requires CreatesSound(s) && c in s.creates
    ensures BindsNow(s, Next(cfg, s, step), c)
  {
    hide Next, BindsNow;
    NextByKind(cfg, s, step);
    if IsCreateStep(step) && step.id == c {
      OwnMoveBinds(cfg, s, step);
    } else {
      if IsCreateStep(step) {
        OneCreateMoves(cfg, s, step);
      } else {
        Frame(cfg, s, step);
      }
      StepExtends(cfg, s, step);
      UnmovedBindsNow(s, Next(cfg, s, step), c);
    }
  }

  lemma UnmovedBindsNow(s: State, s': State, c: nat)
    requires CreatesSound(s) && Extends(s.rows, s'.rows)
    requires c in s.creates && c in s'.creates && s'.creates[c] == s.creates[c]
    ensures BindsNow(s, s', c)
  {
    assert CreateSound(s.rows, s.creates[c]);
  }

  lemma OwnMoveBinds(cfg: Config, s: State, step: Step)
    requires IsCreateStep(step) && step.id in s.creates
    ensures BindsNow(s, CreateNext(cfg, s, step), step.id)
  {
    hide DoCommit, DoInsert, DoCheckExists, BindsNow;
    match step
    case Commit(id) => CommitBindsNow(s, id);
    case Insert(id) => InsertBindsNow(s, id);
    case CheckExists(id) => CheckBindsNow(s, id);
    case _ => RestBindsNow(cfg, s, step);
  }

  lemma RestBindsNow(cfg: Config, s: State, step: Step)
    requires step.Submit? || step.Stamp? || step.Rollback?
    requires step.id in s.creates
    ensures BindsNow(s, CreateNext(cfg, s, step), step.id)
  {
  }

  lemma CommitBindsNow(s: State, id: nat)
    requires id in s.creates
    ensures BindsNow(s, DoCommit(s, id), id)
  {
  }

  lemma InsertBindsNow(s: State, id: nat)
    requires id in s.creates
    ensures BindsNow(s, DoInsert(s, id), id)
  {
    hide Held, Resolve, LinkStamped;
  }

  lemma CheckBindsNow(s: State, id: nat)
    requires id in s.creates
    ensures BindsNow(s, DoCheckExists(s, id), id)
  {
    hide Resolve, LinkStamped;
  }

  lemma EntersUnbound(cfg: Config, s: State, step: Step, c: nat)
    requires c !in s.creates && c in Next(cfg, s, step).creates
    ensures BoundLink(Next(cfg, s, step).rows, Next(cfg, s, step).creates[c]).None?
  {
    Frame(cfg, s, step);
  }

  /** The expiry of a bound link is its days counted from an instant the create lived through. */
  lemma {:induction false} ExpiryIsCounted(cfg: Config, steps: seq<Step>, b: nat, c: nat)
    requires b <= |steps| && c in After(cfg, steps, b).creates
    ensures var link := BoundLink(After(cfg, steps, b).rows, After(cfg, steps, b).creates[c]);
      link.Some? ==> exists j: nat :: CountedFrom(cfg, steps, j, b, c, link.value)
  {
    hide Next;
    if b > 0 {
      var s, s', step := After(cfg, steps, b - 1), After(cfg, steps, b), steps[b - 1];
      var link := BoundLink(s'.rows, s'.creates[c]);
      if c !in s.creates {
        EntersUnbound(cfg, s, step, c);
      } else if link.Some? {
        AlwaysSound(cfg, steps, b - 1);
        BoundLinkKept(cfg, s, step, c);
        if link == BoundLink(s.rows, s.creates[c]) {
          ExpiryIsCounted(cfg, steps, b - 1, c);
          var j: nat :| CountedFrom(cfg, steps, j, b - 1, c, link.value);
          assert CountedFrom(cfg, steps, j, b, c, link.value);
        } else {
          assert CountedFrom(cfg, steps, b - 1, b, c, link.value);
        }
      }
    }
  }

  lemma {:induction false} CreatePersists(cfg: Config, steps: seq<Step>, a: nat, b: nat, c: nat)
    requires a <= b <= |steps| && c in After(cfg, steps, a).creates
    ensures c in After(cfg, steps, b).creates
    ensures After(cfg, steps, b).creates[c].days == After(cfg, steps, a).creates[c].days
    decreases b - a
  {
    hide Next;
    if a < b {
      CreatePersists(cfg, steps, a, b - 1, c);
      AlwaysSound(cfg, steps, b - 1);
      BoundLinkKept(cfg, After(cfg, steps, b - 1), steps[b - 1], c);
    }
  }

  /**
   A link lives as many days as its create asked for. Before p the create has not entered its
   handler and at a it has been acknowledged; a redirect starts after q >= a. The days are counted
   from one instant j of the create's handler and judged at one instant m between the redirect's
   start and answer: it is told "expired" if they are over by then, and served otherwise.
   */
  lemma {:induction false} LinkLivesItsDays(
      cfg: Config, steps: seq<Step>, p: nat, a: nat, q: nat, b: nat, c: nat, id: nat, code: string)
    returns (j: nat, m: nat)
    requires p <= a <= q <= b <= |steps|
    requires c !in After(cfg, steps, p).creates
    requires Acknowledged(After(cfg, steps, a), c, code) && After(cfg, steps, a).creates[c].days.Some?
    requires AnsweredBetween(cfg, steps, q, b, id, code)
    ensures p < j < a && q < m < b
    ensures var create := After(cfg, steps, a).creates[c];
      After(cfg, steps, b).redirects[id].phase.outcome ==
        if ClockAt(cfg, steps, j) + create.days.value * 86400000 <= ClockAt(cfg, steps, m) then Expired
        else Found(create.longUrl)
  {
    hide Next;
    var s := After(cfg, steps, a);
    var row := s.rows[s.creates[c].phase.row];
    AlwaysSound(cfg, steps, a);
    assert CreateSound(s.rows, s.creates[c]);
    UniqueResolves(s.rows, s.creates[c].phase.row);
    ExpiryIsCounted(cfg, steps, a, c);
    j :| CountedFrom(cfg, steps, j, a, c, row.link);
    if j <= p {
      CreatePersists(cfg, steps, j, p, c);
    }
    CreatePersists(cfg, steps, j, a, c);
    RunExtends(cfg, steps, a, q);
    m := JudgedByLink(cfg, steps, q, b, id, code, row.link);
  }

  /** The clock is not set back between states p and b. */
  ghost predicate Steady(cfg: Config, steps: seq<Step>, p: nat, b: nat)
    requires b <= |steps|
  {
    forall i: nat, k: nat :: p <= i <= k <= b ==> ClockAt(cfg, steps, i) <= ClockAt(cfg, steps, k)
  }

  /**
   With a clock that is not set back meanwhile, the link is served as long as its days counted
   from before its submission are not over, and "expired" once those counted from its
   acknowledgement were over when the redirect started.
   */
  lemma {:induction false} SteadyLinkLivesItsDays(
      cfg: Config, steps: seq<Step>, p: nat, a: nat, q: nat, b: nat, c: nat, id: nat, code: string)
    requires p <= a <= q <= b <= |steps| && Steady(cfg, steps, p, b)
    requires c !in After(cfg, steps, p).creates
    requires Acknowledged(After(cfg, steps, a), c, code) && After(cfg, steps, a).creates[c].days.Some?
    requires AnsweredBetween(cfg, steps, q, b, id, code)
    ensures var create, outcome := After(cfg, steps, a).creates[c], After(cfg, steps, b).redirects[id].phase.outcome;
      var life := create.days.value * 86400000;
      && (ClockAt(cfg, steps, b) < ClockAt(cfg, steps, p) + life ==> outcome == Found(create.longUrl))
      && (ClockAt(cfg, steps, a) + life <= ClockAt(cfg, steps, q) ==> outcome == Expired)
  {
    hide Next, After, ClockAt;
    var j, m := LinkLivesItsDays(cfg, steps, p, a, q, b, c, id, code);
  }

  /******* First writer wins *******/

  /**
   In every interleaving of creates: no two committed rows share a code; a committed row never
   changes its code or link; every committed row has exactly one successful create; and a
   conflict or a saturation means that every code it tried belongs to a committed row.
   */
  lemma {:induction false} FirstWriterWins(cfg: Config, steps: seq<Step>, a: nat, b: nat)
    requires a <= b <= |steps|
    ensures var s := After(cfg, steps, b);
      && (forall i, j :: 0 <= i < j < |s.rows| ==> s.rows[i].code != s.rows[j].code)
      && (forall row: nat :: row < |s.rows| ==> HasCreator(s.creates, row))
      && (forall x, y :: x in s.creates && y in s.creates ==>
            s.creates[x].phase.Created? && s.creates[y].phase == s.creates[x].phase ==> x == y)
      && (forall x :: x in s.creates && s.creates[x].phase.Created? ==>
            s.creates[x].phase.row < |s.rows| && s.rows[s.creates[x].phase.row].code in s.creates[x].codes)
      && (forall x :: x in s.creates && s.creates[x].phase.Conflict? ==> Resolve(s.rows, s.creates[x].phase.code).Some?)
      && (forall x, k :: x in s.creates && s.creates[x].phase.Saturated? && 0 <= k < |s.creates[x].codes| ==>
            Resolve(s.rows, s.creates[x].codes[k]).Some?)
    ensures var rows, rows' := After(cfg, steps, a).rows, After(cfg, steps, b).rows;
      && |rows| <= |rows'|
      && forall i :: 0 <= i < |rows| ==> rows'[i].code == rows[i].code && rows'[i].link == rows[i].link
  {
    AlwaysSound(cfg, steps, b);
    RunExtends(cfg, steps, a, b);
    var s := After(cfg, steps, b);
    forall x | x in s.creates ensures CreateSound(s.rows, s.creates[x]) {
    }
  }
}
