/** The stats endpoint: three reads, with clicks committing in between. */
module LinkStats {
  import opened Common
  import opened SharedRedis
  import opened LinkStore
  import opened LinkInvariants

  /******* Groups add up *******/

  function SumCounts(groups: seq<Group>): nat {
    if groups == [] then 0 else SumCounts(groups[..|groups| - 1]) + groups[|groups| - 1].count
  }

  /** Clicks on a code whose referrer is one of rs. */
  function CountAmong(events: seq<Click>, code: string, rs: set<Option<string>>): nat {
    if events == [] then 0
    else
      var e := events[|events| - 1];
      CountAmong(events[..|events| - 1], code, rs) + if e.code == code && e.referrer in rs then 1 else 0
  }

  /** The referrers that occur among the clicks on a code. */
  function Referrers(events: seq<Click>, code: string): set<Option<string>> {
    set i | 0 <= i < |events| && events[i].code == code :: events[i].referrer
  }

  function Keys(groups: seq<Group>): set<Option<string>> {
    set i | 0 <= i < |groups| :: groups[i].referrer
  }

  function ClickFrom(code: string, referrer: Option<string>): Click -> bool {
    (e: Click) => e.code == code && e.referrer == referrer
  }

  function ClickOn(code: string): Click -> bool {
    (e: Click) => e.code == code
  }

  /** The counts are the numbers of such clicks in the history. */
  lemma {:induction false} CountsAreClicks(events: seq<Click>, code: string, referrer: Option<string>)
    ensures EventCount(events, code) == |Where(events, ClickOn(code))|
    ensures CountFrom(events, code, referrer) == |Where(events, ClickFrom(code, referrer))|
  {
    if events != [] {
      CountsAreClicks(events[..|events| - 1], code, referrer);
      WhereLast(events, ClickOn(code));
      WhereLast(events, ClickFrom(code, referrer));
    }
  }

  lemma {:induction false} AmongPlusOne(events: seq<Click>, code: string, rs: set<Option<string>>, r: Option<string>)
    requires r !in rs
    ensures CountAmong(events, code, rs + {r}) == CountAmong(events, code, rs) + CountFrom(events, code, r)
  {
    if events != [] {
      AmongPlusOne(events[..|events| - 1], code, rs, r);
    }
  }

  lemma {:induction false} AmongNone(events: seq<Click>, code: string)
    ensures CountAmong(events, code, {}) == 0
  {
    if events != [] {
      AmongNone(events[..|events| - 1], code);
    }
  }

  lemma {:induction false} AmongAll(events: seq<Click>, code: string, rs: set<Option<string>>)
    requires Referrers(events, code) <= rs
    ensures CountAmong(events, code, rs) == EventCount(events, code)
  {
    if events != [] {
      var before, e := events[..|events| - 1], events[|events| - 1];
      ReferrersAppend(before, e, code);
      assert before + [e] == events;
      AmongAll(before, code, rs);
    }
  }

  lemma ReferrersAppend(events: seq<Click>, e: Click, code: string)
    ensures Referrers(events + [e], code) == Referrers(events, code) + if e.code == code then {e.referrer} else {}
  {
    var all := events + [e];
    forall r | r in Referrers(events, code) ensures r in Referrers(all, code) {
      var i :| 0 <= i < |events| && events[i].code == code && events[i].referrer == r;
      assert all[i] == events[i];
    }
    assert all[|events|] == e;
  }

  /** Groups with distinct keys and exact counts: their sum is the number of clicks they cover. */
  lemma {:induction false} SumIsCovered(events: seq<Click>, code: string, groups: seq<Group>)
    requires forall i, j :: 0 <= i < j < |groups| ==> groups[i].referrer != groups[j].referrer
    requires forall i :: 0 <= i < |groups| ==> groups[i].count == CountFrom(events, code, groups[i].referrer)
    ensures SumCounts(groups) == CountAmong(events, code, Keys(groups))
    ensures |Keys(groups)| == |groups|
  {
    if groups == [] {
      AmongNone(events, code);
      assert Keys(groups) == {};
    } else {
      var front, last := groups[..|groups| - 1], groups[|groups| - 1];
      SumIsCovered(events, code, front);
      assert last.referrer !in Keys(front);
      assert Keys(groups) == Keys(front) + {last.referrer};
      AmongPlusOne(events, code, Keys(front), last.referrer);
    }
  }

  /** A complete grouping has one group per referrer and sums to all clicks on the code. */
  lemma {:induction false} GroupingSums(events: seq<Click>, code: string, groups: seq<Group>)
    requires IsGrouping(events, code, groups)
    ensures SumCounts(groups) == EventCount(events, code)
    ensures Keys(groups) == Referrers(events, code)
  {
    SumIsCovered(events, code, groups);
    forall r | r in Keys(groups) ensures r in Referrers(events, code) {
      var i :| 0 <= i < |groups| && groups[i].referrer == r;
      CountedOccurs(events, code, r);
    }
    AmongAll(events, code, Keys(groups));
  }

  lemma {:induction false} CountedOccurs(events: seq<Click>, code: string, r: Option<string>)
    requires 0 < CountFrom(events, code, r)
    ensures r in Referrers(events, code)
  {
    var before, e := events[..|events| - 1], events[|events| - 1];
    assert before + [e] == events;
    ReferrersAppend(before, e, code);
    if !(e.code == code && e.referrer == r) {
      CountedOccurs(before, code, r);
    }
  }

  lemma {:induction false} SumSplit(a: seq<Group>, b: seq<Group>)
    ensures SumCounts(a + b) == SumCounts(a) + SumCounts(b)
    ensures (forall i :: 0 <= i < |b| ==> 0 < b[i].count) && b != [] ==> 0 < SumCounts(b)
  {
    if b == [] {
      assert a + b == a;
    } else {
      assert (a + b)[..|a + b| - 1] == a + b[..|b| - 1];
      SumSplit(a, b[..|b| - 1]);
    }
  }

  /**
   The top referrers account for every click on the code if and only if at most `limit`
   referrers occur; otherwise the sum falls short.
   */
  lemma {:induction false} TopCoversIff(
      events: seq<Click>, code: string, limit: nat, top: seq<Group>, others: seq<Group>)
    requires TopAt(events, code, limit, top, others)
    ensures SumCounts(top) <= EventCount(events, code)
    ensures SumCounts(top) == EventCount(events, code) <==> |Referrers(events, code)| <= limit
    ensures |top| == Min(limit, |Referrers(events, code)|)
  {
    GroupingSums(events, code, top + others);
    SumIsCovered(events, code, top + others);
    SumSplit(top, others);
    assert forall i :: 0 <= i < |others| ==> others[i] == (top + others)[|top| + i];
  }

  /**
   The report is most frequent first: counts are exact and descending, and no referrer that is left
   out has more clicks on the code than one that is listed.
   */
  lemma {:induction false} MostFrequentFirst(
      events: seq<Click>, code: string, limit: nat, top: seq<Group>, others: seq<Group>)
    requires TopAt(events, code, limit, top, others)
    ensures forall i :: 0 <= i < |top| ==> top[i].count == CountFrom(events, code, top[i].referrer) > 0
    ensures forall i, j :: 0 <= i < j < |top| ==> top[j].count <= top[i].count
    ensures forall r, i :: r in Referrers(events, code) - Keys(top) && 0 <= i < |top| ==>
              CountFrom(events, code, r) <= top[i].count
  {
    var all := top + others;
    GroupingSums(events, code, all);
    forall i | 0 <= i < |top| ensures top[i] == all[i] && all[i].referrer in Keys(top) {
    }
    forall r, i | r in Referrers(events, code) - Keys(top) && 0 <= i < |top|
      ensures CountFrom(events, code, r) <= top[i].count
    {
      assert r in Keys(all);
      var g :| 0 <= g < |all| && all[g].referrer == r;
      assert all[g].count <= all[i].count;
    }
  }

  /******* Recent clicks *******/

  lemma {:induction false} EventsOfAre(events: seq<Click>, code: string, e: Click)
    ensures multiset(EventsOf(events, code))[e] == if e.code == code then multiset(events)[e] else 0
  {
    if events != [] {
      var before, last := events[..|events| - 1], events[|events| - 1];
      EventsOfAre(before, code, e);
      assert events == before + [last];
    }
  }

  /**
   The list is newest first: its clicks are on the code and in the history, none is newer than the
   one before it, and no click on the code that is left out is newer than one that is listed.
   */
  lemma {:induction false} NewestFirst(
      events: seq<Click>, code: string, limit: nat, recent: seq<Click>, rest: seq<Click>)
    requires CutAt(EventsOf(events, code), limit, recent, rest)
    ensures forall i, j :: 0 <= i < j < |recent| ==> recent[j].clickedAt <= recent[i].clickedAt
    ensures forall e: Click :: multiset(recent)[e] <= if e.code == code then multiset(events)[e] else 0
    ensures forall e: Click, i :: e.code == code && multiset(recent)[e] < multiset(events)[e] && 0 <= i < |recent| ==>
              e.clickedAt <= recent[i].clickedAt
  {
    var all := recent + rest;
    assert multiset(all) == multiset(recent) + multiset(rest);
    forall i | 0 <= i < |recent| ensures recent[i] == all[i] {
    }
    forall e: Click ensures multiset(recent)[e] <= if e.code == code then multiset(events)[e] else 0 {
      EventsOfAre(events, code, e);
    }
    forall e: Click, i | e.code == code && multiset(recent)[e] < multiset(events)[e] && 0 <= i < |recent|
      ensures e.clickedAt <= recent[i].clickedAt
    {
      EventsOfAre(events, code, e);
      assert e in multiset(rest);
      var j :| 0 <= j < |rest| && rest[j] == e;
      assert all[|recent| + j] == e;
    }
  }

  lemma {:induction false} EventsOfCount(events: seq<Click>, code: string)
    ensures |EventsOf(events, code)| == EventCount(events, code)
  {
    if events != [] {
      EventsOfCount(events[..|events| - 1], code);
    }
  }

  lemma RecentCount(events: seq<Click>, code: string, limit: nat, recent: seq<Click>, rest: seq<Click>)
    requires CutAt(EventsOf(events, code), limit, recent, rest)
    ensures |recent| == Min(limit, EventCount(events, code))
  {
    EventsOfCount(events, code);
  }

  /******* Stats over runs *******/

  /** History only grows. */
  lemma {:induction false} CountsGrow(events: seq<Click>, e: Click, code: string)
    ensures EventCount(events, code) <= EventCount(events + [e], code)
    ensures Referrers(events, code) <= Referrers(events + [e], code)
  {
    assert (events + [e])[..|events|] == events;
    ReferrersAppend(events, e, code);
  }

  lemma SmallerSet<T>(a: set<T>, b: set<T>)
    requires a <= b
    ensures |a| <= |b|
  {
    assert b == a + (b - a);
  }

  /** What a stats request in flight has read agrees with the history so far. */
  ghost predicate StatsSound(events: seq<Click>, t: Stats) {
    match t.phase
    case Missing => true
    case Counted(clicks) => clicks <= EventCount(events, t.code)
    case Listed(clicks, recent) =>
      clicks <= EventCount(events, t.code) && RecentFits(clicks, recent, EventCount(events, t.code))
    case Reported(clicks, recent, top) =>
      && clicks <= EventCount(events, t.code)
      && RecentFits(clicks, recent, EventCount(events, t.code))
      && SumCounts(top) <= EventCount(events, t.code)
      && (|Referrers(events, t.code)| <= 10 ==> clicks <= SumCounts(top))
  }

  predicate RecentFits(clicks: nat, recent: seq<Click>, total: nat) {
    Min(clicks, 20) <= |recent| <= Min(total, 20)
  }

  lemma StatsSoundKept(events: seq<Click>, e: Click, t: Stats)
    requires StatsSound(events, t)
    ensures StatsSound(events + [e], t)
  {
    CountsGrow(events, e, t.code);
    SmallerSet(Referrers(events, t.code), Referrers(events + [e], t.code));
  }

  ghost predicate AllStatsSound(s: State) {
    forall id :: id in s.stats ==> StatsSound(s.events, s.stats[id])
  }

  lemma StatsMove(s: State, step: Step, id: nat)
    requires ClicksSound(s) && IsStatsStep(step)
    requires AllStatsSound(s)
    requires id in StatsNext(s, step).stats
    ensures StatsSound(s.events, StatsNext(s, step).stats[id])
  {
    hide DoStatsCount, DoStatsRecent, DoStatsTop;
    match step
    case StatsCount(x, code) => CountMove(s, x, code, id);
    case StatsRecent(x, recent, rest) => RecentMove(s, x, recent, rest, id);
    case StatsTop(x, top, others) => TopMove(s, x, top, others, id);
  }

  lemma CountMove(s: State, x: nat, code: string, id: nat)
    requires ClicksSound(s) && AllStatsSound(s) && id in DoStatsCount(s, x, code).stats
    ensures StatsSound(s.events, DoStatsCount(s, x, code).stats[id])
  {
    ResolveIff(s.rows, code);
  }

  lemma RecentMove(s: State, x: nat, recent: seq<Click>, rest: seq<Click>, id: nat)
    requires AllStatsSound(s) && id in DoStatsRecent(s, x, recent, rest).stats
    ensures StatsSound(s.events, DoStatsRecent(s, x, recent, rest).stats[id])
  {
    if x in s.stats && CutAt(EventsOf(s.events, s.stats[x].code), RECENT_LIMIT, recent, rest) {
      RecentCount(s.events, s.stats[x].code, RECENT_LIMIT, recent, rest);
    }
  }

  lemma TopMove(s: State, x: nat, top: seq<Group>, others: seq<Group>, id: nat)
    requires AllStatsSound(s) && id in DoStatsTop(s, x, top, others).stats
    ensures StatsSound(s.events, DoStatsTop(s, x, top, others).stats[id])
  {
    if x in s.stats && TopAt(s.events, s.stats[x].code, TOP_LIMIT, top, others) {
      TopCoversIff(s.events, s.stats[x].code, TOP_LIMIT, top, others);
    }
  }

  /**
   A stats response is consistent although clicks commit between its reads: the list is never
   shorter than the counter it is shown with (up to its limit), and as long as at most ten
   referrers occur the referrer counts add up to at least the counter and at most the clicks
   there are now.
   */
  lemma {:induction false} StatsConsistent(cfg: Config, steps: seq<Step>, k: nat)
    requires k <= |steps|
    ensures AllStatsSound(After(cfg, steps, k))
  {
    hide Next;
    if k > 0 {
      StatsConsistent(cfg, steps, k - 1);
      AlwaysCounted(cfg, steps, k - 1);
      StatsStep(cfg, After(cfg, steps, k - 1), steps[k - 1]);
    }
  }

  lemma AlwaysCounted(cfg: Config, steps: seq<Step>, k: nat)
    requires k <= |steps|
    ensures ClicksSound(After(cfg, steps, k))
  {
    AlwaysSound(cfg, steps, k);
  }

  lemma StatsStep(cfg: Config, s: State, step: Step)
    requires ClicksSound(s)
    requires AllStatsSound(s)
    ensures AllStatsSound(Next(cfg, s, step))
  {
    hide Next;
    var s' := Next(cfg, s, step);
    Frame(cfg, s, step);
    NextByKind(cfg, s, step);
    if IsStatsStep(step) {
      forall id | id in s'.stats ensures StatsSound(s'.events, s'.stats[id]) {
        StatsMove(s, step, id);
      }
    } else if step.Record? && step.id in s.queue {
      var visit := s.queue[step.id];
      forall id | id in s'.stats ensures StatsSound(s'.events, s'.stats[id]) {
        StatsSoundKept(s.events, Click(visit.code, visit.referrer, step.at), s.stats[id]);
      }
    }
  }

  /** The counter a stats request has read, once it has read it. */
  function CountRead(t: Stats): Option<nat> {
    match t.phase
    case Missing => None
    case Counted(clicks) => Some(clicks)
    case Listed(clicks, _) => Some(clicks)
    case Reported(clicks, _, _) => Some(clicks)
  }

  lemma StatsStepKeeps(cfg: Config, s: State, step: Step, id: nat)
    requires id in s.stats
    ensures id in Next(cfg, s, step).stats
    ensures Next(cfg, s, step).stats[id].code == s.stats[id].code
    ensures CountRead(Next(cfg, s, step).stats[id]) == CountRead(s.stats[id])
  {
    hide Next, CutAt, TopAt;
    Frame(cfg, s, step);
    NextByKind(cfg, s, step);
  }

  lemma {:induction false} CountStays(cfg: Config, steps: seq<Step>, a: nat, b: nat, id: nat)
    requires a <= b <= |steps| && id in After(cfg, steps, a).stats
    ensures id in After(cfg, steps, b).stats
    ensures After(cfg, steps, b).stats[id].code == After(cfg, steps, a).stats[id].code
    ensures CountRead(After(cfg, steps, b).stats[id]) == CountRead(After(cfg, steps, a).stats[id])
    decreases b - a
  {
    hide Next;
    if a < b {
      CountStays(cfg, steps, a, b - 1, id);
      StatsStepKeeps(cfg, After(cfg, steps, b - 1), steps[b - 1], id);
    }
  }

  /**
   The first read: "not found" if and only if no committed row carries the code, and otherwise the
   counter of the row that does, which is the number of clicks recorded so far.
   */
  lemma FirstRead(cfg: Config, s: State, id: nat, code: string)
    requires ClicksSound(s) && id !in s.stats
    ensures var s' := Next(cfg, s, StatsCount(id, code));
      && id in s'.stats && s'.stats[id].code == code
      && (s'.stats[id].phase == Missing <==> forall i :: 0 <= i < |s.rows| ==> s.rows[i].code != code)
      && (s'.stats[id].phase == Missing ||
          exists i :: 0 <= i < |s.rows| && s.rows[i].code == code && s'.stats[id].phase == Counted(s.rows[i].clicks))
      && (CountRead(s'.stats[id]).Some? ==> CountRead(s'.stats[id]).value == EventCount(s.events, code))
  {
    ResolveIff(s.rows, code);
    if FindRow(s.rows, code).Some? {
      var i :| 0 <= i < |s.rows| && s.rows[i].code == code && s.rows[i] == FindRow(s.rows, code).value;
      assert DoStatsCount(s, id, code).stats[id].phase == Counted(s.rows[i].clicks);
    }
  }

  /** In every reachable state, the 404 of the stats endpoint is for codes without a row and for no others. */
  lemma StatsFoundIff(cfg: Config, steps: seq<Step>, k: nat, id: nat, code: string)
    requires k <= |steps| && id !in After(cfg, steps, k).stats
    ensures var s := After(cfg, steps, k);
      var phase := Next(cfg, s, StatsCount(id, code)).stats[id].phase;
      if exists i :: 0 <= i < |s.rows| && s.rows[i].code == code
      then exists i :: 0 <= i < |s.rows| && s.rows[i].code == code && phase == Counted(s.rows[i].clicks)
      else phase == Missing
  {
    hide Next;
    AlwaysCounted(cfg, steps, k);
    FirstRead(cfg, After(cfg, steps, k), id, code);
  }

  /** What t has read first is what the rows said. */
  ghost predicate ReadFrom(rows: seq<Row>, t: Stats) {
    if CountRead(t).None? then forall i :: 0 <= i < |rows| ==> rows[i].code != t.code
    else exists i :: 0 <= i < |rows| && rows[i].code == t.code && rows[i].clicks == CountRead(t).value
  }

  /** State j is the one in which the stats request began. */
  ghost predicate BeganAt(cfg: Config, steps: seq<Step>, j: nat, b: nat, id: nat, t: Stats)
    requires b <= |steps|
  {
    j < b && id !in After(cfg, steps, j).stats && ReadFrom(After(cfg, steps, j).rows, t)
  }

  /**
   In every run, a stats request answers from the rows of the state in which it began: "not found"
   if and only if none of them carries its code, else with that row's counter.
   */
  lemma {:induction false} StatsAnswerFromRow(cfg: Config, steps: seq<Step>, b: nat, id: nat)
    requires b <= |steps| && id in After(cfg, steps, b).stats
    ensures exists j: nat :: BeganAt(cfg, steps, j, b, id, After(cfg, steps, b).stats[id])
  {
    hide Next;
    if b > 0 {
      var s, step := After(cfg, steps, b - 1), steps[b - 1];
      if id in s.stats {
        StatsAnswerFromRow(cfg, steps, b - 1, id);
        StatsStepKeeps(cfg, s, step, id);
        var j: nat :| BeganAt(cfg, steps, j, b - 1, id, s.stats[id]);
        assert BeganAt(cfg, steps, j, b, id, After(cfg, steps, b).stats[id]);
      } else {
        AlwaysCounted(cfg, steps, b - 1);
        StatsBegin(cfg, s, step, id);
        FirstRead(cfg, s, id, step.target);
        assert BeganAt(cfg, steps, b - 1, b, id, After(cfg, steps, b).stats[id]);
      }
    }
  }

  lemma StatsBegin(cfg: Config, s: State, step: Step, id: nat)
    requires id !in s.stats && id in Next(cfg, s, step).stats
    ensures step.StatsCount? && step.id == id
  {
    hide Next;
    Frame(cfg, s, step);
    NextByKind(cfg, s, step);
  }

  /** The second read goes through exactly on an answer the query may give, and lists the newest clicks. */
  lemma RecentRead(cfg: Config, s: State, id: nat, recent: seq<Click>, rest: seq<Click>)
    requires id in s.stats && s.stats[id].phase.Counted?
    ensures var s', clicks := Next(cfg, s, StatsRecent(id, recent, rest)), s.stats[id].phase.clicks;
      s' == s.(stats := s.stats[id := Stats(s.stats[id].code,
        if CutAt(EventsOf(s.events, s.stats[id].code), 20, recent, rest) then Listed(clicks, recent)
        else Counted(clicks))])
  {
  }

  /** The last read likewise, with the top referrers of that moment. */
  lemma LastRead(cfg: Config, s: State, id: nat, top: seq<Group>, others: seq<Group>)
    requires id in s.stats && s.stats[id].phase.Listed?
    ensures var s', phase := Next(cfg, s, StatsTop(id, top, others)), s.stats[id].phase;
      s' == s.(stats := s.stats[id := Stats(s.stats[id].code,
        if TopAt(s.events, s.stats[id].code, 10, top, others) then Reported(phase.clicks, phase.recent, top)
        else phase)])
  {
  }

  /** Every request that has found its row can be answered: both of its lists always exist. */
  lemma StatsCanFinish(cfg: Config, s: State, id: nat)
    requires id in s.stats
    ensures s.stats[id].phase.Counted? ==>
      exists recent, rest :: Next(cfg, s, StatsRecent(id, recent, rest)).stats[id].phase.Listed?
    ensures s.stats[id].phase.Listed? ==>
      exists top, others :: Next(cfg, s, StatsTop(id, top, others)).stats[id].phase.Reported?
  {
    hide Next;
    var code := s.stats[id].code;
    if s.stats[id].phase.Counted? {
      RecentExists(s.events, code, 20);
      var recent, rest :| CutAt(EventsOf(s.events, code), 20, recent, rest);
      RecentRead(cfg, s, id, recent, rest);
      assert Next(cfg, s, StatsRecent(id, recent, rest)).stats[id].phase.Listed?;
    } else if s.stats[id].phase.Listed? {
      TopExists(s.events, code, 10);
      var top, others :| TopAt(s.events, code, 10, top, others);
      LastRead(cfg, s, id, top, others);
      assert Next(cfg, s, StatsTop(id, top, others)).stats[id].phase.Reported?;
    }
  }

  /**
   When no click commits between the first read and the last, the three parts of a response
   agree exactly: as many recent clicks as the counter says, up to twenty, and referrer counts
   that add up to the counter precisely when at most ten referrers occur.
   */
  lemma {:induction false} QuietStatsAgree(cfg: Config, steps: seq<Step>, a: nat, b: nat, id: nat, code: string)
    requires a < b < |steps|
    requires steps[a] == StatsCount(id, code) && id !in After(cfg, steps, a).stats
    requires steps[b].StatsTop? && steps[b].id == id && id in After(cfg, steps, b).stats
    requires After(cfg, steps, b).stats[id].phase.Listed? && After(cfg, steps, b + 1).stats[id].phase.Reported?
    requires After(cfg, steps, b).events == After(cfg, steps, a).events
    ensures var events, r := After(cfg, steps, b + 1).events, After(cfg, steps, b + 1).stats[id].phase;
      && r.clicks == EventCount(events, code)
      && |r.recent| == Min(r.clicks, 20)
      && (SumCounts(r.top) == r.clicks <==> |Referrers(events, code)| <= 10)
  {
    hide Next;
    AlwaysCounted(cfg, steps, a);
    FirstRead(cfg, After(cfg, steps, a), id, code);
    CountStays(cfg, steps, a + 1, b, id);
    StatsConsistent(cfg, steps, b);
    var s := After(cfg, steps, b);
    assert StatsSound(s.events, s.stats[id]);
    LastRead(cfg, s, id, steps[b].top, steps[b].others);
    TopCoversIff(s.events, code, TOP_LIMIT, steps[b].top, steps[b].others);
  }

  /******* Both list queries always have an answer *******/

  ghost predicate Descending<T(!new)>(xs: seq<T>, key: T -> int) {
    forall i, j :: 0 <= i < j < |xs| ==> key(xs[j]) <= key(xs[i])
  }

  /** Where x goes in a descending list. */
  lemma {:induction false} Place<T(!new)>(xs: seq<T>, x: T, key: T -> int) returns (p: nat)
    requires Descending(xs, key)
    ensures p <= |xs| && Descending(xs[..p] + [x] + xs[p..], key)
  {
    p := 0;
    while p < |xs| && key(x) < key(xs[p])
      invariant p <= |xs| && forall i :: 0 <= i < p ==> key(x) < key(xs[i])
    {
      p := p + 1;
    }
  }

  lemma {:induction false} SortDescending<T(!new)>(xs: seq<T>, key: T -> int) returns (ys: seq<T>)
    ensures Descending(ys, key) && multiset(ys) == multiset(xs)
  {
    if xs == [] {
      ys := [];
    } else {
      var zs := SortDescending(xs[1..], key);
      assert xs == [xs[0]] + xs[1..];
      var p := Place(zs, xs[0], key);
      assert zs == zs[..p] + zs[p..];
      ys := zs[..p] + [xs[0]] + zs[p..];
    }
  }

  lemma RecentExists(events: seq<Click>, code: string, limit: nat)
    ensures exists recent, rest :: CutAt(EventsOf(events, code), limit, recent, rest)
  {
    var all := EventsOf(events, code);
    var sorted := SortDescending(all, (c: Click) => c.clickedAt);
    assert |multiset(sorted)| == |multiset(all)|;
    var n := Min(limit, |all|);
    assert sorted[..n] + sorted[n..] == sorted;
    assert CutAt(all, limit, sorted[..n], sorted[n..]);
  }

  /** The groups of the referrers rs, most frequent first. */
  lemma {:induction false} SortedGroups(events: seq<Click>, code: string, rs: set<Option<string>>)
    returns (groups: seq<Group>)
    ensures Descending(groups, (g: Group) => g.count)
    ensures forall i, j :: 0 <= i < j < |groups| ==> groups[i].referrer != groups[j].referrer
    ensures forall i :: 0 <= i < |groups| ==> groups[i].count == CountFrom(events, code, groups[i].referrer)
    ensures Keys(groups) == rs
  {
    if rs == {} {
      groups := [];
    } else {
      var r :| r in rs;
      var gs := SortedGroups(events, code, rs - {r});
      var g := Group(r, CountFrom(events, code, r));
      var p := Place(gs, g, (g: Group) => g.count);
      groups := gs[..p] + [g] + gs[p..];
      assert forall i :: 0 <= i < |gs| ==> gs[i].referrer in Keys(gs);
      KeysInserted(gs, g, p);
    }
  }

  lemma KeysInserted(gs: seq<Group>, g: Group, p: nat)
    requires p <= |gs|
    ensures Keys(gs[..p] + [g] + gs[p..]) == Keys(gs) + {g.referrer}
  {
    var all := gs[..p] + [g] + gs[p..];
    forall q | q in Keys(gs) ensures q in Keys(all) {
      var i :| 0 <= i < |gs| && gs[i].referrer == q;
      assert all[if i < p then i else i + 1] == gs[i];
    }
    assert all[p] == g;
  }

  lemma {:induction false} OccursCounted(events: seq<Click>, code: string, i: nat)
    requires i < |events| && events[i].code == code
    ensures 0 < CountFrom(events, code, events[i].referrer)
  {
    if i < |events| - 1 {
      OccursCounted(events[..|events| - 1], code, i);
    }
  }

  lemma TopExists(events: seq<Click>, code: string, limit: nat)
    ensures exists top, others :: TopAt(events, code, limit, top, others)
  {
    var groups := SortedGroups(events, code, Referrers(events, code));
    forall i | 0 <= i < |groups| ensures 0 < groups[i].count {
      assert groups[i].referrer in Keys(groups);
      var e :| 0 <= e < |events| && events[e].code == code && events[e].referrer == groups[i].referrer;
      OccursCounted(events, code, e);
    }
    forall e | 0 <= e < |events| && events[e].code == code
      ensures exists j :: 0 <= j < |groups| && groups[j].referrer == events[e].referrer
    {
      assert events[e].referrer in Referrers(events, code);
    }
    var n := Min(limit, |groups|);
    assert groups[..n] + groups[n..] == groups;
    assert TopAt(events, code, limit, groups[..n], groups[n..]);
  }
}
