/** Where the clicks go: every served redirect is one click, on the code it was served for. */
module LinkClicks {
  import opened Common
  import opened SharedRedis
  import opened LinkStore
  import opened LinkInvariants

  /******* Counting visits that satisfy an arbitrary condition *******/

  type Condition = Visit -> bool

  predicate IsServed(r: Redirect) {
    r.phase.Done? && r.phase.outcome.Found?
  }

  /** Redirects that answered with a destination. */
  function Served(redirects: map<nat, Redirect>, p: Condition): set<nat> {
    set id | id in redirects && IsServed(redirects[id]) && p(redirects[id].visit)
  }

  function Waiting(visits: map<nat, Visit>, p: Condition): set<nat> {
    set id | id in visits && p(visits[id])
  }

  function Recorded(events: seq<Click>, p: Condition): nat {
    if events == [] then 0
    else
      var e := events[|events| - 1];
      Recorded(events[..|events| - 1], p) + if p(Visit(e.code, e.referrer)) then 1 else 0
  }

  function OnCode(code: string): Condition {
    (v: Visit) => v.code == code
  }

  function Exactly(visit: Visit): Condition {
    (v: Visit) => v == visit
  }

  function Any(): Condition {
    (v: Visit) => true
  }

  lemma {:induction false} RecordedCounts(events: seq<Click>, code: string, referrer: Option<string>)
    ensures Recorded(events, OnCode(code)) == EventCount(events, code)
    ensures Recorded(events, Exactly(Visit(code, referrer))) == CountFrom(events, code, referrer)
    ensures Recorded(events, Any()) == |events|
  {
    if events != [] {
      RecordedCounts(events[..|events| - 1], code, referrer);
    }
  }

  /******* Every step balances *******/

  /** What is queued or lost is the visit of a served redirect, and not both. */
  ghost predicate Accounted(s: State) {
    && (forall id :: id in s.queue ==> id !in s.lost && IsVisitOf(s, id, s.queue[id]))
    && (forall id :: id in s.lost ==> IsVisitOf(s, id, s.lost[id]))
  }

  predicate IsVisitOf(s: State, id: nat, visit: Visit) {
    id in s.redirects && IsServed(s.redirects[id]) && s.redirects[id].visit == visit
  }

  ghost predicate Balanced(s: State, p: Condition) {
    |Served(s.redirects, p)| == Recorded(s.events, p) + |Waiting(s.queue, p)| + |Waiting(s.lost, p)|
  }

  lemma StepBalances(cfg: Config, s: State, step: Step, p: Condition)
    requires Accounted(s) && Balanced(s, p)
    ensures Accounted(Next(cfg, s, step)) && Balanced(Next(cfg, s, step), p)
  {
    hide RedirectNext, CreateNext, StatsNext, DoRecord, DoDrop, Balanced, Accounted;
    match step
    case Answer(id) => AnswerBalances(cfg, s, id, p);
    case Record(id, at) => RecordBalances(s, id, at, p);
    case Drop(id) => DropBalances(s, id, p);
    case _ =>
      Frame(cfg, s, step);
      if IsRedirectStep(step) {
        MoveBalances(cfg, s, step, p);
      } else {
        SameVisits(s, Next(cfg, s, step), p);
      }
  }

  lemma SameVisits(s: State, s': State, p: Condition)
    requires Accounted(s) && Balanced(s, p)
    requires s'.redirects == s.redirects && s'.events == s.events && s'.queue == s.queue && s'.lost == s.lost
    ensures Accounted(s') && Balanced(s', p)
  {
  }

  lemma WaitingMore(visits: map<nat, Visit>, id: nat, visit: Visit, p: Condition)
    requires id !in visits
    ensures |Waiting(visits[id := visit], p)| == |Waiting(visits, p)| + if p(visit) then 1 else 0
  {
    assert Waiting(visits[id := visit], p) == Waiting(visits, p) + if p(visit) then {id} else {};
  }

  lemma WaitingLess(visits: map<nat, Visit>, id: nat, p: Condition)
    requires id in visits
    ensures |Waiting(visits - {id}, p)| == |Waiting(visits, p)| - if p(visits[id]) then 1 else 0
  {
    assert Waiting(visits, p) == Waiting(visits - {id}, p) + if p(visits[id]) then {id} else {};
  }

  lemma ServedMore(redirects: map<nat, Redirect>, id: nat, r: Redirect, p: Condition)
    requires id in redirects && !IsServed(redirects[id]) && IsServed(r)
    ensures |Served(redirects[id := r], p)| == |Served(redirects, p)| + if p(r.visit) then 1 else 0
  {
    assert Served(redirects[id := r], p) == Served(redirects, p) + if p(r.visit) then {id} else {};
  }

  lemma AnswerBalances(cfg: Config, s: State, id: nat, p: Condition)
    requires Accounted(s) && Balanced(s, p)
    ensures Accounted(RedirectNext(cfg, s, Answer(id))) && Balanced(RedirectNext(cfg, s, Answer(id)), p)
  {
    hide Balanced, Accounted;
    if id in s.redirects && s.redirects[id].phase.Answering? {
      AnswerAccounted(s, id);
      AnswerCounted(s, id, p);
    }
  }

  lemma AnswerAccounted(s: State, id: nat)
    requires Accounted(s) && id in s.redirects && s.redirects[id].phase.Answering?
    ensures Accounted(DoAnswer(s, id)) && id !in s.queue
  {
  }

  lemma AnswerCounted(s: State, id: nat, p: Condition)
    requires Balanced(s, p) && id in s.redirects && s.redirects[id].phase.Answering? && id !in s.queue
    ensures Balanced(DoAnswer(s, id), p)
  {
    hide Served, Waiting;
    ServedMore(s.redirects, id, DoAnswer(s, id).redirects[id], p);
    WaitingMore(s.queue, id, s.redirects[id].visit, p);
  }

  lemma RecordBalances(s: State, id: nat, at: int, p: Condition)
    requires Accounted(s) && Balanced(s, p)
    ensures Accounted(DoRecord(s, id, at)) && Balanced(DoRecord(s, id, at), p)
  {
    hide Served, Waiting;
    if id in s.queue {
      WaitingLess(s.queue, id, p);
      assert DoRecord(s, id, at).events[..|s.events|] == s.events;
    }
  }

  lemma DropBalances(s: State, id: nat, p: Condition)
    requires Accounted(s) && Balanced(s, p)
    ensures Accounted(DoDrop(s, id)) && Balanced(DoDrop(s, id), p)
  {
    hide Served, Waiting;
    if id in s.queue {
      WaitingLess(s.queue, id, p);
      WaitingMore(s.lost, id, s.queue[id], p);
    }
  }

  /** No other step serves a redirect or takes one back. */
  lemma MoveBalances(cfg: Config, s: State, step: Step, p: Condition)
    requires Accounted(s) && Balanced(s, p)
    requires IsRedirectStep(step) && !step.Answer?
    ensures Accounted(RedirectNext(cfg, s, step)) && Balanced(RedirectNext(cfg, s, step), p)
  {
    var s' := RedirectNext(cfg, s, step);
    MoveServesNone(cfg, s, step);
    assert Served(s'.redirects, p) == Served(s.redirects, p);
  }

  lemma MoveServesNone(cfg: Config, s: State, step: Step)
    requires IsRedirectStep(step) && !step.Answer?
    ensures var s' := RedirectNext(cfg, s, step);
      && (forall id :: id in s.redirects && IsServed(s.redirects[id]) ==>
            id in s'.redirects && s'.redirects[id] == s.redirects[id])
      && (forall id :: id in s'.redirects && IsServed(s'.redirects[id]) ==>
            id in s.redirects && s.redirects[id] == s'.redirects[id])
  {
  }

  /******* Every run *******/

  lemma {:induction false} AlwaysBalanced(cfg: Config, steps: seq<Step>, k: nat, p: Condition)
    requires k <= |steps|
    ensures Accounted(After(cfg, steps, k)) && Balanced(After(cfg, steps, k), p)
  {
    hide Next;
    if k > 0 {
      AlwaysBalanced(cfg, steps, k - 1, p);
      StepBalances(cfg, After(cfg, steps, k - 1), steps[k - 1], p);
    }
  }

  function TotalClicks(rows: seq<Row>): nat {
    if rows == [] then 0 else rows[0].clicks + TotalClicks(rows[1..])
  }

  lemma {:induction false} TotalAppend(rows: seq<Row>, row: Row)
    ensures TotalClicks(rows + [row]) == TotalClicks(rows) + row.clicks
  {
    if rows == [] {
      assert rows + [row] == [row];
    } else {
      assert (rows + [row])[1..] == rows[1..] + [row];
      TotalAppend(rows[1..], row);
    }
  }

  lemma {:induction false} TotalBump(rows: seq<Row>, code: string)
    requires UniqueCodes(rows)
    ensures TotalClicks(Bump(rows, code)) == TotalClicks(rows) + if FindRow(rows, code).Some? then 1 else 0
  {
    if rows != [] {
      var rest := rows[1..];
      assert Bump(rows, code)[1..] == Bump(rest, code);
      TotalBump(rest, code);
      if rows[0].code == code {
        ResolveIff(rest, code);
      }
    }
  }

  lemma TotalStep(cfg: Config, s: State, step: Step)
    requires Sound(s) && TotalClicks(s.rows) == |s.events|
    ensures TotalClicks(Next(cfg, s, step).rows) == |Next(cfg, s, step).events|
  {
    Frame(cfg, s, step);
    if step.Record? && step.id in s.queue {
      assert Resolve(s.rows, s.queue[step.id].code).Some?;
      TotalBump(s.rows, s.queue[step.id].code);
    } else if step.Commit? && step.id in s.creates && s.creates[step.id].phase.Inserted? {
      TotalAppend(s.rows, Row(s.creates[step.id].phase.code, s.creates[step.id].phase.link, 0));
    }
  }

  lemma {:induction false} TotalFollows(cfg: Config, steps: seq<Step>, k: nat)
    requires k <= |steps|
    ensures TotalClicks(After(cfg, steps, k).rows) == |After(cfg, steps, k).events|
  {
    hide Next;
    if k > 0 {
      TotalFollows(cfg, steps, k - 1);
      AlwaysSound(cfg, steps, k - 1);
      TotalStep(cfg, After(cfg, steps, k - 1), steps[k - 1]);
    }
  }

  /** In every reachable state counters are events, every event has a row, and the counters add up. */
  lemma {:induction false} CountersAreEvents(cfg: Config, steps: seq<Step>, k: nat)
    requires k <= |steps|
    ensures var s := After(cfg, steps, k);
      && (forall i :: 0 <= i < |s.rows| ==> s.rows[i].clicks == EventCount(s.events, s.rows[i].code))
      && (forall i :: 0 <= i < |s.events| ==> exists r :: 0 <= r < |s.rows| && s.rows[r].code == s.events[i].code)
      && TotalClicks(s.rows) == |s.events|
  {
    AlwaysSound(cfg, steps, k);
    TotalFollows(cfg, steps, k);
    var s := After(cfg, steps, k);
    forall i | 0 <= i < |s.events| ensures exists r :: 0 <= r < |s.rows| && s.rows[r].code == s.events[i].code {
      ResolveIff(s.rows, s.events[i].code);
    }
  }

  /**
   In every reachable state, for every code and for every referrer on it, each redirect that was
   served is accounted for exactly once: recorded, still queued, or lost by a failed background
   task. What is queued or lost under a redirect is that redirect's own visit.
   */
  lemma {:induction false} ClickConservation(
      cfg: Config, steps: seq<Step>, k: nat, code: string, referrer: Option<string>)
    requires k <= |steps|
    ensures var s, p := After(cfg, steps, k), OnCode(code);
      |Served(s.redirects, p)| == EventCount(s.events, code) + |Waiting(s.queue, p)| + |Waiting(s.lost, p)|
    ensures var s, p := After(cfg, steps, k), Exactly(Visit(code, referrer));
      |Served(s.redirects, p)| == CountFrom(s.events, code, referrer) + |Waiting(s.queue, p)| + |Waiting(s.lost, p)|
    ensures var s := After(cfg, steps, k);
      |Served(s.redirects, Any())| == |s.events| + |s.queue| + |s.lost|
    ensures Accounted(After(cfg, steps, k))
  {
    hide Next;
    var s := After(cfg, steps, k);
    AlwaysBalanced(cfg, steps, k, OnCode(code));
    AlwaysBalanced(cfg, steps, k, Exactly(Visit(code, referrer)));
    AlwaysBalanced(cfg, steps, k, Any());
    RecordedCounts(s.events, code, referrer);
    assert Waiting(s.queue, Any()) == s.queue.Keys && Waiting(s.lost, Any()) == s.lost.Keys;
  }

  /******* What one click task does *******/

  /** The task of a served redirect records one click: one event, one more on the row of its code. */
  lemma RecordCounts(cfg: Config, steps: seq<Step>, k: nat, id: nat, at: int)
    requires k < |steps| && steps[k] == Record(id, at) && id in After(cfg, steps, k).queue
    ensures var s, s', v := After(cfg, steps, k), After(cfg, steps, k + 1), After(cfg, steps, k).queue[id];
      && id !in s'.queue && id !in s'.lost
      && s'.events == s.events + [Click(v.code, v.referrer, at)]
      && |s'.rows| == |s.rows|
      && (forall i :: 0 <= i < |s.rows| ==>
            s'.rows[i] == Row(s.rows[i].code, s.rows[i].link,
                              s.rows[i].clicks + if s.rows[i].code == v.code then 1 else 0))
      && (exists i :: 0 <= i < |s.rows| && s.rows[i].code == v.code)
      && s' == s.(queue := s.queue - {id}, events := s'.events, rows := s'.rows)
  {
    AlwaysSound(cfg, steps, k);
    AlwaysBalanced(cfg, steps, k, Any());
    var s := After(cfg, steps, k);
    ResolveIff(s.rows, s.queue[id].code);
    RecordStep(cfg, s, id, at);
  }

  lemma RecordStep(cfg: Config, s: State, id: nat, at: int)
    requires id in s.queue
    ensures var s', v := Next(cfg, s, Record(id, at)), s.queue[id];
      && s'.events == s.events + [Click(v.code, v.referrer, at)]
      && s'.rows == Bump(s.rows, v.code)
      && s' == s.(queue := s.queue - {id}, events := s'.events, rows := s'.rows)
  {
  }

  /** A failed task loses exactly its own visit. */
  lemma DropLoses(cfg: Config, steps: seq<Step>, k: nat, id: nat)
    requires k < |steps| && steps[k] == Drop(id) && id in After(cfg, steps, k).queue
    ensures var s := After(cfg, steps, k);
      After(cfg, steps, k + 1) == s.(queue := s.queue - {id}, lost := s.lost[id := s.queue[id]]) && id !in s.lost
  {
    AlwaysBalanced(cfg, steps, k, Any());
  }

  lemma {:induction false} NoneLost(cfg: Config, steps: seq<Step>, k: nat)
    requires k <= |steps| && forall j :: 0 <= j < k ==> !steps[j].Drop?
    ensures After(cfg, steps, k).lost == map[]
  {
    hide Next;
    if k > 0 {
      NoneLost(cfg, steps, k - 1);
      OnlyDropLoses(cfg, After(cfg, steps, k - 1), steps[k - 1]);
    }
  }

  lemma OnlyDropLoses(cfg: Config, s: State, step: Step)
    requires !step.Drop?
    ensures Next(cfg, s, step).lost == s.lost
  {
    hide RedirectNext, CreateNext, StatsNext, DoRecord;
  }

  /**
   Once every task has run and none has failed, each row's counter is the number of redirects that
   were served on its code.
   */
  lemma {:induction false} AllClicksCounted(cfg: Config, steps: seq<Step>, k: nat)
    requires k <= |steps| && forall j :: 0 <= j < k ==> !steps[j].Drop?
    requires After(cfg, steps, k).queue == map[]
    ensures var s := After(cfg, steps, k);
      forall i :: 0 <= i < |s.rows| ==> s.rows[i].clicks == |Served(s.redirects, OnCode(s.rows[i].code))|
  {
    hide Next;
    var s := After(cfg, steps, k);
    NoneLost(cfg, steps, k);
    CountersAreEvents(cfg, steps, k);
    forall i | 0 <= i < |s.rows| ensures s.rows[i].clicks == |Served(s.redirects, OnCode(s.rows[i].code))| {
      ClickConservation(cfg, steps, k, s.rows[i].code, None);
      assert Waiting(s.queue, OnCode(s.rows[i].code)) == {} && Waiting(s.lost, OnCode(s.rows[i].code)) == {};
    }
  }

  /** Only a redirect that was served has a visit queued. */
  lemma QueuedIsServed(cfg: Config, steps: seq<Step>, id: nat)
    requires id in After(cfg, steps, |steps|).queue
    ensures var s := After(cfg, steps, |steps|);
      id in s.redirects && IsServed(s.redirects[id])
  {
    AlwaysBalanced(cfg, steps, |steps|, Any());
  }
}
