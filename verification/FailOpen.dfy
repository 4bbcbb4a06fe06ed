/** One bucket whose callers may be cut off: what they hear, and what that can cost. */
module FailOpen {
  import opened Common
  import opened TokenBucket
  import opened RateLimiting
  import opened BucketExpiry

  /**
   One check: sampled time, Redis time, whether and when the call raised, and whether Redis lost
   the bucket since the attempt before.
   */
  datatype Attempt = Attempt(now: int, clock: int, fault: Fault, evicted: bool)

  /** The bucket was lost after the last script that ran, as far as the attempts tell. */
  predicate LostSince(xs: seq<Attempt>) {
    xs != [] && xs[|xs| - 1].fault == BeforeEffect && (xs[|xs| - 1].evicted || LostSince(xs[..|xs| - 1]))
  }

  /** The checks whose script ran, whether or not the caller heard the answer. */
  function Arrivals(xs: seq<Attempt>): seq<Arrival> {
    if xs == [] then []
    else
      var before, x := xs[..|xs| - 1], xs[|xs| - 1];
      Arrivals(before) +
      if x.fault == BeforeEffect then [] else [Arrival(x.now, x.clock, x.evicted || LostSince(before))]
  }

  /** What the callers hear of a bucket that may be dropped. */
  function Expected(l: Limits, xs: seq<Attempt>): (rs: seq<RateLimitResult>)
    ensures |rs| == |xs|
  {
    if xs == [] then []
    else
      var arr := Arrivals(xs);
      var heard := if xs[|xs| - 1].fault == NoFault then Some(DroppingReply(l, arr, |arr| - 1)) else None;
      Expected(l, xs[..|xs| - 1]) + [ResultOf(heard)]
  }

  /** What they would hear of a bucket that is never dropped. */
  function ExpectedUndropped(l: Limits, xs: seq<Attempt>): (rs: seq<RateLimitResult>)
    ensures |rs| == |xs|
  {
    if xs == [] then []
    else
      var ts := Times(Arrivals(xs));
      var heard := if xs[|xs| - 1].fault == NoFault then Some(ReplyAt(l, ts, |ts| - 1)) else None;
      ExpectedUndropped(l, xs[..|xs| - 1]) + [ResultOf(heard)]
  }

  function Admissions(rs: seq<RateLimitResult>): nat {
    if rs == [] then 0
    else Admissions(rs[..|rs| - 1]) + if rs[|rs| - 1].allowed then 1 else 0
  }

  function Fallbacks(rs: seq<RateLimitResult>): nat {
    if rs == [] then 0
    else Fallbacks(rs[..|rs| - 1]) + if rs[|rs| - 1].tokensRemaining == NaN then 1 else 0
  }

  function IsAdmission(): RateLimitResult -> bool {
    (r: RateLimitResult) => r.allowed
  }

  function IsFallback(): RateLimitResult -> bool {
    (r: RateLimitResult) => r.tokensRemaining == NaN
  }

  /** Admissions are the results that let a request through; fallbacks are those that carry the marker. */
  lemma {:induction false} LedgerCounts(rs: seq<RateLimitResult>)
    ensures Admissions(rs) == |Where(rs, IsAdmission())|
    ensures Fallbacks(rs) == |Where(rs, IsFallback())|
  {
    if rs != [] {
      LedgerCounts(rs[..|rs| - 1]);
      WhereLast(rs, IsAdmission());
      WhereLast(rs, IsFallback());
    }
  }

  /**
   The NaN marker appears on exactly the results of checks that raised, and those are let through.
   Every other result tells what the script decided and the count it left.
   */
  lemma {:induction false} MarkedIffRaised(l: Limits, xs: seq<Attempt>, k: nat)
    requires k < |xs|
    ensures Expected(l, xs)[k].tokensRemaining == NaN <==> xs[k].fault != NoFault
    ensures xs[k].fault != NoFault ==> Expected(l, xs)[k].allowed
    ensures xs[k].fault == NoFault ==>
      var arr, r := Arrivals(xs[..k + 1]), Expected(l, xs)[k];
      && arr != [] && arr[|arr| - 1].now == xs[k].now
      && r.allowed == DroppingReply(l, arr, |arr| - 1).allowed
      && r.tokensRemaining == Units(Written(l, arr, |arr| - 1).tokens)
    decreases |xs|
  {
    if k == |xs| - 1 {
      assert xs[..k + 1] == xs;
    } else {
      MarkedIffRaised(l, xs[..|xs| - 1], k);
      assert xs[..|xs| - 1][..k + 1] == xs[..k + 1];
    }
  }

  lemma {:induction false} ArrivalsPrefix(xs: seq<Attempt>, p: nat)
    requires p <= |xs|
    ensures Arrivals(xs[..p]) <= Arrivals(xs)
    decreases |xs|
  {
    if p < |xs| {
      ArrivalsPrefix(xs[..|xs| - 1], p);
      assert xs[..|xs| - 1][..p] == xs[..p];
    } else {
      assert xs[..p] == xs;
    }
  }

  /******* Prefixes *******/

  lemma {:induction false} PrefixWritten(l: Limits, arr: seq<Arrival>, a: Arrival, k: nat)
    requires k < |arr|
    ensures Written(l, arr + [a], k) == Written(l, arr, k)
    ensures DroppingReply(l, arr + [a], k) == DroppingReply(l, arr, k)
  {
    if k > 0 {
      PrefixWritten(l, arr, a, k - 1);
    }
  }

  lemma {:induction false} PrefixCount(l: Limits, arr: seq<Arrival>, a: Arrival, i: nat, k: nat)
    requires i <= k <= |arr|
    ensures Count(Given(l, arr + [a]), i, k) == Count(Given(l, arr), i, k)
  {
    hide DroppingReply;
    if i < k {
      PrefixCount(l, arr, a, i, k - 1);
      PrefixWritten(l, arr, a, k - 1);
    }
  }

  lemma {:induction false} ExpectedPrefix(l: Limits, xs: seq<Attempt>, q: nat)
    requires q <= |xs|
    ensures Expected(l, xs)[..q] == Expected(l, xs[..q])
    decreases |xs|
  {
    if q < |xs| {
      var before := xs[..|xs| - 1];
      ExpectedPrefix(l, before, q);
      assert before[..q] == xs[..q];
      assert Expected(l, xs)[..q] == Expected(l, before)[..q];
    } else {
      assert xs[..q] == xs && Expected(l, xs)[..q] == Expected(l, xs);
    }
  }

  /******* The ledger *******/

  /** What the last attempt hears: it is marked if it raised, and otherwise allowed only if the bucket gave it. */
  lemma LastExpected(l: Limits, xs: seq<Attempt>)
    requires xs != []
    ensures var before, x, rs, arr := xs[..|xs| - 1], xs[|xs| - 1], Expected(l, xs), Arrivals(xs);
      && rs == Expected(l, before) + [rs[|xs| - 1]]
      && (rs[|xs| - 1].tokensRemaining == NaN <==> x.fault != NoFault)
      && (if x.fault == BeforeEffect then arr == Arrivals(before)
          else arr != [] && arr == Arrivals(before) + [arr[|arr| - 1]])
      && (rs[|xs| - 1].allowed && x.fault == NoFault ==> Given(l, arr)[|arr| - 1])
  {
  }

  /** From attempt p on, what is allowed was given by the bucket or is a fallback. */
  lemma {:induction false} AllowedIsGiven(l: Limits, xs: seq<Attempt>, p: nat)
    requires p <= |xs|
    ensures var rs, arr, i := Expected(l, xs), Arrivals(xs), |Arrivals(xs[..p])|;
      i <= |arr| && Admissions(rs[p..]) <= Count(Given(l, arr), i, |arr|) + Fallbacks(rs[p..])
    decreases |xs|
  {
    hide Expected, Arrivals, DroppingReply;
    var rs, i := Expected(l, xs), |Arrivals(xs[..p])|;
    ArrivalsPrefix(xs, p);
    if p == |xs| {
      assert xs[..p] == xs && rs[p..] == [];
    } else {
      var before := xs[..|xs| - 1];
      var arr0, arr := Arrivals(before), Arrivals(xs);
      AllowedIsGiven(l, before, p);
      LastExpected(l, xs);
      assert before[..p] == xs[..p];
      assert rs[p..][..|rs[p..]| - 1] == Expected(l, before)[p..];
      if arr != arr0 {
        PrefixCount(l, arr0, arr[|arr0|], i, |arr0|);
      }
    }
  }

  /** What the scripts that ran as arrivals i, i + 1, ... may admit; nothing if none ran. */
  function WindowBudget(l: Limits, arr: seq<Arrival>, i: nat): int
    requires i <= |arr|
  {
    if i == |arr| then 0
    else Budget(l, Forward(Times(arr), i, |arr| - 1)) + Forgiven(l, arr, i, |arr| - 1)
  }

  /**
   The results rs of the attempts xs keep within the envelope between attempts p and q: what was
   admitted there, less the fallbacks, is at most a full bucket, the refill over the forward motion
   of the stored clock, and the debt that dropping the bucket forgave.
   */
  ghost predicate WithinEnvelope(l: Limits, xs: seq<Attempt>, rs: seq<RateLimitResult>, p: nat, q: nat)
    requires |rs| == |xs| && p <= q <= |xs|
  {
    var arr, i := Arrivals(xs[..q]), |Arrivals(xs[..p])|;
    i <= |arr| && UNIT * (Admissions(rs[p..q]) - Fallbacks(rs[p..q])) <= WindowBudget(l, arr, i)
  }

  /** The ledger, for every window of every run: whatever raises, and whatever is dropped. */
  lemma {:induction false} Ledger(l: Limits, xs: seq<Attempt>, p: nat, q: nat)
    requires p <= q <= |xs|
    ensures WithinEnvelope(l, xs, Expected(l, xs), p, q)
  {
    var ys, rs := xs[..q], Expected(l, xs);
    var arr, i := Arrivals(ys), |Arrivals(xs[..p])|;
    assert ys[..p] == xs[..p];
    AllowedIsGiven(l, ys, p);
    ExpectedPrefix(l, xs, q);
    assert rs[p..q] == rs[..q][p..];
    if i < |arr| {
      DroppingEnvelope(l, arr, i, |arr| - 1);
    }
  }

  /** n checks that all ran and were all answered, at one instant and on a bucket that is not dropped. */
  lemma {:induction false} FrozenAdmissions(l: Limits, xs: seq<Attempt>, now: int)
    requires ClocksAgree(Arrivals(xs))
    requires forall k :: 0 <= k < |xs| ==> xs[k].fault == NoFault && xs[k].now == now
    ensures Admissions(Expected(l, xs)) == Min(|xs|, l.capacity)
  {
    var ts := Times(Arrivals(xs));
    AllAnswered(l, xs, now);
    DroppingUnheard(l, xs);
    FrozenClockAdmitsCapacity(l, ts, |ts|);
  }

  lemma {:induction false} AllAnswered(l: Limits, xs: seq<Attempt>, now: int)
    requires forall k :: 0 <= k < |xs| ==> xs[k].fault == NoFault && xs[k].now == now
    ensures var ts := Times(Arrivals(xs));
      && |ts| == |xs| && (forall k :: 0 <= k < |ts| ==> ts[k] == now)
      && Admissions(ExpectedUndropped(l, xs)) == Count(Decisions(l, ts), 0, |ts|)
    decreases |xs|
  {
    if xs != [] {
      var before := xs[..|xs| - 1];
      AllAnswered(l, before, now);
      var ts0, ts, rs := Times(Arrivals(before)), Times(Arrivals(xs)), ExpectedUndropped(l, xs);
      assert rs[..|rs| - 1] == ExpectedUndropped(l, before);
      assert ts == ts0 + [now];
      CountPrefix(l, ts0, now, |ts0|);
      assert Decisions(l, ts)[|ts0|] == ReplyAt(l, ts, |ts0|).allowed;
    }
  }

  lemma {:induction false} StatePrefix(l: Limits, ts: seq<int>, t: int, k: nat)
    requires k <= |ts|
    ensures StateAt(l, ts + [t], k) == StateAt(l, ts, k)
  {
    if k > 0 {
      StatePrefix(l, ts, t, k - 1);
    }
  }

  lemma {:induction false} CountPrefix(l: Limits, ts: seq<int>, t: int, k: nat)
    requires k <= |ts|
    ensures Count(Decisions(l, ts + [t]), 0, k) == Count(Decisions(l, ts), 0, k)
  {
    hide StateAt, ReplyAt;
    if k > 0 {
      CountPrefix(l, ts, t, k - 1);
      StatePrefix(l, ts, t, k - 1);
      assert AllowedAt(l, ts + [t], k - 1) == AllowedAt(l, ts, k - 1);
    }
  }

  lemma AgreePrefix(arr: seq<Arrival>, all: seq<Arrival>)
    requires arr <= all && ClocksAgree(all)
    ensures ClocksAgree(arr)
  {
    assert forall k :: 0 <= k < |arr| ==> arr[k] == all[k];
  }

  /** If clocks agree and only the TTL drops the bucket, the ledger is that of a bucket that is never dropped. */
  lemma {:induction false} NothingForgiven(l: Limits, xs: seq<Attempt>, p: nat, q: nat)
    requires p <= q <= |xs| && ClocksAgree(Arrivals(xs))
    ensures var arr, i := Arrivals(xs[..q]), |Arrivals(xs[..p])|;
      i <= |arr| && WindowBudget(l, arr, i) == if i == |arr| then 0 else Budget(l, Forward(Times(arr), i, |arr| - 1))
  {
    var arr, i := Arrivals(xs[..q]), |Arrivals(xs[..p])|;
    assert xs[..q][..p] == xs[..p];
    ArrivalsPrefix(xs[..q], p);
    ArrivalsPrefix(xs, q);
    AgreePrefix(arr, Arrivals(xs));
    if i < |arr| {
      AgreeingClocksForgiveNothing(l, arr, i, |arr| - 1);
    }
  }

  /** Then callers cannot tell that the bucket was ever dropped. */
  lemma {:induction false} DroppingUnheard(l: Limits, xs: seq<Attempt>)
    requires ClocksAgree(Arrivals(xs))
    ensures Expected(l, xs) == ExpectedUndropped(l, xs)
    decreases |xs|
  {
    if xs != [] {
      var before, arr := xs[..|xs| - 1], Arrivals(xs);
      ArrivalsPrefix(xs, |xs| - 1);
      AgreePrefix(Arrivals(before), arr);
      DroppingUnheard(l, before);
      ExpiryLosesNoState(l, arr);
      if xs[|xs| - 1].fault == NoFault {
        assert DroppingReply(l, arr, |arr| - 1) == ReplyAt(l, Times(arr), |arr| - 1);
      }
    }
  }
}
