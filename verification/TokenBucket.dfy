/**
 The token-bucket script as a function of one bucket's stored state, and what it
 decides over whole runs.

 Amounts are counted in 1/60000 of a token: a bucket of `capacity` tokens holds
 `capacity * 60000` units, one request costs 60000 units, and `refill_per_minute`
 is exactly the number of units that accrue per millisecond. Nothing is rounded.
 */
module TokenBucket {
  import opened Common

  const UNIT := 60000

  datatype RawLimits = RawLimits(capacity: int, refill: int) {
    /** A full bucket, in units. */
    function Full(): int {
      capacity * UNIT
    }
  }

  /** Both settings are validated to be positive when they are loaded. */
  type Limits = l: RawLimits | 0 < l.capacity && 0 < l.refill witness RawLimits(1, 1)

  /** The Redis hash of one bucket: units left, and the time of the last check. */
  datatype Bucket = Bucket(tokens: int, ts: int)

  datatype Reply = Reply(allowed: bool, retryAfterMs: int, remaining: int)

  /** Milliseconds since the last check; a clock that went backwards counts as zero. */
  function Elapsed(lastTs: int, now: int): nat {
    if now - lastTs < 0 then 0 else now - lastTs
  }

  /** The level the script decides on; an absent bucket starts full. */
  function Refilled(l: Limits, st: Option<Bucket>, now: int): int {
    match st
    case None => l.Full()
    case Some(b) => Min(l.Full(), b.tokens + l.refill * Elapsed(b.ts, now))
  }

  predicate Admits(l: Limits, st: Option<Bucket>, now: int) {
    UNIT <= Refilled(l, st, now)
  }

  function Charge(admitted: bool): int {
    if admitted then UNIT else 0
  }

  /** What the script writes back. */
  function NextBucket(l: Limits, st: Option<Bucket>, now: int): Bucket {
    Bucket(Refilled(l, st, now) - Charge(Admits(l, st, now)), now)
  }

  /** What the script returns. */
  function Answer(l: Limits, st: Option<Bucket>, now: int): Reply {
    var left := NextBucket(l, st, now).tokens;
    if Admits(l, st, now) then Reply(true, 0, left)
    else Reply(false, CeilDiv(UNIT - left, l.refill), left)
  }

  /** Two states answer a check alike exactly when they are refilled to the same level; then they go on alike. */
  lemma SameAnswerIff(l: Limits, a: Option<Bucket>, b: Option<Bucket>, now: int)
    ensures Answer(l, a, now) == Answer(l, b, now) <==> Refilled(l, a, now) == Refilled(l, b, now)
    ensures Refilled(l, a, now) == Refilled(l, b, now) ==> NextBucket(l, a, now) == NextBucket(l, b, now)
  {
  }

  /** Milliseconds after which an untouched bucket is dropped. */
  function TtlMs(l: Limits): int {
    CeilDiv(l.Full(), l.refill) + 1000
  }

  /******* Runs of one bucket: check k is evaluated with timestamp ts[k] *******/

  function StateAt(l: Limits, ts: seq<int>, k: nat): Option<Bucket>
    requires k <= |ts|
  {
    if k == 0 then None else Some(NextBucket(l, StateAt(l, ts, k - 1), ts[k - 1]))
  }

  function ReplyAt(l: Limits, ts: seq<int>, k: nat): Reply
    requires k < |ts|
  {
    Answer(l, StateAt(l, ts, k), ts[k])
  }

  predicate AllowedAt(l: Limits, ts: seq<int>, k: nat)
    requires k < |ts|
    ensures AllowedAt(l, ts, k) == ReplyAt(l, ts, k).allowed
  {
    Admits(l, StateAt(l, ts, k), ts[k])
  }

  /** Which checks of the run are allowed. */
  function Decisions(l: Limits, ts: seq<int>): (d: seq<bool>)
    ensures |d| == |ts|
    ensures forall k :: 0 <= k < |ts| ==> d[k] == ReplyAt(l, ts, k).allowed
  {
    seq(|ts|, k requires 0 <= k < |ts| => AllowedAt(l, ts, k))
  }

  /** How many of the checks i, ..., k-1 are admitted by the decisions d. */
  function Count(d: seq<bool>, i: nat, k: nat): (n: nat)
    requires i <= k <= |d|
    ensures n <= k - i
  {
    if i == k then 0 else Count(d, i, k - 1) + if d[k - 1] then 1 else 0
  }

  /** Total forward motion of the stored clock from check i to check k. */
  function Forward(ts: seq<int>, i: nat, k: nat): nat
    requires i <= k < |ts|
  {
    if i == k then 0 else Forward(ts, i, k - 1) + Elapsed(ts[k - 1], ts[k])
  }

  /** The most a window of ms milliseconds may hold: a full bucket plus its refill. */
  function Budget(l: Limits, ms: int): int {
    l.Full() + l.refill * ms
  }

  /** What the window from check i leaves for check k when the checks in between follow d. */
  function Room(l: Limits, ts: seq<int>, d: seq<bool>, i: nat, k: nat): int
    requires i <= k < |ts| == |d|
  {
    Budget(l, Forward(ts, i, k)) - UNIT * Count(d, i, k)
  }

  /** d never admits more in a window than a full bucket plus what accrues during the window. */
  ghost predicate Conforms(l: Limits, ts: seq<int>, d: seq<bool>)
    requires |ts| == |d|
  {
    forall i: nat, k: nat {:trigger Room(l, ts, d, i, k)} ::
      i <= k < |ts| && d[k] ==> UNIT <= Room(l, ts, d, i, k)
  }

  /** The level before check k of a bucket that is charged by arbitrary decisions d. */
  function Level(l: Limits, ts: seq<int>, d: seq<bool>, k: nat): int
    requires k < |ts| == |d|
  {
    if k == 0 then l.Full()
    else Min(l.Full(), Level(l, ts, d, k - 1) - Charge(d[k - 1]) + l.refill * Elapsed(ts[k - 1], ts[k]))
  }

  /** Closed form: the level is the least room left by any window that ends at this check. */
  lemma {:induction false} LevelIsTightestWindow(l: Limits, ts: seq<int>, d: seq<bool>, k: nat)
    requires k < |ts| == |d|
    ensures forall i: nat :: i <= k ==> Level(l, ts, d, k) <= Room(l, ts, d, i, k)
    ensures exists i: nat :: i <= k && Level(l, ts, d, k) == Room(l, ts, d, i, k)
  {
    assert Room(l, ts, d, k, k) == l.Full();
    if k > 0 {
      LevelIsTightestWindow(l, ts, d, k - 1);
      forall i: nat | i < k
        ensures Room(l, ts, d, i, k) ==
                Room(l, ts, d, i, k - 1) - Charge(d[k - 1]) + l.refill * Elapsed(ts[k - 1], ts[k])
      {
        RoomStep(l, ts, d, i, k);
      }
      var w: nat :| w <= k - 1 && Level(l, ts, d, k - 1) == Room(l, ts, d, w, k - 1);
      assert Level(l, ts, d, k) == Room(l, ts, d, w, k) || Level(l, ts, d, k) == Room(l, ts, d, k, k);
    }
  }

  lemma {:induction false} RoomStep(l: Limits, ts: seq<int>, d: seq<bool>, i: nat, k: nat)
    requires i < k < |ts| == |d|
    ensures Room(l, ts, d, i, k) ==
            Room(l, ts, d, i, k - 1) - Charge(d[k - 1]) + l.refill * Elapsed(ts[k - 1], ts[k])
  {
    var f, e := Forward(ts, i, k - 1), Elapsed(ts[k - 1], ts[k]);
    assert l.refill * (f + e) == l.refill * f + l.refill * e;
  }

  /** The stored state is the bucket charged by the script's own decisions. */
  lemma {:induction false} ScriptFollowsLevel(l: Limits, ts: seq<int>, d: seq<bool>, k: nat)
    requires k < |ts|
    requires d == Decisions(l, ts)
    ensures Refilled(l, StateAt(l, ts, k), ts[k]) == Level(l, ts, d, k)
    ensures StateAt(l, ts, k + 1) == Some(Bucket(Level(l, ts, d, k) - Charge(d[k]), ts[k]))
  {
    if k > 0 {
      ScriptFollowsLevel(l, ts, d, k - 1);
    }
  }

  /** The stored level stays between empty and full, whatever the clock does. */
  lemma {:induction false} TokensInRange(l: Limits, ts: seq<int>, k: nat)
    requires 0 < k <= |ts|
    ensures StateAt(l, ts, k).Some? && 0 <= StateAt(l, ts, k).value.tokens <= l.Full()
  {
    if k > 1 {
      TokensInRange(l, ts, k - 1);
      RefillAdds(l, StateAt(l, ts, k - 1).value, ts[k - 1]);
    }
  }

  lemma RefillAdds(l: Limits, b: Bucket, now: int)
    ensures Refilled(l, Some(b), now) >= Min(l.Full(), b.tokens)
  {
    MulLe(l.refill, 0, Elapsed(b.ts, now));
  }

  /** Every decision, exactly: a check is allowed if and only if admitting it overdraws no window. */
  lemma {:induction false} DecisionExact(l: Limits, ts: seq<int>, k: nat)
    requires k < |ts|
    ensures AllowedAt(l, ts, k) <==>
            forall i: nat :: i <= k ==> UNIT <= Room(l, ts, Decisions(l, ts), i, k)
  {
    ScriptFollowsLevel(l, ts, Decisions(l, ts), k);
    LevelIsTightestWindow(l, ts, Decisions(l, ts), k);
  }

  /**
   Closed form of the reported balance: the least, over all windows that end with this check,
   of the window's budget less what was admitted in it.
   */
  lemma {:induction false} RemainingClosedForm(l: Limits, ts: seq<int>, k: nat)
    requires k < |ts|
    ensures forall i: nat :: i <= k ==> ReplyAt(l, ts, k).remaining <= Balance(l, ts, i, k)
    ensures exists i: nat :: i <= k && ReplyAt(l, ts, k).remaining == Balance(l, ts, i, k)
  {
    var d := Decisions(l, ts);
    ScriptFollowsLevel(l, ts, d, k);
    LevelIsTightestWindow(l, ts, d, k);
    forall i: nat | i <= k ensures Balance(l, ts, i, k) == Room(l, ts, d, i, k) - Charge(d[k]) {
    }
  }

  function Balance(l: Limits, ts: seq<int>, i: nat, k: nat): int
    requires i <= k < |ts|
  {
    Budget(l, Forward(ts, i, k)) - UNIT * Count(Decisions(l, ts), i, k + 1)
  }

  /** Rate envelope, for any clock: no window admits more than a full bucket plus its refill. */
  lemma {:induction false} Envelope(l: Limits, ts: seq<int>, i: nat, k: nat)
    requires i <= k < |ts|
    ensures UNIT * Count(Decisions(l, ts), i, k + 1) <= Budget(l, Forward(ts, i, k))
  {
    var d := Decisions(l, ts);
    ScriptFollowsLevel(l, ts, d, k);
    LevelIsTightestWindow(l, ts, d, k);
    TokensInRange(l, ts, k + 1);
    assert Room(l, ts, d, i, k) - Charge(d[k]) == Budget(l, Forward(ts, i, k)) - UNIT * Count(d, i, k + 1);
  }

  lemma {:induction false} DecisionsConform(l: Limits, ts: seq<int>)
    ensures Conforms(l, ts, Decisions(l, ts))
  {
    var d := Decisions(l, ts);
    forall i: nat, k: nat | i <= k < |ts| && d[k]
      ensures UNIT <= Room(l, ts, d, i, k)
    {
      DecisionExact(l, ts, k);
    }
  }

  /** No conforming way to decide the same checks admits more of them, up to any point. */
  lemma {:induction false} Maximal(l: Limits, ts: seq<int>, d: seq<bool>, k: nat)
    requires k < |ts| == |d|
    requires Conforms(l, ts, d)
    ensures Count(d, 0, k) <= Count(Decisions(l, ts), 0, k)
    ensures Count(d, 0, k + 1) <= Count(Decisions(l, ts), 0, k + 1)
    ensures Level(l, ts, d, k) - Level(l, ts, Decisions(l, ts), k)
            <= UNIT * (Count(Decisions(l, ts), 0, k) - Count(d, 0, k))
  {
    var g := Decisions(l, ts);
    if k > 0 {
      Maximal(l, ts, d, k - 1);
      LevelIsTightestWindow(l, ts, d, k - 1);
      ScriptFollowsLevel(l, ts, g, k - 1);
    }
    LevelIsTightestWindow(l, ts, d, k);
    ScriptFollowsLevel(l, ts, g, k);
  }

  /** Every window could hold all of its checks. */
  ghost predicate WindowsHoldAll(l: Limits, ts: seq<int>) {
    forall i: nat, k: nat :: i <= k < |ts| ==> WindowHolds(l, ts, i, k)
  }

  predicate WindowHolds(l: Limits, ts: seq<int>, i: nat, k: nat)
    requires i <= k < |ts|
  {
    UNIT * (k - i + 1) <= Budget(l, Forward(ts, i, k))
  }

  ghost predicate AdmittedInFull(l: Limits, ts: seq<int>) {
    forall k :: 0 <= k < |ts| ==> AllowedAt(l, ts, k)
  }

  /** A whole run is admitted if and only if admitting all of it overdraws no window. */
  lemma {:induction false} ConformanceIffAdmittedInFull(l: Limits, ts: seq<int>)
    ensures AdmittedInFull(l, ts) <==> WindowsHoldAll(l, ts)
  {
    if AdmittedInFull(l, ts) {
      forall i: nat, k: nat | i <= k < |ts|
        ensures WindowHolds(l, ts, i, k)
      {
        Envelope(l, ts, i, k);
        CountAll(Decisions(l, ts), i, k + 1);
      }
    }
    if WindowsHoldAll(l, ts) {
      AllConforming(l, ts, |ts|);
    }
  }

  lemma {:induction false} AllConforming(l: Limits, ts: seq<int>, n: nat)
    requires n <= |ts|
    requires WindowsHoldAll(l, ts)
    ensures forall k :: 0 <= k < n ==> ReplyAt(l, ts, k).allowed
  {
    if n > 0 {
      AllConforming(l, ts, n - 1);
      var k := n - 1;
      DecisionExact(l, ts, k);
      forall i: nat | i <= k ensures UNIT <= Room(l, ts, Decisions(l, ts), i, k) {
        CountAll(Decisions(l, ts), i, k);
        assert WindowHolds(l, ts, i, k);
      }
    }
  }

  lemma CountAll(d: seq<bool>, i: nat, k: nat)
    requires i <= k <= |d|
    requires forall j :: i <= j < k ==> d[j]
    ensures Count(d, i, k) == k - i
  {
  }

  /******* What the clock may do *******/

  predicate Nondecreasing(ts: seq<int>) {
    forall i, j :: 0 <= i <= j < |ts| ==> ts[i] <= ts[j]
  }

  /** Number of checks in i+1, ..., k whose timestamp is older than the one before. */
  function Regressions(ts: seq<int>, i: nat, k: nat): nat
    requires i <= k < |ts|
  {
    if i == k then 0 else Regressions(ts, i, k - 1) + if ts[k] < ts[k - 1] then 1 else 0
  }

  /** Forward motion is the net motion plus what the regressions took back. */
  lemma {:induction false} ForwardBound(ts: seq<int>, i: nat, k: nat, d: nat)
    requires i <= k < |ts|
    requires forall j :: i < j <= k ==> ts[j - 1] - d <= ts[j]
    ensures ts[k] - ts[i] <= Forward(ts, i, k) <= ts[k] - ts[i] + d * Regressions(ts, i, k)
    ensures Regressions(ts, i, k) == 0 ==> Forward(ts, i, k) == ts[k] - ts[i]
  {
    if i < k {
      ForwardBound(ts, i, k - 1, d);
      var b := Regressions(ts, i, k - 1);
      assert d * (b + 1) == d * b + d;
    }
  }

  /** Every time the clock goes back by at most d, a window gains at most d ms of refill. */
  lemma {:induction false} EnvelopeWithRegressions(l: Limits, ts: seq<int>, i: nat, k: nat, d: nat)
    requires i <= k < |ts|
    requires forall j :: i < j <= k ==> ts[j - 1] - d <= ts[j]
    ensures UNIT * Count(Decisions(l, ts), i, k + 1) <= Budget(l, ts[k] - ts[i] + d * Regressions(ts, i, k))
  {
    Envelope(l, ts, i, k);
    ForwardBound(ts, i, k, d);
    MulLe(l.refill, Forward(ts, i, k), ts[k] - ts[i] + d * Regressions(ts, i, k));
  }

  lemma NoRegressions(ts: seq<int>, i: nat, k: nat)
    requires i <= k < |ts|
    requires Nondecreasing(ts)
    ensures Regressions(ts, i, k) == 0
  {
  }

  lemma {:induction false} MonotoneForward(ts: seq<int>, i: nat, k: nat)
    requires i <= k < |ts|
    requires Nondecreasing(ts)
    ensures Forward(ts, i, k) == ts[k] - ts[i]
  {
    NoRegressions(ts, i, k);
    ForwardBound(ts, i, k, 0);
  }

  /** The textbook window bound, for clocks that never go back. */
  lemma {:induction false} MonotoneEnvelope(l: Limits, ts: seq<int>, i: nat, k: nat)
    requires i <= k < |ts|
    requires Nondecreasing(ts)
    ensures UNIT * Count(Decisions(l, ts), i, k + 1) <= Budget(l, ts[k] - ts[i])
  {
    MonotoneForward(ts, i, k);
    Envelope(l, ts, i, k);
  }

  /** Every window, measured on the clock itself, could hold all of its checks. */
  ghost predicate TimedWindowsHoldAll(l: Limits, ts: seq<int>) {
    forall i: nat, k: nat :: i <= k < |ts| ==> TimedWindowHolds(l, ts, i, k)
  }

  predicate TimedWindowHolds(l: Limits, ts: seq<int>, i: nat, k: nat)
    requires i <= k < |ts|
  {
    UNIT * (k - i + 1) <= Budget(l, ts[k] - ts[i])
  }

  lemma {:induction false} WindowsAgree(l: Limits, ts: seq<int>)
    requires Nondecreasing(ts)
    ensures WindowsHoldAll(l, ts) <==> TimedWindowsHoldAll(l, ts)
  {
    forall i: nat, k: nat | i <= k < |ts|
      ensures WindowHolds(l, ts, i, k) == TimedWindowHolds(l, ts, i, k)
    {
      MonotoneForward(ts, i, k);
    }
  }

  /** The textbook conformance test, for clocks that never go back. */
  lemma {:induction false} MonotoneConformance(l: Limits, ts: seq<int>)
    requires Nondecreasing(ts)
    ensures AdmittedInFull(l, ts) <==> TimedWindowsHoldAll(l, ts)
  {
    WindowsAgree(l, ts);
    ConformanceIffAdmittedInFull(l, ts);
  }

  /**
   Each request samples its timestamp and reaches Redis at most `delay` ms later, so
   requests may overtake each other. The window is then measured on the instants at
   which Redis ran the script, and every overtaking costs at most `delay` ms of refill.
   */
  lemma {:induction false} SampledThenEvaluated(
      l: Limits, ts: seq<int>, evaluated: seq<int>, delay: nat, i: nat, k: nat)
    requires i <= k < |ts| == |evaluated|
    requires Nondecreasing(evaluated)
    requires forall j :: 0 <= j < |ts| ==> evaluated[j] - delay <= ts[j] <= evaluated[j]
    ensures UNIT * Count(Decisions(l, ts), i, k + 1) <=
            Budget(l, evaluated[k] - evaluated[i] + delay * (Regressions(ts, i, k) + 1))
  {
    Envelope(l, ts, i, k);
    ForwardBound(ts, i, k, delay);
    OvertakingBound(l, Forward(ts, i, k), ts[k] - ts[i], evaluated[k] - evaluated[i], delay, Regressions(ts, i, k));
  }

  lemma OvertakingBound(l: Limits, forward: int, net: int, window: int, delay: nat, b: nat)
    requires forward <= net + delay * b && net <= window + delay
    ensures Budget(l, forward) <= Budget(l, window + delay * (b + 1))
  {
    assert delay * (b + 1) == delay * b + delay;
    MulLe(l.refill, forward, window + delay * (b + 1));
  }

  /** With the clock frozen, n concurrent checks admit exactly min(n, capacity), in any order. */
  lemma {:induction false} FrozenClockAdmitsCapacity(l: Limits, ts: seq<int>, n: nat)
    requires n <= |ts|
    requires forall k :: 0 <= k < |ts| ==> ts[k] == ts[0]
    ensures Count(Decisions(l, ts), 0, n) == Min(n, l.capacity)
  {
    if n > 0 {
      FrozenClockAdmitsCapacity(l, ts, n - 1);
      FrozenDecision(l, ts, n - 1);
    }
  }

  lemma {:induction false} FrozenDecision(l: Limits, ts: seq<int>, k: nat)
    requires k < |ts|
    requires forall k :: 0 <= k < |ts| ==> ts[k] == ts[0]
    ensures AllowedAt(l, ts, k) <==> Count(Decisions(l, ts), 0, k) < l.capacity
  {
    var d := Decisions(l, ts);
    DecisionExact(l, ts, k);
    FrozenRoom(l, ts, d, 0, k);
    forall i: nat | i <= k
      ensures Room(l, ts, d, 0, k) <= Room(l, ts, d, i, k)
    {
      FrozenRoom(l, ts, d, i, k);
      CountSplit(d, i, k);
    }
  }

  lemma {:induction false} FrozenRoom(l: Limits, ts: seq<int>, d: seq<bool>, i: nat, k: nat)
    requires i <= k < |ts| == |d|
    requires forall k :: 0 <= k < |ts| ==> ts[k] == ts[0]
    ensures Room(l, ts, d, i, k) == UNIT * (l.capacity - Count(d, i, k))
  {
    MonotoneForward(ts, i, k);
  }

  lemma CountSplit(d: seq<bool>, i: nat, k: nat)
    requires i <= k <= |d|
    ensures Count(d, 0, k) == Count(d, 0, i) + Count(d, i, k)
  {
  }
}
