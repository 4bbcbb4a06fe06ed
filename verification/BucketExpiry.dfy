/**
 Idle buckets are dropped by Redis after a TTL and read back as full; Redis may also lose one at
 any time. Requests carry the application's clock; the TTL runs on Redis's clock. This module
 says when dropping a bucket is invisible, and what it can cost when it is not.
 */
module BucketExpiry {
  import opened Common
  import opened TokenBucket

  /**
   One check: the sampled application time, the Redis time at which the script ran, and whether
   Redis lost the bucket, other than by its TTL, since the check before.
   */
  datatype Arrival = Arrival(now: int, clock: int, evicted: bool)

  function Times(arr: seq<Arrival>): (ts: seq<int>)
    ensures |ts| == |arr|
    ensures forall k :: 0 <= k < |arr| ==> ts[k] == arr[k].now
  {
    seq(|arr|, k requires 0 <= k < |arr| => arr[k].now)
  }

  /** Whether the bucket written by check k - 1 is gone when check k runs. */
  predicate DroppedAt(l: Limits, arr: seq<Arrival>, k: nat)
    requires 0 < k < |arr|
  {
    arr[k].evicted || arr[k - 1].clock + TtlMs(l) < arr[k].clock
  }

  /** What check k writes. */
  function Written(l: Limits, arr: seq<Arrival>, k: nat): Bucket
    requires k < |arr|
    decreases k, 1
  {
    NextBucket(l, Seen(l, arr, k), arr[k].now)
  }

  /** What check k reads. */
  function Seen(l: Limits, arr: seq<Arrival>, k: nat): Option<Bucket>
    requires k < |arr|
    decreases k, 0
  {
    if k == 0 || DroppedAt(l, arr, k) then None else Some(Written(l, arr, k - 1))
  }

  function DroppingReply(l: Limits, arr: seq<Arrival>, k: nat): Reply
    requires k < |arr|
  {
    Answer(l, Seen(l, arr, k), arr[k].now)
  }

  /******* What dropping can cost *******/

  /** Which checks of the run are allowed. */
  function Given(l: Limits, arr: seq<Arrival>): (d: seq<bool>)
    ensures |d| == |arr|
    ensures forall k :: 0 <= k < |arr| ==> d[k] == DroppingReply(l, arr, k).allowed
  {
    seq(|arr|, k requires 0 <= k < |arr| => DroppingReply(l, arr, k).allowed)
  }

  /** The debt forgiven at check k: what a dropped bucket was short of full by the application's clock. */
  function DebtAt(l: Limits, arr: seq<Arrival>, k: nat): int
    requires 0 < k < |arr|
  {
    if DroppedAt(l, arr, k) then l.Full() - Refilled(l, Some(Written(l, arr, k - 1)), arr[k].now) else 0
  }

  /** The debt forgiven after check i, up to check k. */
  function Forgiven(l: Limits, arr: seq<Arrival>, i: nat, k: nat): int
    requires i <= k < |arr|
  {
    if i == k then 0 else Forgiven(l, arr, i, k - 1) + DebtAt(l, arr, k)
  }

  /** How often the bucket was dropped after check i, up to check k. */
  function Drops(l: Limits, arr: seq<Arrival>, i: nat, k: nat): nat
    requires i <= k < |arr|
  {
    if i == k then 0 else Drops(l, arr, i, k - 1) + if DroppedAt(l, arr, k) then 1 else 0
  }

  /** What the window from check i leaves for check k: its budget and its forgiven debt, less its admissions. */
  function RoomWithDrops(l: Limits, arr: seq<Arrival>, i: nat, k: nat): int
    requires i <= k < |arr|
  {
    Budget(l, Forward(Times(arr), i, k)) + Forgiven(l, arr, i, k) - UNIT * Count(Given(l, arr), i, k)
  }

  lemma RoomWithDropsStep(l: Limits, arr: seq<Arrival>, i: nat, k: nat)
    requires i < k < |arr|
    ensures RoomWithDrops(l, arr, i, k) ==
            RoomWithDrops(l, arr, i, k - 1) - Charge(Given(l, arr)[k - 1])
            + l.refill * Elapsed(arr[k - 1].now, arr[k].now) + DebtAt(l, arr, k)
  {
    var f, e := Forward(Times(arr), i, k - 1), Elapsed(arr[k - 1].now, arr[k].now);
    assert l.refill * (f + e) == l.refill * f + l.refill * e;
  }

  /** The level of a bucket that is dropped now and then is still the least room left by any window. */
  lemma {:induction false} DroppingLevelIsTightestWindow(l: Limits, arr: seq<Arrival>, k: nat)
    requires k < |arr|
    ensures forall i: nat :: i <= k ==> Refilled(l, Seen(l, arr, k), arr[k].now) <= RoomWithDrops(l, arr, i, k)
    ensures exists i: nat :: i <= k && Refilled(l, Seen(l, arr, k), arr[k].now) == RoomWithDrops(l, arr, i, k)
  {
    var level := Refilled(l, Seen(l, arr, k), arr[k].now);
    assert RoomWithDrops(l, arr, k, k) == l.Full();
    if k > 0 {
      DroppingLevelIsTightestWindow(l, arr, k - 1);
      var before, e := Refilled(l, Seen(l, arr, k - 1), arr[k - 1].now), Elapsed(arr[k - 1].now, arr[k].now);
      var grown := before - Charge(Given(l, arr)[k - 1]) + l.refill * e;
      assert Refilled(l, Some(Written(l, arr, k - 1)), arr[k].now) == Min(l.Full(), grown);
      assert level == Min(l.Full(), grown) + DebtAt(l, arr, k);
      forall i: nat | i < k
        ensures RoomWithDrops(l, arr, i, k) == RoomWithDrops(l, arr, i, k - 1) - before + grown + DebtAt(l, arr, k)
      {
        RoomWithDropsStep(l, arr, i, k);
      }
      var w: nat :| w <= k - 1 && before == RoomWithDrops(l, arr, w, k - 1);
      assert level == RoomWithDrops(l, arr, w, k) || level == RoomWithDrops(l, arr, k, k);
    }
  }

  lemma {:induction false} WrittenInRange(l: Limits, arr: seq<Arrival>, k: nat)
    requires k < |arr|
    ensures 0 <= Written(l, arr, k).tokens <= l.Full()
  {
    MulLe(UNIT, 1, l.capacity);
    if k > 0 {
      WrittenInRange(l, arr, k - 1);
      RefillAdds(l, Written(l, arr, k - 1), arr[k].now);
    }
  }

  lemma DebtWithinFull(l: Limits, arr: seq<Arrival>, k: nat)
    requires 0 < k < |arr|
    ensures 0 <= DebtAt(l, arr, k) <= if DroppedAt(l, arr, k) then l.Full() else 0
  {
    WrittenInRange(l, arr, k - 1);
    RefillAdds(l, Written(l, arr, k - 1), arr[k].now);
  }

  lemma {:induction false} ForgivenWithinDrops(l: Limits, arr: seq<Arrival>, i: nat, k: nat)
    requires i <= k < |arr|
    ensures 0 <= Forgiven(l, arr, i, k) <= l.Full() * Drops(l, arr, i, k)
  {
    hide DebtAt, DroppedAt;
    if i < k {
      ForgivenWithinDrops(l, arr, i, k - 1);
      DebtWithinFull(l, arr, k);
      MulAdds(l.Full(), Drops(l, arr, i, k - 1), 1);
    }
  }

  /**
   Rate envelope of a bucket that may be dropped at any check, whatever either clock does: no
   window admits more than a full bucket, plus its refill, plus the debt forgiven in it, which is
   at most one full bucket for each time the bucket was dropped.
   */
  lemma {:induction false} DroppingEnvelope(l: Limits, arr: seq<Arrival>, i: nat, k: nat)
    requires i <= k < |arr|
    ensures UNIT * Count(Given(l, arr), i, k + 1) <= Budget(l, Forward(Times(arr), i, k)) + Forgiven(l, arr, i, k)
    ensures 0 <= Forgiven(l, arr, i, k) <= l.Full() * Drops(l, arr, i, k)
  {
    hide Written, Seen, Refilled, Forgiven, Drops, Budget, Forward;
    DroppingLevelIsTightestWindow(l, arr, k);
    WrittenIsCharged(l, arr, k);
    WrittenInRange(l, arr, k);
    ForgivenWithinDrops(l, arr, i, k);
    assert Charge(Given(l, arr)[k]) <= RoomWithDrops(l, arr, i, k);
  }

  lemma WrittenIsCharged(l: Limits, arr: seq<Arrival>, k: nat)
    requires k < |arr|
    ensures Written(l, arr, k).tokens == Refilled(l, Seen(l, arr, k), arr[k].now) - Charge(Given(l, arr)[k])
  {
  }

  /******* When dropping is invisible *******/

  /** A bucket that was dropped would have been full again by the application's clock. */
  predicate DroppedFull(l: Limits, arr: seq<Arrival>, k: nat)
    requires k < |arr|
  {
    0 < k && DroppedAt(l, arr, k) ==> Refilled(l, StateAt(l, Times(arr), k), arr[k].now) == l.Full()
  }

  /** The run up to check k is the run of a store that never drops a bucket. */
  ghost predicate Faithful(l: Limits, arr: seq<Arrival>, n: nat)
    requires n <= |arr|
  {
    forall k: nat :: k < n ==> DroppingReply(l, arr, k) == ReplyAt(l, Times(arr), k)
  }

  lemma {:induction false} FaithfulWhileDroppedFull(l: Limits, arr: seq<Arrival>, n: nat)
    requires n < |arr|
    requires forall k: nat :: k <= n ==> DroppedFull(l, arr, k)
    ensures Refilled(l, Seen(l, arr, n), arr[n].now) == Refilled(l, StateAt(l, Times(arr), n), arr[n].now)
    ensures Some(Written(l, arr, n)) == StateAt(l, Times(arr), n + 1)
    ensures DroppingReply(l, arr, n) == ReplyAt(l, Times(arr), n)
  {
    if n > 0 {
      FaithfulWhileDroppedFull(l, arr, n - 1);
    }
    assert DroppedFull(l, arr, n);
  }

  /**
   Dropping buckets, by their TTL or otherwise, changes no reply of the run if and only if every
   bucket that was dropped would have been full again by the application's clock.
   */
  lemma {:induction false} ExpiryLosesNoStateIff(l: Limits, arr: seq<Arrival>)
    ensures Faithful(l, arr, |arr|) <==> forall k: nat :: k < |arr| ==> DroppedFull(l, arr, k)
  {
    if forall k: nat :: k < |arr| ==> DroppedFull(l, arr, k) {
      forall k: nat | k < |arr| ensures DroppingReply(l, arr, k) == ReplyAt(l, Times(arr), k) {
        FaithfulWhileDroppedFull(l, arr, k);
      }
    }
    if Faithful(l, arr, |arr|) {
      forall k: nat | k < |arr| ensures DroppedFull(l, arr, k) {
        assert DroppingReply(l, arr, k) == ReplyAt(l, Times(arr), k);
        SameAnswerIff(l, Seen(l, arr, k), StateAt(l, Times(arr), k), arr[k].now);
      }
    }
  }

  /** Between consecutive checks the application's clock lags Redis's by at most d ms. */
  predicate DriftWithin(arr: seq<Arrival>, d: int) {
    forall k :: 0 < k < |arr| ==> arr[k].clock - arr[k - 1].clock - d <= arr[k].now - arr[k - 1].now
  }

  predicate NoneEvicted(arr: seq<Arrival>) {
    forall k :: 0 <= k < |arr| ==> !arr[k].evicted
  }

  /** The spare second of the TTL, and the millisecond up to which a key is still readable. */
  const TOLERATED_DRIFT := 1001

  /** Only the TTL drops the bucket, and the clocks keep step closely enough. */
  predicate ClocksAgree(arr: seq<Arrival>) {
    NoneEvicted(arr) && DriftWithin(arr, TOLERATED_DRIFT)
  }

  /** A bucket that expires between clocks that agree is full again, so nothing is forgiven. */
  lemma ExpiredIsFull(l: Limits, arr: seq<Arrival>, k: nat, b: Bucket)
    requires ClocksAgree(arr) && 0 < k < |arr| && DroppedAt(l, arr, k)
    requires 0 <= b.tokens && b.ts == arr[k - 1].now
    ensures Refilled(l, Some(b), arr[k].now) == l.Full()
  {
    FullAfterTtl(l, b, arr[k].now);
  }

  lemma FullAfterTtl(l: Limits, b: Bucket, now: int)
    requires 0 <= b.tokens && TtlMs(l) - 1000 <= now - b.ts
    ensures Refilled(l, Some(b), now) == l.Full()
  {
    TtlIsFillTime(l, now - b.ts);
    CeilDivLeast(l.Full(), l.refill, 0);
    MulLe(UNIT, 1, l.capacity);
  }

  /** The TTL is the least time that fills an empty bucket, plus one second. */
  lemma TtlIsFillTime(l: Limits, ms: int)
    ensures l.Full() <= l.refill * ms <==> TtlMs(l) - 1000 <= ms
  {
    CeilDivLeast(l.Full(), l.refill, ms);
  }

  lemma {:induction false} AgreeingClocksForgiveNothing(l: Limits, arr: seq<Arrival>, i: nat, k: nat)
    requires i <= k < |arr| && ClocksAgree(arr)
    ensures Forgiven(l, arr, i, k) == 0
  {
    if i < k {
      AgreeingClocksForgiveNothing(l, arr, i, k - 1);
      if DroppedAt(l, arr, k) {
        WrittenInRange(l, arr, k - 1);
        ExpiredIsFull(l, arr, k, Written(l, arr, k - 1));
      }
    }
  }

  /** With clocks that agree, expiry loses no state. */
  lemma {:induction false} ExpiryLosesNoState(l: Limits, arr: seq<Arrival>)
    requires ClocksAgree(arr)
    ensures Faithful(l, arr, |arr|)
  {
    var ts := Times(arr);
    forall k: nat | k < |arr| ensures DroppedFull(l, arr, k) {
      if 0 < k && DroppedAt(l, arr, k) {
        TokensInRange(l, ts, k);
        ExpiredIsFull(l, arr, k, StateAt(l, ts, k).value);
      }
    }
    ExpiryLosesNoStateIff(l, arr);
  }

  /** For all limits, a drift of at most d ms between consecutive checks never lets expiry lose state. */
  ghost predicate Tolerated(d: int) {
    forall l: Limits, arr: seq<Arrival> :: NoneEvicted(arr) && DriftWithin(arr, d) ==> Faithful(l, arr, |arr|)
  }

  /** The drift that expiry tolerates is exactly the TTL's spare second and the readable deadline. */
  lemma ToleratedIff(d: int)
    ensures Tolerated(d) <==> d <= TOLERATED_DRIFT
  {
    if d <= TOLERATED_DRIFT {
      forall l: Limits, arr: seq<Arrival> | NoneEvicted(arr) && DriftWithin(arr, d)
        ensures Faithful(l, arr, |arr|)
      {
        ExpiryLosesNoState(l, arr);
      }
    } else {
      OneMoreMillisecond();
      assert DriftWithin([Arrival(0, 0, false), Arrival(999, 2001, false)], d);
    }
  }

  /** With a drift of 1002 ms a drained bucket expires one millisecond before it would have been full. */
  lemma OneMoreMillisecond()
    ensures var l, arr := RawLimits(1, 60), [Arrival(0, 0, false), Arrival(999, 2001, false)];
      !Faithful(l, arr, |arr|)
  {
    var l: Limits, arr := RawLimits(1, 60), [Arrival(0, 0, false), Arrival(999, 2001, false)];
    OneTokenRun(l, arr);
    assert DroppingReply(l, arr, 1).allowed && !ReplyAt(l, Times(arr), 1).allowed;
  }

  /** Two checks on a bucket of one token that refills in a second and is dropped in between. */
  lemma OneTokenRun(l: Limits, arr: seq<Arrival>)
    requires l == RawLimits(1, 60) && |arr| == 2
    requires arr[0].now <= arr[1].now < arr[0].now + 1000
    requires arr[1].evicted || arr[0].clock + 2000 < arr[1].clock
    ensures DroppingReply(l, arr, 0).allowed && DroppingReply(l, arr, 1).allowed
    ensures !ReplyAt(l, Times(arr), 1).allowed
  {
    var b := Bucket(0, arr[0].now);
    assert l.Full() == UNIT && TtlMs(l) == 2000;
    assert StateAt(l, Times(arr), 1) == Some(b);
    assert Refilled(l, Some(b), arr[1].now) == 60 * (arr[1].now - arr[0].now) < UNIT;
  }

  /**
   When the application's clock stands still while Redis's runs on, a drained bucket is
   dropped and comes back full: the same instant admits a second full burst.
   */
  lemma StoppedClockForgetsDebt()
    ensures var l, arr := RawLimits(1, 60), [Arrival(5, 0, false), Arrival(5, 3000, false)];
      && !Faithful(l, arr, 2)
      && DroppingReply(l, arr, 0).allowed && DroppingReply(l, arr, 1).allowed
      && !ReplyAt(l, Times(arr), 1).allowed
  {
    var l: Limits, arr := RawLimits(1, 60), [Arrival(5, 0, false), Arrival(5, 3000, false)];
    OneTokenRun(l, arr);
  }
}
