/** What a rejection promises: the wait it quotes, and that it leaves no trace. */
module RetryAfter {
  import opened Common
  import opened TokenBucket

  /******* The quoted wait *******/

  /** max(1, math.ceil(ms / 1000.0)), the whole seconds put in the header. */
  function HeaderSeconds(ms: int): int {
    Max(1, Ceil((Max(ms, 0) as real) / 1000.0))
  }

  lemma {:induction false} WaitIsExact(l: Limits, b: Bucket, now: int)
    requires 0 <= b.tokens < UNIT
    ensures Admits(l, Some(b), now) <==> CeilDiv(UNIT - b.tokens, l.refill) <= now - b.ts
  {
    var e := Elapsed(b.ts, now);
    CeilDivLeast(UNIT - b.tokens, l.refill, e);
    CeilDivLeast(UNIT - b.tokens, l.refill, 0);
    MulLe(l.refill, 0, e);
    FullHoldsOne(l);
  }

  lemma FullHoldsOne(l: Limits)
    ensures UNIT <= l.Full()
  {
    MulLe(UNIT, 1, l.capacity);
  }

  /** After a rejection the bucket holds less than a request, stamped with that check. */
  lemma RejectionLeaves(l: Limits, st: Option<Bucket>, now: int)
    requires st.Some? ==> 0 <= st.value.tokens
    requires !Admits(l, st, now)
    ensures var b, r := NextBucket(l, st, now), Answer(l, st, now);
      0 <= b.tokens < UNIT && b.ts == now && r.retryAfterMs == CeilDiv(UNIT - b.tokens, l.refill)
  {
    FullHoldsOne(l);
    if st.Some? {
      MulLe(l.refill, 0, Elapsed(st.value.ts, now));
    }
  }

  /** The states a bucket passes through when checks at us follow on state st. */
  function Follow(l: Limits, st: Option<Bucket>, us: seq<int>, k: nat): Option<Bucket>
    requires k <= |us|
  {
    if k == 0 then st else Some(NextBucket(l, Follow(l, st, us, k - 1), us[k - 1]))
  }

  function FollowReply(l: Limits, st: Option<Bucket>, us: seq<int>, k: nat): Reply
    requires k < |us|
  {
    Answer(l, Follow(l, st, us, k), us[k])
  }

  /**
   Retry-After is exact. After a rejection at `now` that quotes a wait, further checks on a
   clock that does not go back are all rejected before now + wait, and the first one at or
   after now + wait is allowed. The wait is at least 1 ms and never exceeds the bucket's TTL.
   */
  lemma {:induction false} RetryAfterExact(l: Limits, st: Option<Bucket>, now: int, us: seq<int>, k: nat)
    requires st.Some? ==> 0 <= st.value.tokens
    requires !Admits(l, st, now)
    requires k < |us|
    requires Nondecreasing([now] + us)
    requires var wait := Answer(l, st, now).retryAfterMs;
      forall j :: 0 <= j < k ==> us[j] < now + wait
    ensures var b, r := NextBucket(l, st, now), Answer(l, st, now);
      && (FollowReply(l, Some(b), us, k).allowed <==> now + r.retryAfterMs <= us[k])
      && 1 <= r.retryAfterMs <= TtlMs(l)
  {
    var b, r := NextBucket(l, st, now), Answer(l, st, now);
    RejectionLeaves(l, st, now);
    WaitWithinTtl(l, b.tokens);
    MonotoneSuffix(now, us);
    DrainedUntil(l, b, us, k);
    var c := Follow(l, Some(b), us, k).value;
    var last := if k == 0 then b.ts else us[k - 1];
    SettledRefill(l, b, c, us[k]);
    WaitIsExact(l, b, us[k]);
  }

  lemma MonotoneSuffix(now: int, us: seq<int>)
    requires Nondecreasing([now] + us)
    ensures Nondecreasing(us)
    ensures forall i :: 0 <= i < |us| ==> now <= us[i]
  {
    var all := [now] + us;
    forall i, j | 0 <= i <= j < |us| ensures us[i] <= us[j] {
      assert all[i + 1] <= all[j + 1];
    }
    forall i | 0 <= i < |us| ensures now <= us[i] {
      assert all[0] <= all[i + 1];
    }
  }

  lemma WaitWithinTtl(l: Limits, tokens: int)
    requires 0 <= tokens < UNIT
    ensures 1 <= CeilDiv(UNIT - tokens, l.refill) <= TtlMs(l)
  {
    FullHoldsOne(l);
    CeilDivLeast(UNIT - tokens, l.refill, 0);
    CeilDivLeast(l.Full(), l.refill, CeilDiv(l.Full(), l.refill));
    CeilDivLeast(UNIT - tokens, l.refill, CeilDiv(l.Full(), l.refill));
  }

  /** c is what b became after rejected checks up to time c.ts: the same refill, brought forward. */
  predicate Settled(l: Limits, b: Bucket, c: Bucket) {
    b.ts <= c.ts && c.tokens == Min(l.Full(), b.tokens + l.refill * (c.ts - b.ts))
  }

  /** Clamped refill is additive: refilling in two steps is refilling in one. */
  lemma SettledRefill(l: Limits, b: Bucket, c: Bucket, now: int)
    requires Settled(l, b, c) && c.ts <= now
    ensures Refilled(l, Some(c), now) == Refilled(l, Some(b), now)
  {
    MulAdds(l.refill, c.ts - b.ts, now - c.ts);
    MulLe(l.refill, 0, now - c.ts);
  }

  lemma {:induction false} DrainedUntil(l: Limits, b: Bucket, us: seq<int>, k: nat)
    requires 0 <= b.tokens < UNIT && k <= |us|
    requires Nondecreasing(us) && forall i :: 0 <= i < |us| ==> b.ts <= us[i]
    requires forall j :: 0 <= j < k ==> us[j] < b.ts + CeilDiv(UNIT - b.tokens, l.refill)
    ensures Follow(l, Some(b), us, k).Some?
    ensures Settled(l, b, Follow(l, Some(b), us, k).value)
    ensures k < |us| ==> Follow(l, Some(b), us, k).value.ts <= us[k]
  {
    FullHoldsOne(l);
    if k > 0 {
      DrainedUntil(l, b, us, k - 1);
      var c := Follow(l, Some(b), us, k - 1).value;
      SettledRefill(l, b, c, us[k - 1]);
      WaitIsExact(l, b, us[k - 1]);
    }
  }

  /**
   Even when the clock may go back, a check at or after now + wait is allowed, as long as
   nothing was admitted in between: going back only ever adds refill.
   */
  lemma {:induction false} NeverLate(l: Limits, st: Option<Bucket>, now: int, us: seq<int>, k: nat)
    requires st.Some? ==> 0 <= st.value.tokens
    requires !Admits(l, st, now)
    requires k < |us|
    requires var b := NextBucket(l, st, now);
      forall j: nat :: j < k ==> !FollowReply(l, Some(b), us, j).allowed
    requires now + Answer(l, st, now).retryAfterMs <= us[k]
    ensures FollowReply(l, Some(NextBucket(l, st, now)), us, k).allowed
  {
    var b := NextBucket(l, st, now);
    RejectionLeaves(l, st, now);
    AtLeastNet(l, b, us, k);
    var c := Follow(l, Some(b), us, k).value;
    var wait, e := CeilDiv(UNIT - b.tokens, l.refill), Elapsed(c.ts, us[k]);
    CeilDivLeast(UNIT - b.tokens, l.refill, wait);
    MulLe(l.refill, wait, c.ts - b.ts + e);
    MulAdds(l.refill, c.ts - b.ts, e);
    FullHoldsOne(l);
  }

  lemma {:induction false} AtLeastNet(l: Limits, b: Bucket, us: seq<int>, k: nat)
    requires 0 <= b.tokens < UNIT && k <= |us|
    requires forall j: nat :: j < k ==> !FollowReply(l, Some(b), us, j).allowed
    ensures Follow(l, Some(b), us, k).Some?
    ensures b.tokens + l.refill * (Follow(l, Some(b), us, k).value.ts - b.ts)
            <= Follow(l, Some(b), us, k).value.tokens
  {
    if k > 0 {
      AtLeastNet(l, b, us, k - 1);
      var c, now := Follow(l, Some(b), us, k - 1).value, us[k - 1];
      var e := Elapsed(c.ts, now);
      assert !FollowReply(l, Some(b), us, k - 1).allowed;
      FullHoldsOne(l);
      MulLe(l.refill, now - b.ts, c.ts - b.ts + e);
      MulAdds(l.refill, c.ts - b.ts, e);
    }
  }

  /**
   The header names the least positive whole number of seconds after which a client that
   waits that long, and nothing else is admitted meanwhile, is let through.
   */
  lemma {:induction false} HeaderLeastSeconds(l: Limits, st: Option<Bucket>, now: int, seconds: int)
    requires st.Some? ==> 0 <= st.value.tokens
    requires !Admits(l, st, now)
    requires 1 <= seconds
    ensures var b, r := NextBucket(l, st, now), Answer(l, st, now);
      Admits(l, Some(b), now + 1000 * seconds) <==> HeaderSeconds(r.retryAfterMs) <= seconds
  {
    var b, r := NextBucket(l, st, now), Answer(l, st, now);
    RejectionLeaves(l, st, now);
    WaitWithinTtl(l, b.tokens);
    WaitIsExact(l, b, now + 1000 * seconds);
    CeilIsCeilDiv(r.retryAfterMs, 1000);
    CeilDivLeast(r.retryAfterMs, 1000, seconds);
  }

  /******* Rejected checks are unobservable *******/

  /** The elements of xs whose mask bit is set. */
  function Kept<T>(xs: seq<T>, mask: seq<bool>): seq<T>
    requires |xs| == |mask|
  {
    if xs == [] then []
    else (if mask[0] then [xs[0]] else []) + Kept(xs[1..], mask[1..])
  }

  /** Every reply of the checks ts, made in this order on a bucket in state st. */
  function Replies(l: Limits, st: Option<Bucket>, ts: seq<int>): (rs: seq<Reply>)
    ensures |rs| == |ts|
    decreases |ts|
  {
    if ts == [] then []
    else
      [Answer(l, st, ts[0])] + Replies(l, Some(NextBucket(l, st, ts[0])), ts[1..])
  }

  /** The first check, then the rest. */
  lemma RepliesUnfold(l: Limits, st: Option<Bucket>, t: int, rest: seq<int>)
    ensures Replies(l, st, [t] + rest) == [Answer(l, st, t)] + Replies(l, Some(NextBucket(l, st, t)), rest)
  {
    assert ([t] + rest)[1..] == rest;
  }

  /**
   What was stored before, and g ms of forward motion since, refill a bucket at time t to the same
   level: no motion was made twice, or the bucket is full by then anyway.
   */
  predicate Unaffected(l: Limits, st: Option<Bucket>, g: nat, t: int) {
    st.None? || g == Elapsed(st.value.ts, t) || l.Full() <= st.value.tokens + l.refill * Elapsed(st.value.ts, t)
  }

  /**
   Deleting the checks whose mask bit is not set disturbs no kept one. st is what the last kept
   check stored; since then the clock has moved forward by f ms in all, to `last`.
   */
  predicate Undisturbed(l: Limits, st: Option<Bucket>, last: int, f: nat, ts: seq<int>, mask: seq<bool>)
    requires |ts| == |mask|
    decreases |ts|
  {
    ts == [] ||
    (var t, g := ts[0], f + Elapsed(last, ts[0]);
     if mask[0] then
       Unaffected(l, st, g, t) && Undisturbed(l, Some(NextBucket(l, st, t)), t, 0, ts[1..], mask[1..])
     else Undisturbed(l, st, t, g, ts[1..], mask[1..]))
  }

  /** a is what st has become by rejected checks alone: refilled for all of the forward motion f since. */
  predicate Carried(l: Limits, a: Option<Bucket>, st: Option<Bucket>, f: nat) {
    if st.None? then a.None?
    else a.Some? && a.value.tokens == st.value.tokens + l.refill * f && a.value.ts - st.value.ts <= f
  }

  predicate StandsAt(st: Option<Bucket>, last: int) {
    st.Some? ==> st.value.ts == last
  }

  lemma LevelsAgreeIff(l: Limits, a: Option<Bucket>, st: Option<Bucket>, last: int, f: nat, t: int)
    requires Carried(l, a, st, f) && StandsAt(a, last)
    ensures Refilled(l, a, t) == Refilled(l, st, t) <==> Unaffected(l, st, f + Elapsed(last, t), t)
  {
    if st.Some? {
      var b, e, g := st.value, Elapsed(last, t), Elapsed(st.value.ts, t);
      MulAdds(l.refill, f, e);
      ProductsCompare(l.refill, f, e, g);
      MinsEqualIff(l.Full(), b.tokens, l.refill * f + l.refill * e, l.refill * g);
    }
  }

  lemma RejectionCarries(l: Limits, a: Option<Bucket>, st: Option<Bucket>, last: int, f: nat, t: int)
    requires Carried(l, a, st, f) && StandsAt(a, last) && !Answer(l, a, t).allowed
    ensures Carried(l, Some(NextBucket(l, a, t)), st, f + Elapsed(last, t))
  {
    FullHoldsOne(l);
    MulAdds(l.refill, f, Elapsed(last, t));
  }

  lemma {:induction false} DeletionFromHere(
      l: Limits, a: Option<Bucket>, st: Option<Bucket>, last: int, f: nat, ts: seq<int>, mask: seq<bool>)
    requires |mask| == |ts|
    requires Carried(l, a, st, f) && StandsAt(a, last)
    requires forall k :: 0 <= k < |ts| && !mask[k] ==> !Replies(l, a, ts)[k].allowed
    ensures Kept(Replies(l, a, ts), mask) == Replies(l, st, Kept(ts, mask)) <==> Undisturbed(l, st, last, f, ts, mask)
    decreases |ts|
  {
    hide Refilled, Admits, NextBucket, Answer, Unaffected, Elapsed;
    if ts != [] {
      var t, rest, bits := ts[0], ts[1..], mask[1..];
      var a', tail := Some(NextBucket(l, a, t)), Replies(l, Some(NextBucket(l, a, t)), ts[1..]);
      assert Replies(l, a, ts) == [Answer(l, a, t)] + tail;
      assert forall k :: 0 <= k < |rest| ==> tail[k] == Replies(l, a, ts)[k + 1];
      LevelsAgreeIff(l, a, st, last, f, t);
      SameAnswerIff(l, a, st, t);
      if mask[0] {
        var st' := Some(NextBucket(l, st, t));
        KeptHead(l, a, st, ts, mask);
        if Unaffected(l, st, f + Elapsed(last, t), t) {
          NextStands(l, a, t);
          DeletionFromHere(l, a', st', t, 0, rest, bits);
        }
      } else {
        RejectionCarries(l, a, st, last, f, t);
        NextStands(l, a, t);
        DeletionFromHere(l, a', st, t, f + Elapsed(last, t), rest, bits);
        assert Kept(Replies(l, a, ts), mask) == Kept(tail, bits) && Kept(ts, mask) == Kept(rest, bits);
      }
    }
  }

  lemma NextStands(l: Limits, a: Option<Bucket>, t: int)
    ensures StandsAt(Some(NextBucket(l, a, t)), t)
    ensures Carried(l, Some(NextBucket(l, a, t)), Some(NextBucket(l, a, t)), 0)
  {
  }

  /** When the first check is kept, the replies agree if and only if its own do and those after it do. */
  lemma KeptHead(l: Limits, a: Option<Bucket>, b: Option<Bucket>, ts: seq<int>, mask: seq<bool>)
    requires |mask| == |ts| > 0 && mask[0]
    ensures var a', b' := Some(NextBucket(l, a, ts[0])), Some(NextBucket(l, b, ts[0]));
      Kept(Replies(l, a, ts), mask) == Replies(l, b, Kept(ts, mask)) <==>
      && Answer(l, a, ts[0]) == Answer(l, b, ts[0])
      && Kept(Replies(l, a', ts[1..]), mask[1..]) == Replies(l, b', Kept(ts[1..], mask[1..]))
  {
    hide Refilled, Admits, NextBucket, Answer;
    var t, rest, bits := ts[0], ts[1..], mask[1..];
    var a', b' := Some(NextBucket(l, a, t)), Some(NextBucket(l, b, t));
    var x, y := Kept(Replies(l, a', rest), bits), Replies(l, b', Kept(rest, bits));
    assert Replies(l, a, ts)[1..] == Replies(l, a', rest);
    assert Kept(Replies(l, a, ts), mask) == [Answer(l, a, t)] + x;
    RepliesUnfold(l, b, t, Kept(rest, bits));
    assert ([Answer(l, a, t)] + x)[1..] == x && ([Answer(l, b, t)] + y)[1..] == y;
  }

  /** When the stored clock of st was last set; of no consequence for an absent bucket. */
  function LastCheck(st: Option<Bucket>): int {
    if st.Some? then st.value.ts else 0
  }

  /**
   Exactly when rejected checks are unobservable, for any clock, any run and any set of them:
   deleting them changes no other check's decision, quoted wait or remaining tokens if and only if
   before every kept check the clock moved forward no more in all than it did net, or else the
   bucket was full by then anyway.
   */
  lemma {:induction false} DeletionInvisibleIff(l: Limits, st: Option<Bucket>, ts: seq<int>, mask: seq<bool>)
    requires |mask| == |ts|
    requires forall k :: 0 <= k < |ts| && !mask[k] ==> !Replies(l, st, ts)[k].allowed
    ensures Kept(Replies(l, st, ts), mask) == Replies(l, st, Kept(ts, mask)) <==>
            Undisturbed(l, st, LastCheck(st), 0, ts, mask)
  {
    DeletionFromHere(l, st, st, LastCheck(st), 0, ts, mask);
  }

  /******* On a clock that does not go back *******/

  /** Two states that no check from time `from` on can tell apart. */
  ghost predicate SameFrom(l: Limits, a: Option<Bucket>, b: Option<Bucket>, from: int) {
    forall now :: from <= now ==> Refilled(l, a, now) == Refilled(l, b, now)
  }

  /** The state is not ahead of the checks that follow. */
  predicate NotAhead(st: Option<Bucket>, ts: seq<int>) {
    st.Some? && ts != [] ==> st.value.ts <= ts[0]
  }

  /**
   In particular, on a clock that does not go back, deleting any set of rejected checks changes no
   other check's reply: not its decision, not its quoted wait, not its remaining tokens.
   */
  lemma {:induction false} RejectedUnobservable(
      l: Limits, a: Option<Bucket>, b: Option<Bucket>, ts: seq<int>, mask: seq<bool>)
    requires |mask| == |ts| && Nondecreasing(ts)
    requires NotAhead(a, ts)
    requires ts != [] ==> SameFrom(l, a, b, ts[0])
    requires forall k :: 0 <= k < |ts| && !mask[k] ==> !Replies(l, a, ts)[k].allowed
    ensures Kept(Replies(l, a, ts), mask) == Replies(l, b, Kept(ts, mask))
  {
    hide Refilled, Admits, NextBucket, Answer;
    InOrderUndisturbed(l, a, LastCheck(a), 0, ts, mask);
    DeletionInvisibleIff(l, a, ts, mask);
    if ts != [] {
      KeptAtLeast(ts, mask, ts[0]);
      var us := Kept(ts, mask);
      if us != [] {
        SameAnswerIff(l, a, b, us[0]);
      }
    }
  }

  lemma {:induction false} InOrderUndisturbed(
      l: Limits, st: Option<Bucket>, last: int, f: nat, ts: seq<int>, mask: seq<bool>)
    requires |mask| == |ts| && Nondecreasing(ts)
    requires st.Some? ==> f == last - st.value.ts && (ts != [] ==> last <= ts[0])
    ensures Undisturbed(l, st, last, f, ts, mask)
    decreases |ts|
  {
    if ts != [] {
      var t, rest, bits := ts[0], ts[1..], mask[1..];
      assert [t] + rest == ts;
      MonotoneSuffix(t, rest);
      if mask[0] {
        InOrderUndisturbed(l, Some(NextBucket(l, st, t)), t, 0, rest, bits);
      } else {
        InOrderUndisturbed(l, st, t, f + Elapsed(last, t), rest, bits);
      }
    }
  }

  lemma {:induction false} KeptAtLeast(ts: seq<int>, mask: seq<bool>, from: int)
    requires |mask| == |ts| && forall k :: 0 <= k < |ts| ==> from <= ts[k]
    ensures forall k :: 0 <= k < |Kept(ts, mask)| ==> from <= Kept(ts, mask)[k]
  {
    if ts != [] {
      KeptAtLeast(ts[1..], mask[1..], from);
    }
  }

  /******* On a clock that does go back *******/

  /**
   With an out-of-order timestamp the claim fails: a rejected check that arrives late moves
   the stored clock back, and the next check is refilled for the same interval again.
   */
  lemma LateRejectionIsObservable()
    ensures var l, st := RawLimits(1, 60), Some(Bucket(0, 1000));
      && Replies(l, st, [0, 1000]) == [Reply(false, 1000, 0), Reply(true, 0, 0)]
      && Replies(l, st, [1000]) == [Reply(false, 1000, 0)]
  {
    hide Refilled, Admits, NextBucket, Answer;
    var l: Limits, st, b := RawLimits(1, 60), Some(Bucket(0, 1000)), Some(Bucket(0, 0));
    LateAnswers(l);
    assert [0] + [1000] == [0, 1000];
    RepliesUnfold(l, st, 0, [1000]);
    RepliesOfOne(l, b, 1000);
    RepliesOfOne(l, st, 1000);
  }

  lemma LateAnswers(l: Limits)
    requires l == RawLimits(1, 60)
    ensures NextBucket(l, Some(Bucket(0, 1000)), 0) == Bucket(0, 0)
    ensures Answer(l, Some(Bucket(0, 1000)), 0) == Answer(l, Some(Bucket(0, 1000)), 1000) == Reply(false, 1000, 0)
    ensures Answer(l, Some(Bucket(0, 0)), 1000) == Reply(true, 0, 0)
  {
    assert l.Full() == UNIT && CeilDiv(UNIT, 60) == 1000;
    assert Refilled(l, Some(Bucket(0, 1000)), 0) == Refilled(l, Some(Bucket(0, 1000)), 1000) == 0;
    assert Refilled(l, Some(Bucket(0, 0)), 1000) == UNIT;
    hide Refilled, CeilDiv;
  }

  lemma RepliesOfOne(l: Limits, st: Option<Bucket>, t: int)
    ensures Replies(l, st, [t]) == [Answer(l, st, t)]
  {
    assert [t] + [] == [t];
    RepliesUnfold(l, st, t, []);
  }

  /**
   One rejected check before another check: it is invisible if and only if the timestamps are in
   order, either way round, or the bucket is full by then anyway.
   */
  lemma RejectionInvisibleIff(l: Limits, b: Bucket, now: int, later: int)
    requires !Admits(l, Some(b), now)
    ensures Replies(l, Some(b), [now, later])[1..] == Replies(l, Some(b), [later]) <==>
            || (b.ts <= now <= later) || (later <= now <= b.ts)
            || l.Full() <= b.tokens + l.refill * Elapsed(b.ts, later)
  {
    hide Refilled, Admits, NextBucket, Answer;
    var ts, mask, rs := [now, later], [false, true], Replies(l, Some(b), [now, later]);
    RepliesUnfold(l, Some(b), now, [later]);
    assert ts == [now] + [later] && ts[1..] == [later] && mask[1..] == [true];
    assert Kept(ts, mask) == Kept([later], [true]) == [later];
    assert Kept(rs, mask) == Kept(rs[1..], [true]) == rs[1..];
    AnswerRejects(l, Some(b), now);
    DeletionInvisibleIff(l, Some(b), ts, mask);
    OneDeletion(l, Some(b), b.ts, now, later);
    InOrderIff(b.ts, now, later);
  }

  lemma OneDeletion(l: Limits, st: Option<Bucket>, last: int, now: int, later: int)
    ensures Undisturbed(l, st, last, 0, [now, later], [false, true]) ==
            Unaffected(l, st, Elapsed(last, now) + Elapsed(now, later), later)
  {
    hide Unaffected, NextBucket;
    assert [now, later][1..] == [later] && [false, true][1..] == [true];
    assert Undisturbed(l, Some(NextBucket(l, st, later)), later, 0, [later][1..], [true][1..]);
    assert Undisturbed(l, st, now, Elapsed(last, now), [later], [true]) ==
           Unaffected(l, st, Elapsed(last, now) + Elapsed(now, later), later);
  }

  lemma InOrderIff(a: int, b: int, c: int)
    ensures Elapsed(a, c) <= Elapsed(a, b) + Elapsed(b, c)
    ensures Elapsed(a, c) == Elapsed(a, b) + Elapsed(b, c) <==> a <= b <= c || c <= b <= a
  {
  }

  lemma AnswerRejects(l: Limits, st: Option<Bucket>, now: int)
    ensures Answer(l, st, now).allowed == Admits(l, st, now)
  {
  }

  lemma ProductsCompare(r: int, e: int, f: int, g: int)
    requires 0 < r && g <= e + f
    ensures r * g <= r * e + r * f
    ensures r * g == r * e + r * f <==> g == e + f
  {
    assert r * (e + f) == r * e + r * f;
    MulLe(r, g, e + f);
    if g < e + f {
      MulLe(r, g + 1, e + f);
      assert r * (g + 1) == r * g + r;
    }
  }

  lemma MinsEqualIff(full: int, tokens: int, x: int, y: int)
    requires y <= x
    ensures Min(full, tokens + x) == Min(full, tokens + y) <==> x == y || full <= tokens + y
  {
  }
}
