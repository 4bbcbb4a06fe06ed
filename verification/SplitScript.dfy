/**
 Why the script must run atomically: the same bucket with the read and the write-back as two
 separate round trips. Each request still decides and writes exactly as the script does, but
 on what it read earlier.
 */
module SplitScript {
  import opened Common
  import opened TokenBucket

  datatype Step = Read(request: nat) | Write(request: nat)

  datatype State = State(bucket: Option<Bucket>, read: map<nat, Option<Bucket>>, admitted: nat)

  /** The state after the steps, with the clock standing at now; a write without a read does nothing. */
  function Exec(l: Limits, now: int, steps: seq<Step>): State {
    if steps == [] then State(None, map[], 0)
    else
      var s := Exec(l, now, steps[..|steps| - 1]);
      match steps[|steps| - 1]
      case Read(r) => s.(read := s.read[r := s.bucket])
      case Write(r) =>
        if r !in s.read then s
        else State(Some(NextBucket(l, s.read[r], now)), s.read - {r},
                   s.admitted + if Admits(l, s.read[r], now) then 1 else 0)
  }

  /** All n requests read before any of them writes. */
  function Racing(n: nat, writes: nat): seq<Step> {
    if writes == 0 then seq(n, r requires 0 <= r => Read(r)) else Racing(n, writes - 1) + [Write(writes - 1)]
  }

  /** One request after the other. */
  function Serial(n: nat): seq<Step> {
    if n == 0 then [] else Serial(n - 1) + [Read(n - 1), Write(n - 1)]
  }

  lemma {:induction false} ReadsSeeFull(l: Limits, now: int, n: nat)
    ensures var s := Exec(l, now, Racing(n, 0));
      s.bucket == None && s.admitted == 0 && forall r: nat :: r < n ==> r in s.read && s.read[r] == None
  {
    if n > 0 {
      ReadsSeeFull(l, now, n - 1);
      assert Racing(n, 0)[..n - 1] == Racing(n - 1, 0);
    }
  }

  lemma {:induction false} WritesAdmit(l: Limits, now: int, n: nat, writes: nat)
    requires writes <= n
    ensures var s := Exec(l, now, Racing(n, writes));
      s.admitted == writes && forall r: nat :: writes <= r < n ==> r in s.read && s.read[r] == None
  {
    if writes == 0 {
      ReadsSeeFull(l, now, n);
    } else {
      WritesAdmit(l, now, n, writes - 1);
      var before := Racing(n, writes - 1);
      assert Racing(n, writes)[..|before|] == before;
      MulLe(UNIT, 1, l.capacity);
    }
  }

  lemma {:induction false} ReadThenWrite(l: Limits, now: int, before: seq<Step>, r: nat)
    ensures var s, s' := Exec(l, now, before), Exec(l, now, before + [Read(r), Write(r)]);
      && s'.bucket == Some(NextBucket(l, s.bucket, now))
      && s'.admitted == s.admitted + if Admits(l, s.bucket, now) then 1 else 0
  {
    var mid := before + [Read(r)];
    assert mid[..|before|] == before;
    assert before + [Read(r), Write(r)] == mid + [Write(r)];
    assert (mid + [Write(r)])[..|mid|] == mid;
  }

  lemma {:induction false} SerialIsAtomic(l: Limits, ts: seq<int>, now: int, n: nat)
    requires n <= |ts| && forall k :: 0 <= k < |ts| ==> ts[k] == now
    ensures var s := Exec(l, now, Serial(n));
      s.bucket == StateAt(l, ts, n) && s.admitted == Count(Decisions(l, ts), 0, n)
  {
    if n > 0 {
      SerialIsAtomic(l, ts, now, n - 1);
      ReadThenWrite(l, now, Serial(n - 1), n - 1);
      assert Decisions(l, ts)[n - 1] == AllowedAt(l, ts, n - 1);
    }
  }

  /**
   Split in two, the script admits any number n of racing requests with the clock standing
   still; run one at a time, the same n requests get min(n, capacity).
   */
  lemma {:induction false} SplitOverAdmits(l: Limits, now: int, n: nat)
    ensures Exec(l, now, Racing(n, n)).admitted == n
    ensures Exec(l, now, Serial(n)).admitted == Min(n, l.capacity)
  {
    WritesAdmit(l, now, n, n);
    var ts := seq(n, _ => now);
    SerialIsAtomic(l, ts, now, n);
    FrozenClockAdmitsCapacity(l, ts, n);
  }
}
