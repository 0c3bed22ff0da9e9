/** When the limiter keeps to the bound one expects of a token bucket, the rate and what the rate earns in the time. */
module TextbookBound {
  import opened TokenBucket

  /** Every run from construction lets through, within `length`, at most the first tokens and those earned since. */
  ghost predicate TextbookHolds(rate: real, length: real)
    requires rate > 0.0
  {
    forall built: real, calls: seq<Call> ::
      IsRun(Fresh(rate, built), built, calls) && EndsBy(calls, built + length) ==> |calls| as real <= rate + Earned(rate, length)
  }

  ghost predicate EndsBy(calls: seq<Call>, end: real) {
    forall i :: 0 <= i < |calls| ==> calls[i].done <= end
  }

  function Floor(x: real): int {
    x.Floor
  }

  /**
   * The exact condition. From half a request per second on, less than one token may be earned in the time; below
   * that every call sleeps, and the number of full sleeps that fit must not exceed the bound.
   */
  predicate TextbookCondition(rate: real, length: real)
    requires rate > 0.0
  {
    var x := Earned(rate, length);
    if rate >= 0.5 then x < 1.0 else Floor(x / (1.0 - rate)) as real <= rate + x
  }

  // -------------------------------------------------------------------------- arithmetic

  lemma EarnedBack(rate: real, tokens: real)
    requires rate > 0.0 && tokens >= 0.0
    ensures Earned(rate, tokens / rate) == tokens && tokens / rate >= 0.0
  {
  }

  lemma EarnedMore(rate: real, x: real, y: real)
    requires rate > 0.0
    ensures x <= y <==> Earned(rate, x) <= Earned(rate, y)
  {
    assert Earned(rate, y) - Earned(rate, x) == rate * (y - x);
  }

  /** `n` times `part`. */
  function Each(n: nat, part: real): real {
    n as real * part
  }

  lemma EachMore(n: nat, part: real)
    ensures Each(n + 1, part) == Each(n, part) + part
  {
  }

  lemma Fits(m: real, part: real, x: real)
    requires part > 0.0
    ensures m <= x / part <==> m * part <= x
  {
    var q := x / part;
    assert q * part == x;
    assert (q - m) * part == x - m * part;
  }

  // -------------------------------------------------------------- where the bound is kept

  /** A call whose bucket is short of a token at `now` ends a whole sleep later; so does the next, from this one's start. */
  lemma SleptCall(b: Bucket, now: real, done: real, next: Call)
    requires b.Valid() && b.lastRefill <= now && b.Refilled(now) < 1.0 && now + b.Wait(now) <= done
    requires done <= next.now && next.now + b.Acquired(now).Wait(next.now) <= next.done
    ensures Earned(b.rate, next.done - now) >= 1.0
  {
    var b1 := b.Acquired(now);
    CallCost(b, now, done);
    EarnedNonNegative(b.rate, next.now - now);
    CallCost(b1, next.now, next.done);
    EarnedAdds(b.rate, next.now - now, next.done - next.now);
  }

  /** In a stretch that earns less than a token only the last call can sleep, and so nothing is credited twice. */
  lemma {:induction false} ShortCredit(b: Bucket, since: real, calls: seq<Call>, end: real)
    requires b.Valid() && b.lastRefill <= since <= end && IsRun(b, since, calls) && EndsBy(calls, end)
    requires Earned(b.rate, end - since) < 1.0
    ensures |calls| as real <= b.tokens + Earned(b.rate, end - b.lastRefill)
    decreases |calls|
  {
    EarnedNonNegative(b.rate, end - b.lastRefill);
    if calls != [] {
      var c, rest := calls[0], calls[1..];
      var b1 := b.Acquired(c.now);
      CallCost(b, c.now, c.done);
      assert forall i :: 0 <= i < |rest| ==> rest[i] == calls[i + 1];
      EarnedMore(b.rate, end - c.now, end - since);
      EarnedMore(b.rate, c.done - c.now, end - c.now);
      EarnedMore(b.rate, end - c.done, end - since);
      EarnedAdds(b.rate, c.now - b.lastRefill, end - c.now);
      if b.Refilled(c.now) < 1.0 && rest != [] {
        SleptCall(b, c.now, c.done, rest[0]);
        EarnedMore(b.rate, rest[0].done - c.now, end - c.now);
      } else if rest != [] {
        ShortCredit(b1, c.done, rest, end);
      }
    }
  }

  /** From any state of any limiter: in a stretch of time that earns less than a token the textbook bound holds. */
  lemma ShortStretch(b: Bucket, start: real, calls: seq<Call>, length: real)
    requires b.Valid() && length >= 0.0 && Earned(b.rate, length) < 1.0 && IsRun(b, start, calls)
    requires (calls != [] ==> b.lastRefill <= calls[0].now) && EndsBy(calls, start + length)
    ensures |calls| as real <= b.rate + Earned(b.rate, length)
  {
    EarnedNonNegative(b.rate, length);
    if calls != [] {
      var c, end := calls[0], start + length;
      CallCost(b, c.now, c.done);
      EarnedNonNegative(b.rate, c.now - b.lastRefill);
      EarnedMore(b.rate, end - c.now, length);
      var full := Bucket(b.rate, b.Refilled(c.now), c.now);
      assert Earned(b.rate, 0.0) == 0.0;
      assert full.Refilled(c.now) == b.Refilled(c.now) && full.Acquired(c.now) == b.Acquired(c.now);
      ShortCredit(full, c.now, calls, end);
    }
  }

  /** Below one request per second every call sleeps for at least what a full bucket lacks. */
  lemma {:induction false} EveryCallSleeps(b: Bucket, since: real, calls: seq<Call>, end: real)
    requires b.Valid() && b.rate < 1.0 && b.lastRefill <= since <= end && IsRun(b, since, calls) && EndsBy(calls, end)
    ensures Each(|calls|, 1.0 - b.rate) <= Earned(b.rate, end - since)
    decreases |calls|
  {
    EarnedNonNegative(b.rate, end - since);
    if calls != [] {
      var c, rest := calls[0], calls[1..];
      CallCost(b, c.now, c.done);
      assert forall i :: 0 <= i < |rest| ==> rest[i] == calls[i + 1];
      EveryCallSleeps(b.Acquired(c.now), c.done, rest, end);
      SleepsFor(b, c.now, c.done);
      EarnedMore(b.rate, c.done - c.now, c.done - since);
      EarnedAdds(b.rate, c.done - since, end - c.done);
      EachMore(|rest|, 1.0 - b.rate);
    }
  }

  lemma SleepsFor(b: Bucket, now: real, done: real)
    requires b.Valid() && b.rate < 1.0 && now + b.Wait(now) <= done
    ensures Earned(b.rate, done - now) >= 1.0 - b.rate
  {
    var missing := 1.0 - b.Refilled(now);
    WaitPays(missing, b.rate, b.Wait(now), done - now);
  }

  // ---------------------------------------------------------------- where it is broken

  function Burst(t: real, n: nat): seq<Call>
    decreases n
  {
    if n == 0 then [] else [Call(t, t)] + Burst(t, n - 1)
  }

  lemma BurstStep(rate: real, tokens: real, t: real)
    requires 1.0 <= tokens <= rate
    ensures var b := Bucket(rate, tokens, t); b.Wait(t) == 0.0 && b.Acquired(t) == Bucket(rate, tokens - 1.0, t)
  {
    assert Earned(rate, 0.0) == 0.0;
  }

  lemma RunCons(b: Bucket, since: real, c: Call, calls: seq<Call>)
    requires b.rate > 0.0 && since <= c.now && c.now + b.Wait(c.now) <= c.done
    requires IsRun(b.Acquired(c.now), c.done, calls)
    ensures IsRun(b, since, [c] + calls)
  {
    assert ([c] + calls)[1..] == calls;
  }

  lemma {:induction false} BurstShape(t: real, n: nat)
    ensures |Burst(t, n)| == n && EndsBy(Burst(t, n), t)
  {
    if n > 0 {
      BurstShape(t, n - 1);
    }
  }

  /** The whole tokens of a bucket let as many calls through at once. */
  lemma {:induction false} BurstRuns(rate: real, left: real, t: real, n: nat, rest: seq<Call>)
    requires 0.0 < rate && 0.0 <= left && n as real + left <= rate && IsRun(Bucket(rate, left, t), t, rest)
    ensures IsRun(Bucket(rate, n as real + left, t), t, Burst(t, n) + rest)
    decreases n
  {
    if n == 0 {
      assert Burst(t, 0) + rest == rest;
    } else {
      BurstRuns(rate, left, t, n - 1, rest);
      BurstStep(rate, n as real + left, t);
      assert n as real + left - 1.0 == (n - 1) as real + left;
      RunCons(Bucket(rate, n as real + left, t), t, Call(t, t), Burst(t, n - 1) + rest);
      assert Burst(t, n) + rest == [Call(t, t)] + (Burst(t, n - 1) + rest);
    }
  }

  /** One call after the other: `found` tokens at first, and each call leaves the next what its sleep earned. */
  function Backlog(rate: real, found: real, t: real, n: nat): seq<Call>
    requires rate > 0.0
    decreases n
  {
    if n == 0 then []
    else
      var t1 := t + (1.0 - found) / rate;
      [Call(t, t1)] + Backlog(rate, 1.0 - found, t1, n - 1)
  }

  /** The tokens that the sleeps of such a backlog earn: hardly more than one for every two calls. */
  function Need(found: real, n: nat): real {
    (n / 2) as real + if n % 2 == 0 then 0.0 else 1.0 - found
  }

  lemma NeedNext(found: real, n: nat)
    requires n > 0
    ensures Need(found, n) == 1.0 - found + Need(1.0 - found, n - 1)
  {
  }

  /** A call that finds less than a token sleeps for the rest of it, and the next one finds what was earned meanwhile. */
  lemma BacklogStep(b: Bucket, t: real, found: real)
    requires b.Valid() && b.Refilled(t) == found && 0.0 <= found <= 1.0 && 1.0 - found <= b.rate
    ensures var t1 := t + (1.0 - found) / b.rate;
      && b.Wait(t) == (1.0 - found) / b.rate >= 0.0
      && b.Acquired(t) == Bucket(b.rate, 0.0, t) && b.Acquired(t).Refilled(t1) == 1.0 - found
  {
    EarnedBack(b.rate, 1.0 - found);
    assert t + (1.0 - found) / b.rate - t == (1.0 - found) / b.rate;
  }

  lemma SharesAdd(rate: real, x: real, y: real)
    requires rate > 0.0
    ensures (x + y) / rate == x / rate + y / rate
  {
  }

  lemma {:induction false} BacklogRuns(b: Bucket, t: real, found: real, n: nat)
    requires b.Valid() && b.Refilled(t) == found && 0.0 <= found <= 1.0 && found <= b.rate && 1.0 - found <= b.rate
    ensures IsRun(b, t, Backlog(b.rate, found, t, n))
    decreases n
  {
    if n > 0 {
      var t1 := t + (1.0 - found) / b.rate;
      BacklogStep(b, t, found);
      BacklogRuns(b.Acquired(t), t1, 1.0 - found, n - 1);
      RunCons(b, t, Call(t, t1), Backlog(b.rate, 1.0 - found, t1, n - 1));
    }
  }

  lemma {:induction false} BacklogEnds(rate: real, t: real, found: real, n: nat)
    requires rate > 0.0 && 0.0 <= found <= 1.0
    ensures |Backlog(rate, found, t, n)| == n && EndsBy(Backlog(rate, found, t, n), t + Need(found, n) / rate)
    decreases n
  {
    if n > 0 {
      var t1, end := t + (1.0 - found) / rate, t + Need(found, n) / rate;
      BacklogEnds(rate, t1, 1.0 - found, n - 1);
      NeedNext(found, n);
      SharesAdd(rate, 1.0 - found, Need(1.0 - found, n - 1));
      EarnedBack(rate, Need(1.0 - found, n - 1));
      var rest := Backlog(rate, 1.0 - found, t1, n - 1);
      assert forall i :: 0 < i < n ==> ([Call(t, t1)] + rest)[i] == rest[i - 1];
    }
  }

  /** What is left of a full bucket once its whole tokens are spent. */
  function Left(rate: real): real {
    rate - Floor(rate) as real
  }

  lemma LeftFits(rate: real)
    requires rate >= 0.5
    ensures 0.0 <= Left(rate) < 1.0 && Left(rate) <= rate && 1.0 - Left(rate) <= rate && Floor(rate) >= 0
  {
  }

  lemma FoundAtOnce(rate: real, tokens: real, t: real)
    requires 0.0 <= tokens <= rate
    ensures Bucket(rate, tokens, t).Refilled(t) == tokens
  {
    assert Earned(rate, 0.0) == 0.0;
  }

  lemma BothEndBy(a: seq<Call>, b: seq<Call>, early: real, end: real)
    requires EndsBy(a, early) && early <= end && EndsBy(b, end)
    ensures EndsBy(a + b, end)
  {
    var both := a + b;
    assert forall i :: 0 <= i < |both| ==> both[i] == if i < |a| then a[i] else b[i - |a|];
  }

  /** The whole tokens at once, and then `n` more calls as fast as they are let. */
  lemma BurstThenBacklog(rate: real, n: nat) returns (calls: seq<Call>)
    requires rate >= 0.5
    ensures IsRun(Fresh(rate, 0.0), 0.0, calls) && |calls| == Floor(rate) + n && EndsBy(calls, Need(Left(rate), n) / rate)
  {
    LeftFits(rate);
    var k: nat, f := Floor(rate), Left(rate);
    calls := BurstInto(rate, f, k, n);
    assert k as real + f == rate;
  }

  lemma BurstInto(rate: real, f: real, k: nat, n: nat) returns (calls: seq<Call>)
    requires 0.0 < rate && 0.0 <= f < 1.0 && f <= rate && 1.0 - f <= rate && k as real + f <= rate
    ensures IsRun(Bucket(rate, k as real + f, 0.0), 0.0, calls) && |calls| == k + n && EndsBy(calls, Need(f, n) / rate)
  {
    var burst, rest := Burst(0.0, k), Backlog(rate, f, 0.0, n);
    calls := burst + rest;
    FoundAtOnce(rate, f, 0.0);
    BacklogRuns(Bucket(rate, f, 0.0), 0.0, f, n);
    BacklogEnds(rate, 0.0, f, n);
    BurstRuns(rate, f, 0.0, k, rest);
    BurstShape(0.0, k);
    EarnedBack(rate, Need(f, n));
    BothEndBy(burst, rest, 0.0, Need(f, n) / rate);
  }

  /**
   * For every whole rate and every n there is a run with rate + 2 n grants in n / rate seconds: the general bound is
   * met with equality.
   */
  lemma BoundIsAttained(rate: nat, n: nat) returns (calls: seq<Call>)
    requires rate > 0
    ensures IsRun(Fresh(rate as real, 0.0), 0.0, calls)
    ensures var length := n as real / rate as real;
      && EndsBy(calls, length)
      && |calls| as real == rate as real + 2.0 * Earned(rate as real, length)
      && (n > 0 ==> |calls| as real > rate as real + Earned(rate as real, length))
  {
    calls := BurstThenBacklog(rate as real, 2 * n);
    EarnedBack(rate as real, n as real);
    assert Need(Left(rate as real), 2 * n) == n as real;
  }

  /** From one token on, that many tokens are enough for more calls than the bound allows. */
  lemma Overtakes(f: real, x: real) returns (n: nat)
    requires 0.0 <= f < 1.0 && x >= 1.0
    ensures Need(f, n) <= x && n as real > f + x
  {
    n := if Floor(x) == 1 && f + x >= 2.0 then 3 else 2 * Floor(x);
  }

  /** As soon as a whole token is earned, two calls can share it. */
  lemma LongStretch(rate: real, length: real) returns (calls: seq<Call>)
    requires rate >= 0.5 && length >= 0.0 && Earned(rate, length) >= 1.0
    ensures IsRun(Fresh(rate, 0.0), 0.0, calls) && EndsBy(calls, length) && |calls| as real > rate + Earned(rate, length)
  {
    LeftFits(rate);
    var x, f := Earned(rate, length), Left(rate);
    var n := Overtakes(f, x);
    calls := BurstThenBacklog(rate, n);
    EarnedBack(rate, Need(f, n));
    EarnedMore(rate, Need(f, n) / rate, length);
  }

  // ------------------------------------------------------------ slow limiters

  /** Calls at the slowest rates: every one finds the bucket as full as it gets, and sleeps for the same time. */
  function Sleepers(rate: real, t: real, n: nat): seq<Call>
    requires rate > 0.0
    decreases n
  {
    if n == 0 then []
    else
      var t1 := t + (1.0 - rate) / rate;
      [Call(t, t1)] + Sleepers(rate, t1, n - 1)
  }

  lemma SleeperStep(b: Bucket, t: real)
    requires b.Valid() && b.rate <= 0.5 && b.Refilled(t) == b.rate
    ensures var t1 := t + (1.0 - b.rate) / b.rate;
      && b.Wait(t) == (1.0 - b.rate) / b.rate >= 0.0
      && b.Acquired(t) == Bucket(b.rate, 0.0, t) && b.Acquired(t).Refilled(t1) == b.rate
  {
    EarnedBack(b.rate, 1.0 - b.rate);
    assert t + (1.0 - b.rate) / b.rate - t == (1.0 - b.rate) / b.rate;
  }

  lemma {:induction false} SleepersRun(b: Bucket, t: real, n: nat)
    requires b.Valid() && b.rate <= 0.5 && b.Refilled(t) == b.rate
    ensures IsRun(b, t, Sleepers(b.rate, t, n))
    decreases n
  {
    if n > 0 {
      var t1 := t + (1.0 - b.rate) / b.rate;
      SleeperStep(b, t);
      SleepersRun(b.Acquired(t), t1, n - 1);
      RunCons(b, t, Call(t, t1), Sleepers(b.rate, t1, n - 1));
    }
  }

  lemma {:induction false} SleepersEnd(rate: real, t: real, n: nat)
    requires 0.0 < rate <= 0.5
    ensures |Sleepers(rate, t, n)| == n && EndsBy(Sleepers(rate, t, n), t + Each(n, 1.0 - rate) / rate)
    decreases n
  {
    if n > 0 {
      var t1 := t + (1.0 - rate) / rate;
      SleepersEnd(rate, t1, n - 1);
      EachMore(n - 1, 1.0 - rate);
      SharesAdd(rate, 1.0 - rate, Each(n - 1, 1.0 - rate));
      EachNonnegative(n - 1, 1.0 - rate);
      EarnedBack(rate, Each(n - 1, 1.0 - rate));
      var rest := Sleepers(rate, t1, n - 1);
      assert forall i :: 0 < i < n ==> ([Call(t, t1)] + rest)[i] == rest[i - 1];
    }
  }

  lemma EachNonnegative(n: nat, part: real)
    requires part >= 0.0
    ensures Each(n, part) >= 0.0
  {
  }

  /** At a slow limiter as many calls get through as full sleeps fit in the time. */
  lemma SleepersFit(rate: real, length: real) returns (calls: seq<Call>)
    requires 0.0 < rate <= 0.5 && length >= 0.0
    ensures IsRun(Fresh(rate, 0.0), 0.0, calls) && EndsBy(calls, length)
    ensures |calls| == Floor(Earned(rate, length) / (1.0 - rate))
  {
    var x, part := Earned(rate, length), 1.0 - rate;
    EarnedNonNegative(rate, length);
    EarnedBack(part, x);
    var n: nat := Floor(x / part);
    calls := Sleepers(rate, 0.0, n);
    assert Earned(rate, 0.0) == 0.0;
    SleepersRun(Fresh(rate, 0.0), 0.0, n);
    SleepersEnd(rate, 0.0, n);
    Fits(n as real, part, x);
    EachNonnegative(n, part);
    EarnedBack(rate, Each(n, part));
    EarnedMore(rate, Each(n, part) / rate, length);
  }

  /** And no more get through, in any stretch of time and from any state. */
  lemma SlowStretch(b: Bucket, start: real, calls: seq<Call>, length: real)
    requires b.Valid() && b.rate < 1.0 && b.lastRefill <= start && length >= 0.0 && IsRun(b, start, calls)
    requires EndsBy(calls, start + length)
    ensures |calls| <= Floor(Earned(b.rate, length) / (1.0 - b.rate))
  {
    EveryCallSleeps(b, start, calls, start + length);
    assert start + length - start == length;
    Fits(|calls| as real, 1.0 - b.rate, Earned(b.rate, length));
  }

  // -------------------------------------------------------------------------- the theorem

  /** A limiter keeps to the textbook bound over a stretch of time exactly under the condition. */
  lemma TextbookIff(rate: real, length: real)
    requires rate > 0.0 && length >= 0.0
    ensures TextbookHolds(rate, length) <==> TextbookCondition(rate, length)
  {
    if TextbookCondition(rate, length) {
      forall built: real, calls: seq<Call> | IsRun(Fresh(rate, built), built, calls) && EndsBy(calls, built + length)
        ensures |calls| as real <= rate + Earned(rate, length)
      {
        if rate >= 0.5 {
          ShortStretch(Fresh(rate, built), built, calls, length);
        } else {
          SlowStretch(Fresh(rate, built), built, calls, length);
        }
      }
    } else {
      var calls: seq<Call>;
      if rate >= 0.5 {
        calls := LongStretch(rate, length);
      } else {
        calls := SleepersFit(rate, length);
      }
      assert EndsBy(calls, 0.0 + length);
    }
  }

  /** For a whole rate, in particular, it does so exactly while less than one token is earned. */
  lemma WholeRates(rate: nat, length: real)
    requires rate > 0 && length >= 0.0
    ensures TextbookHolds(rate as real, length) <==> Earned(rate as real, length) < 1.0
  {
    TextbookIff(rate as real, length);
  }
}
