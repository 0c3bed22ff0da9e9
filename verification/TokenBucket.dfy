/** The per-domain token bucket, and how many requests it lets through in a stretch of time. */
module TokenBucket {

  /** Tokens credited for a span of time. */
  function Earned(rate: real, span: real): real {
    rate * span
  }

  datatype Bucket = Bucket(rate: real, tokens: real, lastRefill: real) {
    ghost predicate Valid() {
      rate > 0.0 && 0.0 <= tokens <= rate
    }

    function Refilled(now: real): real {
      var tokens := tokens + Earned(rate, now - lastRefill);
      if rate <= tokens then rate else tokens
    }

    /** How long a call made at `now` is asked to sleep. */
    function Wait(now: real): real
      requires rate > 0.0
    {
      if Refilled(now) < 1.0 then (1.0 - Refilled(now)) / rate else 0.0
    }

    function Acquired(now: real): Bucket {
      var tokens := Refilled(now);
      Bucket(rate, if tokens < 1.0 then 0.0 else tokens - 1.0, now)
    }
  }

  function Fresh(rate: real, now: real): Bucket {
    Bucket(rate, rate, now)
  }

  /** One call: the lock is taken at `now` and the request is let through at `done`. */
  datatype Call = Call(now: real, done: real)

  /**
   * A run of calls from a bucket whose last activity ended at `since`: the lock serialises them, the clock
   * never goes back, and a sleep takes at least as long as asked.
   */
  ghost predicate IsRun(b: Bucket, since: real, calls: seq<Call>)
    requires b.rate > 0.0
    decreases |calls|
  {
    calls == [] ||
    var c := calls[0];
    && since <= c.now
    && c.now + b.Wait(c.now) <= c.done
    && IsRun(b.Acquired(c.now), c.done, calls[1..])
  }

  function After(b: Bucket, calls: seq<Call>): Bucket
    decreases |calls|
  {
    if calls == [] then b else After(b.Acquired(calls[0].now), calls[1..])
  }

  class RateLimiter {
    var rate: real
    var tokens: real
    var lastRefill: real

    function State(): Bucket
      reads this
    {
      Bucket(rate, tokens, lastRefill)
    }

    constructor (rate: real, now: real)
      requires rate > 0.0
      ensures State() == Fresh(rate, now) && State().Valid()
    {
      this.rate, tokens, lastRefill := rate, rate, now;
    }

    /** `now` is read once the lock is held; the caller must let `wait` pass before going on. */
    method Acquire(now: real) returns (wait: real)
      requires State().Valid() && lastRefill <= now
      modifies this
      ensures State().Valid()
      ensures State() == old(State()).Acquired(now)
      ensures wait == old(State()).Wait(now) && wait >= 0.0
    {
      var elapsed := now - lastRefill;
      assert elapsed * rate == Earned(rate, elapsed) >= 0.0 by { EarnedNonNegative(rate, elapsed); }
      tokens := if rate <= tokens + elapsed * rate then rate else tokens + elapsed * rate;
      lastRefill := now;
      if tokens < 1.0 {
        wait := (1.0 - tokens) / rate;
        tokens := 0.0;
      } else {
        wait := 0.0;
        tokens := tokens - 1.0;
      }
    }

    /** Callers served one after the other as the lock lets them in: their calls are a run of the bucket. */
    method Serve(visits: seq<Visit>, since: real) returns (calls: seq<Call>)
      requires State().Valid() && lastRefill <= since && NeverEarly(visits)
      modifies this
      ensures IsRun(old(State()), since, calls) && |calls| == |visits|
      ensures State() == After(old(State()), calls) && State().Valid()
      ensures forall i :: 0 <= i < |calls| ==> visits[i].arrival <= calls[i].now
    {
      calls := [];
      var free := since;
      for i := 0 to |visits|
        invariant State().Valid() && rate == old(rate) && lastRefill <= free && |calls| == i
        invariant free == if calls == [] then since else calls[|calls| - 1].done
        invariant IsRun(old(State()), since, calls) && State() == After(old(State()), calls)
        invariant forall j :: 0 <= j < i ==> visits[j].arrival <= calls[j].now
      {
        assert visits[i] in visits;
        var now := if visits[i].arrival < free then free else visits[i].arrival;
        var wait := Acquire(now);
        free := now + wait + visits[i].delay;
        RunThen(old(State()), since, calls, Call(now, free));
        calls := calls + [Call(now, free)];
      }
    }
  }

  /** A caller that comes at `arrival` and, once let go, takes `delay` longer than it was asked to wait. */
  datatype Visit = Visit(arrival: real, delay: real)

  predicate NeverEarly(visits: seq<Visit>) {
    forall v :: v in visits ==> v.delay >= 0.0
  }

  lemma {:induction false} RunThen(b: Bucket, since: real, calls: seq<Call>, c: Call)
    requires b.Valid() && b.lastRefill <= since && IsRun(b, since, calls)
    requires var b1, t := After(b, calls), if calls == [] then since else calls[|calls| - 1].done;
      b1.rate == b.rate && t <= c.now && c.now + b1.Wait(c.now) <= c.done
    ensures IsRun(b, since, calls + [c]) && After(b, calls + [c]) == After(b, calls).Acquired(c.now)
    decreases |calls|
  {
    if calls == [] {
      assert [] + [c] == [c] && [c][1..] == [];
    } else {
      CallCost(b, calls[0].now, calls[0].done);
      assert (calls + [c])[1..] == calls[1..] + [c];
      RunThen(b.Acquired(calls[0].now), calls[0].done, calls[1..], c);
    }
  }

  lemma EarnedNonNegative(rate: real, span: real)
    requires rate >= 0.0 && span >= 0.0
    ensures Earned(rate, span) >= 0.0
  {
  }

  lemma EarnedAdds(rate: real, x: real, y: real)
    ensures Earned(rate, x) + Earned(rate, y) == Earned(rate, x + y)
  {
  }

  /** What one call does to the tokens left, counting the request and its sleep. */
  lemma CallCost(b: Bucket, now: real, done: real)
    requires b.Valid() && b.lastRefill <= now && now + b.Wait(now) <= done
    ensures b.Acquired(now).Valid() && now <= done
    ensures 1.0 + b.Acquired(now).tokens <= b.Refilled(now) + Earned(b.rate, done - now)
    ensures b.Refilled(now) <= b.rate
    ensures b.Refilled(now) <= b.tokens + Earned(b.rate, now - b.lastRefill)
  {
    EarnedNonNegative(b.rate, now - b.lastRefill);
    var w := b.Wait(now);
    WaitPays(if b.Refilled(now) < 1.0 then 1.0 - b.Refilled(now) else 0.0, b.rate, w, done - now);
  }

  lemma WaitPays(missing: real, rate: real, wait: real, spent: real)
    requires missing >= 0.0 && rate > 0.0 && wait == missing / rate && wait <= spent
    ensures Earned(rate, spent) >= missing && wait >= 0.0
  {
    assert Earned(rate, wait) == missing;
    EarnedNonNegative(rate, spent - wait);
    EarnedAdds(rate, wait, spent - wait);
  }

  /**
   * Potential argument. A sleep earns its own request and, since the refill time was taken before it, is
   * credited once more by the next refill; so the time of a run pays twice, and no more than twice.
   */
  lemma {:induction false} Credit(b: Bucket, since: real, calls: seq<Call>, end: real)
    requires b.Valid() && b.lastRefill <= since <= end && IsRun(b, since, calls)
    requires forall i :: 0 <= i < |calls| ==> calls[i].done <= end
    ensures |calls| as real <= b.tokens + Earned(b.rate, end - b.lastRefill) + Earned(b.rate, end - since)
    decreases |calls|
  {
    EarnedNonNegative(b.rate, end - b.lastRefill);
    EarnedNonNegative(b.rate, end - since);
    if calls != [] {
      var c := calls[0];
      CallCost(b, c.now, c.done);
      assert forall i :: 0 <= i < |calls[1..]| ==> calls[1..][i] == calls[i + 1];
      Credit(b.Acquired(c.now), c.done, calls[1..], end);
      EarnedAdds(b.rate, c.now - b.lastRefill, end - c.now);
      EarnedAdds(b.rate, c.done - c.now, end - c.done);
      EarnedAdds(b.rate, c.now - since, end - c.now);
      EarnedNonNegative(b.rate, c.now - since);
    }
  }

  lemma {:induction false} RunSplits(b: Bucket, since: real, before: seq<Call>, calls: seq<Call>)
    requires b.Valid() && b.lastRefill <= since && IsRun(b, since, before + calls)
    ensures var b1, now := After(b, before), if before == [] then since else before[|before| - 1].done;
      b1.Valid() && b1.rate == b.rate && b1.lastRefill <= now && IsRun(b1, now, calls)
    decreases |before|
  {
    if before == [] {
      assert before + calls == calls;
    } else {
      var c := before[0];
      CallCost(b, c.now, c.done);
      assert (before + calls)[1..] == before[1..] + calls;
      RunSplits(b.Acquired(c.now), c.done, before[1..], calls);
    }
  }

  /**
   * In any stretch of time, from any state the limiter can be in, the requests begun and let through within
   * it number at most rate + 2 * rate * length.
   */
  lemma AdmissionBound(b: Bucket, start: real, calls: seq<Call>, length: real)
    requires b.Valid() && length >= 0.0 && IsRun(b, start, calls)
    requires calls != [] ==> b.lastRefill <= calls[0].now
    requires forall i :: 0 <= i < |calls| ==> calls[i].done <= start + length
    ensures |calls| as real <= b.rate + 2.0 * Earned(b.rate, length)
  {
    EarnedNonNegative(b.rate, length);
    if calls != [] {
      var c, end := calls[0], start + length;
      CallCost(b, c.now, c.done);
      assert forall i :: 0 <= i < |calls[1..]| ==> calls[1..][i] == calls[i + 1];
      Credit(b.Acquired(c.now), c.done, calls[1..], end);
      EarnedAdds(b.rate, c.done - c.now, end - c.done);
      EarnedAdds(b.rate, c.now - start, end - c.now);
      EarnedNonNegative(b.rate, c.now - start);
      assert (c.now - start) + (end - c.now) == length;
    }
  }

  /** The bound for any window of any run of a limiter, however long it has been running. */
  lemma WindowBound(rate: real, built: real, before: seq<Call>, calls: seq<Call>, start: real, length: real)
    requires rate > 0.0 && length >= 0.0 && IsRun(Fresh(rate, built), built, before + calls)
    requires forall i :: 0 <= i < |calls| ==> start <= calls[i].now && calls[i].done <= start + length
    ensures |calls| as real <= rate + 2.0 * Earned(rate, length)
  {
    RunSplits(Fresh(rate, built), built, before, calls);
    AdmissionBound(After(Fresh(rate, built), before), start, calls, length);
  }
}
