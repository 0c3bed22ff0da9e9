/** The per-IP request limiter of the API, checked against a complete log of accepted requests. */
module SlidingWindow {
  import opened Common

  type Ip = string

  const MAX_IPS := 10000
  const WINDOW := 60.0

  /** The entries of `times` later than `cutoff`, in order. */
  function Live(times: seq<real>, cutoff: real): seq<real> {
    if times == [] then []
    else (if times[0] > cutoff then [times[0]] else []) + Live(times[1..], cutoff)
  }

  predicate Sorted(times: seq<real>) {
    forall i, j :: 0 <= i < j < |times| ==> times[i] <= times[j]
  }

  function Last(times: seq<real>): real
    requires times != []
  {
    times[|times| - 1]
  }

  function Of(m: map<Ip, seq<real>>, ip: Ip): seq<real> {
    if ip in m then m[ip] else []
  }

  // ----------------------------------------------------------------- facts about Live

  lemma {:induction false} LiveAppend(s: seq<real>, t: seq<real>, cutoff: real)
    ensures Live(s + t, cutoff) == Live(s, cutoff) + Live(t, cutoff)
  {
    if s == [] {
      assert s + t == t;
    } else {
      LiveAppend(s[1..], t, cutoff);
      assert (s + t)[1..] == s[1..] + t && (s + t)[0] == s[0];
      var head := if s[0] > cutoff then [s[0]] else [];
      assert head + (Live(s[1..], cutoff) + Live(t, cutoff)) == head + Live(s[1..], cutoff) + Live(t, cutoff);
    }
  }

  /** Pruning at an earlier cutoff does not change what a later one leaves. */
  lemma {:induction false} LiveLive(s: seq<real>, early: real, late: real)
    requires early <= late
    ensures Live(Live(s, early), late) == Live(s, late)
  {
    if s != [] {
      LiveLive(s[1..], early, late);
      LiveAppend(if s[0] > early then [s[0]] else [], Live(s[1..], early), late);
      assert Live([s[0]], late) == (if s[0] > late then [s[0]] else []) + Live([], late);
    }
  }

  lemma {:induction false} LiveOfStale(s: seq<real>, cutoff: real)
    requires Sorted(s) && (s == [] || Last(s) <= cutoff)
    ensures Live(s, cutoff) == []
  {
    if s != [] {
      LiveOfStale(s[1..], cutoff);
    }
  }

  lemma {:induction false} LiveOfLive(s: seq<real>, cutoff: real)
    requires forall i :: 0 <= i < |s| ==> s[i] > cutoff
    ensures Live(s, cutoff) == s
  {
    if s != [] {
      LiveOfLive(s[1..], cutoff);
    }
  }

  lemma {:induction false} LiveSorted(s: seq<real>, cutoff: real)
    requires Sorted(s)
    ensures Sorted(Live(s, cutoff)) && |Live(s, cutoff)| <= |s|
    ensures forall t :: t in Live(s, cutoff) <==> t in s && t > cutoff
  {
    if s != [] {
      LiveSorted(s[1..], cutoff);
      var rest := Live(s[1..], cutoff);
      forall i | 0 <= i < |rest| ensures s[0] <= rest[i] {
        assert rest[i] in rest;
        assert rest[i] in s[1..];
      }
    }
  }

  lemma {:induction false} LiveTail(s: seq<real>, cutoff: real, i: nat)
    requires Sorted(s) && i < |s| && s[i] > cutoff
    ensures |Live(s, cutoff)| >= |s| - i
  {
    if i > 0 {
      LiveTail(s[1..], cutoff, i - 1);
    } else {
      LiveOfLive(s, cutoff);
    }
  }

  /** The last `n` times are later than `cutoff`. */
  predicate EndsAfter(times: seq<real>, n: nat, cutoff: real) {
    n <= |times| && forall k :: |times| - n <= k < |times| ==> times[k] > cutoff
  }

  lemma {:induction false} LiveAtTheEnd(s: seq<real>, cutoff: real, n: nat)
    requires Sorted(s)
    ensures |Live(s, cutoff)| >= n <==> EndsAfter(s, n, cutoff)
  {
    if s != [] {
      LiveAtTheEnd(s[1..], cutoff, n);
      if s[0] > cutoff {
        LiveOfLive(s, cutoff);
      }
    }
  }

  /** Any `limit` + 1 consecutive times span at least a minute. */
  ghost predicate Spaced(times: seq<real>, limit: nat) {
    forall i, j :: 0 <= i && j == i + limit && j < |times| ==> times[j] - times[i] >= 60.0
  }

  lemma SpacedNext(times: seq<real>, limit: nat, now: real)
    requires Sorted(times) && Spaced(times, limit) && (times != [] ==> Last(times) <= now)
    requires |Live(times, now - WINDOW)| < limit
    ensures Spaced(times + [now], limit)
  {
    var longer := times + [now];
    forall i, j | 0 <= i && j == i + limit && j < |longer| ensures longer[j] - longer[i] >= 60.0 {
      if j < |times| {
        assert longer[i] == times[i] && longer[j] == times[j];
      } else if limit > 0 {
        assert longer[i] == times[i] && longer[j] == now;
        NotLive(times, now - WINDOW, i, limit);
      }
    }
  }

  /** Where fewer than the last `limit` times are live, the first of those is not. */
  lemma NotLive(times: seq<real>, cutoff: real, i: nat, limit: nat)
    requires Sorted(times) && i < |times| && i + limit == |times| && |Live(times, cutoff)| < limit
    ensures times[i] <= cutoff
  {
    if times[i] > cutoff {
      LiveTail(times, cutoff, i);
    }
  }

  // -------------------------------------------------- kept times against the full log

  /** When the overflow branch last dropped an IP. */
  datatype Drop = Never | At(time: real)

  predicate RecentlyDropped(drop: Drop, clock: real) {
    drop.At? && drop.time > clock - WINDOW
  }

  /** The kept times are those of the log as far back as this. */
  function Horizon(drop: Drop, clock: real): real {
    if RecentlyDropped(drop, clock) then drop.time else clock - WINDOW
  }

  ghost predicate InOrder(times: seq<real>, clock: real) {
    Sorted(times) && (times != [] ==> Last(times) <= clock)
  }

  /** From `horizon` on, the kept times are those of the log. */
  ghost predicate SameFrom(kept: seq<real>, full: seq<real>, horizon: real) {
    forall cut {:trigger Live(kept, cut), Live(full, cut)} :: cut >= horizon ==> Live(kept, cut) == Live(full, cut)
  }

  ghost predicate NoMoreFrom(kept: seq<real>, full: seq<real>, horizon: real) {
    forall cut {:trigger Live(kept, cut), Live(full, cut)} :: cut >= horizon ==> |Live(kept, cut)| <= |Live(full, cut)|
  }

  ghost predicate Agrees(kept: seq<real>, full: seq<real>, drop: Drop, clock: real, limit: nat) {
    && InOrder(kept, clock) && InOrder(full, clock)
    && (drop.At? ==> drop.time <= clock)
    && SameFrom(kept, full, Horizon(drop, clock))
    && NoMoreFrom(kept, full, clock - WINDOW)
    && (drop.Never? ==> Spaced(full, limit))
  }

  lemma LiveInOrder(kept: seq<real>, cutoff: real, clock: real)
    requires InOrder(kept, clock)
    ensures InOrder(Live(kept, cutoff), clock)
  {
    LiveSorted(kept, cutoff);
    var live := Live(kept, cutoff);
    if live != [] {
      assert Last(live) in live && Last(live) in kept;
    }
  }

  lemma LiveFrom(kept: seq<real>, early: real)
    ensures forall cut :: cut >= early ==> Live(Live(kept, early), cut) == Live(kept, cut)
  {
    forall cut | cut >= early ensures Live(Live(kept, early), cut) == Live(kept, cut) {
      LiveLive(kept, early, cut);
    }
  }

  lemma AgreesPruned(kept: seq<real>, full: seq<real>, drop: Drop, now: real, limit: nat)
    requires Agrees(kept, full, drop, now, limit)
    ensures Agrees(Live(kept, now - WINDOW), full, drop, now, limit)
  {
    LiveInOrder(kept, now - WINDOW, now);
    LiveFrom(kept, now - WINDOW);
  }

  lemma InOrderNext(times: seq<real>, now: real)
    requires InOrder(times, now)
    ensures InOrder(times + [now], now)
  {
  }

  lemma SameAccepted(kept: seq<real>, full: seq<real>, horizon: real, cutoff: real, now: real)
    requires SameFrom(kept, full, horizon) && NoMoreFrom(kept, full, cutoff)
    ensures SameFrom(kept + [now], full + [now], horizon) && NoMoreFrom(kept + [now], full + [now], cutoff)
  {
    forall cut
      ensures cut >= horizon ==> Live(kept + [now], cut) == Live(full + [now], cut)
      ensures cut >= cutoff ==> |Live(kept + [now], cut)| <= |Live(full + [now], cut)|
    {
      LiveAppend(kept, [now], cut);
      LiveAppend(full, [now], cut);
    }
  }

  lemma AgreesAccepted(kept: seq<real>, full: seq<real>, drop: Drop, now: real, limit: nat)
    requires Agrees(kept, full, drop, now, limit)
    requires drop.Never? ==> |Live(full, now - WINDOW)| < limit
    ensures Agrees(kept + [now], full + [now], drop, now, limit)
  {
    InOrderNext(kept, now);
    InOrderNext(full, now);
    SameAccepted(kept, full, Horizon(drop, now), now - WINDOW, now);
    if drop.Never? {
      SpacedNext(full, limit, now);
    }
  }

  lemma LaterLive(kept: seq<real>, horizon: real)
    requires Sorted(kept) && (kept == [] || Last(kept) <= horizon)
    ensures forall cut :: cut >= horizon ==> Live(kept, cut) == []
  {
    forall cut | cut >= horizon ensures Live(kept, cut) == [] {
      LiveOfStale(kept, cut);
    }
  }

  /** Forgetting an IP with nothing in the window loses nothing. */
  lemma AgreesStale(kept: seq<real>, full: seq<real>, drop: Drop, now: real, limit: nat)
    requires Agrees(kept, full, drop, now, limit)
    requires kept == [] || Last(kept) < now - WINDOW
    ensures Agrees([], full, drop, now, limit)
  {
    LaterLive(kept, now - WINDOW);
    LaterLive([], now - WINDOW);
    forall cut | cut >= Horizon(drop, now) ensures Live([], cut) == Live(full, cut) {
      assert Live(kept, cut) == [];
    }
  }

  lemma AgreesDropped(kept: seq<real>, full: seq<real>, drop: Drop, now: real, limit: nat)
    requires Agrees(kept, full, drop, now, limit)
    ensures Agrees([], full, At(now), now, limit)
  {
    LaterLive(full, now);
    LaterLive([], now - WINDOW);
  }

  // ------------------------------------------------------------------- the middleware

  /** The key the overflow branch sorts by. */
  function Recency(times: seq<real>): real {
    if times == [] then 0.0 else Last(times)
  }

  predicate IsStale(times: seq<real>, cutoff: real) {
    times == [] || Last(times) < cutoff
  }

  predicate IsOldest(m: map<Ip, seq<real>>, ip: Ip) {
    ip in m && forall other :: other in m ==> Recency(m[ip]) <= Recency(m[other])
  }

  function DropOf(m: map<Ip, real>, ip: Ip): Drop {
    if ip in m then At(m[ip]) else Never
  }

  /** `left` is what remains of `m` when the least recently active IPs are dropped at `clock`. */
  ghost predicate Dropped(m: map<Ip, seq<real>>, left: map<Ip, seq<real>>,
                          drops0: map<Ip, real>, drops: map<Ip, real>, clock: real) {
    && (forall ip :: ip in left ==> ip in m && left[ip] == m[ip])
    && (forall ip, other :: ip in m && ip !in left && other in left ==> Recency(m[ip]) <= Recency(left[other]))
    && (forall ip :: DropOf(drops, ip) == if ip in m && ip !in left then At(clock) else DropOf(drops0, ip))
  }

  /** No IP that has gone was active later than one that is left. */
  ghost predicate LatestKept(before: map<Ip, seq<real>>, left: map<Ip, seq<real>>) {
    forall ip, other :: ip in before && ip !in left && other in left ==>
      before[ip] == [] || (left[other] != [] && Last(before[ip]) <= Last(left[other]))
  }

  lemma DroppedKeepsLatest(before: map<Ip, seq<real>>, left: map<Ip, seq<real>>,
                           drops0: map<Ip, real>, drops: map<Ip, real>, clock: real)
    requires Dropped(Unstale(before, clock - WINDOW), left, drops0, drops, clock)
    ensures LatestKept(before, left)
  {
    var unstale := Unstale(before, clock - WINDOW);
    forall ip, other | ip in before && ip !in left && other in left && before[ip] != []
      ensures left[other] != [] && Last(before[ip]) <= Last(left[other])
    {
      assert other in unstale && left[other] == unstale[other];
      if ip in unstale {
        assert Recency(unstale[ip]) <= Recency(left[other]);
      }
    }
  }

  lemma NoDrops(m: map<Ip, seq<real>>, left: map<Ip, seq<real>>,
                drops0: map<Ip, real>, drops: map<Ip, real>, clock: real)
    requires Dropped(m, left, drops0, drops, clock) && drops == map[]
    ensures drops0 == map[]
  {
    forall ip ensures ip !in drops0 {
      assert DropOf(drops, ip) == Never;
    }
  }

  lemma DropNext(m: map<Ip, seq<real>>, left: map<Ip, seq<real>>,
                 drops0: map<Ip, real>, drops: map<Ip, real>, clock: real, ip: Ip)
    requires Dropped(m, left, drops0, drops, clock) && IsOldest(left, ip)
    ensures Dropped(m, left - {ip}, drops0, drops[ip := clock], clock)
  {
  }

  lemma SizeWithout(m: map<Ip, seq<real>>, ip: Ip)
    requires ip in m
    ensures |m - {ip}| == |m| - 1
  {
    var rest := m - {ip};
    assert rest.Keys == m.Keys - {ip} && |rest| == |rest.Keys| && |m| == |m.Keys|;
  }

  /** The entries of `m` that are not stale. */
  function Unstale(m: map<Ip, seq<real>>, cutoff: real): map<Ip, seq<real>> {
    map ip | ip in m && !IsStale(m[ip], cutoff) :: m[ip]
  }

  lemma UnstaleIsNoLarger(m: map<Ip, seq<real>>, cutoff: real)
    ensures |Unstale(m, cutoff)| <= |m|
  {
    assert m.Keys == Unstale(m, cutoff).Keys + (m.Keys - Unstale(m, cutoff).Keys);
  }

  lemma OldestExists(m: map<Ip, seq<real>>)
    requires m != map[]
    ensures exists ip :: IsOldest(m, ip)
    decreases |m|
  {
    var ip :| ip in m;
    var rest := m - {ip};
    if rest == map[] {
      assert IsOldest(m, ip) by {
        forall other | other in m ensures other == ip {
          assert other !in rest;
        }
      }
    } else {
      assert |rest| < |m|;
      OldestExists(rest);
      var oldest :| IsOldest(rest, oldest);
      assert forall other :: other in m ==> other == ip || other in rest;
      if Recency(m[ip]) <= Recency(m[oldest]) {
        assert IsOldest(m, ip);
      } else {
        assert IsOldest(m, oldest);
      }
    }
  }

  ghost predicate AllAgree(requests: map<Ip, seq<real>>, log: map<Ip, seq<real>>, drops: map<Ip, real>,
                           clock: real, limit: nat) {
    forall ip: Ip {:trigger Agrees(Of(requests, ip), Of(log, ip), DropOf(drops, ip), clock, limit)} ::
      Agrees(Of(requests, ip), Of(log, ip), DropOf(drops, ip), clock, limit)
  }

  /** Changing the entries of one IP only leaves the others to be checked for that one. */
  lemma ReplaceOne(requests: map<Ip, seq<real>>, log: map<Ip, seq<real>>, drops: map<Ip, real>,
                   requests1: map<Ip, seq<real>>, log1: map<Ip, seq<real>>, drops1: map<Ip, real>,
                   clock: real, limit: nat, ip: Ip)
    requires AllAgree(requests, log, drops, clock, limit)
    requires requests1 - {ip} == requests - {ip} && log1 - {ip} == log - {ip} && drops1 - {ip} == drops - {ip}
    requires Agrees(Of(requests1, ip), Of(log1, ip), DropOf(drops1, ip), clock, limit)
    ensures AllAgree(requests1, log1, drops1, clock, limit)
  {
    forall i: Ip ensures Agrees(Of(requests1, i), Of(log1, i), DropOf(drops1, i), clock, limit) {
      if i != ip {
        OtherEntry(requests, requests1, ip, i);
        OtherEntry(log, log1, ip, i);
        OtherEntry(drops, drops1, ip, i);
        assert Agrees(Of(requests, i), Of(log, i), DropOf(drops, i), clock, limit);
      }
    }
  }

  lemma OtherEntry<T>(m: map<Ip, T>, m1: map<Ip, T>, ip: Ip, other: Ip)
    requires m1 - {ip} == m - {ip} && other != ip
    ensures other in m1 <==> other in m
    ensures other in m ==> m1[other] == m[other]
  {
    assert other in m1 - {ip} <==> other in m - {ip};
    assert other in m ==> (m1 - {ip})[other] == (m - {ip})[other];
  }

  lemma ForgetStale(requests: map<Ip, seq<real>>, log: map<Ip, seq<real>>, drops: map<Ip, real>,
                    clock: real, limit: nat, ip: Ip)
    requires AllAgree(requests, log, drops, clock, limit)
    requires ip in requests && IsStale(requests[ip], clock - WINDOW)
    ensures AllAgree(requests - {ip}, log, drops, clock, limit)
  {
    AgreesStale(Of(requests, ip), Of(log, ip), DropOf(drops, ip), clock, limit);
    ReplaceOne(requests, log, drops, requests - {ip}, log, drops, clock, limit, ip);
  }

  lemma DropOne(requests: map<Ip, seq<real>>, log: map<Ip, seq<real>>, drops: map<Ip, real>,
                clock: real, limit: nat, ip: Ip)
    requires AllAgree(requests, log, drops, clock, limit)
    ensures AllAgree(requests - {ip}, log, drops[ip := clock], clock, limit)
  {
    AgreesDropped(Of(requests, ip), Of(log, ip), DropOf(drops, ip), clock, limit);
    ReplaceOne(requests, log, drops, requests - {ip}, log, drops[ip := clock], clock, limit, ip);
  }

  lemma PruneOne(requests: map<Ip, seq<real>>, log: map<Ip, seq<real>>, drops: map<Ip, real>,
                 clock: real, limit: nat, ip: Ip)
    requires AllAgree(requests, log, drops, clock, limit)
    ensures AllAgree(requests[ip := Live(Of(requests, ip), clock - WINDOW)], log, drops, clock, limit)
  {
    var pruned := requests[ip := Live(Of(requests, ip), clock - WINDOW)];
    AgreesPruned(Of(requests, ip), Of(log, ip), DropOf(drops, ip), clock, limit);
    ReplaceOne(requests, log, drops, pruned, log, drops, clock, limit, ip);
  }

  lemma AcceptOne(requests: map<Ip, seq<real>>, log: map<Ip, seq<real>>, drops: map<Ip, real>,
                  clock: real, limit: nat, ip: Ip)
    requires AllAgree(requests, log, drops, clock, limit)
    requires ip !in drops ==> |Live(Of(log, ip), clock - WINDOW)| < limit
    ensures AllAgree(requests[ip := Of(requests, ip) + [clock]], log[ip := Of(log, ip) + [clock]], drops, clock, limit)
  {
    var requests1, log1 := requests[ip := Of(requests, ip) + [clock]], log[ip := Of(log, ip) + [clock]];
    AgreesAccepted(Of(requests, ip), Of(log, ip), DropOf(drops, ip), clock, limit);
    ReplaceOne(requests, log, drops, requests1, log1, drops, clock, limit, ip);
  }

  method Oldest(m: map<Ip, seq<real>>) returns (ip: Ip)
    requires m != map[]
    ensures IsOldest(m, ip)
  {
    OldestExists(m);
    ip :| ip in m && IsOldest(m, ip);
  }

  lemma AllAgreeLater(requests: map<Ip, seq<real>>, log: map<Ip, seq<real>>, drops: map<Ip, real>,
                      clock: real, now: real, limit: nat)
    requires AllAgree(requests, log, drops, clock, limit) && clock <= now
    ensures AllAgree(requests, log, drops, now, limit)
  {
    forall i: Ip ensures Agrees(Of(requests, i), Of(log, i), DropOf(drops, i), now, limit) {
      assert Agrees(Of(requests, i), Of(log, i), DropOf(drops, i), clock, limit);
    }
  }

  /** The decision taken on the kept times, in terms of the log. */
  lemma Decision(requests: map<Ip, seq<real>>, log: map<Ip, seq<real>>, drops: map<Ip, real>,
                 clock: real, limit: nat, ip: Ip)
    requires AllAgree(requests, log, drops, clock, limit)
    ensures var cut := clock - WINDOW;
      && |Live(Of(requests, ip), cut)| <= |Live(Of(log, ip), cut)|
      && (!RecentlyDropped(DropOf(drops, ip), clock) ==> Live(Of(requests, ip), cut) == Live(Of(log, ip), cut))
  {
    assert Agrees(Of(requests, ip), Of(log, ip), DropOf(drops, ip), clock, limit);
  }

  lemma NeverDropped(requests: map<Ip, seq<real>>, log: map<Ip, seq<real>>, drops: map<Ip, real>,
                     clock: real, limit: nat)
    requires AllAgree(requests, log, drops, clock, limit) && drops == map[]
    ensures forall ip :: Spaced(Of(log, ip), limit)
  {
    forall ip ensures Spaced(Of(log, ip), limit) {
      assert Agrees(Of(requests, ip), Of(log, ip), DropOf(drops, ip), clock, limit);
    }
  }

  datatype Request = Request(ip: Ip, time: real)

  /** The answers of a limiter that counts in a complete log, starting from `log`. */
  function Answers(log: map<Ip, seq<real>>, requests: seq<Request>, limit: nat): seq<bool>
    decreases |requests|
  {
    if requests == [] then []
    else
      var Request(ip, now) := requests[0];
      var accepted := |Live(Of(log, ip), now - WINDOW)| < limit;
      [accepted] + Answers(if accepted then log[ip := Of(log, ip) + [now]] else log, requests[1..], limit)
  }

  predicate InTimeOrder(requests: seq<Request>, clock: real) {
    && (forall i :: 0 <= i < |requests| ==> clock <= requests[i].time)
    && (forall i, j :: 0 <= i < j < |requests| ==> requests[i].time <= requests[j].time)
  }

  lemma AnswersNext(answers: seq<bool>, log: map<Ip, seq<real>>, run: seq<Request>, limit: nat, accepted: bool,
                    log1: map<Ip, seq<real>>)
    requires run != []
    requires var Request(ip, now) := run[0];
      && (accepted <==> |Live(Of(log, ip), now - WINDOW)| < limit)
      && log1 == if accepted then log[ip := Of(log, ip) + [now]] else log
    ensures answers + Answers(log, run, limit) == (answers + [accepted]) + Answers(log1, run[1..], limit)
  {
  }

  /** One request of a run that has dropped nothing so far. */
  lemma OverflowsNext(log: map<Ip, seq<real>>, lastCleanup: real, run: seq<Request>, limit: nat, accepted: bool,
                      drops: map<Ip, real>, log1: map<Ip, seq<real>>, lastCleanup1: real)
    requires run != []
    requires var Request(ip, now) := run[0];
      && lastCleanup1 == (if now - lastCleanup > WINDOW then now else lastCleanup)
      && (drops == map[] <==> now - lastCleanup <= WINDOW || |Active(log, now - WINDOW)| <= MAX_IPS)
      && (drops == map[] ==> (accepted <==> |Live(Of(log, ip), now - WINDOW)| < limit))
      && log1 == if accepted then log[ip := Of(log, ip) + [now]] else log
    ensures Overflows(log, lastCleanup, run, limit) <==> drops != map[] || Overflows(log1, lastCleanup1, run[1..], limit)
  {
  }

  /** The addresses a run comes from. */
  function Ips(run: seq<Request>): set<Ip> {
    set r | r in run :: r.ip
  }

  lemma IpsNext(run: seq<Request>)
    requires run != []
    ensures Ips(run) == {run[0].ip} + Ips(run[1..])
  {
    assert run == [run[0]] + run[1..];
  }

  /** What deciding on a request of `ip` leaves of the times kept, and whether it is accepted. */
  function Decided(requests: map<Ip, seq<real>>, ip: Ip, now: real, limit: nat): (map<Ip, seq<real>>, bool) {
    var live := Live(Of(requests, ip), now - WINDOW);
    if |live| < limit then (requests[ip := live + [now]], true) else (requests[ip := live], false)
  }

  lemma DecidedKeys(requests: map<Ip, seq<real>>, ip: Ip, now: real, limit: nat)
    ensures var after := Decided(requests, ip, now, limit).0;
      after.Keys == requests.Keys + {ip} && |after.Keys - {ip}| <= |requests|
    ensures !Decided(requests, ip, now, limit).1 && limit > 0 ==> |Decided(requests, ip, now, limit).0.Keys| <= |requests|
  {
    var after := Decided(requests, ip, now, limit).0;
    assert |requests.Keys| == |requests|;
    assert after.Keys == requests.Keys + {ip};
    assert ip in requests ==> after.Keys == requests.Keys;
    SmallerSet(after.Keys - {ip}, requests.Keys);
  }

  /** What a cleanup may leave: the stale ones go, then the least recently active down to the limit of addresses. */
  ghost predicate Cleaned(requests: map<Ip, seq<real>>, left: map<Ip, seq<real>>,
                          drops0: map<Ip, real>, drops: map<Ip, real>, now: real) {
    var unstale := Unstale(requests, now - WINDOW);
    && Dropped(unstale, left, drops0, drops, now)
    && |left| == (if |unstale| <= MAX_IPS then |unstale| else MAX_IPS)
    && (|unstale| <= MAX_IPS ==> drops == drops0)
  }

  /** A cleanup drops an address exactly when more than MAX_IPS of them are not stale. */
  lemma CleanedDrops(requests: map<Ip, seq<real>>, left: map<Ip, seq<real>>, drops: map<Ip, real>, now: real)
    requires Cleaned(requests, left, map[], drops, now)
    ensures drops == map[] <==> |Unstale(requests, now - WINDOW)| <= MAX_IPS
  {
    var unstale := Unstale(requests, now - WINDOW);
    assert |unstale.Keys| == |unstale| && |left.Keys| == |left|;
    if unstale.Keys <= left.Keys {
      SmallerSet(unstale.Keys, left.Keys);
    } else {
      var ip :| ip in unstale && ip !in left;
      assert DropOf(drops, ip) == At(now);
    }
  }

  /** The addresses whose last accepted request is not older than `cutoff`. */
  function Active(log: map<Ip, seq<real>>, cutoff: real): set<Ip> {
    set ip | ip in log && !IsStale(log[ip], cutoff)
  }

  lemma LiveLast(times: seq<real>, early: real, cutoff: real)
    requires Sorted(times) && early < cutoff
    ensures IsStale(times, cutoff) <==> IsStale(Live(times, early), cutoff)
  {
    LiveSorted(times, early);
    var live := Live(times, early);
    if times != [] && Last(times) >= cutoff {
      assert Last(times) in times && Last(times) in live;
      var i :| 0 <= i < |live| && live[i] == Last(times);
    }
    if live != [] {
      assert Last(live) in live && Last(live) in times;
    }
  }

  lemma ActiveAgrees(kept: seq<real>, full: seq<real>, clock: real, limit: nat, cutoff: real)
    requires Agrees(kept, full, Never, clock, limit) && clock - WINDOW < cutoff
    ensures IsStale(kept, cutoff) <==> IsStale(full, cutoff)
  {
    LiveLast(kept, clock - WINDOW, cutoff);
    LiveLast(full, clock - WINDOW, cutoff);
  }

  /** While nothing was dropped, as many addresses are active going by the kept times as going by the log. */
  lemma ActiveAgree(requests: map<Ip, seq<real>>, log: map<Ip, seq<real>>, drops: map<Ip, real>, clock: real, limit: nat,
                    cutoff: real)
    requires AllAgree(requests, log, drops, clock, limit) && drops == map[] && clock - WINDOW < cutoff
    ensures |Unstale(requests, cutoff)| == |Active(log, cutoff)|
  {
    forall ip ensures IsStale(Of(requests, ip), cutoff) <==> IsStale(Of(log, ip), cutoff) {
      assert Agrees(Of(requests, ip), Of(log, ip), DropOf(drops, ip), clock, limit);
      ActiveAgrees(Of(requests, ip), Of(log, ip), clock, limit, cutoff);
    }
    SameActive(requests, log, cutoff);
  }

  lemma SameActive(requests: map<Ip, seq<real>>, log: map<Ip, seq<real>>, cutoff: real)
    requires forall ip :: IsStale(Of(requests, ip), cutoff) <==> IsStale(Of(log, ip), cutoff)
    ensures |Unstale(requests, cutoff)| == |Active(log, cutoff)|
  {
    var unstale := Unstale(requests, cutoff);
    assert |unstale.Keys| == |unstale|;
    assert unstale.Keys == Active(log, cutoff) by {
      assert forall ip :: ip in unstale.Keys <==> !IsStale(Of(requests, ip), cutoff);
      assert forall ip :: ip in Active(log, cutoff) <==> !IsStale(Of(log, ip), cutoff);
    }
  }

  /** The same, put in terms of whether a cleanup is due. */
  lemma SameCrowd(requests: map<Ip, seq<real>>, log: map<Ip, seq<real>>, drops: map<Ip, real>, clock: real, limit: nat,
                  lastCleanup: real, now: real)
    requires AllAgree(requests, log, drops, clock, limit) && clock - lastCleanup <= WINDOW
    ensures drops == map[] && now - lastCleanup > WINDOW ==>
      |Unstale(requests, now - WINDOW)| == |Active(log, now - WINDOW)|
  {
    if drops == map[] && now - lastCleanup > WINDOW {
      ActiveAgree(requests, log, drops, clock, limit, now - WINDOW);
    }
  }

  /** At some cleanup of the run more than MAX_IPS addresses are active, going by the complete log. */
  predicate Overflows(log: map<Ip, seq<real>>, lastCleanup: real, run: seq<Request>, limit: nat)
    decreases |run|
  {
    run != [] &&
    var Request(ip, now) := run[0];
    var due := now - lastCleanup > WINDOW;
    var accepted := |Live(Of(log, ip), now - WINDOW)| < limit;
    (due && |Active(log, now - WINDOW)| > MAX_IPS)
    || Overflows(if accepted then log[ip := Of(log, ip) + [now]] else log, if due then now else lastCleanup, run[1..], limit)
  }

  lemma CleanedFacts(requests: map<Ip, seq<real>>, left: map<Ip, seq<real>>,
                     drops0: map<Ip, real>, drops: map<Ip, real>, now: real)
    requires Dropped(Unstale(requests, now - WINDOW), left, drops0, drops, now)
    requires var n := |Unstale(requests, now - WINDOW)|;
      |left| == (if n <= MAX_IPS then n else MAX_IPS) && (n <= MAX_IPS ==> drops == drops0)
    ensures Cleaned(requests, left, drops0, drops, now) && LatestKept(requests, left)
    ensures left.Keys <= requests.Keys && (|requests| <= MAX_IPS ==> drops == drops0)
    ensures drops == map[] ==> drops0 == map[]
    ensures drops0 == map[] ==> (drops == map[] <==> |Unstale(requests, now - WINDOW)| <= MAX_IPS)
  {
    assert Cleaned(requests, left, drops0, drops, now);
    DroppedKeepsLatest(requests, left, drops0, drops, now);
    CleanedKeys(requests, left, drops0, drops, now);
    if drops0 == map[] {
      CleanedDrops(requests, left, drops, now);
    }
    if drops == map[] {
      NoDrops(Unstale(requests, now - WINDOW), left, drops0, drops, now);
    }
  }

  lemma KnownAreEnough(requests: map<Ip, seq<real>>, known: set<Ip>)
    requires requests.Keys <= known
    ensures |requests| <= |known|
  {
    SmallerSet(requests.Keys, known);
    assert |requests.Keys| == |requests|;
  }

  lemma CleanedKeys(requests: map<Ip, seq<real>>, left: map<Ip, seq<real>>,
                    drops0: map<Ip, real>, drops: map<Ip, real>, now: real)
    requires Cleaned(requests, left, drops0, drops, now)
    ensures left.Keys <= requests.Keys && (|requests| <= MAX_IPS ==> drops == drops0)
  {
    UnstaleIsNoLarger(requests, now - WINDOW);
  }

  class RateLimitMiddleware {
    const limit: nat
    var requests: map<Ip, seq<real>>
    var lastCleanup: real
    /** Every accepted request since the start, never pruned. */
    ghost var log: map<Ip, seq<real>>
    ghost var droppedAt: map<Ip, real>
    ghost var clock: real

    ghost predicate Valid()
      reads this
    {
      AllAgree(requests, log, droppedAt, clock, limit)
    }

    /** No cleanup is overdue. */
    ghost predicate Tidy()
      reads this
    {
      clock - lastCleanup <= WINDOW
    }

    constructor (requestsPerMinute: nat, now: real)
      ensures Valid() && Tidy() && limit == requestsPerMinute
      ensures requests == map[] && lastCleanup == now && log == map[] && droppedAt == map[] && clock == now
    {
      limit := requestsPerMinute;
      requests, lastCleanup := map[], now;
      log, droppedAt, clock := map[], map[], now;
    }

    /**
     * Decides on a request of `ip`, and logs it when accepted. Unless the overflow branch dropped the IP
     * within the last window, the decision is the one the full log gives; and a rejection always is.
     */
    method Dispatch(ip: Ip, now: real) returns (accepted: bool)
      requires Valid() && clock <= now
      modifies this
      ensures Valid() && Tidy() && clock == now
      ensures var full := Live(Of(old(log), ip), now - WINDOW);
        && (!RecentlyDropped(DropOf(droppedAt, ip), now) ==> (accepted <==> |full| < limit))
        && (!accepted ==> |full| >= limit)
      ensures !accepted ==> EndsAfter(Of(old(log), ip), limit, now - 60.0)
      ensures log == if accepted then old(log)[ip := Of(old(log), ip) + [now]] else old(log)
      ensures now - old(lastCleanup) <= WINDOW ==>
        (requests, accepted) == Decided(old(requests), ip, now, limit) && droppedAt == old(droppedAt)
      ensures now - old(lastCleanup) > WINDOW ==> |requests.Keys - {ip}| <= MAX_IPS
      ensures now - old(lastCleanup) > WINDOW && !accepted && limit > 0 ==> |requests.Keys| <= MAX_IPS
      ensures lastCleanup == if now - old(lastCleanup) > WINDOW then now else old(lastCleanup)
      ensures requests.Keys <= old(requests).Keys + {ip}
      ensures old(droppedAt) == map[] ==> (droppedAt == map[] <==>
        now - old(lastCleanup) <= WINDOW || |Unstale(old(requests), now - WINDOW)| <= MAX_IPS)
      ensures |old(requests)| <= MAX_IPS ==> droppedAt == old(droppedAt)
      ensures droppedAt == map[] ==> old(droppedAt) == map[]
    {
      AllAgreeLater(requests, log, droppedAt, clock, now, limit);
      clock := now;
      CleanUpIfDue(now);
      DecidedKeys(requests, ip, now, limit);
      assert Agrees(Of(requests, ip), Of(log, ip), DropOf(droppedAt, ip), now, limit);
      LiveAtTheEnd(Of(log, ip), now - WINDOW, limit);
      accepted := Decide(ip, now);
    }

    method CleanUpIfDue(now: real)
      requires Valid() && clock == now
      modifies this`requests, this`droppedAt, this`lastCleanup
      ensures Valid() && requests.Keys <= old(requests).Keys
      ensures lastCleanup == if now - old(lastCleanup) > WINDOW then now else old(lastCleanup)
      ensures now - old(lastCleanup) > WINDOW ==> |requests| <= MAX_IPS
      ensures now - old(lastCleanup) <= WINDOW ==> requests == old(requests) && droppedAt == old(droppedAt)
      ensures old(droppedAt) == map[] ==> (droppedAt == map[] <==>
        now - old(lastCleanup) <= WINDOW || |Unstale(old(requests), now - WINDOW)| <= MAX_IPS)
      ensures |old(requests)| <= MAX_IPS ==> droppedAt == old(droppedAt)
      ensures droppedAt == map[] ==> old(droppedAt) == map[]
    {
      if now - lastCleanup > WINDOW {
        Cleanup(now - WINDOW);
        lastCleanup := now;
      }
    }

    method Decide(ip: Ip, now: real) returns (accepted: bool)
      requires Valid() && clock == now
      modifies this`requests, this`log
      ensures Valid()
      ensures var full := Live(Of(old(log), ip), now - WINDOW);
        && (!RecentlyDropped(DropOf(droppedAt, ip), now) ==> (accepted <==> |full| < limit))
        && (!accepted ==> |full| >= limit)
      ensures log == if accepted then old(log)[ip := Of(old(log), ip) + [now]] else old(log)
      ensures (requests, accepted) == Decided(old(requests), ip, now, limit)
    {
      PruneOne(requests, log, droppedAt, now, limit, ip);
      Decision(requests, log, droppedAt, now, limit, ip);
      requests := requests[ip := Live(Of(requests, ip), now - WINDOW)];
      accepted := |requests[ip]| < limit;
      if accepted {
        AcceptOne(requests, log, droppedAt, now, limit, ip);
        requests := requests[ip := requests[ip] + [now]];
        assert requests == old(requests)[ip := Live(Of(old(requests), ip), now - WINDOW) + [now]];
        log := log[ip := Of(log, ip) + [now]];
      }
    }

    /**
     * A whole run: as long as no IP is dropped for overflow, the answers are those of the full log and what is
     * accepted is spaced. One is dropped exactly if at some cleanup too many are active, going by the full log; so
     * none is while the addresses known and those of the run are few enough together.
     */
    method Serve(run: seq<Request>) returns (answers: seq<bool>)
      requires Valid() && Tidy() && InTimeOrder(run, clock)
      modifies this
      ensures Valid() && Tidy()
      ensures droppedAt == map[] ==> answers == Answers(old(log), run, limit)
      ensures droppedAt == map[] ==> forall ip :: Spaced(Of(log, ip), limit)
      ensures old(droppedAt) == map[] ==> (droppedAt == map[] <==> !Overflows(old(log), old(lastCleanup), run, limit))
      ensures |old(requests).Keys + Ips(run)| <= 10000 ==> droppedAt == old(droppedAt)
    {
      answers := [];
      var rest := run;
      ghost var known := requests.Keys + Ips(run);
      while rest != []
        invariant Valid() && Tidy() && InTimeOrder(rest, clock)
        invariant droppedAt == map[] ==> answers + Answers(log, rest, limit) == Answers(old(log), run, limit)
        invariant requests.Keys <= known && Ips(rest) <= known && (|known| <= MAX_IPS ==> droppedAt == old(droppedAt))
        invariant old(droppedAt) == map[] ==> (Overflows(old(log), old(lastCleanup), run, limit)
          <==> droppedAt != map[] || Overflows(log, lastCleanup, rest, limit))
        decreases |rest|
      {
        IpsNext(rest);
        ghost var log0, lastCleanup0, dropped0 := log, lastCleanup, droppedAt;
        var accepted := Next(rest[0], known);
        if droppedAt == map[] {
          AnswersNext(answers, log0, rest, limit, accepted, log);
        }
        if dropped0 == map[] {
          OverflowsNext(log0, lastCleanup0, rest, limit, accepted, droppedAt, log, lastCleanup);
        }
        answers, rest := answers + [accepted], rest[1..];
      }
      if droppedAt == map[] {
        NeverDropped(requests, log, droppedAt, clock, limit);
      }
    }

    /** One request of a run, as far as the log and the addresses known are concerned. */
    method Next(request: Request, ghost known: set<Ip>) returns (accepted: bool)
      requires Valid() && Tidy() && clock <= request.time && requests.Keys + {request.ip} <= known
      modifies this
      ensures Valid() && Tidy() && clock == request.time && requests.Keys <= known
      ensures droppedAt == map[] ==> old(droppedAt) == map[]
      ensures |known| <= MAX_IPS ==> droppedAt == old(droppedAt)
      ensures var full := Live(Of(old(log), request.ip), request.time - WINDOW);
        droppedAt == map[] ==> (accepted <==> |full| < limit)
      ensures log == if accepted then old(log)[request.ip := Of(old(log), request.ip) + [request.time]] else old(log)
      ensures lastCleanup == if request.time - old(lastCleanup) > WINDOW then request.time else old(lastCleanup)
      ensures old(droppedAt) == map[] ==> (droppedAt == map[] <==>
        request.time - old(lastCleanup) <= WINDOW || |Active(old(log), request.time - WINDOW)| <= MAX_IPS)
    {
      KnownAreEnough(requests, known);
      SameCrowd(requests, log, droppedAt, clock, limit, lastCleanup, request.time);
      accepted := Dispatch(request.ip, request.time);
    }

    /** Forgets the stale IPs, then the least recently active ones while more than MAX_IPS are left. */
    method Cleanup(cutoff: real)
      requires Valid() && cutoff == clock - WINDOW
      modifies this`requests, this`droppedAt
      ensures Valid() && Cleaned(old(requests), requests, old(droppedAt), droppedAt, clock)
      ensures requests.Keys <= old(requests).Keys
      ensures |old(requests)| <= MAX_IPS ==> droppedAt == old(droppedAt)
      ensures droppedAt == map[] ==> old(droppedAt) == map[]
      ensures old(droppedAt) == map[] ==> (droppedAt == map[] <==> |Unstale(old(requests), cutoff)| <= MAX_IPS)
      ensures LatestKept(old(requests), requests)
    {
      ForgetStaleIps(cutoff);
      DropOverflow();
      CleanedFacts(old(requests), requests, old(droppedAt), droppedAt, clock);
    }

    method ForgetStaleIps(cutoff: real)
      requires Valid() && cutoff == clock - WINDOW
      modifies this`requests
      ensures Valid()
      ensures requests == Unstale(old(requests), cutoff)
    {
      var emptyKeys := set ip | ip in requests && IsStale(requests[ip], cutoff);
      while emptyKeys != {}
        invariant Valid() && emptyKeys <= requests.Keys
        invariant forall ip :: ip in requests <==> ip in old(requests) && (IsStale(old(requests)[ip], cutoff) ==> ip in emptyKeys)
        invariant forall ip :: ip in requests ==> requests[ip] == old(requests)[ip]
        invariant forall ip :: ip in emptyKeys ==> IsStale(requests[ip], cutoff)
        decreases |emptyKeys|
      {
        var ip :| ip in emptyKeys;
        ForgetStale(requests, log, droppedAt, clock, limit, ip);
        requests := requests - {ip};
        emptyKeys := emptyKeys - {ip};
      }
    }

    method DropOverflow()
      requires Valid()
      modifies this`requests, this`droppedAt
      ensures Valid()
      ensures Dropped(old(requests), requests, old(droppedAt), droppedAt, clock)
      ensures |requests| == if |old(requests)| <= MAX_IPS then |old(requests)| else MAX_IPS
      ensures |old(requests)| <= MAX_IPS ==> requests == old(requests) && droppedAt == old(droppedAt)
    {
      while |requests| > MAX_IPS
        invariant Valid() && Dropped(old(requests), requests, old(droppedAt), droppedAt, clock)
        invariant MAX_IPS <= |requests| || |requests| == |old(requests)|
        invariant |old(requests)| <= MAX_IPS ==> requests == old(requests) && droppedAt == old(droppedAt)
        invariant |requests| <= |old(requests)|
        decreases |requests|
      {
        var ip := Oldest(requests);
        DropOne(requests, log, droppedAt, clock, limit, ip);
        DropNext(old(requests), requests, old(droppedAt), droppedAt, clock, ip);
        SizeWithout(requests, ip);
        requests := requests - {ip};
        droppedAt := droppedAt[ip := clock];
      }
    }
  }

  // --------------------------------------------------------------- what overflow can do

  predicate Distinct(ips: seq<Ip>) {
    forall i, j :: 0 <= i < j < |ips| ==> ips[i] != ips[j]
  }

  /** So many requests, all at 30 seconds. */
  function Copies(n: nat): seq<real> {
    seq(n, i => 30.0)
  }

  /** The first `i` addresses have made `limit` requests each, and the next one `j` of them. */
  function Crowd(ips: seq<Ip>, limit: nat, i: nat, j: nat): map<Ip, seq<real>>
    requires i <= |ips| && (j > 0 ==> i < |ips|)
  {
    var full := map ip | ip in ips[..i] :: Copies(limit);
    if j == 0 then full else full[ips[i] := Copies(j)]
  }

  lemma CopiesNext(n: nat)
    ensures Copies(n) + [30.0] == Copies(n + 1)
  {
  }

  lemma CopiesLive(n: nat, cutoff: real)
    requires cutoff < 30.0
    ensures Live(Copies(n), cutoff) == Copies(n)
  {
    LiveOfLive(Copies(n), cutoff);
  }

  lemma NotYetIn(ips: seq<Ip>, i: nat)
    requires Distinct(ips) && i < |ips|
    ensures ips[i] !in ips[..i] && ips[..i + 1] == ips[..i] + [ips[i]]
  {
  }

  /** One more request of the next address, before any cleanup. */
  lemma CrowdNext(ips: seq<Ip>, limit: nat, i: nat, j: nat)
    requires Distinct(ips) && i < |ips| && j < limit
    ensures Of(Crowd(ips, limit, i, j), ips[i]) == Copies(j)
    ensures Crowd(ips, limit, i, j)[ips[i] := Copies(j + 1)] == Crowd(ips, limit, i, j + 1)
    ensures Decided(Crowd(ips, limit, i, j), ips[i], 30.0, limit) == (Crowd(ips, limit, i, j + 1), true)
  {
    NotYetIn(ips, i);
    CopiesLive(j, 30.0 - WINDOW);
    CopiesNext(j);
  }

  lemma CrowdFull(ips: seq<Ip>, limit: nat, i: nat)
    requires Distinct(ips) && i < |ips| && limit > 0
    ensures Crowd(ips, limit, i, limit) == Crowd(ips, limit, i + 1, 0)
  {
    NotYetIn(ips, i);
  }

  /** At 30 seconds each address uses up its limit; all of it is accepted and kept. */
  method AllAtOnce(ips: seq<Ip>, limit: nat) returns (m: RateLimitMiddleware)
    requires Distinct(ips) && limit > 0
    ensures fresh(m) && m.Valid() && m.limit == limit && m.lastCleanup == 0.0 && m.clock <= 30.0
    ensures m.log == Crowd(ips, limit, |ips|, 0)
  {
    m := new RateLimitMiddleware(limit, 0.0);
    for i := 0 to |ips|
      invariant fresh(m) && m.Valid() && m.limit == limit && m.lastCleanup == 0.0 && m.clock <= 30.0
      invariant m.requests == m.log == Crowd(ips, limit, i, 0)
    {
      for j := 0 to limit
        invariant fresh(m) && m.Valid() && m.limit == limit && m.lastCleanup == 0.0 && m.clock <= 30.0
        invariant m.requests == m.log == Crowd(ips, limit, i, j)
      {
        CrowdNext(ips, limit, i, j);
        CopiesNext(j);
        var accepted := m.Dispatch(ips[i], 30.0);
      }
      CrowdFull(ips, limit, i);
    }
  }

  lemma {:induction false} AsManyAs(ips: seq<Ip>)
    requires Distinct(ips)
    ensures |set ip | ip in ips| == |ips|
  {
    if ips != [] {
      var n := |ips| - 1;
      AsManyAs(ips[..n]);
      assert (set ip | ip in ips) == (set ip | ip in ips[..n]) + {ips[n]};
    }
  }

  lemma SomeoneIsGone(ips: seq<Ip>, kept: set<Ip>)
    requires Distinct(ips) && |kept| < |ips|
    ensures exists ip :: ip in ips && ip !in kept
  {
    AsManyAs(ips);
    if (set ip | ip in ips) <= kept {
      SmallerSet((set ip | ip in ips), kept);
    }
  }

  lemma TooClose(limit: nat, time: real)
    requires limit > 0 && time - 30.0 < WINDOW
    ensures !Spaced(Copies(limit) + [time], limit)
  {
    var times := Copies(limit) + [time];
    assert times[limit] - times[0] < WINDOW;
  }

  /**
   * One address more than MAX_IPS, whatever the limit: when each has used up its own, a cleanup drops one of them, and it
   * is let in once more within 32 seconds.
   */
  method OverflowReadmits(ips: seq<Ip>, limit: nat) returns (m: RateLimitMiddleware, ip: Ip)
    requires Distinct(ips) && |ips| == 10001 && limit > 0
    ensures m.limit == limit && m.log.Keys == set ip | ip in ips
    ensures ip in ips && Of(m.log, ip) in {Copies(limit) + [61.0], Copies(limit) + [62.0]}
    ensures !Spaced(Of(m.log, ip), limit)
  {
    m := AllAtOnce(ips, limit);
    ip := ips[0];
    TooClose(limit, 61.0);
    TooClose(limit, 62.0);
    assert ips[..|ips|] == ips;
    var accepted := m.Dispatch(ip, 61.0);
    if !accepted {
      SomeoneIsGone(ips, m.requests.Keys);
      ip :| ip in ips && ip !in m.requests;
      accepted := m.Dispatch(ip, 62.0);
    }
  }
}
