/**
 * The two rate limiters: `RateLimiter.allow`, which edits a source's list in place, and `_rate_ok` of the actuator
 * controller, which rebuilds it.
 */
module RateLimit {
  const RATE_LIMIT_CMDS_PER_S: nat := 5

  // The timestamps that are less than a second old.
  function Recent(ts: seq<real>, now: real): (r: seq<real>)
    ensures |r| <= |ts|
  {
    if ts == [] then []
    else
      var before, t := Recent(ts[..|ts| - 1], now), ts[|ts| - 1];
      if now - t < 1.0 then before + [t] else before
  }

  function ListOf(table: map<string, seq<real>>, src: string): seq<real> {
    if src in table then table[src] else []
  }

  // One decision on a source's list.
  predicate Allows(ts: seq<real>, now: real, limit: nat) {
    |Recent(ts, now)| < limit
  }

  function AfterCall(ts: seq<real>, now: real, limit: nat): seq<real> {
    if Allows(ts, now, limit) then Recent(ts, now) + [now] else Recent(ts, now)
  }

  lemma RecentSnoc(ts: seq<real>, t: real, now: real)
    ensures Recent(ts + [t], now) == if now - t < 1.0 then Recent(ts, now) + [t] else Recent(ts, now)
  {
    assert (ts + [t])[..|ts|] == ts;
  }

  lemma RecentNone(now: real)
    ensures Recent([], now) == []
  {
  }

  class RateLimiter {
    const limit: nat
    var hist: map<string, seq<real>>

    constructor (limit: nat)
      ensures this.limit == limit && hist == map[]
    {
      this.limit, hist := limit, map[];
    }

    method Allow(src: string, now: real) returns (ok: bool)
      modifies this
      ensures ok <==> Allows(ListOf(old(hist), src), now, limit)
      ensures hist == old(hist)[src := AfterCall(ListOf(old(hist), src), now, limit)]
    {
      hide Recent;
      RecentNone(now);
      if src !in hist {
        hist := hist[src := []];
      }
      var ts := hist[src];
      var kept := [];
      for i := 0 to |ts|
        modifies {}
        invariant kept == Recent(ts[..i], now)
      {
        RecentSnoc(ts[..i], ts[i], now);
        assert ts[..i + 1] == ts[..i] + [ts[i]];
        if now - ts[i] < 1.0 {
          kept := kept + [ts[i]];
        }
      }
      assert ts[..|ts|] == ts;
      hist := hist[src := kept];
      assert hist == old(hist)[src := kept] && kept == Recent(ListOf(old(hist), src), now);
      if |kept| >= limit {
        return false;
      }
      hist := hist[src := kept + [now]];
      assert hist == old(hist)[src := kept + [now]];
      return true;
    }
  }

  class ActuatorController {
    var rateTable: map<string, seq<real>>

    constructor ()
      ensures rateTable == map[]
    {
      rateTable := map[];
    }

    method RateOk(clientKey: string, now: real) returns (ok: bool)
      modifies this
      ensures ok <==> Allows(ListOf(old(rateTable), clientKey), now, 5)
      ensures rateTable == old(rateTable)[clientKey := AfterCall(ListOf(old(rateTable), clientKey), now, 5)]
    {
      hide Recent;
      RecentNone(now);
      var ts := if clientKey in rateTable then rateTable[clientKey] else [];
      var kept, i := [], 0;
      while i < |ts|
        modifies {}
        invariant 0 <= i <= |ts| && kept == Recent(ts[..i], now)
      {
        RecentSnoc(ts[..i], ts[i], now);
        assert ts[..i + 1] == ts[..i] + [ts[i]];
        if now - ts[i] < 1.0 {
          kept := kept + [ts[i]];
        }
        i := i + 1;
      }
      assert ts[..|ts|] == ts;
      rateTable := rateTable[clientKey := kept];
      assert kept == Recent(ListOf(old(rateTable), clientKey), now);
      if |kept| >= RATE_LIMIT_CMDS_PER_S {
        return false;
      }
      rateTable := rateTable[clientKey := kept + [now]];
      assert rateTable == old(rateTable)[clientKey := kept + [now]];
      return true;
    }
  }

  // ---- Call sequences ----

  datatype Call = Call(src: string, now: real)

  // The whole table after these calls.
  function Table(calls: seq<Call>, limit: nat): map<string, seq<real>> {
    if calls == [] then map[]
    else
      var before, c := Table(calls[..|calls| - 1], limit), calls[|calls| - 1];
      before[c.src := AfterCall(ListOf(before, c.src), c.now, limit)]
  }

  // The clock readings of one source's calls.
  function TimesOf(calls: seq<Call>, src: string): seq<real> {
    if calls == [] then []
    else
      var before, c := TimesOf(calls[..|calls| - 1], src), calls[|calls| - 1];
      if c.src == src then before + [c.now] else before
  }

  // One source's list after its calls at these times.
  function Kept(times: seq<real>, limit: nat): seq<real> {
    if times == [] then [] else AfterCall(Kept(times[..|times| - 1], limit), times[|times| - 1], limit)
  }

  // The full log of accepted calls, nothing pruned. What it decides is the limiter's intent: fewer than `limit`
  // accepted calls in the second before.
  function AcceptLog(times: seq<real>, limit: nat): seq<real> {
    if times == [] then []
    else
      var log, now := AcceptLog(times[..|times| - 1], limit), times[|times| - 1];
      if |Recent(log, now)| < limit then log + [now] else log
  }

  predicate NonDecreasing(times: seq<real>) {
    forall i, j :: 0 <= i <= j < |times| ==> times[i] <= times[j]
  }

  lemma PrefixIsNonDecreasing(times: seq<real>)
    requires NonDecreasing(times) && times != []
    ensures var before := times[..|times| - 1];
      NonDecreasing(before) && (before != [] ==> before[|before| - 1] <= times[|times| - 1])
  {
    if |times| > 1 {
      assert times[|times| - 2] <= times[|times| - 1];
    }
  }

  // No source's calls affect another's list.
  lemma {:induction false} SourcesAreIndependent(calls: seq<Call>, src: string, limit: nat)
    ensures ListOf(Table(calls, limit), src) == Kept(TimesOf(calls, src), limit)
  {
    if calls != [] {
      var before, c := calls[..|calls| - 1], calls[|calls| - 1];
      SourcesAreIndependent(before, src, limit);
      assert (TimesOf(before, src) + [c.now])[..|TimesOf(before, src)|] == TimesOf(before, src);
    }
  }

  // Pruning at one time and then at a later one is pruning at the later one.
  lemma {:induction false} RecentTwice(ts: seq<real>, early: real, late: real)
    requires early <= late
    ensures Recent(Recent(ts, early), late) == Recent(ts, late)
  {
    if ts != [] {
      var t := ts[|ts| - 1];
      RecentTwice(ts[..|ts| - 1], early, late);
      RecentSnoc(Recent(ts[..|ts| - 1], early), t, late);
    }
  }

  // The pruned list is the recent part of the full log.
  lemma {:induction false} KeptIsRecentLog(times: seq<real>, now: real, limit: nat)
    requires NonDecreasing(times) && (times != [] ==> times[|times| - 1] <= now)
    ensures Recent(Kept(times, limit), now) == Recent(AcceptLog(times, limit), now)
  {
    if times != [] {
      var before, last := times[..|times| - 1], times[|times| - 1];
      var kept, log := Kept(before, limit), AcceptLog(before, limit);
      PrefixIsNonDecreasing(times);
      KeptIsRecentLog(before, last, limit);
      RecentTwice(kept, last, now);
      RecentTwice(log, last, now);
      RecentSnoc(Recent(kept, last), last, now);
      RecentSnoc(log, last, now);
    }
  }

  // ---- Main results ----

  // Whatever calls of whatever sources came before, the limiter decides as the full log of this source's accepted
  // calls would, if the source's clock never goes back.
  lemma DecidesAsFullLog(calls: seq<Call>, src: string, now: real, limit: nat)
    requires NonDecreasing(TimesOf(calls, src) + [now])
    ensures Allows(ListOf(Table(calls, limit), src), now, limit)
       <==> |Recent(AcceptLog(TimesOf(calls, src), limit), now)| < limit
  {
    var times := TimesOf(calls, src);
    SourcesAreIndependent(calls, src, limit);
    forall i, j | 0 <= i <= j < |times| ensures times[i] <= times[j] {
      assert (times + [now])[i] <= (times + [now])[j];
    }
    if times != [] {
      assert (times + [now])[|times| - 1] <= (times + [now])[|times|];
    }
    KeptIsRecentLog(times, now, limit);
  }

  // The accepted calls with timestamps in (x - 1, x].
  function InSecond(log: seq<real>, x: real): nat {
    if log == [] then 0
    else InSecond(log[..|log| - 1], x) + if x - 1.0 < log[|log| - 1] <= x then 1 else 0
  }

  lemma {:induction false} InSecondIsRecent(log: seq<real>, x: real, now: real)
    requires now <= x && forall t :: t in log ==> t <= now
    ensures InSecond(log, x) <= |Recent(log, now)|
  {
    if log != [] {
      var before := log[..|log| - 1];
      assert log[|log| - 1] in log;
      forall t | t in before ensures t <= now {
        assert t in log;
      }
      InSecondIsRecent(before, x, now);
    }
  }

  lemma {:induction false} LogIsPast(times: seq<real>, limit: nat, now: real)
    requires NonDecreasing(times) && (times != [] ==> times[|times| - 1] <= now)
    ensures forall t :: t in AcceptLog(times, limit) ==> t <= now
  {
    if times != [] {
      PrefixIsNonDecreasing(times);
      LogIsPast(times[..|times| - 1], limit, times[|times| - 1]);
    }
  }

  lemma InSecondSnoc(log: seq<real>, t: real, x: real)
    ensures InSecond(log + [t], x) == InSecond(log, x) + if x - 1.0 < t <= x then 1 else 0
  {
    assert (log + [t])[..|log|] == log;
  }

  // One more accepted call keeps the bound, because what it found in its own second was below it.
  lemma OneMoreKeepsBound(log: seq<real>, now: real, x: real, limit: nat)
    requires InSecond(log, x) <= limit && |Recent(log, now)| < limit && forall t :: t in log ==> t <= now
    ensures InSecond(log + [now], x) <= limit
  {
    hide Recent;
    InSecondSnoc(log, now, x);
    if now <= x {
      InSecondIsRecent(log, x, now);
    }
  }

  // At most `limit` commands of a source are accepted in any second, wherever it begins.
  lemma {:induction false} RateIsBounded(times: seq<real>, x: real, limit: nat)
    requires NonDecreasing(times)
    ensures InSecond(AcceptLog(times, limit), x) <= limit
  {
    if times != [] {
      var before, now := times[..|times| - 1], times[|times| - 1];
      PrefixIsNonDecreasing(times);
      hide NonDecreasing, Recent;
      RateIsBounded(before, x, limit);
      LogIsPast(before, limit, now);
      if |Recent(AcceptLog(before, limit), now)| < limit {
        OneMoreKeepsBound(AcceptLog(before, limit), now, x, limit);
      }
    }
  }

  // The calls of one source that the limiter itself accepted, each decided on the table as the calls of all sources
  // before it had left it.
  function Accepted(calls: seq<Call>, src: string, limit: nat): seq<real> {
    if calls == [] then []
    else
      var before, c := calls[..|calls| - 1], calls[|calls| - 1];
      if c.src == src && Allows(ListOf(Table(before, limit), src), c.now, limit)
      then Accepted(before, src, limit) + [c.now]
      else Accepted(before, src, limit)
  }

  lemma {:induction false} AcceptedIsFullLog(calls: seq<Call>, src: string, limit: nat)
    requires NonDecreasing(TimesOf(calls, src))
    ensures Accepted(calls, src, limit) == AcceptLog(TimesOf(calls, src), limit)
  {
    if calls != [] {
      var before, c := calls[..|calls| - 1], calls[|calls| - 1];
      if c.src == src {
        var times := TimesOf(before, src);
        assert (times + [c.now])[..|times|] == times;
        PrefixIsNonDecreasing(times + [c.now]);
        DecidesAsFullLog(before, src, c.now, limit);
        hide Allows, Table, ListOf, Recent;
        AcceptedIsFullLog(before, src, limit);
      } else {
        hide Allows, Table, ListOf, Recent;
        AcceptedIsFullLog(before, src, limit);
      }
    }
  }

  // Of what the limiter's table accepts from one source, at most `limit` calls lie in any second, wherever it begins,
  // whatever the other sources do in between.
  lemma EverySourceIsBounded(calls: seq<Call>, src: string, x: real, limit: nat)
    requires NonDecreasing(TimesOf(calls, src))
    ensures InSecond(Accepted(calls, src, limit), x) <= limit
  {
    hide Accepted, AcceptLog, InSecond, NonDecreasing;
    AcceptedIsFullLog(calls, src, limit);
    RateIsBounded(TimesOf(calls, src), x, limit);
  }

  // ---- Any clock ----

  // The j-th call of a source was accepted by the pruned list.
  predicate Taken(times: seq<real>, j: nat, limit: nat)
    requires j < |times|
  {
    Allows(Kept(times[..j], limit), times[j], limit)
  }

  // Neither this instant nor any call since the j-th read a clock a second or more after it.
  predicate Lives(times: seq<real>, j: nat, now: real)
    requires j < |times|
  {
    now - times[j] < 1.0 && forall i :: j < i < |times| ==> times[i] - times[j] < 1.0
  }

  // Those among the first `m` calls that were accepted and live.
  function Living(times: seq<real>, m: nat, now: real, limit: nat): seq<real>
    requires m <= |times|
  {
    if m == 0 then []
    else
      var before := Living(times, m - 1, now, limit);
      if Taken(times, m - 1, limit) && Lives(times, m - 1, now) then before + [times[m - 1]] else before
  }

  lemma LivesAfter(times: seq<real>, t: real, j: nat, now: real)
    requires j < |times|
    ensures Lives(times + [t], j, now) <==> Lives(times, j, t) && now - times[j] < 1.0
  {
    var more := times + [t];
    if Lives(more, j, now) {
      assert more[|times|] - more[j] < 1.0;
      forall i | j < i < |times| ensures times[i] - times[j] < 1.0 {
        assert more[i] - more[j] < 1.0;
      }
    }
  }

  // One more call lets fewer live: those for which its own reading is recent.
  lemma {:induction false} LivingAfter(times: seq<real>, t: real, m: nat, now: real, limit: nat)
    requires m <= |times|
    ensures Living(times + [t], m, now, limit) == Recent(Living(times, m, t, limit), now)
  {
    if m > 0 {
      var j := m - 1;
      LivingAfter(times, t, j, now, limit);
      assert (times + [t])[..j] == times[..j];
      RecentSnoc(Living(times, j, t, limit), times[j], now);
      LivesAfter(times, t, j, now);
      hide Recent, Allows, Kept, Lives;
    }
  }

  lemma LivingLast(before: seq<real>, t: real, now: real, limit: nat)
    ensures var times := before + [t];
      Living(times, |times|, now, limit)
      == if Allows(Kept(before, limit), t, limit) && now - t < 1.0
         then Living(times, |before|, now, limit) + [t] else Living(times, |before|, now, limit)
  {
    hide Recent, Allows, Kept;
    assert (before + [t])[..|before|] == before;
  }

  lemma {:induction false} KeptIsLiving(times: seq<real>, now: real, limit: nat)
    ensures Recent(Kept(times, limit), now) == Living(times, |times|, now, limit)
  {
    if times != [] {
      var before, t := times[..|times| - 1], times[|times| - 1];
      assert times == before + [t];
      KeptIsLiving(before, t, limit);
      LivingAfter(before, t, |before|, now, limit);
      RecentSnoc(Recent(Kept(before, limit), t), t, now);
      hide Recent, Living;
      LivingLast(before, t, now, limit);
    }
  }

  // For every clock: a call is accepted exactly when fewer than `limit` accepted calls of its source live, that is,
  // none of the source's calls since, this one included, read a clock a second or more after them.
  lemma AllowedIff(calls: seq<Call>, src: string, now: real, limit: nat)
    ensures Allows(ListOf(Table(calls, limit), src), now, limit)
       <==> var times := TimesOf(calls, src); |Living(times, |times|, now, limit)| < limit
  {
    SourcesAreIndependent(calls, src, limit);
    KeptIsLiving(TimesOf(calls, src), now, limit);
  }

  lemma OneMoreAccepted(calls: seq<Call>, src: string, now: real, limit: nat)
    requires Allows(ListOf(Table(calls, limit), src), now, limit)
    ensures var more := calls + [Call(src, now)];
      && Accepted(more, src, limit) == Accepted(calls, src, limit) + [now]
      && ListOf(Table(more, limit), src) == Recent(ListOf(Table(calls, limit), src), now) + [now]
  {
    assert (calls + [Call(src, now)])[..|calls|] == calls;
  }

  function Zeros(n: nat): (ts: seq<real>)
    ensures |ts| == n
  {
    if n == 0 then [] else Zeros(n - 1) + [0.0]
  }

  lemma {:induction false} ZerosFacts(n: nat)
    ensures Recent(Zeros(n), 0.0) == Zeros(n) && Recent(Zeros(n), 1.0) == [] && InSecond(Zeros(n), 0.5) == n
  {
    if n > 0 {
      ZerosFacts(n - 1);
      RecentSnoc(Zeros(n - 1), 0.0, 0.0);
      RecentSnoc(Zeros(n - 1), 0.0, 1.0);
      InSecondSnoc(Zeros(n - 1), 0.0, 0.5);
    }
  }

  function Burst(src: string, n: nat): seq<Call> {
    if n == 0 then [] else Burst(src, n - 1) + [Call(src, 0.0)]
  }

  lemma {:induction false} BurstIsAccepted(src: string, n: nat, limit: nat)
    requires n <= limit
    ensures Accepted(Burst(src, n), src, limit) == Zeros(n) && ListOf(Table(Burst(src, n), limit), src) == Zeros(n)
  {
    if n > 0 {
      BurstIsAccepted(src, n - 1, limit);
      ZerosFacts(n - 1);
      hide Accepted, Table, ListOf, Recent;
      OneMoreAccepted(Burst(src, n - 1), src, 0.0, limit);
    }
  }

  // Both limiters read the clock before they take their lock, so two threads' readings can come in the other order.
  // Then the bound fails for every limit from 2 on: after `limit` calls that read 0, one that reads 1 clears the list,
  // and one that reads 0.5 is one too many in (-0.5, 0.5].
  lemma ClockOrderMatters(src: string, limit: nat)
    requires limit >= 2
    ensures var calls := Burst(src, limit) + [Call(src, 1.0)] + [Call(src, 0.5)];
      InSecond(Accepted(calls, src, limit), 0.5) == limit + 1
  {
    hide Accepted, Table, ListOf, Recent, InSecond;
    var zeros := Zeros(limit);
    BurstIsAccepted(src, limit, limit);
    ZerosFacts(limit);
    OneMoreAccepted(Burst(src, limit), src, 1.0, limit);
    assert [] + [1.0] == [1.0];
    RecentSnoc([], 1.0, 0.5);
    RecentNone(0.5);
    OneMoreAccepted(Burst(src, limit) + [Call(src, 1.0)], src, 0.5, limit);
    InSecondSnoc(zeros + [1.0], 0.5, 0.5);
    InSecondSnoc(zeros, 1.0, 0.5);
  }

  // Each entry at least a second after the one before.
  predicate Apart(log: seq<real>) {
    |log| < 2 || (Apart(log[..|log| - 1]) && log[|log| - 1] - log[|log| - 2] >= 1.0)
  }

  lemma {:induction false} ApartIsOneASecond(log: seq<real>, x: real)
    requires Apart(log)
    ensures InSecond(log, x) <= 1
    ensures log != [] && log[|log| - 1] <= x - 1.0 ==> InSecond(log, x) == 0
  {
    if log != [] {
      ApartIsOneASecond(log[..|log| - 1], x);
    }
  }

  // A limit of one keeps the list to the last accepted call, because a call that clears it is accepted.
  lemma {:induction false} LimitOneKeepsApart(calls: seq<Call>, src: string)
    ensures var log, ts := Accepted(calls, src, 1), ListOf(Table(calls, 1), src);
      Apart(log) && ts == if log == [] then [] else [log[|log| - 1]]
  {
    if calls != [] {
      var before, c := calls[..|calls| - 1], calls[|calls| - 1];
      LimitOneKeepsApart(before, src);
      var log := Accepted(before, src, 1);
      if c.src == src {
        RecentNone(c.now);
        if log != [] {
          RecentSnoc([], log[|log| - 1], c.now);
          assert [] + [log[|log| - 1]] == [log[|log| - 1]];
        }
        assert (log + [c.now])[..|log|] == log;
      }
    }
  }

  lemma {:induction false} LimitZeroAcceptsNothing(calls: seq<Call>, src: string)
    ensures Accepted(calls, src, 0) == []
  {
    if calls != [] {
      LimitZeroAcceptsNothing(calls[..|calls| - 1], src);
    }
  }

  ghost predicate BoundedForEveryClock(limit: nat) {
    forall calls, src, x :: InSecond(Accepted(calls, src, limit), x) <= limit
  }

  lemma NoneInSecond(x: real)
    ensures InSecond([], x) == 0
  {
  }

  // The bound survives every clock exactly for the limits 0 and 1.
  lemma BoundedForEveryClockIff(limit: nat)
    ensures BoundedForEveryClock(limit) <==> limit <= 1
  {
    hide Accepted, InSecond;
    if limit <= 1 {
      forall calls, src, x ensures InSecond(Accepted(calls, src, limit), x) <= limit {
        if limit == 0 {
          LimitZeroAcceptsNothing(calls, src);
          NoneInSecond(x);
        } else {
          LimitOneKeepsApart(calls, src);
          ApartIsOneASecond(Accepted(calls, src, 1), x);
        }
      }
    } else {
      ClockOrderMatters("", limit);
    }
  }
}
