/**
 * How old a frame is when the relay forwards it. Its age is checked once, before the wait for the satellite, so what
 * decides is the age at the first look plus the wait that the orbit still imposes.
 */
module RelayAge {
  import opened Bytes
  import opened Frame
  import opened Channel
  import opened Relay
  import Orbit

  // How promptly a drain thread is served: a nap takes at most `nap` seconds, and an entry goes out at most `delay`
  // seconds after the look that ended its wait.
  datatype Pace = Pace(nap: real, delay: real)

  // A nap takes at least the second it asks for, and no nap is so long that a whole pass fits into it.
  predicate ValidPace(sat: Orbit.Satellite, p: Pace) {
    NAP_S <= p.nap <= Orbit.PassLength(sat) && p.delay >= 0.0
  }

  predicate Prompt(p: Pace, h: Hand, id: nat, step: DrainStep) {
    !h.Empty? && h.item.id == id ==>
      && (step.Look? && h.Waiting? ==> step.now <= h.wakesAt - NAP_S + p.nap)
      && (step.SendTo? && h.Sending? ==> step.now <= h.seenAt + p.delay)
  }

  // In this run the drain thread handles entry `id` at this pace.
  predicate PromptRun(sat: Orbit.Satellite, p: Pace, s: State, up: bool, id: nat, es: seq<Event>) {
    es == []
    || (var e, t := es[|es| - 1], Run(sat, s, es[..|es| - 1]);
        && PromptRun(sat, p, s, up, id, es[..|es| - 1])
        && (e.Drain? && e.up == up ==> Prompt(p, LaneOf(t, up).hand, id, e.step)))
  }

  // The drain thread may look for the satellite at reading `t0`.
  predicate MayLook(s: State, up: bool, t0: real) {
    s.running && LaneOf(s, up).hand.Waiting? && s.clock <= t0 && LaneOf(s, up).hand.wakesAt <= t0
  }

  function Looked(sat: Orbit.Satellite, s: State, up: bool, t0: real): State {
    Next(sat, s, Drain(up, Look(t0)))
  }

  // ---- The longest wait ----

  function Naps(n: nat, nap: real): real {
    n as real * nap
  }

  lemma NapsFacts(n: nat, nap: real)
    ensures Naps(0, nap) == 0.0 && Naps(n + 1, nap) == Naps(n, nap) + nap
  {
    assert (n + 1) as real == n as real + 1.0;
    assert (n as real + 1.0) * nap == n as real * nap + 1.0 * nap;
  }

  lemma {:induction false} NapsGrow(m: nat, n: nat, nap: real)
    requires m <= n && nap >= 0.0
    ensures Naps(m, nap) <= Naps(n, nap)
    decreases n
  {
    hide Naps;
    if m < n {
      NapsFacts(n - 1, nap);
      NapsGrow(m, n - 1, nap);
    }
  }

  // The most naps that can all be over before the wait is: the largest whole number below `w`.
  function BlindNaps(w: real): (n: nat)
    requires w > 0.0
    ensures n as real < w <= n as real + 1.0
  {
    -((-w).Floor) - 1
  }

  function Least(a: real, b: real): real {
    if a <= b then a else b
  }

  // From a look to the look that sees the satellite, if it comes in sight `w` seconds after the former: the last blind
  // look is before that moment, and after at most so many naps; then comes one nap more.
  function LongestWait(p: Pace, w: real): real
    requires w >= 0.0
  {
    if w == 0.0 then 0.0 else Least(w, Naps(BlindNaps(w), p.nap)) + p.nap
  }

  // The latest age at which an entry can leave when the thread looks at reading `t0`.
  function LatestAge(sat: Orbit.Satellite, p: Pace, item: Item, t0: real): real {
    Orbit.SightIsAfterWait(sat, t0);
    t0 - item.enqueuedAt + LongestWait(p, Orbit.WaitFrom(sat, t0)) + p.delay
  }

  // ---- No frame leaves before the satellite is in sight ----

  // The entry waits, or has seen the satellite no earlier than `sight`, or left no earlier.
  predicate After(l: Lane, running: bool, item: Item, sight: real) {
    if item.id in l.fates then l.fates[item.id].Forwarded? ==> sight <= l.fates[item.id].forwardedAt
    else
      && !l.hand.Empty? && !l.hand.Fetched? && l.hand.item == item
      && ((l.hand.Seen? && running) || l.hand.Ready? || l.hand.Sending? ==> sight <= l.hand.seenAt)
  }

  // The satellite is out of sight from `t0` until `sight`.
  ghost predicate Blackout(sat: Orbit.Satellite, t0: real, sight: real) {
    forall t :: t0 <= t < sight ==> !Orbit.InSight(sat, t)
  }

  lemma LookKeepsAfter(sat: Orbit.Satellite, l: Lane, running: bool, now: real, item: Item, t0: real, sight: real)
    requires Blackout(sat, t0, sight) && t0 <= now && After(l, running, item, sight)
    ensures After(LaneStep(sat, l, running, Look(now)), running, item, sight)
  {
    hide Orbit.InSight;
  }

  lemma StepKeepsAfter(sat: Orbit.Satellite, l: Lane, running: bool, step: DrainStep, clock: real,
                       item: Item, t0: real, sight: real)
    requires Blackout(sat, t0, sight) && t0 <= clock && After(l, running, item, sight)
    requires HandTimes(sat, l.hand, running, clock) && (!l.hand.Empty? ==> l.hand.item.id !in l.fates)
    requires ReadsClock(Drain(true, step)) ==> clock <= Reading(Drain(true, step))
    ensures After(LaneStep(sat, l, running, step), running, item, sight)
  {
    if step.Look? {
      LookKeepsAfter(sat, l, running, step.now, item, t0, sight);
    } else {
      hide Blackout, Orbit.InSight, Transmits, ChannelOutcome, AfterLook;
      TransmitsReady(l, step);
    }
  }

  lemma HandOf(sat: Orbit.Satellite, s: State, up: bool)
    requires Inv(sat, s)
    ensures var l := LaneOf(s, up);
      HandTimes(sat, l.hand, s.running, s.clock) && (!l.hand.Empty? ==> l.hand.item.id !in l.fates)
  {
    hide QueueInv, OutInv, TimeInv, HandTimes;
    HandIsLogged(LaneOf(s, up));
    HandIsTimely(sat, LaneOf(s, up), s.running, s.clock);
  }

  // The lane's own thread takes a step of its own.
  predicate OwnStep(s: State, e: Event, up: bool) {
    e.Drain? && e.up == up && ClockAfter(s, e) >= s.clock
  }

  lemma NextOnLane(sat: Orbit.Satellite, s: State, e: Event, up: bool)
    ensures var l, t := LaneOf(s, up), Next(sat, s, e);
      if OwnStep(s, e, up) then LaneOf(t, up) == LaneStep(sat, l, s.running, e.step) && t.running == s.running
      else LaneOf(t, up).hand == l.hand && LaneOf(t, up).fates == l.fates && (t.running ==> s.running)
    ensures s.clock <= Next(sat, s, e).clock
    ensures OwnStep(s, e, up) ==> Next(sat, s, e).clock == ClockAfter(s, e)
  {
    hide Parse, LaneStep, Transmits, Loses;
  }

  lemma SameHandAfter(l: Lane, running: bool, t: Lane, stillRunning: bool, item: Item, sight: real)
    requires After(l, running, item, sight) && t.hand == l.hand && t.fates == l.fates && (stillRunning ==> running)
    ensures After(t, stillRunning, item, sight)
  {
  }

  lemma NextKeepsAfter(sat: Orbit.Satellite, s: State, e: Event, up: bool, item: Item, t0: real, sight: real)
    requires Inv(sat, s) && Blackout(sat, t0, sight) && t0 <= s.clock && After(LaneOf(s, up), s.running, item, sight)
    ensures After(LaneOf(Next(sat, s, e), up), Next(sat, s, e).running, item, sight)
    ensures t0 <= Next(sat, s, e).clock
  {
    hide Inv, HandTimes, Blackout, LaneStep, Next, After;
    HandOf(sat, s, up);
    NextOnLane(sat, s, e, up);
    if OwnStep(s, e, up) {
      StepKeepsAfter(sat, LaneOf(s, up), s.running, e.step, s.clock, item, t0, sight);
    } else {
      SameHandAfter(LaneOf(s, up), s.running, LaneOf(Next(sat, s, e), up), Next(sat, s, e).running, item, sight);
    }
  }

  lemma {:induction false} RunKeepsAfter(sat: Orbit.Satellite, s: State, es: seq<Event>, up: bool, item: Item, t0: real,
                                         sight: real)
    requires Inv(sat, s) && Blackout(sat, t0, sight) && t0 <= s.clock && After(LaneOf(s, up), s.running, item, sight)
    ensures var t := Run(sat, s, es); After(LaneOf(t, up), t.running, item, sight) && t0 <= t.clock
  {
    hide Inv, Blackout, After, Next;
    if es != [] {
      var before := es[..|es| - 1];
      RunKeepsAfter(sat, s, before, up, item, t0, sight);
      RunKeepsInv(sat, s, before);
      NextKeepsAfter(sat, Run(sat, s, before), es[|es| - 1], up, item, t0, sight);
    }
  }

  lemma FirstLookAfter(sat: Orbit.Satellite, l: Lane, t0: real)
    requires l.hand.Waiting? && l.hand.wakesAt <= t0 && l.hand.item.id !in l.fates
    ensures After(LaneStep(sat, l, true, Look(t0)), true, l.hand.item, t0 + Orbit.WaitFrom(sat, t0))
  {
    Orbit.SightIsAfterWait(sat, t0);
    hide Orbit.InSight, Orbit.WaitFrom;
  }

  lemma LookedClock(sat: Orbit.Satellite, s: State, up: bool, t0: real)
    requires s.clock <= t0
    ensures Looked(sat, s, up, t0).clock == t0
  {
    hide LaneStep, Transmits, Loses;
  }

  lemma LookedAfter(sat: Orbit.Satellite, s: State, up: bool, t0: real)
    requires Inv(sat, s) && MayLook(s, up, t0)
    ensures var item, t := LaneOf(s, up).hand.item, Looked(sat, s, up, t0);
      && Inv(sat, t) && t0 <= t.clock
      && After(LaneOf(t, up), t.running, item, t0 + Orbit.WaitFrom(sat, t0))
      && Blackout(sat, t0, t0 + Orbit.WaitFrom(sat, t0))
  {
    hide Inv, HandTimes, Orbit.InSight, Orbit.WaitFrom, Next, After, LaneStep;
    NextKeepsInv(sat, s, Drain(up, Look(t0)));
    HandOf(sat, s, up);
    NextOnLane(sat, s, Drain(up, Look(t0)), up);
    Orbit.SightIsAfterWait(sat, t0);
    LookedClock(sat, s, up, t0);
    FirstLookAfter(sat, LaneOf(s, up), t0);
  }

  predicate LeftAt(l: Lane, id: nat) {
    id in l.fates && l.fates[id].Forwarded?
  }

  // In every run: an entry for which the thread looks at reading `t0` leaves no earlier than the satellite comes in
  // sight.
  lemma NeverBeforeSight(sat: Orbit.Satellite, s: State, up: bool, t0: real, es: seq<Event>)
    requires Inv(sat, s) && MayLook(s, up, t0)
    ensures var id, l := LaneOf(s, up).hand.item.id, LaneOf(Run(sat, Looked(sat, s, up, t0), es), up);
      LeftAt(l, id) ==> l.fates[id].forwardedAt >= t0 + Orbit.WaitFrom(sat, t0)
  {
    LookedAfter(sat, s, up, t0);
    hide Inv, Blackout, Next, Run, Orbit.WaitFrom;
    RunKeepsAfter(sat, Looked(sat, s, up, t0), es, up, LaneOf(s, up).hand.item, t0, t0 + Orbit.WaitFrom(sat, t0));
  }

  // ---- At this pace no frame leaves later than the longest wait allows ----

  // Reading `b` is the last of `j` naps that began at `t0`.
  predicate BlindAt(p: Pace, t0: real, b: real, j: nat) {
    t0 + j as real <= b <= t0 + Naps(j, p.nap)
  }

  ghost predicate BlindSince(p: Pace, t0: real, b: real) {
    exists j: nat :: BlindAt(p, t0, b, j)
  }

  // The entry waits after a blind look before the satellite is in sight, or has seen it in time, or left in time.
  ghost predicate Within(p: Pace, l: Lane, running: bool, item: Item, t0: real, w: real)
    requires w >= 0.0
  {
    if item.id in l.fates then
      l.fates[item.id].Forwarded? ==> l.fates[item.id].forwardedAt <= t0 + LongestWait(p, w) + p.delay
    else
      && !l.hand.Empty? && !l.hand.Fetched? && l.hand.item == item
      && (l.hand.Waiting? ==>
            l.hand.wakesAt - NAP_S < t0 + w && BlindSince(p, t0, l.hand.wakesAt - NAP_S))
      && ((l.hand.Seen? && running) || l.hand.Ready? || l.hand.Sending? ==>
            l.hand.seenAt <= t0 + LongestWait(p, w))
  }

  // From the moment in question the satellite stays in sight for longer than a nap.
  ghost predicate PassAhead(sat: Orbit.Satellite, p: Pace, sight: real) {
    forall t :: sight <= t < sight + p.nap ==> Orbit.InSight(sat, t)
  }

  lemma BlindNapsFacts(w: real)
    requires w > 0.0
    ensures BlindNaps(w) as real < w <= BlindNaps(w) as real + 1.0
  {
  }

  // The look after a blind one: it comes one nap later, and if that is past `sight`, it sees the satellite.
  lemma NextLook(sat: Orbit.Satellite, p: Pace, t0: real, w: real, b: real, j: nat, now: real)
    requires p.nap >= NAP_S && w >= 0.0 && BlindAt(p, t0, b, j) && b < t0 + w && PassAhead(sat, p, t0 + w)
    requires b + NAP_S <= now <= b + p.nap
    ensures BlindAt(p, t0, now, j + 1)
    ensures !Orbit.InSight(sat, now) ==> now < t0 + w
    ensures now <= t0 + LongestWait(p, w)
  {
    hide Naps, Orbit.InSight, BlindNaps;
    NapsFacts(j, p.nap);
    NapsFacts(0, p.nap);
    NapsGrow(0, j, p.nap);
    var n := BlindNaps(w);
    assert w > 0.0;
    assert n as real < w <= n as real + 1.0 by { BlindNapsFacts(w); }
    assert j <= n;
    NapsGrow(j, n, p.nap);
  }

  lemma BlindIsLater(p: Pace, t0: real, b: real, j: nat)
    requires BlindAt(p, t0, b, j)
    ensures t0 <= b
  {
  }

  lemma LookKeepsWithin(sat: Orbit.Satellite, p: Pace, l: Lane, running: bool, now: real, item: Item, t0: real, w: real)
    requires p.nap >= NAP_S && w >= 0.0 && (w > 0.0 ==> PassAhead(sat, p, t0 + w)) && Within(p, l, running, item, t0, w)
    requires Prompt(p, l.hand, item.id, Look(now)) && (!l.hand.Empty? ==> l.hand.item.id !in l.fates)
    ensures Within(p, LaneStep(sat, l, running, Look(now)), running, item, t0, w)
  {
    hide Orbit.InSight, LongestWait, BlindAt, PassAhead;
    if item.id !in l.fates && l.hand.Waiting? && now >= l.hand.wakesAt {
      var b := l.hand.wakesAt - NAP_S;
      assert BlindSince(p, t0, b);
      var j: nat :| BlindAt(p, t0, b, j);
      assert w > 0.0 by { BlindIsLater(p, t0, b, j); }
      NextLook(sat, p, t0, w, b, j, now);
      assert now + NAP_S - NAP_S == now;
      assert BlindSince(p, t0, now);
    }
  }

  lemma StepKeepsWithin(sat: Orbit.Satellite, p: Pace, l: Lane, running: bool, step: DrainStep, item: Item, t0: real,
                        w: real)
    requires p.nap >= NAP_S && w >= 0.0 && (w > 0.0 ==> PassAhead(sat, p, t0 + w)) && Within(p, l, running, item, t0, w)
    requires Prompt(p, l.hand, item.id, step) && (!l.hand.Empty? ==> l.hand.item.id !in l.fates)
    ensures Within(p, LaneStep(sat, l, running, step), running, item, t0, w)
  {
    if step.Look? {
      LookKeepsWithin(sat, p, l, running, step.now, item, t0, w);
    } else {
      TransmitsReady(l, step);
      hide PassAhead, Orbit.InSight, Transmits, ChannelOutcome, AfterLook, LongestWait, BlindSince;
    }
  }

  lemma SameHandWithin(p: Pace, l: Lane, running: bool, t: Lane, stillRunning: bool, item: Item, t0: real, w: real)
    requires w >= 0.0 && Within(p, l, running, item, t0, w)
    requires t.hand == l.hand && t.fates == l.fates && (stillRunning ==> running)
    ensures Within(p, t, stillRunning, item, t0, w)
  {
    hide LongestWait, BlindSince;
  }

  lemma NextKeepsWithin(sat: Orbit.Satellite, p: Pace, s: State, e: Event, up: bool, item: Item, t0: real, w: real)
    requires p.nap >= NAP_S && w >= 0.0 && (w > 0.0 ==> PassAhead(sat, p, t0 + w))
    requires Inv(sat, s) && Within(p, LaneOf(s, up), s.running, item, t0, w)
    requires e.Drain? && e.up == up ==> Prompt(p, LaneOf(s, up).hand, item.id, e.step)
    ensures Within(p, LaneOf(Next(sat, s, e), up), Next(sat, s, e).running, item, t0, w)
  {
    hide Inv, HandTimes, PassAhead, LaneStep, Next, Within, Prompt;
    HandOf(sat, s, up);
    NextOnLane(sat, s, e, up);
    if OwnStep(s, e, up) {
      StepKeepsWithin(sat, p, LaneOf(s, up), s.running, e.step, item, t0, w);
    } else {
      SameHandWithin(p, LaneOf(s, up), s.running, LaneOf(Next(sat, s, e), up), Next(sat, s, e).running, item, t0, w);
    }
  }

  lemma {:induction false} RunKeepsWithin(sat: Orbit.Satellite, p: Pace, s: State, es: seq<Event>, up: bool, item: Item,
                                          t0: real, w: real)
    requires p.nap >= NAP_S && w >= 0.0 && (w > 0.0 ==> PassAhead(sat, p, t0 + w))
    requires Inv(sat, s) && Within(p, LaneOf(s, up), s.running, item, t0, w)
    requires PromptRun(sat, p, s, up, item.id, es)
    ensures var t := Run(sat, s, es); Within(p, LaneOf(t, up), t.running, item, t0, w)
  {
    hide Inv, PassAhead, Within, Next, Prompt;
    if es != [] {
      var before := es[..|es| - 1];
      RunKeepsWithin(sat, p, s, before, up, item, t0, w);
      RunKeepsInv(sat, s, before);
      NextKeepsWithin(sat, p, Run(sat, s, before), es[|es| - 1], up, item, t0, w);
    }
  }

  lemma PassIsAhead(sat: Orbit.Satellite, p: Pace, t0: real)
    requires ValidPace(sat, p)
    ensures var w := Orbit.WaitFrom(sat, t0); w >= 0.0 && (w > 0.0 ==> PassAhead(sat, p, t0 + w))
  {
    Orbit.SightIsAfterWait(sat, t0);
    hide Orbit.WaitFrom, Orbit.InSight, Orbit.PassLength;
    var w := Orbit.WaitFrom(sat, t0);
    if w > 0.0 {
      forall t | t0 + w <= t < t0 + w + p.nap ensures Orbit.InSight(sat, t) {
        Orbit.SightLasts(sat, t0, t);
      }
    }
  }

  lemma FirstLookWithin(sat: Orbit.Satellite, p: Pace, l: Lane, t0: real, w: real)
    requires l.hand.Waiting? && l.hand.wakesAt <= t0 && l.hand.item.id !in l.fates
    requires w == Orbit.WaitFrom(sat, t0) && p.nap >= NAP_S
    ensures w >= 0.0 && Within(p, LaneStep(sat, l, true, Look(t0)), true, l.hand.item, t0, w)
  {
    Orbit.SightIsAfterWait(sat, t0);
    NapsFacts(0, p.nap);
    assert t0 + NAP_S - NAP_S == t0 && BlindAt(p, t0, t0, 0);
    assert BlindSince(p, t0, t0);
    hide Orbit.InSight, Orbit.WaitFrom, Naps, BlindNaps, BlindSince;
  }

  lemma LookedWithin(sat: Orbit.Satellite, p: Pace, s: State, up: bool, t0: real)
    requires Inv(sat, s) && MayLook(s, up, t0) && ValidPace(sat, p)
    ensures var item, t, w := LaneOf(s, up).hand.item, Looked(sat, s, up, t0), Orbit.WaitFrom(sat, t0);
      w >= 0.0 && Within(p, LaneOf(t, up), t.running, item, t0, w)
  {
    hide Inv, HandTimes, Orbit.WaitFrom, Orbit.PassLength, Next, Within, LaneStep;
    HandOf(sat, s, up);
    NextOnLane(sat, s, Drain(up, Look(t0)), up);
    FirstLookWithin(sat, p, LaneOf(s, up), t0, Orbit.WaitFrom(sat, t0));
  }

  // ---- A run that takes almost as long ----

  // One more step of the lane's own thread.
  lemma Extend(sat: Orbit.Satellite, p: Pace, s: State, up: bool, id: nat, es: seq<Event>, step: DrainStep)
    requires PromptRun(sat, p, s, up, id, es)
    requires Prompt(p, LaneOf(Run(sat, s, es), up).hand, id, step)
    requires ClockAfter(Run(sat, s, es), Drain(up, step)) >= Run(sat, s, es).clock
    ensures var t, u, e := Run(sat, s, es), Run(sat, s, es + [Drain(up, step)]), Drain(up, step);
      && PromptRun(sat, p, s, up, id, es + [e])
      && LaneOf(u, up) == LaneStep(sat, LaneOf(t, up), t.running, step)
      && u.running == t.running && u.clock == ClockAfter(t, e)
  {
    var e := Drain(up, step);
    assert (es + [e])[..|es|] == es;
    NextOnLane(sat, Run(sat, s, es), e, up);
    hide LaneStep, Next, Prompt;
  }

  // `t` holds the entry asleep after a look at reading `b`.
  predicate Asleep(t: State, up: bool, item: Item, checkedAt: real, b: real) {
    t.running && t.clock == b && LaneOf(t, up).hand == Waiting(item, checkedAt, b + NAP_S)
  }

  lemma BlindLook(sat: Orbit.Satellite, l: Lane, t0: real, sight: real, now: real)
    requires Blackout(sat, t0, sight) && t0 <= now < sight && l.hand.Waiting? && l.hand.wakesAt <= now
    ensures LaneStep(sat, l, true, Look(now)) == l.(hand := Waiting(l.hand.item, l.hand.checkedAt, now + NAP_S))
  {
    hide Orbit.InSight;
  }

  // `n` blind looks, each `nap` seconds after the one before.
  lemma {:induction false} SleepOn(sat: Orbit.Satellite, p: Pace, s: State, up: bool, item: Item, checkedAt: real,
                                   t0: real, sight: real, nap: real, n: nat) returns (es: seq<Event>)
    requires Asleep(s, up, item, checkedAt, t0) && NAP_S <= nap <= p.nap
    requires Blackout(sat, t0, sight) && t0 + Naps(n, nap) < sight
    ensures PromptRun(sat, p, s, up, item.id, es)
    ensures Asleep(Run(sat, s, es), up, item, checkedAt, t0 + Naps(n, nap))
    decreases n
  {
    NapsFacts(0, nap);
    hide Naps, Blackout;
    if n == 0 {
      es := [];
    } else {
      NapsFacts(n - 1, nap);
      NapsGrow(0, n, nap);
      var before := SleepOn(sat, p, s, up, item, checkedAt, t0, sight, nap, n - 1);
      var now := t0 + Naps(n, nap);
      es := before + [Drain(up, Look(now))];
      hide Run, PromptRun;
      Extend(sat, p, s, up, item.id, before, Look(now));
      BlindLook(sat, LaneOf(Run(sat, s, before), up), t0, sight, now);
    }
  }

  lemma SeeingLook(sat: Orbit.Satellite, l: Lane, now: real)
    requires Orbit.InSight(sat, now) && l.hand.Waiting? && l.hand.wakesAt <= now
    ensures LaneStep(sat, l, true, Look(now)) == l.(hand := Seen(l.hand.item, l.hand.checkedAt, now))
  {
    hide Orbit.InSight;
  }

  lemma PassesThrough(sat: Orbit.Satellite, l: Lane, now: real)
    requires l.hand.Ready? && Orbit.InSight(sat, now)
    ensures LaneStep(sat, l, true, Transmit(now, false, NoError))
         == l.(hand := Sending(l.hand.item, l.hand.checkedAt, l.hand.seenAt, l.hand.item.raw))
  {
    hide Orbit.InSight;
  }

  // Once the satellite is seen the entry can leave a full `delay` later.
  lemma LeaveLate(sat: Orbit.Satellite, p: Pace, s: State, up: bool, before: seq<Event>, item: Item, checkedAt: real,
                  seenAt: real) returns (es: seq<Event>)
    requires PromptRun(sat, p, s, up, item.id, before) && p.delay >= 0.0 && Orbit.InSight(sat, seenAt)
    requires var t := Run(sat, s, before);
      t.running && t.clock == seenAt && LaneOf(t, up).hand == Seen(item, checkedAt, seenAt)
    ensures PromptRun(sat, p, s, up, item.id, es)
    ensures var l := LaneOf(Run(sat, s, es), up);
      LeftAt(l, item.id) && l.fates[item.id].forwardedAt == seenAt + p.delay
  {
    hide Orbit.InSight, Run, PromptRun, Transmits, ChannelOutcome;
    Extend(sat, p, s, up, item.id, before, Resume);
    var es1 := before + [Drain(up, Resume)];
    Extend(sat, p, s, up, item.id, es1, Transmit(seenAt, false, NoError));
    PassesThrough(sat, LaneOf(Run(sat, s, es1), up), seenAt);
    var es2 := es1 + [Drain(up, Transmit(seenAt, false, NoError))];
    Extend(sat, p, s, up, item.id, es2, SendTo(seenAt + p.delay, true));
    es := es2 + [Drain(up, SendTo(seenAt + p.delay, true))];
  }

  lemma NapsAreLong(n: nat, nap: real)
    requires nap >= NAP_S
    ensures Naps(n, nap) >= n as real
  {
    assert n as real * (nap - 1.0) >= 0.0;
    assert n as real * (nap - 1.0) == n as real * nap - n as real * 1.0;
  }

  // `n` equal naps that take `b` seconds together.
  lemma NapOf(n: nat, b: real, most: real) returns (nap: real)
    requires n as real <= b <= Naps(n, most) && b > 0.0
    ensures 1.0 <= nap <= most && Naps(n, nap) == b
  {
    assert n > 0;
    nap := b / n as real;
    Orbit.Quotient(b, n as real);
    if nap < 1.0 {
      Orbit.ScaledLess(nap, 1.0, n as real);
    }
    if nap > most {
      Orbit.ScaledLess(most, nap, n as real);
    }
  }

  // Naps of one length whose end comes as close as one likes to the longest blind wait.
  lemma ChooseNap(p: Pace, w: real, slack: real) returns (n: nat, nap: real)
    requires p.nap >= NAP_S && w > 0.0 && slack > 0.0
    ensures NAP_S <= nap <= p.nap
    ensures Naps(n, nap) < w <= Naps(n, nap) + p.nap
    ensures Naps(n, nap) > Least(w, Naps(BlindNaps(w), p.nap)) - slack
  {
    n := BlindNaps(w);
    BlindNapsFacts(w);
    hide BlindNaps;
    if Naps(n, p.nap) < w {
      nap := p.nap;
      NapsAreLong(n, nap);
      NapsFacts(n, nap);
    } else {
      var some := Least(slack, Least(w - n as real, 1.0)) / 2.0;
      assert 0.0 < some < slack && some < w - n as real && some < 1.0;
      nap := NapOf(n, w - some, p.nap);
    }
  }

  // From a look that finds the satellite out of sight, some run leaves later than any limit below the latest age.
  lemma LateRunAfterBlindLook(sat: Orbit.Satellite, p: Pace, s: State, up: bool, item: Item, checkedAt: real, t0: real,
                              limit: real) returns (es: seq<Event>)
    requires ValidPace(sat, p) && Asleep(s, up, item, checkedAt, t0) && Orbit.WaitFrom(sat, t0) > 0.0
    requires LatestAge(sat, p, item, t0) > limit
    ensures PromptRun(sat, p, s, up, item.id, es)
    ensures var l := LaneOf(Run(sat, s, es), up);
      LeftAt(l, item.id) && l.fates[item.id].forwardedAt - item.enqueuedAt > limit
  {
    Orbit.SightIsAfterWait(sat, t0);
    PassIsAhead(sat, p, t0);
    var w := Orbit.WaitFrom(sat, t0);
    var n, nap := ChooseNap(p, w, LatestAge(sat, p, item, t0) - limit);
    hide Orbit.InSight, Orbit.WaitFrom, Orbit.PassLength, Naps, BlindNaps, Run, PromptRun;
    assert Blackout(sat, t0, t0 + w);
    var naps := SleepOn(sat, p, s, up, item, checkedAt, t0, t0 + w, nap, n);
    var b := t0 + Naps(n, nap);
    var now := b + p.nap;
    assert Orbit.InSight(sat, now);
    Extend(sat, p, s, up, item.id, naps, Look(now));
    SeeingLook(sat, LaneOf(Run(sat, s, naps), up), now);
    es := LeaveLate(sat, p, s, up, naps + [Drain(up, Look(now))], item, checkedAt, now);
  }

  lemma NothingYet(sat: Orbit.Satellite, p: Pace, s: State, up: bool, id: nat)
    ensures PromptRun(sat, p, s, up, id, []) && Run(sat, s, []) == s
  {
  }

  lemma LateRun(sat: Orbit.Satellite, p: Pace, s: State, up: bool, t0: real, limit: real) returns (es: seq<Event>)
    requires Inv(sat, s) && MayLook(s, up, t0) && ValidPace(sat, p)
    requires LatestAge(sat, p, LaneOf(s, up).hand.item, t0) > limit
    ensures var item, t := LaneOf(s, up).hand.item, Looked(sat, s, up, t0);
      && PromptRun(sat, p, t, up, item.id, es)
      && LeftAt(LaneOf(Run(sat, t, es), up), item.id)
      && LaneOf(Run(sat, t, es), up).fates[item.id].forwardedAt - item.enqueuedAt > limit
  {
    hide Inv, Orbit.InSight, Orbit.WaitFrom, Orbit.PassLength, Next, Naps, BlindNaps, Run, PromptRun;
    var l, t := LaneOf(s, up), Looked(sat, s, up, t0);
    Orbit.SightIsAfterWait(sat, t0);
    NextOnLane(sat, s, Drain(up, Look(t0)), up);
    if Orbit.InSight(sat, t0) {
      SeeingLook(sat, l, t0);
      NothingYet(sat, p, t, up, l.hand.item.id);
      es := LeaveLate(sat, p, t, up, [], l.hand.item, l.hand.checkedAt, t0);
    } else {
      BlindLook(sat, l, t0, t0 + Orbit.WaitFrom(sat, t0), t0);
      es := LateRunAfterBlindLook(sat, p, t, up, l.hand.item, l.hand.checkedAt, t0, limit);
    }
  }

  // ---- Main results ----

  // Whatever happens from this look on at this pace, the entry does not leave older than `limit`.
  ghost predicate LeavesBy(sat: Orbit.Satellite, p: Pace, s: State, up: bool, t0: real, limit: real)
    requires MayLook(s, up, t0)
  {
    var item, t := LaneOf(s, up).hand.item, Looked(sat, s, up, t0);
    forall es :: PromptRun(sat, p, t, up, item.id, es) && LeftAt(LaneOf(Run(sat, t, es), up), item.id) ==>
      LaneOf(Run(sat, t, es), up).fates[item.id].forwardedAt - item.enqueuedAt <= limit
  }

  lemma WithinLeft(p: Pace, l: Lane, running: bool, item: Item, t0: real, w: real)
    requires w >= 0.0 && Within(p, l, running, item, t0, w)
    ensures LeftAt(l, item.id) ==> l.fates[item.id].forwardedAt <= t0 + LongestWait(p, w) + p.delay
  {
    hide LongestWait, BlindSince;
  }

  lemma LeavesInTime(sat: Orbit.Satellite, p: Pace, s: State, up: bool, t0: real, es: seq<Event>)
    requires Inv(sat, s) && MayLook(s, up, t0) && ValidPace(sat, p)
    requires PromptRun(sat, p, Looked(sat, s, up, t0), up, LaneOf(s, up).hand.item.id, es)
    ensures var item, l := LaneOf(s, up).hand.item, LaneOf(Run(sat, Looked(sat, s, up, t0), es), up);
      LeftAt(l, item.id) ==> l.fates[item.id].forwardedAt - item.enqueuedAt <= LatestAge(sat, p, item, t0)
  {
    hide Inv, Orbit.WaitFrom, Orbit.InSight, Orbit.PassLength, Run, PromptRun, Next, PassAhead, LongestWait, Within;
    var item, t, w := LaneOf(s, up).hand.item, Looked(sat, s, up, t0), Orbit.WaitFrom(sat, t0);
    PassIsAhead(sat, p, t0);
    LookedWithin(sat, p, s, up, t0);
    NextKeepsInv(sat, s, Drain(up, Look(t0)));
    RunKeepsWithin(sat, p, t, es, up, item, t0, w);
    WithinLeft(p, LaneOf(Run(sat, t, es), up), Run(sat, t, es).running, item, t0, w);
  }

  // When an age limit is kept: in every run at this pace the entry leaves at most `limit` seconds old, if and only if
  // its age at the look, plus the naps until the satellite is in sight, plus the delay, does not exceed the limit.
  // All of this is known at the look.
  lemma AgeLimitIff(sat: Orbit.Satellite, p: Pace, s: State, up: bool, t0: real, limit: real)
    requires Inv(sat, s) && MayLook(s, up, t0) && ValidPace(sat, p)
    ensures LeavesBy(sat, p, s, up, t0, limit) <==> LatestAge(sat, p, LaneOf(s, up).hand.item, t0) <= limit
  {
    hide Inv, Orbit.WaitFrom, Orbit.InSight, LatestAge, Run, PromptRun, Next, ValidPace;
    if LatestAge(sat, p, LaneOf(s, up).hand.item, t0) <= limit {
      var item, t := LaneOf(s, up).hand.item, Looked(sat, s, up, t0);
      forall es | PromptRun(sat, p, t, up, item.id, es) && LeftAt(LaneOf(Run(sat, t, es), up), item.id)
        ensures LaneOf(Run(sat, t, es), up).fates[item.id].forwardedAt - item.enqueuedAt <= limit
      {
        LeavesInTime(sat, p, s, up, t0, es);
      }
    } else {
      var es := LateRun(sat, p, s, up, t0, limit);
    }
  }

  function Ceiling(w: real): real {
    (-((-w).Floor)) as real
  }

  lemma WholeSecondNaps(w: real, delay: real)
    requires w >= 0.0
    ensures LongestWait(Pace(NAP_S, delay), w) == Ceiling(w)
  {
    if w > 0.0 {
      var n := BlindNaps(w);
      assert Naps(n, 1.0) == n as real;
    }
  }

  // The documented limit: with naps of exactly a second and a channel that takes at most `delay` seconds, the entry
  // leaves at most 120 seconds and that delay old in every run, if and only if its age at the look and the wait from
  // there, rounded up to whole seconds, come to at most 120 seconds.
  lemma DocumentedLimitIff(sat: Orbit.Satellite, delay: real, s: State, up: bool, t0: real)
    requires Inv(sat, s) && MayLook(s, up, t0) && ValidPace(sat, Pace(NAP_S, delay))
    ensures var age := t0 - LaneOf(s, up).hand.item.enqueuedAt;
      LeavesBy(sat, Pace(NAP_S, delay), s, up, t0, BLACKOUT_MAX_AGE_S + delay)
      <==> age + Ceiling(Orbit.WaitFrom(sat, t0)) <= BLACKOUT_MAX_AGE_S
  {
    hide Inv, LeavesBy, Orbit.WaitFrom, Orbit.PassLength, Ceiling, LongestWait;
    Orbit.SightIsAfterWait(sat, t0);
    WholeSecondNaps(Orbit.WaitFrom(sat, t0), delay);
    AgeLimitIff(sat, Pace(NAP_S, delay), s, up, t0, BLACKOUT_MAX_AGE_S + delay);
  }

  lemma CheckedMayLook(sat: Orbit.Satellite, s: State, up: bool, now: real)
    requires s.running && LaneOf(s, up).hand.Fetched? && s.clock <= now
    requires now - LaneOf(s, up).hand.item.enqueuedAt <= BLACKOUT_MAX_AGE_S
    ensures var t := Next(sat, s, Drain(up, CheckAge(now)));
      MayLook(t, up, now) && LaneOf(t, up).hand.item == LaneOf(s, up).hand.item
  {
    hide Transmits, Loses;
  }

  // In terms of the age check: an entry that passes it at this age, and for which the thread looks at once, leaves at
  // most 120 seconds and the channel's delay old in every run, if and only if that age and the wait that the orbit
  // imposes at the check, rounded up to whole naps, come to at most 120 seconds.
  lemma CheckedInTimeIff(sat: Orbit.Satellite, delay: real, s: State, up: bool, now: real)
    requires Inv(sat, s) && s.running && LaneOf(s, up).hand.Fetched? && s.clock <= now
    requires now - LaneOf(s, up).hand.item.enqueuedAt <= BLACKOUT_MAX_AGE_S && ValidPace(sat, Pace(NAP_S, delay))
    ensures var t, age := Next(sat, s, Drain(up, CheckAge(now))), now - LaneOf(s, up).hand.item.enqueuedAt;
      && MayLook(t, up, now)
      && (LeavesBy(sat, Pace(NAP_S, delay), t, up, now, BLACKOUT_MAX_AGE_S + delay)
          <==> age + Ceiling(Orbit.WaitFrom(sat, now)) <= BLACKOUT_MAX_AGE_S)
  {
    hide Inv, Next, LeavesBy, Orbit.WaitFrom, Orbit.PassLength, Ceiling;
    NextKeepsInv(sat, s, Drain(up, CheckAge(now)));
    CheckedMayLook(sat, s, up, now);
    DocumentedLimitIff(sat, delay, Next(sat, s, Drain(up, CheckAge(now))), up, now);
  }

  lemma LongestWaitBounds(p: Pace, w: real)
    requires w >= 0.0 && p.nap >= NAP_S
    ensures w <= LongestWait(p, w) <= w + p.nap
  {
    if w > 0.0 {
      var n := BlindNaps(w);
      NapsAreLong(n, p.nap);
    }
  }

  // At any pace: if age and wait come to at most 120 seconds, the entry leaves at most a nap and the delay older than
  // that; if they come to more, it leaves too old in every run in which it leaves at all.
  lemma AgePlusWait(sat: Orbit.Satellite, p: Pace, s: State, up: bool, t0: real)
    requires Inv(sat, s) && MayLook(s, up, t0) && ValidPace(sat, p)
    ensures var item := LaneOf(s, up).hand.item;
      if t0 - item.enqueuedAt + Orbit.WaitFrom(sat, t0) <= BLACKOUT_MAX_AGE_S
      then LeavesBy(sat, p, s, up, t0, BLACKOUT_MAX_AGE_S + p.nap + p.delay)
      else forall es :: LeftAt(LaneOf(Run(sat, Looked(sat, s, up, t0), es), up), item.id) ==>
        LaneOf(Run(sat, Looked(sat, s, up, t0), es), up).fates[item.id].forwardedAt - item.enqueuedAt
        > BLACKOUT_MAX_AGE_S
  {
    hide Inv, Orbit.WaitFrom, Orbit.PassLength, LeavesBy, Run, Next, LongestWait;
    var item := LaneOf(s, up).hand.item;
    Orbit.SightIsAfterWait(sat, t0);
    LongestWaitBounds(p, Orbit.WaitFrom(sat, t0));
    AgeLimitIff(sat, p, s, up, t0, BLACKOUT_MAX_AGE_S + p.nap + p.delay);
    forall es | t0 - item.enqueuedAt + Orbit.WaitFrom(sat, t0) > BLACKOUT_MAX_AGE_S
                && LeftAt(LaneOf(Run(sat, Looked(sat, s, up, t0), es), up), item.id)
      ensures LaneOf(Run(sat, Looked(sat, s, up, t0), es), up).fates[item.id].forwardedAt - item.enqueuedAt
              > BLACKOUT_MAX_AGE_S
    {
      NeverBeforeSight(sat, s, up, t0, es);
    }
  }

  // ---- A frame that waits for a whole blackout ----

  const LEO: Orbit.Satellite := Orbit.Clock(5400.0, 600.0, 1.0, 0.0)

  // A frame arrives just as the pass ends, and passes its age check at once.
  function CheckedAtBlackout(raw: bytes): seq<Event> {
    [Listen, Datagram(raw, true, 600.0), Drain(true, LoopTest), Drain(true, Take), Drain(true, CheckAge(600.0))]
  }

  lemma {:induction false} RunConcat(sat: Orbit.Satellite, s: State, a: seq<Event>, b: seq<Event>)
    ensures Run(sat, s, a + b) == Run(sat, Run(sat, s, a), b)
  {
    hide Next;
    if b == [] {
      assert a + b == a;
    } else {
      assert (a + b)[..|a + b| - 1] == a + b[..|b| - 1];
      RunConcat(sat, s, a, b[..|b| - 1]);
    }
  }

  lemma RunPrefix(sat: Orbit.Satellite, s: State, es: seq<Event>, k: nat)
    requires 1 <= k <= |es|
    ensures Run(sat, s, es[..k]) == Next(sat, Run(sat, s, es[..k - 1]), es[k - 1])
  {
    assert es[..k][..k - 1] == es[..k - 1];
  }

  lemma BlackoutTakes4800()
    ensures Orbit.WaitFrom(LEO, 600.0) == 4800.0 && Orbit.PassLength(LEO) == 600.0
  {
    Orbit.PhaseIs(LEO, 600.0, 0, 600.0);
  }

  lemma LogGrowsOnce(sat: Orbit.Satellite, s: State, e: Event)
    ensures s.up.log <= Next(sat, s, e).up.log
  {
    hide Parse, Orbit.InSight, Transmits, ChannelOutcome, Loses;
  }

  lemma {:induction false} LogGrows(sat: Orbit.Satellite, s: State, es: seq<Event>)
    ensures s.up.log <= Run(sat, s, es).up.log
  {
    hide Next;
    if es != [] {
      LogGrows(sat, s, es[..|es| - 1]);
      LogGrowsOnce(sat, Run(sat, s, es[..|es| - 1]), es[|es| - 1]);
    }
  }

  lemma FrameIsChecked(raw: bytes)
    requires Parse(raw).Valid?
    ensures var s := Run(LEO, Start(600.0), CheckedAtBlackout(raw));
      s.running && s.clock == 600.0 && s.up.hand == Waiting(Item(0, 600.0, raw), 600.0, 600.0)
      && s.up.log == [Item(0, 600.0, raw)]
  {
    hide Parse, Orbit.InSight, Run;
    var es, s := CheckedAtBlackout(raw), Start(600.0);
    assert es[..0] == [] && es[..5] == es;
    NothingYet(LEO, Pace(1.0, 0.0), s, true, 0);
    RunPrefix(LEO, s, es, 1);
    RunPrefix(LEO, s, es, 2);
    RunPrefix(LEO, s, es, 3);
    RunPrefix(LEO, s, es, 4);
    RunPrefix(LEO, s, es, 5);
  }

  lemma WaitsForSight(s: State) returns (rest: seq<Event>)
    requires Inv(LEO, s) && MayLook(s, true, 600.0)
    requires s.up.hand.item.id == 0 && s.up.hand.item.enqueuedAt == 600.0
    ensures var l := Run(LEO, Looked(LEO, s, true, 600.0), rest).up;
      LeftAt(l, 0) && l.fates[0].forwardedAt - 600.0 >= 4800.0
  {
    hide Inv, Run, Next, Orbit.WaitFrom, Orbit.PassLength, LongestWait, PromptRun;
    BlackoutTakes4800();
    WholeSecondNaps(4800.0, 0.0);
    rest := LateRun(LEO, Pace(NAP_S, 0.0), s, true, 600.0, 4799.0);
    NeverBeforeSight(LEO, s, true, 600.0, rest);
  }

  lemma FirstLook(sat: Orbit.Satellite, s: State, up: bool, t0: real, rest: seq<Event>)
    ensures Run(sat, s, [Drain(up, Look(t0))] + rest) == Run(sat, Looked(sat, s, up, t0), rest)
  {
    hide Next;
    var look := Drain(up, Look(t0));
    RunConcat(sat, s, [look], rest);
    assert [look][..0] == [];
  }

  // The age limit is enforced before the wait only: every valid frame that arrives as a pass ends can be forwarded when
  // it is 4800 seconds old.
  lemma StaleFrameCanBeForwarded(raw: bytes) returns (es: seq<Event>)
    requires Parse(raw).Valid?
    ensures var l := Run(LEO, Start(600.0), es).up;
      && LeftAt(l, 0) && |l.log| > 0 && l.log[0] == Item(0, 600.0, raw)
      && l.fates[0].forwardedAt - l.log[0].enqueuedAt >= 4800.0
  {
    hide Run, Next, Inv, CheckedAtBlackout, Parse;
    var before := CheckedAtBlackout(raw);
    var s := Run(LEO, Start(600.0), before);
    FrameIsChecked(raw);
    StartInv(LEO, 600.0);
    RunKeepsInv(LEO, Start(600.0), before);
    var rest := WaitsForSight(s);
    es := before + ([Drain(true, Look(600.0))] + rest);
    RunConcat(LEO, Start(600.0), before, [Drain(true, Look(600.0))] + rest);
    FirstLook(LEO, s, true, 600.0, rest);
    LogGrows(LEO, s, [Drain(true, Look(600.0))] + rest);
  }
}
