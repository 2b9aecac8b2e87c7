/** The orbital clock: when the satellite is in sight, in scaled seconds since the start and by the wall clock. */
module Orbit {
  datatype Clock = Clock(period: real, visibility: real, scale: real, start: real)

  function Turns(c: Clock, elapsed: real): int
    requires c.period > 0.0
  {
    (elapsed / c.period).Floor
  }

  lemma Difference(a: real, b: real, p: real)
    ensures (a - b) * p == a * p - b * p
  {
  }

  lemma ScaledLess(a: real, b: real, p: real)
    requires a < b && p > 0.0
    ensures a * p < b * p
  {
    Difference(b, a, p);
    assert (b - a) * p > 0.0;
  }

  lemma PartOf(part: real, p: real)
    requires 0.0 <= part < 1.0 && p > 0.0
    ensures 0.0 <= part * p < p
  {
    ScaledLess(part, 1.0, p);
    assert part * p >= 0.0;
  }

  // The part of the current orbit that is over, as Python's modulus computes it.
  function Phase(c: Clock, elapsed: real): (ph: real)
    requires c.period > 0.0
    ensures 0.0 <= ph < c.period
  {
    var part := elapsed / c.period - Turns(c, elapsed) as real;
    PartOf(part, c.period);
    part * c.period
  }

  lemma Scaled(a: real, b: real, p: real)
    requires a <= b && p > 0.0
    ensures a * p <= b * p
  {
    Difference(b, a, p);
    assert (b - a) * p >= 0.0;
  }

  lemma Quotient(x: real, p: real)
    requires p > 0.0
    ensures x / p * p == x
  {
  }

  lemma Split(c: Clock, elapsed: real)
    requires c.period > 0.0
    ensures elapsed == Turns(c, elapsed) as real * c.period + Phase(c, elapsed)
  {
    Quotient(elapsed, c.period);
    Difference(elapsed / c.period, Turns(c, elapsed) as real, c.period);
  }

  function Times(n: int, p: real): real {
    n as real * p
  }

  lemma Further(p: real, m: int, n: int)
    requires p > 0.0 && m < n
    ensures Times(m, p) + p <= Times(n, p)
  {
    Scaled(m as real + 1.0, n as real, p);
    Difference(m as real + 1.0, m as real, p);
  }

  lemma Unique(p: real, m: int, x: real, n: int, y: real)
    requires p > 0.0 && 0.0 <= x < p && 0.0 <= y < p && Times(m, p) + x == Times(n, p) + y
    ensures x == y
  {
    hide Times;
    if m < n {
      Further(p, m, n);
    } else if n < m {
      Further(p, n, m);
    }
  }

  // Division with remainder is unique.
  lemma PhaseIs(c: Clock, elapsed: real, turns: int, ph: real)
    requires c.period > 0.0 && 0.0 <= ph < c.period && elapsed == turns as real * c.period + ph
    ensures Phase(c, elapsed) == ph
  {
    Split(c, elapsed);
    Unique(c.period, Turns(c, elapsed), Phase(c, elapsed), turns, ph);
  }

  predicate IsVisible(c: Clock, elapsed: real)
    requires c.period > 0.0
  {
    Phase(c, elapsed) < c.visibility
  }

  predicate VisibleAfter(c: Clock, elapsed: real, wait: real)
    requires c.period > 0.0
  {
    IsVisible(c, elapsed + wait)
  }

  function TimeToNextPass(c: Clock, elapsed: real): real
    requires c.period > 0.0
  {
    var ph := Phase(c, elapsed);
    if ph < c.visibility then 0.0 else c.period - ph
  }

  function TimeInPass(c: Clock, elapsed: real): real
    requires c.period > 0.0
  {
    var ph := Phase(c, elapsed);
    if c.visibility - ph > 0.0 then c.visibility - ph else 0.0
  }

  // For less than the rest of the orbit the phase just grows; then it starts over.
  lemma PhaseLater(c: Clock, elapsed: real, wait: real)
    requires c.period > 0.0 && 0.0 <= wait < c.period
    ensures var ph := Phase(c, elapsed);
      Phase(c, elapsed + wait) == if ph + wait < c.period then ph + wait else ph + wait - c.period
  {
    Split(c, elapsed);
    var ph, turns := Phase(c, elapsed), Turns(c, elapsed);
    hide Phase, Turns;
    if ph + wait < c.period {
      PhaseIs(c, elapsed + wait, turns, ph + wait);
    } else {
      assert (turns + 1) as real * c.period == turns as real * c.period + c.period;
      PhaseIs(c, elapsed + wait, turns + 1, ph + wait - c.period);
    }
  }

  // `time_to_next_pass` is the least wait after which the satellite is in sight.
  lemma WaitIsLeast(c: Clock, elapsed: real)
    requires c.period > 0.0 && c.visibility > 0.0
    ensures VisibleAfter(c, elapsed, TimeToNextPass(c, elapsed))
    ensures forall wait :: 0.0 <= wait < TimeToNextPass(c, elapsed) ==> !VisibleAfter(c, elapsed, wait)
  {
    var ph, w := Phase(c, elapsed), TimeToNextPass(c, elapsed);
    hide Phase;
    PhaseLater(c, elapsed, w);
    if ph >= c.visibility {
      forall wait | 0.0 <= wait < w ensures !VisibleAfter(c, elapsed, wait) {
        PhaseLater(c, elapsed, wait);
      }
    }
  }

  // `time_in_pass` is how long it stays in sight, when there is a blackout at all.
  lemma PassLasts(c: Clock, elapsed: real)
    requires c.period > 0.0 && c.visibility < c.period
    ensures forall wait :: 0.0 <= wait < TimeInPass(c, elapsed) ==> VisibleAfter(c, elapsed, wait)
    ensures !VisibleAfter(c, elapsed, TimeInPass(c, elapsed))
  {
    var ph, w := Phase(c, elapsed), TimeInPass(c, elapsed);
    hide Phase;
    PhaseLater(c, elapsed, w);
    forall wait | 0.0 <= wait < w ensures VisibleAfter(c, elapsed, wait) {
      PhaseLater(c, elapsed, wait);
    }
  }

  // Every orbit is like the one before.
  lemma OrbitsRepeat(c: Clock, elapsed: real)
    requires c.period > 0.0
    ensures Phase(c, elapsed + c.period) == Phase(c, elapsed)
  {
    Split(c, elapsed);
    var ph, turns := Phase(c, elapsed), Turns(c, elapsed);
    hide Phase, Turns;
    assert (turns + 1) as real * c.period == turns as real * c.period + c.period;
    PhaseIs(c, elapsed + c.period, turns + 1, ph);
  }

  // ---- By the wall clock ----

  predicate Runs(c: Clock) {
    c.period > 0.0 && c.visibility > 0.0 && c.scale > 0.0
  }

  type Satellite = c: Clock | Runs(c) witness Clock(5400.0, 600.0, 1.0, 0.0)

  // Wall-clock seconds in scaled ones, and back.
  function ToScaled(c: Clock, d: real): real {
    d * c.scale
  }

  function ToWall(c: Clock, x: real): real
    requires Runs(c)
  {
    x / c.scale
  }

  // Scaled seconds since the start, at a reading of the wall clock.
  function Elapsed(c: Clock, now: real): real {
    ToScaled(c, now - c.start)
  }

  predicate InSight(c: Clock, now: real)
    requires Runs(c)
  {
    IsVisible(c, Elapsed(c, now))
  }

  // Wall-clock seconds until the satellite comes in sight, and how long a pass lasts.
  function WaitFrom(c: Clock, now: real): real
    requires Runs(c)
  {
    ToWall(c, TimeToNextPass(c, Elapsed(c, now)))
  }

  function PassLength(c: Clock): real
    requires Runs(c)
  {
    ToWall(c, c.visibility)
  }

  lemma ElapsedLater(c: Clock, now: real, t: real)
    ensures Elapsed(c, t) == Elapsed(c, now) + ToScaled(c, t - now)
  {
    Difference(t - c.start, now - c.start, c.scale);
  }

  lemma ScaleKeepsOrder(c: Clock, a: real, b: real)
    requires Runs(c)
    ensures a < b <==> ToScaled(c, a) < ToScaled(c, b)
  {
    if a < b {
      ScaledLess(a, b, c.scale);
    } else {
      Scaled(b, a, c.scale);
    }
  }

  lemma ScaleFacts(c: Clock, x: real)
    requires Runs(c)
    ensures ToScaled(c, ToWall(c, x)) == x && ToScaled(c, 0.0) == 0.0
  {
    Quotient(x, c.scale);
  }

  // Comparing by the wall clock with a scaled time is comparing scaled times.
  lemma WallOrder(c: Clock, d: real, x: real)
    requires Runs(c)
    ensures d < ToWall(c, x) <==> ToScaled(c, d) < x
    ensures 0.0 <= d <==> 0.0 <= ToScaled(c, d)
    ensures 0.0 <= ToWall(c, x) <==> 0.0 <= x
    ensures ToWall(c, x) == 0.0 <==> x == 0.0
  {
    hide ToScaled, ToWall;
    ScaleFacts(c, x);
    ScaleKeepsOrder(c, d, ToWall(c, x));
    ScaleKeepsOrder(c, d, 0.0);
    ScaleKeepsOrder(c, ToWall(c, x), 0.0);
    ScaleKeepsOrder(c, 0.0, ToWall(c, x));
  }

  lemma WaitIsNoOrbit(c: Clock, elapsed: real)
    requires c.period > 0.0 && c.visibility > 0.0
    ensures 0.0 <= TimeToNextPass(c, elapsed) && (TimeToNextPass(c, elapsed) == 0.0 <==> IsVisible(c, elapsed))
  {
    hide Phase;
  }

  // The satellite is not in sight before the wait is over, and is when it is.
  lemma SightIsAfterWait(c: Clock, now: real)
    requires Runs(c)
    ensures 0.0 <= WaitFrom(c, now) && InSight(c, now + WaitFrom(c, now))
    ensures forall t :: now <= t < now + WaitFrom(c, now) ==> !InSight(c, t)
    ensures WaitFrom(c, now) == 0.0 <==> InSight(c, now)
  {
    hide ToScaled, ToWall, Elapsed, TimeToNextPass, IsVisible;
    var e := Elapsed(c, now);
    var x := TimeToNextPass(c, e);
    WaitIsLeast(c, e);
    WaitIsNoOrbit(c, e);
    WallOrder(c, 0.0, x);
    ScaleFacts(c, x);
    ElapsedLater(c, now, now + WaitFrom(c, now));
    assert now + WaitFrom(c, now) - now == WaitFrom(c, now);
    forall t | now <= t < now + WaitFrom(c, now) ensures !InSight(c, t) {
      ElapsedLater(c, now, t);
      WallOrder(c, t - now, x);
      assert !VisibleAfter(c, e, ToScaled(c, t - now));
    }
  }

  lemma PhaseAtSight(c: Clock, elapsed: real)
    requires c.period > 0.0 && c.visibility > 0.0 && TimeToNextPass(c, elapsed) > 0.0
    ensures Phase(c, elapsed + TimeToNextPass(c, elapsed)) == 0.0
    ensures c.visibility < c.period
  {
    var ph := Phase(c, elapsed);
    hide Phase;
    PhaseLater(c, elapsed, c.period - ph);
  }

  // After a blackout the satellite stays in sight for a whole pass.
  lemma SightLasts(c: Clock, now: real, t: real)
    requires Runs(c) && WaitFrom(c, now) > 0.0
    requires now + WaitFrom(c, now) <= t < now + WaitFrom(c, now) + PassLength(c)
    ensures InSight(c, t)
  {
    hide ToScaled, ToWall, Elapsed, TimeToNextPass, Phase;
    var e := Elapsed(c, now);
    var x := TimeToNextPass(c, e);
    var sight := now + WaitFrom(c, now);
    WaitIsNoOrbit(c, e);
    WallOrder(c, 0.0, x);
    ScaleFacts(c, x);
    ElapsedLater(c, now, sight);
    assert sight - now == WaitFrom(c, now);
    PhaseAtSight(c, e);
    ElapsedLater(c, sight, t);
    WallOrder(c, t - sight, c.visibility);
    PhaseLater(c, Elapsed(c, sight), ToScaled(c, t - sight));
  }

  // The first pass begins when the clock starts and is followed by the first blackout.
  lemma FirstPass(c: Clock, now: real)
    requires Runs(c) && c.start <= now
    ensures now < c.start + c.visibility / c.scale ==> InSight(c, now)
    ensures c.start + c.visibility / c.scale <= now < c.start + c.period / c.scale ==> !InSight(c, now)
  {
    assert c.visibility / c.scale == ToWall(c, c.visibility) && c.period / c.scale == ToWall(c, c.period);
    hide ToScaled, ToWall, Phase;
    WallOrder(c, now - c.start, c.visibility);
    WallOrder(c, now - c.start, c.period);
    if ToScaled(c, now - c.start) < c.period {
      assert 0 as real * c.period == 0.0;
      PhaseIs(c, ToScaled(c, now - c.start), 0, ToScaled(c, now - c.start));
    }
  }

  // And an orbit later everything looks the same.
  lemma SightRepeats(c: Clock, now: real)
    requires Runs(c)
    ensures InSight(c, now + c.period / c.scale) <==> InSight(c, now)
  {
    assert c.period / c.scale == ToWall(c, c.period);
    hide Phase, ToScaled, ToWall, Elapsed;
    var later := now + ToWall(c, c.period);
    assert later - now == ToWall(c, c.period);
    ScaleFacts(c, c.period);
    ElapsedLater(c, now, later);
    OrbitsRepeat(c, Elapsed(c, now));
  }
}
