/** The yaw and pitch actuators: angles as reals, Python's floor modulus, commands and the emergency stop. */
module Actuator {
  const YAW_MIN_DEG: real := 0.0
  const YAW_MAX_DEG: real := 360.0
  const PITCH_MIN_DEG: real := 0.0
  const PITCH_MAX_DEG: real := 90.0
  const YAW_RATE_DEG_S: real := 3.0
  const PITCH_RATE_DEG_S: real := 5.0

  function Min(a: real, b: real): real {
    if a <= b then a else b
  }

  function Max(a: real, b: real): real {
    if a >= b then a else b
  }

  function Abs(a: real): real {
    if a >= 0.0 then a else -a
  }

  // An angle brought into one turn of the circle, as Python's modulus does: never negative.
  function Mod360(x: real): (r: real)
    ensures 0.0 <= r < 360.0
  {
    x - 360.0 * (x / 360.0).Floor as real
  }

  lemma Mod360Is(x: real, k: int, r: real)
    requires x == 360.0 * k as real + r && 0.0 <= r < 360.0
    ensures Mod360(x) == r
  {
    assert x / 360.0 == k as real + r / 360.0;
    assert 0.0 <= r / 360.0 < 1.0;
    assert (x / 360.0).Floor == k;
  }

  datatype State = State(yaw: real, pitch: real, yawTarget: real, pitchTarget: real, eStop: bool)

  const INITIAL: State := State(180.0, 10.0, 180.0, 10.0, false)

  datatype Result = Done | OutOfRange | EmergencyStopActive

  predicate YawInRange(a: real) {
    YAW_MIN_DEG <= a <= YAW_MAX_DEG
  }

  predicate PitchInRange(a: real) {
    PITCH_MIN_DEG <= a <= PITCH_MAX_DEG
  }

  function YawResult(s: State, angle: real): Result {
    if !YawInRange(angle) then OutOfRange else if s.eStop then EmergencyStopActive else Done
  }

  function PitchResult(s: State, angle: real): Result {
    if !PitchInRange(angle) then OutOfRange else if s.eStop then EmergencyStopActive else Done
  }

  // The signed way to the yaw target that the code computes, and one bounded step along it.
  function YawError(s: State): (e: real)
    ensures -180.0 <= e < 180.0
  {
    Mod360(s.yawTarget - s.yaw + 180.0) - 180.0
  }

  function YawMove(s: State, dt: real): real {
    Max(-YAW_RATE_DEG_S * dt, Min(YAW_RATE_DEG_S * dt, YawError(s)))
  }

  function PitchMove(s: State, dt: real): real {
    Max(-PITCH_RATE_DEG_S * dt, Min(PITCH_RATE_DEG_S * dt, s.pitchTarget - s.pitch))
  }

  function AfterTick(s: State, dt: real): State {
    if s.eStop then
      s.(pitch := Min(PITCH_MAX_DEG, s.pitch + PITCH_RATE_DEG_S * dt))
    else
      s.(yaw := Mod360(s.yaw + YawMove(s, dt)),
         pitch := Max(PITCH_MIN_DEG, Min(PITCH_MAX_DEG, s.pitch + PitchMove(s, dt))))
  }

  // ---- The distance on the circle ----

  function Distance(s: State): (d: real)
    ensures 0.0 <= d <= 180.0
  {
    Abs(YawError(s))
  }

  // One way from the actual yaw to the target: so many degrees, and any number of full turns.
  function Way(s: State, turns: int): real {
    s.yawTarget - s.yaw + 360.0 * turns as real
  }

  // The computed error is one of these ways, and no way is shorter: `Distance` is the length of the shortest arc.
  lemma DistanceIsShortest(s: State, turns: int)
    ensures Distance(s) <= Abs(Way(s, turns))
    ensures Way(s, -((s.yawTarget - s.yaw + 180.0) / 360.0).Floor) == YawError(s)
  {
    var k := ((s.yawTarget - s.yaw + 180.0) / 360.0).Floor;
    assert Way(s, -k) == YawError(s);
    var n := turns + k;
    assert Way(s, turns) == YawError(s) + 360.0 * n as real;
    assert n >= 1 ==> 360.0 * n as real >= 360.0;
    assert n <= -1 ==> 360.0 * n as real <= -360.0;
  }

  // A step shortens the error by exactly the move, full turns included.
  lemma TickShortensError(s: State, dt: real)
    requires !s.eStop && dt >= 0.0
    ensures YawError(AfterTick(s, dt)) == YawError(s) - YawMove(s, dt)
  {
    var t, e, move := AfterTick(s, dt), YawError(s), YawMove(s, dt);
    var k := ((s.yawTarget - s.yaw + 180.0) / 360.0).Floor;
    var j := ((s.yaw + move) / 360.0).Floor;
    assert t.yaw == s.yaw + move - 360.0 * j as real;
    assert e - move >= -180.0 && e - move < 180.0;
    assert t.yawTarget - t.yaw + 180.0 == 360.0 * (k + j) as real + (e - move + 180.0);
    Mod360Is(t.yawTarget - t.yaw + 180.0, k + j, e - move + 180.0);
  }

  lemma TickShortensDistance(s: State, dt: real)
    requires !s.eStop && dt >= 0.0
    ensures Distance(AfterTick(s, dt)) == Max(0.0, Distance(s) - YAW_RATE_DEG_S * dt)
  {
    TickShortensError(s, dt);
    hide Mod360, AfterTick;
  }

  // ---- The object ----

  class ActuatorState {
    var yawActual: real
    var pitchActual: real
    var yawTarget: real
    var pitchTarget: real
    var eStop: bool

    ghost function Value(): State
      reads this
    {
      State(yawActual, pitchActual, yawTarget, pitchTarget, eStop)
    }

    constructor ()
      ensures Value() == INITIAL == State(180.0, 10.0, 180.0, 10.0, false)
    {
      yawActual, pitchActual, yawTarget, pitchTarget, eStop := 180.0, 10.0, 180.0, 10.0, false;
    }

    method ApplyYaw(angle: real) returns (r: Result)
      modifies this`yawTarget
      ensures r == YawResult(old(Value()), angle)
      ensures r.OutOfRange? <==> angle < 0.0 || angle > 360.0
      ensures r.Done? <==> 0.0 <= angle <= 360.0 && !eStop
      ensures yawTarget == if 0.0 <= angle <= 360.0 && !eStop then angle else old(yawTarget)
    {
      if !(YAW_MIN_DEG <= angle <= YAW_MAX_DEG) {
        return OutOfRange;
      }
      if eStop {
        return EmergencyStopActive;
      }
      yawTarget := angle;
      return Done;
    }

    method ApplyPitch(angle: real) returns (r: Result)
      modifies this`pitchTarget
      ensures r == PitchResult(old(Value()), angle)
      ensures r.OutOfRange? <==> angle < 0.0 || angle > 90.0
      ensures r.Done? <==> 0.0 <= angle <= 90.0 && !eStop
      ensures pitchTarget == if 0.0 <= angle <= 90.0 && !eStop then angle else old(pitchTarget)
    {
      if !(PITCH_MIN_DEG <= angle <= PITCH_MAX_DEG) {
        return OutOfRange;
      }
      if eStop {
        return EmergencyStopActive;
      }
      pitchTarget := angle;
      return Done;
    }

    method EmergencyStop()
      modifies this`eStop, this`pitchTarget
      ensures eStop && pitchTarget == 90.0
    {
      eStop, pitchTarget := true, PITCH_MAX_DEG;
    }

    // Without emergency stop the shortest way to the yaw target gets shorter by what the rate allows, and no more.
    method Tick(dt: real)
      modifies this`yawActual, this`pitchActual
      ensures Value() == AfterTick(old(Value()), dt)
      ensures !eStop && dt >= 0.0 ==> Distance(Value()) == Max(0.0, Distance(old(Value())) - YAW_RATE_DEG_S * dt)
    {
      if !eStop && dt >= 0.0 {
        TickShortensDistance(Value(), dt);
      }
      if eStop {
        pitchActual := Min(PITCH_MAX_DEG, pitchActual + PITCH_RATE_DEG_S * dt);
        return;
      }
      var yawErr := Mod360(yawTarget - yawActual + 180.0) - 180.0;
      var move := Max(-YAW_RATE_DEG_S * dt, Min(YAW_RATE_DEG_S * dt, yawErr));
      yawActual := Mod360(yawActual + move);
      var pitchErr := pitchTarget - pitchActual;
      var moveP := Max(-PITCH_RATE_DEG_S * dt, Min(PITCH_RATE_DEG_S * dt, pitchErr));
      pitchActual := Max(PITCH_MIN_DEG, Min(PITCH_MAX_DEG, pitchActual + moveP));
    }
  }

  // ---- Runs ----

  datatype Event = Yaw(angle: real) | Pitch(angle: real) | EmergencyStop | Tick(dt: real)

  function Next(s: State, e: Event): State {
    match e
    case Yaw(angle) => if YawResult(s, angle).Done? then s.(yawTarget := angle) else s
    case Pitch(angle) => if PitchResult(s, angle).Done? then s.(pitchTarget := angle) else s
    case EmergencyStop => s.(eStop := true, pitchTarget := PITCH_MAX_DEG)
    case Tick(dt) => AfterTick(s, dt)
  }

  function Run(s: State, es: seq<Event>): State {
    if es == [] then s else Next(Run(s, es[..|es| - 1]), es[|es| - 1])
  }

  // Time goes forward.
  predicate Forward(es: seq<Event>) {
    forall i :: 0 <= i < |es| && es[i].Tick? ==> es[i].dt >= 0.0
  }

  function TimeOf(es: seq<Event>): real {
    if es == [] then 0.0
    else TimeOf(es[..|es| - 1]) + if es[|es| - 1].Tick? then es[|es| - 1].dt else 0.0
  }

  lemma {:induction false} TimeIsForward(es: seq<Event>)
    requires Forward(es)
    ensures TimeOf(es) >= 0.0
  {
    if es != [] {
      TimeIsForward(es[..|es| - 1]);
    }
  }

  predicate InRange(s: State) {
    0.0 <= s.yaw < 360.0 && PitchInRange(s.pitch) && YawInRange(s.yawTarget) && PitchInRange(s.pitchTarget)
  }

  lemma {:induction false} KeepsRange(s: State, es: seq<Event>)
    requires InRange(s) && Forward(es)
    ensures InRange(Run(s, es))
  {
    if es != [] {
      KeepsRange(s, es[..|es| - 1]);
      hide Mod360;
    }
  }

  // Main result: in every run the actual yaw stays on the circle and the pitch between its stops.
  lemma AlwaysInRange(es: seq<Event>)
    requires Forward(es)
    ensures InRange(Run(INITIAL, es))
  {
    KeepsRange(INITIAL, es);
  }

  // Main result: between yaw commands and without emergency stop, whatever pitch commands come in, the shortest arc to
  // the yaw target shrinks at exactly the yaw rate until it is zero.
  lemma {:induction false} YawConverges(s: State, es: seq<Event>)
    requires Forward(es) && !s.eStop && forall i :: 0 <= i < |es| ==> es[i].Tick? || es[i].Pitch?
    ensures !Run(s, es).eStop && Run(s, es).yawTarget == s.yawTarget
    ensures Distance(Run(s, es)) == Max(0.0, Distance(s) - 3.0 * TimeOf(es))
  {
    if es != [] {
      var before, e := es[..|es| - 1], es[|es| - 1];
      YawConverges(s, before);
      TimeIsForward(before);
      var p := Run(s, before);
      if e.Tick? {
        TickShortensDistance(p, e.dt);
      }
      hide Mod360, YawMove, PitchMove;
    }
  }

  // The same for the pitch between pitch commands.
  lemma {:induction false} PitchConverges(s: State, es: seq<Event>)
    requires Forward(es) && !s.eStop && InRange(s) && forall i :: 0 <= i < |es| ==> es[i].Tick? || es[i].Yaw?
    ensures var t := Run(s, es);
      && !t.eStop && t.pitchTarget == s.pitchTarget && InRange(t)
      && Abs(t.pitchTarget - t.pitch) == Max(0.0, Abs(s.pitchTarget - s.pitch) - 5.0 * TimeOf(es))
  {
    if es != [] {
      PitchConverges(s, es[..|es| - 1]);
      TimeIsForward(es[..|es| - 1]);
      hide Mod360, YawMove;
    }
  }

  lemma NoDistance(s: State)
    requires Distance(s) == 0.0 && 0.0 <= s.yaw < 360.0 && YawInRange(s.yawTarget)
    ensures s.yaw == if s.yawTarget == 360.0 then 0.0 else s.yawTarget
  {
    var k := ((s.yawTarget - s.yaw + 180.0) / 360.0).Floor;
    assert s.yawTarget - s.yaw == 360.0 * k as real;
    assert k >= 2 ==> 360.0 * k as real >= 720.0;
    assert k <= -1 ==> 360.0 * k as real <= -360.0;
  }

  // Main result: a yaw command within range is taken when there is no stop, and a minute of ticks later, whatever pitch
  // commands come in between, the turbine points there. North is 0 and 360.
  lemma YawCommandIsReached(s: State, angle: real, es: seq<Event>)
    requires InRange(s) && !s.eStop && 0.0 <= angle <= 360.0
    requires Forward(es) && (forall i :: 0 <= i < |es| ==> es[i].Tick? || es[i].Pitch?) && TimeOf(es) >= 60.0
    ensures Run(Next(s, Yaw(angle)), es).yaw == if angle == 360.0 then 0.0 else angle
  {
    var t := Next(s, Yaw(angle));
    YawConverges(t, es);
    KeepsRange(t, es);
    NoDistance(Run(t, es));
  }

  // And a pitch command is there after 18 seconds.
  lemma PitchCommandIsReached(s: State, angle: real, es: seq<Event>)
    requires InRange(s) && !s.eStop && 0.0 <= angle <= 90.0
    requires Forward(es) && (forall i :: 0 <= i < |es| ==> es[i].Tick? || es[i].Yaw?) && TimeOf(es) >= 18.0
    ensures Run(Next(s, Pitch(angle)), es).pitch == angle
  {
    PitchConverges(Next(s, Pitch(angle)), es);
  }

  // Main result: after an emergency stop nothing moves the yaw or any target again, and the pitch rises at its rate to
  // 90 degrees and stays, whatever commands come in.
  lemma {:induction false} EmergencyStopIsFinal(s: State, es: seq<Event>)
    requires InRange(s) && Forward(es)
    ensures var t := Run(Next(s, EmergencyStop), es);
      && t.eStop && t.yaw == s.yaw && t.yawTarget == s.yawTarget && t.pitchTarget == 90.0
      && t.pitch == Min(90.0, s.pitch + 5.0 * TimeOf(es))
  {
    if es != [] {
      EmergencyStopIsFinal(s, es[..|es| - 1]);
      TimeIsForward(es[..|es| - 1]);
      hide Mod360, YawMove, PitchMove;
    }
  }
}
