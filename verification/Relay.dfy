/**
 * The satellite relay: a receive thread that routes valid frames into two queues, and one drain thread per queue that
 * passes them through the channel. Any interleaving of the threads' steps, with clock readings that do not go back, is
 * a run.
 */
module Relay {
  import opened Bytes
  import opened Frame
  import opened Channel
  import Corruption
  import Orbit

  const BLACKOUT_MAX_AGE_S: real := 120.0
  const NAP_S: real := 1.0

  // A queue entry; `id` says how many frames were enqueued in this direction before it.
  datatype Item = Item(id: nat, enqueuedAt: real, raw: bytes)

  // What a drain thread holds between its steps: an entry just fetched; one past the age check and waiting, which looks
  // for the satellite again at `wakesAt` or later; one whose wait ended at a look; one about to enter the channel; or
  // the channel's output about to be sent.
  datatype Hand =
    | Empty
    | Fetched(item: Item)
    | Waiting(item: Item, checkedAt: real, wakesAt: real)
    | Seen(item: Item, checkedAt: real, seenAt: real)
    | Ready(item: Item, checkedAt: real, seenAt: real)
    | Sending(item: Item, checkedAt: real, seenAt: real, data: bytes)

  datatype Fate =
    | Stale
    | DroppedAtStop
    | LostInChannel
    | SendFailed
    | Forwarded(data: bytes, checkedAt: real, seenAt: real, forwardedAt: real)

  datatype Lane = Lane(
    queue: seq<Item>,
    hand: Hand,
    log: seq<Item>,          // everything ever enqueued
    fates: map<nat, Fate>,   // what became of each entry that is done with
    out: seq<nat>,           // entries forwarded, in order
    looping: bool)           // the drain thread has passed its loop test and has not fetched yet

  // `receiving`: the receive thread has passed its loop test and waits for a datagram. `clock`: the latest reading.
  datatype State = State(
    up: Lane,
    down: Lane,
    running: bool,
    receiving: bool,
    clock: real,
    txCount: nat,
    lostCount: nat)

  // A step of a drain thread: test `_running`, get an entry, check its age, look for the satellite, test `_running`
  // again, pass the entry to the channel, send it.
  datatype DrainStep =
    | LoopTest
    | Take
    | CheckAge(now: real)
    | Look(now: real)
    | Resume
    | Transmit(now: real, lost: bool, error: BitError)
    | SendTo(now: real, ok: bool)

  datatype Event =
    | Listen
    | Datagram(raw: bytes, fromTurbine: bool, now: real)
    | Drain(up: bool, step: DrainStep)
    | Stop

  const NEW_LANE: Lane := Lane([], Empty, [], map[], [], false)

  // The relay as `start` leaves it, at this reading of the clock.
  function Start(clock: real): State {
    State(NEW_LANE, NEW_LANE, true, false, clock, 0, 0)
  }

  function LaneOf(s: State, up: bool): Lane {
    if up then s.up else s.down
  }

  function WithLane(s: State, up: bool, l: Lane): State {
    if up then s.(up := l) else s.(down := l)
  }

  function Enqueue(l: Lane, raw: bytes, now: real): Lane {
    var item := Item(|l.log|, now, raw);
    l.(queue := l.queue + [item], log := l.log + [item])
  }

  function Finish(l: Lane, fate: Fate): Lane
    requires !l.hand.Empty?
  {
    var id := l.hand.item.id;
    l.(hand := Empty, fates := l.fates[id := fate], out := if fate.Forwarded? then l.out + [id] else l.out)
  }

  // The wait: it ends at a look that sees the satellite or the relay stopped, and goes on for a nap otherwise.
  function AfterLook(sat: Orbit.Satellite, h: Hand, running: bool, now: real): Hand
    requires h.Waiting?
  {
    if now < h.wakesAt then h
    else if running && !Orbit.InSight(sat, now) then Waiting(h.item, h.checkedAt, now + NAP_S)
    else Seen(h.item, h.checkedAt, now)
  }

  // The channel is used, and counts the frame.
  predicate Transmits(l: Lane, step: DrainStep) {
    step.Transmit? && l.hand.Ready? && ValidDraw(l.hand.item.raw, step.error)
  }

  // The channel looks for the satellite once more.
  function ChannelOutcome(sat: Orbit.Satellite, l: Lane, step: DrainStep): Outcome
    requires Transmits(l, step)
  {
    Transmitted(l.hand.item.raw, Orbit.InSight(sat, step.now), step.lost, step.error)
  }

  function LaneStep(sat: Orbit.Satellite, l: Lane, running: bool, step: DrainStep): Lane {
    match step
    case LoopTest =>
      if l.hand.Empty? then l.(looping := running) else l
    case Take =>
      if l.hand.Empty? && l.looping && l.queue != [] then
        l.(hand := Fetched(l.queue[0]), queue := l.queue[1..], looping := false)
      else l
    case CheckAge(now) =>
      if !l.hand.Fetched? then l
      else if now - l.hand.item.enqueuedAt > BLACKOUT_MAX_AGE_S then Finish(l, Stale)
      else l.(hand := Waiting(l.hand.item, now, now))
    case Look(now) =>
      if !l.hand.Waiting? then l else l.(hand := AfterLook(sat, l.hand, running, now))
    case Resume =>
      if !l.hand.Seen? then l
      else if running then l.(hand := Ready(l.hand.item, l.hand.checkedAt, l.hand.seenAt))
      else Finish(l, DroppedAtStop)
    case Transmit(now, lost, error) =>
      if !Transmits(l, step) then l
      else
        var r := ChannelOutcome(sat, l, step);
        if r.Delivered? then l.(hand := Sending(l.hand.item, l.hand.checkedAt, l.hand.seenAt, r.data))
        else Finish(l, LostInChannel)
    case SendTo(now, ok) =>
      if !l.hand.Sending? then l
      else Finish(l, if ok then Forwarded(l.hand.data, l.hand.checkedAt, l.hand.seenAt, now) else SendFailed)
  }

  predicate Loses(sat: Orbit.Satellite, l: Lane, step: DrainStep) {
    Transmits(l, step) && ChannelOutcome(sat, l, step).Lost?
  }

  predicate ReadsClock(e: Event) {
    e.Datagram? || (e.Drain? && !e.step.LoopTest? && !e.step.Take? && !e.step.Resume?)
  }

  function Reading(e: Event): real
    requires ReadsClock(e)
  {
    if e.Datagram? then e.now else e.step.now
  }

  function ClockAfter(s: State, e: Event): real {
    if ReadsClock(e) then Reading(e) else s.clock
  }

  function Step(sat: Orbit.Satellite, s: State, e: Event): State {
    match e
    case Listen => s.(receiving := s.running)
    case Datagram(raw, fromTurbine, now) =>
      if s.receiving && Parse(raw).Valid? then
        WithLane(s, fromTurbine, Enqueue(LaneOf(s, fromTurbine), raw, now)).(receiving := false)
      else s.(receiving := false)
    case Drain(up, step) =>
      var l := LaneOf(s, up);
      WithLane(s, up, LaneStep(sat, l, s.running, step)).(
        txCount := if Transmits(l, step) then s.txCount + 1 else s.txCount,
        lostCount := if Loses(sat, l, step) then s.lostCount + 1 else s.lostCount)
    case Stop => s.(running := false)
  }

  // The clock never goes back: an event with an earlier reading cannot happen, and is skipped.
  function Next(sat: Orbit.Satellite, s: State, e: Event): State {
    if ClockAfter(s, e) < s.clock then s else Step(sat, s, e).(clock := ClockAfter(s, e))
  }

  function Run(sat: Orbit.Satellite, s: State, es: seq<Event>): State {
    if es == [] then s else Next(sat, Run(sat, s, es[..|es| - 1]), es[|es| - 1])
  }

  // ---- The invariant of one direction ----

  ghost predicate OneBitApart(raw: bytes, data: bytes) {
    data == raw || exists i: nat, k: nat :: i < |raw| && k < 8 && data == Flip(raw, i, k)
  }

  predicate Increasing(ids: seq<nat>) {
    forall i, j :: 0 <= i < j < |ids| ==> ids[i] < ids[j]
  }

  function Taken(l: Lane): int {
    |l.log| - |l.queue|
  }

  // How many entries are done with.
  function Done(l: Lane): int {
    if l.hand.Empty? then Taken(l) else Taken(l) - 1
  }

  ghost predicate QueueInv(l: Lane) {
    && (forall i :: 0 <= i < |l.log| ==> l.log[i].id == i && Parse(l.log[i].raw).Valid?)
    && 0 <= Done(l) && l.queue == l.log[Taken(l)..]
    && (!l.hand.Empty? ==> l.hand.item == l.log[Done(l)])
    && (forall id :: id in l.fates <==> 0 <= id < Done(l))
  }

  ghost predicate OutInv(l: Lane) {
    && Increasing(l.out)
    && (forall id :: id in l.out <==> id in l.fates && l.fates[id].Forwarded?)
    && (forall id :: id in l.fates && l.fates[id].Forwarded? ==>
          id < |l.log| && OneBitApart(l.log[id].raw, l.fates[id].data))
    && (l.hand.Sending? ==> OneBitApart(l.hand.item.raw, l.hand.data))
  }

  // The readings on the way of an entry: young enough at the check, and the satellite in sight when the wait ended.
  predicate HandTimes(sat: Orbit.Satellite, h: Hand, running: bool, clock: real) {
    && (h.Waiting? || h.Seen? || h.Ready? || h.Sending? ==>
          0.0 <= h.checkedAt - h.item.enqueuedAt <= BLACKOUT_MAX_AGE_S && h.checkedAt <= clock)
    && (h.Waiting? ==> h.checkedAt <= h.wakesAt)
    && (h.Seen? || h.Ready? || h.Sending? ==> h.checkedAt <= h.seenAt <= clock)
    && ((h.Seen? && running) || h.Ready? || h.Sending? ==> Orbit.InSight(sat, h.seenAt))
  }

  predicate Departed(sat: Orbit.Satellite, item: Item, fate: Fate)
    requires fate.Forwarded?
  {
    && 0.0 <= fate.checkedAt - item.enqueuedAt <= BLACKOUT_MAX_AGE_S
    && fate.checkedAt <= fate.seenAt <= fate.forwardedAt
    && Orbit.InSight(sat, fate.seenAt)
  }

  ghost predicate TimeInv(sat: Orbit.Satellite, l: Lane, running: bool, clock: real) {
    && (forall i :: 0 <= i < |l.log| ==> l.log[i].enqueuedAt <= clock)
    && HandTimes(sat, l.hand, running, clock)
    && (forall id :: id in l.fates && l.fates[id].Forwarded? ==>
          id < |l.log| && Departed(sat, l.log[id], l.fates[id]))
  }

  lemma EnqueueKeepsInv(l: Lane, raw: bytes, now: real)
    requires QueueInv(l) && OutInv(l) && Parse(raw).Valid?
    ensures QueueInv(Enqueue(l, raw, now)) && OutInv(Enqueue(l, raw, now))
  {
    hide Parse, OneBitApart, Increasing;
    var t := Enqueue(l, raw, now);
    assert Taken(t) == Taken(l) && t.log[Taken(t)..] == l.log[Taken(l)..] + [t.log[|l.log|]];
  }

  lemma FinishKeepsInv(l: Lane, fate: Fate)
    requires QueueInv(l) && OutInv(l) && !l.hand.Empty?
    requires fate.Forwarded? ==> OneBitApart(l.hand.item.raw, fate.data)
    ensures QueueInv(Finish(l, fate)) && OutInv(Finish(l, fate))
  {
    hide Parse, OneBitApart;
    var t := Finish(l, fate);
    var id := l.hand.item.id;
    assert id == Done(l) && id !in l.fates;
    forall j | 0 <= j < |l.out| ensures l.out[j] < id {
      assert l.out[j] in l.out;
    }
  }

  lemma TakeKeepsInv(sat: Orbit.Satellite, l: Lane, running: bool)
    requires QueueInv(l) && OutInv(l)
    ensures QueueInv(LaneStep(sat, l, running, Take)) && OutInv(LaneStep(sat, l, running, Take))
  {
    hide Parse, Increasing, OneBitApart;
    if l.hand.Empty? && l.looping && l.queue != [] {
      assert l.queue[0] == l.log[Taken(l)];
      assert l.queue[1..] == l.log[Taken(l) + 1..];
    }
  }

  // Moving on to another stage with the same entry keeps everything.
  lemma MoveKeepsInv(l: Lane, hand: Hand)
    requires QueueInv(l) && OutInv(l)
    requires !l.hand.Empty? && !hand.Empty? && hand.item == l.hand.item
    requires hand.Sending? ==> OneBitApart(hand.item.raw, hand.data)
    ensures QueueInv(l.(hand := hand)) && OutInv(l.(hand := hand))
  {
    hide Parse, Increasing, OneBitApart;
  }

  lemma LoopTestKeepsInv(sat: Orbit.Satellite, l: Lane, running: bool)
    requires QueueInv(l) && OutInv(l)
    ensures QueueInv(LaneStep(sat, l, running, LoopTest)) && OutInv(LaneStep(sat, l, running, LoopTest))
  {
    hide Parse, Increasing, OneBitApart;
  }

  lemma LookKeepsItem(sat: Orbit.Satellite, h: Hand, running: bool, now: real)
    requires h.Waiting?
    ensures var g := AfterLook(sat, h, running, now);
      (g.Waiting? || g.Seen?) && g.item == h.item && g.checkedAt == h.checkedAt
  {
  }

  lemma TransmitKeepsInv(sat: Orbit.Satellite, l: Lane, running: bool, step: DrainStep)
    requires QueueInv(l) && OutInv(l) && step.Transmit?
    ensures QueueInv(LaneStep(sat, l, running, step)) && OutInv(LaneStep(sat, l, running, step))
  {
    hide QueueInv, OutInv, Orbit.InSight, Finish, Parse;
    if Transmits(l, step) {
      var r := ChannelOutcome(sat, l, step);
      if r.Delivered? {
        MoveKeepsInv(l, Sending(l.hand.item, l.hand.checkedAt, l.hand.seenAt, r.data));
      } else {
        FinishKeepsInv(l, LostInChannel);
      }
    }
  }

  lemma HandFacts(l: Lane)
    requires QueueInv(l) && OutInv(l)
    ensures l.hand.Sending? ==> OneBitApart(l.hand.item.raw, l.hand.data)
    ensures !l.hand.Empty? ==> Parse(l.hand.item.raw).Valid?
  {
    hide Parse, Increasing, OneBitApart;
  }

  lemma CheckAgeKeepsInv(sat: Orbit.Satellite, l: Lane, running: bool, now: real)
    requires QueueInv(l) && OutInv(l)
    ensures QueueInv(LaneStep(sat, l, running, CheckAge(now))) && OutInv(LaneStep(sat, l, running, CheckAge(now)))
  {
    hide QueueInv, OutInv, Finish;
    if l.hand.Fetched? {
      if now - l.hand.item.enqueuedAt > BLACKOUT_MAX_AGE_S {
        FinishKeepsInv(l, Stale);
      } else {
        MoveKeepsInv(l, Waiting(l.hand.item, now, now));
      }
    }
  }

  lemma LookKeepsInv(sat: Orbit.Satellite, l: Lane, running: bool, now: real)
    requires QueueInv(l) && OutInv(l)
    ensures QueueInv(LaneStep(sat, l, running, Look(now))) && OutInv(LaneStep(sat, l, running, Look(now)))
  {
    hide QueueInv, OutInv, AfterLook;
    if l.hand.Waiting? {
      LookKeepsItem(sat, l.hand, running, now);
      MoveKeepsInv(l, AfterLook(sat, l.hand, running, now));
    }
  }

  lemma ResumeKeepsInv(sat: Orbit.Satellite, l: Lane, running: bool)
    requires QueueInv(l) && OutInv(l)
    ensures QueueInv(LaneStep(sat, l, running, Resume)) && OutInv(LaneStep(sat, l, running, Resume))
  {
    hide QueueInv, OutInv, Finish;
    if l.hand.Seen? {
      if running {
        MoveKeepsInv(l, Ready(l.hand.item, l.hand.checkedAt, l.hand.seenAt));
      } else {
        FinishKeepsInv(l, DroppedAtStop);
      }
    }
  }

  lemma SendKeepsInv(sat: Orbit.Satellite, l: Lane, running: bool, now: real, ok: bool)
    requires QueueInv(l) && OutInv(l)
    ensures QueueInv(LaneStep(sat, l, running, SendTo(now, ok))) && OutInv(LaneStep(sat, l, running, SendTo(now, ok)))
  {
    HandFacts(l);
    hide QueueInv, OutInv, Finish, Parse;
    if l.hand.Sending? {
      FinishKeepsInv(l, if ok then Forwarded(l.hand.data, l.hand.checkedAt, l.hand.seenAt, now) else SendFailed);
    }
  }

  lemma LaneStepKeepsInv(sat: Orbit.Satellite, l: Lane, running: bool, step: DrainStep)
    requires QueueInv(l) && OutInv(l)
    ensures QueueInv(LaneStep(sat, l, running, step)) && OutInv(LaneStep(sat, l, running, step))
  {
    hide QueueInv, OutInv, LaneStep;
    match step
    case LoopTest => LoopTestKeepsInv(sat, l, running);
    case Take => TakeKeepsInv(sat, l, running);
    case CheckAge(now) => CheckAgeKeepsInv(sat, l, running, now);
    case Look(now) => LookKeepsInv(sat, l, running, now);
    case Resume => ResumeKeepsInv(sat, l, running);
    case Transmit(_, _, _) => TransmitKeepsInv(sat, l, running, step);
    case SendTo(now, ok) => SendKeepsInv(sat, l, running, now, ok);
  }

  lemma HandIsLogged(l: Lane)
    requires QueueInv(l)
    ensures !l.hand.Empty? ==>
      l.hand.item.id < |l.log| && l.log[l.hand.item.id] == l.hand.item && l.hand.item.id !in l.fates
  {
    hide Parse;
  }

  // ---- The readings of the clock ----

  lemma EnqueueKeepsTimes(sat: Orbit.Satellite, l: Lane, running: bool, clock: real, raw: bytes, now: real)
    requires TimeInv(sat, l, running, clock) && clock <= now
    ensures TimeInv(sat, Enqueue(l, raw, now), running, now)
  {
    hide Orbit.InSight;
  }

  // The other threads only move the clock, and may stop the relay.
  lemma LaterKeepsTimes(sat: Orbit.Satellite, l: Lane, running: bool, clock: real, stillRunning: bool, now: real)
    requires TimeInv(sat, l, running, clock) && clock <= now && (stillRunning ==> running)
    ensures TimeInv(sat, l, stillRunning, now)
  {
    hide Orbit.InSight, Departed;
  }

  lemma HandIsTimely(sat: Orbit.Satellite, l: Lane, running: bool, clock: real)
    requires QueueInv(l) && TimeInv(sat, l, running, clock)
    ensures HandTimes(sat, l.hand, running, clock) && (!l.hand.Empty? ==> l.hand.item.enqueuedAt <= clock)
  {
    hide HandTimes, Departed, Parse;
    HandIsLogged(l);
  }

  // What one step does to the readings of the entry in hand, and to its fate.
  predicate KeepsReadings(sat: Orbit.Satellite, l: Lane, t: Lane, running: bool, clock: real) {
    && t.log == l.log && HandTimes(sat, t.hand, running, clock)
    && (t.fates == l.fates
        || (!l.hand.Empty? && l.hand.item.id in t.fates && t.fates == l.fates[l.hand.item.id := t.fates[l.hand.item.id]]
            && (t.fates[l.hand.item.id].Forwarded? ==> Departed(sat, l.hand.item, t.fates[l.hand.item.id]))))
  }

  lemma LookKeepsReadings(sat: Orbit.Satellite, l: Lane, running: bool, step: DrainStep, later: real)
    requires HandTimes(sat, l.hand, running, later) && step.Look? && step.now == later
    ensures KeepsReadings(sat, l, LaneStep(sat, l, running, step), running, later)
  {
    hide Orbit.InSight;
  }

  lemma TransmitsReady(l: Lane, step: DrainStep)
    ensures Transmits(l, step) ==> l.hand.Ready?
  {
  }

  lemma TransmitKeepsReadings(sat: Orbit.Satellite, l: Lane, running: bool, step: DrainStep, later: real)
    requires HandTimes(sat, l.hand, running, later) && step.Transmit?
    ensures KeepsReadings(sat, l, LaneStep(sat, l, running, step), running, later)
  {
    hide Orbit.InSight, ChannelOutcome, Transmits;
    assert Transmits(l, step) ==> l.hand.Ready? by { TransmitsReady(l, step); }
  }

  lemma StepKeepsReadings(sat: Orbit.Satellite, l: Lane, running: bool, step: DrainStep, later: real)
    requires HandTimes(sat, l.hand, running, later) && (!l.hand.Empty? ==> l.hand.item.enqueuedAt <= later)
    requires ReadsClock(Drain(true, step)) ==> later == Reading(Drain(true, step))
    ensures KeepsReadings(sat, l, LaneStep(sat, l, running, step), running, later)
  {
    if step.Look? {
      LookKeepsReadings(sat, l, running, step, later);
    } else if step.Transmit? {
      TransmitKeepsReadings(sat, l, running, step, later);
    } else {
      hide Orbit.InSight, ChannelOutcome, Transmits, AfterLook;
    }
  }

  lemma ReadingsKeepTimes(sat: Orbit.Satellite, l: Lane, t: Lane, running: bool, clock: real)
    requires TimeInv(sat, l, running, clock) && KeepsReadings(sat, l, t, running, clock)
    requires !l.hand.Empty? ==> l.hand.item.id < |l.log| && l.log[l.hand.item.id] == l.hand.item
    ensures TimeInv(sat, t, running, clock)
  {
    hide Orbit.InSight, Departed, HandTimes;
  }

  lemma LaneStepKeepsTimes(sat: Orbit.Satellite, l: Lane, running: bool, step: DrainStep, clock: real, later: real)
    requires QueueInv(l) && TimeInv(sat, l, running, clock) && clock <= later
    requires ReadsClock(Drain(true, step)) ==> later == Reading(Drain(true, step))
    ensures TimeInv(sat, LaneStep(sat, l, running, step), running, later)
  {
    LaterKeepsTimes(sat, l, running, clock, running, later);
    HandIsTimely(sat, l, running, later);
    HandIsLogged(l);
    hide QueueInv, TimeInv, HandTimes, LaneStep, KeepsReadings;
    StepKeepsReadings(sat, l, running, step, later);
    ReadingsKeepTimes(sat, l, LaneStep(sat, l, running, step), running, later);
  }

  // ---- All runs ----

  ghost predicate LaneInv(sat: Orbit.Satellite, l: Lane, running: bool, clock: real) {
    QueueInv(l) && OutInv(l) && TimeInv(sat, l, running, clock)
  }

  ghost predicate Inv(sat: Orbit.Satellite, s: State) {
    LaneInv(sat, s.up, s.running, s.clock) && LaneInv(sat, s.down, s.running, s.clock)
  }

  lemma LaterKeepsLane(sat: Orbit.Satellite, l: Lane, running: bool, clock: real, stillRunning: bool, now: real)
    requires LaneInv(sat, l, running, clock) && clock <= now && (stillRunning ==> running)
    ensures LaneInv(sat, l, stillRunning, now)
  {
    hide QueueInv, OutInv, TimeInv;
    LaterKeepsTimes(sat, l, running, clock, stillRunning, now);
  }

  lemma EnqueueKeepsLane(sat: Orbit.Satellite, l: Lane, running: bool, clock: real, raw: bytes, now: real)
    requires LaneInv(sat, l, running, clock) && clock <= now && Parse(raw).Valid?
    ensures LaneInv(sat, Enqueue(l, raw, now), running, now)
  {
    hide QueueInv, OutInv, TimeInv, Parse;
    EnqueueKeepsInv(l, raw, now);
    EnqueueKeepsTimes(sat, l, running, clock, raw, now);
  }

  lemma LaneStepKeepsLane(sat: Orbit.Satellite, l: Lane, running: bool, step: DrainStep, clock: real, later: real)
    requires LaneInv(sat, l, running, clock) && clock <= later
    requires ReadsClock(Drain(true, step)) ==> later == Reading(Drain(true, step))
    ensures LaneInv(sat, LaneStep(sat, l, running, step), running, later)
  {
    hide QueueInv, OutInv, TimeInv, LaneStep;
    LaneStepKeepsInv(sat, l, running, step);
    LaneStepKeepsTimes(sat, l, running, step, clock, later);
  }

  lemma NextKeepsInv(sat: Orbit.Satellite, s: State, e: Event)
    requires Inv(sat, s)
    ensures Inv(sat, Next(sat, s, e))
  {
    hide LaneInv, Parse, LaneStep, Transmits, Loses, Enqueue;
    var now := ClockAfter(s, e);
    if now >= s.clock {
      var t := Next(sat, s, e);
      LaterKeepsLane(sat, s.up, s.running, s.clock, t.running, now);
      LaterKeepsLane(sat, s.down, s.running, s.clock, t.running, now);
      match e
      case Listen =>
      case Datagram(raw, fromTurbine, _) =>
        if Parse(raw).Valid? {
          EnqueueKeepsLane(sat, LaneOf(s, fromTurbine), s.running, s.clock, raw, now);
        }
      case Drain(up, step) =>
        LaneStepKeepsLane(sat, LaneOf(s, up), s.running, step, s.clock, now);
      case Stop =>
    }
  }

  lemma {:induction false} RunKeepsInv(sat: Orbit.Satellite, s: State, es: seq<Event>)
    requires Inv(sat, s)
    ensures Inv(sat, Run(sat, s, es))
  {
    hide Next, Inv;
    if es != [] {
      RunKeepsInv(sat, s, es[..|es| - 1]);
      NextKeepsInv(sat, Run(sat, s, es[..|es| - 1]), es[|es| - 1]);
    }
  }

  lemma NothingIsIncreasing()
    ensures Increasing([])
  {
  }

  lemma NewLaneInv(sat: Orbit.Satellite, l: Lane, clock: real)
    requires l == NEW_LANE
    ensures LaneInv(sat, l, true, clock)
  {
    hide Parse, OneBitApart, Increasing, Orbit.InSight;
    assert Taken(l) == 0 && Done(l) == 0;
    assert l.log[0..] == [];
    assert QueueInv(l);
    NothingIsIncreasing();
  }

  lemma StartInv(sat: Orbit.Satellite, clock: real)
    ensures Inv(sat, Start(clock))
  {
    hide LaneInv;
    NewLaneInv(sat, NEW_LANE, clock);
  }

  // ---- Main results ----

  predicate Queued(l: Lane, id: nat) {
    exists i :: 0 <= i < |l.queue| && l.queue[i].id == id
  }

  predicate Held(l: Lane, id: nat) {
    !l.hand.Empty? && l.hand.item.id == id
  }

  // Ids are positions in the log: the queue has the last of them, the hand the one before, the fates all the others.
  lemma WhereIdsAre(l: Lane)
    requires QueueInv(l)
    ensures 0 <= Done(l) <= Taken(l) && |l.queue| == |l.log| - Taken(l)
    ensures forall i :: 0 <= i < |l.queue| ==> l.queue[i].id == Taken(l) + i
    ensures !l.hand.Empty? ==> l.hand.item.id == Done(l)
    ensures forall id: nat :: id in l.fates <==> id < Done(l)
  {
    hide Parse;
    forall i | 0 <= i < |l.queue| ensures l.queue[i].id == Taken(l) + i {
      assert l.queue[i] == l.log[Taken(l) + i];
    }
  }

  // In each direction every enqueued frame is in exactly one place: waiting in the queue, in the drain thread's hand,
  // or done with, and then it has exactly one fate.
  lemma EveryFrameIsAccountedFor(sat: Orbit.Satellite, clock: real, es: seq<Event>, up: bool, id: nat)
    requires id < |LaneOf(Run(sat, Start(clock), es), up).log|
    ensures var l := LaneOf(Run(sat, Start(clock), es), up);
      && (Queued(l, id) <==> id >= Taken(l))
      && (Held(l, id) <==> Done(l) <= id < Taken(l))
      && (id in l.fates <==> id < Done(l))
      && Done(l) <= Taken(l)
  {
    hide Run, OutInv, TimeInv, QueueInv;
    StartInv(sat, clock);
    RunKeepsInv(sat, Start(clock), es);
    var l := LaneOf(Run(sat, Start(clock), es), up);
    WhereIdsAre(l);
    assert id >= Taken(l) ==> l.queue[id - Taken(l)].id == id;
  }

  // Forwarded frames keep enqueue order, go out once each, differ from what was enqueued in at most one bit, were at
  // most 120 s old when their age was checked, and left after a look that saw the satellite.
  lemma ForwardedInOrderOnceAlmostIntact(sat: Orbit.Satellite, clock: real, es: seq<Event>, up: bool)
    ensures var l := LaneOf(Run(sat, Start(clock), es), up);
      && Increasing(l.out)
      && (forall id :: id in l.out <==> id in l.fates && l.fates[id].Forwarded?)
      && (forall id :: id in l.out ==> id < |l.log| && OneBitApart(l.log[id].raw, l.fates[id].data))
      && (forall id :: id in l.out ==> Departed(sat, l.log[id], l.fates[id]))
  {
    hide Parse, Increasing, OneBitApart, Run, Departed, HandTimes, QueueInv;
    StartInv(sat, clock);
    RunKeepsInv(sat, Start(clock), es);
  }

  // ---- The channel's counters ----

  predicate Passed(f: Fate) {
    f.LostInChannel? || f.SendFailed? || f.Forwarded?
  }

  function PassedIds(fates: map<nat, Fate>): set<nat> {
    set id | id in fates && Passed(fates[id])
  }

  function LostIds(fates: map<nat, Fate>): set<nat> {
    set id | id in fates && fates[id].LostInChannel?
  }

  function TxOf(l: Lane): nat {
    |PassedIds(l.fates)| + if l.hand.Sending? then 1 else 0
  }

  lemma OneMorePassed(fates: map<nat, Fate>, id: nat, fate: Fate)
    requires id !in fates
    ensures |PassedIds(fates[id := fate])| == |PassedIds(fates)| + if Passed(fate) then 1 else 0
  {
    hide Passed;
    assert PassedIds(fates[id := fate]) == PassedIds(fates) + if Passed(fate) then {id} else {};
  }

  lemma OneMoreLost(fates: map<nat, Fate>, id: nat, fate: Fate)
    requires id !in fates
    ensures |LostIds(fates[id := fate])| == |LostIds(fates)| + if fate.LostInChannel? then 1 else 0
  {
    assert LostIds(fates[id := fate]) == LostIds(fates) + if fate.LostInChannel? then {id} else {};
  }

  lemma FinishCounts(l: Lane, fate: Fate)
    requires !l.hand.Empty? && l.hand.item.id !in l.fates
    ensures TxOf(Finish(l, fate)) == TxOf(l) + (if Passed(fate) then 1 else 0) - if l.hand.Sending? then 1 else 0
    ensures |LostIds(Finish(l, fate).fates)| == |LostIds(l.fates)| + if fate.LostInChannel? then 1 else 0
  {
    hide PassedIds, LostIds;
    OneMorePassed(l.fates, l.hand.item.id, fate);
    OneMoreLost(l.fates, l.hand.item.id, fate);
  }

  lemma NeverRaises(data: bytes, visible: bool, lost: bool, error: BitError)
    requires data != [] && ValidDraw(data, error)
    ensures !Transmitted(data, visible, lost, error).Raised?
  {
  }

  lemma TransmitCounts(sat: Orbit.Satellite, l: Lane, running: bool, step: DrainStep)
    requires step.Transmit? && (l.hand.Ready? ==> l.hand.item.id !in l.fates && l.hand.item.raw != [])
    ensures TxOf(LaneStep(sat, l, running, step)) == TxOf(l) + if Transmits(l, step) then 1 else 0
    ensures |LostIds(LaneStep(sat, l, running, step).fates)|
         == |LostIds(l.fates)| + if Loses(sat, l, step) then 1 else 0
  {
    hide Finish, PassedIds, LostIds, Transmitted, Orbit.InSight;
    if Transmits(l, step) {
      NeverRaises(l.hand.item.raw, Orbit.InSight(sat, step.now), step.lost, step.error);
      FinishCounts(l, LostInChannel);
    }
  }

  lemma SameFates(l: Lane, t: Lane)
    requires t.fates == l.fates && (t.hand.Sending? <==> l.hand.Sending?)
    ensures TxOf(t) == TxOf(l) && LostIds(t.fates) == LostIds(l.fates)
  {
  }

  lemma FinishLosesNothing(l: Lane, fate: Fate)
    requires !l.hand.Empty? && l.hand.item.id !in l.fates && !fate.LostInChannel?
    requires l.hand.Sending? <==> Passed(fate)
    ensures TxOf(Finish(l, fate)) == TxOf(l) && LostIds(Finish(l, fate).fates) == LostIds(l.fates)
  {
    hide PassedIds, TxOf;
    FinishCounts(l, fate);
    assert LostIds(Finish(l, fate).fates) == LostIds(l.fates);
  }

  lemma OtherStepCounts(sat: Orbit.Satellite, l: Lane, running: bool, step: DrainStep)
    requires !step.Transmit? && (!l.hand.Empty? ==> l.hand.item.id !in l.fates)
    ensures TxOf(LaneStep(sat, l, running, step)) == TxOf(l)
    ensures LostIds(LaneStep(sat, l, running, step).fates) == LostIds(l.fates)
  {
    hide Finish, PassedIds, LostIds, TxOf, Orbit.InSight;
    match step
    case LoopTest => SameFates(l, l.(looping := running));
    case Take => SameFates(l, LaneStep(sat, l, running, step));
    case CheckAge(now) =>
      if l.hand.Fetched? {
        FinishLosesNothing(l, Stale);
        SameFates(l, l.(hand := Waiting(l.hand.item, now, now)));
      }
    case Look(_) => SameFates(l, LaneStep(sat, l, running, step));
    case Resume =>
      if l.hand.Seen? {
        FinishLosesNothing(l, DroppedAtStop);
        SameFates(l, l.(hand := Ready(l.hand.item, l.hand.checkedAt, l.hand.seenAt)));
      }
    case SendTo(now, ok) =>
      if l.hand.Sending? {
        FinishLosesNothing(l, if ok then Forwarded(l.hand.data, l.hand.checkedAt, l.hand.seenAt, now) else SendFailed);
      }
  }

  lemma HandIsNew(l: Lane)
    requires QueueInv(l)
    ensures !l.hand.Empty? ==> l.hand.item.id !in l.fates && l.hand.item.raw != []
  {
  }

  lemma LaneStepCounts(sat: Orbit.Satellite, l: Lane, running: bool, step: DrainStep)
    requires QueueInv(l)
    ensures TxOf(LaneStep(sat, l, running, step)) == TxOf(l) + if Transmits(l, step) then 1 else 0
    ensures |LostIds(LaneStep(sat, l, running, step).fates)|
         == |LostIds(l.fates)| + if Loses(sat, l, step) then 1 else 0
  {
    HandIsNew(l);
    hide QueueInv, LaneStep, LostIds, TxOf, Transmitted, Orbit.InSight;
    if step.Transmit? {
      TransmitCounts(sat, l, running, step);
    } else {
      OtherStepCounts(sat, l, running, step);
    }
  }

  ghost predicate CountersInv(s: State) {
    s.txCount == TxOf(s.up) + TxOf(s.down) && s.lostCount == |LostIds(s.up.fates)| + |LostIds(s.down.fates)|
  }

  lemma NextKeepsCounters(sat: Orbit.Satellite, s: State, e: Event)
    requires Inv(sat, s) && CountersInv(s)
    ensures CountersInv(Next(sat, s, e))
  {
    hide QueueInv, OutInv, TimeInv, Parse, LaneStep, Transmits, Loses, PassedIds, LostIds;
    match e
    case Listen =>
    case Datagram(_, _, _) =>
    case Drain(up, step) =>
      LaneStepCounts(sat, LaneOf(s, up), s.running, step);
    case Stop =>
  }

  // The statistics are exact: `transmitted` counts the frames of both directions that went through the channel, and
  // `lost` those of them that it dropped.
  lemma {:induction false} CountersAreExact(sat: Orbit.Satellite, clock: real, es: seq<Event>)
    ensures CountersInv(Run(sat, Start(clock), es))
  {
    if es != [] {
      hide Next, CountersInv, Inv;
      CountersAreExact(sat, clock, es[..|es| - 1]);
      StartInv(sat, clock);
      RunKeepsInv(sat, Start(clock), es[..|es| - 1]);
      NextKeepsCounters(sat, Run(sat, Start(clock), es[..|es| - 1]), es[|es| - 1]);
    }
  }

  // ---- What the far end can parse ----

  // A bit error that hits a LEN field is not one of those that pass.
  predicate FlipFails(raw: bytes, error: BitError)
    requires ValidDraw(raw, error)
  {
    error.BitError? && raw != [] && Corruption.LengthByte(error.i) ==>
      !Corruption.LengthPasses(Flip(raw, error.i, error.k))
  }

  predicate EventFlipFails(s: State, e: Event) {
    e.Drain? && Transmits(LaneOf(s, e.up), e.step) ==> FlipFails(LaneOf(s, e.up).hand.item.raw, e.step.error)
  }

  // Of the bit errors in this run none passes as a frame of another length.
  predicate NoFlipPasses(sat: Orbit.Satellite, s: State, es: seq<Event>) {
    es == []
    || (NoFlipPasses(sat, s, es[..|es| - 1]) && EventFlipFails(Run(sat, s, es[..|es| - 1]), es[|es| - 1]))
  }

  predicate SameOrInvalid(raw: bytes, data: bytes) {
    Parse(data) == Parse(raw) || Parse(data).Invalid?
  }

  // What was forwarded, or is about to be, parses to what was enqueued or not at all.
  ghost predicate CleanInv(l: Lane) {
    && (forall id :: id in l.fates && l.fates[id].Forwarded? ==>
          id < |l.log| && SameOrInvalid(l.log[id].raw, l.fates[id].data))
    && (l.hand.Sending? ==> SameOrInvalid(l.hand.item.raw, l.hand.data))
  }

  lemma NotEmpty(raw: bytes)
    requires Parse(raw).Valid?
    ensures raw != []
  {
  }

  lemma TransmittedIsClean(raw: bytes, visible: bool, lost: bool, error: BitError)
    requires Parse(raw).Valid? && ValidDraw(raw, error) && FlipFails(raw, error)
    ensures var r := Transmitted(raw, visible, lost, error);
      r.Delivered? ==> SameOrInvalid(raw, r.data)
  {
    NotEmpty(raw);
    hide Parse, Flip, Corruption.LengthPasses;
    if error.BitError? {
      if Corruption.LengthByte(error.i) {
        Corruption.LengthFlipOfValid(raw, error.i, error.k);
      } else {
        Corruption.FlipOfValid(raw, error.i, error.k);
      }
    }
  }

  lemma FinishKeepsClean(l: Lane, fate: Fate)
    requires CleanInv(l) && !l.hand.Empty?
    requires l.hand.item.id < |l.log| && l.log[l.hand.item.id] == l.hand.item
    requires fate.Forwarded? ==> SameOrInvalid(l.hand.item.raw, fate.data)
    ensures CleanInv(Finish(l, fate))
  {
    hide Parse, SameOrInvalid;
  }

  lemma MoveKeepsClean(l: Lane, t: Lane)
    requires CleanInv(l) && t.log == l.log && t.fates == l.fates
    requires t.hand.Sending? ==> SameOrInvalid(t.hand.item.raw, t.hand.data)
    ensures CleanInv(t)
  {
    hide Parse, SameOrInvalid;
  }

  lemma TransmitKeepsClean(sat: Orbit.Satellite, l: Lane, running: bool, step: DrainStep)
    requires QueueInv(l) && OutInv(l) && CleanInv(l) && Transmits(l, step) && FlipFails(l.hand.item.raw, step.error)
    ensures CleanInv(LaneStep(sat, l, running, step))
  {
    HandFacts(l);
    HandIsLogged(l);
    hide QueueInv, OutInv, CleanInv, SameOrInvalid, Parse, Transmitted, Finish, FlipFails, Orbit.InSight;
    TransmittedIsClean(l.hand.item.raw, Orbit.InSight(sat, step.now), step.lost, step.error);
    FinishKeepsClean(l, LostInChannel);
    if ChannelOutcome(sat, l, step).Delivered? {
      MoveKeepsClean(l, LaneStep(sat, l, running, step));
    }
  }

  // Apart from the channel, no step touches an entry's bytes.
  predicate KeepsBytes(l: Lane, t: Lane) {
    && t.log == l.log && (t.hand.Sending? ==> t.hand == l.hand)
    && (t.fates == l.fates
        || (!l.hand.Empty? && l.hand.item.id in t.fates && t.fates == l.fates[l.hand.item.id := t.fates[l.hand.item.id]]
            && (t.fates[l.hand.item.id].Forwarded? ==>
                  l.hand.Sending? && t.fates[l.hand.item.id].data == l.hand.data)))
  }

  lemma StepKeepsBytes(sat: Orbit.Satellite, l: Lane, running: bool, step: DrainStep)
    requires !Transmits(l, step)
    ensures KeepsBytes(l, LaneStep(sat, l, running, step))
  {
    hide Orbit.InSight, Transmits, ChannelOutcome;
  }

  lemma BytesKeepClean(l: Lane, t: Lane)
    requires CleanInv(l) && KeepsBytes(l, t)
    requires !l.hand.Empty? ==> l.hand.item.id < |l.log| && l.log[l.hand.item.id] == l.hand.item
    ensures CleanInv(t)
  {
    hide Parse, SameOrInvalid;
  }

  lemma LaneStepKeepsClean(sat: Orbit.Satellite, l: Lane, running: bool, step: DrainStep)
    requires QueueInv(l) && OutInv(l) && CleanInv(l)
    requires Transmits(l, step) ==> FlipFails(l.hand.item.raw, step.error)
    ensures CleanInv(LaneStep(sat, l, running, step))
  {
    hide QueueInv, OutInv, CleanInv, FlipFails, LaneStep, KeepsBytes, Transmits;
    if Transmits(l, step) {
      TransmitKeepsClean(sat, l, running, step);
    } else {
      HandIsLogged(l);
      StepKeepsBytes(sat, l, running, step);
      BytesKeepClean(l, LaneStep(sat, l, running, step));
    }
  }

  lemma EnqueueKeepsClean(l: Lane, raw: bytes, now: real)
    requires CleanInv(l)
    ensures CleanInv(Enqueue(l, raw, now))
  {
    hide Parse, SameOrInvalid;
  }

  lemma NextKeepsClean(sat: Orbit.Satellite, s: State, e: Event)
    requires Inv(sat, s) && CleanInv(s.up) && CleanInv(s.down) && EventFlipFails(s, e)
    ensures CleanInv(Next(sat, s, e).up) && CleanInv(Next(sat, s, e).down)
  {
    hide CleanInv, LaneStep, QueueInv, OutInv, TimeInv, Parse, Enqueue, Transmits, FlipFails, Loses;
    match e
    case Listen =>
    case Datagram(raw, fromTurbine, now) =>
      EnqueueKeepsClean(LaneOf(s, fromTurbine), raw, now);
    case Drain(up, step) =>
      LaneStepKeepsClean(sat, LaneOf(s, up), s.running, step);
    case Stop =>
  }

  lemma {:induction false} RunKeepsClean(sat: Orbit.Satellite, s: State, es: seq<Event>)
    requires Inv(sat, s) && CleanInv(s.up) && CleanInv(s.down) && NoFlipPasses(sat, s, es)
    ensures CleanInv(Run(sat, s, es).up) && CleanInv(Run(sat, s, es).down)
  {
    if es != [] {
      hide Next, CleanInv, Inv, EventFlipFails;
      RunKeepsClean(sat, s, es[..|es| - 1]);
      RunKeepsInv(sat, s, es[..|es| - 1]);
      NextKeepsClean(sat, Run(sat, s, es[..|es| - 1]), es[|es| - 1]);
    }
  }

  // The datagrams of `out` that parse as valid, in order.
  function Heard(fates: map<nat, Fate>, out: seq<nat>): seq<Parsed> {
    if out == [] then []
    else
      var id := out[|out| - 1];
      Heard(fates, out[..|out| - 1])
      + if id in fates && fates[id].Forwarded? && Parse(fates[id].data).Valid? then [Parse(fates[id].data)] else []
  }

  lemma {:induction false} HeardFrom(l: Lane, out: seq<nat>) returns (ids: seq<nat>)
    requires CleanInv(l) && Increasing(out) && forall id :: id in out ==> id in l.fates && l.fates[id].Forwarded?
    ensures |ids| == |Heard(l.fates, out)| && Increasing(ids)
    ensures forall j :: 0 <= j < |ids| ==> ids[j] in out && ids[j] < |l.log|
    ensures forall j :: 0 <= j < |ids| ==> Heard(l.fates, out)[j] == Parse(l.log[ids[j]].raw)
  {
    hide Parse;
    if out == [] {
      ids := [];
    } else {
      var before, id := out[..|out| - 1], out[|out| - 1];
      assert id in out && forall x :: x in before ==> x in out;
      ids := HeardFrom(l, before);
      assert forall x :: x in before ==> x < id;
      if Parse(l.fates[id].data).Valid? {
        ids := ids + [id];
      }
    }
  }

  lemma StartIsClean(clock: real)
    ensures CleanInv(Start(clock).up) && CleanInv(Start(clock).down)
  {
    hide Parse;
  }

  // End to end across the relay, with any bit errors but those that pass as a frame of another length: what parses as
  // valid at the far end is a subsequence of what was enqueued, in order, nothing twice, nothing altered.
  lemma FarEndHearsSubsequence(sat: Orbit.Satellite, clock: real, es: seq<Event>, up: bool) returns (ids: seq<nat>)
    requires NoFlipPasses(sat, Start(clock), es)
    ensures var l := LaneOf(Run(sat, Start(clock), es), up);
      && |ids| == |Heard(l.fates, l.out)| && Increasing(ids)
      && (forall j :: 0 <= j < |ids| ==> ids[j] < |l.log| && Heard(l.fates, l.out)[j] == Parse(l.log[ids[j]].raw))
  {
    StartIsClean(clock);
    hide Run, Parse, CleanInv, NoFlipPasses, Heard, QueueInv, TimeInv;
    StartInv(sat, clock);
    RunKeepsInv(sat, Start(clock), es);
    RunKeepsClean(sat, Start(clock), es);
    ids := HeardFrom(LaneOf(Run(sat, Start(clock), es), up), LaneOf(Run(sat, Start(clock), es), up).out);
  }
}
