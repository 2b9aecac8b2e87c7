/** The relay object, whose receive and drain loops run while the other threads act between their statements. */
module RelayThreads {
  import opened Bytes
  import opened Frame
  import opened Channel
  import opened Relay
  import Orbit

  // How much later than possible something happens.
  type Delay = d: real | d >= 0.0

  // One look for the satellite: what the other threads do before it, and how much later than possible it comes.
  datatype Nap = Nap(meanwhile: seq<Event>, extra: Delay)

  // What surrounds one turn of a drain loop: the other threads' steps before the fetch, the age check, each look, the
  // channel and the forwarding; the delays of the clock readings; what the channel draws; and the socket's answer.
  datatype Turn = Turn(
    beforeFetch: seq<Event>,
    beforeCheck: seq<Event>,
    checkIn: Delay,
    naps: seq<Nap>,
    beforeChannel: seq<Event>,
    channelIn: Delay,
    lost: bool,
    error: BitError,
    beforeSend: seq<Event>,
    sendIn: Delay,
    sockOk: bool)

  // What a receive call ends with: a datagram, its timeout, or a socket error.
  datatype Received = Raw(raw: bytes, fromTurbine: bool, arrivesIn: Delay) | TimedOut | SocketError

  // One turn of the receive loop: what the other threads do during the receive call, and how the call ends.
  datatype Input = Input(before: seq<Event>, received: Received)

  // Steps of threads other than the drain thread of lane `up`.
  predicate Foreign(up: bool, es: seq<Event>) {
    forall i :: 0 <= i < |es| ==> es[i].Drain? ==> es[i].up != up
  }

  predicate ForeignTurn(up: bool, t: Turn) {
    && Foreign(up, t.beforeFetch) && Foreign(up, t.beforeCheck) && Foreign(up, t.beforeChannel)
    && Foreign(up, t.beforeSend) && forall i :: 0 <= i < |t.naps| ==> Foreign(up, t.naps[i].meanwhile)
  }

  // Steps of threads other than the receive thread.
  predicate NotReceiver(es: seq<Event>) {
    forall i :: 0 <= i < |es| ==> es[i].Drain? || es[i].Stop?
  }

  lemma RunSnoc(sat: Orbit.Satellite, s: State, es: seq<Event>, e: Event)
    ensures Run(sat, s, es + [e]) == Next(sat, Run(sat, s, es), e)
  {
    assert (es + [e])[..|es|] == es;
  }

  lemma ForeignLeavesHand(sat: Orbit.Satellite, s: State, up: bool, e: Event)
    requires Foreign(up, [e])
    ensures var l, t := LaneOf(s, up), LaneOf(Next(sat, s, e), up);
      t.hand == l.hand && t.looping == l.looping && t.fates == l.fates && l.queue <= t.queue
    ensures s.clock <= Next(sat, s, e).clock && (Next(sat, s, e).running ==> s.running)
  {
    hide Parse, LaneStep, Transmits, Loses;
    assert [e][0] == e;
  }

  // The bits `_inject_bit_error` draws are always inside the datagram.
  function Drawn(raw: bytes, e: BitError): (d: BitError)
    ensures ValidDraw(raw, d) && d.NoError? == e.NoError?
    ensures e.BitError? && ValidDraw(raw, e) && raw != [] ==> d == e
  {
    if e.NoError? then NoError
    else BitError(if raw == [] then 0 else e.i % |raw|, e.k % 8)
  }

  // The clock readings of one turn.
  datatype Readings = Readings(checkedAt: real, seenAt: real, channelAt: real, sentAt: real)

  datatype TurnResult =
    | NothingQueued
    | Fetched(item: Item, at: Readings, fate: Fate)
    | StillWaiting(item: Item, checkedAt: real)

  // What becomes of an entry once the visibility wait is over.
  function ChannelFate(sat: Orbit.Satellite, item: Item, at: Readings, turn: Turn): (fate: Fate)
    ensures fate.LostInChannel? || fate.SendFailed? || fate.Forwarded?
  {
    var r := Transmitted(item.raw, Orbit.InSight(sat, at.channelAt), turn.lost, Drawn(item.raw, turn.error));
    if !r.Delivered? then LostInChannel
    else if turn.sockOk then Forwarded(r.data, at.checkedAt, at.seenAt, at.sentAt)
    else SendFailed
  }

  // Forwarded means that the satellite is in sight of the channel, which does not lose the frame, and that the socket
  // takes it; without a bit error it is unaltered.
  lemma ChannelFateMeans(sat: Orbit.Satellite, item: Item, at: Readings, turn: Turn)
    ensures var fate := ChannelFate(sat, item, at, turn);
      && (fate.Forwarded? <==>
            Orbit.InSight(sat, at.channelAt) && !turn.lost && turn.sockOk && (turn.error.NoError? || item.raw != []))
      && (fate.Forwarded? && turn.error.NoError? ==> fate.data == item.raw)
  {
    hide Orbit.InSight;
  }

  predicate Decides(sat: Orbit.Satellite, item: Item, at: Readings, turn: Turn, fate: Fate) {
    if at.checkedAt - item.enqueuedAt > BLACKOUT_MAX_AGE_S then fate.Stale?
    else fate.DroppedAtStop? || (Orbit.InSight(sat, at.seenAt) && fate == ChannelFate(sat, item, at, turn))
  }

  // The entry this turn took, if any, has the fate the turn decided.
  predicate Settled(sat: Orbit.Satellite, fates: map<nat, Fate>, turn: Turn, r: TurnResult) {
    r.Fetched? ==> r.item.id in fates && fates[r.item.id] == r.fate && Decides(sat, r.item, r.at, turn, r.fate)
  }

  // The steps of one turn of the receive loop with what happens meanwhile, at this reading.
  function ReceiveSteps(i: Input, now: real): seq<Event> {
    [Listen] + i.before + if i.received.Raw? then [Datagram(i.received.raw, i.received.fromTurbine, now)] else []
  }

  lemma StepsOfInput(trace: seq<Event>, i: Input, now: real)
    ensures trace + ReceiveSteps(i, now)
         == if i.received.Raw? then trace + [Listen] + i.before + [Datagram(i.received.raw, i.received.fromTurbine, now)]
            else trace + [Listen] + i.before
  {
  }

  function AllReceiveSteps(inputs: seq<Input>, readings: seq<real>): seq<Event>
    requires |inputs| == |readings|
  {
    if inputs == [] then []
    else
      AllReceiveSteps(inputs[..|inputs| - 1], readings[..|inputs| - 1])
      + ReceiveSteps(inputs[|inputs| - 1], readings[|inputs| - 1])
  }

  lemma AllReceiveStepsSnoc(inputs: seq<Input>, n: nat, readings: seq<real>, now: real)
    requires n < |inputs| && n == |readings|
    ensures AllReceiveSteps(inputs[..n + 1], readings + [now])
         == AllReceiveSteps(inputs[..n], readings) + ReceiveSteps(inputs[n], now)
  {
    hide ReceiveSteps;
    assert inputs[..n + 1][..n] == inputs[..n] && (readings + [now])[..n] == readings;
  }

  lemma Reassociate(a: seq<Event>, b: seq<Event>, c: seq<Event>)
    ensures a + b + c == a + (b + c)
  {
  }

  lemma HeadIsNew(sat: Orbit.Satellite, clock: real, es: seq<Event>, up: bool)
    requires LaneOf(Run(sat, Start(clock), es), up).queue != []
    ensures var l := LaneOf(Run(sat, Start(clock), es), up); l.queue[0].id !in l.fates
  {
    hide Run, OutInv, TimeInv, Parse;
    StartInv(sat, clock);
    RunKeepsInv(sat, Start(clock), es);
    var l := LaneOf(Run(sat, Start(clock), es), up);
    assert l.queue[0] == l.log[Taken(l)];
  }

  // ---- The wait ends ----

  // How many more naps of exactly a second the wait takes, if its next look comes at `now`.
  function NapsToGo(sat: Orbit.Satellite, now: real): int {
    -((-Orbit.WaitFrom(sat, now)).Floor)
  }

  lemma SomeNapsToGo(sat: Orbit.Satellite, now: real)
    ensures NapsToGo(sat, now) >= 0
  {
    Orbit.SightIsAfterWait(sat, now);
    hide Orbit.WaitFrom, Orbit.InSight;
  }

  // Once more blind, one nap fewer to go: the satellite comes in sight at the same moment, and no nap misses the pass.
  lemma NapBringsSightCloser(sat: Orbit.Satellite, now: real)
    requires Orbit.PassLength(sat) >= NAP_S && !Orbit.InSight(sat, now)
    ensures 0 <= NapsToGo(sat, now + NAP_S) < NapsToGo(sat, now)
  {
    Orbit.SightIsAfterWait(sat, now);
    Orbit.SightIsAfterWait(sat, now + NAP_S);
    var sight, next := now + Orbit.WaitFrom(sat, now), now + NAP_S;
    if sight <= next {
      Orbit.SightLasts(sat, now, next);
      hide Orbit.InSight, Orbit.WaitFrom, Orbit.PassLength;
    } else {
      hide Orbit.InSight, Orbit.WaitFrom, Orbit.PassLength;
      var later := next + Orbit.WaitFrom(sat, next);
      assert later >= sight;
      assert !(next <= sight < later);
      assert Orbit.WaitFrom(sat, next) == Orbit.WaitFrom(sat, now) - NAP_S;
    }
  }

  function Later(a: real, b: real): real {
    if a >= b then a else b
  }

  class LEORelay {
    const sat: Orbit.Satellite
    const channel: LEOChannel

    // `_up_queue`, `_down_queue` and `_running`.
    var upQueue: seq<Item>
    var downQueue: seq<Item>
    var running: bool

    // The state all threads share, and the steps that led to it from the start.
    var world: State
    const startedAt: real
    ghost var trace: seq<Event>

    ghost predicate Valid()
      reads this, channel
    {
      && world == Run(sat, Start(startedAt), trace)
      && upQueue == world.up.queue && downQueue == world.down.queue && running == world.running
      && channel.txCount == world.txCount && channel.lostCount == world.lostCount
    }

    // The relay once `start` has been called, at this reading of the clock.
    constructor (sat: Orbit.Satellite, now: real)
      ensures Valid() && fresh(channel) && this.sat == sat && startedAt == now && trace == [] && world == Start(now)
    {
      this.sat := sat;
      channel := new LEOChannel();
      upQueue, downQueue, running := [], [], true;
      startedAt, world, trace := now, Start(now), [];
    }

    // The world takes the step that the object's fields have just taken.
    method Advance(e: Event)
      requires world == Run(sat, Start(startedAt), trace)
      modifies this`world, this`trace
      ensures world == Next(sat, old(world), e) == Run(sat, Start(startedAt), trace)
      ensures trace == old(trace) + [e]
    {
      hide Next;
      RunSnoc(sat, Start(startedAt), trace, e);
      world := Next(sat, world, e);
      trace := trace + [e];
    }

    // Other threads act on the shared fields.
    method Others(e: Event)
      requires Valid()
      modifies this, channel
      ensures Valid() && world == Next(sat, old(world), e) && trace == old(trace) + [e]
    {
      hide Next, Run;
      Advance(e);
      upQueue, downQueue, running := world.up.queue, world.down.queue, world.running;
      channel.txCount, channel.lostCount := world.txCount, world.lostCount;
    }

    method Interfere(up: bool, es: seq<Event>)
      requires Valid() && Foreign(up, es)
      modifies this, channel
      ensures Valid() && trace == old(trace) + es
      ensures LaneOf(world, up).hand == old(LaneOf(world, up).hand)
      ensures LaneOf(world, up).looping == old(LaneOf(world, up).looping)
      ensures LaneOf(world, up).fates == old(LaneOf(world, up).fates)
      ensures old(LaneOf(world, up).queue) <= LaneOf(world, up).queue
      ensures old(world.clock) <= world.clock && (running ==> old(running))
    {
      hide Run, Next;
      var i := 0;
      while i < |es|
        invariant i <= |es| && Valid() && trace == old(trace) + es[..i]
        invariant LaneOf(world, up).hand == old(LaneOf(world, up).hand)
        invariant LaneOf(world, up).looping == old(LaneOf(world, up).looping)
        invariant LaneOf(world, up).fates == old(LaneOf(world, up).fates)
        invariant old(LaneOf(world, up).queue) <= LaneOf(world, up).queue
        invariant old(world.clock) <= world.clock && (running ==> old(running))
      {
        ForeignLeavesHand(sat, world, up, es[i]);
        Others(es[i]);
        i := i + 1;
      }
    }

    // `_running` is cleared; closing the socket and stopping the channel are not modelled.
    method Stop()
      requires Valid()
      modifies this
      ensures Valid() && trace == old(trace) + [Event.Stop] && !running
      ensures upQueue == old(upQueue) && downQueue == old(downQueue)
    {
      running := false;
      Advance(Event.Stop);
    }

    method Enqueue(fromTurbine: bool, item: Item)
      modifies this`upQueue, this`downQueue
      ensures upQueue == if fromTurbine then old(upQueue) + [item] else old(upQueue)
      ensures downQueue == if fromTurbine then old(downQueue) else old(downQueue) + [item]
    {
      if fromTurbine {
        upQueue := upQueue + [item];
      } else {
        downQueue := downQueue + [item];
      }
    }

    // The receive thread: one turn per receive call. A timeout leads to the next one; the loop ends early only when the
    // relay has stopped, or at a socket error.
    method RecvLoop(inputs: seq<Input>) returns (readings: seq<real>)
      requires Valid() && forall i :: 0 <= i < |inputs| ==> NotReceiver(inputs[i].before)
      modifies this, channel
      ensures Valid() && old(trace) <= trace
      ensures |readings| <= |inputs|
      ensures |readings| < |inputs| ==>
        !running || (readings != [] && inputs[|readings| - 1].received.SocketError?)
      ensures forall i :: 0 <= i < |readings| - 1 ==> !inputs[i].received.SocketError?
      ensures trace == old(trace) + AllReceiveSteps(inputs[..|readings|], readings)
    {
      readings := [];
      ghost var steps := [];
      assert AllReceiveSteps(inputs[..0], readings) == steps;
      hide Run, Next, Start, AllReceiveSteps, ReceiveSteps, NotReceiver, Valid;
      assert old(trace) + steps == old(trace);
      while |readings| < |inputs| && running
        invariant |readings| <= |inputs| && Valid()
        invariant forall i :: 0 <= i < |readings| ==> !inputs[i].received.SocketError?
        invariant trace == old(trace) + steps && steps == AllReceiveSteps(inputs[..|readings|], readings)
        decreases |inputs| - |readings|
      {
        var n := |readings|;
        var now := ReceiveOne(inputs[n]);
        AllReceiveStepsSnoc(inputs, n, readings, now);
        Reassociate(old(trace), steps, ReceiveSteps(inputs[n], now));
        steps := steps + ReceiveSteps(inputs[n], now);
        readings := readings + [now];
        if inputs[n].received.SocketError? {
          break;
        }
      }
    }

    // One turn of it, between the loop test and the next.
    method ReceiveOne(i: Input) returns (now: real)
      requires Valid() && NotReceiver(i.before) && running
      modifies this, channel
      ensures Valid() && trace == old(trace) + ReceiveSteps(i, now)
    {
      hide Run, Next, Parse, ReceiveSteps, NotReceiver;
      StartListening();
      StillReceiving(i.before);
      now := world.clock;
      if i.received.Raw? {
        now := now + i.received.arrivesIn;
        Route(i.received.raw, i.received.fromTurbine, now);
      }
      StepsOfInput(old(trace), i, now);
    }

    method StartListening()
      requires Valid() && running
      modifies this
      ensures Valid() && trace == old(trace) + [Listen] && world.receiving && running
    {
      hide Run, Parse, LaneStep, Transmits, Loses;
      Advance(Listen);
    }

    // What parses as valid is queued by its source port, and nothing else is.
    method Route(raw: bytes, fromTurbine: bool, now: real)
      requires Valid() && world.receiving && world.clock <= now
      modifies this
      ensures Valid() && trace == old(trace) + [Datagram(raw, fromTurbine, now)]
      ensures LaneOf(world, fromTurbine).queue
           == if Parse(raw).Valid?
              then old(LaneOf(world, fromTurbine).queue) + [Item(|old(LaneOf(world, fromTurbine).log)|, now, raw)]
              else old(LaneOf(world, fromTurbine).queue)
      ensures LaneOf(world, !fromTurbine).queue == old(LaneOf(world, !fromTurbine).queue)
      ensures fromTurbine ==> downQueue == old(downQueue) && (upQueue != old(upQueue) <==> Parse(raw).Valid?)
      ensures !fromTurbine ==> upQueue == old(upQueue) && (downQueue != old(downQueue) <==> Parse(raw).Valid?)
    {
      hide Run, Parse, LaneStep, Transmits, Loses;
      if Parse(raw).Valid? {
        Enqueue(fromTurbine, Item(|LaneOf(world, fromTurbine).log|, now, raw));
      }
      Advance(Datagram(raw, fromTurbine, now));
    }

    method StillReceiving(es: seq<Event>)
      requires Valid() && NotReceiver(es)
      modifies this, channel
      ensures Valid() && trace == old(trace) + es && world.receiving == old(world.receiving)
    {
      hide Run, LaneStep, Transmits, Loses;
      var i := 0;
      while i < |es|
        invariant i <= |es| && Valid() && trace == old(trace) + es[..i] && world.receiving == old(world.receiving)
      {
        Others(es[i]);
        i := i + 1;
      }
    }

    // The drain thread of one lane: every entry it takes meets the fate its turn decides, and keeps it. It goes through
    // all its turns unless the relay stops or an entry still waits for the satellite when its turn's looks are used up,
    // which cannot happen when a pass is at least as long as a nap.
    method QueueDrain(up: bool, turns: seq<Turn>) returns (results: seq<TurnResult>)
      requires Valid() && LaneOf(world, up).hand.Empty?
      requires forall i :: 0 <= i < |turns| ==> ForeignTurn(up, turns[i])
      modifies this, channel
      ensures Valid() && old(trace) <= trace
      ensures |results| <= |turns|
      ensures forall i :: 0 <= i < |results| ==> Settled(sat, LaneOf(world, up).fates, turns[i], results[i])
      ensures forall i :: 0 <= i < |results| - 1 ==> !results[i].StillWaiting?
      ensures var waits := results != [] && results[|results| - 1].StillWaiting?;
        && (waits <==> !LaneOf(world, up).hand.Empty?)
        && (waits ==> Orbit.PassLength(sat) < NAP_S)
        && (|results| < |turns| && !waits ==> !running)
      ensures forall id :: id in old(LaneOf(world, up).fates) ==>
        id in LaneOf(world, up).fates && LaneOf(world, up).fates[id] == old(LaneOf(world, up).fates)[id]
    {
      hide Run, ForeignTurn, Decides, Orbit.PassLength;
      results := [];
      while |results| < |turns| && running
        invariant |results| <= |turns| && Valid() && LaneOf(world, up).hand.Empty? && old(trace) <= trace
        invariant forall i :: 0 <= i < |results| ==> Settled(sat, LaneOf(world, up).fates, turns[i], results[i])
        invariant forall i :: 0 <= i < |results| ==> !results[i].StillWaiting?
        invariant forall id :: id in old(LaneOf(world, up).fates) ==>
          id in LaneOf(world, up).fates && LaneOf(world, up).fates[id] == old(LaneOf(world, up).fates)[id]
        decreases |turns| - |results|
      {
        var r := DrainTurn(up, turns[|results|]);
        results := results + [r];
        if r.StillWaiting? || (r.Fetched? && r.fate.DroppedAtStop?) {
          break;
        }
      }
    }

    // One turn of it. An entry that was waiting is taken, and it meets the fate that its age, the relay's stop, the
    // channel and the socket decide, in this order, or it still waits; no other fate changes.
    method DrainTurn(up: bool, turn: Turn) returns (r: TurnResult)
      requires Valid() && LaneOf(world, up).hand.Empty? && running && ForeignTurn(up, turn)
      modifies this, channel
      ensures Valid() && old(trace) <= trace
      ensures old(LaneOf(world, up).queue) != [] ==> !r.NothingQueued? && r.item == old(LaneOf(world, up).queue)[0]
      ensures r.Fetched? ==> Decides(sat, r.item, r.at, turn, r.fate) && (r.fate.DroppedAtStop? ==> !running)
      // Stale means older than 120 seconds at the check. Forwarded means in sight, not lost and taken by the socket;
      // without a bit error the frame is unaltered.
      ensures r.Fetched? ==> (r.fate.Stale? <==> r.at.checkedAt - r.item.enqueuedAt > 120.0)
      ensures r.Fetched? && !r.fate.Stale? && !r.fate.DroppedAtStop? ==>
        && (r.fate.Forwarded? <==>
              && Orbit.InSight(sat, r.at.channelAt) && !turn.lost && turn.sockOk
              && (turn.error.NoError? || r.item.raw != []))
        && (r.fate.Forwarded? && turn.error.NoError? ==> r.fate.data == r.item.raw)
      ensures r.Fetched? ==> r.item.id !in old(LaneOf(world, up).fates)
      ensures LaneOf(world, up).fates
           == if r.Fetched? then old(LaneOf(world, up).fates)[r.item.id := r.fate] else old(LaneOf(world, up).fates)
      ensures r.StillWaiting? <==> !LaneOf(world, up).hand.Empty?
      ensures r.StillWaiting? ==> Orbit.PassLength(sat) < NAP_S && running
      ensures r.StillWaiting? ==> LaneOf(world, up).hand.Waiting? && LaneOf(world, up).hand.item == r.item
    {
      hide Run, Next, Foreign, ChannelFate, Orbit.PassLength, Orbit.InSight;
      TestLoop(up);
      Interfere(up, turn.beforeFetch);
      if (if up then upQueue else downQueue) == [] {
        return NothingQueued;
      }
      var item := Fetch(up);
      Interfere(up, turn.beforeCheck);
      var now := world.clock + turn.checkIn;
      var stale := CheckStale(up, item, now);
      if stale {
        return TurnResult.Fetched(item, Readings(now, now, now, now), Stale);
      }
      r := AfterCheck(up, item, now, turn);
      if r.Fetched? {
        ChannelFateMeans(sat, item, r.at, turn);
      }
    }

    // The test at the head of the drain loop, just passed.
    method TestLoop(up: bool)
      requires Valid() && LaneOf(world, up).hand.Empty? && running
      modifies this
      ensures Valid() && trace == old(trace) + [Drain(up, LoopTest)]
      ensures LaneOf(world, up) == old(LaneOf(world, up)).(looping := true)
    {
      hide Run;
      Advance(Drain(up, LoopTest));
    }

    // The fetch of the oldest entry.
    method Fetch(up: bool) returns (item: Item)
      requires Valid() && LaneOf(world, up).hand.Empty? && LaneOf(world, up).looping && LaneOf(world, up).queue != []
      modifies this
      ensures Valid() && trace == old(trace) + [Drain(up, Take)]
      ensures item == old(LaneOf(world, up).queue)[0] && LaneOf(world, up).hand == Hand.Fetched(item)
      ensures LaneOf(world, up).fates == old(LaneOf(world, up).fates) && item.id !in LaneOf(world, up).fates
    {
      hide Run;
      HeadIsNew(sat, startedAt, trace, up);
      if up {
        item, upQueue := upQueue[0], upQueue[1..];
      } else {
        item, downQueue := downQueue[0], downQueue[1..];
      }
      Advance(Drain(up, Take));
    }

    // The age check, made before the visibility wait.
    method CheckStale(up: bool, item: Item, now: real) returns (stale: bool)
      requires Valid() && LaneOf(world, up).hand == Hand.Fetched(item) && world.clock <= now
      modifies this
      ensures Valid() && trace == old(trace) + [Drain(up, CheckAge(now))]
      ensures stale == (now - item.enqueuedAt > 120.0)
      ensures LaneOf(world, up).hand == if stale then Empty else Waiting(item, now, now)
      ensures LaneOf(world, up).fates
           == if stale then old(LaneOf(world, up).fates)[item.id := Stale] else old(LaneOf(world, up).fates)
    {
      hide Run;
      stale := now - item.enqueuedAt > BLACKOUT_MAX_AGE_S;
      Advance(Drain(up, CheckAge(now)));
    }

    // From the age check to the end of the turn.
    method AfterCheck(up: bool, item: Item, checkedAt: real, turn: Turn) returns (r: TurnResult)
      requires Valid() && LaneOf(world, up).hand == Waiting(item, checkedAt, checkedAt) && ForeignTurn(up, turn)
      modifies this, channel
      ensures Valid() && old(trace) <= trace && !r.NothingQueued? && r.item == item
      ensures r.Fetched? ==> LaneOf(world, up).hand.Empty? && r.at.checkedAt == checkedAt
      ensures r.Fetched? ==>
        (r.fate == DroppedAtStop && !running)
        || (Orbit.InSight(sat, r.at.seenAt) && r.fate == ChannelFate(sat, item, r.at, turn))
      ensures LaneOf(world, up).fates
           == if r.Fetched? then old(LaneOf(world, up).fates)[item.id := r.fate] else old(LaneOf(world, up).fates)
      ensures r.StillWaiting? ==> Orbit.PassLength(sat) < NAP_S && running
      ensures r.StillWaiting? ==> LaneOf(world, up).hand.Waiting? && LaneOf(world, up).hand.item == item
    {
      hide Run, Next, Foreign, ChannelFate, Orbit.PassLength, Orbit.InSight;
      var ended, seenAt := AwaitVisibility(up, item, checkedAt, turn.naps);
      if !ended {
        return StillWaiting(item, checkedAt);
      }
      var dropped := TestAgain(up, item, checkedAt, seenAt);
      if dropped {
        return TurnResult.Fetched(item, Readings(checkedAt, seenAt, seenAt, seenAt), DroppedAtStop);
      }
      var at, fate := Forward(up, item, checkedAt, seenAt, turn);
      r := TurnResult.Fetched(item, at, fate);
    }

    // The wait in one-second naps: it ends only at a look that sees the satellite, or when the relay has stopped. With
    // passes of a nap or more it ends: after the listed looks the naps take exactly a second, and nothing else happens.
    // With shorter passes it may go on for ever, and is followed for the listed looks only.
    method AwaitVisibility(up: bool, item: Item, checkedAt: real, naps: seq<Nap>) returns (ended: bool, seenAt: real)
      requires Valid() && LaneOf(world, up).hand == Waiting(item, checkedAt, checkedAt)
      requires forall i :: 0 <= i < |naps| ==> Foreign(up, naps[i].meanwhile)
      modifies this, channel
      ensures Valid() && old(trace) <= trace && LaneOf(world, up).fates == old(LaneOf(world, up).fates)
      ensures Orbit.PassLength(sat) >= NAP_S || !running ==> ended
      ensures ended ==> LaneOf(world, up).hand == Seen(item, checkedAt, seenAt)
      ensures ended ==> Orbit.InSight(sat, seenAt) || !running
      ensures !ended ==> LaneOf(world, up).hand.Waiting? && LaneOf(world, up).hand.item == item
    {
      hide Run, Next, Foreign, Orbit.PassLength, Orbit.InSight, NapsToGo;
      var wakesAt := checkedAt;
      SomeNapsToGo(sat, Later(world.clock, wakesAt));
      var i := 0;
      while i < |naps| || Orbit.PassLength(sat) >= NAP_S || !running
        invariant i <= |naps| && Valid() && old(trace) <= trace
        invariant LaneOf(world, up).hand == Waiting(item, checkedAt, wakesAt)
        invariant LaneOf(world, up).fates == old(LaneOf(world, up).fates)
        invariant i == |naps| ==> NapsToGo(sat, Later(world.clock, wakesAt)) >= 0
        decreases |naps| - i, if i == |naps| then NapsToGo(sat, Later(world.clock, wakesAt)) else 0
      {
        var extra: Delay := 0.0;
        if i < |naps| {
          Interfere(up, naps[i].meanwhile);
          extra := naps[i].extra;
        }
        var now := Later(world.clock, wakesAt) + extra;
        var over := LookOnce(up, item, checkedAt, wakesAt, now);
        if over {
          return true, now;
        }
        wakesAt := now + NAP_S;
        SomeNapsToGo(sat, wakesAt);
        if i < |naps| {
          i := i + 1;
        } else {
          NapBringsSightCloser(sat, now);
        }
      }
      return false, wakesAt;
    }

    // One test of the wait's condition, and the nap if it holds.
    method LookOnce(up: bool, item: Item, checkedAt: real, wakesAt: real, now: real) returns (ended: bool)
      requires Valid() && LaneOf(world, up).hand == Waiting(item, checkedAt, wakesAt)
      requires world.clock <= now && wakesAt <= now
      modifies this
      ensures Valid() && trace == old(trace) + [Drain(up, Look(now))] && world.clock == now && running == old(running)
      ensures ended == (!running || Orbit.InSight(sat, now))
      ensures LaneOf(world, up).hand
           == if ended then Seen(item, checkedAt, now) else Waiting(item, checkedAt, now + NAP_S)
      ensures LaneOf(world, up).fates == old(LaneOf(world, up).fates)
    {
      hide Run, Orbit.InSight;
      ended := !running || Orbit.InSight(sat, now);
      Advance(Drain(up, Look(now)));
    }

    // The test after the wait: a stopped relay drops the entry.
    method TestAgain(up: bool, item: Item, checkedAt: real, seenAt: real) returns (dropped: bool)
      requires Valid() && LaneOf(world, up).hand == Seen(item, checkedAt, seenAt)
      modifies this
      ensures Valid() && trace == old(trace) + [Drain(up, Resume)]
      ensures dropped == !running && running == old(running)
      ensures LaneOf(world, up).hand == if dropped then Empty else Ready(item, checkedAt, seenAt)
      ensures LaneOf(world, up).fates
           == if dropped then old(LaneOf(world, up).fates)[item.id := DroppedAtStop] else old(LaneOf(world, up).fates)
    {
      hide Run;
      dropped := !running;
      Advance(Drain(up, Resume));
    }

    // Through the channel and out.
    method Forward(up: bool, item: Item, checkedAt: real, seenAt: real, turn: Turn) returns (at: Readings, fate: Fate)
      requires Valid() && LaneOf(world, up).hand == Ready(item, checkedAt, seenAt) && ForeignTurn(up, turn)
      modifies this, channel
      ensures Valid() && LaneOf(world, up).hand.Empty? && old(trace) <= trace
      ensures at.checkedAt == checkedAt && at.seenAt == seenAt
      ensures fate == ChannelFate(sat, item, at, turn)
      ensures LaneOf(world, up).fates == old(LaneOf(world, up).fates)[item.id := fate]
    {
      hide Run, Next, Foreign, Transmitted, Orbit.InSight;
      Interfere(up, turn.beforeChannel);
      var channelAt := world.clock + turn.channelIn;
      var r := PassThroughChannel(up, item, checkedAt, seenAt, channelAt, turn);
      if !r.Delivered? {
        return Readings(checkedAt, seenAt, channelAt, channelAt), LostInChannel;
      }
      Interfere(up, turn.beforeSend);
      var sentAt := world.clock + turn.sendIn;
      fate := SendOn(up, item, checkedAt, seenAt, sentAt, turn, r.data);
      at := Readings(checkedAt, seenAt, channelAt, sentAt);
    }

    method PassThroughChannel(up: bool, item: Item, checkedAt: real, seenAt: real, now: real, turn: Turn)
      returns (r: Outcome)
      requires Valid() && LaneOf(world, up).hand == Ready(item, checkedAt, seenAt) && world.clock <= now
      modifies this, channel
      ensures Valid() && old(trace) <= trace
      ensures r == Transmitted(item.raw, Orbit.InSight(sat, now), turn.lost, Drawn(item.raw, turn.error))
      ensures LaneOf(world, up).hand == if r.Delivered? then Sending(item, checkedAt, seenAt, r.data) else Empty
      ensures LaneOf(world, up).fates
           == if r.Delivered? then old(LaneOf(world, up).fates)
              else old(LaneOf(world, up).fates)[item.id := LostInChannel]
    {
      hide Run, Transmitted, Drawn, Orbit.InSight;
      var error := Drawn(item.raw, turn.error);
      r := channel.Transmit(item.raw, Orbit.InSight(sat, now), turn.lost, error);
      Advance(Drain(up, Transmit(now, turn.lost, error)));
    }

    method SendOn(up: bool, item: Item, checkedAt: real, seenAt: real, now: real, turn: Turn, data: bytes)
      returns (fate: Fate)
      requires Valid() && LaneOf(world, up).hand == Sending(item, checkedAt, seenAt, data) && world.clock <= now
      modifies this
      ensures Valid() && LaneOf(world, up).hand.Empty? && old(trace) <= trace
      ensures fate == if turn.sockOk then Forwarded(data, checkedAt, seenAt, now) else SendFailed
      ensures LaneOf(world, up).fates == old(LaneOf(world, up).fates)[item.id := fate]
    {
      hide Run;
      fate := if turn.sockOk then Forwarded(data, checkedAt, seenAt, now) else SendFailed;
      Advance(Drain(up, SendTo(now, turn.sockOk)));
    }
  }
}
