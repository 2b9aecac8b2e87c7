/** Selective Repeat over datagrams of bytes: frames are encoded, may suffer a bit error, and are parsed again. */
module SelectiveRepeatBytes {
  import opened Bytes
  import opened Frame
  import opened SelectiveRepeatRuns
  import opened SelectiveRepeatWrap
  import Corruption

  const MSG_ACK: byte := 0x30

  // The ACK frame for a number.
  function AckFrame(n: nat): Sent {
    Valid(VERSION, MSG_ACK, 0, n % U32, PackU32(n % U32))
  }

  // The ACK is what `make_ack` builds.
  lemma AckFrameIsBuilt(n: nat)
    ensures Build(0x30, n, PackU32(n % 0x1_0000_0000), 0) == Built(Encoded(AckFrame(n)))
  {
    hide Encode, Parse, PackU32;
  }

  datatype Datagram = Local(e: Event) | DataRaw(raw: bytes) | AckRaw(raw: bytes)

  // The receiving end parses each datagram and drops what is not valid.
  function NextRaw(c: Config, s: State, d: Datagram): State {
    match d
    case Local(e) => Next(c, s, e)
    case DataRaw(raw) =>
      var p := Parse(raw);
      if p.Valid? then Next(c, s, DataArrives(p)) else s
    case AckRaw(raw) =>
      var p := Parse(raw);
      if p.Valid? && p.msgType == MSG_ACK then Next(c, s, AckArrives(p.seqNo)) else s
  }

  // Locally the sender sends and looks at its timers; datagrams are frames that were sent, with at most one bit
  // flipped, unless the flip is in LEN and passes.
  ghost predicate EnabledRaw(s: State, d: Datagram) {
    match d
    case Local(e) => e.Send? || e.Timer?
    case DataRaw(raw) => exists f :: f in s.data && Corruption.IntactOrFlipped(Encoded(f), raw)
    case AckRaw(raw) => exists n :: n in s.acks && Corruption.IntactOrFlipped(Encoded(AckFrame(n)), raw)
  }

  function RunRaw(c: Config, ds: seq<Datagram>): State {
    if ds == [] then START else NextRaw(c, RunRaw(c, ds[..|ds| - 1]), ds[|ds| - 1])
  }

  ghost predicate PossibleRaw(c: Config, ds: seq<Datagram>) {
    ds == [] || (PossibleRaw(c, ds[..|ds| - 1]) && EnabledRaw(RunRaw(c, ds[..|ds| - 1]), ds[|ds| - 1]))
  }

  // A datagram does what the arrival of a sent frame or of a genuine ACK does, or nothing.
  lemma DatagramIsEventOrNothing(c: Config, s: State, d: Datagram)
    requires EnabledRaw(s, d) && forall n :: n in s.acks ==> n < U32
    ensures NextRaw(c, s, d) == s || exists e :: Enabled(s, e) && NextRaw(c, s, d) == Next(c, s, e)
  {
    hide Parse, Next, Encoded, Corruption.IntactOrFlipped, PackU32;
    match d
    case Local(e) =>
      assert Enabled(s, e);
    case DataRaw(raw) =>
      var f :| f in s.data && Corruption.IntactOrFlipped(Encoded(f), raw);
      Corruption.NothingElseGetsThrough(f, raw);
      assert Enabled(s, DataArrives(f));
    case AckRaw(raw) =>
      var n :| n in s.acks && Corruption.IntactOrFlipped(Encoded(AckFrame(n)), raw);
      Corruption.NothingElseGetsThrough(AckFrame(n), raw);
      assert Enabled(s, AckArrives(n));
  }

  lemma NewAcksAreWrapped(c: Config, s: State, e: Event)
    requires forall n :: n in s.acks ==> n < U32
    ensures forall n :: n in Next(c, s, e).acks ==> n < U32
  {
  }

  // Every acknowledged number came in a frame.
  lemma {:induction false} AcksAreWrapped(c: Config, es: seq<Event>)
    ensures forall n :: n in Run(c, START, es).acks ==> n < U32
  {
    if es != [] {
      AcksAreWrapped(c, es[..|es| - 1]);
      NewAcksAreWrapped(c, Run(c, START, es[..|es| - 1]), es[|es| - 1]);
      hide Next;
    }
  }

  lemma ReachableAcksAreWrapped(c: Config, s: State)
    requires Reachable(c, s)
    ensures forall n :: n in s.acks ==> n < U32
  {
    var es :| Possible(c, START, es) && Run(c, START, es) == s;
    AcksAreWrapped(c, es);
  }

  // Runs over bytes, of any length, reach nothing that runs over frames do not.
  lemma {:induction false} BytesRefineFrames(c: Config, ds: seq<Datagram>)
    requires PossibleRaw(c, ds)
    ensures Reachable(c, RunRaw(c, ds))
  {
    hide NextRaw, EnabledRaw;
    if ds == [] {
      NoEvents(c, START);
    } else {
      hide Reachable, Next, Enabled;
      var p, d := RunRaw(c, ds[..|ds| - 1]), ds[|ds| - 1];
      BytesRefineFrames(c, ds[..|ds| - 1]);
      ReachableAcksAreWrapped(c, p);
      DatagramIsEventOrNothing(c, p, d);
      if NextRaw(c, p, d) != p {
        var e :| Enabled(p, e) && NextRaw(c, p, d) == Next(c, p, e);
        ReachableNext(c, p, e);
      }
    }
  }

  // The datagram, undamaged, that makes an event happen.
  function DatagramOf(e: Event): Datagram {
    match e
    case DataArrives(f) => DataRaw(Encoded(f))
    case AckArrives(n) => AckRaw(Encoded(AckFrame(n)))
    case Send(_, _, _, _) => Local(e)
    case Timer(_, _) => Local(e)
  }

  lemma EventIsDatagram(c: Config, s: State, e: Event)
    requires Enabled(s, e) && forall n :: n in s.acks ==> n < U32
    ensures EnabledRaw(s, DatagramOf(e)) && NextRaw(c, s, DatagramOf(e)) == Next(c, s, e)
  {
    hide Parse, Next, Encoded, PackU32;
    match e
    case DataArrives(f) => Corruption.NothingElseGetsThrough(f, Encoded(f));
    case AckArrives(n) => Corruption.NothingElseGetsThrough(AckFrame(n), Encoded(AckFrame(n)));
    case Send(_, _, _, _) =>
    case Timer(_, _) =>
  }

  // And they reach all of it.
  lemma {:induction false} FramesRefineBytes(c: Config, es: seq<Event>) returns (ds: seq<Datagram>)
    requires Possible(c, START, es)
    ensures PossibleRaw(c, ds) && RunRaw(c, ds) == Run(c, START, es)
  {
    hide NextRaw, EnabledRaw, Next, Enabled;
    if es == [] {
      ds := [];
    } else {
      var before, e := es[..|es| - 1], es[|es| - 1];
      var rest := FramesRefineBytes(c, before);
      AcksAreWrapped(c, before);
      EventIsDatagram(c, Run(c, START, before), e);
      ds := rest + [DatagramOf(e)];
      assert ds[..|rest|] == rest;
    }
  }

  // The protocol stack end to end: over datagrams that may be lost, duplicated, reordered and hit by any bit error that
  // does not pass as a shorter frame, the application receives a prefix of what was sent, byte for byte.
  lemma ApplicationReceivesPrefix(c: Config, ds: seq<Datagram>)
    requires c.window <= U32 && PossibleRaw(c, ds) && |RunRaw(c, ds).sent| < U32
    ensures RunRaw(c, ds).rx.delivered <= RunRaw(c, ds).sent
  {
    hide Reachable, PossibleRaw, RunRaw;
    BytesRefineFrames(c, ds);
    DeliveredIsPrefixOfSent(c, RunRaw(c, ds));
  }

  // Every list of payloads that fit a frame can be sent over datagrams and received in full.
  lemma EveryListIsReceived(c: Config, ps: seq<bytes>) returns (ds: seq<Datagram>)
    requires 1 <= c.window && |ps| < U32 && forall i :: 0 <= i < |ps| ==> |ps[i]| <= 65535
    ensures PossibleRaw(c, ds) && RunRaw(c, ds).sent == ps && RunRaw(c, ds).rx.delivered == ps
  {
    hide Next, Enabled, PossibleRaw, RunRaw;
    var s := EveryListIsDelivered(c, ps);
    var es :| Possible(c, START, es) && Run(c, START, es) == s;
    ds := FramesRefineBytes(c, es);
  }

  ghost predicate ReceivesPrefixes(c: Config, n: nat) {
    forall ds :: PossibleRaw(c, ds) && |RunRaw(c, ds).sent| <= n ==> RunRaw(c, ds).rx.delivered <= RunRaw(c, ds).sent
  }

  // In all such runs with at most `n` accepted sends it does, exactly when n < 2^32.
  lemma ApplicationReceivesPrefixIff(c: Config, n: nat)
    requires 1 <= c.window <= U32
    ensures ReceivesPrefixes(c, n) <==> n < U32
  {
    hide Next, Enabled, PossibleRaw, RunRaw;
    if n < U32 {
      forall ds | PossibleRaw(c, ds) && |RunRaw(c, ds).sent| <= n
        ensures RunRaw(c, ds).rx.delivered <= RunRaw(c, ds).sent
      {
        ApplicationReceivesPrefix(c, ds);
      }
    } else {
      var s := DeliversTooMuchAfterWrap(c);
      var es :| Possible(c, START, es) && Run(c, START, es) == s;
      var ds := FramesRefineBytes(c, es);
      assert |RunRaw(c, ds).rx.delivered| > |RunRaw(c, ds).sent|;
    }
  }
}
