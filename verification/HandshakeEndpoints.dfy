/** The two endpoints as objects: `connect`'s retry loop runs while the network and the responder act in between. */
module HandshakeEndpoints {
  import opened Capabilities
  import opened Handshake
  import HandshakeRuns
  import HandshakeStarts

  // What the responder gets to handle between two steps of `connect`.
  datatype Delivery = DiscoverDelivered(frame: Frame, sid: nat) | AgreeDelivered(frame: Frame, i: nat)

  datatype Arrival = NoFrame | Arrives(frame: Frame)

  // One wait of `_recv_typed`: what happens meanwhile, and the frame that then arrives, if any valid one does in time.
  datatype Wait = Wait(meanwhile: seq<Delivery>, arriving: Arrival)

  datatype Result = Session(sid: nat, agreed: Caps) | NoSession | TypeErrorRaised

  predicate Shows(pc: Pc, r: Result) {
    match r
    case Session(sid, agreed) => pc == Returned(sid, agreed)
    case NoSession => pc.Failed?
    case TypeErrorRaised => pc.Raised?
  }

  datatype DiscoverResult = Ignored | Context | Rejected | DiscoverRaised

  // How the responder answers: a context exactly for a DISCOVER with something to agree on.
  function Answer(c: Config, f: Frame): DiscoverResult {
    if !f.Discover? then Ignored
    else if RaisesTypeError(c.resp, f.caps) then DiscoverRaised
    else if Agreement(c.resp, f.caps) == map[] then Rejected
    else DiscoverResult.Context
  }

  // The responder turned this DISCOVER into a new context and offered it in a NEGOTIATE.
  ghost predicate Offered(c: Config, before: State, after: State, frame: Frame, sid: nat) {
    && frame.Discover? && !RaisesTypeError(c.resp, frame.caps) && Negotiate(sid, c.resp) in after.net
    && exists agreed :: agreed != map[] && IsAgreement(c.resp, frame.caps, agreed)
         && after.contexts == before.contexts + [Handshake.Context(sid, agreed, false)]
  }

  // What the responder does with a delivery: nothing, if the frame was never sent or the session id is not new.
  function Deliver(c: Config, s: State, d: Delivery): State {
    match d
    case DiscoverDelivered(f, sid) =>
      if f in s.net && NewSid(s, sid) then
        Next(c, s, DiscoverArrives(f, sid, if f.Discover? then Agreement(c.resp, f.caps) else map[]))
      else s
    case AgreeDelivered(f, i) =>
      if f in s.net && i < |s.contexts| then Next(c, s, AgreeArrives(f, i)) else s
  }

  function DeliverAll(c: Config, s: State, ds: seq<Delivery>): State {
    if ds == [] then s else Deliver(c, DeliverAll(c, s, ds[..|ds| - 1]), ds[|ds| - 1])
  }

  // The wait yields this frame: it arrives, and it was sent by then.
  predicate Yields(c: Config, s: State, w: Wait, f: Frame) {
    w.arriving == Arrives(f) && f in DeliverAll(c, s, w.meanwhile).net
  }

  predicate BringsNegotiate(c: Config, s: State, w: Wait) {
    w.arriving.Arrives? && w.arriving.frame.Negotiate? && Yields(c, s, w, w.arriving.frame)
  }

  function AfterMiss(c: Config, s: State, w: Wait): State {
    Missed(c, DeliverAll(c, s, w.meanwhile))
  }

  // None of these waits, from the first on, brings a NEGOTIATE.
  predicate Fruitless(c: Config, s: State, waits: seq<Wait>)
    decreases |waits|
  {
    waits == [] || (!BringsNegotiate(c, s, waits[0]) && Fruitless(c, AfterMiss(c, s, waits[0]), waits[1..]))
  }

  function AfterMisses(c: Config, s: State, waits: seq<Wait>): State
    decreases |waits|
  {
    if waits == [] then s else AfterMisses(c, AfterMiss(c, s, waits[0]), waits[1..])
  }

  // The k-th wait is the first that brings a NEGOTIATE.
  predicate FirstNegotiate(c: Config, s: State, waits: seq<Wait>, k: nat)
    requires k < |waits|
  {
    Fruitless(c, s, waits[..k]) && BringsNegotiate(c, AfterMisses(c, s, waits[..k]), waits[k])
  }

  // When that NEGOTIATE has arrived.
  function AtNegotiate(c: Config, s: State, waits: seq<Wait>, k: nat): State
    requires k < |waits|
  {
    DeliverAll(c, AfterMisses(c, s, waits[..k]), waits[k].meanwhile)
  }

  // What `connect` makes of it: a TypeError, nothing if nothing is shared, and otherwise AGREE is sent and a session is
  // returned if and only if the last wait yields an ACK.
  ghost predicate Decides(c: Config, s: State, f: Frame, last: Wait, r: Result)
    requires f.Negotiate?
  {
    if RaisesTypeError(c.init, f.caps) then r == TypeErrorRaised
    else if forall k :: !Shared(c.init, f.caps, k) then r == NoSession
    else
      var own := Agreement(c.init, f.caps);
      var asked := State(AwaitingAck(f.sid, own), s.net + {Agree(f.sid, own)}, s.contexts);
      r == if Yields(c, asked, last, Ack) then Session(f.sid, own) else NoSession
  }

  // The result of `connect` from its first DISCOVER on.
  ghost predicate Outcome(c: Config, s: State, waits: seq<Wait>, last: Wait, r: Result)
    decreases |waits|
  {
    if waits == [] then r == NoSession
    else if BringsNegotiate(c, s, waits[0]) then
      Decides(c, DeliverAll(c, s, waits[0].meanwhile), waits[0].arriving.frame, last, r)
    else Outcome(c, AfterMiss(c, s, waits[0]), waits[1..], last, r)
  }

  lemma RunSnoc(c: Config, s: State, es: seq<Event>, e: Event)
    requires Possible(c, s, es) && Enabled(c, Run(c, s, es), e)
    ensures Possible(c, s, es + [e]) && Run(c, s, es + [e]) == Next(c, Run(c, s, es), e)
  {
    assert (es + [e])[..|es|] == es;
  }

  lemma {:induction false} OutcomeAt(c: Config, s: State, waits: seq<Wait>, last: Wait, r: Result, k: nat)
    requires Outcome(c, s, waits, last, r) && k < |waits| && FirstNegotiate(c, s, waits, k)
    ensures Decides(c, AtNegotiate(c, s, waits, k), waits[k].arriving.frame, last, r)
    decreases k
  {
    hide DeliverAll, Decides, Missed;
    if k == 0 {
      assert waits[..0] == [];
    } else {
      assert waits[..k][0] == waits[0] && waits[..k][1..] == waits[1..][..k - 1];
      OutcomeAt(c, AfterMiss(c, s, waits[0]), waits[1..], last, r, k - 1);
    }
  }

  lemma {:induction false} OutcomeOfNone(c: Config, s: State, waits: seq<Wait>, last: Wait, r: Result)
    requires Outcome(c, s, waits, last, r) && Fruitless(c, s, waits)
    ensures r == NoSession
    decreases |waits|
  {
    hide DeliverAll, Decides, Missed;
    if waits != [] {
      OutcomeOfNone(c, AfterMiss(c, s, waits[0]), waits[1..], last, r);
    }
  }

  lemma OutcomeMeans(c: Config, s: State, waits: seq<Wait>, last: Wait, r: Result)
    requires Outcome(c, s, waits, last, r)
    ensures Fruitless(c, s, waits) ==> r == NoSession
    ensures forall k :: 0 <= k < |waits| && FirstNegotiate(c, s, waits, k) ==>
      Decides(c, AtNegotiate(c, s, waits, k), waits[k].arriving.frame, last, r)
  {
    hide Outcome, Fruitless, AfterMisses, Decides, AtNegotiate, Yields;
    if Fruitless(c, s, waits) {
      OutcomeOfNone(c, s, waits, last, r);
    }
    forall k | 0 <= k < |waits| && FirstNegotiate(c, s, waits, k)
      ensures waits[k].arriving.Arrives? && waits[k].arriving.frame.Negotiate?
      ensures Decides(c, AtNegotiate(c, s, waits, k), waits[k].arriving.frame, last, r)
    {
      OutcomeAt(c, s, waits, last, r, k);
    }
  }

  // ---- `connect` really connects ----

  lemma {:induction false} DeliverAllGrows(c: Config, s: State, ds: seq<Delivery>)
    ensures s.net <= DeliverAll(c, s, ds).net && DeliverAll(c, s, ds).pc == s.pc
  {
    hide RaisesTypeError, Agreement, NewSid;
    if ds != [] {
      DeliverAllGrows(c, s, ds[..|ds| - 1]);
    }
  }

  lemma {:induction false} MissesGrow(c: Config, s: State, waits: seq<Wait>)
    requires s.pc.Discovering? && s.pc.attempt + |waits| <= c.retries
    ensures s.net <= AfterMisses(c, s, waits).net
    ensures AfterMisses(c, s, waits).pc == Discovering(s.pc.attempt + |waits|)
    decreases |waits|
  {
    hide DeliverAll;
    if waits != [] {
      DeliverAllGrows(c, s, waits[0].meanwhile);
      MissesGrow(c, AfterMiss(c, s, waits[0]), waits[1..]);
    }
  }

  lemma DeliverOne(c: Config, s: State, d: Delivery)
    ensures DeliverAll(c, s, [d]) == Deliver(c, s, d)
  {
    hide Deliver;
    assert [d][..0] == [];
  }

  lemma DiscoverAnswered(c: Config, s: State, sid: nat)
    requires Discover(c.init) in s.net && NewSid(s, sid) && HandshakeStarts.Answers(c, c.init)
    ensures var t := Deliver(c, s, DiscoverDelivered(Discover(c.init), sid));
      && t.pc == s.pc && t.net == s.net + {Negotiate(sid, c.resp)}
      && t.contexts == s.contexts + [Handshake.Context(sid, Agreement(c.resp, c.init), false)]
  {
  }

  lemma AgreeAnswered(c: Config, s: State, sid: nat, agreed: Caps, i: nat)
    requires Agree(sid, agreed) in s.net && i < |s.contexts| && s.contexts[i].sid == sid
    ensures Ack in Deliver(c, s, AgreeDelivered(Agree(sid, agreed), i)).net
  {
  }

  lemma SharedIsMine(mine: Caps, theirs: Caps, k: string)
    requires Shared(mine, theirs, k)
    ensures k in mine
  {
  }

  lemma NothingShared(mine: Caps, theirs: Caps)
    ensures Agreement(mine, theirs) == map[] <==> forall k :: !Shared(mine, theirs, k)
  {
    hide Shared;
    var a := Agreement(mine, theirs);
    assert forall k :: k in a ==> Shared(mine, theirs, k);
    forall k | Shared(mine, theirs, k) ensures k in a {
      assert k in mine by { SharedIsMine(mine, theirs, k); }
    }
    assert a == map[] <==> a.Keys == {};
  }

  // Two sides that share something: after any number of fruitless waits, if the DISCOVER is then handled under a new
  // session id, its NEGOTIATE arrives, the AGREE is handled and the ACK arrives, `connect` returns that session.
  lemma PromptExchangeConnects(c: Config, s: State, waits: seq<Wait>, last: Wait, k: nat, sid: nat, r: Result)
    requires HandshakeStarts.CanConnect(c) && s.pc.Idle? && k < |waits| == c.retries
    requires var begun := Next(c, s, Event.Connect);
      && Fruitless(c, begun, waits[..k])
      && var now := AfterMisses(c, begun, waits[..k]);
      && NewSid(now, sid)
      && waits[k] == Wait([DiscoverDelivered(Discover(c.init), sid)], Arrives(Negotiate(sid, c.resp)))
      && last == Wait([AgreeDelivered(Agree(sid, Agreement(c.init, c.resp)), |now.contexts|)], Arrives(Ack))
    ensures var begun := Next(c, s, Event.Connect);
      && FirstNegotiate(c, begun, waits, k)
      && (Decides(c, AtNegotiate(c, begun, waits, k), waits[k].arriving.frame, last, r) <==>
          r == Session(sid, Agreement(c.init, c.resp)))
  {
    hide Agreement, RaisesTypeError, NewSid, Shared, Fruitless, AfterMisses, DeliverAll, Deliver;
    var begun := Next(c, s, Event.Connect);
    var now := AfterMisses(c, begun, waits[..k]);
    MissesGrow(c, begun, waits[..k]);
    DeliverOne(c, now, waits[k].meanwhile[0]);
    HandshakeStarts.AnswersInitiator(c);
    DiscoverAnswered(c, now, sid);
    var own := Agreement(c.init, c.resp);
    var offered := AtNegotiate(c, begun, waits, k);
    NothingShared(c.init, c.resp);
    var asked := State(AwaitingAck(sid, own), offered.net + {Agree(sid, own)}, offered.contexts);
    DeliverOne(c, asked, last.meanwhile[0]);
    AgreeAnswered(c, asked, sid, own, |now.contexts|);
  }

  class Endpoints {
    const c: Config

    // The network, the responder's contexts and the initiator's progress, and how they came about.
    var world: State
    ghost const start: State
    ghost var trace: seq<Event>

    ghost predicate Valid()
      reads this
    {
      Possible(c, start, trace) && world == Run(c, start, trace)
    }

    constructor (c: Config, net: set<Frame>, contexts: seq<Context>)
      ensures Valid() && this.c == c && world == start == State(Idle, net, contexts)
    {
      this.c := c;
      start, world, trace := State(Idle, net, contexts), State(Idle, net, contexts), [];
    }

    method Advance(e: Event)
      requires Valid() && Enabled(c, world, e)
      modifies this
      ensures Valid() && world == Next(c, old(world), e)
    {
      hide Run, Possible, Enabled, Next;
      RunSnoc(c, start, trace, e);
      world := Next(c, world, e);
      trace := trace + [e];
    }

    // What `handle_discover` does with a frame: nothing, a context and its NEGOTIATE, a REJECT, or an exception.
    method HandleDiscover(frame: Frame, sid: nat) returns (r: DiscoverResult)
      requires Valid() && frame in world.net && NewSid(world, sid)
      modifies this
      ensures Valid() && world.pc == old(world.pc) && old(world.net) <= world.net
      ensures world == Deliver(c, old(world), DiscoverDelivered(frame, sid))
      ensures r == Answer(c, frame)
      ensures r.Context? ==> Offered(c, old(world), world, frame, sid)
      ensures !r.Context? ==> world.contexts == old(world.contexts)
      ensures !r.Context? ==> world.net == if r.Rejected? then old(world.net) + {Reject} else old(world.net)
    {
      hide Run, Possible, IsAgreement, RaisesTypeError;
      if !frame.Discover? {
        return Ignored;
      }
      var raised, agreed := NegotiateCaps(c.resp, frame.caps);
      if !raised {
        hide Agreement, SameAgreement;
        AgreementIsOne(c.resp, frame.caps);
        AgreementsAreSame(c.resp, frame.caps, agreed, Agreement(c.resp, frame.caps));
        SameEmpty(agreed, Agreement(c.resp, frame.caps));
      }
      Advance(DiscoverArrives(frame, sid, agreed));
      r := if raised then DiscoverRaised else if agreed == map[] then Rejected else DiscoverResult.Context;
    }

    // HandshakeResponder.handle_agree on one of its contexts.
    method HandleAgree(frame: Frame, i: nat) returns (ok: bool)
      requires Valid() && frame in world.net && i < |world.contexts|
      modifies this
      ensures Valid() && world.pc == old(world.pc) && old(world.net) <= world.net
      ensures world == Deliver(c, old(world), AgreeDelivered(frame, i))
      ensures ok <==> frame.Agree? && frame.sid == old(world.contexts[i].sid)
      ensures ok ==> Ack in world.net
      ensures ok ==> world.contexts == old(world.contexts)[i := old(world.contexts[i]).(established := true)]
      ensures !ok ==> world == old(world)
    {
      hide Run, Possible;
      Advance(AgreeArrives(frame, i));
      ok := frame.Agree? && frame.sid == world.contexts[i].sid;
    }

    // What was never sent is not delivered, and a session id is never made twice.
    method Meanwhile(ds: seq<Delivery>)
      requires Valid()
      modifies this
      ensures Valid() && world.pc == old(world.pc) && old(world.net) <= world.net
      ensures world == DeliverAll(c, old(world), ds)
    {
      hide Run, Possible, Next;
      assert ds[..0] == [];
      for k := 0 to |ds|
        invariant Valid() && world.pc == old(world.pc) && old(world.net) <= world.net
        invariant world == DeliverAll(c, old(world), ds[..k])
      {
        assert ds[..k + 1][..k] == ds[..k];
        match ds[k]
        case DiscoverDelivered(f, sid) =>
          if f in world.net && NewSid(world, sid) {
            var _ := HandleDiscover(f, sid);
          }
        case AgreeDelivered(f, i) =>
          if f in world.net && i < |world.contexts| {
            var _ := HandleAgree(f, i);
          }
      }
      assert ds[..|ds|] == ds;
    }

    // _recv_typed, without the step it leads to.
    method Recv(w: Wait) returns (a: Arrival)
      requires Valid()
      modifies this
      ensures Valid() && world.pc == old(world.pc) && old(world.net) <= world.net
      ensures world == DeliverAll(c, old(world), w.meanwhile)
      ensures a == if w.arriving.Arrives? && w.arriving.frame in world.net then w.arriving else NoFrame
    {
      hide Run, Possible, DeliverAll;
      Meanwhile(w.meanwhile);
      a := if w.arriving.Arrives? && w.arriving.frame in world.net then w.arriving else NoFrame;
    }

    // HandshakeInitiator.connect: one wait per DISCOVER, and one for the ACK.
    method Connect(waits: seq<Wait>, last: Wait) returns (r: Result)
      requires Valid() && world.pc.Idle? && |waits| == c.retries
      modifies this
      ensures Valid()
      ensures Shows(world.pc, r)
      ensures Clean(c, start) && start.pc.Idle? ==> Kept(world)
      // Without a NEGOTIATE in any wait there is no session, and the first one that a wait brings decides.
      ensures Fruitless(c, Next(c, old(world), Event.Connect), waits) ==> r == NoSession
      ensures forall k :: 0 <= k < |waits| && FirstNegotiate(c, Next(c, old(world), Event.Connect), waits, k) ==>
        Decides(c, AtNegotiate(c, Next(c, old(world), Event.Connect), waits, k), waits[k].arriving.frame, last, r)
    {
      hide Run, Possible, Clean, Kept, DeliverAll, Decides, IsAgreement, Shared;
      Advance(Event.Connect);
      var attempt := 1;
      ghost var begun := world;
      assert waits[0..] == waits;
      while attempt <= c.retries
        invariant 1 <= attempt <= c.retries + 1 && Valid()
        invariant forall x :: Outcome(c, world, waits[attempt - 1..], last, x) ==> Outcome(c, begun, waits, last, x)
        invariant world.pc == if attempt <= c.retries then Discovering(attempt) else Failed
      {
        ghost var s := world;
        assert waits[attempt - 1..][0] == waits[attempt - 1] && waits[attempt - 1..][1..] == waits[attempt..];
        var response := Recv(waits[attempt - 1]);
        if response.Arrives? && response.frame.Negotiate? {
          r := FinishConnect(response.frame, last);
          PromiseKept();
          OutcomeMeans(c, begun, waits, last, r);
          return;
        }
        Advance(if response.Arrives? then Receive(response.frame, map[]) else NothingValid);
        attempt := attempt + 1;
      }
      PromiseKept();
      OutcomeMeans(c, begun, waits, last, NoSession);
      return NoSession;
    }

    lemma PromiseKept()
      requires Valid()
      ensures Clean(c, start) && start.pc.Idle? ==> Kept(world)
    {
      hide Run, Possible, Clean, Kept;
      if Clean(c, start) && start.pc.Idle? {
        HandshakeRuns.RunKeepsInv(c, start, trace);
        HandshakeRuns.InvMeansKept(c, world);
      }
    }

    // From the NEGOTIATE on.
    method FinishConnect(response: Frame, last: Wait) returns (r: Result)
      requires Valid() && world.pc.Discovering? && response in world.net && response.Negotiate?
      modifies this
      ensures Valid()
      ensures Shows(world.pc, r)
      ensures Decides(c, old(world), response, last, r)
    {
      hide Run, Possible, IsAgreement, RaisesTypeError, DeliverAll, Shared;
      NothingShared(c.init, response.caps);
      var raised, agreed := NegotiateCaps(c.init, response.caps);
      Advance(Receive(response, agreed));
      if raised {
        return TypeErrorRaised;
      }
      if agreed == map[] {
        return NoSession;
      }
      var ack := Recv(last);
      Advance(if ack.Arrives? then Receive(ack.frame, map[]) else NothingValid);
      if !(ack.Arrives? && ack.frame.Ack?) {
        return NoSession;
      }
      return Session(response.sid, agreed);
    }
  }
}
