/** When a returned session is what the responder established: exactly from the starts that earlier runs left clean. */
module HandshakeRuns {
  import opened Capabilities
  import opened Handshake

  // ---- The invariant of a run ----

  // `connect` has sent its AGREE and may still return a session.
  predicate Holding(pc: Pc) {
    pc.AwaitingAck? || pc.Returned?
  }

  predicate Over(pc: Pc) {
    pc.Failed? || pc.Raised?
  }

  ghost predicate HasEstablished(s: State, sid: nat) {
    exists i: nat :: IsEstablished(s, i, sid)
  }

  // Each AGREE belongs to no context or is the one sent in this run; an ACK means that its context is established.
  ghost predicate AgreeInv(s: State) {
    && (!Over(s.pc) ==> forall f :: f in s.net && f.Agree? ==> NoContext(s, f) || (Holding(s.pc) && s.pc.sid == f.sid))
    && (!Over(s.pc) && Ack in s.net ==> Holding(s.pc) && HasEstablished(s, s.pc.sid))
    && (s.pc.Returned? ==> Ack in s.net)
  }

  ghost predicate Sources(c: Config, s: State, f: Frame, agreed: Caps) {
    f in s.net && f.Negotiate? && !RaisesTypeError(c.init, f.caps) && agreed != map[] && IsAgreement(c.init, f.caps, agreed)
  }

  // What both sides agreed to comes from frames that make the same agreement.
  ghost predicate CapsInv(c: Config, s: State) {
    && (forall f :: f in s.net && f.Discover? ==> Harmless(c, f.caps))
    && (forall f :: f in s.net && f.Negotiate? ==> ConsistentWith(c, s, f))
    && (Holding(s.pc) ==> exists f :: Sources(c, s, f, s.pc.agreed) && f.sid == s.pc.sid)
  }

  lemma CleanStart(c: Config, s: State)
    requires Clean(c, s) && s.pc.Idle?
    ensures AgreeInv(s) && CapsInv(c, s)
  {
    hide Harmless, Matches;
  }

  // ---- Each event keeps it ----

  lemma OwnDiscoverIsHarmless(c: Config)
    ensures Harmless(c, c.init)
  {
    hide Agreement;
    AgreementIsOne(c.init, c.resp);
    AgreementIsOne(c.resp, c.init);
    AgreementsAreSame(c.init, c.resp, Agreement(c.init, c.resp), Agreement(c.resp, c.init));
  }

  // Sending DISCOVER, failing or raising.
  lemma MovedKeepsInv(c: Config, s: State, pc: Pc, f: Frame)
    requires AgreeInv(s) && CapsInv(c, s) && !Holding(s.pc) && !Holding(pc) && (Over(s.pc) ==> Over(pc))
    requires f == Discover(c.init) || f == Reject
    ensures AgreeInv(s.(pc := pc, net := s.net + {f})) && CapsInv(c, s.(pc := pc, net := s.net + {f}))
  {
    hide Harmless, Matches, Sources;
    OwnDiscoverIsHarmless(c);
    var t := s.(pc := pc, net := s.net + {f});
    forall g | g in t.net && g.Negotiate? ensures ConsistentWith(c, t, g) {
      assert ConsistentWith(c, s, g);
    }
  }

  lemma StoppedKeepsInv(c: Config, s: State, pc: Pc)
    requires AgreeInv(s) && CapsInv(c, s) && Over(pc)
    ensures AgreeInv(s.(pc := pc)) && CapsInv(c, s.(pc := pc))
  {
    hide Harmless, Matches, Sources;
    var t := s.(pc := pc);
    forall g | g in t.net && g.Negotiate? ensures ConsistentWith(c, t, g) {
      assert ConsistentWith(c, s, g);
    }
  }

  lemma RejectedKeepsInv(c: Config, s: State, pc: Pc)
    requires AgreeInv(s) && CapsInv(c, s) && (pc == s.pc || Over(pc))
    ensures AgreeInv(s.(pc := pc, net := s.net + {Reject})) && CapsInv(c, s.(pc := pc, net := s.net + {Reject}))
  {
    hide Harmless, Matches;
    var t := s.(pc := pc, net := s.net + {Reject});
    forall g | g in t.net && g.Negotiate? ensures ConsistentWith(c, t, g) {
      assert ConsistentWith(c, s, g);
    }
    if Holding(t.pc) {
      var f :| Sources(c, s, f, s.pc.agreed) && f.sid == s.pc.sid;
      assert Sources(c, t, f, t.pc.agreed);
    }
    forall g | g in t.net && g.Agree? && !Over(t.pc) ensures NoContext(t, g) || (Holding(t.pc) && t.pc.sid == g.sid) {
      assert NoContext(s, g) || (Holding(s.pc) && s.pc.sid == g.sid);
    }
    forall sid | HasEstablished(s, sid) ensures HasEstablished(t, sid) {
      var i: nat :| IsEstablished(s, i, sid);
      assert IsEstablished(t, i, sid);
    }
  }

  lemma MissedKeepsInv(c: Config, s: State)
    requires AgreeInv(s) && CapsInv(c, s)
    ensures AgreeInv(Missed(c, s)) && CapsInv(c, Missed(c, s))
  {
    match s.pc
    case Discovering(attempt) =>
      if attempt < c.retries {
        MovedKeepsInv(c, s, Discovering(attempt + 1), Discover(c.init));
      } else {
        StoppedKeepsInv(c, s, Failed);
      }
      hide AgreeInv, CapsInv;
    case AwaitingAck(_, _) => StoppedKeepsInv(c, s, Failed);
    case _ =>
  }

  lemma AgreeSentKeepsInv(c: Config, s: State, f: Frame, agreed: Caps)
    requires AgreeInv(s) && CapsInv(c, s) && s.pc.Discovering? && Sources(c, s, f, agreed)
    ensures var t := s.(pc := AwaitingAck(f.sid, agreed), net := s.net + {Agree(f.sid, agreed)});
      AgreeInv(t) && CapsInv(c, t)
  {
    hide Harmless, Matches;
    var t := s.(pc := AwaitingAck(f.sid, agreed), net := s.net + {Agree(f.sid, agreed)});
    assert Sources(c, t, f, agreed);
    forall g | g in t.net && g.Negotiate? ensures ConsistentWith(c, t, g) {
      assert ConsistentWith(c, s, g);
    }
    forall g | g in t.net && g.Agree? ensures NoContext(t, g) || t.pc.sid == g.sid {
      assert g in s.net ==> NoContext(s, g);
    }
  }

  lemma SamePcKeepsInv(c: Config, s: State, t: State)
    requires AgreeInv(s) && CapsInv(c, s) && Holding(s.pc) && t.net == s.net && t.contexts == s.contexts && Ack in s.net
    requires Holding(t.pc) && t.pc.sid == s.pc.sid && t.pc.agreed == s.pc.agreed
    ensures AgreeInv(t) && CapsInv(c, t)
  {
    hide Harmless, Matches;
    var f :| Sources(c, s, f, s.pc.agreed) && f.sid == s.pc.sid;
    assert Sources(c, t, f, t.pc.agreed);
    var i: nat :| IsEstablished(s, i, s.pc.sid);
    assert IsEstablished(t, i, t.pc.sid);
    forall g | g in t.net && g.Negotiate? ensures ConsistentWith(c, t, g) {
      assert ConsistentWith(c, s, g);
    }
    forall g | g in t.net && g.Agree? ensures NoContext(t, g) || t.pc.sid == g.sid {
      assert NoContext(s, g) || s.pc.sid == g.sid;
    }
  }

  lemma AckReceivedKeepsInv(c: Config, s: State)
    requires AgreeInv(s) && CapsInv(c, s) && s.pc.AwaitingAck? && Ack in s.net
    ensures var t := s.(pc := Returned(s.pc.sid, s.pc.agreed));
      AgreeInv(t) && CapsInv(c, t)
  {
    hide Harmless, Matches;
    var t := s.(pc := Returned(s.pc.sid, s.pc.agreed));
    SamePcKeepsInv(c, s, t);
  }

  lemma ReceiveKeepsInv(c: Config, s: State, f: Frame, agreed: Caps)
    requires AgreeInv(s) && CapsInv(c, s) && Enabled(c, s, Receive(f, agreed))
    ensures AgreeInv(AfterReceive(c, s, f, agreed)) && CapsInv(c, AfterReceive(c, s, f, agreed))
  {
    MissedKeepsInv(c, s);
    if s.pc.Discovering? && f.Negotiate? {
      if RaisesTypeError(c.init, f.caps) {
        StoppedKeepsInv(c, s, Raised);
      } else if agreed == map[] {
        RejectedKeepsInv(c, s, Failed);
      } else {
        AgreeSentKeepsInv(c, s, f, agreed);
      }
    } else if s.pc.AwaitingAck? && f.Ack? {
      AckReceivedKeepsInv(c, s);
    }
    hide AgreeInv, CapsInv, IsAgreement, Agreement, RaisesTypeError;
  }

  // The NEGOTIATE that answers a harmless DISCOVER is consistent with the new context.
  lemma NewContextMatches(c: Config, caps: Caps, agreed: Caps)
    requires Harmless(c, caps) && !RaisesTypeError(c.resp, caps) && agreed != map[] && IsAgreement(c.resp, caps, agreed)
    ensures Matches(c, c.resp, agreed)
  {
    hide IsAgreement, Agreement, SameAgreement, RaisesTypeError;
    AgreementIsOne(c.resp, caps);
    AgreementsAreSame(c.resp, caps, Agreement(c.resp, caps), agreed);
    SameEmpty(Agreement(c.resp, caps), agreed);
    if SameAgreement(Agreement(c.init, c.resp), Agreement(c.resp, caps)) {
      SameTransitive(Agreement(c.init, c.resp), Agreement(c.resp, caps), agreed);
    }
  }

  lemma ContextKeepsAgreeInv(s: State, caps: Caps, sid: nat, agreed: Caps)
    requires AgreeInv(s) && NewSid(s, sid)
    ensures AgreeInv(s.(net := s.net + {Negotiate(sid, caps)}, contexts := s.contexts + [Context(sid, agreed, false)]))
  {
    var t := s.(net := s.net + {Negotiate(sid, caps)}, contexts := s.contexts + [Context(sid, agreed, false)]);
    forall g | g in t.net && g.Agree? && !Over(t.pc) ensures NoContext(t, g) || (Holding(t.pc) && t.pc.sid == g.sid) {
      assert NoContext(s, g) || (Holding(s.pc) && s.pc.sid == g.sid);
      assert !Names(g, sid);
    }
    forall x | HasEstablished(s, x) ensures HasEstablished(t, x) {
      var i: nat :| IsEstablished(s, i, x);
      assert IsEstablished(t, i, x);
    }
  }

  lemma ContextKeepsCapsInv(c: Config, s: State, sid: nat, agreed: Caps)
    requires CapsInv(c, s) && NewSid(s, sid) && Matches(c, c.resp, agreed)
    ensures CapsInv(c, s.(net := s.net + {Negotiate(sid, c.resp)}, contexts := s.contexts + [Context(sid, agreed, false)]))
  {
    hide Harmless, Matches;
    var t := s.(net := s.net + {Negotiate(sid, c.resp)}, contexts := s.contexts + [Context(sid, agreed, false)]);
    forall g | g in t.net && g.Negotiate? ensures ConsistentWith(c, t, g) {
      if g in s.net {
        assert ConsistentWith(c, s, g) && !Names(g, sid);
      }
    }
    if Holding(t.pc) {
      var f :| Sources(c, s, f, s.pc.agreed) && f.sid == s.pc.sid;
      assert Sources(c, t, f, t.pc.agreed);
    }
  }

  lemma DiscoverKeepsInv(c: Config, s: State, f: Frame, sid: nat, agreed: Caps)
    requires AgreeInv(s) && CapsInv(c, s) && Enabled(c, s, DiscoverArrives(f, sid, agreed))
    ensures AgreeInv(AfterDiscover(c, s, f, sid, agreed)) && CapsInv(c, AfterDiscover(c, s, f, sid, agreed))
  {
    if f.Discover? && !RaisesTypeError(c.resp, f.caps) {
      if agreed == map[] {
        RejectedKeepsInv(c, s, s.pc);
      } else {
        assert Harmless(c, f.caps);
        hide Harmless, IsAgreement, Agreement, RaisesTypeError;
        NewContextMatches(c, f.caps, agreed);
        ContextKeepsAgreeInv(s, c.resp, sid, agreed);
        ContextKeepsCapsInv(c, s, sid, agreed);
        hide AgreeInv, CapsInv;
      }
    }
  }

  lemma AgreeKeepsInv(c: Config, s: State, f: Frame, i: nat)
    requires AgreeInv(s) && CapsInv(c, s) && f in s.net
    ensures AgreeInv(AfterAgree(s, f, i)) && CapsInv(c, AfterAgree(s, f, i))
  {
    hide Harmless, Matches;
    if f.Agree? && i < |s.contexts| && f.sid == s.contexts[i].sid {
      var t := AfterAgree(s, f, i);
      assert !NoContext(s, f);
      assert IsEstablished(t, i, f.sid);
      forall g | g in t.net && g.Negotiate? ensures ConsistentWith(c, t, g) {
        assert ConsistentWith(c, s, g);
      }
      forall g | g in t.net && g.Agree? && !Over(t.pc) ensures NoContext(t, g) || (Holding(t.pc) && t.pc.sid == g.sid) {
        assert NoContext(s, g) || (Holding(s.pc) && s.pc.sid == g.sid);
      }
      if Holding(t.pc) {
        var h :| Sources(c, s, h, s.pc.agreed) && h.sid == s.pc.sid;
        assert Sources(c, t, h, t.pc.agreed);
      }
    }
  }

  lemma NextKeepsInv(c: Config, s: State, e: Event)
    requires AgreeInv(s) && CapsInv(c, s) && Enabled(c, s, e)
    ensures AgreeInv(Next(c, s, e)) && CapsInv(c, Next(c, s, e))
  {
    match e
    case Connect =>
      if s.pc.Idle? {
        if c.retries == 0 {
          StoppedKeepsInv(c, s, Failed);
        } else {
          MovedKeepsInv(c, s, Discovering(1), Discover(c.init));
        }
      }
      hide AgreeInv, CapsInv;
    case Receive(f, agreed) => ReceiveKeepsInv(c, s, f, agreed);
    case NothingValid => MissedKeepsInv(c, s);
    case DiscoverArrives(f, sid, agreed) => DiscoverKeepsInv(c, s, f, sid, agreed);
    case AgreeArrives(f, i) => AgreeKeepsInv(c, s, f, i);
  }

  lemma {:induction false} RunKeepsInv(c: Config, s: State, es: seq<Event>)
    requires Clean(c, s) && s.pc.Idle? && Possible(c, s, es)
    ensures AgreeInv(Run(c, s, es)) && CapsInv(c, Run(c, s, es))
  {
    hide Clean, Next, Enabled, AgreeInv, CapsInv;
    if es == [] {
      CleanStart(c, s);
    } else {
      RunKeepsInv(c, s, es[..|es| - 1]);
      NextKeepsInv(c, Run(c, s, es[..|es| - 1]), es[|es| - 1]);
    }
  }

  lemma InvMeansKept(c: Config, s: State)
    requires AgreeInv(s) && CapsInv(c, s)
    ensures Kept(s)
  {
    hide Harmless, IsAgreement, Agreement, SameAgreement, RaisesTypeError;
    if s.pc.Returned? {
      var i: nat :| IsEstablished(s, i, s.pc.sid);
      var f :| Sources(c, s, f, s.pc.agreed) && f.sid == s.pc.sid;
      assert ConsistentWith(c, s, f);
      var own := Agreement(c.init, f.caps);
      AgreementIsOne(c.init, f.caps);
      AgreementsAreSame(c.init, f.caps, s.pc.agreed, own);
      SameEmpty(s.pc.agreed, own);
      SameTransitive(s.pc.agreed, own, s.contexts[i].agreed);
    }
  }

  // From a clean start, whatever the network does and however many session ids the DISCOVER retries made: if `connect`
  // returns a session, the responder established the context with that very id, and both agreed to the same.
  lemma SessionIsAgreed(c: Config, s: State, es: seq<Event>)
    requires Clean(c, s) && s.pc.Idle? && Possible(c, s, es) && Run(c, s, es).pc.Returned?
    ensures Kept(Run(c, s, es))
  {
    hide Clean, Possible, Run, AgreeInv, CapsInv, Kept;
    RunKeepsInv(c, s, es);
    InvMeansKept(c, Run(c, s, es));
  }
}
