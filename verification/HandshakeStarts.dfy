/** The other half: from any start that is not clean, some schedule makes `connect` return a session it should not. */
module HandshakeStarts {
  import opened Capabilities
  import opened Handshake
  import HandshakeRuns

  ghost predicate Reaches(c: Config, s: State, t: State) {
    exists es :: Possible(c, s, es) && Run(c, s, es) == t
  }

  lemma ReachesItself(c: Config, s: State)
    ensures Reaches(c, s, s)
  {
    assert Possible(c, s, []) && Run(c, s, []) == s;
  }

  lemma ReachesNext(c: Config, s: State, t: State, e: Event)
    requires Reaches(c, s, t) && Enabled(c, t, e)
    ensures Reaches(c, s, Next(c, t, e))
  {
    hide Next, Enabled;
    var es :| Possible(c, s, es) && Run(c, s, es) == t;
    assert (es + [e])[..|es|] == es;
    assert Possible(c, s, es + [e]) && Run(c, s, es + [e]) == Next(c, t, e);
  }

  lemma ReachedIsKept(c: Config, s: State, t: State)
    requires AlwaysKept(c, s) && Reaches(c, s, t)
    ensures Kept(t)
  {
    hide Kept, Run, Possible;
  }

  // ---- A session id that nothing uses ----

  lemma {:induction false} AboveAll(xs: set<nat>) returns (n: nat)
    ensures forall x :: x in xs ==> x < n
  {
    if xs == {} {
      n := 0;
    } else {
      var x :| x in xs;
      var m := AboveAll(xs - {x});
      n := if x < m then m else x + 1;
      assert xs == (xs - {x}) + {x};
    }
  }

  function SidOf(f: Frame): nat {
    if f.Negotiate? || f.Agree? then f.sid else 0
  }

  lemma NewSidExists(s: State) returns (sid: nat)
    ensures NewSid(s, sid)
  {
    var used := (set f | f in s.net :: SidOf(f)) + (set x | x in s.contexts :: x.sid);
    sid := AboveAll(used);
    forall f | f in s.net ensures !Names(f, sid) {
      assert SidOf(f) in used;
    }
    forall i | 0 <= i < |s.contexts| ensures s.contexts[i].sid != sid {
      assert s.contexts[i] in s.contexts && s.contexts[i].sid in used;
    }
  }

  // ---- The schedules ----

  // Both sides have something in common, and the initiator tries at least once.
  ghost predicate CanConnect(c: Config) {
    c.retries >= 1 && !RaisesTypeError(c.init, c.resp) && Agreement(c.init, c.resp) != map[]
  }

  // The responder makes a context from this DISCOVER.
  ghost predicate Answers(c: Config, caps: Caps) {
    !RaisesTypeError(c.resp, caps) && Agreement(c.resp, caps) != map[]
  }

  lemma AnswersInitiator(c: Config)
    requires CanConnect(c)
    ensures Answers(c, c.init)
  {
    hide Agreement, IsAgreement, SameAgreement;
    AgreementIsOne(c.init, c.resp);
    AgreementIsOne(c.resp, c.init);
    AgreementsAreSame(c.init, c.resp, Agreement(c.init, c.resp), Agreement(c.resp, c.init));
    SameEmpty(Agreement(c.init, c.resp), Agreement(c.resp, c.init));
  }

  // `connect` begins, a DISCOVER with `caps` arrives, and the initiator takes the NEGOTIATE that answers it.
  function Opened(c: Config, s: State, sid: nat, caps: Caps): State {
    var own := Agreement(c.init, c.resp);
    State(AwaitingAck(sid, own),
          s.net + {Discover(c.init)} + {Negotiate(sid, c.resp)} + {Agree(sid, own)},
          s.contexts + [Context(sid, Agreement(c.resp, caps), false)])
  }

  lemma ReachesOpened(c: Config, s: State, sid: nat, caps: Caps)
    requires s.pc.Idle? && CanConnect(c) && NewSid(s, sid) && Answers(c, caps)
    requires caps == c.init || Discover(caps) in s.net
    ensures Reaches(c, s, Opened(c, s, sid, caps))
  {
    hide Agreement, IsAgreement, RaisesTypeError;
    ReachesItself(c, s);
    ReachesNext(c, s, s, Connect);
    var s1 := Next(c, s, Connect);
    AgreementIsOne(c.resp, caps);
    var e := DiscoverArrives(Discover(caps), sid, Agreement(c.resp, caps));
    ReachesNext(c, s, s1, e);
    var s2 := Next(c, s1, e);
    AgreementIsOne(c.init, c.resp);
    ReachesNext(c, s, s2, Receive(Negotiate(sid, c.resp), Agreement(c.init, c.resp)));
  }

  lemma ReachesReturned(c: Config, s: State, t: State)
    requires Reaches(c, s, t) && t.pc.AwaitingAck? && Ack in t.net
    ensures Reaches(c, s, t.(pc := Returned(t.pc.sid, t.pc.agreed)))
  {
    ReachesNext(c, s, t, Receive(Ack, map[]));
  }

  lemma LeftoverAckBreaks(c: Config, s: State)
    requires s.pc.Idle? && CanConnect(c) && Ack in s.net
    ensures !AlwaysKept(c, s)
  {
    hide Agreement, RaisesTypeError, SameAgreement, AlwaysKept, Reaches;
    var sid := NewSidExists(s);
    AnswersInitiator(c);
    ReachesOpened(c, s, sid, c.init);
    var t := Opened(c, s, sid, c.init);
    ReachesReturned(c, s, t);
    var u := t.(pc := Returned(t.pc.sid, t.pc.agreed));
    assert !Kept(u);
    if AlwaysKept(c, s) {
      ReachedIsKept(c, s, u);
    }
  }

  lemma LeftoverAgreeBreaks(c: Config, s: State, f: Frame)
    requires s.pc.Idle? && CanConnect(c) && f in s.net && f.Agree? && !NoContext(s, f)
    ensures !AlwaysKept(c, s)
  {
    hide Agreement, RaisesTypeError, SameAgreement, AlwaysKept, Reaches;
    var sid := NewSidExists(s);
    AnswersInitiator(c);
    ReachesOpened(c, s, sid, c.init);
    var t := Opened(c, s, sid, c.init);
    var i :| 0 <= i < |s.contexts| && s.contexts[i].sid == f.sid;
    ReachesNext(c, s, t, AgreeArrives(f, i));
    var u := AfterAgree(t, f, i);
    ReachesReturned(c, s, u);
    var v := u.(pc := Returned(u.pc.sid, u.pc.agreed));
    assert v.contexts[|s.contexts|] == t.contexts[|s.contexts|];
    assert !Kept(v);
    if AlwaysKept(c, s) {
      ReachedIsKept(c, s, v);
    }
  }

  lemma ReachesSession(c: Config, s: State, t: State, i: nat)
    requires Reaches(c, s, t) && t.pc.AwaitingAck? && Agree(t.pc.sid, t.pc.agreed) in t.net
    requires i < |t.contexts| && t.contexts[i].sid == t.pc.sid
    ensures Reaches(c, s, State(Returned(t.pc.sid, t.pc.agreed), t.net + {Ack},
                                t.contexts[i := t.contexts[i].(established := true)]))
  {
    hide Reaches;
    ReachesNext(c, s, t, AgreeArrives(Agree(t.pc.sid, t.pc.agreed), i));
    ReachesReturned(c, s, AfterAgree(t, Agree(t.pc.sid, t.pc.agreed), i));
  }

  // The promise is not empty: from every start, some schedule returns a session.
  lemma SessionIsPossible(c: Config, s: State) returns (t: State)
    requires s.pc.Idle? && CanConnect(c)
    ensures Reaches(c, s, t) && t.pc.Returned? && SameAgreement(t.pc.agreed, Agreement(c.init, c.resp))
    ensures IsEstablished(t, |s.contexts|, t.pc.sid)
  {
    hide Reaches, RaisesTypeError;
    var sid := NewSidExists(s);
    AnswersInitiator(c);
    ReachesOpened(c, s, sid, c.init);
    t := Opened(c, s, sid, c.init);
    ReachesSession(c, s, t, |s.contexts|);
    t := State(Returned(t.pc.sid, t.pc.agreed), t.net + {Ack},
               t.contexts[|s.contexts| := t.contexts[|s.contexts|].(established := true)]);
  }

  lemma LeftoverDiscoverBreaks(c: Config, s: State, caps: Caps)
    requires s.pc.Idle? && CanConnect(c) && Discover(caps) in s.net && !Harmless(c, caps)
    ensures !AlwaysKept(c, s)
  {
    assert Answers(c, caps) && !SameAgreement(Agreement(c.init, c.resp), Agreement(c.resp, caps));
    hide Agreement, RaisesTypeError, SameAgreement, AlwaysKept, Reaches;
    var sid := NewSidExists(s);
    ReachesOpened(c, s, sid, caps);
    var t := Opened(c, s, sid, caps);
    ReachesSession(c, s, t, |s.contexts|);
    var u := State(Returned(t.pc.sid, t.pc.agreed), t.net + {Ack},
                   t.contexts[|s.contexts| := t.contexts[|s.contexts|].(established := true)]);
    assert !Kept(u);
    if AlwaysKept(c, s) {
      ReachedIsKept(c, s, u);
    }
  }

  predicate UniqueSids(s: State) {
    forall i, j :: 0 <= i < j < |s.contexts| ==> s.contexts[i].sid != s.contexts[j].sid
  }

  lemma LeftoverNegotiateBreaks(c: Config, s: State, f: Frame)
    requires s.pc.Idle? && c.retries >= 1 && UniqueSids(s) && f in s.net && f.Negotiate? && !ConsistentWith(c, s, f)
    ensures !AlwaysKept(c, s)
  {
    var i :| 0 <= i < |s.contexts| && f.sid == s.contexts[i].sid && !Matches(c, f.caps, s.contexts[i].agreed);
    var own := Agreement(c.init, f.caps);
    AgreementIsOne(c.init, f.caps);
    hide Agreement, RaisesTypeError, SameAgreement, AlwaysKept, Reaches, IsAgreement;
    ReachesItself(c, s);
    ReachesNext(c, s, s, Connect);
    var s1 := Next(c, s, Connect);
    ReachesNext(c, s, s1, Receive(f, own));
    var t := Next(c, s1, Receive(f, own));
    ReachesSession(c, s, t, i);
    var u := State(Returned(t.pc.sid, t.pc.agreed), t.net + {Ack}, t.contexts[i := t.contexts[i].(established := true)]);
    assert !Kept(u);
    if AlwaysKept(c, s) {
      ReachedIsKept(c, s, u);
    }
  }

  lemma OneTry(c: Config)
    requires CanConnect(c)
    ensures c.retries >= 1
  {
  }

  // Exactly when the handshake keeps its promise, for two sides that can connect at all: if and only if earlier runs
  // left no ACK, no AGREE for a context that the responder still has, no DISCOVER on which it would agree to something
  // else, and no NEGOTIATE whose context did.
  lemma AlwaysKeptIffClean(c: Config, s: State)
    requires s.pc.Idle? && CanConnect(c) && UniqueSids(s)
    ensures AlwaysKept(c, s) <==> Clean(c, s)
  {
    hide Harmless, ConsistentWith, NoContext, Kept, Run, Possible, UniqueSids, CanConnect;
    if Clean(c, s) {
      forall es | Possible(c, s, es) ensures Kept(Run(c, s, es)) {
        HandshakeRuns.RunKeepsInv(c, s, es);
        HandshakeRuns.InvMeansKept(c, Run(c, s, es));
      }
    } else if Ack in s.net {
      LeftoverAckBreaks(c, s);
    } else if f :| f in s.net && f.Agree? && !NoContext(s, f) {
      LeftoverAgreeBreaks(c, s, f);
    } else if f :| f in s.net && f.Discover? && !Harmless(c, f.caps) {
      LeftoverDiscoverBreaks(c, s, f.caps);
    } else {
      var f :| f in s.net && f.Negotiate? && !ConsistentWith(c, s, f);
      OneTry(c);
      LeftoverNegotiateBreaks(c, s, f);
    }
  }
}
