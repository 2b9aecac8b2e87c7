/**
 * The four-step handshake: one `connect` run against a responder, over a network that loses, duplicates, reorders and
 * may still hold frames of earlier runs. Session ids are fresh numbers.
 */
module Handshake {
  import opened Capabilities
  import opened Negotiation

  // ---- _negotiate_caps ----

  // `set` raises on an unhashable element of one of two lists.
  predicate RaisesTypeError(mine: Caps, theirs: Caps) {
    exists k :: k in mine && k in theirs && mine[k].List? && theirs[k].List?
      && !(Hashable(mine[k].items) && Hashable(theirs[k].items))
  }

  predicate Shared(mine: Caps, theirs: Caps, k: string) {
    k in mine && k in theirs && ((mine[k].List? && theirs[k].List?) || PyEq(mine[k], theirs[k]))
  }

  ghost predicate SameElements(s: seq<Elem>, t: seq<Elem>) {
    forall x :: x in s <==> x in t
  }

  predicate NoDuplicates(s: seq<Elem>) {
    forall i, j :: 0 <= i < j < |s| ==> s[i] != s[j]
  }

  // What the code may return: `list(set & set)` comes in any order.
  ghost predicate IsAgreement(mine: Caps, theirs: Caps, agreed: Caps) {
    && (forall k :: k in agreed <==> Shared(mine, theirs, k))
    && (forall k :: k in agreed ==>
          if mine[k].List? && theirs[k].List? then
            && agreed[k].List? && NoDuplicates(agreed[k].items)
            && (forall x :: x in agreed[k].items <==> x in mine[k].items && x in theirs[k].items)
          else agreed[k] == mine[k])
  }

  // The agreement with its lists sorted.
  function SharedValue(mine: Value, theirs: Value): Value {
    if mine.List? && theirs.List? then List(Common(mine.items, theirs.items)) else mine
  }

  function Agreement(mine: Caps, theirs: Caps): Caps {
    map k | k in mine && Shared(mine, theirs, k) :: SharedValue(mine[k], theirs[k])
  }

  // Equal, with lists read as sets.
  ghost predicate SameValue(x: Value, y: Value) {
    if x.List? && y.List? then SameElements(x.items, y.items) else PyEq(x, y)
  }

  ghost predicate SameAgreement(a: Caps, b: Caps) {
    a.Keys == b.Keys && forall k :: k in a ==> SameValue(a[k], b[k])
  }

  lemma SameTransitive(a: Caps, b: Caps, c: Caps)
    requires SameAgreement(a, b) && SameAgreement(b, c)
    ensures SameAgreement(a, c)
  {
    forall k | k in a ensures SameValue(a[k], c[k]) {
      assert k in b.Keys;
      assert SameValue(a[k], b[k]) && SameValue(b[k], c[k]);
    }
  }

  lemma IncreasingHasNoDuplicates(s: seq<Elem>)
    requires Increasing(s)
    ensures NoDuplicates(s)
  {
    hide Less;
    forall i, j | 0 <= i < j < |s| ensures s[i] != s[j] {
      LessStrict(s[i], s[j]);
    }
  }

  lemma AgreementIsOne(mine: Caps, theirs: Caps)
    ensures IsAgreement(mine, theirs, Agreement(mine, theirs))
  {
    hide Common, Increasing, NoDuplicates, PyEq;
    forall k | Shared(mine, theirs, k) && mine[k].List? && theirs[k].List?
      ensures NoDuplicates(Common(mine[k].items, theirs[k].items))
      ensures forall x :: x in Common(mine[k].items, theirs[k].items) <==> x in mine[k].items && x in theirs[k].items
    {
      CommonFacts(mine[k].items, theirs[k].items);
      IncreasingHasNoDuplicates(Common(mine[k].items, theirs[k].items));
    }
  }

  lemma SharedSymmetric(a: Caps, b: Caps, k: string)
    ensures Shared(a, b, k) <==> Shared(b, a, k)
  {
  }

  // Whatever the order of its lists, every agreement on the same capabilities is the same, from either side.
  lemma AgreementsAreSame(a: Caps, b: Caps, x: Caps, y: Caps)
    requires IsAgreement(a, b, x) && (IsAgreement(a, b, y) || IsAgreement(b, a, y))
    ensures SameAgreement(x, y)
  {
    hide NoDuplicates;
    forall k ensures k in x <==> k in y {
      SharedSymmetric(a, b, k);
    }
    assert x.Keys == y.Keys;
  }

  lemma SameEmpty(a: Caps, b: Caps)
    requires SameAgreement(a, b)
    ensures a == map[] <==> b == map[]
  {
    assert a == map[] <==> a.Keys == {};
    assert b == map[] <==> b.Keys == {};
  }

  lemma RaisesTypeErrorIff(mine: Caps, theirs: Caps)
    ensures RaisesTypeError(mine, theirs) <==>
            exists k, x :: && k in mine && k in theirs && mine[k].List? && theirs[k].List?
                           && x in mine[k].items + theirs[k].items && x.Nested?
  {
    hide Hashable;
    forall k | k in mine && k in theirs && mine[k].List? && theirs[k].List?
      ensures Hashable(mine[k].items) && Hashable(theirs[k].items) <==>
              forall x :: x in mine[k].items + theirs[k].items ==> !x.Nested?
    {
      HashableMeans(mine[k].items);
      HashableMeans(theirs[k].items);
    }
  }

  // Shared are the keys of both whose values are equal or are both lists, even lists with nothing in common; a shared
  // list holds exactly the common elements.
  method NegotiateCaps(mine: Caps, theirs: Caps) returns (raised: bool, agreed: Caps)
    ensures raised <==> RaisesTypeError(mine, theirs)
    ensures !raised ==> forall k :: k in agreed <==>
      k in mine && k in theirs && ((mine[k].List? && theirs[k].List?) || PyEq(mine[k], theirs[k]))
    ensures !raised ==> forall k :: k in agreed && mine[k].List? && theirs[k].List? ==>
      agreed[k].List? && forall x :: x in agreed[k].items <==> x in mine[k].items && x in theirs[k].items
    ensures !raised ==> IsAgreement(mine, theirs, agreed) && agreed == Agreement(mine, theirs)
  {
    hide Common, Hashable, PyEq;
    agreed := map[];
    var keys := mine.Keys;
    while keys != {}
      invariant keys <= mine.Keys
      invariant forall k :: k in agreed <==> k !in keys && Shared(mine, theirs, k)
      invariant forall k :: k in agreed ==> agreed[k] == SharedValue(mine[k], theirs[k])
      invariant forall k :: k in mine && k !in keys && k in theirs && mine[k].List? && theirs[k].List? ==>
        Hashable(mine[k].items) && Hashable(theirs[k].items)
      decreases |keys|
    {
      var k :| k in keys;
      keys := keys - {k};
      if k in theirs {
        var v := mine[k];
        if v.List? && theirs[k].List? {
          if !Hashable(v.items) || !Hashable(theirs[k].items) {
            return true, map[];
          }
          agreed := agreed[k := List(Common(v.items, theirs[k].items))];
        } else if PyEq(v, theirs[k]) {
          agreed := agreed[k := v];
        }
      }
    }
    assert agreed == Agreement(mine, theirs);
    AgreementIsOne(mine, theirs);
    return false, agreed;
  }

  // ---- The protocol ----

  datatype Config = Config(init: Caps, resp: Caps, retries: nat)

  datatype Frame =
    | Discover(caps: Caps)
    | Negotiate(sid: nat, caps: Caps)
    | Agree(sid: nat, agreed: Caps)
    | Ack
    | Reject

  // Where the initiator is in `connect`, and what it returned.
  datatype Pc =
    | Idle
    | Discovering(attempt: nat)
    | AwaitingAck(sid: nat, agreed: Caps)
    | Returned(sid: nat, agreed: Caps)
    | Failed
    | Raised

  // A session context of the responder: NEGOTIATING, or ESTABLISHED.
  datatype Context = Context(sid: nat, agreed: Caps, established: bool)

  // `net` holds every frame that was ever sent and may still arrive, any number of times.
  datatype State = State(pc: Pc, net: set<Frame>, contexts: seq<Context>)

  datatype Event =
    | Connect
    | Receive(frame: Frame, agreed: Caps)
    | NothingValid
    | DiscoverArrives(frame: Frame, sid: nat, agreed: Caps)
    | AgreeArrives(frame: Frame, i: nat)

  function Missed(c: Config, s: State): State {
    match s.pc
    case Discovering(attempt) =>
      if attempt < c.retries then s.(pc := Discovering(attempt + 1), net := s.net + {Discover(c.init)})
      else s.(pc := Failed)
    case AwaitingAck(_, _) => s.(pc := Failed)
    case _ => s
  }

  function AfterNegotiate(c: Config, s: State, f: Frame, agreed: Caps): State
    requires f.Negotiate?
  {
    if RaisesTypeError(c.init, f.caps) then s.(pc := Raised)
    else if agreed == map[] then s.(pc := Failed, net := s.net + {Reject})
    else s.(pc := AwaitingAck(f.sid, agreed), net := s.net + {Agree(f.sid, agreed)})
  }

  // One `recvfrom` of the initiator: a frame of another type than the expected one is as good as none.
  function AfterReceive(c: Config, s: State, f: Frame, agreed: Caps): State {
    if s.pc.Discovering? && f.Negotiate? then AfterNegotiate(c, s, f, agreed)
    else if s.pc.AwaitingAck? && f.Ack? then s.(pc := Returned(s.pc.sid, s.pc.agreed))
    else Missed(c, s)
  }

  function AfterDiscover(c: Config, s: State, f: Frame, sid: nat, agreed: Caps): State {
    if !f.Discover? || RaisesTypeError(c.resp, f.caps) then s
    else if agreed == map[] then s.(net := s.net + {Reject})
    else s.(net := s.net + {Negotiate(sid, c.resp)}, contexts := s.contexts + [Context(sid, agreed, false)])
  }

  function AfterAgree(s: State, f: Frame, i: nat): State {
    if f.Agree? && i < |s.contexts| && f.sid == s.contexts[i].sid then
      s.(net := s.net + {Ack}, contexts := s.contexts[i := s.contexts[i].(established := true)])
    else s
  }

  function Next(c: Config, s: State, e: Event): State {
    match e
    case Connect =>
      if !s.pc.Idle? then s
      else if c.retries == 0 then s.(pc := Failed)
      else s.(pc := Discovering(1), net := s.net + {Discover(c.init)})
    case Receive(f, agreed) => AfterReceive(c, s, f, agreed)
    case NothingValid => Missed(c, s)
    case DiscoverArrives(f, sid, agreed) => AfterDiscover(c, s, f, sid, agreed)
    case AgreeArrives(f, i) => AfterAgree(s, f, i)
  }

  predicate Names(f: Frame, sid: nat) {
    (f.Negotiate? || f.Agree?) && f.sid == sid
  }

  // A new session id: no context has it, and no frame names it.
  predicate NewSid(s: State, sid: nat) {
    (forall i :: 0 <= i < |s.contexts| ==> s.contexts[i].sid != sid) && (forall f :: f in s.net ==> !Names(f, sid))
  }

  ghost predicate Enabled(c: Config, s: State, e: Event) {
    match e
    case Receive(f, agreed) =>
      f in s.net
      && (s.pc.Discovering? && f.Negotiate? && !RaisesTypeError(c.init, f.caps) ==> IsAgreement(c.init, f.caps, agreed))
    case DiscoverArrives(f, sid, agreed) =>
      f in s.net && NewSid(s, sid)
      && (f.Discover? && !RaisesTypeError(c.resp, f.caps) ==> IsAgreement(c.resp, f.caps, agreed))
    case AgreeArrives(f, _) => f in s.net
    case Connect => true
    case NothingValid => true
  }

  function Run(c: Config, s: State, es: seq<Event>): State {
    if es == [] then s else Next(c, Run(c, s, es[..|es| - 1]), es[|es| - 1])
  }

  ghost predicate Possible(c: Config, s: State, es: seq<Event>) {
    es == [] || (Possible(c, s, es[..|es| - 1]) && Enabled(c, Run(c, s, es[..|es| - 1]), es[|es| - 1]))
  }

  // What a returned session promises: the responder has established it, and agreed to the same.
  predicate IsEstablished(s: State, i: nat, sid: nat) {
    i < |s.contexts| && s.contexts[i].sid == sid && s.contexts[i].established
  }

  ghost predicate Kept(s: State) {
    s.pc.Returned? ==>
      exists i: nat :: IsEstablished(s, i, s.pc.sid) && SameAgreement(s.pc.agreed, s.contexts[i].agreed)
  }

  ghost predicate AlwaysKept(c: Config, start: State) {
    forall es :: Possible(c, start, es) ==> Kept(Run(c, start, es))
  }

  // ---- What earlier runs may leave behind ----

  // The initiator's agreement with `caps` is this one, if it makes any.
  ghost predicate Matches(c: Config, caps: Caps, agreed: Caps) {
    RaisesTypeError(c.init, caps) || Agreement(c.init, caps) == map[] || SameAgreement(Agreement(c.init, caps), agreed)
  }

  // A DISCOVER with capabilities on which the responder makes no agreement, or the one it would make with this
  // initiator.
  ghost predicate Harmless(c: Config, caps: Caps) {
    RaisesTypeError(c.resp, caps) || Agreement(c.resp, caps) == map[] || Matches(c, c.resp, Agreement(c.resp, caps))
  }

  ghost predicate ConsistentWith(c: Config, s: State, f: Frame) {
    forall i :: 0 <= i < |s.contexts| && f.Negotiate? && f.sid == s.contexts[i].sid ==>
      Matches(c, f.caps, s.contexts[i].agreed)
  }

  predicate NoContext(s: State, f: Frame)
    requires f.Agree?
  {
    forall i :: 0 <= i < |s.contexts| ==> s.contexts[i].sid != f.sid
  }

  // No ACK is left, no AGREE for a context that still exists, no DISCOVER that leads to another agreement, and no
  // NEGOTIATE whose context agreed to something else.
  ghost predicate Clean(c: Config, s: State) {
    && Ack !in s.net
    && (forall f :: f in s.net && f.Agree? ==> NoContext(s, f))
    && (forall f :: f in s.net && f.Discover? ==> Harmless(c, f.caps))
    && (forall f :: f in s.net && f.Negotiate? ==> ConsistentWith(c, s, f))
  }
}
