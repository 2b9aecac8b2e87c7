/** The sender object of Stop-and-Wait, whose retry loop runs while other threads act between its statements. */
module StopAndWaitSender {
  import opened Bytes
  import opened Frame
  import opened StopAndWait

  // What the other threads and the network do around one attempt: after the transmission, after the clear, and after
  // the wake-up; and whether the socket takes the frame and the wait times out.
  datatype Turn = Turn(sockOk: bool, early: seq<Event>, late: seq<Event>, timesOut: bool, beforeRead: seq<Event>)

  // Steps that are not the sender's own.
  predicate Foreign(es: seq<Event>) {
    forall i :: 0 <= i < |es| ==> es[i].NotifyWrite? || es[i].NotifySet? || es[i].Arrive?
  }

  predicate ForeignTurn(t: Turn) {
    Foreign(t.early) && Foreign(t.late) && Foreign(t.beforeRead)
  }

  // The socket took the frame in each of the first `n` turns.
  predicate AllSent(turns: seq<Turn>, n: nat)
    requires n <= |turns|
  {
    forall i :: 0 <= i < n ==> turns[i].sockOk
  }

  datatype Result = Returned(ok: bool) | Raised

  lemma RunSnoc(maxRetry: nat, s: State, es: seq<Event>, e: Event)
    ensures Run(maxRetry, s, es + [e]) == Next(maxRetry, Run(maxRetry, s, es), e)
  {
    assert (es + [e])[..|es|] == es;
  }

  lemma ForeignLeavesSender(maxRetry: nat, s: State, e: Event)
    requires Foreign([e])
    ensures var t := Next(maxRetry, s, e);
      && t.pc == s.pc && t.history == s.history && t.seqNo == s.seqNo
      && t.payload == s.payload && t.msgType == s.msgType && t.transmissions == s.transmissions
      && s.received <= t.received
  {
    assert [e][0] == e;
  }

  predicate AllReturnedTrue(history: seq<CallRecord>) {
    forall j :: 0 <= j < |history| ==> history[j].returned
  }

  lemma TrueIsKept(maxRetry: nat, trace: seq<Event>, history: seq<CallRecord>, r: CallRecord)
    requires Run(maxRetry, START, trace).history == history + [r]
    ensures r.returned && |history| < U32 && AllReturnedTrue(history) ==>
      Got(Run(maxRetry, START, trace), |history|, r.payload)
  {
    hide Run, Got;
    if r.returned && |history| < U32 && AllReturnedTrue(history) {
      CallsBeforeFirstFailureAreReceived(maxRetry, trace, |history|);
    }
  }

  // The events up to the wait of an attempt whose frame the socket took.
  function UpToWait(trace: seq<Event>, turn: Turn): seq<Event> {
    trace + [Transmit(true)] + turn.early + [Clear] + turn.late
  }

  lemma NewSignal(maxRetry: nat, s: State, e: Event)
    ensures Next(maxRetry, s, e).event ==> s.event || e == NotifySet
  {
  }

  class StopAndWaitARQ {
    const maxRetry: nat

    // `_seq`, `_ack_event` and `_last_ack`.
    var seqNo: nat
    var ackEvent: bool
    var lastAck: Note

    // The state the threads and the network share with this object, and the events that led to it from the start.
    var world: State
    ghost var trace: seq<Event>

    ghost predicate Valid()
      reads this
    {
      && world == Run(maxRetry, START, trace)
      && seqNo == world.seqNo && ackEvent == world.event && lastAck == world.lastAck
    }

    constructor (maxRetry: nat)
      ensures Valid() && this.maxRetry == maxRetry && trace == [] && world == START
    {
      this.maxRetry := maxRetry;
      seqNo, ackEvent, lastAck := 0, false, NoNote;
      world, trace := START, [];
    }

    // Other threads run; `notify_ack` among them writes `lastAck` and sets the event, in two separate steps.
    method Interfere(es: seq<Event>)
      requires Valid() && Foreign(es)
      modifies this
      ensures Valid() && world.pc == old(world.pc) && world.history == old(world.history)
      ensures seqNo == old(seqNo) && world.payload == old(world.payload) && world.msgType == old(world.msgType)
      ensures world.transmissions == old(world.transmissions)
      ensures trace == old(trace) + es
      ensures ackEvent ==> old(ackEvent) || NotifySet in es
    {
      hide Run, Next;
      var i := 0;
      while i < |es|
        invariant i <= |es| && Valid()
        invariant trace == old(trace) + es[..i]
        invariant world.pc == old(world.pc) && world.history == old(world.history)
        invariant seqNo == old(seqNo) && world.payload == old(world.payload) && world.msgType == old(world.msgType)
        invariant world.transmissions == old(world.transmissions)
        invariant ackEvent ==> old(ackEvent) || NotifySet in es[..i]
      {
        ForeignLeavesSender(maxRetry, world, es[i]);
        NewSignal(maxRetry, world, es[i]);
        RunSnoc(maxRetry, START, trace, es[i]);
        world := Next(maxRetry, world, es[i]);
        trace := trace + [es[i]];
        ackEvent, lastAck := world.event, world.lastAck;
        i := i + 1;
      }
    }

    // A step of the sender's own that the fields then follow.
    method Advance(e: Event)
      requires Valid()
      modifies this`world, this`trace
      ensures world == Next(maxRetry, old(world), e) == Run(maxRetry, START, trace)
      ensures trace == old(trace) + [e]
    {
      RunSnoc(maxRetry, START, trace, e);
      world := Next(maxRetry, world, e);
      trace := trace + [e];
    }

    // One attempt: transmit, clear the event, wait, and read the ACK if the wait was signalled.
    method Attempt(attempt: nat, turn: Turn) returns (done: bool, ok: bool)
      requires Valid() && ForeignTurn(turn)
      requires 1 <= attempt <= maxRetry && world.pc == Transmitting(attempt) && |world.payload| <= MAX_PAYLOAD
      requires world.transmissions == attempt - 1
      modifies this
      ensures Valid() && old(trace) <= trace && world.payload == old(world.payload)
      ensures done ==> world.pc == Outside && world.history == old(world.history) + [CallRecord(world.payload, ok)]
      ensures !done && attempt < maxRetry ==>
        world.pc == Transmitting(attempt + 1) && world.history == old(world.history) && world.transmissions == attempt
      ensures !done && attempt == maxRetry ==>
        world.pc == Outside && world.history == old(world.history) + [CallRecord(world.payload, false)]
      ensures world.transmissions == if turn.sockOk then attempt else attempt - 1
      ensures seqNo == if done && ok then (old(seqNo) + 1) % U32 else old(seqNo)
      // It fails for good exactly when the socket refuses the frame, and succeeds only on a signal set after the clear.
      ensures done && !ok <==> !turn.sockOk
      ensures done && ok ==> !turn.timesOut && NotifySet in turn.late && lastAck == Note(old(seqNo), true)
      // The wait ends with the signal if the event is set then, and times out otherwise.
      ensures turn.sockOk ==>
        trace == UpToWait(old(trace), turn)
               + if Run(maxRetry, START, UpToWait(old(trace), turn)).event && !turn.timesOut
                 then [Wake] + turn.beforeRead + [Read] else [Timeout]
    {
      hide Run;
      Advance(Transmit(turn.sockOk));
      if !turn.sockOk {
        return true, false;
      }
      Interfere(turn.early);
      Advance(Clear);
      ackEvent := false;
      Interfere(turn.late);
      done, ok := Await(attempt, turn);
    }

    method Await(attempt: nat, turn: Turn) returns (done: bool, ok: bool)
      requires Valid() && Foreign(turn.beforeRead) && 1 <= attempt <= maxRetry && world.pc == Waiting(attempt)
      modifies this
      ensures Valid() && old(trace) <= trace
      ensures trace == old(trace)
                     + if old(ackEvent) && !turn.timesOut then [Wake] + turn.beforeRead + [Read] else [Timeout]
      ensures world.payload == old(world.payload) && world.transmissions == old(world.transmissions)
      ensures done ==> ok && world.pc == Outside && world.history == old(world.history) + [CallRecord(world.payload, true)]
      ensures !done && attempt < maxRetry ==>
        world.pc == Transmitting(attempt + 1) && world.history == old(world.history)
      ensures !done && attempt == maxRetry ==>
        world.pc == Outside && world.history == old(world.history) + [CallRecord(world.payload, false)]
      ensures done ==> old(ackEvent) && !turn.timesOut && lastAck == Note(old(seqNo), true)
      ensures !done ==> !old(ackEvent) || turn.timesOut || lastAck != Note(old(seqNo), true)
      ensures seqNo == if done then (old(seqNo) + 1) % U32 else old(seqNo)
    {
      hide Run;
      if ackEvent && !turn.timesOut {
        Advance(Wake);
        Interfere(turn.beforeRead);
        Advance(Read);
        if lastAck == Note(seqNo, true) {
          seqNo := (seqNo + 1) % U32;
          return true, true;
        }
      } else {
        Advance(Timeout);
      }
      return false, false;
    }

    // send_reliable: `turns[k]` is what happens around attempt k + 1.
    method SendReliable(msgType: int, payload: bytes, turns: seq<Turn>) returns (r: Result)
      requires Valid() && world.pc.Outside?
      requires |turns| == maxRetry && forall i :: 0 <= i < |turns| ==> ForeignTurn(turns[i])
      modifies this
      ensures Valid() && world.pc.Outside? && old(trace) <= trace
      ensures r.Raised? <==> |payload| > MAX_PAYLOAD && maxRetry > 0
      ensures r.Raised? ==> world.history == old(world.history)
      ensures r.Returned? ==> world.history == old(world.history) + [CallRecord(payload, r.ok)]
      ensures seqNo == if r == Returned(true) then (old(seqNo) + 1) % U32 else old(seqNo)
      ensures world.transmissions <= maxRetry
      // True comes of a signal set after the clear of some attempt, False of a socket failure or after all attempts.
      ensures r == Returned(true) ==>
        exists k :: 0 <= k < |turns| && !turns[k].timesOut && NotifySet in turns[k].late && AllSent(turns, k + 1)
      ensures r == Returned(false) ==>
        || (AllSent(turns, maxRetry) && world.transmissions == maxRetry)
        || exists k :: 0 <= k < |turns| && !turns[k].sockOk
      ensures r == Returned(true) && |old(world.history)| < U32 && AllReturnedTrue(old(world.history)) ==>
        Got(world, |old(world.history)|, payload)
    {
      hide Run, Foreign;
      Advance(Call(msgType, payload));
      if maxRetry == 0 {
        return Returned(false);
      }
      if |payload| > MAX_PAYLOAD {
        return Raised;
      }
      hide Next, Got, AllReturnedTrue;
      var attempt := 1;
      while attempt <= maxRetry
        invariant Valid() && 1 <= attempt <= maxRetry + 1 && old(trace) <= trace
        invariant seqNo == old(seqNo)
        invariant world.payload == payload && world.transmissions == attempt - 1
        invariant AllSent(turns, attempt - 1)
        invariant if attempt <= maxRetry then world.pc == Transmitting(attempt) && world.history == old(world.history)
                  else world.pc == Outside && world.history == old(world.history) + [CallRecord(payload, false)]
      {
        var done, ok := Attempt(attempt, turns[attempt - 1]);
        if done {
          TrueIsKept(maxRetry, trace, old(world.history), CallRecord(payload, ok));
          return Returned(ok);
        }
        attempt := attempt + 1;
      }
      r := Returned(false);
    }
  }
}
