/**
 * Stop-and-Wait ARQ as two threads and a network. `send_reliable` (the sender) and `notify_ack` (the notifier) share
 * `_last_ack` and the event; every statement that touches shared state is one atomic step, and any interleaving of
 * the two threads with arrivals of frames, in any order and any number of times, is a run.
 */
module StopAndWait {
  import opened Bytes
  import opened Frame

  const FLAG_RELIABLE: byte := 0x01

  // What `_last_ack` holds.
  datatype Note = NoNote | Note(seqNo: nat, success: bool)

  // Where the sender is: outside a call, or in its k-th attempt about to transmit, clear the event, wait on it, or
  // read `_last_ack`.
  datatype Pc = Outside | Transmitting(attempt: nat) | Clearing(attempt: nat) | Waiting(attempt: nat) | Reading(attempt: nat)

  datatype CallRecord = CallRecord(payload: bytes, returned: bool)

  datatype Reply = NoReply | Ack | Nack

  datatype State = State(
    seqNo: nat,
    event: bool,
    lastAck: Note,
    pc: Pc,
    notifierWrote: bool,        // the notifier has written `_last_ack` and not yet set the event
    msgType: int,               // arguments of the current call
    payload: bytes,
    transmissions: nat,         // of the current or latest call
    data: set<Sent>,            // frames ever put on the wire
    received: set<Sent>,        // frames that reached the receiver
    notes: set<Note>,           // ACKs and NACKs the receiver ever sent
    history: seq<CallRecord>)   // calls that returned, in order

  datatype Event =
    | Call(msgType: int, payload: bytes)
    | Transmit(sockOk: bool)
    | Clear
    | Wake
    | Timeout
    | Read
    | NotifyWrite(note: Note)
    | NotifySet
    | Arrive(frame: Sent, reply: Reply)

  const START: State := State(0, false, NoNote, Outside, false, 0, [], 0, {}, {}, {}, [])

  function CurrentFrame(s: State): Sent
    requires |s.payload| <= MAX_PAYLOAD
  {
    Valid(VERSION, s.msgType % 0x100, FLAG_RELIABLE, s.seqNo % U32, s.payload)
  }

  function Return(s: State, ok: bool): State {
    s.(pc := Outside, history := s.history + [CallRecord(s.payload, ok)],
       seqNo := if ok then (s.seqNo + 1) % U32 else s.seqNo)
  }

  function NextAttempt(maxRetry: nat, s: State, attempt: nat): State {
    if attempt < maxRetry then s.(pc := Transmitting(attempt + 1)) else Return(s, false)
  }

  predicate Enabled(maxRetry: nat, s: State, e: Event) {
    match e
    case Call(_, _) => s.pc.Outside?
    case Transmit(_) => s.pc.Transmitting? && |s.payload| <= MAX_PAYLOAD
    case Clear => s.pc.Clearing?
    case Wake => s.pc.Waiting? && s.event
    case Timeout => s.pc.Waiting?
    case Read => s.pc.Reading?
    case NotifyWrite(note) => !s.notifierWrote && note in s.notes
    case NotifySet => s.notifierWrote
    case Arrive(frame, _) => frame in s.data
  }

  // An oversized payload makes `build_frame` raise in the first attempt, before anything is sent; with no attempts
  // allowed the call returns False at once.
  function AfterCall(maxRetry: nat, s: State, msgType: int, payload: bytes): State {
    var t := s.(msgType := msgType, payload := payload, transmissions := 0);
    if maxRetry == 0 then Return(t, false)
    else if |payload| > MAX_PAYLOAD then t
    else t.(pc := Transmitting(1))
  }

  function Step(maxRetry: nat, s: State, e: Event): State
    requires Enabled(maxRetry, s, e)
  {
    match e
    case Call(msgType, payload) => AfterCall(maxRetry, s, msgType, payload)
    case Transmit(sockOk) =>
      if sockOk then
        s.(data := s.data + {CurrentFrame(s)}, transmissions := s.transmissions + 1, pc := Clearing(s.pc.attempt))
      else
        Return(s, false)
    case Clear => s.(event := false, pc := Waiting(s.pc.attempt))
    case Wake => s.(pc := Reading(s.pc.attempt))
    case Timeout => NextAttempt(maxRetry, s, s.pc.attempt)
    case Read =>
      if s.lastAck == Note(s.seqNo, true) then Return(s, true) else NextAttempt(maxRetry, s, s.pc.attempt)
    case NotifyWrite(note) => s.(lastAck := note, notifierWrote := true)
    case NotifySet => s.(event := true, notifierWrote := false)
    case Arrive(frame, reply) =>
      s.(received := s.received + {frame},
         notes := match reply
           case NoReply => s.notes
           case Ack => s.notes + {Note(frame.seqNo, true)}
           case Nack => s.notes + {Note(frame.seqNo, false)})
  }

  // An event that cannot happen now is skipped, so every list of events is a run.
  function Next(maxRetry: nat, s: State, e: Event): State {
    if Enabled(maxRetry, s, e) then Step(maxRetry, s, e) else s
  }

  function Run(maxRetry: nat, s: State, es: seq<Event>): State {
    if es == [] then s else Next(maxRetry, Run(maxRetry, s, es[..|es| - 1]), es[|es| - 1])
  }

  // ---- What every run keeps ----

  predicate Got(s: State, seqNo: nat, payload: bytes) {
    exists f :: f in s.received && f.seqNo == seqNo && f.payload == payload
  }

  // Genuine ACKs: each is for a frame that arrived, and the sender's note is one of them.
  ghost predicate GenuineInv(s: State) {
    && s.seqNo < U32
    && s.received <= s.data
    && (forall n :: n in s.notes ==> n.Note? && exists f :: f in s.received && f.seqNo == n.seqNo)
    && (s.lastAck.Note? ==> s.lastAck in s.notes)
    && (s.event || s.notifierWrote || s.pc.Reading? ==> s.lastAck.Note?)
  }

  predicate AttemptsInv(maxRetry: nat, s: State) {
    && s.transmissions <= maxRetry
    && (!s.pc.Outside? ==> |s.payload| <= MAX_PAYLOAD && 1 <= s.pc.attempt <= maxRetry)
    && (s.pc.Transmitting? ==> s.transmissions == s.pc.attempt - 1)
    && (s.pc.Clearing? || s.pc.Waiting? || s.pc.Reading? ==> s.transmissions == s.pc.attempt)
  }

  lemma NextKeepsNotes(maxRetry: nat, s: State, e: Event, n: Note)
    requires GenuineInv(s) && n in Next(maxRetry, s, e).notes
    ensures n.Note? && exists f :: f in Next(maxRetry, s, e).received && f.seqNo == n.seqNo
  {
    var t := Next(maxRetry, s, e);
    assert s.received <= t.received;
    if n in s.notes {
      var f :| f in s.received && f.seqNo == n.seqNo;
      assert f in t.received;
    } else {
      assert e.frame in t.received;
    }
  }

  lemma NextKeepsGenuine(maxRetry: nat, s: State, e: Event)
    requires GenuineInv(s)
    ensures GenuineInv(Next(maxRetry, s, e))
  {
    var t := Next(maxRetry, s, e);
    forall n | n in t.notes ensures n.Note? && exists f :: f in t.received && f.seqNo == n.seqNo {
      NextKeepsNotes(maxRetry, s, e, n);
    }
  }

  lemma NextKeepsAttempts(maxRetry: nat, s: State, e: Event)
    requires AttemptsInv(maxRetry, s)
    ensures AttemptsInv(maxRetry, Next(maxRetry, s, e))
  {
  }

  lemma {:induction false} RunKeepsInvs(maxRetry: nat, s: State, es: seq<Event>)
    requires GenuineInv(s) && AttemptsInv(maxRetry, s)
    ensures GenuineInv(Run(maxRetry, s, es)) && AttemptsInv(maxRetry, Run(maxRetry, s, es))
  {
    hide GenuineInv, AttemptsInv, Next;
    if es != [] {
      var p := Run(maxRetry, s, es[..|es| - 1]);
      RunKeepsInvs(maxRetry, s, es[..|es| - 1]);
      NextKeepsGenuine(maxRetry, p, es[|es| - 1]);
      NextKeepsAttempts(maxRetry, p, es[|es| - 1]);
    }
  }

  // However the threads interleave, one call puts at most `max_retries` frames on the wire.
  lemma TransmissionsAreBounded(maxRetry: nat, es: seq<Event>)
    ensures Run(maxRetry, START, es).transmissions <= maxRetry
  {
    RunKeepsInvs(maxRetry, START, es);
  }

  // The sequence number changes in one situation only: a call returns True, and then it advances by one.
  lemma SeqAdvancesOnlyOnSuccess(maxRetry: nat, s: State, e: Event)
    ensures var t := Next(maxRetry, s, e);
      t.seqNo != s.seqNo ==>
        t.seqNo == (s.seqNo + 1) % U32 && t.history == s.history + [CallRecord(s.payload, true)] && t.pc.Outside?
    ensures var t := Next(maxRetry, s, e);
      t.history == s.history || t.history == s.history + [CallRecord(t.payload, true)]
      || (t.history == s.history + [CallRecord(t.payload, false)] && t.seqNo == s.seqNo)
  {
  }

  // A transmission puts on the wire what `build_frame` makes of the call's type, the current number and its payload.
  lemma TransmitSendsTheCall(maxRetry: nat, s: State)
    requires Enabled(maxRetry, s, Transmit(true))
    ensures var t := Next(maxRetry, s, Transmit(true));
      && t.data == s.data + {CurrentFrame(s)} && t.transmissions == s.transmissions + 1
      && Build(s.msgType, s.seqNo, s.payload, 1) == Built(Encoded(CurrentFrame(s)))
  {
    hide Encode, Parse;
  }

  // A call returns False in two situations only: the socket refused a frame, or every attempt was transmitted.
  lemma FalseOnlyWhenExhausted(maxRetry: nat, es: seq<Event>, e: Event)
    ensures var s := Run(maxRetry, START, es);
      var t := Next(maxRetry, s, e);
      t.history == s.history + [CallRecord(t.payload, false)] ==> e == Transmit(false) || t.transmissions == maxRetry
  {
    hide Run;
    RunKeepsInvs(maxRetry, START, es);
    var s := Run(maxRetry, START, es);
    var t := Next(maxRetry, s, e);
    if t.history == s.history + [CallRecord(t.payload, false)] {
      assert t.history[|s.history|] == CallRecord(t.payload, false);
    }
  }

  // ---- The signal a wait ends on ----

  // The i-th event of a run really happened: it was possible when its turn came.
  predicate Happens(maxRetry: nat, es: seq<Event>, i: nat)
    requires i < |es|
  {
    Enabled(maxRetry, Run(maxRetry, START, es[..i]), es[i])
  }

  // The event was cleared as the c-th and not again since.
  ghost predicate ClearedLast(maxRetry: nat, es: seq<Event>, c: nat)
    requires c < |es|
  {
    && es[c] == Clear && Happens(maxRetry, es, c)
    && forall j :: c < j < |es| && es[j] == Clear ==> !Happens(maxRetry, es, j)
  }

  ghost predicate SetSince(maxRetry: nat, es: seq<Event>, c: nat)
    requires c < |es|
  {
    exists k :: c < k < |es| && es[k] == NotifySet && Happens(maxRetry, es, k)
  }

  // The sender is between its clear and its next transmission or return.
  predicate Awaiting(s: State) {
    s.pc.Waiting? || s.pc.Reading?
  }

  predicate Signalled(s: State) {
    (s.pc.Waiting? && s.event) || s.pc.Reading?
  }

  ghost predicate SignalInv(maxRetry: nat, es: seq<Event>) {
    Awaiting(Run(maxRetry, START, es)) ==>
      exists c :: 0 <= c < |es| && ClearedLast(maxRetry, es, c)
        && (Signalled(Run(maxRetry, START, es)) ==> SetSince(maxRetry, es, c))
  }

  lemma HappensEarlier(maxRetry: nat, es: seq<Event>, e: Event, i: nat)
    requires i < |es|
    ensures Happens(maxRetry, es + [e], i) <==> Happens(maxRetry, es, i)
  {
    assert (es + [e])[..i] == es[..i];
  }

  lemma HappensInPrefix(maxRetry: nat, es: seq<Event>, i: nat, j: nat)
    requires j < i <= |es|
    ensures Happens(maxRetry, es[..i], j) <==> Happens(maxRetry, es, j)
  {
    assert es[..i][..j] == es[..j];
  }

  lemma HappensLast(maxRetry: nat, es: seq<Event>, e: Event)
    ensures Happens(maxRetry, es + [e], |es|) <==> Enabled(maxRetry, Run(maxRetry, START, es), e)
    ensures Run(maxRetry, START, es + [e]) == Next(maxRetry, Run(maxRetry, START, es), e)
  {
    assert (es + [e])[..|es|] == es;
  }

  lemma ClearedLastStays(maxRetry: nat, es: seq<Event>, e: Event, c: nat)
    requires c < |es| && ClearedLast(maxRetry, es, c)
    requires e == Clear ==> !Enabled(maxRetry, Run(maxRetry, START, es), e)
    ensures ClearedLast(maxRetry, es + [e], c)
    ensures SetSince(maxRetry, es, c) ==> SetSince(maxRetry, es + [e], c)
  {
    hide Happens, Enabled;
    HappensEarlier(maxRetry, es, e, c);
    HappensLast(maxRetry, es, e);
    forall j | c < j < |es| + 1 && (es + [e])[j] == Clear ensures !Happens(maxRetry, es + [e], j) {
      if j < |es| {
        HappensEarlier(maxRetry, es, e, j);
      }
    }
    if SetSince(maxRetry, es, c) {
      var k :| c < k < |es| && es[k] == NotifySet && Happens(maxRetry, es, k);
      HappensEarlier(maxRetry, es, e, k);
      assert (es + [e])[k] == NotifySet;
    }
  }

  lemma SignalStep(maxRetry: nat, s: State, e: Event)
    ensures var t := Next(maxRetry, s, e);
      Awaiting(t) ==> (e == Clear && Enabled(maxRetry, s, e) && !Signalled(t)) || Awaiting(s)
    ensures var t := Next(maxRetry, s, e);
      Awaiting(t) && Signalled(t) ==> Signalled(s) || (e == NotifySet && Enabled(maxRetry, s, e))
    ensures e == Clear && Enabled(maxRetry, s, e) ==> !Awaiting(s)
  {
  }

  lemma ClearIsLast(maxRetry: nat, es: seq<Event>)
    requires Enabled(maxRetry, Run(maxRetry, START, es), Clear)
    ensures ClearedLast(maxRetry, es + [Clear], |es|)
  {
    hide Enabled;
    HappensLast(maxRetry, es, Clear);
  }

  lemma SetIsSince(maxRetry: nat, es: seq<Event>, c: nat)
    requires c < |es| && Enabled(maxRetry, Run(maxRetry, START, es), NotifySet)
    ensures SetSince(maxRetry, es + [NotifySet], c)
  {
    hide Enabled, Happens;
    HappensLast(maxRetry, es, NotifySet);
    assert (es + [NotifySet])[|es|] == NotifySet;
  }

  lemma SignalNext(maxRetry: nat, es: seq<Event>, e: Event)
    requires SignalInv(maxRetry, es)
    ensures SignalInv(maxRetry, es + [e])
  {
    hide Happens, Enabled, Next, Awaiting, Signalled, ClearedLast, SetSince;
    var s, t := Run(maxRetry, START, es), Run(maxRetry, START, es + [e]);
    HappensLast(maxRetry, es, e);
    SignalStep(maxRetry, s, e);
    if Awaiting(t) {
      if e == Clear && Enabled(maxRetry, s, e) {
        assert ClearedLast(maxRetry, es + [e], |es|) by { ClearIsLast(maxRetry, es); }
      } else {
        var c :| 0 <= c < |es| && ClearedLast(maxRetry, es, c) && (Signalled(s) ==> SetSince(maxRetry, es, c));
        ClearedLastStays(maxRetry, es, e, c);
        if Signalled(t) && !Signalled(s) {
          assert SetSince(maxRetry, es + [e], c) by { SetIsSince(maxRetry, es, c); }
        }
      }
    }
  }

  lemma {:induction false} SignalFollowsClear(maxRetry: nat, es: seq<Event>)
    ensures SignalInv(maxRetry, es)
  {
    if es != [] {
      hide SignalInv;
      SignalFollowsClear(maxRetry, es[..|es| - 1]);
      SignalNext(maxRetry, es[..|es| - 1], es[|es| - 1]);
      assert es[..|es| - 1] + [es[|es| - 1]] == es;
    }
  }

  // Whenever the sender reads an ACK, the event was set after it was last cleared: in every run, before each read there
  // are a clear, the last so far, and behind it a set.
  lemma ReadFollowsFreshSignal(maxRetry: nat, es: seq<Event>, i: nat)
    requires i < |es| && es[i] == Read && Happens(maxRetry, es, i)
    ensures exists c, k ::
      && 0 <= c < k < i
      && es[c] == Clear && Happens(maxRetry, es, c) && es[k] == NotifySet && Happens(maxRetry, es, k)
      && forall j :: c < j < i && es[j] == Clear ==> !Happens(maxRetry, es, j)
  {
    var before := es[..i];
    SignalFollowsClear(maxRetry, before);
    assert Run(maxRetry, START, before).pc.Reading?;
    hide Happens;
    var c :| 0 <= c < i && ClearedLast(maxRetry, before, c) && SetSince(maxRetry, before, c);
    var k :| c < k < i && before[k] == NotifySet && Happens(maxRetry, before, k);
    forall j | 0 <= j < i ensures Happens(maxRetry, before, j) <==> Happens(maxRetry, es, j) {
      HappensInPrefix(maxRetry, es, i, j);
    }
    assert es[c] == Clear && es[k] == NotifySet;
  }

  // ---- One call ----

  // No frame with other contents was ever sent under the current number.
  predicate Unused(s: State, payload: bytes) {
    forall f :: f in s.data && f.seqNo == s.seqNo ==> f.payload == payload
  }

  // `t` is reached from `s`, where a call with this payload began.
  predicate CallInv(s: State, payload: bytes, t: State) {
    if t.history == s.history then
      && t.seqNo == s.seqNo
      && (t.pc.Outside? || t.payload == payload)
      && (forall f :: f in t.data && f.seqNo == s.seqNo ==> f.payload == payload)
    else
      && t.pc.Outside?
      && |t.history| == |s.history| + 1
      && (t.history[|s.history|].returned ==> Got(t, s.seqNo, payload))
  }

  lemma GotGrows(maxRetry: nat, s: State, e: Event, seqNo: nat, payload: bytes)
    ensures Got(s, seqNo, payload) ==> Got(Next(maxRetry, s, e), seqNo, payload)
  {
    assert s.received <= Next(maxRetry, s, e).received;
  }

  lemma NextKeepsCall(maxRetry: nat, s: State, payload: bytes, t: State, e: Event)
    requires GenuineInv(t) && CallInv(s, payload, t) && !e.Call?
    ensures CallInv(s, payload, Next(maxRetry, t, e))
  {
    var u := Next(maxRetry, t, e);
    GotGrows(maxRetry, t, e, s.seqNo, payload);
    if e.Read? && t.pc.Reading? && t.lastAck == Note(t.seqNo, true) {
      var f :| f in t.received && f.seqNo == t.seqNo;
      assert f in t.data && f in u.received;
    }
  }

  lemma {:induction false} GotGrowsAlong(maxRetry: nat, s: State, es: seq<Event>, seqNo: nat, payload: bytes)
    ensures Got(s, seqNo, payload) ==> Got(Run(maxRetry, s, es), seqNo, payload)
  {
    hide Next, Got;
    if es != [] {
      GotGrowsAlong(maxRetry, s, es[..|es| - 1], seqNo, payload);
      GotGrows(maxRetry, Run(maxRetry, s, es[..|es| - 1]), es[|es| - 1], seqNo, payload);
    }
  }

  lemma {:induction false} RunKeepsCall(maxRetry: nat, s: State, payload: bytes, t: State, es: seq<Event>)
    requires GenuineInv(t) && AttemptsInv(maxRetry, t) && CallInv(s, payload, t)
    requires forall e :: e in es ==> !e.Call?
    ensures CallInv(s, payload, Run(maxRetry, t, es))
  {
    hide Next, CallInv, GenuineInv;
    if es != [] {
      var before, e := es[..|es| - 1], es[|es| - 1];
      assert e in es && forall x :: x in before ==> x in es;
      RunKeepsCall(maxRetry, s, payload, t, before);
      RunKeepsInvs(maxRetry, t, before);
      NextKeepsCall(maxRetry, s, payload, Run(maxRetry, t, before), e);
    }
  }

  // A call of `send_reliable` with this payload, begun in `s`, and then any interleaving of the two threads with the
  // network until at most the end of that call.
  function AfterCallAnd(maxRetry: nat, s: State, msgType: int, payload: bytes, es: seq<Event>): State {
    Run(maxRetry, Next(maxRetry, s, Call(msgType, payload)), es)
  }

  // Whenever the call returns True, the receiver got a frame with this number and this very payload.
  ghost predicate TrueMeansReceived(maxRetry: nat, s: State, payload: bytes) {
    forall msgType: int, es: seq<Event> ::
      (forall e :: e in es ==> !e.Call?)
      && AfterCallAnd(maxRetry, s, msgType, payload, es).history == s.history + [CallRecord(payload, true)]
      ==> Got(AfterCallAnd(maxRetry, s, msgType, payload, es), s.seqNo, payload)
  }

  lemma UnusedIsSound(maxRetry: nat, s: State, msgType: int, payload: bytes, es: seq<Event>)
    requires GenuineInv(s) && AttemptsInv(maxRetry, s) && s.pc.Outside?
    requires Unused(s, payload) || Got(s, s.seqNo, payload)
    requires forall e :: e in es ==> !e.Call?
    requires AfterCallAnd(maxRetry, s, msgType, payload, es).history == s.history + [CallRecord(payload, true)]
    ensures Got(AfterCallAnd(maxRetry, s, msgType, payload, es), s.seqNo, payload)
  {
    var t := Next(maxRetry, s, Call(msgType, payload));
    NextKeepsGenuine(maxRetry, s, Call(msgType, payload));
    NextKeepsAttempts(maxRetry, s, Call(msgType, payload));
    if Got(s, s.seqNo, payload) {
      assert Got(t, s.seqNo, payload);
      GotGrowsAlong(maxRetry, t, es, s.seqNo, payload);
    } else {
      RunKeepsCall(maxRetry, s, payload, t, es);
    }
  }

  // The receiver gets a frame and acknowledges it, and the notifier delivers the ACK after the clear.
  function AckSchedule(frame: Sent): seq<Event> {
    [NotifySet, Transmit(true), Clear, Arrive(frame, Ack), NotifyWrite(Note(frame.seqNo, true)), NotifySet, Wake, Read]
  }

  lemma RunInit(maxRetry: nat, s: State, es: seq<Event>, k: nat)
    requires 1 <= k <= |es|
    ensures Run(maxRetry, s, es[..k]) == Next(maxRetry, Run(maxRetry, s, es[..k - 1]), es[k - 1])
  {
    assert es[..k][..k - 1] == es[..k - 1];
  }

  lemma Run8(maxRetry: nat, s: State, es: seq<Event>)
    requires |es| == 8
    ensures Run(maxRetry, s, es)
         == Next(maxRetry, Next(maxRetry, Next(maxRetry, Next(maxRetry, Next(maxRetry, Next(maxRetry, Next(maxRetry,
            Next(maxRetry, s, es[0]), es[1]), es[2]), es[3]), es[4]), es[5]), es[6]), es[7])
  {
    hide Next;
    RunInit(maxRetry, s, es, 8); RunInit(maxRetry, s, es, 7); RunInit(maxRetry, s, es, 6); RunInit(maxRetry, s, es, 5);
    RunInit(maxRetry, s, es, 4); RunInit(maxRetry, s, es, 3); RunInit(maxRetry, s, es, 2); RunInit(maxRetry, s, es, 1);
    assert es[..8] == es && es[..0] == [];
  }

  // The call then returns True, whether the frame is its own or an older one with the same number.
  lemma AckScheduleReturnsTrue(maxRetry: nat, s: State, msgType: int, payload: bytes, frame: Sent)
    requires 1 <= maxRetry && |payload| <= MAX_PAYLOAD && s.pc.Outside? && frame.seqNo == s.seqNo
    requires frame in s.data || frame == CurrentFrame(Next(maxRetry, s, Call(msgType, payload)))
    ensures var t := AfterCallAnd(maxRetry, s, msgType, payload, AckSchedule(frame));
      && t.history == s.history + [CallRecord(payload, true)]
      && t.received == s.received + {frame}
  {
    var called := Next(maxRetry, s, Call(msgType, payload));
    Run8(maxRetry, called, AckSchedule(frame));
    assert CurrentFrame(Next(maxRetry, called, NotifySet)) == CurrentFrame(called);
    hide Run, CurrentFrame;
  }

  // Every call whose payload fits a frame can succeed: when the frame that `build_frame` makes of it arrives promptly
  // and so does its ACK, the call returns True and the receiver has got that frame.
  lemma PromptCallSucceeds(maxRetry: nat, s: State, msgType: int, payload: bytes) returns (f: Sent)
    requires 1 <= maxRetry && |payload| <= 65535 && s.pc.Outside? && s.seqNo < U32
    ensures Build(msgType, s.seqNo, payload, 1) == Built(Encoded(f))
    ensures var t := AfterCallAnd(maxRetry, s, msgType, payload, AckSchedule(f));
      && t.history == s.history + [CallRecord(payload, true)]
      && t.received == s.received + {f}
  {
    hide Encode, Parse, AfterCallAnd, AckSchedule;
    var called := Next(maxRetry, s, Call(msgType, payload));
    f := CurrentFrame(called);
    TransmitSendsTheCall(maxRetry, called);
    AckScheduleReturnsTrue(maxRetry, s, msgType, payload, f);
  }

  // Exactly when Stop-and-Wait keeps its promise: for a call that can be attempted, True means that the receiver got
  // this payload if and only if no frame with another payload was sent under the number about to be used (no earlier
  // call failed at it, and no lap of 2^32 ago used it), or the receiver has this payload already.
  lemma TrueMeansReceivedIff(maxRetry: nat, s: State, payload: bytes)
    requires 1 <= maxRetry && |payload| <= MAX_PAYLOAD
    requires GenuineInv(s) && AttemptsInv(maxRetry, s) && s.pc.Outside?
    ensures TrueMeansReceived(maxRetry, s, payload) <==> Unused(s, payload) || Got(s, s.seqNo, payload)
  {
    hide AfterCallAnd, GenuineInv, AttemptsInv;
    if Unused(s, payload) || Got(s, s.seqNo, payload) {
      forall msgType: int, es: seq<Event> |
        (forall e :: e in es ==> !e.Call?)
        && AfterCallAnd(maxRetry, s, msgType, payload, es).history == s.history + [CallRecord(payload, true)]
        ensures Got(AfterCallAnd(maxRetry, s, msgType, payload, es), s.seqNo, payload)
      {
        UnusedIsSound(maxRetry, s, msgType, payload, es);
      }
    } else {
      var f :| f in s.data && f.seqNo == s.seqNo && f.payload != payload;
      AckScheduleReturnsTrue(maxRetry, s, 0, payload, f);
      var es := AckSchedule(f);
      assert forall e :: e in es ==> !e.Call?;
      assert !Got(AfterCallAnd(maxRetry, s, 0, payload, es), s.seqNo, payload);
    }
  }

  // ---- Whole histories ----

  predicate TrueUpTo(history: seq<CallRecord>, k: nat) {
    forall j :: 0 <= j < k && j < |history| ==> history[j].returned
  }

  // With no failed call so far, the current number is new to the wire except for the current payload.
  ghost predicate NumbersInv(s: State) {
    TrueUpTo(s.history, |s.history|) && |s.history| < U32 ==>
      && s.seqNo == |s.history|
      && (forall f :: f in s.data ==> f.seqNo <= s.seqNo)
      && (forall f :: f in s.data && f.seqNo == s.seqNo ==> !s.pc.Outside? && f.payload == s.payload)
  }

  ghost predicate DeliveredInv(s: State) {
    forall i :: 0 <= i < |s.history| && i < U32 && TrueUpTo(s.history, i + 1) ==> Got(s, i, s.history[i].payload)
  }

  lemma ShorterHistory(history: seq<CallRecord>, r: CallRecord, k: nat)
    requires TrueUpTo(history + [r], k)
    ensures TrueUpTo(history, k)
    ensures k == |history| + 1 ==> r.returned
  {
    forall j | 0 <= j < k && j < |history| ensures history[j].returned {
      assert (history + [r])[j] == history[j];
    }
    assert k == |history| + 1 ==> (history + [r])[|history|] == r;
  }

  lemma NumbersWithoutReturn(maxRetry: nat, s: State, e: Event)
    requires AttemptsInv(maxRetry, s) && NumbersInv(s) && Next(maxRetry, s, e).history == s.history
    ensures NumbersInv(Next(maxRetry, s, e))
  {
    hide TrueUpTo;
  }

  lemma NumbersAfterTrue(maxRetry: nat, s: State, e: Event)
    requires NumbersInv(s) && TrueUpTo(s.history, |s.history|) && |s.history| + 1 < U32
    requires var t := Next(maxRetry, s, e);
      |t.history| == |s.history| + 1 && t.history[|s.history|].returned
    ensures NumbersInv(Next(maxRetry, s, e))
  {
    hide TrueUpTo;
  }

  lemma TrueUpToAll(history: seq<CallRecord>, k: nat)
    requires TrueUpTo(history, k) && k >= |history|
    ensures TrueUpTo(history, |history|)
  {
  }

  lemma NewRecord(maxRetry: nat, s: State, e: Event)
    ensures var t := Next(maxRetry, s, e);
      t.history != s.history ==>
        && |t.history| == |s.history| + 1
        && t.history == s.history + [t.history[|s.history|]]
        && (t.history[|s.history|].returned ==>
              s.lastAck == Note(s.seqNo, true) && t.history[|s.history|].payload == s.payload)
  {
  }

  lemma NextKeepsNumbers(maxRetry: nat, s: State, e: Event)
    requires GenuineInv(s) && AttemptsInv(maxRetry, s) && NumbersInv(s)
    ensures NumbersInv(Next(maxRetry, s, e))
  {
    var t := Next(maxRetry, s, e);
    if t.history == s.history {
      NumbersWithoutReturn(maxRetry, s, e);
    } else if TrueUpTo(t.history, |t.history|) && |t.history| < U32 {
      NewRecord(maxRetry, s, e);
      ShorterHistory(s.history, t.history[|s.history|], |t.history|);
      TrueUpToAll(s.history, |t.history|);
      NumbersAfterTrue(maxRetry, s, e);
    }
  }

  lemma SuccessIsGot(s: State)
    requires GenuineInv(s) && NumbersInv(s)
    requires TrueUpTo(s.history, |s.history|) && |s.history| < U32
    requires s.lastAck == Note(s.seqNo, true)
    ensures Got(s, |s.history|, s.payload)
  {
    var f :| f in s.received && f.seqNo == s.seqNo;
    assert f in s.data;
  }

  lemma NextKeepsDelivered(maxRetry: nat, s: State, e: Event)
    requires GenuineInv(s) && AttemptsInv(maxRetry, s) && NumbersInv(s) && DeliveredInv(s)
    ensures DeliveredInv(Next(maxRetry, s, e))
  {
    hide GenuineInv, NumbersInv, AttemptsInv, Got, TrueUpTo;
    var t := Next(maxRetry, s, e);
    forall i | 0 <= i < |t.history| && i < U32 && TrueUpTo(t.history, i + 1)
      ensures Got(t, i, t.history[i].payload)
    {
      if t.history == s.history {
        GotGrows(maxRetry, s, e, i, s.history[i].payload);
      } else {
        NewRecord(maxRetry, s, e);
        ShorterHistory(s.history, t.history[|s.history|], i + 1);
        if i < |s.history| {
          GotGrows(maxRetry, s, e, i, s.history[i].payload);
        } else {
          TrueUpToAll(s.history, i + 1);
          SuccessIsGot(s);
          GotGrows(maxRetry, s, e, i, s.payload);
        }
      }
    }
  }

  lemma StartInvs(maxRetry: nat)
    ensures GenuineInv(START) && AttemptsInv(maxRetry, START)
  {
  }

  lemma {:induction false} RunKeepsHistory(maxRetry: nat, es: seq<Event>)
    ensures NumbersInv(Run(maxRetry, START, es)) && DeliveredInv(Run(maxRetry, START, es))
  {
    if es != [] {
      hide Next, NumbersInv, DeliveredInv, GenuineInv, AttemptsInv;
      var p, e := Run(maxRetry, START, es[..|es| - 1]), es[|es| - 1];
      RunKeepsHistory(maxRetry, es[..|es| - 1]);
      StartInvs(maxRetry);
      RunKeepsInvs(maxRetry, START, es[..|es| - 1]);
      NextKeepsNumbers(maxRetry, p, e);
      NextKeepsDelivered(maxRetry, p, e);
    }
  }

  // In any run from the start: as long as no call has failed and fewer than 2^32 calls came before, the call that
  // returned True as the i-th sent its payload under number i, and the receiver got that very payload.
  lemma CallsBeforeFirstFailureAreReceived(maxRetry: nat, es: seq<Event>, i: nat)
    requires var s := Run(maxRetry, START, es);
      i < |s.history| && i < U32 && forall j :: 0 <= j <= i ==> s.history[j].returned
    ensures var s := Run(maxRetry, START, es);
      Got(s, i, s.history[i].payload)
  {
    RunKeepsHistory(maxRetry, es);
    assert TrueUpTo(Run(maxRetry, START, es).history, i + 1);
  }

  lemma RunNone(maxRetry: nat, s: State)
    ensures Run(maxRetry, s, []) == s
  {
  }

  // After a give-up the number is reused, and an ACK for the old payload passes for the new one: in this run with one
  // attempt per call, the call for [2] returns True although the receiver only ever got [1].
  lemma GiveUpThenFalseSuccess()
    ensures var f := Valid(VERSION, 0, FLAG_RELIABLE, 0, [1]);
      var s := Run(1, START, [Call(0, [1]), Transmit(true), Clear, Timeout]);
      var t := AfterCallAnd(1, s, 0, [2], AckSchedule(f));
      && t.history == [CallRecord([1], false), CallRecord([2], true)]
      && t.received == {f}
  {
    var es := [Call(0, [1]), Transmit(true), Clear, Timeout];
    hide Run;
    RunNone(1, START);
    RunInit(1, START, es, 4); RunInit(1, START, es, 3); RunInit(1, START, es, 2); RunInit(1, START, es, 1);
    assert es[..4] == es && es[..0] == [];
    var s := Run(1, START, es);
    AckScheduleReturnsTrue(1, s, 0, [2], Valid(VERSION, 0, FLAG_RELIABLE, 0, [1]));
  }
}
