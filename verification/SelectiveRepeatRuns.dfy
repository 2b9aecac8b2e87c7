/**
 * Whole runs of Selective Repeat between one sender and one receiver over a network that loses, duplicates and
 * reorders: a frame or an ACK that was ever sent may arrive at any later moment, any number of times, or never.
 */
module SelectiveRepeatRuns {
  import opened Bytes
  import opened Frame
  import opened SelectiveRepeat

  datatype Config = Config(window: nat, timeout: real, maxRetry: nat)

  datatype State = State(
    tx: Sender,
    rx: Receiver,
    sent: seq<bytes>,          // payloads `send` accepted, in order
    data: set<Sent>,           // frames ever put on the wire
    acks: set<nat>,            // numbers the receiver ever acknowledged
    abandoned: set<nat>,       // numbers given up and not acknowledged since
    attempts: map<nat, seq<real>>)   // when each number was transmitted, by the sender's clock

  datatype Event =
    | Send(msgType: int, payload: bytes, now: real, sockOk: bool)
    | Timer(now: real, failed: set<nat>)
    | DataArrives(frame: Sent)
    | AckArrives(seqNo: nat)

  const START: State := State(Sender(0, 0, map[], map[]), Receiver(0, map[], []), [], {}, {}, {}, map[])

  // The clock readings at which a number was transmitted, by `send` first and then by the timer.
  function Readings(attempts: map<nat, seq<real>>, n: nat): seq<real> {
    if n in attempts then attempts[n] else []
  }

  function Tries(attempts: map<nat, seq<real>>, n: nat): nat {
    |Readings(attempts, n)|
  }

  function AfterSendEvent(c: Config, s: State, e: Event): State
    requires e.Send?
  {
    var tx := AfterSend(s.tx, c.window, e.msgType, e.payload, e.now, e.sockOk);
    var outcome := OutcomeOf(s.tx, c.window, e.payload, e.sockOk);
    if outcome.Assigned? then
      var n := outcome.seqNo;
      s.(tx := tx, sent := s.sent + [e.payload], data := s.data + {DataFrame(e.msgType, n, e.payload)},
         attempts := s.attempts[n := Readings(s.attempts, n) + [e.now]])
    else
      s.(tx := tx)
  }

  function AfterTimerEvent(c: Config, s: State, e: Event): State
    requires e.Timer?
  {
    var again := Resent(s.tx, e.now, c.timeout, c.maxRetry);
    s.(tx := AfterTimer(s.tx, e.now, c.timeout, c.maxRetry),
       data := s.data + (set n | n in again && n !in e.failed :: s.tx.buf[n].frame),
       abandoned := s.abandoned + GivenUp(s.tx, e.now, c.timeout, c.maxRetry),
       attempts := s.attempts + map n | n in again :: Readings(s.attempts, n) + [e.now])
  }

  function Next(c: Config, s: State, e: Event): State {
    match e
    case Send(_, _, _, _) => AfterSendEvent(c, s, e)
    case Timer(_, _) => AfterTimerEvent(c, s, e)
    case DataArrives(f) =>
      s.(rx := AfterReceive(s.rx, c.window, f.seqNo, f.payload), acks := s.acks + {f.seqNo})
    case AckArrives(n) =>
      s.(tx := AfterAck(s.tx, n), abandoned := s.abandoned - {n})
  }

  // Only what was sent can arrive: data frames of the sender, and ACKs for frames that reached the receiver.
  predicate Enabled(s: State, e: Event) {
    && (e.DataArrives? ==> e.frame in s.data)
    && (e.AckArrives? ==> e.seqNo in s.acks)
  }

  function Run(c: Config, s: State, es: seq<Event>): State {
    if es == [] then s else Next(c, Run(c, s, es[..|es| - 1]), es[|es| - 1])
  }

  predicate Possible(c: Config, s: State, es: seq<Event>) {
    es == [] || (Possible(c, s, es[..|es| - 1]) && Enabled(Run(c, s, es[..|es| - 1]), es[|es| - 1]))
  }

  // ---- The invariant of every run with fewer than 2^32 accepted sends ----

  predicate ExactlyOne(a: bool, b: bool, c: bool) {
    (a && !b && !c) || (!a && b && !c) || (!a && !b && c)
  }

  ghost predicate SenderInv(c: Config, s: State) {
    && s.tx.next == |s.sent| < U32
    && (c.window == 0 ==> s.sent == [])
    && s.tx.base <= s.tx.next <= s.tx.base + c.window
    && !IsAcked(s.tx.acked, s.tx.base)
    && (forall n :: n in s.tx.acked ==> s.tx.acked[n] && n in s.acks)
    && (forall n :: 0 <= n < s.tx.base ==> n in s.acks)
    // Each outstanding number is held for retransmission, acknowledged or abandoned.
    && (forall n :: s.tx.base <= n < s.tx.next ==> ExactlyOne(n in s.tx.buf, n in s.tx.acked, n in s.abandoned))
    && (forall n :: n in s.tx.buf || n in s.abandoned ==> s.tx.base <= n < s.tx.next)
  }

  // One after the other, with at least `gap` between any two neighbours.
  predicate Apart(readings: seq<real>, gap: real) {
    forall i :: 0 <= i < |readings| - 1 ==> readings[i + 1] - readings[i] >= gap
  }

  // A number is transmitted up to 1 + max_retries times, at least a timeout apart.
  predicate WellTimed(c: Config, readings: seq<real>) {
    |readings| <= 1 + c.maxRetry && Apart(readings, c.timeout)
  }

  // The entry counts the retransmissions, and its timer was started by the latest of them.
  predicate IsCurrent(c: Config, readings: seq<real>, e: Entry) {
    |readings| == 1 + e.retries && e.retries <= c.maxRetry && readings[e.retries] == e.sentAt
  }

  ghost predicate EntriesInv(c: Config, s: State) {
    && (forall n: nat :: WellTimed(c, Readings(s.attempts, n)))
    && (forall n :: n in s.tx.buf ==> IsCurrent(c, Readings(s.attempts, n), s.tx.buf[n]))
    && (forall n :: n in s.tx.buf ==> s.tx.buf[n].frame in s.data && s.tx.buf[n].frame.seqNo == n)
    && (forall n :: n in s.attempts ==> n < |s.sent|)
  }

  ghost predicate WireInv(s: State) {
    forall f :: f in s.data ==> f.seqNo < |s.sent| && f.payload == s.sent[f.seqNo]
  }

  // Less than a window ahead of the base, counted modulo 2^32.
  predicate Ahead(base: nat, window: nat, n: nat) {
    base < n < base + window || n + U32 < base + window
  }

  ghost predicate ReceiverInv(c: Config, s: State) {
    && s.rx.base <= |s.sent|
    && s.rx.delivered == s.sent[..s.rx.base]
    && s.rx.base !in s.rx.buf
    && (forall n :: n in s.rx.buf ==> n < |s.sent| && s.rx.buf[n] == s.sent[n])
    && (forall n :: n in s.rx.buf ==> Ahead(s.rx.base, c.window, n))
    // A frame was acknowledged exactly when it has been delivered or is in the reorder buffer.
    && (forall n: nat :: n in s.acks <==> n < s.rx.base || n in s.rx.buf)
  }

  ghost predicate Inv(c: Config, s: State) {
    SenderInv(c, s) && EntriesInv(c, s) && WireInv(s) && ReceiverInv(c, s)
  }

  lemma BaseOrder(c: Config, s: State)
    requires Inv(c, s)
    ensures s.tx.base <= s.rx.base <= s.tx.next <= s.tx.base + c.window
  {
    assert s.rx.base < s.tx.base ==> s.rx.base in s.acks;
  }

  // ---- The two loops, before the numbers wrap ----

  lemma {:induction false} SlideBeforeWrap(base: nat, acked: map<nat, bool>, next: nat)
    requires base <= next < U32
    requires forall n :: n in acked ==> acked[n] && n < next
    ensures var (b, a) := Slide(base, acked);
      && base <= b <= next && b !in a
      && (forall n :: base <= n < b ==> n in acked)
      && (forall n :: n in a <==> n in acked && !(base <= n < b))
      && (forall n :: n in a ==> a[n])
    decreases next - base
  {
    if IsAcked(acked, base) {
      var rest := acked - {base};
      SlideBeforeWrap(base + 1, rest, next);
      assert forall n :: n in rest <==> n in acked && n != base;
      forall n | base <= n < Slide(base, acked).0 ensures n in acked {
        assert n == base || n in rest;
      }
    }
  }

  lemma {:induction false} DrainBeforeWrap(r: Receiver, sent: seq<bytes>)
    requires r.base <= |sent| < U32 && r.delivered == sent[..r.base]
    requires forall n :: n in r.buf ==> n < |sent| && r.buf[n] == sent[n]
    ensures var d := Drain(r);
      && r.base <= d.base <= |sent| && d.delivered == sent[..d.base] && d.base !in d.buf
      && (forall n :: n in d.buf ==> n in r.buf && d.buf[n] == r.buf[n])
      && (forall n :: n in r.buf ==> n < d.base || n in d.buf)
      && (forall n :: r.base <= n < d.base ==> n in r.buf && n !in d.buf)
    decreases |sent| - r.base
  {
    if r.base in r.buf {
      assert sent[..r.base] + [sent[r.base]] == sent[..r.base + 1];
      var next := Receiver(Succ(r.base), r.buf - {r.base}, r.delivered + [r.buf[r.base]]);
      DrainBeforeWrap(next, sent);
      forall n | r.base <= n < Drain(r).base ensures n in r.buf && n !in Drain(r).buf {
        assert n == r.base || n in next.buf;
      }
    }
  }

  // The wrap-around test accepts exactly the `window` numbers from the base on, counted modulo 2^32.
  lemma InWindowMeaning(n: nat, base: nat, window: nat)
    requires n < U32 && base < U32 && 1 <= window <= U32
    ensures InWindow(n, base, WindowEnd(base, window)) <==> (n - base) % U32 < window
  {
    if base + window - 1 < U32 {
      assert WindowEnd(base, window) == base + window - 1;
    } else {
      assert WindowEnd(base, window) == base + window - 1 - U32;
    }
    assert (n - base) % U32 == if n >= base then n - base else n - base + U32;
  }

  // ---- Every step keeps the invariant ----

  lemma AckedBelowNext(c: Config, s: State)
    requires Inv(c, s)
    ensures forall n :: n in s.tx.acked ==> n < s.tx.next
  {
    assert forall n :: n in s.tx.acked ==> n in s.acks;
  }

  lemma SendKeepsSenderInv(c: Config, s: State, e: Event)
    requires Inv(c, s) && e.Send? && |Next(c, s, e).sent| < U32
    ensures SenderInv(c, Next(c, s, e))
  {
    hide EntriesInv, WireInv, ReceiverInv;
    assert Next(c, s, e) != s ==> s.tx.next !in s.tx.acked by {
      AckedBelowNext(c, s);
    }
  }

  lemma NewTry(attempts: map<nat, seq<real>>, first: nat, now: real, n: nat)
    requires first !in attempts
    ensures Readings(attempts, first) == []
    ensures Readings(attempts[first := [now]], n) == if n == first then [now] else Readings(attempts, n)
  {
  }

  lemma FirstTry(c: Config, now: real, frame: Sent)
    ensures WellTimed(c, [now]) && IsCurrent(c, [now], Entry(frame, now, 0))
  {
  }

  lemma SendKeepsEntriesInv(c: Config, s: State, e: Event)
    requires EntriesInv(c, s) && s.tx.next == |s.sent| < U32 && e.Send?
    ensures EntriesInv(c, Next(c, s, e))
  {
    hide Readings, HasSpace, WellTimed, IsCurrent;
    var t := Next(c, s, e);
    var first := s.tx.next;
    if t.sent != s.sent {
      NewTry(s.attempts, first, e.now, first);
      assert Readings(s.attempts, first) + [e.now] == [e.now];
      assert t.attempts == s.attempts[first := [e.now]];
      FirstTry(c, e.now, t.tx.buf[first].frame);
      forall n: nat ensures Readings(t.attempts, n) == if n == first then [e.now] else Readings(s.attempts, n) {
        NewTry(s.attempts, first, e.now, n);
      }
    }
  }

  lemma SendKeepsWireInv(c: Config, s: State, e: Event)
    requires WireInv(s) && s.tx.next == |s.sent| < U32 && e.Send?
    ensures WireInv(Next(c, s, e))
  {
    hide HasSpace, Readings;
  }

  lemma SentGrows(c: Config, s: State, e: Event)
    ensures s.sent <= Next(c, s, e).sent
  {
  }

  lemma SendKeepsReceiverInv(c: Config, s: State, e: Event)
    requires ReceiverInv(c, s) && e.Send?
    ensures ReceiverInv(c, Next(c, s, e))
  {
    hide OutcomeOf, AfterSend, Readings, DataFrame;
    var t := Next(c, s, e);
    assert t.rx == s.rx && t.acks == s.acks;
    SentGrows(c, s, e);
    assert t.sent[..s.rx.base] == s.sent[..s.rx.base];
  }

  lemma TimerKeepsSenderInv(c: Config, s: State, e: Event)
    requires Inv(c, s) && e.Timer?
    ensures SenderInv(c, Next(c, s, e))
  {
    hide Expired, EntriesInv, WireInv, ReceiverInv, Ticked, Readings;
    var t := Next(c, s, e);
    forall n ensures n in t.tx.buf || n in t.abandoned <==> n in s.tx.buf || n in s.abandoned {
    }
    forall n | n in s.tx.buf ensures n in t.tx.buf <==> n !in t.abandoned {
    }
  }

  lemma TimerCountsTries(c: Config, s: State, e: Event, n: nat)
    requires e.Timer?
    ensures var more := if n in Resent(s.tx, e.now, c.timeout, c.maxRetry) then [e.now] else [];
      Readings(Next(c, s, e).attempts, n) == Readings(s.attempts, n) + more
    ensures n in Next(c, s, e).attempts ==> n in s.attempts || n in s.tx.buf
  {
    hide Expired, AfterTimer, GivenUp;
  }

  lemma NextTry(c: Config, readings: seq<real>, e: Entry, now: real)
    requires WellTimed(c, readings) && IsCurrent(c, readings, e) && Resends(e, now, c.timeout, c.maxRetry)
    ensures WellTimed(c, readings + [now]) && IsCurrent(c, readings + [now], Ticked(e, now, c.timeout))
  {
  }

  lemma HeldWasSent(c: Config, s: State, n: nat)
    requires EntriesInv(c, s) && n in s.tx.buf
    ensures n < |s.sent|
  {
  }

  lemma TimerKeepsReadings(c: Config, s: State, e: Event, n: nat)
    requires EntriesInv(c, s) && e.Timer?
    ensures var t := Next(c, s, e);
      && WellTimed(c, Readings(t.attempts, n))
      && (n in t.attempts ==> n < |s.sent|)
      && (n in t.tx.buf ==> IsCurrent(c, Readings(t.attempts, n), t.tx.buf[n]))
  {
    if n in s.tx.buf {
      HeldWasSent(c, s, n);
    }
    hide Expired, Readings, WellTimed, IsCurrent;
    TimerCountsTries(c, s, e, n);
    if n in Resent(s.tx, e.now, c.timeout, c.maxRetry) {
      NextTry(c, Readings(s.attempts, n), s.tx.buf[n], e.now);
    }
  }

  lemma TimerKeepsEntriesInv(c: Config, s: State, e: Event)
    requires EntriesInv(c, s) && e.Timer?
    ensures EntriesInv(c, Next(c, s, e)) && Next(c, s, e).data == s.data
  {
    hide Expired, Readings, WellTimed, IsCurrent;
    var t := Next(c, s, e);
    assert t.data == s.data;
    forall n: nat
      ensures WellTimed(c, Readings(t.attempts, n))
      ensures n in t.attempts ==> n < |s.sent|
      ensures n in t.tx.buf ==> IsCurrent(c, Readings(t.attempts, n), t.tx.buf[n])
    {
      TimerKeepsReadings(c, s, e, n);
    }
  }

  lemma ModularAhead(n: nat, base: nat, window: nat)
    requires n < U32 && base < U32 && (n - base) % U32 < window <= U32
    ensures n == base || Ahead(base, window, n)
  {
    assert (n - base) % U32 == if n >= base then n - base else n - base + U32;
  }

  lemma DataStaysAhead(c: Config, s: State, f: Sent)
    requires 1 <= c.window <= U32 && ReceiverInv(c, s) && |s.sent| < U32
    requires f.seqNo < |s.sent| && f.payload == s.sent[f.seqNo]
    ensures var r := AfterReceive(s.rx, c.window, f.seqNo, f.payload);
      forall n :: n in r.buf ==> Ahead(r.base, c.window, n)
  {
    hide Drain, InWindow;
    InWindowMeaning(f.seqNo, s.rx.base, c.window);
    var b := Buffered(s.rx, f.seqNo, f.payload);
    DrainBeforeWrap(b, s.sent);
    var r := AfterReceive(s.rx, c.window, f.seqNo, f.payload);
    if r != s.rx {
      assert r == Drain(b);
      forall n | n in r.buf ensures Ahead(r.base, c.window, n) {
        assert n in b.buf && n != r.base;
        assert n == f.seqNo || Ahead(s.rx.base, c.window, n);
        if n == f.seqNo {
          ModularAhead(n, s.rx.base, c.window);
        }
      }
    }
  }

  lemma DataKeepsAcksExact(c: Config, s: State, f: Sent)
    requires 1 <= c.window <= U32 && ReceiverInv(c, s) && |s.sent| < U32 && |s.sent| <= s.rx.base + c.window
    requires f.seqNo < |s.sent| && f.payload == s.sent[f.seqNo]
    ensures var t := Next(c, s, DataArrives(f));
      forall m: nat :: m in t.acks <==> m < t.rx.base || m in t.rx.buf
  {
    hide Drain, InWindow, Ahead;
    var n := f.seqNo;
    InWindowMeaning(n, s.rx.base, c.window);
    var b := Buffered(s.rx, n, f.payload);
    DrainBeforeWrap(b, s.sent);
    var t := Next(c, s, DataArrives(f));
    forall m: nat ensures m in t.acks <==> m < t.rx.base || m in t.rx.buf {
      assert m in s.acks <==> m < s.rx.base || m in s.rx.buf;
      assert m in b.buf ==> m == n || m in s.rx.buf;
    }
  }

  lemma DataKeepsReceiverInv(c: Config, s: State, f: Sent)
    requires 1 <= c.window <= U32 && ReceiverInv(c, s) && |s.sent| < U32 && |s.sent| <= s.rx.base + c.window
    requires f.seqNo < |s.sent| && f.payload == s.sent[f.seqNo]
    ensures ReceiverInv(c, Next(c, s, DataArrives(f)))
  {
    hide Drain, InWindow, Ahead, WindowEnd;
    DataStaysAhead(c, s, f);
    DataKeepsAcksExact(c, s, f);
    DrainBeforeWrap(Buffered(s.rx, f.seqNo, f.payload), s.sent);
  }

  lemma DataKeepsInv(c: Config, s: State, e: Event)
    requires c.window <= U32
    requires Inv(c, s) && e.DataArrives? && Enabled(s, e)
    ensures Inv(c, Next(c, s, e))
  {
    BaseOrder(c, s);
    DataKeepsReceiverInv(c, s, e.frame);
    hide ReceiverInv, AfterReceive, Readings, WellTimed, IsCurrent;
  }

  lemma AckKeepsSenderInv(c: Config, s: State, n: nat)
    requires SenderInv(c, s) && n in s.acks && n < s.tx.next
    requires forall m :: m in s.tx.acked ==> m < s.tx.next
    ensures SenderInv(c, Next(c, s, AckArrives(n)))
  {
    hide Slide;
    var t := Next(c, s, AckArrives(n));
    var acked := s.tx.acked[n := true];
    SlideBeforeWrap(s.tx.base, acked, s.tx.next);
    forall m: nat | m < t.tx.base ensures m in s.acks {
      assert s.tx.base <= m ==> m in acked;
    }
    forall m: nat | m in t.tx.buf || m in t.abandoned ensures t.tx.base <= m < t.tx.next {
      assert s.tx.base <= m < s.tx.next && m !in acked;
    }
    forall m: nat | t.tx.base <= m < t.tx.next
      ensures ExactlyOne(m in t.tx.buf, m in t.tx.acked, m in t.abandoned)
    {
      assert ExactlyOne(m in s.tx.buf, m in s.tx.acked, m in s.abandoned);
    }
  }

  lemma AcksBelowNext(c: Config, s: State, n: nat)
    requires Inv(c, s) && n in s.acks
    ensures n < s.tx.next
  {
  }

  lemma AckKeepsInv(c: Config, s: State, e: Event)
    requires Inv(c, s) && e.AckArrives? && Enabled(s, e)
    ensures Inv(c, Next(c, s, e))
  {
    AcksBelowNext(c, s, e.seqNo);
    AckedBelowNext(c, s);
    AckKeepsSenderInv(c, s, e.seqNo);
    hide Slide, Readings, WellTimed, IsCurrent, SenderInv;
  }

  lemma StepKeepsInv(c: Config, s: State, e: Event)
    requires c.window <= U32
    requires Inv(c, s) && Enabled(s, e) && |Next(c, s, e).sent| < U32
    ensures Inv(c, Next(c, s, e))
  {
    match e
    case Send(_, _, _, _) =>
      SendKeepsSenderInv(c, s, e);
      SendKeepsEntriesInv(c, s, e);
      SendKeepsWireInv(c, s, e);
      SendKeepsReceiverInv(c, s, e);
    case Timer(_, _) =>
      TimerKeepsSenderInv(c, s, e);
      TimerKeepsEntriesInv(c, s, e);
    case DataArrives(_) => DataKeepsInv(c, s, e);
    case AckArrives(_) => AckKeepsInv(c, s, e);
  }

  lemma {:induction false} RunKeepsInv(c: Config, s: State, es: seq<Event>)
    requires c.window <= U32
    requires Inv(c, s) && Possible(c, s, es) && |Run(c, s, es).sent| < U32
    ensures Inv(c, Run(c, s, es))
  {
    hide Inv, Next, Enabled;
    if es != [] {
      var before := es[..|es| - 1];
      SentGrows(c, Run(c, s, before), es[|es| - 1]);
      RunKeepsInv(c, s, before);
      StepKeepsInv(c, Run(c, s, before), es[|es| - 1]);
    }
  }

  lemma StartInv(c: Config)
    ensures Inv(c, START)
  {
  }

  // A state some run from the start reaches.
  ghost predicate Reachable(c: Config, s: State) {
    exists es :: Possible(c, START, es) && Run(c, START, es) == s
  }

  lemma ReachableInv(c: Config, s: State)
    requires c.window <= U32 && Reachable(c, s) && |s.sent| < U32
    ensures Inv(c, s)
  {
    hide Inv;
    var es :| Possible(c, START, es) && Run(c, START, es) == s;
    StartInv(c);
    RunKeepsInv(c, START, es);
  }

  lemma ReachableNext(c: Config, s: State, e: Event)
    requires Reachable(c, s) && Enabled(s, e)
    ensures Reachable(c, Next(c, s, e))
  {
    hide Next, Enabled;
    var es :| Possible(c, START, es) && Run(c, START, es) == s;
    assert (es + [e])[..|es|] == es;
    assert Possible(c, START, es + [e]) && Run(c, START, es + [e]) == Next(c, s, e);
  }

  // ---- Main results ----

  // End-to-end safety: what the receiver handed over is always a prefix of what `send` accepted, with the two windows
  // in step. A number was acknowledged, that is, its frame reached the receiver, exactly when its payload is delivered
  // or waits in the reorder buffer.
  lemma DeliveredIsPrefixOfSent(c: Config, s: State)
    requires c.window <= U32 && Reachable(c, s) && |s.sent| < U32
    ensures s.rx.delivered <= s.sent
    ensures s.tx.base <= |s.rx.delivered| == s.rx.base <= s.tx.next == |s.sent| <= s.tx.base + c.window
    ensures forall n: nat :: n in s.acks <==> n < |s.rx.delivered| || n in s.rx.buf
    ensures forall n :: n in s.rx.buf ==> n < |s.sent| && s.rx.buf[n] == s.sent[n]
  {
    ReachableInv(c, s);
    BaseOrder(c, s);
  }

  lemma {:induction false} RangeSize(lo: nat, hi: nat, s: set<nat>)
    requires lo <= hi && forall n :: n in s ==> lo <= n < hi
    ensures |s| <= hi - lo
    decreases hi - lo
  {
    if lo < hi {
      RangeSize(lo + 1, hi, s - {lo});
      assert s <= (s - {lo}) + {lo};
    } else {
      assert s == {};
    }
  }

  // At most `window` - 1 numbers of 32 bits are that far ahead.
  lemma AheadIsFew(base: nat, window: nat, ns: set<nat>)
    requires base < U32 && 1 <= window <= U32 && forall n :: n in ns ==> n < U32 && Ahead(base, window, n)
    ensures |ns| < window
  {
    var over := set n | n in ns && n + U32 < base + window;
    var near := ns - over;
    assert ns == over + near;
    var hi := if base + window <= U32 then base + window else U32;
    RangeSize(base + 1, hi, near);
    RangeSize(0, if base + window <= U32 then 0 else base + window - U32, over);
  }

  // The reorder buffer holds fewer than `window` frames, all less than a window ahead of the base modulo 2^32. While no
  // window reaches past 2^32, that means ahead of the base, so an acknowledged number is either delivered or buffered.
  lemma ReorderBufferIsAhead(c: Config, s: State)
    requires c.window <= U32 && Reachable(c, s) && |s.sent| < U32
    ensures forall n :: n in s.rx.buf ==> Ahead(s.rx.base, c.window, n)
    ensures c.window > 0 ==> |s.rx.buf| < c.window
    ensures |s.sent| + c.window <= U32 ==>
      (forall n: nat :: n in s.acks ==> (n < |s.rx.delivered|) != (n in s.rx.buf))
  {
    ReachableInv(c, s);
    if c.window > 0 {
      AheadIsFew(s.rx.base, c.window, s.rx.buf.Keys);
    }
  }

  // The sender's window: every outstanding number is in exactly one place, and no more than `window` are outstanding.
  lemma SenderWindowPartition(c: Config, s: State)
    requires c.window <= U32 && Reachable(c, s) && |s.sent| < U32
    ensures s.tx.next - s.tx.base <= c.window && !IsAcked(s.tx.acked, s.tx.base)
    ensures forall n :: s.tx.base <= n < s.tx.next ==>
      ExactlyOne(n in s.tx.buf, IsAcked(s.tx.acked, n), n in s.abandoned)
    ensures forall n :: n in s.tx.buf || n in s.abandoned ==> s.tx.base <= n < s.tx.next
    ensures |s.tx.buf| <= c.window
  {
    ReachableInv(c, s);
    RangeSize(s.tx.base, s.tx.next, s.tx.buf.Keys);
  }

  // A late copy of an ACK for a number below the base changes neither the base nor the frames held.
  lemma StaleAckMovesNothing(c: Config, s: State, n: nat)
    requires c.window <= U32 && Reachable(c, s) && |s.sent| < U32 && n < s.tx.base
    ensures var t := AfterAck(s.tx, n); t.base == s.tx.base && t.next == s.tx.next && t.buf == s.tx.buf
  {
    ReachableInv(c, s);
    assert !IsAcked(s.tx.acked[n := true], s.tx.base);
    assert s.tx.buf - {n} == s.tx.buf;
  }

  // No number is ever transmitted more than 1 + max_retries times.
  lemma TransmissionsAreBounded(c: Config, s: State, n: nat)
    requires c.window <= U32 && Reachable(c, s) && |s.sent| < U32
    ensures Tries(s.attempts, n) <= 1 + c.maxRetry
  {
    ReachableInv(c, s);
  }

  // A payload is accepted exactly when fewer than `window` numbers are outstanding, it fits a frame and the socket
  // takes that frame. Then it is the next one sent, and the frame that `build_frame` makes of it is on the wire and
  // held. Otherwise nothing changes.
  lemma SendAcceptsIff(c: Config, s: State, e: Event)
    requires e.Send?
    ensures var t := Next(c, s, e);
      var accepted := s.tx.next - s.tx.base < c.window && |e.payload| <= 65535 && e.sockOk;
      && t.sent == (if accepted then s.sent + [e.payload] else s.sent)
      && (!accepted ==> t == s)
      && (accepted ==> exists f: Sent ::
            && Build(e.msgType, s.tx.next, e.payload, 1) == Built(Encoded(f))
            && t.data == s.data + {f} && t.tx.buf == s.tx.buf[s.tx.next := Entry(f, e.now, 0)]
            && t.tx.base == s.tx.base && t.tx.acked == s.tx.acked && t.rx == s.rx)
  {
    hide Encode, Parse, Readings;
    if |e.payload| <= 65535 {
      var f := DataFrame(e.msgType, s.tx.next, e.payload);
      DataFrameIsBuilt(e.msgType, s.tx.next, e.payload);
      assert Build(e.msgType, s.tx.next, e.payload, 1) == Built(Encoded(f));
    }
  }

  // A timer pass leaves a held frame alone until a timeout has passed since it was last transmitted. Then it transmits
  // the frame again, or gives it up if that was the last of 1 + max_retries times.
  lemma TimerActsExactlyWhenDue(c: Config, s: State, e: Event, n: nat)
    requires c.window <= U32 && Reachable(c, s) && |s.sent| < U32 && e.Timer? && n in s.tx.buf
    ensures var t, past := Next(c, s, e), Readings(s.attempts, n);
      && 1 <= |past| <= 1 + c.maxRetry
      && var due, last := e.now - past[|past| - 1] >= c.timeout, |past| == 1 + c.maxRetry;
      && (n in t.tx.buf <==> !(due && last))
      && (n in t.abandoned <==> due && last)
      && (n in t.tx.buf ==> t.tx.buf[n].frame == s.tx.buf[n].frame && (!due ==> t.tx.buf[n] == s.tx.buf[n]))
      && Readings(t.attempts, n) == past + if due && !last then [e.now] else []
  {
    ReachableInv(c, s);
    hide Readings;
    TimerCountsTries(c, s, e, n);
    var past := Readings(s.attempts, n);
    assert past + [] == past;
    assert ExactlyOne(n in s.tx.buf, n in s.tx.acked, n in s.abandoned);
  }

  lemma {:induction false} ApartByMany(readings: seq<real>, gap: real, i: nat, j: nat)
    requires Apart(readings, gap) && i <= j < |readings|
    ensures readings[j] - readings[i] >= (j - i) as real * gap
  {
    if i < j {
      ApartByMany(readings, gap, i, j - 1);
      assert readings[j] - readings[j - 1] >= gap;
      assert (j - i) as real * gap == (j - 1 - i) as real * gap + gap;
    }
  }

  // Any two transmissions of one number are a timeout apart for each one between them and the later.
  lemma TransmissionsAreApart(c: Config, s: State, n: nat, i: nat, j: nat)
    requires c.window <= U32 && Reachable(c, s) && |s.sent| < U32 && i <= j < |Readings(s.attempts, n)|
    ensures Readings(s.attempts, n)[j] - Readings(s.attempts, n)[i] >= (j - i) as real * c.timeout
  {
    hide Readings, Apart, Reachable;
    ReachableInv(c, s);
    assert WellTimed(c, Readings(s.attempts, n));
    ApartByMany(Readings(s.attempts, n), c.timeout, i, j);
  }

  // A number is given up no earlier than 1 + max_retries timeouts after it was first sent.
  lemma GivesUpNoEarlier(c: Config, s: State, e: Event, n: nat)
    requires c.window <= U32 && Reachable(c, s) && |s.sent| < U32 && e.Timer?
    requires n in s.tx.buf && n in Next(c, s, e).abandoned
    ensures Readings(s.attempts, n) != []
    ensures e.now - Readings(s.attempts, n)[0] >= (1 + c.maxRetry) as real * c.timeout
  {
    hide Readings, Next, Reachable;
    TimerActsExactlyWhenDue(c, s, e, n);
    TransmissionsAreApart(c, s, n, 0, c.maxRetry);
    assert (1 + c.maxRetry) as real * c.timeout == c.maxRetry as real * c.timeout + c.timeout;
  }

  lemma {:induction false} StaysAbandoned(c: Config, s: State, es: seq<Event>, n: nat)
    requires n in s.abandoned && AckArrives(n) !in es
    ensures n in Run(c, s, es).abandoned
  {
    if es != [] {
      StaysAbandoned(c, s, es[..|es| - 1], n);
      assert es[|es| - 1] in es;
    }
  }

  lemma {:induction false} SentGrowsAlong(c: Config, s: State, es: seq<Event>)
    ensures s.sent <= Run(c, s, es).sent
  {
    hide Next;
    if es != [] {
      SentGrowsAlong(c, s, es[..|es| - 1]);
      SentGrows(c, Run(c, s, es[..|es| - 1]), es[|es| - 1]);
    }
  }

  // An abandoned number pins the window until its ACK comes after all.
  lemma {:induction false} GiveUpPinsTheWindow(c: Config, s: State, es: seq<Event>, n: nat)
    requires c.window <= U32 && Reachable(c, s) && n in s.abandoned
    requires Possible(c, s, es) && AckArrives(n) !in es
    requires |Run(c, s, es).sent| < U32
    ensures var t := Run(c, s, es);
      n in t.abandoned && t.tx.base <= n && t.tx.next <= n + c.window
  {
    var t := Run(c, s, es);
    SentGrowsAlong(c, s, es);
    ReachableInv(c, s);
    RunKeepsInv(c, s, es);
    StaysAbandoned(c, s, es, n);
  }

  // Nothing held and nothing abandoned is the same as nothing outstanding, and then everything was delivered.
  lemma Quiescent(c: Config, s: State)
    requires Inv(c, s)
    ensures s.tx.buf == map[] && s.abandoned == {} <==> s.tx.base == s.tx.next
    ensures s.tx.base == s.tx.next ==> s.rx.delivered == s.sent
  {
    BaseOrder(c, s);
    if s.tx.base < s.tx.next {
      assert ExactlyOne(s.tx.base in s.tx.buf, s.tx.base in s.tx.acked, s.tx.base in s.abandoned);
    }
    assert s.tx.base == s.tx.next ==> s.tx.buf.Keys == {};
    assert s.sent[..|s.sent|] == s.sent;
  }

  predicate Outstanding(s: State, n: nat) {
    n in s.tx.buf || n in s.abandoned
  }

  lemma NothingOutstanding(s: State)
    requires forall n :: !Outstanding(s, n)
    ensures s.tx.buf == map[] && s.abandoned == {}
  {
    forall n ensures n !in s.tx.buf && n !in s.abandoned {
      assert !Outstanding(s, n);
    }
  }

  lemma {:induction false} NoSendsNoNews(c: Config, s: State, es: seq<Event>)
    requires forall e :: e in es ==> !e.Send?
    ensures Run(c, s, es).sent == s.sent && Run(c, s, es).tx.next == s.tx.next
  {
    if es != [] {
      var before := es[..|es| - 1];
      assert forall e :: e in before ==> e in es;
      NoSendsNoNews(c, s, before);
      assert es[|es| - 1] in es;
    }
  }

  lemma OutstandingStep(c: Config, s: State, e: Event)
    requires !e.Send?
    ensures forall n :: Outstanding(Next(c, s, e), n) ==> Outstanding(s, n) && e != AckArrives(n)
  {
    hide Slide, Expired;
  }

  // Without new sends, a number stays outstanding only if it was so before and its ACK has not arrived.
  lemma {:induction false} OutstandingShrinks(c: Config, s: State, es: seq<Event>)
    requires forall e :: e in es ==> !e.Send?
    ensures forall n :: Outstanding(Run(c, s, es), n) ==> Outstanding(s, n) && AckArrives(n) !in es
  {
    if es != [] {
      var before, e := es[..|es| - 1], es[|es| - 1];
      assert es == before + [e];
      assert e in es && forall x :: x in before ==> x in es;
      OutstandingShrinks(c, s, before);
      OutstandingStep(c, Run(c, s, before), e);
    }
  }

  // Recovery: once an ACK has arrived for every number held or abandoned, in any order and among any other arrivals,
  // duplicates and timer passes, nothing is outstanding and the receiver has handed over everything that was sent.
  lemma Recovery(c: Config, s: State, es: seq<Event>)
    requires c.window <= U32 && Reachable(c, s) && |s.sent| < U32
    requires Possible(c, s, es) && (forall e :: e in es ==> !e.Send?)
    requires forall n :: n in s.tx.buf || n in s.abandoned ==> AckArrives(n) in es
    ensures var t := Run(c, s, es);
      && t.tx.buf == map[] && t.abandoned == {}
      && t.tx.base == t.tx.next == s.tx.next
      && t.rx.delivered == t.sent == s.sent
  {
    hide Inv, Run, Possible, Reachable;
    ReachableInv(c, s);
    NoSendsNoNews(c, s, es);
    RunKeepsInv(c, s, es);
    OutstandingShrinks(c, s, es);
    var t := Run(c, s, es);
    forall n ensures !Outstanding(t, n) {
      assert Outstanding(t, n) ==> Outstanding(s, n) && AckArrives(n) !in es;
    }
    NothingOutstanding(t);
    Quiescent(c, t);
  }

  lemma {:induction false} RunConcat(c: Config, s: State, a: seq<Event>, b: seq<Event>)
    ensures Run(c, s, a + b) == Run(c, Run(c, s, a), b)
    ensures Possible(c, s, a + b) <==> Possible(c, s, a) && Possible(c, Run(c, s, a), b)
  {
    hide Next, Enabled;
    if b == [] {
      assert a + b == a;
    } else {
      assert (a + b)[..|a + b| - 1] == a + b[..|b| - 1];
      RunConcat(c, s, a, b[..|b| - 1]);
    }
  }

  lemma RunOne(c: Config, s: State, e: Event)
    ensures Run(c, s, [e]) == Next(c, s, e)
    ensures Possible(c, s, [e]) <==> Enabled(s, e)
  {
    hide Next, Enabled;
    assert [e][..0] == [];
  }

  // One held frame reaches the receiver and its ACK comes back.
  function AfterRoundTrip(c: Config, s: State, n: nat): State
    requires n in s.tx.buf
  {
    Next(c, Next(c, s, DataArrives(s.tx.buf[n].frame)), AckArrives(n))
  }

  lemma RoundTrip(c: Config, s: State, n: nat)
    requires c.window <= U32 && Inv(c, s) && n in s.tx.buf
    ensures Enabled(s, DataArrives(s.tx.buf[n].frame))
    ensures Enabled(Next(c, s, DataArrives(s.tx.buf[n].frame)), AckArrives(n))
    ensures var t := AfterRoundTrip(c, s, n);
      && Inv(c, t) && t.sent == s.sent && t.abandoned == s.abandoned - {n}
      && t.tx.buf == s.tx.buf - {n} && |t.tx.buf| < |s.tx.buf|
  {
    hide AfterReceive, Slide;
    var e := DataArrives(s.tx.buf[n].frame);
    assert Enabled(s, e);
    StepKeepsInv(c, s, e);
    StepKeepsInv(c, Next(c, s, e), AckArrives(n));
    Shrinks(s.tx.buf, n);
  }

  lemma NoEvents(c: Config, s: State)
    ensures Possible(c, s, []) && Run(c, s, []) == s
  {
  }

  lemma Prepend(c: Config, s: State, e: Event, rest: seq<Event>)
    requires Enabled(s, e) && Possible(c, Next(c, s, e), rest)
    ensures Possible(c, s, [e] + rest) && Run(c, s, [e] + rest) == Run(c, Next(c, s, e), rest)
  {
    hide Next, Enabled, Possible, Run;
    RunOne(c, s, e);
    RunConcat(c, s, [e], rest);
  }

  lemma PrependRoundTrip(c: Config, s: State, n: nat, rest: seq<Event>)
    requires n in s.tx.buf && Enabled(s, DataArrives(s.tx.buf[n].frame))
    requires Enabled(Next(c, s, DataArrives(s.tx.buf[n].frame)), AckArrives(n))
    requires Possible(c, AfterRoundTrip(c, s, n), rest)
    ensures var es := [DataArrives(s.tx.buf[n].frame)] + ([AckArrives(n)] + rest);
      Possible(c, s, es) && Run(c, s, es) == Run(c, AfterRoundTrip(c, s, n), rest)
  {
    hide Next, Enabled, Possible, Run;
    var e := DataArrives(s.tx.buf[n].frame);
    Prepend(c, Next(c, s, e), AckArrives(n), rest);
    Prepend(c, s, e, [AckArrives(n)] + rest);
  }

  // Whenever nothing is abandoned, recovery is possible: a schedule as `Recovery` asks for exists.
  lemma {:induction false} CanRecover(c: Config, s: State) returns (es: seq<Event>)
    requires c.window <= U32 && Inv(c, s) && s.abandoned == {}
    ensures Possible(c, s, es) && forall e :: e in es ==> !e.Send?
    ensures var t := Run(c, s, es);
      t.tx.buf == map[] && t.abandoned == {} && t.rx.delivered == t.sent == s.sent
    decreases |s.tx.buf|
  {
    hide Inv, Next, Enabled, Possible, Run, AfterRoundTrip;
    if s.tx.buf == map[] {
      es := [];
      NoEvents(c, s);
      Quiescent(c, s);
    } else {
      var n :| n in s.tx.buf;
      RoundTrip(c, s, n);
      var rest := CanRecover(c, AfterRoundTrip(c, s, n));
      PrependRoundTrip(c, s, n, rest);
      es := [DataArrives(s.tx.buf[n].frame)] + ([AckArrives(n)] + rest);
    }
  }

  lemma SettledSend(c: Config, s: State, payload: bytes)
    requires 1 <= c.window <= U32 && Inv(c, s) && |s.sent| + 1 < U32 && |payload| <= 65535
    requires s.tx.buf == map[] && s.abandoned == {}
    ensures Enabled(s, Send(0, payload, 0.0, true))
    ensures var t := Next(c, s, Send(0, payload, 0.0, true));
      Inv(c, t) && t.sent == s.sent + [payload] && t.abandoned == {}
  {
    var e := Send(0, payload, 0.0, true);
    assert Enabled(s, e);
    Quiescent(c, s);
    SendAcceptsIff(c, s, e);
    hide Inv;
    StepKeepsInv(c, s, e);
  }

  // From every state in which nothing is abandoned, any further payloads can be sent and delivered: some continuation
  // hands the receiver exactly what was sent before and then these, while fewer than 2^32 are sent in all.
  lemma {:induction false} CanDeliver(c: Config, s: State, ps: seq<bytes>) returns (es: seq<Event>)
    requires 1 <= c.window <= U32 && Inv(c, s) && s.abandoned == {}
    requires |s.sent| + |ps| < U32 && forall i :: 0 <= i < |ps| ==> |ps[i]| <= 65535
    ensures Possible(c, s, es)
    ensures var t := Run(c, s, es);
      && Inv(c, t) && t.abandoned == {} && t.tx.buf == map[]
      && t.sent == s.sent + ps && t.rx.delivered == s.sent + ps
    decreases |ps|
  {
    hide Inv, Next, Enabled, Possible, Run;
    var first := CanRecover(c, s);
    var quiet := Run(c, s, first);
    RunKeepsInv(c, s, first);
    if ps == [] {
      es := first;
      assert s.sent + ps == s.sent;
    } else {
      var e := Send(0, ps[0], 0.0, true);
      SettledSend(c, quiet, ps[0]);
      var rest := CanDeliver(c, Next(c, quiet, e), ps[1..]);
      Prepend(c, quiet, e, rest);
      RunConcat(c, s, first, [e] + rest);
      es := first + ([e] + rest);
      assert s.sent + [ps[0]] + ps[1..] == s.sent + ps;
    }
  }

  // The frame the receiver waits for is handed over at once.
  lemma ReceiveNext(r: Receiver, window: nat, payload: bytes)
    requires 1 <= window && r.base < U32 && r.buf == map[]
    ensures AfterReceive(r, window, r.base, payload) == Receiver(Succ(r.base), map[], r.delivered + [payload])
  {
    var b := Buffered(r, r.base, payload);
    DrainTurn(b);
    assert b.buf - {r.base} == map[];
    DrainTurn(Receiver(Succ(r.base), map[], r.delivered + [payload]));
  }

  // These payloads were sent, delivered and acknowledged.
  predicate Settled(s: State, ps: seq<bytes>) {
    s.tx == Sender(|ps|, |ps|, map[], map[]) && s.rx == Receiver(|ps|, map[], ps) && s.sent == ps
  }

  lemma SlideOverOne(k: nat)
    requires k + 1 < U32
    ensures Slide(k, map[k := true]) == (k + 1, map[])
  {
    SlideTurn(k, map[k := true]);
    assert map[k := true] - {k} == map[];
    SlideTurn(k + 1, map[]);
  }

  lemma SettledNext(c: Config, s: State, ps: seq<bytes>, p: bytes)
    requires 1 <= c.window && Settled(s, ps) && |ps| + 1 < U32 && |p| <= 65535
    ensures var f := DataFrame(0, |ps|, p);
      var s1 := Next(c, s, Send(0, p, 0.0, true));
      var s2 := Next(c, s1, DataArrives(f));
      && Enabled(s, Send(0, p, 0.0, true)) && Enabled(s1, DataArrives(f)) && Enabled(s2, AckArrives(|ps|))
      && Settled(Next(c, s2, AckArrives(|ps|)), ps + [p])
  {
    hide AfterReceive, Slide, Readings;
    var k := |ps|;
    var s1 := Next(c, s, Send(0, p, 0.0, true));
    assert s1.tx == Sender(k, k + 1, map[k := Entry(DataFrame(0, k, p), 0.0, 0)], map[]);
    ReceiveNext(s.rx, c.window, p);
    SlideOverOne(k);
    assert s1.tx.buf - {k} == map[];
  }

  lemma StartIsReachable(c: Config)
    ensures Reachable(c, START)
  {
    assert Possible(c, START, []) && Run(c, START, []) == START;
  }

  // Every list of fewer than 2^32 payloads that fit a frame can be sent and is then what the receiver hands over.
  lemma {:induction false} EveryListIsDelivered(c: Config, ps: seq<bytes>) returns (s: State)
    requires 1 <= c.window && |ps| < U32 && forall i :: 0 <= i < |ps| ==> |ps[i]| <= 65535
    ensures Reachable(c, s) && s.sent == ps && s.rx.delivered == ps
    ensures Settled(s, ps)
    decreases |ps|
  {
    hide Next, Enabled, Reachable;
    if ps == [] {
      NoEvents(c, START);
      StartIsReachable(c);
      s := START;
    } else {
      var before, p := ps[..|ps| - 1], ps[|ps| - 1];
      var t := EveryListIsDelivered(c, before);
      SettledNext(c, t, before, p);
      ReachableNext(c, t, Send(0, p, 0.0, true));
      var s1 := Next(c, t, Send(0, p, 0.0, true));
      ReachableNext(c, s1, DataArrives(DataFrame(0, |before|, p)));
      var s2 := Next(c, s1, DataArrives(DataFrame(0, |before|, p)));
      ReachableNext(c, s2, AckArrives(|before|));
      s := Next(c, s2, AckArrives(|before|));
      assert before + [p] == ps;
    }
  }
}
