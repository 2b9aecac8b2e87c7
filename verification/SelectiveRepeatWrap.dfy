/**
 * What happens when the 32-bit numbers wrap: the receiver is right for any number of laps as long as frames arrive in
 * time, and from exactly which number of sends on each promise of the whole protocol fails.
 */
module SelectiveRepeatWrap {
  import opened Bytes
  import opened Frame
  import opened SelectiveRepeat
  import opened SelectiveRepeatRuns

  // ---- The receiver refines one with unbounded numbers ----

  datatype Ideal = Ideal(base: nat, buf: map<nat, bytes>, delivered: seq<bytes>)

  function IdealDrain(u: Ideal): Ideal
    decreases |u.buf|
  {
    if u.base in u.buf then
      assert |u.buf - {u.base}| < |u.buf| by { Shrinks(u.buf, u.base); }
      IdealDrain(Ideal(u.base + 1, u.buf - {u.base}, u.delivered + [u.buf[u.base]]))
    else
      u
  }

  function IdealReceive(u: Ideal, window: nat, n: nat, payload: bytes): Ideal {
    if u.base <= n < u.base + window then
      IdealDrain(if n in u.buf then u else u.(buf := u.buf[n := payload]))
    else
      u
  }

  // A number as it goes over the wire: its lowest 32 bits.
  function Wrapped(n: nat): (k: nat)
    ensures k < U32
  {
    n % U32
  }

  lemma SuccWrapped(n: nat)
    ensures Succ(Wrapped(n)) == Wrapped(n + 1)
  {
  }

  // The one number at or after `base`, and less than 2^32 after it, that has remainder k.
  function Lifted(base: nat, k: nat): (n: nat)
    requires k < U32
    ensures base <= n < base + U32 && Wrapped(n) == k
  {
    base + (k - base) % U32
  }

  // The wrapped receiver `r` holds what the ideal one holds, under the numbers' 32-bit remainders.
  ghost predicate Simulates(r: Receiver, u: Ideal, window: nat) {
    && r.base == Wrapped(u.base)
    && r.delivered == u.delivered
    && (forall n :: n in u.buf ==> u.base <= n < u.base + window && Wrapped(n) in r.buf && r.buf[Wrapped(n)] == u.buf[n])
    && (forall k :: k in r.buf ==> k < U32 && Lifted(u.base, k) in u.buf)
  }

  lemma ModDifference(n: nat, base: nat)
    requires base <= n < base + U32
    ensures (n % U32 - base) % U32 == n - base
    ensures (n % U32 - base % U32) % U32 == n - base
  {
    var q, p := n / U32, base / U32;
    assert n == q * U32 + n % U32 && base == p * U32 + base % U32;
  }

  lemma LiftedUnique(base: nat, n: nat)
    requires base <= n < base + U32
    ensures Lifted(base, Wrapped(n)) == n
  {
    var d := n - base;
    assert (n % U32 - base) % U32 == d by { ModDifference(n, base); }
  }

  lemma DistinctRemainders(m: nat, n: nat)
    requires m < n < m + U32
    ensures Wrapped(m) != Wrapped(n)
  {
    ModDifference(n, m);
  }

  lemma BaseInBuffer(r: Receiver, u: Ideal, window: nat)
    requires window <= U32 && Simulates(r, u, window)
    ensures r.base in r.buf <==> u.base in u.buf
  {
    LiftedUnique(u.base, u.base);
  }

  lemma DrainStepSimulates(r: Receiver, u: Ideal, window: nat)
    requires window <= U32 && Simulates(r, u, window) && u.base in u.buf
    ensures r.base in r.buf
    ensures Simulates(
      Receiver(Succ(r.base), r.buf - {r.base}, r.delivered + [r.buf[r.base]]),
      Ideal(u.base + 1, u.buf - {u.base}, u.delivered + [u.buf[u.base]]), window)
  {
    hide Lifted, Wrapped, Succ, Drain, IdealDrain;
    SuccWrapped(u.base);
    BaseInBuffer(r, u, window);
    var r' := Receiver(Succ(r.base), r.buf - {r.base}, r.delivered + [r.buf[r.base]]);
    var u' := Ideal(u.base + 1, u.buf - {u.base}, u.delivered + [u.buf[u.base]]);
    forall n | n in u'.buf
      ensures u'.base <= n < u'.base + window && Wrapped(n) in r'.buf && r'.buf[Wrapped(n)] == u'.buf[n]
    {
      DistinctRemainders(u.base, n);
    }
    forall k | k in r'.buf ensures k < U32 && Lifted(u'.base, k) in u'.buf {
      var n := Lifted(u.base, k);
      assert n != u.base && n in u.buf;
      LiftedUnique(u'.base, n);
    }
  }

  lemma {:induction false} DrainSimulates(r: Receiver, u: Ideal, window: nat)
    requires window <= U32 && Simulates(r, u, window)
    ensures Simulates(Drain(r), IdealDrain(u), window)
    decreases |u.buf|
  {
    hide Simulates;
    BaseInBuffer(r, u, window);
    if u.base in u.buf {
      Shrinks(u.buf, u.base);
      DrainStepSimulates(r, u, window);
      DrainSimulates(Receiver(Succ(r.base), r.buf - {r.base}, r.delivered + [r.buf[r.base]]),
                     Ideal(u.base + 1, u.buf - {u.base}, u.delivered + [u.buf[u.base]]), window);
    }
  }

  // The true number of an arriving frame is at most 2^32 - window behind the base, and not beyond the window.
  predicate Timely(u: Ideal, window: nat, n: nat) {
    u.base + window <= n + U32 && n < u.base + window
  }

  lemma SameRemainder(n: nat)
    ensures (n + U32) % U32 == n % U32
  {
  }

  lemma WindowTestMeansTrueWindow(u: Ideal, window: nat, n: nat)
    requires 1 <= window <= U32 && Timely(u, window, n)
    ensures InWindow(Wrapped(n), Wrapped(u.base), WindowEnd(Wrapped(u.base), window)) <==> u.base <= n < u.base + window
  {
    InWindowMeaning(n % U32, u.base % U32, window);
    if u.base <= n {
      ModDifference(n, u.base);
    } else {
      ModDifference(n + U32, u.base);
      SameRemainder(n);
    }
  }

  lemma BufferedSimulates(r: Receiver, u: Ideal, window: nat, n: nat, payload: bytes)
    requires window <= U32 && Simulates(r, u, window) && u.base <= n < u.base + window
    ensures Simulates(Buffered(r, Wrapped(n), payload), if n in u.buf then u else u.(buf := u.buf[n := payload]), window)
  {
    hide Lifted, Wrapped;
    LiftedUnique(u.base, n);
    forall m | m in u.buf && m != n ensures Wrapped(m) != Wrapped(n) {
      DistinctRemainders(if m < n then m else n, if m < n then n else m);
    }
  }

  lemma ReceiveSimulates(r: Receiver, u: Ideal, window: nat, n: nat, payload: bytes)
    requires 1 <= window <= U32 && Simulates(r, u, window) && Timely(u, window, n)
    ensures Simulates(AfterReceive(r, window, Wrapped(n), payload), IdealReceive(u, window, n, payload), window)
  {
    WindowTestMeansTrueWindow(u, window, n);
    assert r.base == Wrapped(u.base);
    hide Simulates, InWindow, WindowEnd, Timely, Wrapped;
    if u.base <= n < u.base + window {
      BufferedSimulates(r, u, window, n, payload);
      DrainSimulates(Buffered(r, Wrapped(n), payload), if n in u.buf then u else u.(buf := u.buf[n := payload]), window);
    }
  }

  datatype Arrival = Arrival(number: nat, payload: bytes)

  function IdealRun(u: Ideal, window: nat, arrivals: seq<Arrival>): Ideal
    decreases |arrivals|
  {
    if arrivals == [] then u
    else IdealRun(IdealReceive(u, window, arrivals[0].number, arrivals[0].payload), window, arrivals[1..])
  }

  function WrappedRun(r: Receiver, window: nat, arrivals: seq<Arrival>): Receiver
    decreases |arrivals|
  {
    if arrivals == [] then r
    else WrappedRun(AfterReceive(r, window, Wrapped(arrivals[0].number), arrivals[0].payload), window, arrivals[1..])
  }

  predicate AllTimely(u: Ideal, window: nat, arrivals: seq<Arrival>)
    decreases |arrivals|
  {
    arrivals == []
    || (Timely(u, window, arrivals[0].number)
        && AllTimely(IdealReceive(u, window, arrivals[0].number, arrivals[0].payload), window, arrivals[1..]))
  }

  // The receiver on 32-bit numbers hands over what one on unbounded numbers does, over any number of laps, as long as
  // every frame arrives in time.
  lemma {:induction false} WrappedReceiverRefinesIdeal(r: Receiver, u: Ideal, window: nat, arrivals: seq<Arrival>)
    requires 1 <= window <= U32 && Simulates(r, u, window) && AllTimely(u, window, arrivals)
    ensures Simulates(WrappedRun(r, window, arrivals), IdealRun(u, window, arrivals), window)
    ensures WrappedRun(r, window, arrivals).delivered == IdealRun(u, window, arrivals).delivered
    decreases |arrivals|
  {
    if arrivals != [] {
      hide Simulates, Timely;
      var a := arrivals[0];
      ReceiveSimulates(r, u, window, a.number, a.payload);
      WrappedReceiverRefinesIdeal(AfterReceive(r, window, Wrapped(a.number), a.payload),
                                  IdealReceive(u, window, a.number, a.payload), window, arrivals[1..]);
    }
  }

  lemma FreshReceiversAgree(window: nat)
    ensures Simulates(Receiver(0, map[], []), Ideal(0, map[], []), window)
  {
  }

  // The bound is sharp: a frame one number older, or a whole lap newer, falls outside the true window and is accepted.
  lemma TimelinessIsSharp(base: nat, window: nat)
    requires 1 <= window < U32
    ensures base + window >= U32 + 1 ==>
      var n := base + window - U32 - 1;
      n < base && InWindow(Wrapped(n), Wrapped(base), WindowEnd(Wrapped(base), window))
    ensures var n := base + U32;
      n >= base + window && InWindow(Wrapped(n), Wrapped(base), WindowEnd(Wrapped(base), window))
  {
    SameRemainder(base);
    ModDifference(base, base);
    InWindowMeaning(base % U32, base % U32, window);
    if base + window >= U32 + 1 {
      var n: nat := base + window - U32 - 1;
      ModDifference(n + U32, base);
      SameRemainder(n);
      InWindowMeaning(n % U32, base % U32, window);
    }
  }

  // ---- The sender after its numbers wrap ----

  // How many numbers are really outstanding, counted modulo 2^32.
  function OutstandingCount(s: Sender): nat {
    (s.next - s.base) % U32
  }

  // The code's window test says what it means except in one situation: the next number has wrapped, the base has not,
  // and the window is full. Then it finds space where there is none.
  lemma WindowTestIsExact(s: Sender, window: nat)
    requires s.base < U32 && s.next < U32 && 1 <= window
    ensures (HasSpace(s, window) <==> OutstandingCount(s) < window) <==>
            (s.base <= s.next || s.next + U32 - s.base < window)
    ensures HasSpace(s, window) <==> OutstandingCount(s) < window || s.next < s.base
  {
    assert OutstandingCount(s) == if s.base <= s.next then s.next - s.base else s.next - s.base + U32;
  }

  function FirstFrame(): Sent {
    DataFrame(0, 0, [])
  }

  // The receiver waits for number `k` with an empty reorder buffer, and the first frame can still arrive again.
  ghost predicate DeliveredAll(s: State, k: nat) {
    && |s.rx.delivered| == k && s.rx.base == k % U32 && s.rx.buf == map[]
    && (k > 0 ==> FirstFrame() in s.data)
  }

  // `k` payloads were sent, delivered and acknowledged, the first of them after all its retransmissions, and a stale ACK
  // for it lingers.
  ghost predicate Idle(c: Config, s: State, k: nat) {
    && Inv(c, s) && |s.sent| == k < U32
    && s.tx.buf == map[] && s.abandoned == {}
    && s.tx.base == k
    && s.tx.acked == (if k == 0 then map[] else map[0 := true])
    && DeliveredAll(s, k)
    && (k > 0 ==> Tries(s.attempts, 0) == 1 + c.maxRetry)
  }

  function SendEmpty(): Event {
    Send(0, [], 0.0, true)
  }

  // One send, its frame's arrival, and the ACK's arrival.
  function AfterExchange(c: Config, s: State): State {
    var n := s.tx.next;
    Next(c, Next(c, Next(c, s, SendEmpty()), DataArrives(DataFrame(0, n, []))), AckArrives(n))
  }

  lemma IdleNext(c: Config, s: State, k: nat)
    requires Idle(c, s, k)
    ensures s.tx.next == k
  {
  }

  lemma ExchangeResult(c: Config, s: State, k: nat)
    requires 1 <= c.window <= U32 && Idle(c, s, k)
    ensures Enabled(s, SendEmpty())
    ensures Enabled(Next(c, s, SendEmpty()), DataArrives(DataFrame(0, k, [])))
    ensures Enabled(Next(c, Next(c, s, SendEmpty()), DataArrives(DataFrame(0, k, []))), AckArrives(k))
    ensures var t := AfterExchange(c, s);
      && |t.sent| == k + 1 && t.tx.buf == map[] && t.abandoned == {} && t.tx.next == Succ(k)
      && (t.tx.base, t.tx.acked) == Slide(k, s.tx.acked[k := true])
      && k in t.acks && DeliveredAll(t, k + 1)
      && (k > 0 ==> Tries(t.attempts, 0) == 1 + c.maxRetry)
  {
    hide Inv, Slide, AfterReceive;
    assert s.tx.next == k by { IdleNext(c, s, k); }
    ReceiveNext(s.rx, c.window, []);
  }

  lemma SlideOnce(k: nat)
    ensures Slide(0, map[0 := true]) == (1, map[])
    ensures k > 0 && k + 1 < U32 ==> Slide(k, map[0 := true][k := true]) == (k + 1, map[0 := true])
    ensures Slide(U32 - 1, map[0 := true][U32 - 1 := true]) == (1, map[])
    ensures Slide(1, map[0 := true]) == (1, map[0 := true])
  {
    SlideTurn(0, map[0 := true]);
    SlideTurn(1, map[]);
    SlideTurn(1, map[0 := true]);
    assert map[0 := true] - {0} == map[];
    var acked := map[0 := true][k := true];
    SlideTurn(k, acked);
    SlideTurn(k + 1, map[0 := true]);
    assert k > 0 ==> acked - {k} == map[0 := true];
    var last := map[0 := true][U32 - 1 := true];
    SlideTurn(U32 - 1, last);
    assert last - {U32 - 1} == map[0 := true];
  }

  lemma ReachExchange(c: Config, s: State, k: nat)
    requires 1 <= c.window <= U32 && Reachable(c, s) && Idle(c, s, k)
    ensures Reachable(c, AfterExchange(c, s))
  {
    IdleNext(c, s, k);
    hide Inv, Next, Enabled, Reachable, Idle;
    ExchangeResult(c, s, k);
    var s1 := Next(c, s, SendEmpty());
    ReachableNext(c, s, SendEmpty());
    var s2 := Next(c, s1, DataArrives(DataFrame(0, k, [])));
    ReachableNext(c, s1, DataArrives(DataFrame(0, k, [])));
    ReachableNext(c, s2, AckArrives(k));
  }

  lemma StaleAck(c: Config, s: State)
    requires 0 in s.acks && s.tx.buf == map[] && s.abandoned == {} && s.tx.base == 1 && s.tx.acked == map[]
    ensures Enabled(s, AckArrives(0))
    ensures var t := Next(c, s, AckArrives(0));
      && t.sent == s.sent && t.tx.buf == map[] && t.abandoned == {} && t.tx.base == 1 && t.tx.acked == map[0 := true]
      && t.rx == s.rx && t.data == s.data
  {
    SlideOnce(0);
  }

  // The first frame was sent and `r` times retransmitted, and nothing has arrived.
  ghost predicate Retried(c: Config, s: State, r: nat) {
    && s.tx.base == 0 && s.tx.next == 1 && s.tx.acked == map[] && s.abandoned == {} && s.acks == {}
    && |s.sent| == 1 && s.rx == START.rx && FirstFrame() in s.data
    && s.tx.buf.Keys == {0} && s.tx.buf[0].frame == FirstFrame() && s.tx.buf[0].retries == r
    && Tries(s.attempts, 0) == 1 + r
  }

  // A timer pass late enough for the one frame that is held.
  function LateTimer(c: Config, s: State): Event
    requires 0 in s.tx.buf
  {
    Timer(s.tx.buf[0].sentAt + if c.timeout > 0.0 then c.timeout else 0.0, {})
  }

  lemma RetryOnce(c: Config, s: State, r: nat)
    requires Retried(c, s, r) && r < c.maxRetry
    ensures Retried(c, Next(c, s, LateTimer(c, s)), r + 1)
  {
    var e, t := LateTimer(c, s), Next(c, s, LateTimer(c, s));
    assert Resends(s.tx.buf[0], e.now, c.timeout, c.maxRetry);
    TimerCountsTries(c, s, e, 0);
    hide DataFrame, Readings, Expired;
    assert 0 in Resent(s.tx, e.now, c.timeout, c.maxRetry);
    assert GivenUp(s.tx, e.now, c.timeout, c.maxRetry) == {};
    assert t.tx.buf.Keys == {0};
  }

  lemma HeldFirst(c: Config, s: State, r: nat)
    requires Retried(c, s, r)
    ensures 0 in s.tx.buf
  {
  }

  lemma FirstSend(c: Config)
    requires 1 <= c.window
    ensures Retried(c, Next(c, START, SendEmpty()), 0)
  {
  }

  lemma {:induction false} ReachRetried(c: Config, r: nat) returns (s: State)
    requires 1 <= c.window && r <= c.maxRetry
    ensures Reachable(c, s) && Retried(c, s, r)
  {
    hide Reachable, Next, Retried;
    if r == 0 {
      NoEvents(c, START);
      StartIsReachable(c);
      assert Enabled(START, SendEmpty());
      ReachableNext(c, START, SendEmpty());
      s := Next(c, START, SendEmpty());
      FirstSend(c);
    } else {
      var p := ReachRetried(c, r - 1);
      RetryOnce(c, p, r - 1);
      HeldFirst(c, p, r - 1);
      assert Enabled(p, LateTimer(c, p));
      ReachableNext(c, p, LateTimer(c, p));
      s := Next(c, p, LateTimer(c, p));
    }
  }

  // The first exchange: all retransmissions, then the frame arrives, its ACK, and a copy of the ACK that comes too late.
  function FirstArrivals(c: Config, s: State): State {
    Next(c, Next(c, Next(c, s, DataArrives(FirstFrame())), AckArrives(0)), AckArrives(0))
  }

  lemma FirstArrivalsResult(c: Config, s: State)
    requires 1 <= c.window <= U32 && Retried(c, s, c.maxRetry)
    ensures Enabled(s, DataArrives(FirstFrame()))
    ensures Enabled(Next(c, s, DataArrives(FirstFrame())), AckArrives(0))
    ensures Enabled(Next(c, Next(c, s, DataArrives(FirstFrame())), AckArrives(0)), AckArrives(0))
    ensures var t := FirstArrivals(c, s);
      && |t.sent| == 1 && t.tx.buf == map[] && t.abandoned == {} && t.tx.base == 1 && t.tx.acked == map[0 := true]
      && DeliveredAll(t, 1) && Tries(t.attempts, 0) == 1 + c.maxRetry
  {
    ReceiveNext(s.rx, c.window, []);
    SlideOnce(0);
    hide AfterReceive, Slide, Readings;
    var s1 := Next(c, s, DataArrives(FirstFrame()));
    var s2 := Next(c, s1, AckArrives(0));
    assert s2.tx.buf == map[];
    StaleAck(c, s2);
  }

  lemma FirstExchange(c: Config) returns (s: State)
    requires 1 <= c.window <= U32
    ensures Reachable(c, s) && Idle(c, s, 1)
  {
    hide Inv, Next, Enabled, Reachable, Retried, DeliveredAll;
    var p := ReachRetried(c, c.maxRetry);
    FirstArrivalsResult(c, p);
    ReachableNext(c, p, DataArrives(FirstFrame()));
    var p1 := Next(c, p, DataArrives(FirstFrame()));
    ReachableNext(c, p1, AckArrives(0));
    var p2 := Next(c, p1, AckArrives(0));
    ReachableNext(c, p2, AckArrives(0));
    s := FirstArrivals(c, p);
    ReachableInv(c, s);
  }

  lemma LaterExchange(c: Config, p: State, k: nat)
    requires 1 <= c.window <= U32 && Reachable(c, p) && 1 <= k < U32 - 1 && Idle(c, p, k)
    ensures Reachable(c, AfterExchange(c, p)) && Idle(c, AfterExchange(c, p), k + 1)
  {
    hide Inv, Next, Slide, Enabled, Reachable, AfterExchange;
    ExchangeResult(c, p, k);
    ReachExchange(c, p, k);
    SlideOnce(k);
    ReachableInv(c, AfterExchange(c, p));
  }

  lemma {:induction false} ReachIdle(c: Config, k: nat) returns (s: State)
    requires 1 <= c.window <= U32 && k < U32
    ensures Reachable(c, s) && Idle(c, s, k)
  {
    if k == 0 {
      s := START;
      NoEvents(c, START);
      StartInv(c);
    } else if k == 1 {
      s := FirstExchange(c);
    } else {
      hide Reachable, Idle, AfterExchange;
      var p := ReachIdle(c, k - 1);
      LaterExchange(c, p, k - 1);
      s := AfterExchange(c, p);
    }
  }

  // A stale duplicate ACK is remembered for ever, so in the next lap the base runs past a number nobody has sent:
  // after exactly 2^32 accepted sends, the base can be one ahead of the next number.
  lemma StaleAckOvertakesAfterWrap(c: Config) returns (s: State)
    requires 1 <= c.window <= U32
    ensures Reachable(c, s) && |s.sent| == U32
    ensures s.tx.next == 0 && s.tx.base == 1
  {
    hide Inv, Next, Slide, Enabled, Reachable, AfterExchange;
    var k := U32 - 1;
    var p := ReachIdle(c, k);
    ExchangeResult(c, p, k);
    ReachExchange(c, p, k);
    s := AfterExchange(c, p);
    SlideOnce(k);
  }

  lemma ArrivesAgain(c: Config, s: State)
    requires FirstFrame() in s.data
    ensures Enabled(s, DataArrives(FirstFrame()))
    ensures var t := Next(c, s, DataArrives(FirstFrame()));
      t.sent == s.sent && t.rx == AfterReceive(s.rx, c.window, 0, [])
  {
    hide AfterReceive;
  }

  // After exactly 2^32 accepted sends the receiver waits for number 0 again, and takes a late copy of the very first
  // frame for a new one: it has handed over one payload more than were sent.
  lemma DeliversTooMuchAfterWrap(c: Config) returns (s: State)
    requires 1 <= c.window <= U32
    ensures Reachable(c, s) && |s.sent| == U32 && |s.rx.delivered| == U32 + 1
  {
    hide Inv, Next, Slide, Enabled, Reachable, AfterExchange, AfterReceive;
    var k := U32 - 1;
    var p := ReachIdle(c, k);
    ExchangeResult(c, p, k);
    ReachExchange(c, p, k);
    var t := AfterExchange(c, p);
    ReceiveNext(t.rx, c.window, []);
    s := Next(c, t, DataArrives(FirstFrame()));
    ArrivesAgain(c, t);
    ReachableNext(c, t, DataArrives(FirstFrame()));
  }

  lemma BuffersFirst(r: Receiver, window: nat)
    requires 1 <= r.base < U32 && 1 <= window <= U32 < r.base + window && r.buf == map[]
    ensures 0 in AfterReceive(r, window, 0, []).buf
  {
    InWindowMeaning(0, r.base, window);
    assert (0 - r.base) % U32 == U32 - r.base;
    DrainTurn(Buffered(r, 0, []));
  }

  lemma BuffersDeliveredFrame(c: Config, k: nat) returns (s: State)
    requires 1 <= c.window <= U32 && k < U32 < k + c.window
    ensures Reachable(c, s) && |s.sent| == k && 0 in s.rx.buf
  {
    hide Inv, Next, Slide, Enabled, Reachable, AfterReceive;
    var t := ReachIdle(c, k);
    ArrivesAgain(c, t);
    s := Next(c, t, DataArrives(FirstFrame()));
    ReachableNext(c, t, DataArrives(FirstFrame()));
    BuffersFirst(t.rx, c.window);
  }

  // `m` frames were sent since the sender was idle at `k`.
  predicate Filling(s: State, k: nat, m: nat) {
    && s.tx.base == k && s.tx.next == (if k + m < U32 then k + m else 0) && |s.sent| == k + m
    && |s.tx.buf| == m && (forall n :: n in s.tx.buf ==> k <= n < k + m)
  }

  lemma FillOne(c: Config, s: State, k: nat, m: nat)
    requires 1 <= c.window < U32 && k == U32 - c.window && m <= c.window && Filling(s, k, m)
    ensures var t := Next(c, s, SendEmpty());
      && |t.tx.buf| == m + 1 && |t.sent| == k + m + 1 && (m < c.window ==> Filling(t, k, m + 1))
  {
    hide DataFrame, Readings;
    var t := Next(c, s, SendEmpty());
    var n := s.tx.next;
    assert n !in s.tx.buf;
    assert t.tx.buf.Keys == s.tx.buf.Keys + {n};
    assert t.tx.next == if n + 1 < U32 then n + 1 else 0;
  }

  lemma {:induction false} ReachFilling(c: Config, k: nat, m: nat) returns (s: State)
    requires 1 <= c.window < U32 && k == U32 - c.window && m <= c.window
    ensures Reachable(c, s) && Filling(s, k, m)
    decreases m
  {
    if m == 0 {
      hide Inv, Reachable;
      s := ReachIdle(c, k);
      IdleNext(c, s, k);
    } else {
      hide Next, Reachable, Filling;
      var p := ReachFilling(c, k, m - 1);
      FillOne(c, p, k, m - 1);
      assert Enabled(p, SendEmpty());
      ReachableNext(c, p, SendEmpty());
      s := Next(c, p, SendEmpty());
    }
  }

  // The window bound really fails after the wrap: some run with 2^32 + 1 accepted sends holds window + 1 frames.
  lemma WindowOverfillsAfterWrap(c: Config) returns (s: State)
    requires 1 <= c.window < U32
    ensures Reachable(c, s) && |s.sent| == U32 + 1 && |s.tx.buf| == c.window + 1
  {
    hide Next, Reachable, Filling;
    var k := U32 - c.window;
    var p := ReachFilling(c, k, c.window);
    FillOne(c, p, k, c.window);
    assert Enabled(p, SendEmpty());
    ReachableNext(c, p, SendEmpty());
    s := Next(c, p, SendEmpty());
  }

  // ---- How long a run may be ----

  lemma ReachedByRun(c: Config, es: seq<Event>)
    requires Possible(c, START, es)
    ensures Reachable(c, Run(c, START, es))
  {
  }

  lemma Fewer(m: map<nat, Entry>, kept: map<nat, Entry>)
    requires kept.Keys <= m.Keys
    ensures |kept| <= |m|
  {
    assert m.Keys == kept.Keys + (m.Keys - kept.Keys);
  }

  lemma OnlySendsAdd(c: Config, s: State, e: Event)
    requires !e.Send?
    ensures |Next(c, s, e).tx.buf| <= |s.tx.buf|
  {
    hide Slide, Expired, AfterReceive, Readings, GivesUp, Resends, Ticked;
    var t := Next(c, s, e);
    match e
    case Timer(_, _) => Fewer(s.tx.buf, t.tx.buf);
    case DataArrives(_) =>
    case AckArrives(_) => Fewer(s.tx.buf, t.tx.buf);
  }

  lemma SendHoldsAtMostWindow(c: Config, s: State, e: Event)
    requires c.window <= U32 && Reachable(c, s) && e.Send? && |s.tx.buf| <= c.window && |Next(c, s, e).sent| <= U32
    ensures |Next(c, s, e).tx.buf| <= c.window
  {
    hide Reachable, Readings, DataFrame;
    var t := Next(c, s, e);
    if t.sent != s.sent {
      ReachableInv(c, s);
      RangeSize(s.tx.base, s.tx.next, s.tx.buf.Keys);
      assert t.tx.buf.Keys == s.tx.buf.Keys + {s.tx.next};
    }
  }

  // Up to exactly 2^32 accepted sends the sender holds no more than `window` frames: the last of them still finds the
  // test honest, and nothing but a send adds a frame.
  lemma {:induction false} RunHoldsAtMostWindow(c: Config, es: seq<Event>)
    requires 1 <= c.window <= U32 && Possible(c, START, es) && |Run(c, START, es).sent| <= U32
    ensures |Run(c, START, es).tx.buf| <= c.window
  {
    hide Next, Enabled, Reachable;
    if es != [] {
      var before, e := es[..|es| - 1], es[|es| - 1];
      var s := Run(c, START, before);
      SentGrows(c, s, e);
      RunHoldsAtMostWindow(c, before);
      if e.Send? {
        ReachedByRun(c, before);
        SendHoldsAtMostWindow(c, s, e);
      } else {
        OnlySendsAdd(c, s, e);
      }
    }
  }

  ghost predicate NumbersInv(c: Config, s: State) {
    EntriesInv(c, s) && s.tx.next == |s.sent| % U32
  }

  lemma SendKeepsNumbers(c: Config, s: State, e: Event)
    requires NumbersInv(c, s) && e.Send? && |Next(c, s, e).sent| <= U32
    ensures NumbersInv(c, Next(c, s, e))
  {
    if |s.sent| < U32 {
      SendKeepsEntriesInv(c, s, e);
    }
    hide EntriesInv, Readings, DataFrame;
    assert |s.sent| >= U32 ==> Next(c, s, e) == s;
  }

  lemma AckKeepsNumbers(c: Config, s: State, n: nat)
    requires NumbersInv(c, s)
    ensures NumbersInv(c, Next(c, s, AckArrives(n)))
  {
    hide Slide, Readings, WellTimed, IsCurrent;
  }

  lemma TimerKeepsNumbers(c: Config, s: State, e: Event)
    requires NumbersInv(c, s) && e.Timer?
    ensures NumbersInv(c, Next(c, s, e))
  {
    TimerKeepsEntriesInv(c, s, e);
    hide EntriesInv, Readings, Expired;
  }

  lemma DataKeepsNumbers(c: Config, s: State, f: Sent)
    requires NumbersInv(c, s)
    ensures NumbersInv(c, Next(c, s, DataArrives(f)))
  {
    hide AfterReceive, Readings, WellTimed, IsCurrent;
  }

  // Up to exactly 2^32 accepted sends no number is sent anew, so its transmissions are those of one entry.
  lemma {:induction false} RunKeepsNumbers(c: Config, es: seq<Event>)
    requires |Run(c, START, es).sent| <= U32
    ensures NumbersInv(c, Run(c, START, es))
  {
    if es != [] {
      var before, e := es[..|es| - 1], es[|es| - 1];
      var s := Run(c, START, before);
      hide Next, NumbersInv;
      SentGrows(c, s, e);
      RunKeepsNumbers(c, before);
      match e
      case Send(_, _, _, _) => SendKeepsNumbers(c, s, e);
      case Timer(_, _) => TimerKeepsNumbers(c, s, e);
      case DataArrives(f) => DataKeepsNumbers(c, s, f);
      case AckArrives(n) => AckKeepsNumbers(c, s, n);
    }
  }

  // The second send of number 0, at the clock reading of its latest transmission.
  function SendAgain(s: State): Event
    requires Readings(s.attempts, 0) != []
  {
    Send(0, [], Readings(s.attempts, 0)[|Readings(s.attempts, 0)| - 1], true)
  }

  lemma SendsFirstAgain(c: Config, s: State)
    requires s.tx.next == 0 && s.tx.base == 1 && c.window >= 1 && Readings(s.attempts, 0) != []
    ensures Enabled(s, SendAgain(s))
    ensures var t := Next(c, s, SendAgain(s));
      && |t.sent| == |s.sent| + 1 && Tries(t.attempts, 0) == Tries(s.attempts, 0) + 1
      && (c.timeout > 0.0 ==> !Apart(Readings(t.attempts, 0), c.timeout))
  {
    var past, now := Readings(s.attempts, 0), SendAgain(s).now;
    assert (past + [now])[|past|] - (past + [now])[|past| - 1] == 0.0;
  }

  // Number 0 used up all its retransmissions in the first lap, and after 2^32 sends it is sent once more, at once.
  lemma SendsTooOftenAfterWrap(c: Config) returns (s: State)
    requires 1 <= c.window <= U32
    ensures Reachable(c, s) && |s.sent| == U32 + 1 && Tries(s.attempts, 0) == 2 + c.maxRetry
    ensures c.timeout > 0.0 ==> !Apart(Readings(s.attempts, 0), c.timeout)
  {
    hide Inv, Next, Slide, Enabled, Reachable, AfterExchange, DeliveredAll, Readings, Apart;
    var k := U32 - 1;
    var p := ReachIdle(c, k);
    ExchangeResult(c, p, k);
    ReachExchange(c, p, k);
    var t := AfterExchange(c, p);
    SlideOnce(k);
    SendsFirstAgain(c, t);
    ReachableNext(c, t, SendAgain(t));
    s := Next(c, t, SendAgain(t));
  }

  ghost predicate TransmitsAtMost(c: Config, n: nat) {
    forall s, m: nat :: Reachable(c, s) && |s.sent| <= n ==> Tries(s.attempts, m) <= 1 + c.maxRetry
  }

  // No number is transmitted more than 1 + max_retries times in all runs with at most `n` accepted sends exactly when
  // n <= 2^32.
  lemma TransmissionsAreBoundedIff(c: Config, n: nat)
    requires 1 <= c.window <= U32
    ensures TransmitsAtMost(c, n) <==> n <= U32
  {
    hide Next, Enabled, Readings, Apart;
    if n <= U32 {
      forall s, m: nat | Reachable(c, s) && |s.sent| <= n ensures Tries(s.attempts, m) <= 1 + c.maxRetry {
        var es :| Possible(c, START, es) && Run(c, START, es) == s;
        RunKeepsNumbers(c, es);
      }
    } else {
      hide Reachable;
      var s := SendsTooOftenAfterWrap(c);
      assert Tries(s.attempts, 0) > 1 + c.maxRetry && |s.sent| <= n;
    }
  }

  ghost predicate TransmitsApart(c: Config, n: nat) {
    forall s, m: nat :: Reachable(c, s) && |s.sent| <= n ==> Apart(Readings(s.attempts, m), c.timeout)
  }

  // And the transmissions of one number are a timeout apart in the same runs.
  lemma TransmissionsAreApartIff(c: Config, n: nat)
    requires 1 <= c.window <= U32 && c.timeout > 0.0
    ensures TransmitsApart(c, n) <==> n <= U32
  {
    hide Next, Enabled, Readings, Apart;
    if n <= U32 {
      forall s, m: nat | Reachable(c, s) && |s.sent| <= n ensures Apart(Readings(s.attempts, m), c.timeout) {
        var es :| Possible(c, START, es) && Run(c, START, es) == s;
        RunKeepsNumbers(c, es);
        assert WellTimed(c, Readings(s.attempts, m));
      }
    } else {
      hide Reachable;
      var s := SendsTooOftenAfterWrap(c);
      assert !Apart(Readings(s.attempts, 0), c.timeout) && |s.sent| <= n;
    }
  }

  ghost predicate HoldsAtMostWindow(c: Config, n: nat) {
    forall s :: Reachable(c, s) && |s.sent| <= n ==> |s.tx.buf| <= c.window
  }

  ghost predicate BaseNeverOvertakes(c: Config, n: nat) {
    forall s :: Reachable(c, s) && |s.sent| <= n ==> s.tx.base <= s.tx.next
  }

  ghost predicate BuffersAhead(c: Config, n: nat) {
    forall s, m :: Reachable(c, s) && |s.sent| <= n && m in s.rx.buf ==> s.rx.base < m
  }

  // Shortly before the wrap the receive window reaches past 2^32, and a late copy of a delivered frame is buffered: no
  // number at or below the base is buffered in all runs with at most `n` accepted sends exactly when n + window <= 2^32.
  lemma BuffersAheadIff(c: Config, n: nat)
    requires 1 <= c.window <= U32 && n < U32
    ensures BuffersAhead(c, n) <==> n + c.window <= U32
  {
    hide Next, Enabled, Reachable;
    if n + c.window <= U32 {
      forall s, m | Reachable(c, s) && |s.sent| <= n && m in s.rx.buf ensures s.rx.base < m {
        ReorderBufferIsAhead(c, s);
        DeliveredIsPrefixOfSent(c, s);
      }
    } else {
      var s := BuffersDeliveredFrame(c, n);
      assert 0 in s.rx.buf;
    }
  }

  ghost predicate DeliversPrefixes(c: Config, n: nat) {
    forall s :: Reachable(c, s) && |s.sent| <= n ==> s.rx.delivered <= s.sent
  }

  // The delivered list is a prefix of the sent payloads in all runs with at most `n` accepted sends exactly when
  // n < 2^32.
  lemma DeliversPrefixesIff(c: Config, n: nat)
    requires 1 <= c.window <= U32
    ensures DeliversPrefixes(c, n) <==> n < U32
  {
    hide Next, Enabled, Reachable;
    if n < U32 {
      forall s | Reachable(c, s) && |s.sent| <= n ensures s.rx.delivered <= s.sent {
        DeliveredIsPrefixOfSent(c, s);
      }
    } else {
      var s := DeliversTooMuchAfterWrap(c);
      assert |s.sent| <= n;
    }
  }

  // The sender keeps its window in all runs with at most `n` accepted sends exactly when n <= 2^32.
  lemma WindowIsKeptIff(c: Config, n: nat)
    requires 1 <= c.window < U32
    ensures HoldsAtMostWindow(c, n) <==> n <= U32
  {
    hide Next, Enabled;
    if n <= U32 {
      forall s | Reachable(c, s) && |s.sent| <= n ensures |s.tx.buf| <= c.window {
        var es :| Possible(c, START, es) && Run(c, START, es) == s;
        RunHoldsAtMostWindow(c, es);
      }
    } else {
      hide Reachable;
      var s := WindowOverfillsAfterWrap(c);
      assert |s.sent| <= n;
    }
  }

  // And its base stays at or below its next number exactly when n < 2^32.
  lemma BaseNeverOvertakesIff(c: Config, n: nat)
    requires 1 <= c.window <= U32
    ensures BaseNeverOvertakes(c, n) <==> n < U32
  {
    hide Next, Enabled, Reachable;
    if n < U32 {
      forall s | Reachable(c, s) && |s.sent| <= n ensures s.tx.base <= s.tx.next {
        DeliveredIsPrefixOfSent(c, s);
      }
    } else {
      var s := StaleAckOvertakesAfterWrap(c);
      assert |s.sent| <= n;
    }
  }
}
