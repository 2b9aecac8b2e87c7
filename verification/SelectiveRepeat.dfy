/** Selective Repeat ARQ: one object with the sender's and the receiver's state, as in protocol/reliability.py. */
module SelectiveRepeat {
  import opened Bytes
  import opened Frame

  const FLAG_RELIABLE: byte := 0x01

  // A frame held for retransmission.
  datatype Entry = Entry(frame: Sent, sentAt: real, retries: nat)

  datatype Sender = Sender(base: nat, next: nat, buf: map<nat, Entry>, acked: map<nat, bool>)

  datatype Receiver = Receiver(base: nat, buf: map<nat, bytes>, delivered: seq<bytes>)

  datatype SendOutcome = Assigned(seqNo: nat) | WindowFull | SocketError | PayloadRaises

  // The next number on 32 bits.
  function Succ(n: nat): nat {
    (n + 1) % U32
  }

  // The frame `build_frame(msg_type, seq, payload, FLAG_RELIABLE)` encodes.
  function DataFrame(msgType: int, seqNo: nat, payload: bytes): Sent
    requires |payload| <= MAX_PAYLOAD
  {
    Valid(VERSION, msgType % 0x100, FLAG_RELIABLE, seqNo % U32, payload)
  }

  lemma DataFrameIsBuilt(msgType: int, seqNo: nat, payload: bytes)
    requires |payload| <= MAX_PAYLOAD
    ensures Build(msgType, seqNo, payload, FLAG_RELIABLE) == Built(Encoded(DataFrame(msgType, seqNo, payload)))
  {
    hide Encode, Parse;
  }

  // The code's window test: it subtracts without wrapping.
  predicate HasSpace(s: Sender, window: nat) {
    s.next - s.base < window
  }

  function OutcomeOf(s: Sender, window: nat, payload: bytes, sockOk: bool): SendOutcome {
    if !HasSpace(s, window) then WindowFull
    else if |payload| > MAX_PAYLOAD then PayloadRaises
    else if !sockOk then SocketError
    else Assigned(s.next)
  }

  function AfterSend(s: Sender, window: nat, msgType: int, payload: bytes, now: real, sockOk: bool): Sender {
    if OutcomeOf(s, window, payload, sockOk).Assigned? then
      s.(next := Succ(s.next), buf := s.buf[s.next := Entry(DataFrame(msgType, s.next, payload), now, 0)])
    else
      s
  }

  predicate IsAcked(acked: map<nat, bool>, n: nat) {
    n in acked && acked[n]
  }

  lemma Shrinks<T>(m: map<nat, T>, n: nat)
    requires n in m
    ensures |m - {n}| < |m|
  {
    assert (m - {n}).Keys == m.Keys - {n};
    assert |m.Keys - {n}| == |m.Keys| - 1;
  }

  // Moves the base past every acknowledged number and forgets those acknowledgements.
  function Slide(base: nat, acked: map<nat, bool>): (r: (nat, map<nat, bool>))
    ensures !IsAcked(r.1, r.0)
    decreases |acked|
  {
    if IsAcked(acked, base) then
      assert |acked - {base}| < |acked| by { Shrinks(acked, base); }
      Slide(Succ(base), acked - {base})
    else
      (base, acked)
  }

  lemma SlideTurn(base: nat, acked: map<nat, bool>)
    ensures Slide(base, acked) == if IsAcked(acked, base) then Slide(Succ(base), acked - {base}) else (base, acked)
  {
  }

  function AfterAck(s: Sender, n: nat): (r: Sender)
    ensures !IsAcked(r.acked, r.base)
  {
    var (base, acked) := Slide(s.base, s.acked[n := true]);
    Sender(base, s.next, s.buf - {n}, acked)
  }

  predicate Expired(e: Entry, now: real, timeout: real) {
    now - e.sentAt >= timeout
  }

  predicate GivesUp(e: Entry, now: real, timeout: real, maxRetry: nat) {
    Expired(e, now, timeout) && e.retries >= maxRetry
  }

  predicate Resends(e: Entry, now: real, timeout: real, maxRetry: nat) {
    Expired(e, now, timeout) && e.retries < maxRetry
  }

  function Ticked(e: Entry, now: real, timeout: real): Entry {
    if Expired(e, now, timeout) then e.(sentAt := now, retries := e.retries + 1) else e
  }

  // The numbers one timer pass abandons, and those it retransmits.
  function GivenUp(s: Sender, now: real, timeout: real, maxRetry: nat): set<nat> {
    set n | n in s.buf && GivesUp(s.buf[n], now, timeout, maxRetry)
  }

  function Resent(s: Sender, now: real, timeout: real, maxRetry: nat): set<nat> {
    set n | n in s.buf && Resends(s.buf[n], now, timeout, maxRetry)
  }

  function AfterTimer(s: Sender, now: real, timeout: real, maxRetry: nat): Sender {
    s.(buf := map n | n in s.buf && !GivesUp(s.buf[n], now, timeout, maxRetry) :: Ticked(s.buf[n], now, timeout))
  }

  lemma TurnMeans(e: Entry, now: real, timeout: real, maxRetry: nat)
    ensures GivesUp(e, now, timeout, maxRetry) <==> now - e.sentAt >= timeout && e.retries >= maxRetry
    ensures Resends(e, now, timeout, maxRetry) <==> now - e.sentAt >= timeout && e.retries < maxRetry
    ensures Ticked(e, now, timeout) == if now - e.sentAt >= timeout then Entry(e.frame, now, e.retries + 1) else e
  {
  }

  lemma AfterTimerMeans(s: Sender, now: real, timeout: real, maxRetry: nat)
    ensures var t := AfterTimer(s, now, timeout, maxRetry);
      && (forall n :: n in t.buf <==> n in s.buf && (now - s.buf[n].sentAt < timeout || s.buf[n].retries < maxRetry))
      && (forall n :: n in t.buf ==>
            var e := s.buf[n];
            t.buf[n] == if now - e.sentAt >= timeout then Entry(e.frame, now, e.retries + 1) else e)
    ensures forall n :: n in Resent(s, now, timeout, maxRetry) <==>
      n in s.buf && now - s.buf[n].sentAt >= timeout && s.buf[n].retries < maxRetry
  {
  }

  // The frames held under these numbers, in this order.
  function Frames(buf: map<nat, Entry>, order: seq<nat>): seq<Sent> {
    if order == [] then []
    else Frames(buf, order[..|order| - 1])
         + if order[|order| - 1] in buf then [buf[order[|order| - 1]].frame] else []
  }

  lemma NoFrames(buf: map<nat, Entry>)
    ensures Frames(buf, []) == []
  {
  }

  lemma FramesSnoc(buf: map<nat, Entry>, order: seq<nat>, n: nat)
    requires n in buf
    ensures Frames(buf, order + [n]) == Frames(buf, order) + [buf[n].frame]
  {
    assert (order + [n])[..|order|] == order;
  }

  predicate InWindow(seqNo: nat, base: nat, hi: nat) {
    if base <= hi then base <= seqNo <= hi else seqNo >= base || seqNo <= hi
  }

  // The last number of the receive window, on 32 bits.
  function WindowEnd(base: nat, window: nat): nat {
    (base + window - 1) % U32
  }

  // Hands over contiguous frames from the base on.
  function Drain(r: Receiver): (d: Receiver)
    ensures r.delivered <= d.delivered && d.base !in d.buf
    decreases |r.buf|
  {
    if r.base in r.buf then
      assert |r.buf - {r.base}| < |r.buf| by { Shrinks(r.buf, r.base); }
      Drain(Receiver(Succ(r.base), r.buf - {r.base}, r.delivered + [r.buf[r.base]]))
    else
      r
  }

  lemma DrainTurn(r: Receiver)
    ensures Drain(r) == if r.base !in r.buf then r
                        else Drain(Receiver(Succ(r.base), r.buf - {r.base}, r.delivered + [r.buf[r.base]]))
  {
  }

  function Buffered(r: Receiver, seqNo: nat, payload: bytes): Receiver {
    if seqNo in r.buf then r else r.(buf := r.buf[seqNo := payload])
  }

  function AfterReceive(r: Receiver, window: nat, seqNo: nat, payload: bytes): (d: Receiver)
    ensures r.delivered <= d.delivered
  {
    if InWindow(seqNo, r.base, WindowEnd(r.base, window)) then Drain(Buffered(r, seqNo, payload)) else r
  }

  class SelectiveRepeatARQ {
    const window: nat
    const timeout: real
    const maxRetry: nat

    var sendBase: nat
    var nextSeq: nat
    var sendBuf: map<nat, Entry>
    var ackReceived: map<nat, bool>

    var recvBase: nat
    var recvBuf: map<nat, bytes>
    var delivered: seq<bytes>

    // Every frame the socket took, in order.
    var wire: seq<Sent>

    function Tx(): Sender
      reads this
    {
      Sender(sendBase, nextSeq, sendBuf, ackReceived)
    }

    function Rx(): Receiver
      reads this
    {
      Receiver(recvBase, recvBuf, delivered)
    }

    constructor (window: nat, timeout: real, maxRetry: nat)
      ensures this.window == window && this.timeout == timeout && this.maxRetry == maxRetry
      ensures Tx() == Sender(0, 0, map[], map[])
      ensures Rx() == Receiver(0, map[], [])
      ensures wire == []
    {
      this.window, this.timeout, this.maxRetry := window, timeout, maxRetry;
      sendBase, nextSeq, sendBuf, ackReceived := 0, 0, map[], map[];
      recvBase, recvBuf, delivered := 0, map[], [];
      wire := [];
    }

    method Send(msgType: int, payload: bytes, now: real, sockOk: bool) returns (r: SendOutcome)
      modifies this
      ensures Tx() == AfterSend(old(Tx()), window, msgType, payload, now, sockOk)
      ensures r == OutcomeOf(old(Tx()), window, payload, sockOk)
      ensures Rx() == old(Rx())
      // When `send` takes the payload, when it returns None and when it raises.
      ensures r.WindowFull? <==> old(nextSeq) - old(sendBase) >= window
      ensures r.PayloadRaises? <==>
        old(nextSeq) - old(sendBase) < window && Build(msgType, old(nextSeq), payload, 1).PayloadTooLarge?
      ensures r == Assigned(old(nextSeq)) <==>
        old(nextSeq) - old(sendBase) < window && Build(msgType, old(nextSeq), payload, 1).Built? && sockOk
      // Then one frame goes out, the one that `build_frame` makes, and is held with the time it was sent.
      ensures r.Assigned? ==>
        && |wire| == |old(wire)| + 1 && wire[..|old(wire)|] == old(wire)
        && Build(msgType, old(nextSeq), payload, 1) == Built(Encoded(wire[|old(wire)|]))
        && sendBuf == old(sendBuf)[old(nextSeq) := Entry(wire[|old(wire)|], now, 0)]
        && nextSeq == (old(nextSeq) + 1) % 0x1_0000_0000
        && sendBase == old(sendBase) && ackReceived == old(ackReceived)
      ensures !r.Assigned? ==> Tx() == old(Tx()) && wire == old(wire)
    {
      hide Encode, Parse;
      if !(nextSeq - sendBase < window) {
        return WindowFull;
      }
      var seqNo := nextSeq;
      if |payload| > MAX_PAYLOAD {
        return PayloadRaises;
      }
      var frame := DataFrame(msgType, seqNo, payload);
      DataFrameIsBuilt(msgType, seqNo, payload);
      if !sockOk {
        return SocketError;
      }
      wire := wire + [frame];
      sendBuf := sendBuf[seqNo := Entry(frame, now, 0)];
      nextSeq := (nextSeq + 1) % U32;
      r := Assigned(seqNo);
    }

    method ProcessAck(seqNo: nat)
      modifies this
      ensures Tx() == AfterAck(old(Tx()), seqNo)
      ensures Rx() == old(Rx()) && wire == old(wire)
    {
      hide Slide;
      ackReceived := ackReceived[seqNo := true];
      sendBuf := sendBuf - {seqNo};
      while sendBase in ackReceived && ackReceived[sendBase]
        invariant Slide(sendBase, ackReceived) == Slide(old(sendBase), old(ackReceived)[seqNo := true])
        invariant sendBuf == old(sendBuf) - {seqNo} && nextSeq == old(nextSeq)
        invariant Rx() == old(Rx()) && wire == old(wire)
        decreases |ackReceived|
      {
        Shrinks(ackReceived, sendBase);
        SlideTurn(sendBase, ackReceived);
        ackReceived := ackReceived - {sendBase};
        sendBase := (sendBase + 1) % U32;
      }
      SlideTurn(sendBase, ackReceived);
    }

    // `failed` holds the numbers whose retransmission the socket refuses; `order` is the dictionary's iteration order
    // restricted to the frames that went out.
    method RetransmitExpired(now: real, failed: set<nat>) returns (order: seq<nat>)
      modifies this
      ensures Tx() == AfterTimer(old(Tx()), now, timeout, maxRetry)
      // Only frames sent at least a timeout ago are touched: retransmitted, or given up after `maxRetry` times.
      ensures forall n :: n in order <==>
        && n in old(sendBuf) && now - old(sendBuf)[n].sentAt >= timeout && old(sendBuf)[n].retries < maxRetry
        && n !in failed
      ensures forall n :: n in sendBuf <==>
        && n in old(sendBuf)
        && (now - old(sendBuf)[n].sentAt < timeout || old(sendBuf)[n].retries < maxRetry)
      ensures forall n :: n in sendBuf ==>
        var e := old(sendBuf)[n];
        sendBuf[n] == if now - e.sentAt >= timeout then Entry(e.frame, now, e.retries + 1) else e
      ensures forall i, j :: 0 <= i < j < |order| ==> order[i] != order[j]
      ensures wire == old(wire) + Frames(old(sendBuf), order)
      ensures Rx() == old(Rx())
    {
      hide Expired, GivesUp, Resends, Ticked, Frames;
      var items := sendBuf;
      var todo := items.Keys;
      order := [];
      NoFrames(items);
      while todo != {}
        invariant todo <= items.Keys && items == old(sendBuf)
        invariant sendBase == old(sendBase) && nextSeq == old(nextSeq) && ackReceived == old(ackReceived)
        invariant Rx() == old(Rx())
        invariant sendBuf == map n | n in items && (n in todo || !GivesUp(items[n], now, timeout, maxRetry)) ::
          if n in todo then items[n] else Ticked(items[n], now, timeout)
        invariant forall n :: n in order <==>
          n in items && n !in todo && Resends(items[n], now, timeout, maxRetry) && n !in failed
        invariant forall i, j :: 0 <= i < j < |order| ==> order[i] != order[j]
        invariant wire == old(wire) + Frames(items, order)
        decreases |todo|
      {
        var n :| n in todo;
        todo := todo - {n};
        var sent := Retransmit(n, items[n], now, n !in failed);
        TurnMeans(items[n], now, timeout, maxRetry);
        if sent {
          FramesSnoc(items, order, n);
          order := order + [n];
        }
      }
      AfterTimerMeans(old(Tx()), now, timeout, maxRetry);
    }

    // One turn of the timer loop.
    method Retransmit(n: nat, e: Entry, now: real, sockOk: bool) returns (sent: bool)
      requires n in sendBuf && sendBuf[n] == e
      modifies this`sendBuf, this`wire
      ensures sendBuf == if now - e.sentAt < timeout then old(sendBuf)
                         else if e.retries >= maxRetry then old(sendBuf) - {n}
                         else old(sendBuf)[n := Entry(e.frame, now, e.retries + 1)]
      ensures sent <==> now - e.sentAt >= timeout && e.retries < maxRetry && sockOk
      ensures wire == old(wire) + if sent then [e.frame] else []
    {
      sent := false;
      if now - e.sentAt >= timeout {
        if e.retries >= maxRetry {
          sendBuf := sendBuf - {n};
        } else {
          if sockOk {
            wire := wire + [e.frame];
            sent := true;
          }
          sendBuf := sendBuf[n := Entry(e.frame, now, e.retries + 1)];
        }
      }
    }

    method Receive(seqNo: nat, payload: bytes) returns (handed: seq<bytes>)
      modifies this
      ensures Rx() == AfterReceive(old(Rx()), window, seqNo, payload)
      ensures delivered == old(delivered) + handed
      ensures Tx() == old(Tx()) && wire == old(wire)
    {
      hide Drain, InWindow;
      handed := [];
      var hi := (recvBase + window - 1) % U32;
      if InWindow(seqNo, recvBase, hi) {
        if seqNo !in recvBuf {
          recvBuf := recvBuf[seqNo := payload];
        }
        assert old(delivered) + handed == old(delivered);
        while recvBase in recvBuf
          invariant Drain(Receiver(recvBase, recvBuf, old(delivered) + handed))
                 == Drain(Buffered(old(Rx()), seqNo, payload))
          invariant delivered == old(delivered) && Tx() == old(Tx()) && wire == old(wire)
          decreases |recvBuf|
        {
          Shrinks(recvBuf, recvBase);
          DrainTurn(Receiver(recvBase, recvBuf, old(delivered) + handed));
          assert old(delivered) + (handed + [recvBuf[recvBase]]) == old(delivered) + handed + [recvBuf[recvBase]];
          handed := handed + [recvBuf[recvBase]];
          recvBuf := recvBuf - {recvBase};
          recvBase := (recvBase + 1) % U32;
        }
        DrainTurn(Receiver(recvBase, recvBuf, old(delivered) + handed));
        delivered := delivered + handed;
      }
    }
  }
}
